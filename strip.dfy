// Removing every `undefined` from a payload before it is written to the
// document store: `undefined` array elements are dropped, object properties
// whose cleaned value is `undefined` are left out, and this happens at every
// depth.

module Strip {
  import opened Json

  /** The elements of `xs` that are not `undefined`, in order. */
  function Defined(xs: seq<Val>): (ys: seq<Val>)
    ensures |ys| <= |xs|
    ensures forall y :: y in ys ==> y in xs && y != Undef
  {
    if xs == [] then []
    else if xs[0] == Undef then Defined(xs[1..])
    else [xs[0]] + Defined(xs[1..])
  }

  /** The object the loop builds: starting from `{}`, every entry whose
      value is not `undefined` is assigned in turn. */
  function Assigned(es: Fields): Fields
  {
    if es == [] then []
    else
      var o := Assigned(es[..|es| - 1]);
      var e := es[|es| - 1];
      if e.1 == Undef then o else Set(o, e.0, e.1)
  }

  /** The cleaned value of `v` (`stripUndefinedDeep`). */
  function StripDeep(v: Val): Val
    decreases v
  {
    match v
    case Undef => Undef
    case Arr(xs) =>
      Arr(Defined(seq(|xs|, i requires 0 <= i < |xs| => StripDeep(xs[i]))))
    case Obj(fs) =>
      Obj(Assigned(seq(|fs|, i requires 0 <= i < |fs| => (fs[i].0, StripDeep(fs[i].1)))))
    case _ => v
  }

  /** No `undefined` anywhere inside the value, itself included. */
  predicate NoUndef(v: Val)
    decreases v
  {
    match v
    case Undef => false
    case Arr(xs) => forall i :: 0 <= i < |xs| ==> NoUndef(xs[i])
    case Obj(fs) => forall i :: 0 <= i < |fs| ==> NoUndef(fs[i].1)
    case _ => true
  }

  /** Every object inside the value has distinct keys, as objects do. */
  predicate KeysDistinct(v: Val)
    decreases v
  {
    match v
    case Arr(xs) => forall i :: 0 <= i < |xs| ==> KeysDistinct(xs[i])
    case Obj(fs) => UniqueKeys(fs) && forall i :: 0 <= i < |fs| ==> KeysDistinct(fs[i].1)
    case _ => true
  }

  /** The recursive implementation: arrays are mapped and filtered, objects
      are filled in property by property. */
  method StripUndefinedDeep(v: Val) returns (r: Val)
    ensures r == StripDeep(v)
    decreases v
  {
    if v.Undef? {
      return Undef;
    }
    if v.Arr? {
      var xs := v.elems;
      var cleaned := seq(|xs|, i requires 0 <= i < |xs| => StripDeep(xs[i]));
      return Arr(Defined(cleaned));
    }
    if v.Obj? {
      var fs := v.fields;
      ghost var es := seq(|fs|, i requires 0 <= i < |fs| => (fs[i].0, StripDeep(fs[i].1)));
      var out: Fields := [];
      for i := 0 to |fs|
        invariant out == Assigned(es[..i])
      {
        assert fs[i] in fs;
        var cleaned := StripUndefinedDeep(fs[i].1);
        assert es[..i + 1][..i] == es[..i] && es[..i + 1][i] == (fs[i].0, cleaned);
        if cleaned != Undef {
          out := Set(out, fs[i].0, cleaned);
        }
      }
      assert es[..|fs|] == es;
      return Obj(out);
    }
    return v;
  }

  /** Only `undefined` cleans to `undefined`. */
  lemma {:induction false} StripUndefOnly(v: Val)
    ensures StripDeep(v) == Undef <==> v == Undef
  {
  }

  /** Null, booleans, numbers and strings come back unchanged. */
  lemma StripPrimitive(v: Val)
    requires v.Null? || v.Bool? || v.Num? || v.Str?
    ensures StripDeep(v) == v
  {
  }

  /** The values the loop assigns are exactly the defined ones it is given. */
  lemma {:induction false} AssignedEntries(es: Fields)
    ensures forall e :: e in Assigned(es) ==> e in es && e.1 != Undef
  {
    if es != [] {
      var init := es[..|es| - 1];
      var e := es[|es| - 1];
      AssignedEntries(init);
      assert forall x :: x in init ==> x in es;
      if e.1 != Undef {
        SetEntries(Assigned(init), e.0, e.1);
      }
    }
  }

  /** The object the loop builds never repeats a key. */
  lemma {:induction false} AssignedUnique(es: Fields)
    ensures UniqueKeys(Assigned(es))
  {
    if es != [] {
      var init := es[..|es| - 1];
      var e := es[|es| - 1];
      AssignedUnique(init);
      if e.1 != Undef {
        SetUnique(Assigned(init), e.0, e.1);
      }
    }
  }

  /** With distinct keys, reading the built object gives what reading the
      entries gives: a key whose value is `undefined` reads `undefined`
      whether or not it was assigned. */
  lemma {:induction false} AssignedGet(es: Fields, k: string)
    requires UniqueKeys(es)
    ensures Get(Assigned(es), k) == Get(es, k)
  {
    if es != [] {
      var init := es[..|es| - 1];
      var e := es[|es| - 1];
      LastKeyFresh(es);
      GetSnoc(init, e, k);
      AssignedGet(init, k);
      if k !in KeysOf(init) {
        GetMissing(init, k);
      }
    }
  }

  /** The last entry's key is not among the earlier ones. */
  lemma LastKeyFresh(es: Fields)
    requires UniqueKeys(es) && es != []
    ensures es == es[..|es| - 1] + [es[|es| - 1]]
    ensures UniqueKeys(es[..|es| - 1]) && es[|es| - 1].0 !in KeysOf(es[..|es| - 1])
  {
    var init := es[..|es| - 1];
    forall j | 0 <= j < |init| ensures KeysOf(init)[j] != es[|es| - 1].0 {
      assert init[j] == es[j];
    }
  }

  /** Entries with distinct keys and no `undefined` value are rebuilt as they are. */
  lemma {:induction false} AssignedFixes(es: Fields)
    requires UniqueKeys(es)
    requires forall i :: 0 <= i < |es| ==> es[i].1 != Undef
    ensures Assigned(es) == es
  {
    if es != [] {
      var init := es[..|es| - 1];
      var e := es[|es| - 1];
      LastKeyFresh(es);
      AssignedFixes(init);
      SetNew(init, e.0, e.1);
    }
  }

  /** Filtering a sequence that has no `undefined` keeps it whole. */
  lemma {:induction false} DefinedFixes(xs: seq<Val>)
    requires forall i :: 0 <= i < |xs| ==> xs[i] != Undef
    ensures Defined(xs) == xs
  {
    if xs != [] {
      DefinedFixes(xs[1..]);
    }
  }

  /** A cleaned value holds no `undefined` at any depth, unless the value
      itself was `undefined`. */
  lemma {:induction false} StripNoUndef(v: Val)
    requires v != Undef
    ensures NoUndef(StripDeep(v))
    decreases v
  {
    match v
    case Arr(xs) =>
      var cs := seq(|xs|, i requires 0 <= i < |xs| => StripDeep(xs[i]));
      var ys := Defined(cs);
      assert StripDeep(v) == Arr(ys);
      forall j | 0 <= j < |ys| ensures NoUndef(ys[j]) {
        assert ys[j] in cs;
        var i :| 0 <= i < |cs| && cs[i] == ys[j];
        assert xs[i] in xs;
        StripUndefOnly(xs[i]);
        StripNoUndef(xs[i]);
      }
    case Obj(fs) =>
      var es := seq(|fs|, i requires 0 <= i < |fs| => (fs[i].0, StripDeep(fs[i].1)));
      var o := Assigned(es);
      assert StripDeep(v) == Obj(o);
      AssignedEntries(es);
      forall j | 0 <= j < |o| ensures NoUndef(o[j].1) {
        assert o[j] in o;
        var i :| 0 <= i < |es| && es[i] == o[j];
        assert fs[i] in fs;
        StripUndefOnly(fs[i].1);
        StripNoUndef(fs[i].1);
      }
    case _ =>
  }

  /** Every object in a cleaned value has distinct keys. */
  lemma {:induction false} StripKeysDistinct(v: Val)
    ensures KeysDistinct(StripDeep(v))
    decreases v
  {
    match v
    case Arr(xs) =>
      var cs := seq(|xs|, i requires 0 <= i < |xs| => StripDeep(xs[i]));
      var ys := Defined(cs);
      forall j | 0 <= j < |ys| ensures KeysDistinct(ys[j]) {
        assert ys[j] in cs;
        var i :| 0 <= i < |cs| && cs[i] == ys[j];
        assert xs[i] in xs;
        StripKeysDistinct(xs[i]);
      }
    case Obj(fs) =>
      var es := seq(|fs|, i requires 0 <= i < |fs| => (fs[i].0, StripDeep(fs[i].1)));
      var o := Assigned(es);
      AssignedEntries(es);
      AssignedUnique(es);
      forall j | 0 <= j < |o| ensures KeysDistinct(o[j].1) {
        assert o[j] in o;
        var i :| 0 <= i < |es| && es[i] == o[j];
        assert fs[i] in fs;
        StripKeysDistinct(fs[i].1);
      }
    case _ =>
  }

  /** A value with no `undefined` inside it is left as it is. */
  lemma {:induction false} StripFixes(v: Val)
    requires NoUndef(v) && KeysDistinct(v)
    ensures StripDeep(v) == v
    decreases v
  {
    match v
    case Arr(xs) =>
      var cs := seq(|xs|, i requires 0 <= i < |xs| => StripDeep(xs[i]));
      forall i | 0 <= i < |xs| ensures cs[i] == xs[i] {
        assert xs[i] in xs;
        StripFixes(xs[i]);
      }
      assert cs == xs;
      DefinedFixes(xs);
    case Obj(fs) =>
      var es := seq(|fs|, i requires 0 <= i < |fs| => (fs[i].0, StripDeep(fs[i].1)));
      forall i | 0 <= i < |fs| ensures es[i] == fs[i] {
        assert fs[i] in fs;
        StripFixes(fs[i].1);
      }
      assert es == fs;
      AssignedFixes(fs);
    case _ =>
  }

  /** Cleaning twice is cleaning once. */
  lemma StripIdempotent(v: Val)
    ensures StripDeep(StripDeep(v)) == StripDeep(v)
  {
    if v != Undef {
      StripNoUndef(v);
      StripKeysDistinct(v);
      StripFixes(StripDeep(v));
    }
  }

  /** Reading any property of a cleaned object gives the cleaned value of
      that property: defined properties stay, under the same key, and
      properties that clean to `undefined` are gone. */
  lemma StripObjectGet(fs: Fields, k: string)
    requires UniqueKeys(fs)
    ensures StripDeep(Obj(fs)).Obj?
    ensures Get(StripDeep(Obj(fs)).fields, k) == StripDeep(Get(fs, k))
  {
    var es := seq(|fs|, i requires 0 <= i < |fs| => (fs[i].0, StripDeep(fs[i].1)));
    CleanedEntriesGet(fs, es, k);
    AssignedGet(es, k);
  }

  lemma CleanedEntriesGet(fs: Fields, es: Fields, k: string)
    requires UniqueKeys(fs)
    requires |es| == |fs| && forall i :: 0 <= i < |fs| ==> es[i] == (fs[i].0, StripDeep(fs[i].1))
    ensures UniqueKeys(es) && Get(es, k) == StripDeep(Get(fs, k))
  {
    assert KeysOf(es) == KeysOf(fs);
    if k in KeysOf(fs) {
      var i :| 0 <= i < |fs| && KeysOf(fs)[i] == k;
      GetEntry(fs, i);
      GetEntry(es, i);
    }
  }

  /** Reading a primitive, `null` or missing property of a cleaned object
      gives what the object had. */
  lemma StripReads(fs: Fields, k: string)
    requires UniqueKeys(fs)
    requires !Get(fs, k).Arr? && !Get(fs, k).Obj?
    ensures StripDeep(Obj(fs)).Obj?
    ensures Get(StripDeep(Obj(fs)).fields, k) == Get(fs, k)
  {
    StripObjectGet(fs, k);
  }

  /** An object with distinct keys and no `undefined` property keeps every
      property, in order, each value cleaned. */
  lemma StripObjectValues(fs: Fields)
    requires UniqueKeys(fs)
    requires forall i :: 0 <= i < |fs| ==> fs[i].1 != Undef
    ensures StripDeep(Obj(fs)) == Obj(seq(|fs|, i requires 0 <= i < |fs| => (fs[i].0, StripDeep(fs[i].1))))
  {
    var es := seq(|fs|, i requires 0 <= i < |fs| => (fs[i].0, StripDeep(fs[i].1)));
    assert KeysOf(es) == KeysOf(fs);
    forall i | 0 <= i < |es| ensures es[i].1 != Undef {
      StripUndefOnly(fs[i].1);
    }
    AssignedFixes(es);
  }

  /** A cleaned array holds the cleaned defined elements, in their order. */
  lemma {:induction false} StripArrayOrder(xs: seq<Val>)
    ensures StripDeep(Arr(xs)) ==
      Arr(seq(|Defined(xs)|, i requires 0 <= i < |Defined(xs)| => StripDeep(Defined(xs)[i])))
  {
    var cs := seq(|xs|, i requires 0 <= i < |xs| => StripDeep(xs[i]));
    DefinedMap(xs, cs);
  }

  lemma {:induction false} DefinedMap(xs: seq<Val>, cs: seq<Val>)
    requires |cs| == |xs| && forall i :: 0 <= i < |xs| ==> cs[i] == StripDeep(xs[i])
    ensures Defined(cs) == seq(|Defined(xs)|, i requires 0 <= i < |Defined(xs)| => StripDeep(Defined(xs)[i]))
  {
    if xs != [] {
      DefinedMap(xs[1..], cs[1..]);
      StripUndefOnly(xs[0]);
    }
  }
}
