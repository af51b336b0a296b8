/**
 * The loosely typed values the aquarium screen handles: species documents
 * from the catalog, tank items, and the payload written to the store.
 * A JavaScript object is the list of its own properties in the order they
 * were first written; `Enumerated` gives the order JavaScript lists them in.
 */
module Json {
  import opened Text

  datatype Option<+T> = None | Some(value: T)

  datatype Val =
    | Undef
    | Null
    | Bool(b: bool)
    | Num(n: real)
    | Str(s: string)
    | Arr(elems: seq<Val>)
    | Obj(fields: Fields)

  /** The own properties of an object, in the order they were first
      written. */
  type Fields = seq<(string, Val)>

  /** The host's conversion of a number to text (`String(n)`); the engine
      never looks inside it. */
  type NumberText = real -> string

  /** JavaScript truthiness. */
  predicate Truthy(v: Val)
  {
    match v
    case Undef => false
    case Null => false
    case Bool(b) => b
    case Num(n) => n != 0.0
    case Str(s) => s != []
    case Arr(_) => true
    case Obj(_) => true
  }

  /** `null` or `undefined`, the values `??` and `?.` skip. */
  predicate Nullish(v: Val)
  {
    v.Undef? || v.Null?
  }

  /** `a || b`. */
  function Or(a: Val, b: Val): (r: Val)
    ensures Truthy(a) ==> r == a
    ensures !Truthy(a) ==> r == b
  {
    if Truthy(a) then a else b
  }

  /** `a ?? b`. */
  function Coalesce(a: Val, b: Val): (r: Val)
    ensures !Nullish(a) ==> r == a
    ensures Nullish(a) ==> r == b
  {
    if Nullish(a) then b else a
  }

  function KeysOf(o: Fields): (ks: seq<string>)
    ensures |ks| == |o| && forall i :: 0 <= i < |o| ==> ks[i] == o[i].0
  {
    if o == [] then [] else [o[0].0] + KeysOf(o[1..])
  }

  function ValuesOf(o: Fields): (vs: seq<Val>)
    ensures |vs| == |o| && forall i :: 0 <= i < |o| ==> vs[i] == o[i].1
  {
    if o == [] then [] else [o[0].1] + ValuesOf(o[1..])
  }

  /** The value of a decimal digit; 0 for any other character. */
  function DigitOf(c: char): nat
  {
    if '0' <= c <= '9' then c as int - '0' as int else 0
  }

  /** The value of a decimal numeral. */
  function DigitsValue(k: string): nat
  {
    if k == [] then 0 else DigitsValue(k[..|k| - 1]) * 10 + DigitOf(k[|k| - 1])
  }

  /** A key JavaScript treats as an array index: the canonical decimal
      numeral of an integer below 2^32 - 1. */
  predicate IsArrayIndex(k: string)
  {
    k != [] && (forall i :: 0 <= i < |k| ==> '0' <= k[i] <= '9') &&
    (k[0] == '0' ==> k == "0") && DigitsValue(k) < 0xFFFF_FFFF
  }

  /** Keys none of which is an array index. */
  predicate NoIndexKeys(keys: seq<string>)
  {
    forall k :: k in keys ==> !IsArrayIndex(k)
  }

  /** The entries under array-index keys, in order. */
  function IndexEntries(o: Fields): Fields
  {
    if o == [] then []
    else (if IsArrayIndex(o[0].0) then [o[0]] else []) + IndexEntries(o[1..])
  }

  /** The entries under every other key, in order. */
  function NamedEntries(o: Fields): Fields
  {
    if o == [] then []
    else (if IsArrayIndex(o[0].0) then [] else [o[0]]) + NamedEntries(o[1..])
  }

  predicate AscendingIndices(s: Fields)
  {
    forall i, j :: 0 <= i < j < |s| ==> DigitsValue(s[i].0) <= DigitsValue(s[j].0)
  }

  /** Places an entry before the first one with a larger index. */
  function InsertByIndex(e: (string, Val), s: Fields): (r: Fields)
    ensures multiset(r) == multiset(s) + multiset{e}
    ensures |r| == |s| + 1 && (r[0] == e || (s != [] && r[0] == s[0]))
  {
    if s == [] || DigitsValue(e.0) <= DigitsValue(s[0].0) then [e] + s
    else
      assert s == [s[0]] + s[1..];
      [s[0]] + InsertByIndex(e, s[1..])
  }

  function SortByIndex(s: Fields): (r: Fields)
    ensures multiset(r) == multiset(s)
  {
    if s == [] then []
    else
      assert s == [s[0]] + s[1..];
      InsertByIndex(s[0], SortByIndex(s[1..]))
  }

  /** The order JavaScript lists an object's own properties in
      (`Object.keys`, `Object.values`, `Object.entries`, a spread): the
      array-index keys first, ascending, then the other keys in the order
      they were first written. */
  function Enumerated(o: Fields): Fields
  {
    SortByIndex(IndexEntries(o)) + NamedEntries(o)
  }

  /** `Object.values`. */
  function ObjectValues(o: Fields): (vs: seq<Val>)
    ensures |vs| == |o|
  {
    EnumeratedOrder(o);
    assert |Enumerated(o)| == |multiset(Enumerated(o))| == |multiset(o)| == |o|;
    ValuesOf(Enumerated(o))
  }

  /** Enumeration lists every entry once, puts the array-index keys first
      in ascending order, and keeps the other keys in the order written. */
  lemma EnumeratedOrder(o: Fields)
    ensures multiset(Enumerated(o)) == multiset(o)
    ensures var r := Enumerated(o);
      forall i, j :: 0 <= i < j < |r| && IsArrayIndex(r[j].0) ==>
        IsArrayIndex(r[i].0) && DigitsValue(r[i].0) <= DigitsValue(r[j].0)
    ensures NamedEntries(Enumerated(o)) == NamedEntries(o)
  {
    var ix := IndexEntries(o);
    var sorted := SortByIndex(ix);
    var named := NamedEntries(o);
    var r := sorted + named;
    SplitEntries(o);
    SortAscending(ix);
    forall i | 0 <= i < |sorted| ensures IsArrayIndex(sorted[i].0) {
      assert sorted[i] in multiset(ix);
    }
    forall i, j | 0 <= i < j < |r| && IsArrayIndex(r[j].0)
      ensures IsArrayIndex(r[i].0) && DigitsValue(r[i].0) <= DigitsValue(r[j].0)
    {
      if j >= |sorted| {
        assert false;
      }
    }
    NamedAppend(sorted, named);
    NamedNone(sorted);
    NamedAll(named);
  }

  /** An object none of whose keys is an array index is enumerated in the
      order its keys were written. */
  lemma EnumeratedPlain(o: Fields)
    requires forall i :: 0 <= i < |o| ==> !IsArrayIndex(o[i].0)
    ensures Enumerated(o) == o
  {
    PlainEntries(o);
  }

  /** An example: keys `b`, `7`, `a`, `3` written in that order are listed
      `3`, `7`, `b`, `a`. */
  lemma EnumeratedExample(p: Val, q: Val, r: Val, s: Val)
    ensures Enumerated([("b", p), ("7", q), ("a", r), ("3", s)]) == [("3", s), ("7", q), ("b", p), ("a", r)]
  {
    ExampleEntries(p, q, r, s);
    ExampleSorted(q, s);
  }

  lemma ExampleEntries(p: Val, q: Val, r: Val, s: Val)
    ensures IndexEntries([("b", p), ("7", q), ("a", r), ("3", s)]) == [("7", q), ("3", s)]
    ensures NamedEntries([("b", p), ("7", q), ("a", r), ("3", s)]) == [("b", p), ("a", r)]
  {
    ExampleKeys();
    var o := [("b", p), ("7", q), ("a", r), ("3", s)];
    assert o[1..] == [("7", q), ("a", r), ("3", s)];
    assert o[2..] == [("a", r), ("3", s)];
    assert o[3..] == [("3", s)];
    assert IndexEntries(o[3..]) == [("3", s)] && NamedEntries(o[3..]) == [] by { assert o[3..][1..] == []; }
    assert o[2..][1..] == o[3..];
    assert IndexEntries(o[2..]) == [("3", s)] && NamedEntries(o[2..]) == [("a", r)];
    assert o[1..][1..] == o[2..];
    assert IndexEntries(o[1..]) == [("7", q), ("3", s)] && NamedEntries(o[1..]) == [("a", r)];
  }

  lemma ExampleSorted(q: Val, s: Val)
    ensures SortByIndex([("7", q), ("3", s)]) == [("3", s), ("7", q)]
  {
    ExampleKeys();
    assert [("7", q), ("3", s)][1..] == [("3", s)];
    assert SortByIndex([("3", s)]) == [("3", s)] by { assert [("3", s)][1..] == []; }
    assert InsertByIndex(("7", q), [("3", s)]) == [("3", s), ("7", q)] by {
      assert [("3", s)][1..] == [];
    }
  }

  lemma ExampleKeys()
    ensures IsArrayIndex("7") && IsArrayIndex("3") && !IsArrayIndex("b") && !IsArrayIndex("a")
    ensures DigitsValue("7") == 7 && DigitsValue("3") == 3
  {
    assert "7"[..0] == [] && "3"[..0] == [];
  }

  lemma {:induction false} SplitEntries(o: Fields)
    ensures multiset(IndexEntries(o)) + multiset(NamedEntries(o)) == multiset(o)
    ensures forall e :: e in NamedEntries(o) ==> !IsArrayIndex(e.0)
    ensures forall e :: e in IndexEntries(o) ==> IsArrayIndex(e.0)
  {
    if o != [] {
      SplitEntries(o[1..]);
      assert o == [o[0]] + o[1..];
    }
  }

  lemma {:induction false} PlainEntries(o: Fields)
    requires forall i :: 0 <= i < |o| ==> !IsArrayIndex(o[i].0)
    ensures IndexEntries(o) == [] && NamedEntries(o) == o
  {
    if o != [] {
      PlainEntries(o[1..]);
      assert o == [o[0]] + o[1..];
    }
  }

  lemma NamedAll(o: Fields)
    requires forall e :: e in o ==> !IsArrayIndex(e.0)
    ensures NamedEntries(o) == o
  {
    PlainEntries(o);
  }

  lemma {:induction false} NamedNone(o: Fields)
    requires forall i :: 0 <= i < |o| ==> IsArrayIndex(o[i].0)
    ensures NamedEntries(o) == []
  {
    if o != [] {
      NamedNone(o[1..]);
    }
  }

  lemma {:induction false} NamedAppend(a: Fields, b: Fields)
    ensures NamedEntries(a + b) == NamedEntries(a) + NamedEntries(b)
  {
    if a != [] {
      assert (a + b)[1..] == a[1..] + b;
      NamedAppend(a[1..], b);
    } else {
      assert a + b == b;
    }
  }

  lemma {:induction false} InsertAscending(e: (string, Val), s: Fields)
    requires AscendingIndices(s)
    ensures AscendingIndices(InsertByIndex(e, s))
  {
    if s == [] || DigitsValue(e.0) <= DigitsValue(s[0].0) {
      ConsAscending(e, s);
    } else {
      var t := InsertByIndex(e, s[1..]);
      TailAscending(s);
      InsertAscending(e, s[1..]);
      assert s[1..] != [] ==> s[1..][0] == s[1];
      ConsAscending(s[0], t);
    }
  }

  lemma ConsAscending(e: (string, Val), s: Fields)
    requires AscendingIndices(s)
    requires s != [] ==> DigitsValue(e.0) <= DigitsValue(s[0].0)
    ensures AscendingIndices([e] + s)
  {
    var r := [e] + s;
    forall i, j | 0 <= i < j < |r| ensures DigitsValue(r[i].0) <= DigitsValue(r[j].0) {
      if i == 0 {
        assert r[j] == s[j - 1];
      } else {
        assert r[i] == s[i - 1] && r[j] == s[j - 1];
      }
    }
  }

  lemma TailAscending(s: Fields)
    requires AscendingIndices(s) && s != []
    ensures AscendingIndices(s[1..])
  {
    forall i, j | 0 <= i < j < |s| - 1 ensures DigitsValue(s[1..][i].0) <= DigitsValue(s[1..][j].0) {
      assert s[1..][i] == s[i + 1] && s[1..][j] == s[j + 1];
    }
  }

  lemma {:induction false} SortAscending(s: Fields)
    ensures AscendingIndices(SortByIndex(s))
  {
    if s != [] {
      SortAscending(s[1..]);
      InsertAscending(s[0], SortByIndex(s[1..]));
    }
  }

  predicate UniqueKeys(o: Fields)
  {
    forall i, j :: 0 <= i < j < |o| ==> o[i].0 != o[j].0
  }

  /** Reading property `k` (`o[k]`): the value of the first entry with
      that key, `undefined` when there is none. */
  function Get(o: Fields, k: string): (v: Val)
  {
    if o == [] then Undef
    else if o[0].0 == k then o[0].1
    else Get(o[1..], k)
  }

  /** A key the record does not list reads `undefined`. */
  lemma {:induction false} GetMissing(o: Fields, k: string)
    requires k !in KeysOf(o)
    ensures Get(o, k) == Undef
    decreases |o|
  {
    if o != [] {
      assert KeysOf(o) == [o[0].0] + KeysOf(o[1..]);
      GetMissing(o[1..], k);
    }
  }

  lemma {:induction false} UniqueTail(o: Fields)
    requires UniqueKeys(o) && o != []
    ensures UniqueKeys(o[1..]) && o[0].0 !in KeysOf(o[1..])
  {
    var t := o[1..];
    forall a, c | 0 <= a < c < |t| ensures t[a].0 != t[c].0 {
      assert t[a] == o[a + 1] && t[c] == o[c + 1];
    }
    forall a | 0 <= a < |t| ensures KeysOf(t)[a] != o[0].0 {
      assert t[a] == o[a + 1];
    }
  }

  /** With distinct keys, an entry's value is what reading its key gives. */
  lemma {:induction false} GetEntry(o: Fields, i: int)
    requires UniqueKeys(o) && 0 <= i < |o|
    ensures Get(o, o[i].0) == o[i].1
    decreases |o|
  {
    if i > 0 {
      UniqueTail(o);
      assert o[1..][i - 1] == o[i];
      GetEntry(o[1..], i - 1);
    }
  }

  /** Assigning property `k` (`o[k] = v`, or a key written after a spread):
      an existing key keeps its place, a new one goes last. */
  function Set(o: Fields, k: string, v: Val): (r: Fields)
    ensures Get(r, k) == v
    ensures forall k' :: k' != k ==> Get(r, k') == Get(o, k')
  {
    if o == [] then [(k, v)]
    else if o[0].0 == k then [(k, v)] + o[1..]
    else [o[0]] + Set(o[1..], k, v)
  }

  /** Reading after an assignment: the value assigned under its key, the
      old value under any other. */
  lemma SetGet(o: Fields, k: string, v: Val, k': string)
    ensures Get(Set(o, k, v), k') == if k' == k then v else Get(o, k')
  {
  }

  /** Assignment keeps the keys in place and adds a new one last. */
  lemma {:induction false} SetKeys(o: Fields, k: string, v: Val)
    ensures KeysOf(Set(o, k, v)) == if k in KeysOf(o) then KeysOf(o) else KeysOf(o) + [k]
    decreases |o|
  {
    if o != [] {
      assert KeysOf(o) == [o[0].0] + KeysOf(o[1..]);
      if o[0].0 == k {
        assert KeysOf(Set(o, k, v)) == [k] + KeysOf(o[1..]);
      } else {
        SetKeys(o[1..], k, v);
        assert KeysOf(Set(o, k, v)) == [o[0].0] + KeysOf(Set(o[1..], k, v));
      }
    }
  }

  /** Assignment never duplicates a key. */
  lemma SetUnique(o: Fields, k: string, v: Val)
    requires UniqueKeys(o)
    ensures UniqueKeys(Set(o, k, v))
  {
    var r := Set(o, k, v);
    SetKeys(o, k, v);
    forall a, c | 0 <= a < c < |r| ensures r[a].0 != r[c].0 {
      assert KeysOf(r)[a] == r[a].0 && KeysOf(r)[c] == r[c].0;
      if k in KeysOf(o) {
        assert KeysOf(o)[a] == o[a].0 && KeysOf(o)[c] == o[c].0;
      } else {
        if c < |o| {
          assert KeysOf(o)[a] == o[a].0 && KeysOf(o)[c] == o[c].0;
        } else {
          assert KeysOf(o)[a] == o[a].0;
        }
      }
    }
  }

  /** Assigning a key the record does not have appends it. */
  lemma {:induction false} SetNew(o: Fields, k: string, v: Val)
    requires k !in KeysOf(o)
    ensures Set(o, k, v) == o + [(k, v)]
  {
    if o != [] {
      assert o[0].0 != k by { assert KeysOf(o)[0] == o[0].0; }
      assert k !in KeysOf(o[1..]) by {
        forall j | 0 <= j < |o| - 1 ensures KeysOf(o[1..])[j] != k {
          assert KeysOf(o[1..])[j] == KeysOf(o)[j + 1];
        }
      }
      SetNew(o[1..], k, v);
      ConsSnoc(o, (k, v));
    }
  }

  lemma ConsSnoc<T>(s: seq<T>, b: T)
    requires s != []
    ensures [s[0]] + (s[1..] + [b]) == s + [b]
  {
  }

  /** Every entry after an assignment was there before or is the new one. */
  lemma {:induction false} SetEntries(o: Fields, k: string, v: Val)
    ensures forall e :: e in Set(o, k, v) ==> e in o || e == (k, v)
  {
    if o != [] && o[0].0 != k {
      SetEntries(o[1..], k, v);
      assert forall e :: e in o[1..] ==> e in o;
    } else if o != [] {
      assert forall e :: e in o[1..] ==> e in o;
    }
  }

  /** Reading a record with one more entry at the end. */
  lemma {:induction false} GetSnoc(o: Fields, e: (string, Val), k: string)
    ensures Get(o + [e], k) == if k in KeysOf(o) then Get(o, k) else if e.0 == k then e.1 else Undef
  {
    if o == [] {
      assert [e][1..] == [];
    } else {
      assert (o + [e])[1..] == o[1..] + [e];
      assert KeysOf(o) == [o[0].0] + KeysOf(o[1..]);
      GetSnoc(o[1..], e, k);
    }
  }

  /** `{ ...base, ...fs }`: the properties of `fs` assigned onto `base` one
      after another. */
  function Spread(base: Fields, fs: Fields): (r: Fields)
    ensures forall k :: k !in KeysOf(fs) ==> Get(r, k) == Get(base, k)
    decreases |fs|
  {
    if fs == [] then base
    else
      assert KeysOf(fs) == [fs[0].0] + KeysOf(fs[1..]);
      Spread(Set(base, fs[0].0, fs[0].1), fs[1..])
  }

  /** Every property of `fs` ends up with the value `fs` gives it. */
  lemma {:induction false} SpreadGet(base: Fields, fs: Fields, i: int)
    requires UniqueKeys(fs) && 0 <= i < |fs|
    ensures Get(Spread(base, fs), fs[i].0) == fs[i].1
    decreases |fs|
  {
    var b := Set(base, fs[0].0, fs[0].1);
    assert Spread(base, fs) == Spread(b, fs[1..]);
    if i > 0 {
      assert UniqueKeys(fs[1..]) by { UniqueTail(fs); }
      assert fs[1..][i - 1] == fs[i];
      SpreadGet(b, fs[1..], i - 1);
    } else {
      assert fs[0].0 !in KeysOf(fs[1..]) by { UniqueTail(fs); }
      assert Get(b, fs[0].0) == fs[0].1;
    }
  }

  /** Spreading keeps the keys of `base` first, in their order, and adds no
      duplicate. */
  lemma {:induction false} SpreadKeys(base: Fields, fs: Fields)
    ensures KeysOf(base) <= KeysOf(Spread(base, fs))
    ensures UniqueKeys(base) ==> UniqueKeys(Spread(base, fs))
    decreases |fs|
  {
    if fs != [] {
      var b := Set(base, fs[0].0, fs[0].1);
      SetKeys(base, fs[0].0, fs[0].1);
      if UniqueKeys(base) {
        SetUnique(base, fs[0].0, fs[0].1);
      }
      SpreadKeys(b, fs[1..]);
    }
  }

  /** The properties of a value as `v.key` sees them: an object's own
      properties; none of the keys the engine reads exist on a primitive or
      an array. Reading a property of `null` or `undefined` throws, which
      callers check for separately. */
  function PropsOf(v: Val): (o: Fields)
    ensures v.Obj? ==> o == v.fields
    ensures !v.Obj? ==> o == []
  {
    if v.Obj? then v.fields else []
  }

  function Join(parts: seq<string>, sep: string): string
  {
    if parts == [] then ""
    else if |parts| == 1 then parts[0]
    else parts[0] + sep + Join(parts[1..], sep)
  }

  /** `String(v)`: the text JavaScript makes of a value. An array is its
      elements' texts joined by commas, with `null` and `undefined`
      elements written as nothing. */
  function ToText(v: Val, numText: NumberText): string
  {
    match v
    case Undef => "undefined"
    case Null => "null"
    case Bool(b) => if b then "true" else "false"
    case Num(n) => numText(n)
    case Str(s) => s
    case Arr(xs) =>
      Join(seq(|xs|, i requires 0 <= i < |xs| => if Nullish(xs[i]) then "" else ToText(xs[i], numText)), ",")
    case Obj(_) => "[object Object]"
  }
}
