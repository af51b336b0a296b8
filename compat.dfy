/**
 * The compatibility evaluator of screens/AquariumScreen.tsx: the
 * self-avoid set, explicit incompatibilities in either direction, the
 * Good/Avoid verdict shown in the palette, the conflict messages listed
 * before a drop, and the water-type checks behind the environment switch.
 */
module Compat {
  import opened Text
  import opened Slug
  import opened Json
  import opened Species

  /** Species of which a tank may hold only one. */
  const SelfAvoid: set<string> := {"betta"}

  /** `a.incompatibleWith || []`. */
  function IncompatValue(s: Fields): Val
  {
    Or(Get(s, "incompatibleWith"), Arr([]))
  }

  /** `.includes` exists on arrays and on strings; on any other truthy value
      the call throws. */
  predicate IncludesDefined(v: Val)
  {
    v.Arr? || v.Str?
  }

  /** `v.includes(id)`: element equality on an array, substring search on
      a string. */
  predicate Includes(v: Val, id: string)
    requires IncludesDefined(v)
  {
    if v.Arr? then Str(id) in v.elems else Contains(v.s, id)
  }

  /** A record the evaluator can look at without throwing: its id fields
      are text and its incompatibility list supports `.includes`. */
  predicate Comparable(s: Fields)
  {
    HasTextId(s) && IncludesDefined(IncompatValue(s))
  }

  predicate AllComparable(tank: seq<Fields>)
  {
    forall t :: t in tank ==> Comparable(t)
  }

  /** `isExplicitlyIncompatible`: either record lists the other's
      canonical id. */
  predicate IsExplicitlyIncompatible(a: Fields, b: Fields)
    requires Comparable(a) && Comparable(b)
  {
    Includes(IncompatValue(a), CanonicalId(b)) || Includes(IncompatValue(b), CanonicalId(a))
  }

  /** The relation does not depend on which side is the candidate. */
  lemma IncompatibleSymmetric(a: Fields, b: Fields)
    requires Comparable(a) && Comparable(b)
    ensures IsExplicitlyIncompatible(a, b) <==> IsExplicitlyIncompatible(b, a)
  {
  }

  /** Between two normalised species the relation is membership of one
      canonical id in the other's slugged list. */
  lemma NormalizedIncompatible(s1: Fields, s2: Fields, numText: NumberText)
    requires NormalizeSpecies(s1, numText).Some? && NormalizeSpecies(s2, numText).Some?
    requires HasTextId(NormalizeSpecies(s1, numText).value) && HasTextId(NormalizeSpecies(s2, numText).value)
    ensures var a, b := NormalizeSpecies(s1, numText).value, NormalizeSpecies(s2, numText).value;
      && Comparable(a) && Comparable(b)
      && (IsExplicitlyIncompatible(a, b) <==>
          CanonicalId(b) in IncompatibleOf(s1, numText) || CanonicalId(a) in IncompatibleOf(s2, numText))
  {
    IncompatValueOfNormalized(s1, numText);
    IncompatValueOfNormalized(s2, numText);
    IncompatibleByLists(NormalizeSpecies(s1, numText).value, NormalizeSpecies(s2, numText).value,
      IncompatibleOf(s1, numText), IncompatibleOf(s2, numText));
  }

  lemma IncompatValueOfNormalized(s: Fields, numText: NumberText)
    requires NormalizeSpecies(s, numText).Some?
    ensures IncompatValue(NormalizeSpecies(s, numText).value) == StrList(IncompatibleOf(s, numText))
  {
    NormalizedIncompatList(s, numText);
    ListValue(NormalizeSpecies(s, numText).value, IncompatibleOf(s, numText));
  }

  lemma ListValue(n: Fields, xs: seq<string>)
    requires Get(n, "incompatibleWith") == StrList(xs)
    ensures IncompatValue(n) == StrList(xs)
  {
  }

  lemma IncompatibleByLists(a: Fields, b: Fields, xa: seq<string>, xb: seq<string>)
    requires HasTextId(a) && HasTextId(b)
    requires IncompatValue(a) == StrList(xa) && IncompatValue(b) == StrList(xb)
    ensures Comparable(a) && Comparable(b)
    ensures IsExplicitlyIncompatible(a, b) <==> CanonicalId(b) in xa || CanonicalId(a) in xb
  {
    StrListHas(xa, CanonicalId(b));
    StrListHas(xb, CanonicalId(a));
  }

  lemma StrListHas(xs: seq<string>, id: string)
    ensures Str(id) in StrList(xs).elems <==> id in xs
  {
    if id in xs {
      var i :| 0 <= i < |xs| && xs[i] == id;
      assert StrList(xs).elems[i] == Str(id);
    }
  }

  datatype Verdict = Good | Avoid

  /** `simpleCompatAgainstTank`: Avoid when the candidate is a self-avoid
      species already in the tank, or is explicitly incompatible with any
      occupant; Good otherwise, and always for an empty tank. */
  function SimpleCompat(candidate: Fields, tank: seq<Fields>): (r: Verdict)
    requires Comparable(candidate) && AllComparable(tank)
    ensures tank == [] ==> r == Good
  {
    if |tank| == 0 then Good
    else if CanonicalId(candidate) in SelfAvoid && exists t :: t in tank && CanonicalId(t) == CanonicalId(candidate) then Avoid
    else if exists t :: t in tank && IsExplicitlyIncompatible(candidate, t) then Avoid
    else Good
  }

  /** `t.nickname ? t.nickname : t.name`. */
  function ShownName(t: Fields): Val
  {
    if Truthy(Get(t, "nickname")) then Get(t, "nickname") else Get(t, "name")
  }

  function ClashMessage(t: Fields, candidate: Fields, numText: NumberText): string
  {
    "• " + ToText(ShownName(t), numText) + " — another " + ToText(Get(candidate, "name"), numText) + " is already in the tank"
  }

  function IncompatMessage(t: Fields, candidate: Fields, numText: NumberText): string
  {
    "• " + ToText(ShownName(t), numText) + " — incompatible with " + ToText(Get(candidate, "name"), numText)
  }

  /** `tank.filter(t => canonicalId(t) === id)`: the occupants with that
      canonical id, in tank order. */
  function Clashes(id: string, tank: seq<Fields>): (r: seq<Fields>)
    requires AllComparable(tank)
    ensures forall t :: t in r ==> t in tank && CanonicalId(t) == id
    ensures forall t :: t in tank && CanonicalId(t) == id ==> t in r
  {
    if tank == [] then []
    else
      var init := tank[..|tank| - 1];
      assert forall t :: t in init ==> t in tank;
      assert tank[|tank| - 1] in tank;
      Clashes(id, init) + (if CanonicalId(tank[|tank| - 1]) == id then [tank[|tank| - 1]] else [])
  }

  /** The occupants explicitly incompatible with the candidate, in tank
      order. */
  function Incompatibles(candidate: Fields, tank: seq<Fields>): (r: seq<Fields>)
    requires Comparable(candidate) && AllComparable(tank)
    ensures forall t :: t in r ==> t in tank && IsExplicitlyIncompatible(candidate, t)
    ensures forall t :: t in tank && IsExplicitlyIncompatible(candidate, t) ==> t in r
  {
    if tank == [] then []
    else
      var init := tank[..|tank| - 1];
      assert forall t :: t in init ==> t in tank;
      assert tank[|tank| - 1] in tank;
      Incompatibles(candidate, init) + (if IsExplicitlyIncompatible(candidate, tank[|tank| - 1]) then [tank[|tank| - 1]] else [])
  }

  /** One clash message per occupant given. */
  function ClashMessages(cs: seq<Fields>, candidate: Fields, numText: NumberText): (r: seq<string>)
    ensures |r| == |cs|
  {
    if cs == [] then []
    else ClashMessages(cs[..|cs| - 1], candidate, numText) + [ClashMessage(cs[|cs| - 1], candidate, numText)]
  }

  /** One incompatibility message per occupant given. */
  function IncompatMessages(ts: seq<Fields>, candidate: Fields, numText: NumberText): (r: seq<string>)
    ensures |r| == |ts|
  {
    if ts == [] then []
    else IncompatMessages(ts[..|ts| - 1], candidate, numText) + [IncompatMessage(ts[|ts| - 1], candidate, numText)]
  }

  /** What `addConflicts` returns: the self-avoid clashes (only for a
      self-avoid candidate) followed by the explicit incompatibilities. */
  function ConflictMessages(candidate: Fields, tank: seq<Fields>, numText: NumberText): seq<string>
    requires Comparable(candidate) && AllComparable(tank)
  {
    var id := CanonicalId(candidate);
    (if id in SelfAvoid then ClashMessages(Clashes(id, tank), candidate, numText) else [])
      + IncompatMessages(Incompatibles(candidate, tank), candidate, numText)
  }

  /** `addConflicts`. */
  method AddConflicts(candidate: Fields, tank: seq<Fields>, numText: NumberText) returns (msgs: seq<string>)
    requires Comparable(candidate) && AllComparable(tank)
    ensures msgs == ConflictMessages(candidate, tank, numText)
  {
    msgs := [];
    var candId := CanonicalId(candidate);
    if candId in SelfAvoid {
      var clashes := Clashes(candId, tank);
      for i := 0 to |clashes|
        invariant msgs == ClashMessages(clashes[..i], candidate, numText)
      {
        TakeNext(clashes, i);
        msgs := msgs + [ClashMessage(clashes[i], candidate, numText)];
      }
      assert clashes[..|clashes|] == clashes;
    }
    var head := msgs;
    for i := 0 to |tank|
      invariant AllComparable(tank[..i])
      invariant msgs == head + IncompatMessages(Incompatibles(candidate, tank[..i]), candidate, numText)
    {
      var t := tank[i];
      assert t in tank;
      var ts := Incompatibles(candidate, tank[..i]);
      assert AllComparable(tank[..i + 1]) && Incompatibles(candidate, tank[..i + 1]) ==
        ts + (if IsExplicitlyIncompatible(candidate, t) then [t] else []) by {
        TakeNext(tank, i);
      }
      if IsExplicitlyIncompatible(candidate, t) {
        IncompatMessagesSnoc(ts, t, candidate, numText);
        AppendAssoc(head, IncompatMessages(ts, candidate, numText), [IncompatMessage(t, candidate, numText)]);
        msgs := msgs + [IncompatMessage(t, candidate, numText)];
      } else {
        assert ts + [] == ts;
      }
    }
    assert tank[..|tank|] == tank;
  }

  lemma AppendAssoc<T>(a: seq<T>, b: seq<T>, c: seq<T>)
    ensures (a + b) + c == a + (b + c)
  {
  }

  /** One more element of a prefix. */
  lemma TakeNext<T>(s: seq<T>, i: nat)
    requires i < |s|
    ensures s[..i + 1] == s[..i] + [s[i]] && s[..i + 1][..i] == s[..i]
  {
  }

  lemma IncompatMessagesSnoc(ts: seq<Fields>, t: Fields, candidate: Fields, numText: NumberText)
    ensures IncompatMessages(ts + [t], candidate, numText) == IncompatMessages(ts, candidate, numText) + [IncompatMessage(t, candidate, numText)]
  {
    assert (ts + [t])[..|ts|] == ts;
  }

  /** The palette's verdict and the drop-time conflict list agree: Avoid
      exactly when there is at least one conflict message. */
  lemma AvoidIffConflicts(candidate: Fields, tank: seq<Fields>, numText: NumberText)
    requires Comparable(candidate) && AllComparable(tank)
    ensures SimpleCompat(candidate, tank) == Avoid <==> ConflictMessages(candidate, tank, numText) != []
  {
    var id := CanonicalId(candidate);
    var cs := Clashes(id, tank);
    var ts := Incompatibles(candidate, tank);
    if cs != [] {
      assert cs[0] in cs;
    }
    if ts != [] {
      assert ts[0] in ts;
    }
  }

  /** Only a self-avoid candidate can clash with itself, and each message
      names an occupant that shares its canonical id or conflicts with it. */
  lemma ConflictsExplained(candidate: Fields, tank: seq<Fields>, numText: NumberText)
    requires Comparable(candidate) && AllComparable(tank)
    ensures CanonicalId(candidate) !in SelfAvoid ==>
      ConflictMessages(candidate, tank, numText) == IncompatMessages(Incompatibles(candidate, tank), candidate, numText)
    ensures forall m :: m in ConflictMessages(candidate, tank, numText) ==>
      (exists t :: t in tank && CanonicalId(t) == CanonicalId(candidate) && m == ClashMessage(t, candidate, numText))
      || (exists t :: t in tank && IsExplicitlyIncompatible(candidate, t) && m == IncompatMessage(t, candidate, numText))
  {
    var id := CanonicalId(candidate);
    var cs := Clashes(id, tank);
    var ts := Incompatibles(candidate, tank);
    ClashMessagesFrom(cs, candidate, numText);
    IncompatMessagesFrom(ts, candidate, numText);
  }

  lemma {:induction false} ClashMessagesFrom(cs: seq<Fields>, candidate: Fields, numText: NumberText)
    ensures forall m :: m in ClashMessages(cs, candidate, numText) ==> exists t :: t in cs && m == ClashMessage(t, candidate, numText)
  {
    if cs != [] {
      var init := cs[..|cs| - 1];
      ClashMessagesFrom(init, candidate, numText);
      assert forall t :: t in init ==> t in cs;
      assert cs[|cs| - 1] in cs;
    }
  }

  lemma {:induction false} IncompatMessagesFrom(ts: seq<Fields>, candidate: Fields, numText: NumberText)
    ensures forall m :: m in IncompatMessages(ts, candidate, numText) ==> exists t :: t in ts && m == IncompatMessage(t, candidate, numText)
  {
    if ts != [] {
      var init := ts[..|ts| - 1];
      IncompatMessagesFrom(init, candidate, numText);
      assert forall t :: t in init ==> t in ts;
      assert ts[|ts| - 1] in ts;
    }
  }

  /** `.toLowerCase()` of `type || 'freshwater'` exists only when that value
      is text. */
  predicate TypeIsText(s: Fields)
  {
    Or(Get(s, "type"), Str("freshwater")).Str?
  }

  /** `(s.type || 'freshwater').toLowerCase()`: the water type the
      palette filter, the drop check and the environment switch compare. */
  function EnvTypeOf(s: Fields): string
    requires TypeIsText(s)
  {
    Lower(Or(Get(s, "type"), Str("freshwater")).s)
  }

  /** A normalised species is checked against the environment by the water
      type the normaliser chose. */
  lemma NormalizedEnvType(s: Fields, numText: NumberText)
    requires NormalizeSpecies(s, numText).Some?
    ensures TypeIsText(NormalizeSpecies(s, numText).value)
    ensures EnvTypeOf(NormalizeSpecies(s, numText).value) == WaterTypeOf(s, numText)
  {
    var w := WaterTypeOf(s, numText);
    NormalizedTypeField(s, numText);
    assert Lower(w) == w by { WaterTypeLowered(w); }
    EnvTypeOfText(NormalizeSpecies(s, numText).value, w);
  }

  lemma EnvTypeOfText(n: Fields, w: string)
    requires Get(n, "type") == Str(w) && w != "" && Lower(w) == w
    ensures TypeIsText(n) && EnvTypeOf(n) == w
  {
    assert Or(Get(n, "type"), Str("freshwater")) == Str(w);
  }

  /** The drop-time warning when the species' water type is not the
      environment's: at most one message, present exactly on a mismatch. */
  function WaterMismatch(base: Fields, env: string, numText: NumberText): (r: seq<string>)
    requires TypeIsText(base)
    ensures |r| <= 1
    ensures r == [] <==> EnvTypeOf(base) == env
  {
    if EnvTypeOf(base) != env then
      ["• " + ToText(Get(base, "name"), numText) + " — is " + ToText(Or(Get(base, "type"), Str("unknown")), numText)
        + " while environment is " + env]
    else []
  }

  /** Every message shown before a drop from the palette. */
  function DropMessages(base: Fields, tank: seq<Fields>, env: string, numText: NumberText): (r: seq<string>)
    requires Comparable(base) && AllComparable(tank) && TypeIsText(base)
  {
    ConflictMessages(base, tank, numText) + WaterMismatch(base, env, numText)
  }

  /** A drop needs confirmation exactly when the palette says Avoid or the
      water type does not match. */
  lemma DropNeedsConfirmation(base: Fields, tank: seq<Fields>, env: string, numText: NumberText)
    requires Comparable(base) && AllComparable(tank) && TypeIsText(base)
    ensures DropMessages(base, tank, env, numText) != [] <==>
      SimpleCompat(base, tank) == Avoid || EnvTypeOf(base) != env
  {
    AvoidIffConflicts(base, tank, numText);
  }

  predicate AllTyped(xs: seq<Fields>)
  {
    forall s :: s in xs ==> TypeIsText(s)
  }

  /** `visibleSpecies`: the catalog entries of the current environment, in
      catalog order. */
  function VisibleSpecies(list: seq<Fields>, env: string): (r: seq<Fields>)
    requires AllTyped(list)
    ensures |r| <= |list|
    ensures forall s :: s in r <==> s in list && EnvTypeOf(s) == env
  {
    if list == [] then []
    else
      assert list[0] in list;
      assert forall s :: s in list[1..] ==> s in list;
      (if EnvTypeOf(list[0]) == env then [list[0]] else []) + VisibleSpecies(list[1..], env)
  }

  /** The occupants `switchEnv` warns about: those of another water type. */
  function Affected(items: seq<Fields>, next: string): (r: seq<Fields>)
    requires AllTyped(items)
    ensures |r| <= |items|
    ensures forall s :: s in r <==> s in items && EnvTypeOf(s) != next
  {
    if items == [] then []
    else
      assert items[0] in items;
      assert forall s :: s in items[1..] ==> s in items;
      (if EnvTypeOf(items[0]) != next then [items[0]] else []) + Affected(items[1..], next)
  }

  /** Every record is either shown in an environment or affected by
      switching to it, never both. */
  lemma {:induction false} VisibleAffectedSplit(xs: seq<Fields>, env: string)
    requires AllTyped(xs)
    ensures |VisibleSpecies(xs, env)| + |Affected(xs, env)| == |xs|
  {
    if xs != [] {
      assert forall s :: s in xs[1..] ==> s in xs;
      VisibleAffectedSplit(xs[1..], env);
    }
  }
}
