// The occupant list of the aquarium screen and the events that change it:
// dragging an occupant or a palette species, dropping it in or out of the
// tank, naming a new fish, renaming, deleting, switching the water type
// and the one-time load of the saved tank.

module Session {
  import opened Text
  import opened Json
  import opened Species
  import opened Compat
  import opened Payload
  import opened Hydrate

  // ---------------------------------------------------------------------
  // Geometry

  /** Width and height of a drawn occupant. */
  const FishW: real := 160.0
  const FishH: real := 110.0

  /** `clamp(n, lo, hi)` = `Math.max(lo, Math.min(hi, n))`: never below
      `lo`; inside [lo, hi] whenever that interval is not empty; `n`
      itself when it already lies there. */
  function Clamp(n: real, lo: real, hi: real): (r: real)
    ensures lo <= r
    ensures lo <= hi ==> r <= hi
    ensures lo <= n <= hi ==> r == n
    ensures hi < lo ==> r == lo
  {
    var m := if hi < n then hi else n;
    if m < lo then lo else m
  }

  /** The measured tank on the page. */
  datatype Rect = Rect(x: real, y: real, w: real, h: real)

  /** A page point inside the tank, borders included. */
  predicate Inside(r: Rect, px: real, py: real)
  {
    r.x <= px <= r.x + r.w && r.y <= py <= r.y + r.h
  }

  /** The tank-local position of an occupant dropped at a page point:
      centred on the point, then kept inside the tank. */
  function DropX(r: Rect, px: real): real
  {
    Clamp(px - r.x - FishW / 2.0, 0.0, r.w - FishW)
  }

  function DropY(r: Rect, py: real): real
  {
    Clamp(py - r.y - FishH / 2.0, 0.0, r.h - FishH)
  }

  /** A dropped occupant lies wholly inside a tank at least as large as
      it, and at the tank's origin in a smaller one. */
  lemma DropInBounds(r: Rect, px: real, py: real)
    ensures 0.0 <= DropX(r, px) && 0.0 <= DropY(r, py)
    ensures r.w >= FishW ==> DropX(r, px) + FishW <= r.w
    ensures r.h >= FishH ==> DropY(r, py) + FishH <= r.h
    ensures r.w < FishW ==> DropX(r, px) == 0.0
    ensures r.h < FishH ==> DropY(r, py) == 0.0
  {
  }

  // ---------------------------------------------------------------------
  // Occupant records

  /** `t.instanceId`. */
  function IdOf(t: Fields): Val
  {
    Get(t, "instanceId")
  }

  /** The instance ids of a list, in order. */
  function Ids(xs: seq<Fields>): (r: seq<Val>)
    ensures |r| == |xs|
    ensures forall i :: 0 <= i < |xs| ==> r[i] == IdOf(xs[i])
  {
    if xs == [] then [] else [IdOf(xs[0])] + Ids(xs[1..])
  }

  /** No instance id occurs twice. */
  predicate UniqueIds(xs: seq<Fields>)
  {
    forall v :: v in Ids(xs) ==> multiset(Ids(xs))[v] == 1
  }

  /** `xs.filter(t => t.instanceId !== id)`. */
  function Without(xs: seq<Fields>, id: Val): (r: seq<Fields>)
  {
    if xs == [] then []
    else (if IdOf(xs[0]) == id then [] else [xs[0]]) + Without(xs[1..], id)
  }

  /** The occupants kept are exactly those with another id. */
  lemma {:induction false} WithoutMembers(xs: seq<Fields>, id: Val)
    ensures |Without(xs, id)| <= |xs|
    ensures forall t :: t in Without(xs, id) <==> t in xs && IdOf(t) != id
  {
    if xs != [] {
      WithoutMembers(xs[1..], id);
      assert forall t :: t in xs <==> t == xs[0] || t in xs[1..];
    }
  }

  /** `{ ...base, k0: v0, k1: v1, ... }`: the properties written one after
      another onto a copy of `base`. */
  function Assign(base: Fields, keys: seq<string>, vals: seq<Val>): Fields
    requires |keys| == |vals|
  {
    Spread(base, Zip(keys, vals))
  }

  /** A property not written reads as in `base`. */
  lemma AssignOther(base: Fields, keys: seq<string>, vals: seq<Val>, k: string)
    requires |keys| == |vals| && k !in keys
    ensures Get(Assign(base, keys, vals), k) == Get(base, k)
  {
    ZipAt(keys, vals);
    assert KeysOf(Zip(keys, vals)) == keys;
  }

  /** Each written property reads back what was written. */
  lemma AssignAt(base: Fields, keys: seq<string>, vals: seq<Val>, i: int)
    requires |keys| == |vals| && Distinct(keys) && 0 <= i < |keys|
    ensures Get(Assign(base, keys, vals), keys[i]) == vals[i]
  {
    ZipAt(keys, vals);
    SpreadGet(base, Zip(keys, vals), i);
  }

  /** The properties written on a moved occupant. */
  const MovedKeys: seq<string> := ["instanceId", "x", "y", "nickname"]

  /** `{ ...moving, instanceId: id, x, y, nickname: moving.nickname }`: an
      occupant put back into the list after a drag. */
  function Moved(moving: Fields, id: Val, x: Val, y: Val): Fields
  {
    Assign(moving, MovedKeys, [id, x, y, Get(moving, "nickname")])
  }

  /** A moved occupant carries the dragged id and the new position, keeps
      its nickname and every other property. */
  lemma MovedParts(moving: Fields, id: Val, x: Val, y: Val)
    ensures var m := Moved(moving, id, x, y);
      IdOf(m) == id && Get(m, "x") == x && Get(m, "y") == y &&
      Get(m, "nickname") == Get(moving, "nickname") &&
      forall k :: k !in MovedKeys ==> Get(m, k) == Get(moving, k)
  {
    var vals := [id, x, y, Get(moving, "nickname")];
    MovedKeysDistinct();
    AssignAt(moving, MovedKeys, vals, 0);
    AssignAt(moving, MovedKeys, vals, 1);
    AssignAt(moving, MovedKeys, vals, 2);
    AssignAt(moving, MovedKeys, vals, 3);
    forall k | k !in MovedKeys ensures Get(Moved(moving, id, x, y), k) == Get(moving, k) {
      AssignOther(moving, MovedKeys, vals, k);
    }
  }

  lemma MovedKeysDistinct()
    ensures Distinct(MovedKeys)
  {
  }

  /** Putting an occupant back where it came from, under its own id,
      gives a record that reads exactly like the original. */
  lemma MovedBackUnchanged(t: Fields)
    ensures forall k :: Get(Moved(t, IdOf(t), Get(t, "x"), Get(t, "y")), k) == Get(t, k)
  {
    MovedParts(t, IdOf(t), Get(t, "x"), Get(t, "y"));
  }

  /** The properties written on a species placed in the tank. */
  const PlacedKeys: seq<string> := ["id", "speciesId", "kind", "instanceId", "x", "y"]

  /** `{ ...base, id: `${base.id}::${instanceId}`, speciesId: base.id,
      kind: base.kind ?? kind, instanceId, x, y }`. */
  function Placed(base: Fields, instanceId: string, x: real, y: real, kind: string, numText: NumberText): Fields
  {
    Assign(base, PlacedKeys,
      [Str(ToText(Get(base, "id"), numText) + "::" + instanceId), Get(base, "id"),
       Coalesce(Get(base, "kind"), Str(kind)), Str(instanceId), Num(x), Num(y)])
  }

  /** A placed species gets the composite id, remembers the species id,
      its kind (the species' own, else the default), the fresh instance
      id and the position; every other property, the nickname included,
      is the species'. */
  lemma PlacedParts(base: Fields, instanceId: string, x: real, y: real, kind: string, numText: NumberText)
    ensures var p := Placed(base, instanceId, x, y, kind, numText);
      Get(p, "id") == Str(ToText(Get(base, "id"), numText) + "::" + instanceId) &&
      Get(p, "speciesId") == Get(base, "id") &&
      Get(p, "kind") == Coalesce(Get(base, "kind"), Str(kind)) &&
      IdOf(p) == Str(instanceId) && Get(p, "x") == Num(x) && Get(p, "y") == Num(y) &&
      forall k :: k !in PlacedKeys ==> Get(p, k) == Get(base, k)
  {
    var vals := [Str(ToText(Get(base, "id"), numText) + "::" + instanceId), Get(base, "id"),
                 Coalesce(Get(base, "kind"), Str(kind)), Str(instanceId), Num(x), Num(y)];
    PlacedKeysDistinct();
    AssignAt(base, PlacedKeys, vals, 0);
    AssignAt(base, PlacedKeys, vals, 1);
    AssignAt(base, PlacedKeys, vals, 2);
    AssignAt(base, PlacedKeys, vals, 3);
    AssignAt(base, PlacedKeys, vals, 4);
    AssignAt(base, PlacedKeys, vals, 5);
    forall k | k !in PlacedKeys ensures Get(Placed(base, instanceId, x, y, kind, numText), k) == Get(base, k) {
      AssignOther(base, PlacedKeys, vals, k);
    }
  }

  lemma PlacedKeysDistinct()
    ensures Distinct(PlacedKeys)
  {
  }

  /** The composite id of a placed species splits back into the species
      id and the instance id, as loading a saved tank does. */
  lemma PlacedIdSplits(base: Fields, instanceId: string, x: real, y: real, kind: string, numText: NumberText)
    requires Get(base, "id").Str?
    requires !Contains(Get(base, "id").s + ":", "::") && !Contains(instanceId, "::")
    ensures var p := Placed(base, instanceId, x, y, kind, numText);
      Get(p, "id").Str? && Split(Get(p, "id").s, "::") == [Get(base, "id").s, instanceId]
  {
    PlacedParts(base, instanceId, x, y, kind, numText);
    SplitJoined(Get(base, "id").s, instanceId);
  }

  /** `nameDraft.trim() || fallback`: the trimmed draft when it has text. */
  function DraftOr(draft: string, fallback: Val): (r: Val)
  {
    if Trim(draft) != "" then Str(Trim(draft)) else fallback
  }

  /** The fish created by the naming step: a placed species of default
      kind "fish", named by the draft or by its species. */
  function Created(base: Fields, instanceId: string, x: real, y: real, draft: string, numText: NumberText): Fields
  {
    Set(Placed(base, instanceId, x, y, "fish", numText), "nickname",
        DraftOr(draft, Str(DefaultNickname(base, numText))))
  }

  /** A created fish has the placed properties and a nickname that is the
      trimmed draft, else the species name; it is never empty when the
      name is text or missing. */
  lemma CreatedParts(base: Fields, instanceId: string, x: real, y: real, draft: string, numText: NumberText)
    ensures var c := Created(base, instanceId, x, y, draft, numText);
      IdOf(c) == Str(instanceId) && Get(c, "x") == Num(x) && Get(c, "y") == Num(y) &&
      Get(c, "speciesId") == Get(base, "id") &&
      Get(c, "kind") == Coalesce(Get(base, "kind"), Str("fish")) &&
      (Trim(draft) != "" ==> Get(c, "nickname") == Str(Trim(draft))) &&
      (Trim(draft) == "" ==> Get(c, "nickname") == Str(DefaultNickname(base, numText))) &&
      (NameIsTextOrMissing(base) ==> Truthy(Get(c, "nickname")))
  {
    var p := Placed(base, instanceId, x, y, "fish", numText);
    var name := DraftOr(draft, Str(DefaultNickname(base, numText)));
    PlacedParts(base, instanceId, x, y, "fish", numText);
    SetGet(p, "nickname", name, "instanceId");
    SetGet(p, "nickname", name, "x");
    SetGet(p, "nickname", name, "y");
    SetGet(p, "nickname", name, "speciesId");
    SetGet(p, "nickname", name, "kind");
    SetGet(p, "nickname", name, "nickname");
  }

  /** `{ ...i, nickname: nameDraft.trim() || i.nickname || defaultNicknameFor(i) }`. */
  function Renamed(t: Fields, draft: string, numText: NumberText): Fields
  {
    Set(t, "nickname", DraftOr(draft, Or(Get(t, "nickname"), Str(DefaultNickname(t, numText)))))
  }

  /** `confirmRename`'s map: the occupant with the active id is renamed. */
  function RenameAll(xs: seq<Fields>, active: Val, draft: string, numText: NumberText): (r: seq<Fields>)
    ensures |r| == |xs|
  {
    seq(|xs|, i requires 0 <= i < |xs| => if IdOf(xs[i]) == active then Renamed(xs[i], draft, numText) else xs[i])
  }

  // ---------------------------------------------------------------------
  // Properties of the list operations

  /** Filtering distributes over concatenation, so the kept occupants stay
      in their order. */
  lemma {:induction false} WithoutAppend(a: seq<Fields>, b: seq<Fields>, id: Val)
    ensures Without(a + b, id) == Without(a, id) + Without(b, id)
  {
    if a != [] {
      var h := if IdOf(a[0]) == id then [] else [a[0]];
      assert a + b == [a[0]] + (a[1..] + b);
      assert a == [a[0]] + a[1..];
      WithoutCons(a[0], a[1..] + b, id);
      WithoutCons(a[0], a[1..], id);
      WithoutAppend(a[1..], b, id);
      AppendAssoc(h, Without(a[1..], id), Without(b, id));
    } else {
      assert a + b == b;
    }
  }

  lemma WithoutCons(t: Fields, ys: seq<Fields>, id: Val)
    ensures Without([t] + ys, id) == (if IdOf(t) == id then [] else [t]) + Without(ys, id)
  {
    assert ([t] + ys)[1..] == ys;
  }

  /** Removing an id that no occupant has changes nothing. */
  lemma {:induction false} WithoutAbsent(xs: seq<Fields>, id: Val)
    requires id !in Ids(xs)
    ensures Without(xs, id) == xs
  {
    if xs != [] {
      assert Ids(xs) == [IdOf(xs[0])] + Ids(xs[1..]);
      WithoutAbsent(xs[1..], id);
    }
  }

  /** Deleting removes every occupant with the id and no other. */
  lemma {:induction false} WithoutIds(xs: seq<Fields>, id: Val)
    ensures multiset(Ids(Without(xs, id))) == multiset(Ids(xs))[id := 0]
  {
    if xs != [] {
      var rest := Without(xs[1..], id);
      WithoutIds(xs[1..], id);
      assert Ids(xs) == [IdOf(xs[0])] + Ids(xs[1..]);
      if IdOf(xs[0]) == id {
        assert Without(xs, id) == rest;
      } else {
        assert Without(xs, id) == [xs[0]] + rest;
        assert Ids([xs[0]] + rest) == [IdOf(xs[0])] + Ids(rest);
      }
      DropOne(IdOf(xs[0]), Ids(xs[1..]), Ids(rest), id);
    }
  }

  /** Taking every copy of `id` out of `[a] + s`. */
  lemma DropOne<T>(a: T, s: seq<T>, r: seq<T>, id: T)
    requires multiset(r) == multiset(s)[id := 0]
    ensures multiset(if a == id then r else [a] + r) == multiset([a] + s)[id := 0]
  {
    assert forall v :: multiset([a] + s)[v] == (if v == a then 1 else 0) + multiset(s)[v];
  }

  /** In a list with unique ids, an occupant's id occurs exactly once. */
  lemma UniqueCount(xs: seq<Fields>, t: Fields)
    requires UniqueIds(xs) && t in xs
    ensures multiset(Ids(xs))[IdOf(t)] == 1
  {
    var i :| 0 <= i < |xs| && xs[i] == t;
    assert Ids(xs)[i] == IdOf(t);
    assert IdOf(t) in multiset(Ids(xs));
  }

  /** Taking an occupant out and appending it again under its own id
      keeps the multiset of instance ids, their uniqueness and the list
      length; the moved occupant keeps its nickname and gets the given
      position. */
  lemma ReappendKeepsIds(xs: seq<Fields>, item: Fields, x: Val, y: Val)
    requires UniqueIds(xs) && item in xs
    ensures var ys := Without(xs, IdOf(item)) + [Moved(item, IdOf(item), x, y)];
      multiset(Ids(ys)) == multiset(Ids(xs)) && |ys| == |xs| && UniqueIds(ys) &&
      Get(ys[|ys| - 1], "nickname") == Get(item, "nickname") &&
      Get(ys[|ys| - 1], "x") == x && Get(ys[|ys| - 1], "y") == y
  {
    var id := IdOf(item);
    MovedParts(item, id, x, y);
    WithoutIds(xs, id);
    UniqueCount(xs, item);
    AppendRestores(xs, Without(xs, id), Moved(item, id, x, y));
  }

  /** Appending the one occupant a list lost restores its ids. */
  lemma AppendRestores(xs: seq<Fields>, rest: seq<Fields>, m: Fields)
    requires multiset(Ids(rest)) == multiset(Ids(xs))[IdOf(m) := 0]
    requires multiset(Ids(xs))[IdOf(m)] == 1
    requires UniqueIds(xs)
    ensures multiset(Ids(rest + [m])) == multiset(Ids(xs)) && |rest + [m]| == |xs| && UniqueIds(rest + [m])
  {
    IdsSnoc(rest, m);
    SnocRestores(Ids(rest), Ids(xs), IdOf(m));
    SameCountsUnique(Ids(rest + [m]), Ids(xs));
  }

  /** Two sequences with the same multiset have the same length, and one
      without repeats makes the other without repeats. */
  lemma SameCountsUnique(a: seq<Val>, b: seq<Val>)
    requires multiset(a) == multiset(b)
    requires forall v :: v in b ==> multiset(b)[v] == 1
    ensures |a| == |b| && forall v :: v in a ==> multiset(a)[v] == 1
  {
    assert |multiset(a)| == |a| && |multiset(b)| == |b|;
    forall v | v in a ensures multiset(a)[v] == 1 {
      assert v in multiset(a);
    }
  }

  lemma IdsSnoc(xs: seq<Fields>, t: Fields)
    ensures Ids(xs + [t]) == Ids(xs) + [IdOf(t)]
  {
    assert forall i :: 0 <= i < |xs| ==> (xs + [t])[i] == xs[i];
  }

  /** Putting back the one copy of `v` that was taken out restores the
      multiset. */
  lemma SnocRestores<T>(a: seq<T>, b: seq<T>, v: T)
    requires multiset(a) == multiset(b)[v := 0] && multiset(b)[v] == 1
    ensures multiset(a + [v]) == multiset(b)
  {
    var m := multiset(b);
    assert forall x :: (m[v := 0] + multiset{v})[x] == m[x];
  }

  /** Renaming touches only the nickname of the occupants with the active
      id: the length, the ids, every other occupant and every other
      property are kept. The new nickname is the trimmed draft when it has
      text, else the old nickname, else the species name, and is never
      empty when the name is text or missing. */
  lemma RenameOnly(xs: seq<Fields>, active: Val, draft: string, numText: NumberText)
    ensures var r := RenameAll(xs, active, draft, numText);
      |r| == |xs| && Ids(r) == Ids(xs) &&
      (forall i :: 0 <= i < |xs| && IdOf(xs[i]) != active ==> r[i] == xs[i]) &&
      (forall i, k :: 0 <= i < |xs| && k != "nickname" ==> Get(r[i], k) == Get(xs[i], k)) &&
      (forall i :: 0 <= i < |xs| && IdOf(xs[i]) == active && Trim(draft) != "" ==>
         Get(r[i], "nickname") == Str(Trim(draft))) &&
      (forall i :: 0 <= i < |xs| && IdOf(xs[i]) == active && Trim(draft) == "" ==>
         Get(r[i], "nickname") == Or(Get(xs[i], "nickname"), Str(DefaultNickname(xs[i], numText)))) &&
      (forall i :: 0 <= i < |xs| && IdOf(xs[i]) == active && NameIsTextOrMissing(xs[i]) ==>
         Truthy(Get(r[i], "nickname")))
  {
    var r := RenameAll(xs, active, draft, numText);
    forall i | 0 <= i < |xs| && IdOf(xs[i]) == active
      ensures IdOf(r[i]) == IdOf(xs[i]) && forall k :: k != "nickname" ==> Get(r[i], k) == Get(xs[i], k)
      ensures Get(r[i], "nickname") == DraftOr(draft, Or(Get(xs[i], "nickname"), Str(DefaultNickname(xs[i], numText))))
    {
      RenamedParts(xs[i], draft, numText);
    }
    assert forall i :: 0 <= i < |xs| ==> Ids(r)[i] == Ids(xs)[i];
  }

  /** Confirming a rename without editing the draft: a nickname that is
      already trimmed text is kept, and a truthy nickname that is not text
      makes `trim` throw, so the list stays as it was; either way the ids
      and the length are kept. */
  lemma RenameUnedited(s: Screen, item: Fields, numText: NumberText)
    ensures var t := RenameConfirmed(RenameStarted(s, item), numText);
      var nick := Get(item, "nickname");
      |t.tankItems| == |s.tankItems| && Ids(t.tankItems) == Ids(s.tankItems) &&
      (Truthy(nick) && !nick.Str? ==> t.tankItems == s.tankItems) &&
      (nick.Str? && nick.s != "" && Trim(nick.s) == nick.s ==>
         forall i :: 0 <= i < |s.tankItems| && IdOf(s.tankItems[i]) == IdOf(item) ==>
           Get(t.tankItems[i], "nickname") == nick)
  {
    var u := RenameStarted(s, item);
    if u.nameDraft.Str? {
      RenameOnly(s.tankItems, IdOf(item), u.nameDraft.s, numText);
    }
  }

  lemma RenamedParts(t: Fields, draft: string, numText: NumberText)
    ensures var n := Renamed(t, draft, numText);
      IdOf(n) == IdOf(t) && (forall k :: k != "nickname" ==> Get(n, k) == Get(t, k)) &&
      Get(n, "nickname") == DraftOr(draft, Or(Get(t, "nickname"), Str(DefaultNickname(t, numText))))
  {
    var v := DraftOr(draft, Or(Get(t, "nickname"), Str(DefaultNickname(t, numText))));
    SetGet(t, "nickname", v, "instanceId");
    SetGet(t, "nickname", v, "nickname");
  }

  /** A name `defaultNicknameFor` turns into a non-empty text. */
  predicate NameIsTextOrMissing(t: Fields)
  {
    Get(t, "name").Str? || !Truthy(Get(t, "name"))
  }

  // ---------------------------------------------------------------------
  // The screen state and its transitions

  /** Where a drag started: the species palette or the tank itself. */
  datatype DragSource = Palette | FromTank

  /** A species dropped in the tank, waiting for its name. */
  datatype Pending = Pending(base: Fields, x: real, y: real, instanceId: string)

  /** The state of the screen the occupant list depends on. */
  datatype Screen = Screen(
    tankItems: seq<Fields>,
    tankRect: Option<Rect>,
    dragItem: Option<Fields>,
    dragSource: Option<DragSource>,
    dragExistingId: Val,
    dragOrig: Option<(Val, Val)>,
    pendingNew: Option<Pending>,
    nameDraft: Val,
    activeItemId: Val,
    waterEnv: string,
    userTemp: real,
    userOxy: real,
    bgIndex: nat,
    hydratedOnce: bool)

  /** `cleanupDrag`. */
  function EndDrag(s: Screen): Screen
  {
    s.(dragItem := None, dragSource := None, dragExistingId := Null, dragOrig := None)
  }

  /** `startDragExisting`: the occupant's id and position are remembered
      and every occupant with its id leaves the list until the drop. */
  function Lifted(s: Screen, item: Fields): Screen
  {
    s.(activeItemId := Null, dragSource := Some(FromTank), dragItem := Some(item),
       dragExistingId := IdOf(item), dragOrig := Some((Get(item, "x"), Get(item, "y"))),
       tankItems := Without(s.tankItems, IdOf(item)))
  }

  /** The check a palette drop runs can run: ids that are text,
      incompatibility lists with `includes`, a water type that is text. */
  predicate Checkable(base: Fields, tank: seq<Fields>)
  {
    Comparable(base) && AllComparable(tank) && TypeIsText(base)
  }

  /** How a drop from the palette ends: the check throws, the user turns
      the warnings down, or the species goes in. */
  datatype PaletteDrop = Throws | Refused | Accepted

  /** The palette check of `handleDrop` on the dragged species, with the
      user's answer `proceed` to its warnings. */
  function PaletteDecision(s: Screen, proceed: bool, numText: NumberText): PaletteDrop
  {
    if s.dragItem.None? || !Checkable(s.dragItem.value, s.tankItems) then Throws
    else if DropMessages(s.dragItem.value, s.tankItems, s.waterEnv, numText) != [] && !proceed then Refused
    else Accepted
  }

  /** A checkable drop goes in with the user's consent, and without it
      exactly when the palette says Good and the water type matches. */
  lemma PaletteDecisionRule(s: Screen, numText: NumberText)
    requires s.dragItem.Some? && Checkable(s.dragItem.value, s.tankItems)
    ensures PaletteDecision(s, true, numText) == Accepted
    ensures PaletteDecision(s, false, numText) == Accepted <==>
      SimpleCompat(s.dragItem.value, s.tankItems) == Good && EnvTypeOf(s.dragItem.value) == s.waterEnv
    ensures PaletteDecision(s, false, numText) != Throws
  {
    DropNeedsConfirmation(s.dragItem.value, s.tankItems, s.waterEnv, numText);
  }

  /** `handleDrop` at page point (px, py), where `decision` is how a
      palette drop ends and `instanceId` the fresh id it gets. */
  function Dropped(s: Screen, px: real, py: real, instanceId: string, decision: PaletteDrop, numText: NumberText): Screen
  {
    if s.tankRect.None? || s.dragItem.None? then EndDrag(s)
    else if Inside(s.tankRect.value, px, py) && s.dragSource == Some(Palette) then
      PaletteLanded(s, s.dragItem.value, DropX(s.tankRect.value, px), DropY(s.tankRect.value, py), instanceId, decision, numText)
    else EndDrag(s).(tankItems := s.tankItems + Returned(s, s.dragItem.value, s.tankRect.value, px, py))
  }

  /** A palette species dropped inside the tank at (x, y): a fish waits
      for its name, a plant goes straight into the list. */
  function PaletteLanded(s: Screen, item: Fields, x: real, y: real, instanceId: string, decision: PaletteDrop,
                         numText: NumberText): Screen
  {
    match decision
    case Throws => s
    case Refused => EndDrag(s)
    case Accepted =>
      if Get(item, "kind") == Str("fish") then
        EndDrag(s).(pendingNew := Some(Pending(item, x, y, instanceId)), nameDraft := Str(""))
      else
        EndDrag(s).(tankItems := s.tankItems + [Placed(item, instanceId, x, y, "plant", numText)])
  }

  /** What any other drop puts back into the list: a dragged occupant
      at the clamped drop point inside the tank, at its old place outside
      it, and nothing for a palette species dropped outside. */
  function Returned(s: Screen, item: Fields, r: Rect, px: real, py: real): seq<Fields>
  {
    if s.dragSource != Some(FromTank) || !Truthy(s.dragExistingId) then []
    else if Inside(r, px, py) then [Moved(item, s.dragExistingId, Num(DropX(r, px)), Num(DropY(r, py)))]
    else if s.dragOrig.Some? then [Moved(item, s.dragExistingId, s.dragOrig.value.0, s.dragOrig.value.1)]
    else []
  }

  /** `confirmCreateItem`: the waiting fish joins the end of the list. A
      draft that is not text makes `trim` throw before anything is set. */
  function Confirmed(s: Screen, numText: NumberText): Screen
  {
    if s.pendingNew.None? || !s.nameDraft.Str? then s
    else
      var p := s.pendingNew.value;
      s.(tankItems := s.tankItems + [Created(p.base, p.instanceId, p.x, p.y, s.nameDraft.s, numText)], pendingNew := None)
  }

  /** `startRename`: the occupant becomes active and the draft is its
      nickname as stored, or `''` when that is falsy. */
  function RenameStarted(s: Screen, item: Fields): Screen
  {
    s.(activeItemId := IdOf(item), nameDraft := Or(Get(item, "nickname"), Str("")))
  }

  /** `confirmRename`: the occupants with the active id are renamed. A
      draft that is not text makes `trim` throw inside the update for the
      first such occupant; with none, nothing is renamed either way. */
  function RenameConfirmed(s: Screen, numText: NumberText): Screen
  {
    if s.nameDraft.Str? then s.(tankItems := RenameAll(s.tankItems, s.activeItemId, s.nameDraft.s, numText))
    else s
  }

  /** `deleteItem`, with the user's answer. */
  function Deleted(s: Screen, id: Val, confirmed: bool): Screen
  {
    if confirmed then s.(tankItems := Without(s.tankItems, id)) else s
  }

  /** `switchEnv`, with the user's answer to the warning. An occupant
      whose type is not text makes the handler throw. */
  function Switched(s: Screen, next: string, confirmed: bool): Screen
  {
    if next == s.waterEnv || !AllTyped(s.tankItems) then s
    else if Affected(s.tankItems, next) != [] && !confirmed then s
    else s.(waterEnv := next)
  }

  /** The first focus loads the saved tank: settings found in it replace
      the current ones, and its items replace the list unless reading them
      throws. Later focuses change nothing. */
  function Loaded(s: Screen, tank: Val, numText: NumberText, rand: nat -> string): Screen
  {
    if s.hydratedOnce then s
    else
      WithLoaded(s, LoadSettings(tank, Settings(s.waterEnv, s.userTemp, s.userOxy, s.bgIndex)), LoadItems(tank, numText, rand))
  }

  /** The screen once the settings `st` and, when the saved tank has its
      lists, the occupants `items` are read back. */
  function WithLoaded(s: Screen, st: Settings, items: Option<seq<Fields>>): Screen
  {
    s.(hydratedOnce := true, waterEnv := st.env, userTemp := st.temp, userOxy := st.oxy, bgIndex := st.bgIndex,
       tankItems := if items.Some? then items.value else s.tankItems)
  }

  // ---------------------------------------------------------------------
  // Properties of the transitions

  /** A drop inside the tank puts whatever it adds, or the fish waiting
      for its name, at the clamped drop point: wholly inside a tank at
      least as large as an occupant. */
  lemma DropClamped(s: Screen, px: real, py: real, instanceId: string, decision: PaletteDrop, numText: NumberText)
    requires s.tankRect.Some? && s.dragItem.Some? && Inside(s.tankRect.value, px, py)
    ensures var t := Dropped(s, px, py, instanceId, decision, numText);
      var r := s.tankRect.value;
      (t.tankItems == s.tankItems ||
       (|t.tankItems| == |s.tankItems| + 1 && t.tankItems[..|s.tankItems|] == s.tankItems &&
        Get(t.tankItems[|s.tankItems|], "x") == Num(DropX(r, px)) &&
        Get(t.tankItems[|s.tankItems|], "y") == Num(DropY(r, py)))) &&
      (t.pendingNew != s.pendingNew ==>
        t.pendingNew.Some? && t.pendingNew.value.x == DropX(r, px) && t.pendingNew.value.y == DropY(r, py)) &&
      0.0 <= DropX(r, px) && (r.w >= FishW ==> DropX(r, px) + FishW <= r.w) &&
      0.0 <= DropY(r, py) && (r.h >= FishH ==> DropY(r, py) + FishH <= r.h)
  {
    var r := s.tankRect.value;
    var item := s.dragItem.value;
    var x := DropX(r, px);
    var y := DropY(r, py);
    DropInBounds(r, px, py);
    if s.dragSource == Some(Palette) {
      if decision == Accepted && Get(item, "kind") != Str("fish") {
        AppendedAt(s.tankItems, Placed(item, instanceId, x, y, "plant", numText), x, y) by {
          PlacedParts(item, instanceId, x, y, "plant", numText);
        }
      }
    } else if s.dragSource == Some(FromTank) && Truthy(s.dragExistingId) {
      AppendedAt(s.tankItems, Moved(item, s.dragExistingId, Num(x), Num(y)), x, y) by {
        MovedParts(item, s.dragExistingId, Num(x), Num(y));
      }
    }
  }

  lemma AppendedAt(xs: seq<Fields>, t: Fields, x: real, y: real)
    requires Get(t, "x") == Num(x) && Get(t, "y") == Num(y)
    ensures (xs + [t])[..|xs|] == xs && Get((xs + [t])[|xs|], "x") == Num(x) && Get((xs + [t])[|xs|], "y") == Num(y)
  {
    assert (xs + [t])[|xs|] == t;
  }

  /** Dragging an occupant out of a measured tank and dropping it anywhere
      keeps the multiset of instance ids, their uniqueness and the list
      length. The other occupants keep their order; the moved one goes
      last with its nickname, at the clamped point when dropped inside and
      reading exactly as before when dropped outside. */
  lemma DragRoundTrip(s: Screen, item: Fields, px: real, py: real, instanceId: string, decision: PaletteDrop,
                      numText: NumberText)
    requires UniqueIds(s.tankItems) && item in s.tankItems && Truthy(IdOf(item)) && s.tankRect.Some?
    ensures var t := Dropped(Lifted(s, item), px, py, instanceId, decision, numText);
      var n := |t.tankItems|;
      var r := s.tankRect.value;
      multiset(Ids(t.tankItems)) == multiset(Ids(s.tankItems)) && n == |s.tankItems| &&
      UniqueIds(t.tankItems) && t.tankItems[..n - 1] == Without(s.tankItems, IdOf(item)) &&
      Get(t.tankItems[n - 1], "nickname") == Get(item, "nickname") &&
      (Inside(r, px, py) ==>
        Get(t.tankItems[n - 1], "x") == Num(DropX(r, px)) && Get(t.tankItems[n - 1], "y") == Num(DropY(r, py))) &&
      (!Inside(r, px, py) ==> forall k :: Get(t.tankItems[n - 1], k) == Get(item, k)) &&
      t.dragItem.None? && t.pendingNew == s.pendingNew
  {
    var r := s.tankRect.value;
    var x: Val := if Inside(r, px, py) then Num(DropX(r, px)) else Get(item, "x");
    var y: Val := if Inside(r, px, py) then Num(DropY(r, py)) else Get(item, "y");
    var t := Dropped(Lifted(s, item), px, py, instanceId, decision, numText);
    assert t.tankItems == Without(s.tankItems, IdOf(item)) + [Moved(item, IdOf(item), x, y)] &&
      t.dragItem.None? && t.pendingNew == s.pendingNew by {
      LiftedDropped(s, item, px, py, instanceId, decision, numText);
    }
    ReappendKeepsIds(s.tankItems, item, x, y);
    if !Inside(r, px, py) {
      MovedBackUnchanged(item);
    }
  }

  /** What a lifted occupant becomes when it is dropped on a measured
      tank. */
  lemma LiftedDropped(s: Screen, item: Fields, px: real, py: real, instanceId: string, decision: PaletteDrop,
                      numText: NumberText)
    requires Truthy(IdOf(item)) && s.tankRect.Some?
    ensures var r := s.tankRect.value;
      var x: Val := if Inside(r, px, py) then Num(DropX(r, px)) else Get(item, "x");
      var y: Val := if Inside(r, px, py) then Num(DropY(r, py)) else Get(item, "y");
      var t := Dropped(Lifted(s, item), px, py, instanceId, decision, numText);
      t.tankItems == Without(s.tankItems, IdOf(item)) + [Moved(item, IdOf(item), x, y)] &&
      t.dragItem.None? && t.pendingNew == s.pendingNew
  {
  }

  /** With no measured tank, the dragged occupant is not put back: its id
      is gone from the list once the drag ends. */
  lemma LostWithoutTank(s: Screen, item: Fields, px: real, py: real, instanceId: string, decision: PaletteDrop,
                        numText: NumberText)
    requires s.tankRect.None?
    ensures var t := Dropped(Lifted(s, item), px, py, instanceId, decision, numText);
      IdOf(item) !in Ids(t.tankItems) && t.dragItem.None? && t.dragOrig.None?
  {
    var xs := Without(s.tankItems, IdOf(item));
    WithoutMembers(s.tankItems, IdOf(item));
    assert forall i :: 0 <= i < |xs| ==> xs[i] in xs;
  }

  /** Lifting an occupant keeps the ids unique and leaves its id out of
      the list until the drop. */
  lemma LiftKeepsIdsUnique(s: Screen, item: Fields)
    requires UniqueIds(s.tankItems)
    ensures var t := Lifted(s, item);
      UniqueIds(t.tankItems) && t.dragExistingId !in Ids(t.tankItems) && t.dragSource == Some(FromTank)
  {
    var xs := Without(s.tankItems, IdOf(item));
    WithoutIds(s.tankItems, IdOf(item));
    forall v | v in Ids(xs) ensures multiset(Ids(xs))[v] == 1 {
      assert v in multiset(Ids(xs));
      assert v in multiset(Ids(s.tankItems));
    }
    assert IdOf(item) !in multiset(Ids(xs));
  }

  /** Every drop keeps the instance ids unique, provided a palette species
      gets an id no occupant has and a dragged occupant's id has left the
      list, as lifting leaves it. A fish that starts waiting for its name
      holds the fresh id and the list is unchanged. */
  lemma DropKeepsIdsUnique(s: Screen, px: real, py: real, instanceId: string, decision: PaletteDrop,
                           numText: NumberText)
    requires UniqueIds(s.tankItems) && Str(instanceId) !in Ids(s.tankItems)
    requires s.dragSource == Some(FromTank) ==> s.dragExistingId !in Ids(s.tankItems)
    ensures var t := Dropped(s, px, py, instanceId, decision, numText);
      UniqueIds(t.tankItems) &&
      (t.pendingNew != s.pendingNew ==>
        t.pendingNew.Some? && t.pendingNew.value.instanceId == instanceId && t.tankItems == s.tankItems)
  {
    var t := Dropped(s, px, py, instanceId, decision, numText);
    if s.tankRect.Some? && s.dragItem.Some? {
      var r := s.tankRect.value;
      var item := s.dragItem.value;
      if Inside(r, px, py) && s.dragSource == Some(Palette) {
        assert t == PaletteLanded(s, item, DropX(r, px), DropY(r, py), instanceId, decision, numText);
        LandedKeepsIdsUnique(s, item, DropX(r, px), DropY(r, py), instanceId, decision, numText);
      } else {
        assert t.tankItems == s.tankItems + Returned(s, item, r, px, py) && t.pendingNew == s.pendingNew;
        ReturnedKeepsIdsUnique(s, item, r, px, py);
      }
    }
  }

  lemma LandedKeepsIdsUnique(s: Screen, item: Fields, x: real, y: real, instanceId: string, decision: PaletteDrop,
                             numText: NumberText)
    requires UniqueIds(s.tankItems) && Str(instanceId) !in Ids(s.tankItems)
    ensures var t := PaletteLanded(s, item, x, y, instanceId, decision, numText);
      UniqueIds(t.tankItems) &&
      (t.pendingNew != s.pendingNew ==>
        t.pendingNew.Some? && t.pendingNew.value.instanceId == instanceId && t.tankItems == s.tankItems)
  {
    if decision == Accepted && Get(item, "kind") != Str("fish") {
      PlacedKeepsName(item, instanceId, x, y, "plant", numText);
      FreshSnocUnique(s.tankItems, Placed(item, instanceId, x, y, "plant", numText));
    }
  }

  lemma ReturnedKeepsIdsUnique(s: Screen, item: Fields, r: Rect, px: real, py: real)
    requires UniqueIds(s.tankItems)
    requires s.dragSource == Some(FromTank) ==> s.dragExistingId !in Ids(s.tankItems)
    ensures UniqueIds(s.tankItems + Returned(s, item, r, px, py))
  {
    var id := s.dragExistingId;
    if s.dragSource != Some(FromTank) || !Truthy(id) {
      assert s.tankItems + [] == s.tankItems;
    } else if Inside(r, px, py) {
      var m := Moved(item, id, Num(DropX(r, px)), Num(DropY(r, py)));
      MovedParts(item, id, Num(DropX(r, px)), Num(DropY(r, py)));
      FreshSnocUnique(s.tankItems, m);
    } else if s.dragOrig.Some? {
      var m := Moved(item, id, s.dragOrig.value.0, s.dragOrig.value.1);
      MovedParts(item, id, s.dragOrig.value.0, s.dragOrig.value.1);
      FreshSnocUnique(s.tankItems, m);
    } else {
      assert s.tankItems + [] == s.tankItems;
    }
  }

  /** Confirming the name of a waiting fish keeps the ids unique when the
      fish's id is not in the list, as a drop leaves it. */
  lemma ConfirmKeepsIdsUnique(s: Screen, numText: NumberText)
    requires UniqueIds(s.tankItems)
    requires s.pendingNew.Some? ==> Str(s.pendingNew.value.instanceId) !in Ids(s.tankItems)
    ensures UniqueIds(Confirmed(s, numText).tankItems)
    ensures s.pendingNew.Some? && s.nameDraft.Str? ==> |Confirmed(s, numText).tankItems| == |s.tankItems| + 1
    ensures !s.nameDraft.Str? ==> Confirmed(s, numText) == s
  {
    if s.pendingNew.Some? && s.nameDraft.Str? {
      var p := s.pendingNew.value;
      CreatedParts(p.base, p.instanceId, p.x, p.y, s.nameDraft.s, numText);
      FreshSnocUnique(s.tankItems, Created(p.base, p.instanceId, p.x, p.y, s.nameDraft.s, numText));
    }
  }

  /** Appending an occupant whose id the list does not hold keeps the ids
      unique. */
  lemma FreshSnocUnique(xs: seq<Fields>, t: Fields)
    requires UniqueIds(xs) && IdOf(t) !in Ids(xs)
    ensures UniqueIds(xs + [t])
  {
    IdsSnoc(xs, t);
    var a := Ids(xs) + [IdOf(t)];
    assert multiset(a) == multiset(Ids(xs)) + multiset{IdOf(t)};
    forall v | v in a ensures multiset(a)[v] == 1 {
      if v == IdOf(t) {
        assert v !in multiset(Ids(xs));
      } else {
        assert v in Ids(xs);
      }
    }
  }

  /** An accepted palette plant goes straight into the list, at the end,
      under the fresh id and without a nickname of its own. */
  lemma PlantPlaced(s: Screen, px: real, py: real, instanceId: string, numText: NumberText)
    requires s.tankRect.Some? && s.dragItem.Some? && Inside(s.tankRect.value, px, py)
    requires s.dragSource == Some(Palette) && Get(s.dragItem.value, "kind") != Str("fish")
    ensures var t := Dropped(s, px, py, instanceId, Accepted, numText);
      var p := t.tankItems[|t.tankItems| - 1];
      |t.tankItems| == |s.tankItems| + 1 && IdOf(p) == Str(instanceId) &&
      Get(p, "nickname") == Get(s.dragItem.value, "nickname") && t.pendingNew == s.pendingNew
  {
    var r := s.tankRect.value;
    var p := Placed(s.dragItem.value, instanceId, DropX(r, px), DropY(r, py), "plant", numText);
    var t := Dropped(s, px, py, instanceId, Accepted, numText);
    assert t.tankItems == s.tankItems + [p] && t.pendingNew == s.pendingNew;
    assert t.tankItems[|t.tankItems| - 1] == p;
    PlacedKeepsName(s.dragItem.value, instanceId, DropX(r, px), DropY(r, py), "plant", numText);
  }

  lemma PlacedKeepsName(base: Fields, instanceId: string, x: real, y: real, kind: string, numText: NumberText)
    ensures var p := Placed(base, instanceId, x, y, kind, numText);
      IdOf(p) == Str(instanceId) && Get(p, "nickname") == Get(base, "nickname")
  {
    var vals := [Str(ToText(Get(base, "id"), numText) + "::" + instanceId), Get(base, "id"),
                 Coalesce(Get(base, "kind"), Str(kind)), Str(instanceId), Num(x), Num(y)];
    PlacedKeysDistinct();
    AssignAt(base, PlacedKeys, vals, 3);
    AssignOther(base, PlacedKeys, vals, "nickname");
  }

  /** An accepted palette fish waits for its name and is not in the list
      yet; confirming an empty draft appends it under its species name. */
  lemma FishNamed(s: Screen, px: real, py: real, instanceId: string, numText: NumberText)
    requires s.tankRect.Some? && s.dragItem.Some? && Inside(s.tankRect.value, px, py)
    requires s.dragSource == Some(Palette) && Get(s.dragItem.value, "kind") == Str("fish")
    ensures var t := Dropped(s, px, py, instanceId, Accepted, numText);
      t.tankItems == s.tankItems && t.pendingNew.Some? && t.nameDraft == Str("") &&
      var u := Confirmed(t, numText);
      var f := u.tankItems[|u.tankItems| - 1];
      |u.tankItems| == |s.tankItems| + 1 && u.pendingNew.None? && IdOf(f) == Str(instanceId) &&
      Get(f, "kind") == Str("fish") &&
      Get(f, "nickname") == Str(DefaultNickname(s.dragItem.value, numText))
  {
    var r := s.tankRect.value;
    var t := Dropped(s, px, py, instanceId, Accepted, numText);
    assert t.tankItems == s.tankItems &&
      t.pendingNew == Some(Pending(s.dragItem.value, DropX(r, px), DropY(r, py), instanceId)) && t.nameDraft == Str("");
    ConfirmedDefault(t, numText);
  }

  /** Confirming a waiting fish with an empty draft appends it last, under
      its instance id and its species' default name. */
  lemma ConfirmedDefault(t: Screen, numText: NumberText)
    requires t.pendingNew.Some? && t.nameDraft == Str("") && Get(t.pendingNew.value.base, "kind") == Str("fish")
    ensures var u := Confirmed(t, numText);
      var p := t.pendingNew.value;
      var f := u.tankItems[|u.tankItems| - 1];
      |u.tankItems| == |t.tankItems| + 1 && u.pendingNew.None? && IdOf(f) == Str(p.instanceId) &&
      Get(f, "kind") == Str("fish") && Get(f, "nickname") == Str(DefaultNickname(p.base, numText))
  {
    var p := t.pendingNew.value;
    var c := Created(p.base, p.instanceId, p.x, p.y, "", numText);
    assert Confirmed(t, numText).tankItems == t.tankItems + [c];
    CreatedParts(p.base, p.instanceId, p.x, p.y, "", numText);
    assert Trim("") == "";
  }

  /** A palette drop that is turned down or throws adds nothing. */
  lemma RefusedDropKeepsList(s: Screen, px: real, py: real, instanceId: string, numText: NumberText)
    requires s.dragSource == Some(Palette)
    ensures Dropped(s, px, py, instanceId, Refused, numText).tankItems == s.tankItems
    ensures Dropped(s, px, py, instanceId, Refused, numText).pendingNew == s.pendingNew
    ensures Dropped(s, px, py, instanceId, Throws, numText).tankItems == s.tankItems
  {
  }

  /** Deleting with consent removes exactly the occupants with the id,
      keeps the others in order, and keeps ids unique. */
  lemma DeleteExact(s: Screen, id: Val)
    ensures var t := Deleted(s, id, true);
      multiset(Ids(t.tankItems)) == multiset(Ids(s.tankItems))[id := 0] &&
      (forall x :: x in t.tankItems <==> x in s.tankItems && IdOf(x) != id) &&
      (UniqueIds(s.tankItems) ==> UniqueIds(t.tankItems)) &&
      (id !in Ids(s.tankItems) ==> t.tankItems == s.tankItems)
    ensures Deleted(s, id, false) == s
  {
    var xs := s.tankItems;
    assert Deleted(s, id, true).tankItems == Without(xs, id);
    WithoutIds(xs, id);
    WithoutMembers(xs, id);
    if id !in Ids(xs) {
      WithoutAbsent(xs, id);
    }
  }

  /** Switching the water type either keeps the current one or takes the
      new one; without the user's consent it takes the new one exactly
      when it differs and no occupant is of another type. */
  lemma SwitchRule(s: Screen, next: string, confirmed: bool)
    requires AllTyped(s.tankItems)
    ensures var t := Switched(s, next, confirmed);
      (t.waterEnv == s.waterEnv || t.waterEnv == next) && t.tankItems == s.tankItems
    ensures Switched(s, next, false).waterEnv == next <==>
      next == s.waterEnv || forall x :: x in s.tankItems ==> EnvTypeOf(x) == next
    ensures Switched(s, next, true).waterEnv == next
  {
    if Affected(s.tankItems, next) != [] {
      var a := Affected(s.tankItems, next)[0];
      assert a in Affected(s.tankItems, next);
    }
  }

  /** Only the first focus loads: loading again changes nothing. */
  lemma LoadOnce(s: Screen, tank: Val, again: Val, numText: NumberText, rand: nat -> string)
    ensures Loaded(s, tank, numText, rand).hydratedOnce
    ensures Loaded(Loaded(s, tank, numText, rand), again, numText, rand) == Loaded(s, tank, numText, rand)
  {
  }

  /** Loading an absent tank marks the screen loaded and changes nothing
      else. */
  lemma LoadNothing(s: Screen, numText: NumberText, rand: nat -> string)
    requires !s.hydratedOnce
    ensures Loaded(s, Null, numText, rand) == s.(hydratedOnce := true)
  {
  }

  // ---------------------------------------------------------------------
  // The screen

  class Aquarium {
    var tankItems: seq<Fields>
    var tankRect: Option<Rect>
    var dragItem: Option<Fields>
    var dragSource: Option<DragSource>
    var dragExistingId: Val
    var dragOrig: Option<(Val, Val)>
    var pendingNew: Option<Pending>
    var nameDraft: Val
    var activeItemId: Val
    var waterEnv: string
    var userTemp: real
    var userOxy: real
    var bgIndex: nat
    var hydratedOnce: bool

    /** The screen state as a value. */
    function State(): Screen
      reads this
    {
      Screen(tankItems, tankRect, dragItem, dragSource, dragExistingId, dragOrig, pendingNew, nameDraft,
             activeItemId, waterEnv, userTemp, userOxy, bgIndex, hydratedOnce)
    }

    /** Initial screen state: an empty freshwater tank at 26 degrees and
        60% oxygen on the first background, nothing dragged, nothing
        loaded yet. */
    constructor ()
      ensures State() == Screen([], None, None, None, Null, None, None, Str(""), Null, "freshwater", 26.0, 60.0, 0, false)
    {
      tankItems := [];
      tankRect := None;
      dragItem := None;
      dragSource := None;
      dragExistingId := Null;
      dragOrig := None;
      pendingNew := None;
      nameDraft := Str("");
      activeItemId := Null;
      waterEnv := "freshwater";
      userTemp := 26.0;
      userOxy := 60.0;
      bgIndex := 0;
      hydratedOnce := false;
    }

    /** The tank's measured position on the page. */
    method MeasureTank(r: Rect)
      modifies this
      ensures State() == old(State()).(tankRect := Some(r))
    {
      tankRect := Some(r);
    }

    /** `startDrag`: a species picked from the palette. */
    method StartDrag(sp: Fields)
      modifies this
      ensures State() == old(State()).(dragSource := Some(Palette), dragItem := Some(sp))
    {
      dragSource := Some(Palette);
      dragItem := Some(sp);
    }

    /** `startDragExisting`. */
    method StartDragExisting(item: Fields)
      modifies this
      ensures State() == Lifted(old(State()), item)
    {
      tankItems := Without(tankItems, IdOf(item));
      Grab(item);
    }

    /** The drag fields of `startDragExisting`. */
    method Grab(item: Fields)
      modifies this
      ensures State() == old(State()).(activeItemId := Null, dragSource := Some(FromTank), dragItem := Some(item),
        dragExistingId := IdOf(item), dragOrig := Some((Get(item, "x"), Get(item, "y"))))
    {
      activeItemId, dragSource, dragItem := Null, Some(FromTank), Some(item);
      dragExistingId, dragOrig := IdOf(item), Some((Get(item, "x"), Get(item, "y")));
    }

    /** `cleanupDrag`. */
    method CleanupDrag()
      modifies this
      ensures State() == EndDrag(old(State()))
    {
      dragItem := None;
      dragSource := None;
      dragExistingId := Null;
      dragOrig := None;
    }

    /** `handleDrop`: see `Dropped` and `PaletteDecision`. When the
        palette check cannot run the handler stops before ending the
        drag. */
    method HandleDrop(px: real, py: real, instanceId: string, proceed: bool, numText: NumberText)
      modifies this
      ensures State() == Dropped(old(State()), px, py, instanceId, PaletteDecision(old(State()), proceed, numText), numText)
    {
      if tankRect.Some? && dragItem.Some? && Inside(tankRect.value, px, py) && dragSource == Some(Palette) {
        var decision := CheckPalette(proceed, numText);
        LandPalette(DropX(tankRect.value, px), DropY(tankRect.value, py), instanceId, decision, numText);
      } else if tankRect.Some? && dragItem.Some? {
        PutBack(px, py);
      } else {
        CleanupDrag();
      }
    }

    /** The compatibility and water check of a palette drop: it throws
        where an id, a list or the water type cannot be compared, and the
        warnings it gathers stop the drop unless the user goes ahead. */
    method CheckPalette(proceed: bool, numText: NumberText) returns (d: PaletteDrop)
      ensures d == PaletteDecision(State(), proceed, numText)
    {
      d := Throws;
      if dragItem.Some? && Checkable(dragItem.value, tankItems) {
        var conflicts := AddConflicts(dragItem.value, tankItems, numText);
        var msgs := conflicts + WaterMismatch(dragItem.value, waterEnv, numText);
        d := if msgs == [] || proceed then Accepted else Refused;
      }
    }

    /** The end of a palette drop inside the tank, once the check is done. */
    method LandPalette(x: real, y: real, instanceId: string, decision: PaletteDrop, numText: NumberText)
      requires dragItem.Some?
      modifies this
      ensures State() == PaletteLanded(old(State()), old(dragItem.value), x, y, instanceId, decision, numText)
    {
      var item := dragItem.value;
      if decision == Accepted {
        if Get(item, "kind") == Str("fish") {
          pendingNew := Some(Pending(item, x, y, instanceId));
          nameDraft := Str("");
        } else {
          tankItems := tankItems + [Placed(item, instanceId, x, y, "plant", numText)];
        }
      }
      if decision != Throws {
        CleanupDrag();
      }
    }

    /** Every other drop on a measured tank: a dragged occupant goes back
        into the list, then the drag ends. */
    method PutBack(px: real, py: real)
      requires tankRect.Some? && dragItem.Some?
      modifies this
      ensures State() == EndDrag(old(State()).(tankItems := old(tankItems) +
        Returned(old(State()), old(dragItem.value), old(tankRect.value), px, py)))
    {
      var r := tankRect.value;
      var item := dragItem.value;
      if dragSource == Some(FromTank) && Truthy(dragExistingId) {
        if Inside(r, px, py) {
          tankItems := tankItems + [Moved(item, dragExistingId, Num(DropX(r, px)), Num(DropY(r, py)))];
        } else if dragOrig.Some? {
          tankItems := tankItems + [Moved(item, dragExistingId, dragOrig.value.0, dragOrig.value.1)];
        }
      }
      CleanupDrag();
    }

    /** Typing in the naming dialog. */
    method EditName(text: string)
      modifies this
      ensures State() == old(State()).(nameDraft := Str(text))
    {
      nameDraft := Str(text);
    }

    /** `confirmCreateItem`. */
    method ConfirmCreateItem(numText: NumberText)
      modifies this
      ensures State() == Confirmed(old(State()), numText)
    {
      if pendingNew.Some? && nameDraft.Str? {
        var p := pendingNew.value;
        tankItems := tankItems + [Created(p.base, p.instanceId, p.x, p.y, nameDraft.s, numText)];
        pendingNew := None;
      }
    }

    /** Cancelling the naming dialog drops the waiting fish. */
    method CancelName()
      modifies this
      ensures State() == old(State()).(pendingNew := None)
    {
      pendingNew := None;
    }

    /** Tapping an occupant opens its bubble, tapping it again closes it. */
    method PressItem(item: Fields)
      modifies this
      ensures State() == old(State()).(activeItemId := if old(activeItemId) == IdOf(item) then Null else IdOf(item))
    {
      activeItemId := if activeItemId == IdOf(item) then Null else IdOf(item);
    }

    /** `startRename`: the occupant becomes active and the draft starts
        from its nickname, kept as stored even when it is not text. */
    method StartRename(item: Fields)
      modifies this
      ensures State() == RenameStarted(old(State()), item)
      ensures Truthy(Get(item, "nickname")) ==> nameDraft == Get(item, "nickname")
      ensures !Truthy(Get(item, "nickname")) ==> nameDraft == Str("")
    {
      activeItemId := IdOf(item);
      nameDraft := Or(Get(item, "nickname"), Str(""));
    }

    /** `confirmRename`: the active occupant is renamed; `RenameOnly`
        states what that keeps and `RenameUnedited` what confirming an
        unedited draft does. */
    method ConfirmRename(numText: NumberText)
      modifies this
      ensures State() == RenameConfirmed(old(State()), numText)
      ensures !old(nameDraft).Str? ==> State() == old(State())
    {
      if nameDraft.Str? {
        tankItems := RenameAll(tankItems, activeItemId, nameDraft.s, numText);
      }
    }

    /** `deleteItem`, with the user's answer. */
    method DeleteItem(id: Val, confirmed: bool)
      modifies this
      ensures State() == Deleted(old(State()), id, confirmed)
    {
      if confirmed {
        tankItems := Without(tankItems, id);
      }
    }

    /** `switchEnv`, with the user's answer. */
    method SwitchEnv(next: string, confirmed: bool)
      modifies this
      ensures State() == Switched(old(State()), next, confirmed)
    {
      if next != waterEnv && AllTyped(tankItems) {
        var affected := Affected(tankItems, next);
        if |affected| == 0 || confirmed {
          waterEnv := next;
        }
      }
    }

    /** The load on first focus; `tank` is the saved document, a falsy
        value when there is none. */
    method HydrateOnce(tank: Val, numText: NumberText, rand: nat -> string)
      modifies this
      ensures State() == Loaded(old(State()), tank, numText, rand)
    {
      if !hydratedOnce {
        var st := LoadSettings(tank, Settings(waterEnv, userTemp, userOxy, bgIndex));
        var loaded := LoadItems(tank, numText, rand);
        ApplyLoaded(st, loaded);
      }
    }

    /** Writing what was read back into the screen's state. */
    method ApplyLoaded(st: Settings, loaded: Option<seq<Fields>>)
      modifies this
      ensures State() == WithLoaded(old(State()), st, loaded)
    {
      hydratedOnce := true;
      waterEnv := st.env;
      userTemp := st.temp;
      userOxy := st.oxy;
      bgIndex := st.bgIndex;
      if loaded.Some? {
        tankItems := loaded.value;
      }
    }
  }
}
