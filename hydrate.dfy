// Loading the saved tank on the screen's first focus: settings are taken
// from the document where present, items from the `items` dictionary when
// it has entries and otherwise from the `fish` and `plants` lists, and each
// item is completed with defaults.

module Hydrate {
  import opened Text
  import opened Json
  import opened Strip
  import opened Payload

  /** The screen settings a loaded document can set. */
  datatype Settings = Settings(env: string, temp: real, oxy: real, bgIndex: nat)

  /** The position of the first key equal to `v`, or -1 (`findIndex`). */
  function FindKey(keys: seq<string>, v: Val): (r: int)
    ensures -1 <= r < |keys|
    ensures r >= 0 ==> v == Str(keys[r]) && forall j :: 0 <= j < r ==> v != Str(keys[j])
    ensures r == -1 ==> forall j :: 0 <= j < |keys| ==> v != Str(keys[j])
  {
    if keys == [] then -1
    else if v == Str(keys[0]) then 0
    else
      var r := FindKey(keys[1..], v);
      if r == -1 then -1 else r + 1
  }

  /** The background index a saved key selects: an unknown key selects the
      first background. */
  function BackgroundIndex(key: Val): (r: nat)
    ensures r < |Backgrounds|
  {
    var i := FindKey(Backgrounds, key);
    if i < 0 then 0 else i
  }

  /** The settings after loading `tank`: each setting is taken from the
      document when it is present with the right type (a non-empty text
      environment, numeric temperature and oxygen, a background key) and
      kept otherwise. */
  function LoadSettings(tank: Val, cur: Settings): (r: Settings)
  {
    if !Truthy(tank) then cur
    else
      var st := PropsOf(Get(PropsOf(tank), "settings"));
      var env := Get(st, "env");
      var temp := Get(st, "temp");
      var oxy := Get(st, "oxy");
      var bg := Get(st, "backgroundKey");
      Settings(
        if Truthy(env) && env.Str? then env.s else cur.env,
        if temp.Num? then temp.n else cur.temp,
        if oxy.Num? then oxy.n else cur.oxy,
        if Truthy(bg) then BackgroundIndex(bg) else cur.bgIndex)
  }

  /** `toArray`: a list as it is, an object's values, anything else nothing. */
  function ToArray(v: Val): seq<Val>
  {
    if v.Arr? then v.elems else if v.Obj? then ObjectValues(v.fields) else []
  }

  /** The stored items: the dictionary's values when it has any, otherwise
      the `fish` list followed by the `plants` list. */
  function MergedItems(doc: Fields): seq<Val>
  {
    var dict := Get(doc, "items");
    if dict.Obj? && |dict.fields| > 0 then ObjectValues(dict.fields)
    else if dict.Arr? && |dict.elems| > 0 then dict.elems
    else ToArray(Coalesce(Get(doc, "fish"), Arr([]))) + ToArray(Coalesce(Get(doc, "plants"), Arr([])))
  }

  /** The default position of the `i`-th item with none saved. */
  function DefaultX(i: nat): real
  {
    (20 + (i * 10) % 120) as real
  }

  function DefaultY(i: nat): real
  {
    (20 + (i * 12) % 90) as real
  }

  /** The properties of a loaded item, in the order it lists them. */
  const HydratedKeys: seq<string> :=
    ["id", "speciesId", "name", "kind", "type", "assetKey", "imageURL", "instanceId", "x", "y", "nickname"]

  lemma HydratedKeysDistinct()
    ensures Distinct(HydratedKeys)
  {
  }

  /** A record listing `vals[i]` under `keys[i]`. */
  function Zip(keys: seq<string>, vals: seq<Val>): Fields
    requires |keys| == |vals|
  {
    if keys == [] then [] else [(keys[0], vals[0])] + Zip(keys[1..], vals[1..])
  }

  /** The record lists each key in order with its value. */
  lemma {:induction false} ZipAt(keys: seq<string>, vals: seq<Val>)
    requires |keys| == |vals|
    ensures |Zip(keys, vals)| == |keys| && forall i :: 0 <= i < |keys| ==> Zip(keys, vals)[i] == (keys[i], vals[i])
    decreases |keys|
  {
    if keys != [] {
      ZipAt(keys[1..], vals[1..]);
      assert forall i :: 1 <= i < |keys| ==> Zip(keys, vals)[i] == Zip(keys[1..], vals[1..])[i - 1];
    }
  }

  lemma {:induction false} ZipGet(keys: seq<string>, vals: seq<Val>, i: int)
    requires |keys| == |vals| && Distinct(keys) && 0 <= i < |keys|
    ensures Get(Zip(keys, vals), keys[i]) == vals[i]
  {
    if i > 0 {
      assert keys[0] != keys[i];
      assert keys[1..][i - 1] == keys[i] && vals[1..][i - 1] == vals[i];
      assert Distinct(keys[1..]) by {
        forall a, b | 0 <= a < b < |keys| - 1 ensures keys[1..][a] != keys[1..][b] {
          assert keys[1..][a] == keys[a + 1] && keys[1..][b] == keys[b + 1];
        }
      }
      ZipGet(keys[1..], vals[1..], i - 1);
    }
  }

  /** The record a loaded item becomes. */
  function Restored(id: Val, speciesId: Val, name: Val, kind: Val, wtype: Val, assetKey: Val,
                    imageURL: Val, instanceId: Val, x: Val, y: Val, nickname: Val): Fields
  {
    Zip(HydratedKeys, [id, speciesId, name, kind, wtype, assetKey, imageURL, instanceId, x, y, nickname])
  }

  lemma RestoredParts(id: Val, speciesId: Val, name: Val, kind: Val, wtype: Val, assetKey: Val,
                      imageURL: Val, instanceId: Val, x: Val, y: Val, nickname: Val)
    ensures var r := Restored(id, speciesId, name, kind, wtype, assetKey, imageURL, instanceId, x, y, nickname);
      Get(r, "id") == id && Get(r, "speciesId") == speciesId && Get(r, "name") == name &&
      Get(r, "kind") == kind && Get(r, "type") == wtype && Get(r, "instanceId") == instanceId &&
      Get(r, "x") == x && Get(r, "y") == y && Get(r, "nickname") == nickname
  {
    var vals := [id, speciesId, name, kind, wtype, assetKey, imageURL, instanceId, x, y, nickname];
    RestoredFront(vals);
    RestoredBack(vals);
  }

  lemma RestoredFront(vals: seq<Val>)
    requires |vals| == |HydratedKeys|
    ensures var r := Zip(HydratedKeys, vals);
      Get(r, "id") == vals[0] && Get(r, "speciesId") == vals[1] && Get(r, "name") == vals[2] &&
      Get(r, "kind") == vals[3] && Get(r, "type") == vals[4]
  {
    HydratedKeysDistinct();
    ZipGet(HydratedKeys, vals, 0);
    ZipGet(HydratedKeys, vals, 1);
    ZipGet(HydratedKeys, vals, 2);
    ZipGet(HydratedKeys, vals, 3);
    ZipGet(HydratedKeys, vals, 4);
  }

  lemma RestoredBack(vals: seq<Val>)
    requires |vals| == |HydratedKeys|
    ensures var r := Zip(HydratedKeys, vals);
      Get(r, "instanceId") == vals[7] && Get(r, "x") == vals[8] && Get(r, "y") == vals[9] &&
      Get(r, "nickname") == vals[10]
  {
    HydratedKeysDistinct();
    ZipGet(HydratedKeys, vals, 7);
    ZipGet(HydratedKeys, vals, 8);
    ZipGet(HydratedKeys, vals, 9);
    ZipGet(HydratedKeys, vals, 10);
  }

  /** The text of the `k`-th part of `s` split on "::", `undefined` when
      there is no such part. */
  function SepPart(s: string, k: nat): Val
  {
    var parts := Split(s, "::");
    if k < |parts| then Str(parts[k]) else Undef
  }

  /** The `i`-th loaded item. Its id defaults to `item-i`; a composite
      `species::instance` id supplies the species and instance ids the item
      lacks; a missing instance id is made from the species id, the index
      and `rand(i)`, the random text the host supplies. */
  function HydrateItem(it: Val, i: nat, numText: NumberText, rand: nat -> string): Fields
  {
    var p := PropsOf(it);
    var rawId := Coalesce(Get(p, "id"), Str("item-" + NatText(i)));
    var hasSep := rawId.Str? && Contains(rawId.s, "::");
    var speciesId := Or(Get(p, "speciesId"), if hasSep then SepPart(rawId.s, 0) else rawId);
    var instanceId := Or(Or(Get(p, "instanceId"), if hasSep then SepPart(rawId.s, 1) else Undef),
                         Str(ToText(speciesId, numText) + "-" + NatText(i) + "-" + rand(i)));
    var x := Get(p, "x");
    var y := Get(p, "y");
    Restored(rawId, speciesId, Coalesce(Get(p, "name"), Str("Unknown")),
      Coalesce(Get(p, "kind"), Str("fish")), Coalesce(Get(p, "type"), Str("freshwater")),
      Get(p, "assetKey"), Get(p, "imageURL"), instanceId,
      if x.Num? then x else Num(DefaultX(i)),
      if y.Num? then y else Num(DefaultY(i)),
      Get(p, "nickname"))
  }

  /** The items after loading `tank`: `None` leaves the tank as it was,
      either because nothing was loaded or because reading a property of a
      `null` or `undefined` stored item threw. */
  function LoadItems(tank: Val, numText: NumberText, rand: nat -> string): (r: Option<seq<Fields>>)
    ensures r.Some? ==> Truthy(tank) && |r.value| == |MergedItems(PropsOf(tank))|
  {
    if !Truthy(tank) then None
    else
      var merged := MergedItems(PropsOf(tank));
      if exists i :: 0 <= i < |merged| && Nullish(merged[i]) then None
      else Some(seq(|merged|, i requires 0 <= i < |merged| => HydrateItem(merged[i], i, numText, rand)))
  }

  // ---------------------------------------------------------------------
  // Properties

  /** A loaded item always has a position: the saved one when it is a
      number, else a default inside [20, 130] x [20, 109]. */
  lemma HydratedPosition(it: Val, i: nat, numText: NumberText, rand: nat -> string)
    ensures var r := HydrateItem(it, i, numText, rand);
      var x := Get(PropsOf(it), "x");
      var y := Get(PropsOf(it), "y");
      Get(r, "x").Num? && Get(r, "y").Num? &&
      (x.Num? ==> Get(r, "x") == x) && (y.Num? ==> Get(r, "y") == y) &&
      (!x.Num? ==> 20.0 <= Get(r, "x").n <= 130.0) &&
      (!y.Num? ==> 20.0 <= Get(r, "y").n <= 109.0)
  {
    var p := PropsOf(it);
    var rawId := Coalesce(Get(p, "id"), Str("item-" + NatText(i)));
    var hasSep := rawId.Str? && Contains(rawId.s, "::");
    var speciesId := Or(Get(p, "speciesId"), if hasSep then SepPart(rawId.s, 0) else rawId);
    var instanceId := Or(Or(Get(p, "instanceId"), if hasSep then SepPart(rawId.s, 1) else Undef),
                         Str(ToText(speciesId, numText) + "-" + NatText(i) + "-" + rand(i)));
    var x := Get(p, "x");
    var y := Get(p, "y");
    RestoredParts(rawId, speciesId, Coalesce(Get(p, "name"), Str("Unknown")),
      Coalesce(Get(p, "kind"), Str("fish")), Coalesce(Get(p, "type"), Str("freshwater")),
      Get(p, "assetKey"), Get(p, "imageURL"), instanceId,
      if x.Num? then x else Num(DefaultX(i)),
      if y.Num? then y else Num(DefaultY(i)),
      Get(p, "nickname"));
    assert (i * 10) % 120 <= 110 by { DefaultXBound(i); }
  }

  lemma DefaultXBound(i: nat)
    ensures (i * 10) % 120 <= 110
  {
    assert (i * 10) % 120 == ((i % 12) * 10) % 120;
  }

  /** An item whose only id is the composite `sp::inst` gets species id `sp`
      and instance id `inst` (with `inst` non-empty and neither part holding
      the separator), and keeps the composite as its id. */
  lemma CompositeId(it: Val, i: nat, numText: NumberText, rand: nat -> string, sp: string, inst: string)
    requires !Contains(sp + ":", "::") && !Contains(inst, "::") && inst != ""
    requires Get(PropsOf(it), "id") == Str(sp + "::" + inst)
    requires !Truthy(Get(PropsOf(it), "speciesId")) && !Truthy(Get(PropsOf(it), "instanceId"))
    ensures var r := HydrateItem(it, i, numText, rand);
      Get(r, "id") == Str(sp + "::" + inst) && Get(r, "speciesId") == Str(sp) && Get(r, "instanceId") == Str(inst)
  {
    var p := PropsOf(it);
    var s := sp + "::" + inst;
    SplitJoined(sp, inst);
    assert Contains(s, "::") by { SeparatorFound(sp, inst); }
    var speciesId := Str(sp);
    var instanceId := Str(inst);
    var x := Get(p, "x");
    var y := Get(p, "y");
    RestoredParts(Str(s), speciesId, Coalesce(Get(p, "name"), Str("Unknown")),
      Coalesce(Get(p, "kind"), Str("fish")), Coalesce(Get(p, "type"), Str("freshwater")),
      Get(p, "assetKey"), Get(p, "imageURL"), instanceId,
      if x.Num? then x else Num(DefaultX(i)),
      if y.Num? then y else Num(DefaultY(i)),
      Get(p, "nickname"));
  }

  /** `a + "::" + b` contains the separator. */
  lemma {:induction false} SeparatorFound(a: string, b: string)
    ensures Contains(a + "::" + b, "::")
    decreases |a|
  {
    var s := a + "::" + b;
    if a == [] {
      assert s[..2] == "::";
    } else {
      assert s[1..] == a[1..] + "::" + b;
      SeparatorFound(a[1..], b);
    }
  }

  /** What a stored item has is kept: a truthy instance or species id, a
      present id, name, kind and type, and the nickname; the defaults fill
      only what is missing. */
  lemma HydrateKeeps(it: Val, i: nat, numText: NumberText, rand: nat -> string)
    ensures var p := PropsOf(it);
      var r := HydrateItem(it, i, numText, rand);
      (Truthy(Get(p, "instanceId")) ==> Get(r, "instanceId") == Get(p, "instanceId")) &&
      (Truthy(Get(p, "speciesId")) ==> Get(r, "speciesId") == Get(p, "speciesId")) &&
      (!Nullish(Get(p, "id")) ==> Get(r, "id") == Get(p, "id")) &&
      Get(r, "name") == (if Nullish(Get(p, "name")) then Str("Unknown") else Get(p, "name")) &&
      Get(r, "kind") == (if Nullish(Get(p, "kind")) then Str("fish") else Get(p, "kind")) &&
      Get(r, "type") == (if Nullish(Get(p, "type")) then Str("freshwater") else Get(p, "type")) &&
      Get(r, "nickname") == Get(p, "nickname")
  {
    var p := PropsOf(it);
    var rawId := Coalesce(Get(p, "id"), Str("item-" + NatText(i)));
    var hasSep := rawId.Str? && Contains(rawId.s, "::");
    var speciesId := Or(Get(p, "speciesId"), if hasSep then SepPart(rawId.s, 0) else rawId);
    var instanceId := Or(Or(Get(p, "instanceId"), if hasSep then SepPart(rawId.s, 1) else Undef),
                         Str(ToText(speciesId, numText) + "-" + NatText(i) + "-" + rand(i)));
    var x := Get(p, "x");
    var y := Get(p, "y");
    RestoredParts(rawId, speciesId, Coalesce(Get(p, "name"), Str("Unknown")),
      Coalesce(Get(p, "kind"), Str("fish")), Coalesce(Get(p, "type"), Str("freshwater")),
      Get(p, "assetKey"), Get(p, "imageURL"), instanceId,
      if x.Num? then x else Num(DefaultX(i)),
      if y.Num? then y else Num(DefaultY(i)),
      Get(p, "nickname"));
  }

  /** An item whose saved identity survives a save and load: a non-empty
      text instance id, numeric coordinates, and a text nickname or none. */
  predicate Restorable(it: Fields)
  {
    var id := Get(it, "instanceId");
    var nick := Get(it, "nickname");
    id.Str? && id.s != "" && Get(it, "x").Num? && Get(it, "y").Num? && (nick.Undef? || nick.Str?)
  }

  /** A saved and cleaned item reads back the instance id, position and
      nickname it was saved with. */
  lemma SavedItemReads(it: Fields)
    requires Restorable(it)
    ensures var p := PropsOf(StripDeep(Obj(SerializeItem(it))));
      Get(p, "instanceId") == Get(it, "instanceId") && Get(p, "x") == Get(it, "x") &&
      Get(p, "y") == Get(it, "y") && Get(p, "nickname") == Get(it, "nickname")
  {
    var sv := SerializeItem(it);
    assert Get(sv, "instanceId") == Get(it, "instanceId") by { SerializeItemGet(it, "instanceId"); }
    assert Get(sv, "x") == Get(it, "x") by { SerializeItemGet(it, "x"); }
    assert Get(sv, "y") == Get(it, "y") by { SerializeItemGet(it, "y"); }
    assert Get(sv, "nickname") == Get(it, "nickname") by { SerializeItemGet(it, "nickname"); }
    assert UniqueKeys(sv) by { SerializeItemGet(it, "id"); }
    StripReads(sv, "instanceId");
    StripReads(sv, "x");
    StripReads(sv, "y");
    StripReads(sv, "nickname");
  }

  /** An item with a truthy instance id and a numeric position loads with
      that instance id, position and nickname. */
  lemma HydrateRestores(v: Val, j: nat, numText: NumberText, rand: nat -> string)
    requires Truthy(Get(PropsOf(v), "instanceId"))
    requires Get(PropsOf(v), "x").Num? && Get(PropsOf(v), "y").Num?
    ensures var p := PropsOf(v);
      var r := HydrateItem(v, j, numText, rand);
      Get(r, "instanceId") == Get(p, "instanceId") && Get(r, "x") == Get(p, "x") &&
      Get(r, "y") == Get(p, "y") && Get(r, "nickname") == Get(p, "nickname")
  {
    HydrateKeeps(v, j, numText, rand);
    HydratedPosition(v, j, numText, rand);
  }

  /** The cleaned dictionary of values under distinct keys: every value,
      cleaned, under its key, in order. */
  lemma CleanedIndex(keys: seq<string>, vals: seq<Val>)
    requires |keys| == |vals| && Distinct(keys)
    requires forall i :: 0 <= i < |vals| ==> vals[i] != Undef
    ensures StripDeep(Obj(Index(keys, vals))) ==
      Obj(seq(|keys|, i requires 0 <= i < |keys| => (keys[i], StripDeep(vals[i]))))
  {
    IndexInOrder(keys, vals);
    var ix := Index(keys, vals);
    assert KeysOf(ix) == keys;
    StripObjectValues(ix);
    var lhs := seq(|ix|, i requires 0 <= i < |ix| => (ix[i].0, StripDeep(ix[i].1)));
    var rhs := seq(|keys|, i requires 0 <= i < |keys| => (keys[i], StripDeep(vals[i])));
    forall i | 0 <= i < |lhs| ensures lhs[i] == rhs[i] {
      assert ix[i] == (keys[i], vals[i]);
    }
    assert lhs == rhs;
  }

  /** Each top-level part of a saved document is the cleaned raw part. */
  lemma SavedParts(items: seq<Fields>, env: string, temp: real, oxy: real, bgIndex: int, numText: NumberText)
    ensures var doc := BuildPayload(items, env, temp, oxy, bgIndex, numText);
      doc.Obj? &&
      Get(doc.fields, "settings") == StripDeep(Obj(SettingsOf(env, temp, oxy, bgIndex))) &&
      Get(doc.fields, "fish") == StripDeep(Arr(SerializeItems(OfKind(items, "fish")))) &&
      Get(doc.fields, "plants") == StripDeep(Arr(SerializeItems(OfKind(items, "plant")))) &&
      Get(doc.fields, "items") == StripDeep(Obj(Index(KeysFor(items, numText), SerializeItems(items))))
  {
    var pf := PayloadFields(items, env, temp, oxy, bgIndex, numText);
    DocumentParts(Obj(SettingsOf(env, temp, oxy, bgIndex)), Arr(SerializeItems(OfKind(items, "fish"))),
      Arr(SerializeItems(OfKind(items, "plant"))), Obj(Index(KeysFor(items, numText), SerializeItems(items))));
    StripObjectGet(pf, "settings");
    StripObjectGet(pf, "fish");
    StripObjectGet(pf, "plants");
    StripObjectGet(pf, "items");
  }

  /** The items a saved non-empty tank loads from: the dictionary's values. */
  lemma SavedMerged(items: seq<Fields>, env: string, temp: real, oxy: real, bgIndex: int, numText: NumberText)
    requires Distinct(KeysFor(items, numText)) && NoIndexKeys(KeysFor(items, numText)) && |items| > 0
    ensures var saved := SerializeItems(items);
      MergedItems(PropsOf(BuildPayload(items, env, temp, oxy, bgIndex, numText))) ==
        seq(|saved|, i requires 0 <= i < |saved| => StripDeep(saved[i]))
  {
    var doc := BuildPayload(items, env, temp, oxy, bgIndex, numText);
    var keys := KeysFor(items, numText);
    var saved := SerializeItems(items);
    var dict := seq(|keys|, i requires 0 <= i < |keys| => (keys[i], StripDeep(saved[i])));
    SavedDict(items, env, temp, oxy, bgIndex, numText);
    MergedFromDict(PropsOf(doc), dict);
    NamedDictValues(keys, saved);
  }

  /** The saved dictionary holds each item's cleaned saved form under its
      key, in order. */
  lemma SavedDict(items: seq<Fields>, env: string, temp: real, oxy: real, bgIndex: int, numText: NumberText)
    requires Distinct(KeysFor(items, numText))
    ensures var keys := KeysFor(items, numText);
      var saved := SerializeItems(items);
      var doc := BuildPayload(items, env, temp, oxy, bgIndex, numText);
      doc.Obj? && PropsOf(doc) == doc.fields &&
      Get(doc.fields, "items") == Obj(seq(|keys|, i requires 0 <= i < |keys| => (keys[i], StripDeep(saved[i]))))
  {
    var keys := KeysFor(items, numText);
    var saved := SerializeItems(items);
    var pf := PayloadFields(items, env, temp, oxy, bgIndex, numText);
    DocumentParts(Obj(SettingsOf(env, temp, oxy, bgIndex)), Arr(SerializeItems(OfKind(items, "fish"))),
      Arr(SerializeItems(OfKind(items, "plant"))), Obj(Index(keys, saved)));
    StripObjectGet(pf, "items");
    CleanedIndex(keys, saved);
  }

  /** A dictionary none of whose keys is an array index lists its values
      in the order they were written. */
  lemma NamedDictValues(keys: seq<string>, saved: seq<Val>)
    requires |keys| == |saved| && NoIndexKeys(keys)
    ensures var dict := seq(|keys|, i requires 0 <= i < |keys| => (keys[i], StripDeep(saved[i])));
      ObjectValues(dict) == seq(|saved|, i requires 0 <= i < |saved| => StripDeep(saved[i]))
  {
    var dict := seq(|keys|, i requires 0 <= i < |keys| => (keys[i], StripDeep(saved[i])));
    assert forall i :: 0 <= i < |dict| ==> dict[i].0 == keys[i] && keys[i] in keys;
    EnumeratedPlain(dict);
  }

  lemma MergedFromDict(doc: Fields, dict: Fields)
    requires Get(doc, "items") == Obj(dict) && |dict| > 0
    ensures MergedItems(doc) == ObjectValues(dict)
  {
  }

  /** Stored items under instance ids that are array indices load first,
      in ascending order of the id, before the others. */
  lemma IndexIdsLoadFirst(doc: Fields, p: Val, q: Val, r: Val, s: Val)
    requires Get(doc, "items") == Obj([("b", p), ("7", q), ("a", r), ("3", s)])
    ensures MergedItems(doc) == [s, q, p, r]
  {
    var dict := [("b", p), ("7", q), ("a", r), ("3", s)];
    MergedFromDict(doc, dict);
    EnumeratedExample(p, q, r, s);
    assert ValuesOf([("3", s), ("7", q), ("b", p), ("a", r)]) == [s, q, p, r];
  }

  /** Saving a tank and loading the saved document gives back every item,
      in order, with its instance id, position and nickname, provided the
      instance ids are distinct. */
  lemma ItemsRoundTrip(items: seq<Fields>, env: string, temp: real, oxy: real, bgIndex: int,
                       numText: NumberText, rand: nat -> string)
    requires forall i :: 0 <= i < |items| ==> Restorable(items[i])
    requires Distinct(KeysFor(items, numText)) && NoIndexKeys(KeysFor(items, numText))
    ensures var r := LoadItems(BuildPayload(items, env, temp, oxy, bgIndex, numText), numText, rand);
      r.Some? && |r.value| == |items| &&
      forall j :: 0 <= j < |items| ==>
        Get(r.value[j], "instanceId") == Get(items[j], "instanceId") && Get(r.value[j], "x") == Get(items[j], "x") &&
        Get(r.value[j], "y") == Get(items[j], "y") && Get(r.value[j], "nickname") == Get(items[j], "nickname")
  {
    SavedDocument(items, env, temp, oxy, bgIndex, numText);
    LoadSaved(BuildPayload(items, env, temp, oxy, bgIndex, numText), items, numText, rand);
  }

  /** A saved document is an object whose stored items are the cleaned saved
      forms of the tank's items, in order. */
  lemma SavedDocument(items: seq<Fields>, env: string, temp: real, oxy: real, bgIndex: int, numText: NumberText)
    requires Distinct(KeysFor(items, numText)) && NoIndexKeys(KeysFor(items, numText))
    ensures var doc := BuildPayload(items, env, temp, oxy, bgIndex, numText);
      var merged := MergedItems(PropsOf(doc));
      Truthy(doc) && |merged| == |items| &&
      forall j :: 0 <= j < |items| ==> merged[j] == StripDeep(Obj(SerializeItem(items[j])))
  {
    var doc := BuildPayload(items, env, temp, oxy, bgIndex, numText);
    var merged := MergedItems(PropsOf(doc));
    if |items| == 0 {
      EmptyTankLoads(env, temp, oxy, bgIndex, numText);
    } else {
      SavedMerged(items, env, temp, oxy, bgIndex, numText);
    }
    StripUndefOnly(Obj(PayloadFields(items, env, temp, oxy, bgIndex, numText)));
  }

  /** Loading a document whose stored items are the cleaned saved forms of
      `items` gives back each item's instance id, position and nickname. */
  lemma LoadSaved(tank: Val, items: seq<Fields>, numText: NumberText, rand: nat -> string)
    requires Truthy(tank)
    requires forall i :: 0 <= i < |items| ==> Restorable(items[i])
    requires var merged := MergedItems(PropsOf(tank));
      |merged| == |items| && forall j :: 0 <= j < |items| ==> merged[j] == StripDeep(Obj(SerializeItem(items[j])))
    ensures var r := LoadItems(tank, numText, rand);
      r.Some? && |r.value| == |items| &&
      forall j :: 0 <= j < |items| ==>
        Get(r.value[j], "instanceId") == Get(items[j], "instanceId") && Get(r.value[j], "x") == Get(items[j], "x") &&
        Get(r.value[j], "y") == Get(items[j], "y") && Get(r.value[j], "nickname") == Get(items[j], "nickname")
  {
    var merged := MergedItems(PropsOf(tank));
    forall j | 0 <= j < |merged| ensures !Nullish(merged[j]) {
      StripUndefOnly(Obj(SerializeItem(items[j])));
    }
    LoadAll(tank, numText, rand);
    forall j | 0 <= j < |items|
      ensures var r := HydrateItem(merged[j], j, numText, rand);
        Get(r, "instanceId") == Get(items[j], "instanceId") && Get(r, "x") == Get(items[j], "x") &&
        Get(r, "y") == Get(items[j], "y") && Get(r, "nickname") == Get(items[j], "nickname")
    {
      SavedItemReads(items[j]);
      HydrateRestores(merged[j], j, numText, rand);
    }
  }

  /** A loaded document with no `null` or `undefined` stored item loads
      every stored item, in order. */
  lemma LoadAll(tank: Val, numText: NumberText, rand: nat -> string)
    requires Truthy(tank)
    requires forall i :: 0 <= i < |MergedItems(PropsOf(tank))| ==> !Nullish(MergedItems(PropsOf(tank))[i])
    ensures var merged := MergedItems(PropsOf(tank));
      LoadItems(tank, numText, rand) == Some(seq(|merged|, i requires 0 <= i < |merged| => HydrateItem(merged[i], i, numText, rand)))
  {
  }

  /** A saved empty tank loads as an empty tank. */
  lemma EmptyTankLoads(env: string, temp: real, oxy: real, bgIndex: int, numText: NumberText)
    ensures MergedItems(PropsOf(BuildPayload([], env, temp, oxy, bgIndex, numText))) == []
  {
    var doc := BuildPayload([], env, temp, oxy, bgIndex, numText);
    SavedParts([], env, temp, oxy, bgIndex, numText);
    assert PropsOf(doc) == doc.fields;
    assert OfKind([], "fish") == [] && OfKind([], "plant") == [];
    assert Index(KeysFor([], numText), SerializeItems([])) == [];
  }

  /** Loading a saved document restores the temperature and oxygen, the
      environment unless it was empty, and the background when the index
      named one. */
  lemma SettingsRoundTrip(items: seq<Fields>, env: string, temp: real, oxy: real, bgIndex: int,
                          numText: NumberText, cur: Settings)
    ensures var s := LoadSettings(BuildPayload(items, env, temp, oxy, bgIndex, numText), cur);
      s.temp == temp && s.oxy == oxy &&
      s.env == (if env != "" then env else cur.env) &&
      s.bgIndex == (if 0 <= bgIndex < |Backgrounds| then bgIndex else cur.bgIndex)
  {
    SavedSettings(items, env, temp, oxy, bgIndex, numText);
    LoadCleanedSettings(BuildPayload(items, env, temp, oxy, bgIndex, numText), env, temp, oxy, bgIndex, cur);
  }

  /** Any document whose settings record reads back the saved settings
      loads them. */
  lemma LoadCleanedSettings(doc: Val, env: string, temp: real, oxy: real, bgIndex: int, cur: Settings)
    requires var st := PropsOf(Get(PropsOf(doc), "settings"));
      Truthy(doc) && Get(st, "env") == Str(env) && Get(st, "temp") == Num(temp) &&
      Get(st, "oxy") == Num(oxy) && Get(st, "backgroundKey") == BackgroundKey(bgIndex)
    ensures var s := LoadSettings(doc, cur);
      s.temp == temp && s.oxy == oxy &&
      s.env == (if env != "" then env else cur.env) &&
      s.bgIndex == (if 0 <= bgIndex < |Backgrounds| then bgIndex else cur.bgIndex)
  {
    LoadSettingsFrom(doc, cur, Str(env), Num(temp), Num(oxy), BackgroundKey(bgIndex));
    if 0 <= bgIndex < |Backgrounds| {
      BackgroundRoundTrip(bgIndex);
    }
  }

  lemma SavedSettings(items: seq<Fields>, env: string, temp: real, oxy: real, bgIndex: int, numText: NumberText)
    ensures var doc := BuildPayload(items, env, temp, oxy, bgIndex, numText);
      var st := PropsOf(Get(PropsOf(doc), "settings"));
      Truthy(doc) && Get(st, "env") == Str(env) && Get(st, "temp") == Num(temp) &&
      Get(st, "oxy") == Num(oxy) && Get(st, "backgroundKey") == BackgroundKey(bgIndex)
  {
    var doc := BuildPayload(items, env, temp, oxy, bgIndex, numText);
    assert Truthy(doc) && PropsOf(Get(PropsOf(doc), "settings")) == StripDeep(Obj(SettingsOf(env, temp, oxy, bgIndex))).fields by {
      SavedParts(items, env, temp, oxy, bgIndex, numText);
    }
    SettingsReads(env, temp, oxy, bgIndex);
  }

  /** Loading settings from a document whose settings record holds the
      given values. */
  lemma LoadSettingsFrom(tank: Val, cur: Settings, env: Val, temp: Val, oxy: Val, bg: Val)
    requires Truthy(tank)
    requires var st := PropsOf(Get(PropsOf(tank), "settings"));
      Get(st, "env") == env && Get(st, "temp") == temp && Get(st, "oxy") == oxy && Get(st, "backgroundKey") == bg
    ensures LoadSettings(tank, cur) == Settings(
        if Truthy(env) && env.Str? then env.s else cur.env,
        if temp.Num? then temp.n else cur.temp,
        if oxy.Num? then oxy.n else cur.oxy,
        if Truthy(bg) then BackgroundIndex(bg) else cur.bgIndex)
  {
  }

  /** The cleaned settings record reads back each setting; an index that
      names no background leaves no key. */
  lemma SettingsReads(env: string, temp: real, oxy: real, bgIndex: int)
    ensures var p := StripDeep(Obj(SettingsOf(env, temp, oxy, bgIndex))).fields;
      Get(p, "env") == Str(env) && Get(p, "temp") == Num(temp) && Get(p, "oxy") == Num(oxy) &&
      Get(p, "backgroundKey") == BackgroundKey(bgIndex)
  {
    var st := SettingsOf(env, temp, oxy, bgIndex);
    SettingsParts(env, temp, oxy, bgIndex);
    StripReads(st, "env");
    StripReads(st, "temp");
    StripReads(st, "oxy");
    StripReads(st, "backgroundKey");
  }

  /** A saved background key selects the background it names. */
  lemma BackgroundRoundTrip(b: int)
    requires 0 <= b < |Backgrounds|
    ensures BackgroundIndex(BackgroundKey(b)) == b
  {
    BackgroundsDistinct();
    FindDistinct(Backgrounds, b);
  }

  lemma BackgroundsDistinct()
    ensures Distinct(Backgrounds)
  {
  }

  lemma FindDistinct(keys: seq<string>, i: int)
    requires Distinct(keys) && 0 <= i < |keys|
    ensures FindKey(keys, Str(keys[i])) == i
  {
  }
}
