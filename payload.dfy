// The document the screen saves for the current tank, and the mapping that
// turns a loaded document back into tank items and settings.

module Payload {
  import opened Text
  import opened Json
  import opened Strip

  // ---------------------------------------------------------------------
  // Serialization

  /** The only properties of a tank item that are saved (`serializeItems`). */
  const SavedKeys: seq<string> :=
    ["instanceId", "id", "name", "kind", "type", "x", "y", "nickname", "assetKey", "imageURL", "speciesId"]

  /** The named properties of a record, in the order named, `undefined`
      where the record has none (an object literal of shorthand properties). */
  function Pick(it: Fields, keys: seq<string>): Fields
  {
    if keys == [] then [] else [(keys[0], Get(it, keys[0]))] + Pick(it, keys[1..])
  }

  predicate Distinct(keys: seq<string>)
  {
    forall i, j :: 0 <= i < j < |keys| ==> keys[i] != keys[j]
  }

  /** A picked record has exactly the named keys, each once, holding what
      the record holds; every other key reads `undefined`. */
  lemma {:induction false} PickGet(it: Fields, keys: seq<string>, k: string)
    requires Distinct(keys)
    ensures KeysOf(Pick(it, keys)) == keys
    ensures UniqueKeys(Pick(it, keys))
    ensures Get(Pick(it, keys), k) == if k in keys then Get(it, k) else Undef
  {
    if keys != [] {
      assert Distinct(keys[1..]) by {
        forall i, j | 0 <= i < j < |keys| - 1 ensures keys[1..][i] != keys[1..][j] {
          assert keys[1..][i] == keys[i + 1] && keys[1..][j] == keys[j + 1];
        }
      }
      PickGet(it, keys[1..], k);
      var r := Pick(it, keys);
      assert r[1..] == Pick(it, keys[1..]);
      forall i, j | 0 <= i < j < |r| ensures r[i].0 != r[j].0 {
        assert KeysOf(r)[i] == r[i].0 && KeysOf(r)[j] == r[j].0;
      }
    }
  }

  /** One saved item. */
  function SerializeItem(it: Fields): Fields
  {
    Pick(it, SavedKeys)
  }

  /** `serializeItems`: the saved form of each item, in order. */
  function SerializeItems(items: seq<Fields>): (r: seq<Val>)
    ensures |r| == |items| && forall i :: 0 <= i < |items| ==> r[i] == Obj(SerializeItem(items[i]))
  {
    seq(|items|, i requires 0 <= i < |items| => Obj(SerializeItem(items[i])))
  }

  /** A saved item has exactly the eleven saved keys, each holding what the
      item holds; every other property (`incompatibleWith`, `ph`, `temp`,
      `oxygenNeed`, ...) reads `undefined`. */
  lemma SerializeItemGet(it: Fields, k: string)
    ensures KeysOf(SerializeItem(it)) == SavedKeys
    ensures UniqueKeys(SerializeItem(it))
    ensures Get(SerializeItem(it), k) == if k in SavedKeys then Get(it, k) else Undef
  {
    SavedKeysDistinct();
    PickGet(it, SavedKeys, k);
  }

  lemma SavedKeysDistinct()
    ensures Distinct(SavedKeys)
  {
  }

  // ---------------------------------------------------------------------
  // The dictionary of items by instance id

  /** The property name an item is stored under: the text of its instance id. */
  function KeyOf(it: Fields, numText: NumberText): string
  {
    ToText(Get(it, "instanceId"), numText)
  }

  function KeysFor(items: seq<Fields>, numText: NumberText): (ks: seq<string>)
    ensures |ks| == |items| && forall i :: 0 <= i < |items| ==> ks[i] == KeyOf(items[i], numText)
  {
    seq(|items|, i requires 0 <= i < |items| => KeyOf(items[i], numText))
  }

  /** A dictionary filled in a loop: `vals[i]` assigned under `keys[i]`, in
      order, so a later value under the same key replaces an earlier one in
      its place. */
  function Index(keys: seq<string>, vals: seq<Val>): Fields
    requires |keys| == |vals|
  {
    if keys == [] then []
    else
      var n := |keys| - 1;
      Set(Index(keys[..n], vals[..n]), keys[n], vals[n])
  }

  /** `itemsById`: serialize the items and fill the dictionary in a loop,
      keyed by each saved item's `instanceId`. */
  method ItemsById(items: seq<Fields>, numText: NumberText) returns (out: Fields)
    ensures out == Index(KeysFor(items, numText), SerializeItems(items))
  {
    var saved := SerializeItems(items);
    ghost var keys := KeysFor(items, numText);
    out := [];
    for i := 0 to |saved|
      invariant out == Index(keys[..i], saved[..i])
    {
      assert keys[..i + 1][..i] == keys[..i] && saved[..i + 1][..i] == saved[..i];
      var rec := saved[i].fields;
      assert ToText(Get(rec, "instanceId"), numText) == keys[i] by {
        SerializeItemGet(items[i], "instanceId");
      }
      out := Set(out, ToText(Get(rec, "instanceId"), numText), Obj(rec));
    }
    assert keys[..|saved|] == keys && saved[..|saved|] == saved;
  }

  /** The dictionary's keys are exactly the keys given, each once. */
  lemma {:induction false} IndexKeys(keys: seq<string>, vals: seq<Val>)
    requires |keys| == |vals|
    ensures UniqueKeys(Index(keys, vals))
    ensures forall k :: k in KeysOf(Index(keys, vals)) <==> k in keys
  {
    if keys != [] {
      var n := |keys| - 1;
      var prev := Index(keys[..n], vals[..n]);
      IndexKeys(keys[..n], vals[..n]);
      SetUnique(prev, keys[n], vals[n]);
      SetKeys(prev, keys[n], vals[n]);
      InitLast(keys);
    }
  }

  /** Membership in a sequence: in all but its last element, or its last. */
  lemma InitLast<T>(s: seq<T>)
    requires s != []
    ensures forall x :: x in s <==> x in s[..|s| - 1] || x == s[|s| - 1]
  {
    assert s == s[..|s| - 1] + [s[|s| - 1]];
  }

  /** Reading a key gives the value stored under it when no later value has
      the same key. */
  lemma {:induction false} IndexGet(keys: seq<string>, vals: seq<Val>, i: int)
    requires |keys| == |vals| && 0 <= i < |keys|
    requires forall j :: i < j < |keys| ==> keys[j] != keys[i]
    ensures Get(Index(keys, vals), keys[i]) == vals[i]
  {
    var n := |keys| - 1;
    var ks, vs := keys[..n], vals[..n];
    if i < n {
      assert ks[i] == keys[i] && vs[i] == vals[i];
      assert forall j :: i < j < n ==> ks[j] == keys[j];
      IndexGet(ks, vs, i);
    }
    SetGet(Index(ks, vs), keys[n], vals[n], keys[i]);
  }

  /** With distinct keys the dictionary lists the values in the order given. */
  lemma {:induction false} IndexInOrder(keys: seq<string>, vals: seq<Val>)
    requires |keys| == |vals| && Distinct(keys)
    ensures Index(keys, vals) == seq(|keys|, i requires 0 <= i < |keys| => (keys[i], vals[i]))
  {
    if keys != [] {
      var n := |keys| - 1;
      var ks, vs := keys[..n], vals[..n];
      assert Distinct(ks);
      IndexInOrder(ks, vs);
      var prev := Index(ks, vs);
      assert keys[n] !in KeysOf(prev) by {
        IndexKeys(ks, vs);
        assert keys[n] !in ks;
      }
      SetNew(prev, keys[n], vals[n]);
    }
  }

  // ---------------------------------------------------------------------
  // The saved document

  /** The ids of the four tank backgrounds, in the order the arrows cycle them. */
  const Backgrounds: seq<string> := ["default", "reef", "plants", "rocks"]

  /** `tankBackgrounds[bgIndex]?.key`. */
  function BackgroundKey(bgIndex: int): (r: Val)
    ensures 0 <= bgIndex < |Backgrounds| ==> r == Str(Backgrounds[bgIndex])
    ensures !(0 <= bgIndex < |Backgrounds|) ==> r == Undef
  {
    if 0 <= bgIndex < |Backgrounds| then Str(Backgrounds[bgIndex]) else Undef
  }

  /** The items whose `kind` is exactly the text `kind`, in order. */
  function OfKind(items: seq<Fields>, kind: string): (r: seq<Fields>)
    ensures |r| <= |items|
    ensures forall t :: t in r <==> t in items && Get(t, "kind") == Str(kind)
  {
    if items == [] then []
    else if Get(items[0], "kind") == Str(kind) then [items[0]] + OfKind(items[1..], kind)
    else OfKind(items[1..], kind)
  }

  /** The document's shape: settings, the two kind lists and the dictionary. */
  function Document(settings: Val, fish: Val, plants: Val, byId: Val): Fields
  {
    [("settings", settings), ("fish", fish), ("plants", plants), ("items", byId)]
  }

  lemma DocumentParts(settings: Val, fish: Val, plants: Val, byId: Val)
    ensures var d := Document(settings, fish, plants, byId);
      UniqueKeys(d) && Get(d, "settings") == settings && Get(d, "fish") == fish &&
      Get(d, "plants") == plants && Get(d, "items") == byId
  {
    var d := Document(settings, fish, plants, byId);
    assert |d[0].0| == 8 && |d[1].0| == 4 && |d[2].0| == 6 && |d[3].0| == 5;
    assert KeysOf(d) == [d[0].0, d[1].0, d[2].0, d[3].0];
    GetEntry(d, 2);
    GetEntry(d, 3);
  }

  /** The saved settings: water environment, chosen temperature and oxygen,
      and the background's key. */
  function SettingsOf(env: string, temp: real, oxy: real, bgIndex: int): Fields
  {
    [("env", Str(env)), ("temp", Num(temp)), ("oxy", Num(oxy)), ("backgroundKey", BackgroundKey(bgIndex))]
  }

  lemma SettingsParts(env: string, temp: real, oxy: real, bgIndex: int)
    ensures var st := SettingsOf(env, temp, oxy, bgIndex);
      UniqueKeys(st) && Get(st, "env") == Str(env) && Get(st, "temp") == Num(temp) &&
      Get(st, "oxy") == Num(oxy) && Get(st, "backgroundKey") == BackgroundKey(bgIndex)
  {
    var st := SettingsOf(env, temp, oxy, bgIndex);
    assert st[0].0 != st[2].0 by { assert st[0].0[0] == 'e' && st[2].0[0] == 'o'; }
    assert |st[0].0| == 3 && |st[1].0| == 4 && |st[3].0| == 13;
    assert KeysOf(st) == [st[0].0, st[1].0, st[2].0, st[3].0];
    GetEntry(st, 2);
    GetEntry(st, 3);
  }

  /** The document `buildPayloadRaw` makes, before clean-up. The screen's
      settings are parameters. */
  function PayloadFields(items: seq<Fields>, env: string, temp: real, oxy: real, bgIndex: int, numText: NumberText): Fields
  {
    Document(Obj(SettingsOf(env, temp, oxy, bgIndex)),
      Arr(SerializeItems(OfKind(items, "fish"))),
      Arr(SerializeItems(OfKind(items, "plant"))),
      Obj(Index(KeysFor(items, numText), SerializeItems(items))))
  }

  /** `buildPayload`: the raw document with every `undefined` removed. */
  function BuildPayload(items: seq<Fields>, env: string, temp: real, oxy: real, bgIndex: int, numText: NumberText): Val
  {
    StripDeep(Obj(PayloadFields(items, env, temp, oxy, bgIndex, numText)))
  }

  /** The saved `fish` and `plants` lists are the serialized items of that
      kind; the dictionary's keys are the items' instance ids, each once. */
  lemma PayloadLists(items: seq<Fields>, env: string, temp: real, oxy: real, bgIndex: int, numText: NumberText)
    ensures var p := PayloadFields(items, env, temp, oxy, bgIndex, numText);
      Get(p, "fish").Arr? && Get(p, "plants").Arr? && Get(p, "items").Obj? &&
      (forall t :: t in Get(p, "fish").elems <==> exists it :: it in items && Get(it, "kind") == Str("fish") && t == Obj(SerializeItem(it))) &&
      (forall t :: t in Get(p, "plants").elems <==> exists it :: it in items && Get(it, "kind") == Str("plant") && t == Obj(SerializeItem(it))) &&
      UniqueKeys(Get(p, "items").fields) &&
      (forall k :: k in KeysOf(Get(p, "items").fields) <==> exists i :: 0 <= i < |items| && KeyOf(items[i], numText) == k)
  {
    var fish := SerializeItems(OfKind(items, "fish"));
    var plants := SerializeItems(OfKind(items, "plant"));
    var keys := KeysFor(items, numText);
    DocumentParts(Obj(SettingsOf(env, temp, oxy, bgIndex)), Arr(fish), Arr(plants), Obj(Index(keys, SerializeItems(items))));
    IndexKeys(keys, SerializeItems(items));
    SerializedOfKind(items, "fish");
    SerializedOfKind(items, "plant");
  }

  lemma SerializedOfKind(items: seq<Fields>, kind: string)
    ensures forall t :: t in SerializeItems(OfKind(items, kind)) <==>
      exists it :: it in items && Get(it, "kind") == Str(kind) && t == Obj(SerializeItem(it))
  {
    SerializedMembers(OfKind(items, kind));
  }

  lemma SerializedMembers(xs: seq<Fields>)
    ensures forall t :: t in SerializeItems(xs) <==> exists it :: it in xs && t == Obj(SerializeItem(it))
  {
    var r := SerializeItems(xs);
    forall t | t in r ensures exists it :: it in xs && t == Obj(SerializeItem(it)) {
      var i :| 0 <= i < |r| && r[i] == t;
      assert xs[i] in xs;
    }
    forall it | it in xs ensures Obj(SerializeItem(it)) in r {
      var i :| 0 <= i < |xs| && xs[i] == it;
      assert r[i] == Obj(SerializeItem(it));
    }
  }
}
