/**
 * Species records as the catalog delivers them and as the screen cleans
 * them up (screens/AquariumScreen.tsx: `asRange`, `normalizeSpecies`,
 * `canonicalId`, `defaultNicknameFor`, and the catalog refresh that maps
 * every document through the normaliser).
 */
module Species {
  import opened Text
  import opened Slug
  import opened Json

  /** `toSlug(v)` applied to a property value. `(v || '')` turns a falsy
      value into the empty string; calling `.trim()` on a truthy value that
      is not a string throws a TypeError, reported here as None. */
  function SlugOfVal(v: Val): (r: Option<string>)
    ensures r.Some? <==> v.Str? || !Truthy(v)
  {
    if v.Str? then Some(ToSlug(v.s))
    else if !Truthy(v) then Some("")
    else None
  }

  /** Whatever `SlugOfVal` produces is a slug. */
  lemma SlugOfValIsSlug(v: Val)
    requires SlugOfVal(v).Some?
    ensures IsSlug(SlugOfVal(v).value)
  {
    if v.Str? {
      ToSlugIsSlug(v.s);
    }
  }

  /** `r[i]` of an array: `undefined` past its end. */
  function At(xs: seq<Val>, i: nat): Val
  {
    if i < |xs| then xs[i] else Undef
  }

  /** `asRange`: a `[min, max]` pair becomes `{min, max}`, nothing stays
      nothing, and any other value is passed through. */
  function AsRange(v: Val): (r: Val)
    ensures !Truthy(v) ==> r == Undef
    ensures v.Arr? ==> r == Obj([("min", At(v.elems, 0)), ("max", At(v.elems, 1))])
    ensures Truthy(v) && !v.Arr? ==> r == v
  {
    if !Truthy(v) then Undef
    else if v.Arr? then Obj([("min", At(v.elems, 0)), ("max", At(v.elems, 1))])
    else v
  }

  /** A range that has been through `asRange` is left alone by it, and is
      either nothing or an object, or the value it was given. */
  lemma AsRangeIdempotent(v: Val)
    ensures AsRange(AsRange(v)) == AsRange(v)
    ensures AsRange(v).Undef? || AsRange(v).Obj? || AsRange(v) == v
  {
  }

  /** The pH of a record: `ph ?? pH ?? Ph ?? PH`, kept when it is a number
      and passed through `asRange` otherwise. */
  function PhOf(s: Fields): Val
  {
    var raw := Coalesce(Coalesce(Coalesce(Get(s, "ph"), Get(s, "pH")), Get(s, "Ph")), Get(s, "PH"));
    if raw.Num? then raw else AsRange(raw)
  }

  /** The spellings are tried in order and the first that is neither null
      nor undefined is used; a numeric pH stays a number. */
  lemma PhPrecedence(s: Fields)
    ensures Get(s, "ph").Num? ==> PhOf(s) == Get(s, "ph")
    ensures !Nullish(Get(s, "ph")) && !Get(s, "ph").Num? ==> PhOf(s) == AsRange(Get(s, "ph"))
    ensures Nullish(Get(s, "ph")) && !Nullish(Get(s, "pH")) && !Get(s, "pH").Num? ==> PhOf(s) == AsRange(Get(s, "pH"))
    ensures Nullish(Get(s, "ph")) && Get(s, "pH").Num? ==> PhOf(s) == Get(s, "pH")
    ensures Nullish(Get(s, "ph")) && Nullish(Get(s, "pH")) && !Nullish(Get(s, "Ph")) ==>
              PhOf(s) == (if Get(s, "Ph").Num? then Get(s, "Ph") else AsRange(Get(s, "Ph")))
    ensures Nullish(Get(s, "ph")) && Nullish(Get(s, "pH")) && Nullish(Get(s, "Ph")) && !Nullish(Get(s, "PH")) ==>
              PhOf(s) == (if Get(s, "PH").Num? then Get(s, "PH") else AsRange(Get(s, "PH")))
    ensures Nullish(Get(s, "ph")) && Nullish(Get(s, "pH")) && Nullish(Get(s, "Ph")) && Nullish(Get(s, "PH")) ==> PhOf(s) == Undef
  {
  }

  /** `.length` of a truthy value. */
  function LengthOf(v: Val): Val
  {
    match v
    case Str(t) => Num(|t| as real)
    case Arr(xs) => Num(|xs| as real)
    case Obj(fs) => Get(fs, "length")
    case _ => Undef
  }

  /** The asset key: `assetKey && assetKey.length ? toSlug(assetKey) :
      toSlug(name || id || '')`; None when the value slugged is truthy but
      not text. */
  function AssetKeyOf(s: Fields): Option<string>
  {
    var a := Get(s, "assetKey");
    if Truthy(a) && Truthy(LengthOf(a)) then SlugOfVal(a)
    else SlugOfVal(Or(Or(Get(s, "name"), Get(s, "id")), Str("")))
  }

  /** The asset key, when there is one, is a slug. */
  lemma AssetKeyIsSlug(s: Fields)
    ensures AssetKeyOf(s).Some? ==> IsSlug(AssetKeyOf(s).value)
  {
    var a := Get(s, "assetKey");
    if Truthy(a) && Truthy(LengthOf(a)) {
      if SlugOfVal(a).Some? {
        SlugOfValIsSlug(a);
      }
    } else {
      var n := Or(Or(Get(s, "name"), Get(s, "id")), Str(""));
      if SlugOfVal(n).Some? {
        SlugOfValIsSlug(n);
      }
    }
  }

  /** A non-empty text asset key is slugged; without one the name is used,
      then the id, and with none of them the key is empty. */
  lemma AssetKeyDefaults(s: Fields)
    ensures Get(s, "assetKey").Str? && Get(s, "assetKey").s != "" ==> AssetKeyOf(s) == Some(ToSlug(Get(s, "assetKey").s))
    ensures !Truthy(Get(s, "assetKey")) && Get(s, "name").Str? && Get(s, "name").s != "" ==> AssetKeyOf(s) == Some(ToSlug(Get(s, "name").s))
    ensures !Truthy(Get(s, "assetKey")) && !Truthy(Get(s, "name")) && Get(s, "id").Str? ==> AssetKeyOf(s) == Some(ToSlug(Get(s, "id").s))
    ensures !Truthy(Get(s, "assetKey")) && !Truthy(Get(s, "name")) && !Truthy(Get(s, "id")) ==> AssetKeyOf(s) == Some("")
  {
    var a := Get(s, "assetKey");
    if a.Str? && a.s != "" {
      assert LengthOf(a) == Num(|a.s| as real);
    } else if !Truthy(a) {
      assert !Truthy(LengthOf(a));
      assert AssetKeyOf(s) == SlugOfVal(Or(Or(Get(s, "name"), Get(s, "id")), Str("")));
    }
  }

  /** The texts an `incompatibleWith` value lists before slugging: an
      array's elements, the pieces of a string split on `,`, `;` and line
      breaks, or an object's property values. */
  function IncompatTexts(raw: Val, numText: NumberText): seq<string>
  {
    match raw
    case Arr(xs) => seq(|xs|, i requires 0 <= i < |xs| => ToText(xs[i], numText))
    case Str(t) => SplitList(t)
    case Obj(fs) =>
      var vs := ObjectValues(fs);
      seq(|vs|, i requires 0 <= i < |vs| => ToText(vs[i], numText))
    case _ => []
  }

  /** What `incompatibleWith` entries are after normalisation. */
  predicate NonEmptySlug(t: string)
  {
    t != "" && IsSlug(t)
  }

  /** `xs.map(toSlug).filter(Boolean)`. */
  function NonEmptySlugs(xs: seq<string>): seq<string>
  {
    if xs == [] then []
    else
      var h := ToSlug(xs[0]);
      (if h == "" then [] else [h]) + NonEmptySlugs(xs[1..])
  }

  /** The slugs come out in order, empty ones dropped and duplicates kept:
      every entry is a non-empty slug and every text with a non-empty slug
      contributes it. */
  lemma {:induction false} NonEmptySlugsExact(xs: seq<string>)
    ensures |NonEmptySlugs(xs)| <= |xs|
    ensures forall t :: t in NonEmptySlugs(xs) ==> NonEmptySlug(t)
    ensures forall x :: x in xs && ToSlug(x) != "" ==> ToSlug(x) in NonEmptySlugs(xs)
  {
    if xs != [] {
      ToSlugIsSlug(xs[0]);
      NonEmptySlugsExact(xs[1..]);
      assert forall x :: x in xs ==> x == xs[0] || x in xs[1..];
    }
  }

  /** The normalised incompatibility list of a record. */
  function IncompatibleOf(s: Fields, numText: NumberText): seq<string>
  {
    NonEmptySlugs(IncompatTexts(Coalesce(Get(s, "incompatibleWith"), Arr([])), numText))
  }

  /** A list of strings as an array value. */
  function StrList(xs: seq<string>): (r: Val)
    ensures r.Arr? && |r.elems| == |xs|
    ensures forall i :: 0 <= i < |xs| ==> r.elems[i] == Str(xs[i])
  {
    Arr(seq(|xs|, i requires 0 <= i < |xs| => Str(xs[i])))
  }

  /** The declared water type as compared: `(type ?? 'freshwater')` as text,
      lower-cased, with all white space removed. */
  function WaterTypeText(s: Fields, numText: NumberText): string
  {
    RemoveSpaces(Lower(ToText(Coalesce(Get(s, "type"), Str("freshwater")), numText)))
  }

  predicate IsSaltText(t: string)
  {
    StartsWith(t, "salt") || StartsWith(t, "marine")
  }

  /** The normalised water type. */
  function WaterTypeOf(s: Fields, numText: NumberText): (r: string)
    ensures r == "saltwater" || r == "freshwater"
    ensures r == "saltwater" <==> IsSaltText(WaterTypeText(s, numText))
  {
    if IsSaltText(WaterTypeText(s, numText)) then "saltwater" else "freshwater"
  }

  /** Both water types are already in lower case. */
  lemma WaterTypeLowered(w: string)
    requires w == "saltwater" || w == "freshwater"
    ensures Lower(w) == w
  {
    assert IsLowered(w);
    LowerFixes(w);
  }

  const NormalizedKeys: seq<string> := ["ph", "temp", "assetKey", "incompatibleWith", "type", "kind"]

  /** The properties written over the spread record, in source order. */
  function Written(ph: Val, temp: Val, key: Val, incompat: Val, wtype: Val, kind: Val): Fields
  {
    [("ph", ph), ("temp", temp), ("assetKey", key), ("incompatibleWith", incompat), ("type", wtype), ("kind", kind)]
  }

  /** `{ ...s, ph, temp, assetKey, incompatibleWith, type, kind }` has the
      six written values, every other property of `s`, and the keys of `s`
      first and in order. */
  lemma SpreadWritten(s: Fields, ph: Val, temp: Val, key: Val, incompat: Val, wtype: Val, kind: Val)
    ensures var n := Spread(s, Written(ph, temp, key, incompat, wtype, kind));
      && Get(n, "ph") == ph
      && Get(n, "temp") == temp
      && Get(n, "assetKey") == key
      && Get(n, "incompatibleWith") == incompat
      && Get(n, "type") == wtype
      && Get(n, "kind") == kind
      && (forall k :: k !in NormalizedKeys ==> Get(n, k) == Get(s, k))
      && KeysOf(s) <= KeysOf(n)
      && (UniqueKeys(s) ==> UniqueKeys(n))
  {
    var w := Written(ph, temp, key, incompat, wtype, kind);
    WrittenKeys(ph, temp, key, incompat, wtype, kind);
    SpreadGet(s, w, 0);
    SpreadGet(s, w, 1);
    SpreadGet(s, w, 2);
    SpreadGet(s, w, 3);
    SpreadGet(s, w, 4);
    SpreadGet(s, w, 5);
    SpreadKeys(s, w);
  }

  lemma WrittenKeys(ph: Val, temp: Val, key: Val, incompat: Val, wtype: Val, kind: Val)
    ensures var w := Written(ph, temp, key, incompat, wtype, kind);
      KeysOf(w) == NormalizedKeys && UniqueKeys(w)
  {
    var w := Written(ph, temp, key, incompat, wtype, kind);
    assert KeysOf(w) == NormalizedKeys;
    assert forall i, j :: 0 <= i < j < |NormalizedKeys| ==> NormalizedKeys[i] != NormalizedKeys[j];
  }

  /** `normalizeSpecies`, or None when the asset key cannot be computed
      (the source throws). */
  function NormalizeSpecies(s: Fields, numText: NumberText): (r: Option<Fields>)
    ensures r.None? <==> AssetKeyOf(s).None?
  {
    match AssetKeyOf(s)
    case None => None
    case Some(key) =>
      Some(Spread(s, Written(PhOf(s), AsRange(Get(s, "temp")), Str(key),
        StrList(IncompatibleOf(s, numText)), Str(WaterTypeOf(s, numText)), Get(s, "kind"))))
  }

  /** The normalised incompatibility list is what the record holds. */
  lemma NormalizedIncompatList(s: Fields, numText: NumberText)
    requires NormalizeSpecies(s, numText).Some?
    ensures Get(NormalizeSpecies(s, numText).value, "incompatibleWith") == StrList(IncompatibleOf(s, numText))
  {
    SpreadWritten(s, PhOf(s), AsRange(Get(s, "temp")), Str(AssetKeyOf(s).value),
      StrList(IncompatibleOf(s, numText)), Str(WaterTypeOf(s, numText)), Get(s, "kind"));
  }

  /** The normalised water type is what the record holds. */
  lemma NormalizedTypeField(s: Fields, numText: NumberText)
    requires NormalizeSpecies(s, numText).Some?
    ensures Get(NormalizeSpecies(s, numText).value, "type") == Str(WaterTypeOf(s, numText))
  {
    SpreadWritten(s, PhOf(s), AsRange(Get(s, "temp")), Str(AssetKeyOf(s).value),
      StrList(IncompatibleOf(s, numText)), Str(WaterTypeOf(s, numText)), Get(s, "kind"));
  }

  /** What a normalised record holds: the cleaned ranges, a slug asset key,
      the slugged incompatibility list and one of the two water types, with
      every other property of the input carried over and its keys kept in
      order. */
  lemma NormalizeSpeciesFields(s: Fields, numText: NumberText)
    requires NormalizeSpecies(s, numText).Some?
    ensures var n := NormalizeSpecies(s, numText).value;
      && Get(n, "ph") == PhOf(s)
      && Get(n, "temp") == AsRange(Get(s, "temp"))
      && Get(n, "assetKey") == Str(AssetKeyOf(s).value) && IsSlug(AssetKeyOf(s).value)
      && Get(n, "incompatibleWith") == StrList(IncompatibleOf(s, numText))
      && Get(n, "type") == Str(WaterTypeOf(s, numText))
      && Get(n, "kind") == Get(s, "kind")
      && (forall k :: k !in NormalizedKeys ==> Get(n, k) == Get(s, k))
      && KeysOf(s) <= KeysOf(n)
      && (UniqueKeys(s) ==> UniqueKeys(n))
  {
    AssetKeyIsSlug(s);
    SpreadWritten(s, PhOf(s), AsRange(Get(s, "temp")), Str(AssetKeyOf(s).value),
      StrList(IncompatibleOf(s, numText)), Str(WaterTypeOf(s, numText)), Get(s, "kind"));
  }

  /** Normalised records pass every check the catalog relies on: the type
      is one of the two water types and every incompatibility is a
      non-empty slug. */
  lemma NormalizedWellFormed(s: Fields, numText: NumberText)
    requires NormalizeSpecies(s, numText).Some?
    ensures var n := NormalizeSpecies(s, numText).value;
      && (Get(n, "type") == Str("freshwater") || Get(n, "type") == Str("saltwater"))
      && Get(n, "incompatibleWith").Arr?
      && forall e :: e in Get(n, "incompatibleWith").elems ==> e.Str? && NonEmptySlug(e.s)
  {
    NormalizeSpeciesFields(s, numText);
    var xs := IncompatibleOf(s, numText);
    NonEmptySlugsExact(IncompatTexts(Coalesce(Get(s, "incompatibleWith"), Arr([])), numText));
    forall e | e in StrList(xs).elems ensures e.Str? && NonEmptySlug(e.s) {
      var i :| 0 <= i < |xs| && StrList(xs).elems[i] == e;
      assert xs[i] in xs;
    }
  }

  /** `xs.map(toSlug).filter(Boolean)` takes the texts one at a time. */
  lemma NonEmptySlugsCons(x: string, xs: seq<string>)
    ensures NonEmptySlugs([x] + xs) == (if ToSlug(x) == "" then [] else [ToSlug(x)]) + NonEmptySlugs(xs)
  {
    assert ([x] + xs)[1..] == xs;
  }

  /** A string `incompatibleWith` is cut at its first separator: the piece
      before it is slugged (and dropped when that leaves nothing), and the
      rest of the string is handled the same way. */
  lemma DelimitedIncompatibles(s: Fields, a: string, sep: char, b: string, numText: NumberText)
    requires Get(s, "incompatibleWith") == Str(a + [sep] + b)
    requires IsListSeparator(sep) && NoListSeparator(a)
    ensures IncompatibleOf(s, numText) ==
      (if ToSlug(a) == "" then [] else [ToSlug(a)]) + NonEmptySlugs(SplitList(b))
  {
    var raw := Coalesce(Get(s, "incompatibleWith"), Arr([]));
    assert raw == Str(a + [sep] + b);
    assert IncompatTexts(raw, numText) == SplitList(a + [sep] + b);
    SplitListAt(a, sep, b);
    NonEmptySlugsCons(a, SplitList(b));
  }

  /** A string without separators is a single entry, or none when it slugs
      to nothing. */
  lemma SingleIncompatible(s: Fields, a: string, numText: NumberText)
    requires Get(s, "incompatibleWith") == Str(a) && NoListSeparator(a)
    ensures IncompatibleOf(s, numText) == if ToSlug(a) == "" then [] else [ToSlug(a)]
  {
    SplitListWhole(a);
    NonEmptySlugsCons(a, []);
  }

  /** The fields a species' canonical id is taken from, first truthy one
      wins: `assetKey || speciesId || id || name || ''`. */
  function IdSource(s: Fields): Val
  {
    Or(Or(Or(Or(Get(s, "assetKey"), Get(s, "speciesId")), Get(s, "id")), Get(s, "name")), Str(""))
  }

  /** The id fields `canonicalId` reads are text (toSlug takes a string). */
  predicate HasTextId(s: Fields)
  {
    IdSource(s).Str?
  }

  /** `canonicalId`: the slug of the first non-empty of assetKey, speciesId,
      id and name. */
  function CanonicalId(s: Fields): string
    requires HasTextId(s)
  {
    ToSlug(IdSource(s).s)
  }

  /** A canonical id is a slug, taken from the first truthy of the four id
      fields, and empty when none of them is set. */
  lemma CanonicalIdPrecedence(s: Fields)
    requires HasTextId(s)
    ensures IsSlug(CanonicalId(s))
    ensures Truthy(Get(s, "assetKey")) ==> CanonicalId(s) == ToSlug(Get(s, "assetKey").s)
    ensures !Truthy(Get(s, "assetKey")) && Truthy(Get(s, "speciesId")) ==> CanonicalId(s) == ToSlug(Get(s, "speciesId").s)
    ensures !Truthy(Get(s, "assetKey")) && !Truthy(Get(s, "speciesId")) && Truthy(Get(s, "id")) ==> CanonicalId(s) == ToSlug(Get(s, "id").s)
    ensures !Truthy(Get(s, "assetKey")) && !Truthy(Get(s, "speciesId")) && !Truthy(Get(s, "id")) && Truthy(Get(s, "name")) ==> CanonicalId(s) == ToSlug(Get(s, "name").s)
    ensures !Truthy(Get(s, "assetKey")) && !Truthy(Get(s, "speciesId")) && !Truthy(Get(s, "id")) && !Truthy(Get(s, "name")) ==> CanonicalId(s) == ""
  {
    ToSlugIsSlug(IdSource(s).s);
  }

  /** Records that agree on the four id fields have the same canonical id. */
  lemma CanonicalIdOfIdFields(s: Fields, t: Fields)
    requires HasTextId(s)
    requires Get(s, "assetKey") == Get(t, "assetKey") && Get(s, "speciesId") == Get(t, "speciesId")
    requires Get(s, "id") == Get(t, "id") && Get(s, "name") == Get(t, "name")
    ensures HasTextId(t) && CanonicalId(t) == CanonicalId(s)
  {
  }

  /** `defaultNicknameFor`: the species name as text, or "New Fish". */
  function DefaultNickname(sp: Fields, numText: NumberText): (r: string)
    ensures !Truthy(Get(sp, "name")) ==> r == "New Fish"
    ensures Get(sp, "name").Str? && Get(sp, "name").s != "" ==> r == Get(sp, "name").s
    ensures Get(sp, "name").Str? || !Truthy(Get(sp, "name")) ==> r != ""
  {
    if Truthy(Get(sp, "name")) then ToText(Get(sp, "name"), numText) else "New Fish"
  }

  /** `{ id: d.id, ...d.data() }`: a catalog document as a record. */
  function CatalogRecord(docId: string, data: Fields): Fields
  {
    Spread([("id", Str(docId))], data)
  }

  /** The document's own properties win over its id; the id is the first key
      and no key is duplicated. */
  lemma CatalogRecordFields(docId: string, data: Fields)
    requires UniqueKeys(data)
    ensures var r := CatalogRecord(docId, data);
      && ("id" !in KeysOf(data) ==> Get(r, "id") == Str(docId))
      && (forall k :: k in KeysOf(data) ==> Get(r, k) == Get(data, k))
      && |r| > 0 && KeysOf(r)[0] == "id"
      && UniqueKeys(r)
  {
    var r := CatalogRecord(docId, data);
    forall k | k in KeysOf(data) ensures Get(r, k) == Get(data, k) {
      var i :| 0 <= i < |data| && KeysOf(data)[i] == k;
      SpreadGet([("id", Str(docId))], data, i);
      GetEntry(data, i);
    }
    SpreadKeys([("id", Str(docId))], data);
  }

  /** `xs.map(f)` where `f` may throw: None as soon as one element fails. */
  function AllSome<T, U>(f: T -> Option<U>, xs: seq<T>): (r: Option<seq<U>>)
    ensures r.Some? <==> forall i :: 0 <= i < |xs| ==> f(xs[i]).Some?
    ensures r.Some? ==> |r.value| == |xs| && forall i :: 0 <= i < |xs| ==> r.value[i] == f(xs[i]).value
  {
    if xs == [] then Some([])
    else
      var rest := AllSome(f, xs[1..]);
      assert forall i :: 0 < i < |xs| ==> xs[i] == xs[1..][i - 1];
      if f(xs[0]).None? || rest.None? then None
      else Some([f(xs[0]).value] + rest.value)
  }

  /** Normalising one catalog document. */
  function NormalizeDoc(numText: NumberText): ((string, Fields)) -> Option<Fields>
  {
    (doc: (string, Fields)) => NormalizeSpecies(CatalogRecord(doc.0, doc.1), numText)
  }

  /** The catalog refresh: every document is normalised; if any of them
      throws, the whole refresh fails and the previous list stays. */
  function RefreshCatalog(current: seq<Fields>, docs: seq<(string, Fields)>, numText: NumberText): (r: seq<Fields>)
    ensures (forall i :: 0 <= i < |docs| ==> NormalizeDoc(numText)(docs[i]).Some?) ==>
      |r| == |docs| && forall i :: 0 <= i < |docs| ==> r[i] == NormalizeDoc(numText)(docs[i]).value
    ensures (exists i :: 0 <= i < |docs| && NormalizeDoc(numText)(docs[i]).None?) ==> r == current
  {
    match AllSome(NormalizeDoc(numText), docs)
    case None => current
    case Some(list) => list
  }
}
