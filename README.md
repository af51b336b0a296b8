# Aquarium placement and compatibility engine

This project models the engine behind the aquarium screen of a virtual-aquarium
app (`screens/AquariumScreen.tsx`). Users drag fish and plants from a species
catalog into a tank. The screen keeps a list of tank occupants and checks each
new species against the occupants already there. It recommends a temperature
and an oxygen level, and it saves the tank to a document store and loads it
back.

The model covers these pieces:

- **Identifier canonicaliser** (`Slug`, `Text`). `toSlug` turns free text into
  the lower-case, dash-separated key that species are compared by.
  `canonicalId` picks the field that key is taken from.
- **Species normaliser** (`Species`). `asRange` and `normalizeSpecies` clean up
  catalog records: pH spellings, ranges, the asset key, the incompatibility
  list and the water type.
- **Compatibility evaluator** (`Compat`). This is the explicit-incompatibility
  rule, the self-avoid set, the quick Good/Avoid verdict, the conflict
  messages, the water-mismatch warning and the catalog filter by water type.
- **Environment recommender** (`Environment`). It computes the recommended
  temperature interval and the oxygen vote with its bands. It also produces
  the OK / too low / too high hints and the summary's oxygen vote.
- **Payload builder and loader** (`Strip`, `Payload`, `Hydrate`).
  `stripUndefinedDeep`, `serializeItems`, `itemsById` and the saved document
  produce what is written to the store. Loading maps a stored document back to
  occupants and settings.
- **Occupant-list state machine** (`Session`). The class `Aquarium` holds the
  screen state. Its methods are the event handlers: measure the tank, start a
  drag from the palette or from the tank, drop, name a new fish, rename,
  delete, switch the water type, and the one-time load.

JavaScript values are the datatype `Json.Val`, which includes `undefined` as
`Undef`. An object is `Fields`, a sequence of key/value pairs in insertion
order. Reading a property is `Get`, which gives `Undef` when the key is
missing. Writing or spreading a property is `Set`, which replaces a key in
place and otherwise appends it. `Fields` thus keeps the order in which keys
were first written. JavaScript lists an object's properties in a different
order: keys that are array indices (`"0"`, `"7"`, …) come first, in ascending
numeric order, and the other keys follow in the order written. That order is
`Json.Enumerated`. The model applies it wherever the code enumerates an
object with `Object.values`. `stripUndefinedDeep` walks `Object.entries` and
copies each kept property into a fresh object. The model walks the entries in
the order written instead. Both orders give the same enumerated result.

Operations that throw in the source return `Option` (`None` stands for the
exception). A few helpers instead require the inputs that do not throw
(`Comparable`, `TypeIsText`).

## Model

| member | source | states |
|---|---|---|
| Text.LowerChar | screens/AquariumScreen.tsx:113 | `toLowerCase` on one character maps A–Z to a–z and leaves every other character alone, apart from the two non-ASCII ones that lower to ASCII. No A–Z is left. |
| Text.LowerHasNoCapitals | screens/AquariumScreen.tsx:113 | A lowercased string has no A–Z. |
| Text.LowerFixes | screens/AquariumScreen.tsx:113 | Lowercasing text that is already lowercase changes nothing. |
| Text.TrimBounds | screens/AquariumScreen.tsx:112 | `trim()` returns one contiguous slice of the input, with only whitespace before and after it. |
| Text.RemoveSpaces | screens/AquariumScreen.tsx:1103 | Removing `\s+` leaves no whitespace and never lengthens the text. |
| Text.SplitList | screens/AquariumScreen.tsx:1098 | Splitting on `,`, `;` or newline gives at least one part, and no part holds a separator. |
| Text.SplitListWhole | screens/AquariumScreen.tsx:1098 | A text without separators splits into itself. |
| Text.SplitListAt | screens/AquariumScreen.tsx:1098 | `a + sep + b` splits into `a` followed by the parts of `b`. |
| Text.Split | screens/AquariumScreen.tsx:725-728 | `split('::')` gives at least one part. |
| Text.SplitJoined | screens/AquariumScreen.tsx:725-728 | `(a + "::" + b).split('::')` is `[a, b]` when neither part holds the separator. |
| Text.NatText | screens/AquariumScreen.tsx:723 | The decimal text of an index is non-empty and made of digits. |
| Slug.CollapseRuns | screens/AquariumScreen.tsx:115 | Each run of characters other than a-z/0-9 becomes one dash. The result has only a-z, 0-9 and single dashes, and it is empty exactly when the input is. |
| Slug.ToSlugIsSlug | screens/AquariumScreen.tsx:110-116 | `toSlug` output has only a-z, 0-9 and single dashes, with no dash at either end. |
| Slug.SlugFixes | screens/AquariumScreen.tsx:110-116 | A slug is its own `toSlug`. |
| Slug.ToSlugIdempotent | screens/AquariumScreen.tsx:110-116 | `toSlug(toSlug(k)) == toSlug(k)`. |
| Slug.ToSlugKeepsAlnum | screens/AquariumScreen.tsx:110-116 | The letters and digits of `toSlug(k)` are those of the lowercased `k`, in order. |
| Slug.ToSlugOfWord | screens/AquariumScreen.tsx:110-116 | A non-empty ASCII letter/digit word slugs to its lower case. |
| Slug.ToSlugSkipsSpace | screens/AquariumScreen.tsx:112 | Leading whitespace does not change the slug. |
| Species.SlugOfVal | screens/AquariumScreen.tsx:1092 | `toSlug` of a property value succeeds exactly when the value is text or falsy. A truthy non-text value throws. |
| Species.SlugOfValIsSlug | screens/AquariumScreen.tsx:1092 | When it succeeds, the result is a slug. |
| Species.AsRange | screens/AquariumScreen.tsx:1077-1081 | Falsy gives undefined, an array gives `{min: r[0], max: r[1]}`, and any other value passes through unchanged. |
| Species.AsRangeIdempotent | screens/AquariumScreen.tsx:1077-1081 | `asRange` applied twice equals applying it once. Its result is undefined, an object or the input. |
| Species.PhPrecedence | screens/AquariumScreen.tsx:1086-1087 | pH comes from the first non-nullish of `ph`, `pH`, `Ph`, `PH`. A number stays a number, anything else goes through `asRange`, and none gives undefined. |
| Species.AssetKeyIsSlug | screens/AquariumScreen.tsx:1092 | A computed asset key is a slug. |
| Species.AssetKeyDefaults | screens/AquariumScreen.tsx:1092 | The asset key is the slug of a non-empty `assetKey`, else of `name`, else of `id`, else empty. |
| Species.NonEmptySlugsExact | screens/AquariumScreen.tsx:1100 | Every kept entry is a non-empty slug. Every input entry with a non-empty slug is kept. There is no de-duplication, so the list never grows. |
| Species.WaterTypeOf | screens/AquariumScreen.tsx:1103-1105 | The type is `freshwater` or `saltwater`. It is `saltwater` exactly when the lowercased, space-stripped text starts with `salt` or `marine`. |
| Species.NormalizeSpecies | screens/AquariumScreen.tsx:1084-1111 | Normalising fails (the source throws) exactly when the asset key cannot be computed. |
| Species.NormalizeSpeciesFields | screens/AquariumScreen.tsx:1084-1111 | The record holds the chosen pH, `asRange(temp)`, a slug asset key, the slugged incompatibility list, the water type and `kind`. Every other input property is carried over and the input's keys are kept. |
| Species.NormalizedWellFormed | screens/AquariumScreen.tsx:1095-1105 | `type` is one of the two water types. `incompatibleWith` is a list of non-empty slugs. |
| Species.DelimitedIncompatibles | screens/AquariumScreen.tsx:1095-1100 | A string list is cut at its first `,`, `;` or newline. The slugged head comes first, then the slugs of the rest. |
| Species.SingleIncompatible | screens/AquariumScreen.tsx:1095-1100 | A string without separators gives its one slug, or nothing when that slug is empty. |
| Species.CanonicalIdPrecedence | screens/AquariumScreen.tsx:121-122 | `canonicalId` is a slug of the first truthy of assetKey, speciesId, id and name, or empty when none is set. |
| Species.CanonicalIdOfIdFields | screens/AquariumScreen.tsx:121-122 | Records that agree on the four id fields have the same canonical id. |
| Species.DefaultNickname | screens/AquariumScreen.tsx:128 | The default name is the species name, or "New Fish" when the name is falsy. It is never empty for a text or missing name. |
| Species.CatalogRecordFields | screens/AquariumScreen.tsx:392 | In `{id, ...data}`, the document's own properties win. The id is used only when the data has none, and no key is repeated. |
| Species.RefreshCatalog | screens/AquariumScreen.tsx:391-394 | Refreshing the catalog normalises every document in order. If one of them throws, the previous list stays. |
| Compat.IncompatibleSymmetric | screens/AquariumScreen.tsx:1114-1120 | `isExplicitlyIncompatible(a, b) == isExplicitlyIncompatible(b, a)`. |
| Compat.IncompatibleByLists | screens/AquariumScreen.tsx:1114-1120 | Two records are incompatible exactly when either one's list names the other's canonical id. |
| Compat.NormalizedIncompatible | screens/AquariumScreen.tsx:1114-1120 | For normalised species, incompatibility is decided by their slugged lists and canonical ids. |
| Compat.SimpleCompat | screens/AquariumScreen.tsx:1122-1138 | An empty tank gives Good. |
| Compat.Clashes | screens/AquariumScreen.tsx:1147 | The clashes are exactly the occupants with the candidate's canonical id. |
| Compat.Incompatibles | screens/AquariumScreen.tsx:1156-1157 | The listed occupants are exactly those explicitly incompatible with the candidate. |
| Compat.AddConflicts | screens/AquariumScreen.tsx:1141-1165 | The loop builds the self-avoid clash messages, one per clashing occupant, followed by one incompatibility message per incompatible occupant. |
| Compat.AvoidIffConflicts | screens/AquariumScreen.tsx:1122-1165 | `simpleCompatAgainstTank` says Avoid exactly when `addConflicts` is non-empty. |
| Compat.ConflictsExplained | screens/AquariumScreen.tsx:1141-1165 | Every message names an occupant that clashes or is incompatible. A species outside the self-avoid set gets only incompatibility messages. |
| Compat.NormalizedEnvType | screens/AquariumScreen.tsx:500 | The lowercased type of a normalised species is its normalised water type. |
| Compat.WaterMismatch | screens/AquariumScreen.tsx:499-502 | There is at most one mismatch message, and none exactly when the species' type equals the tank's. |
| Compat.DropNeedsConfirmation | screens/AquariumScreen.tsx:498-503 | A drop shows warnings exactly when the verdict is Avoid or the water type differs. |
| Compat.VisibleSpecies | screens/AquariumScreen.tsx:470-473 | The palette shows exactly the species of the tank's water type. |
| Compat.Affected | screens/AquariumScreen.tsx:451-453 | The affected occupants are exactly those of another type. |
| Compat.VisibleAffectedSplit | screens/AquariumScreen.tsx:451-473 | Each record is either visible for a type or affected by switching to it, never both. |
| Environment.RangesExact | screens/AquariumScreen.tsx:1245-1247 | The ranges are exactly those of the occupants with a truthy temperature. They are empty exactly when none has one. |
| Environment.MaxLo | screens/AquariumScreen.tsx:1250 | `Math.max` of the minimums is NaN exactly when some minimum is NaN. Otherwise it is the largest minimum, attained by some range. |
| Environment.MinHi | screens/AquariumScreen.tsx:1251 | `Math.min` of the maximums is NaN exactly when some maximum is NaN. Otherwise it is the smallest maximum, attained by some range. |
| Environment.RecommendedTempNone | screens/AquariumScreen.tsx:1244-1249 | There is no recommendation exactly when no occupant has a truthy temperature, whatever the temperatures hold. |
| Environment.RecommendedTempFits | screens/AquariumScreen.tsx:1244-1253 | A value lies inside every range, with numeric bounds, exactly when it lies inside [min, max]. On conflict, some range excludes it. The recommendation is NaN exactly when some bound is NaN, and NaN is never a conflict. |
| Environment.LevelOf | screens/AquariumScreen.tsx:1260-1264 | OK exactly when both bounds are numbers and the value lies between them. Too low exactly when the minimum is a number above the value. Too high otherwise, which includes every NaN minimum. |
| Environment.TempHintFine | screens/AquariumScreen.tsx:1255-1266 | The temperature hint says OK exactly when some occupant has a range and the temperature lies inside all of them, every bound being a number. |
| Environment.TempHintNaN | screens/AquariumScreen.tsx:1244-1266 | An occupant whose range has a NaN bound makes the hint neither OK nor a conflict. A NaN minimum makes it "Too high". |
| Environment.BareTempIsNaN | screens/AquariumScreen.tsx:1246-1251 | A non-zero bare-number `temp` is kept as a range whose `min` and `max` are both NaN. |
| Environment.Needs | screens/AquariumScreen.tsx:1270 | There is one lowercased need per occupant, with `""` when unset. |
| Environment.Band | screens/AquariumScreen.tsx:1276-1282 | Only a conflict has no band. Every band lies within [30, 90]. |
| Environment.OxygenVoteRules | screens/AquariumScreen.tsx:1271-1274 | Conflict exactly when some need is high and some low. High when high and no low. Low exactly when non-empty and all low. Medium otherwise. |
| Environment.OxyHintFine | screens/AquariumScreen.tsx:1285-1297 | The oxygen hint says OK exactly when there is no conflict and the value lies in the band. |
| Environment.SetNeedsExact | screens/AquariumScreen.tsx:1188 | The summary keeps exactly the truthy oxygen needs. |
| Environment.VotesAgree | screens/AquariumScreen.tsx:1194-1197 | The summary's vote equals the recommender's vote on the same set of needs. |
| Environment.SummaryOxygen | screens/AquariumScreen.tsx:1168-1169 | The summary has an oxygen label exactly when the tank is not empty. An empty tank has no summary lines. |
| Environment.OxygenRulesAgree | screens/AquariumScreen.tsx:1168-1197 | When every occupant declares low, medium or high, the summary's label is the recommender's. An empty tank has no summary label, while the recommender says medium. |
| Environment.OxygenRulesDifferOnUnset | screens/AquariumScreen.tsx:1269-1274 | With one low need and one unset need, the summary says low but the recommender says medium. |
| Environment.SummaryIgnoresUnset | screens/AquariumScreen.tsx:1188-1197 | The summary ignores unset needs, so low plus unset is low. |
| Environment.RecommendedCountsUnset | screens/AquariumScreen.tsx:1270-1274 | The recommender counts an unset need as `""`, so low plus unset is medium. |
| Strip.Defined | screens/AquariumScreen.tsx:80-83 | The kept array elements are input elements other than undefined. |
| Strip.StripUndefinedDeep | screens/AquariumScreen.tsx:77-94 | The method, with its loop over the object's entries, computes the recursive clean-up. |
| Strip.StripUndefOnly | screens/AquariumScreen.tsx:77-94 | The result is undefined exactly when the input is undefined. |
| Strip.StripPrimitive | screens/AquariumScreen.tsx:93 | Null and primitive values are returned unchanged. |
| Strip.StripNoUndef | screens/AquariumScreen.tsx:77-94 | A defined input gives a value with no undefined at any depth. |
| Strip.StripKeysDistinct | screens/AquariumScreen.tsx:85-91 | Every cleaned object has distinct keys. |
| Strip.StripFixes | screens/AquariumScreen.tsx:77-94 | A value with no undefined and distinct keys is returned unchanged. |
| Strip.StripIdempotent | screens/AquariumScreen.tsx:77-94 | Cleaning twice equals cleaning once. |
| Strip.StripArrayOrder | screens/AquariumScreen.tsx:79-84 | An array keeps its defined elements in their original order, each cleaned. |
| Strip.StripObjectGet | screens/AquariumScreen.tsx:85-91 | Each key of a cleaned object reads the cleaned value of the original. |
| Strip.AssignedGet | screens/AquariumScreen.tsx:86-90 | Assigning entries one by one keeps each key's value, and an undefined one reads as missing. |
| Payload.PickGet | screens/AquariumScreen.tsx:177-180 | Picking fields gives exactly the picked keys, in order, each with the item's value. |
| Payload.SerializeItemGet | screens/AquariumScreen.tsx:177-180 | A saved item has exactly the 11 saved keys, with the item's values. Every other property, such as `incompatibleWith`, `temp`, `ph` or `oxygenNeed`, is dropped. |
| Payload.SerializeItems | screens/AquariumScreen.tsx:177-180 | There is one saved item per occupant, in order. |
| Payload.KeysFor | screens/AquariumScreen.tsx:186 | Each item is keyed by the text of its `instanceId`. |
| Payload.ItemsById | screens/AquariumScreen.tsx:183-189 | The loop builds the dictionary of saved items by instance id. |
| Payload.IndexKeys | screens/AquariumScreen.tsx:183-189 | The dictionary's keys are distinct and are exactly the items' instance ids. |
| Payload.IndexGet | screens/AquariumScreen.tsx:185-187 | An id reads the last item written under it. |
| Payload.IndexInOrder | screens/AquariumScreen.tsx:183-189 | With distinct ids, the dictionary is written with every item under its id, in item order. Enumeration may reorder it; see Json.EnumeratedOrder. |
| Payload.BackgroundKey | screens/AquariumScreen.tsx:317 | The saved background key is the key at the index, or undefined when the index is out of range. |
| Payload.OfKind | screens/AquariumScreen.tsx:319-320 | The kind filter keeps exactly the occupants of that kind. |
| Payload.DocumentParts | screens/AquariumScreen.tsx:312-323 | The document has `settings`, `fish`, `plants` and `items` under distinct keys. |
| Payload.SettingsParts | screens/AquariumScreen.tsx:313-318 | The settings record holds env, temp, oxy and the background key. |
| Payload.PayloadLists | screens/AquariumScreen.tsx:312-323 | `fish` and `plants` are the saved forms of exactly the fish and the plants. `items` has distinct keys, exactly the instance ids. |
| Json.EnumeratedOrder | screens/AquariumScreen.tsx:711-719 | Enumeration lists every entry once. Array-index keys come first, in ascending order, and the other keys keep the order written. |
| Json.ObjectValues | screens/AquariumScreen.tsx:713 | `Object.values` gives one value per property. |
| Json.EnumeratedPlain | screens/AquariumScreen.tsx:711-719 | An object with no array-index key is enumerated in the order written. |
| Json.EnumeratedExample | screens/AquariumScreen.tsx:713 | Keys `b`, `7`, `a`, `3`, written in that order, are listed `3`, `7`, `b`, `a`. |
| Hydrate.FindKey | screens/AquariumScreen.tsx:705 | `findIndex` gives the first matching background, or -1 when there is none. |
| Hydrate.BackgroundIndex | screens/AquariumScreen.tsx:704-707 | A loaded background index is always a valid index. |
| Hydrate.LoadItems | screens/AquariumScreen.tsx:709-746 | When the items load, there is one occupant per stored item. |
| Hydrate.HydratedPosition | screens/AquariumScreen.tsx:740-741 | A loaded item keeps a numeric saved position. Otherwise it gets a default inside [20, 130] × [20, 109]. |
| Hydrate.CompositeId | screens/AquariumScreen.tsx:723-729 | An item whose only id is `sp::inst` gets speciesId `sp` and instanceId `inst`, and it keeps the composite id. |
| Hydrate.HydrateKeeps | screens/AquariumScreen.tsx:722-744 | A truthy instance or species id, a present id, name, kind and type, and the nickname are kept. Defaults fill only what is missing. |
| Hydrate.HydrateRestores | screens/AquariumScreen.tsx:722-744 | An item with an instance id and a numeric position loads with those and its nickname. |
| Hydrate.MergedFromDict | screens/AquariumScreen.tsx:710-713 | A non-empty `items` dictionary is preferred, and its values are loaded in JavaScript's enumeration order. |
| Hydrate.IndexIdsLoadFirst | screens/AquariumScreen.tsx:711-713 | Items stored under `b`, `7`, `a`, `3` load as the items of `3`, `7`, `b`, `a`. |
| Hydrate.NamedDictValues | screens/AquariumScreen.tsx:713 | A dictionary with no array-index key gives its values in the order written. |
| Hydrate.SavedDict | screens/AquariumScreen.tsx:183-189 | The saved dictionary holds each item's cleaned saved form under its id, in item order. |
| Hydrate.SavedDocument | screens/AquariumScreen.tsx:312-325 | With distinct instance ids, none an array index, the saved document's stored items are the cleaned saved items, in order. |
| Hydrate.EmptyTankLoads | screens/AquariumScreen.tsx:712-720 | A saved empty tank loads as an empty list. |
| Hydrate.LoadAll | screens/AquariumScreen.tsx:722-746 | With no null stored item, every stored item is loaded, in order. |
| Hydrate.LoadSaved | screens/AquariumScreen.tsx:709-746 | Loading stored saved items gives back each item's instance id, position and nickname. |
| Hydrate.ItemsRoundTrip | screens/AquariumScreen.tsx:312-325 | Saving then loading returns every occupant in order, with its instance id, x, y and nickname, provided instance ids are distinct and none is an array index. |
| Hydrate.LoadSettingsFrom | screens/AquariumScreen.tsx:696-707 | A text env, a numeric temp and oxy, and a truthy background key replace the current settings. Anything else keeps the current value. |
| Hydrate.SettingsRoundTrip | screens/AquariumScreen.tsx:696-707 | Saving then loading restores temperature and oxygen, the environment unless it was empty, and the background when the index was valid. |
| Hydrate.BackgroundRoundTrip | screens/AquariumScreen.tsx:704-707 | The index of a saved background key is the saved index. |
| Session.Clamp | screens/AquariumScreen.tsx:1072-1074 | `clamp(n, lo, hi)` is never below lo, at most hi when lo ≤ hi, and n itself when n lies in [lo, hi]. |
| Session.DropInBounds | screens/AquariumScreen.tsx:489-490 | The drop point lies in [0, w − FISH_W] × [0, h − FISH_H]. It is 0 on an axis where the tank is smaller than an occupant. |
| Session.WithoutMembers | screens/AquariumScreen.tsx:663 | Filtering by id keeps exactly the occupants with another id. |
| Session.WithoutAppend | screens/AquariumScreen.tsx:663 | Filtering distributes over concatenation, so the kept occupants stay in order. |
| Session.WithoutAbsent | screens/AquariumScreen.tsx:663 | Filtering by an id nobody has changes nothing. |
| Session.WithoutIds | screens/AquariumScreen.tsx:663 | Filtering removes every copy of the id and no other id. |
| Session.MovedParts | screens/AquariumScreen.tsx:547 | A moved occupant has the dragged id and the new position. It keeps its nickname and every other property. |
| Session.MovedBackUnchanged | screens/AquariumScreen.tsx:553-565 | Putting an occupant back at its original place, under its own id, reads exactly as before. |
| Session.ReappendKeepsIds | screens/AquariumScreen.tsx:544-551 | Removing an occupant and appending it again keeps the multiset of ids, their uniqueness and the length. |
| Session.PlacedParts | screens/AquariumScreen.tsx:514-522 | A placed species gets the composite id `id::instanceId`, speciesId = the species id, its kind (else the default) and the position. Every other property is the species'. |
| Session.PlacedIdSplits | screens/AquariumScreen.tsx:516-517 | The composite id splits back into the species id and the instance id. |
| Session.PlacedKeepsName | screens/AquariumScreen.tsx:514-522 | A placed species carries the fresh instance id and only the species' own nickname. |
| Session.CreatedParts | screens/AquariumScreen.tsx:619-628 | A named fish gets the placed properties and the trimmed draft, else the default name. The name is never empty. |
| Session.RenameAll | screens/AquariumScreen.tsx:647-651 | Renaming keeps the list length. |
| Session.RenameOnly | screens/AquariumScreen.tsx:645-656 | Only the nickname of the active instance changes. It becomes the trimmed draft, else the old nickname, else the default, and is never empty. Ids, the other occupants and the other properties are kept. |
| Session.PaletteDecisionRule | screens/AquariumScreen.tsx:498-541 | A checkable drop goes in when the user proceeds. Without that answer it goes in exactly when the verdict is Good and the water type matches. |
| Session.DropClamped | screens/AquariumScreen.tsx:488-551 | An inside drop adds at most one occupant, at the end, at the clamped point, or waits for a name at that point. |
| Session.DragRoundTrip | screens/AquariumScreen.tsx:434-565 | Dragging an occupant and dropping it anywhere on a measured tank keeps the multiset of ids, their uniqueness and the length. The others stay in order and the moved one goes last with its nickname. It lands at the clamped point inside and reads as before outside. |
| Session.LiftedDropped | screens/AquariumScreen.tsx:542-565 | A lifted occupant comes back last with the new or the original position. |
| Session.LostWithoutTank | screens/AquariumScreen.tsx:482 | Without a measured tank, a dragged occupant is not put back. |
| Session.LiftKeepsIdsUnique | screens/AquariumScreen.tsx:434-444 | Lifting an occupant keeps ids unique and leaves its id out of the list until the drop. |
| Session.DropKeepsIdsUnique | screens/AquariumScreen.tsx:481-568 | Every drop keeps ids unique, given a fresh id for a palette species and a lifted id absent from the list. A fish that starts waiting holds the fresh id, and the list is unchanged. |
| Session.LandedKeepsIdsUnique | screens/AquariumScreen.tsx:496-526 | A palette drop inside the tank keeps ids unique under a fresh id, and a waiting fish holds that id. |
| Session.ReturnedKeepsIdsUnique | screens/AquariumScreen.tsx:542-565 | Putting a lifted occupant back under its absent id keeps ids unique. |
| Session.ConfirmKeepsIdsUnique | screens/AquariumScreen.tsx:615-636 | Confirming a waiting fish whose id is absent keeps ids unique. With a text draft it appends one occupant. A draft that is not text throws at `trim` and changes nothing. |
| Session.PlantPlaced | screens/AquariumScreen.tsx:512-526 | An accepted plant is appended under the fresh id with no nickname of its own. |
| Session.FishNamed | screens/AquariumScreen.tsx:505-510 | An accepted fish waits for a name and is not in the list yet. Confirming an empty draft appends it with the species name. |
| Session.ConfirmedDefault | screens/AquariumScreen.tsx:615-636 | Confirming a waiting fish with an empty draft appends it last under its id and default name. |
| Session.RefusedDropKeepsList | screens/AquariumScreen.tsx:530-538 | A refused or throwing palette drop adds nothing. |
| Session.DeleteExact | screens/AquariumScreen.tsx:658-670 | A confirmed delete removes exactly the occupants with that id, keeps the others in order and keeps ids unique. A cancelled delete changes nothing. |
| Session.SwitchRule | screens/AquariumScreen.tsx:449-467 | Without consent, the type changes exactly when no occupant is of another type. With consent it always changes. Occupants are never touched. |
| Session.LoadOnce | screens/AquariumScreen.tsx:688-689 | Only the first focus loads, and loading again changes nothing. |
| Session.LoadNothing | screens/AquariumScreen.tsx:692-693 | An absent saved tank only marks the screen as loaded. |
| Session.Aquarium.constructor | screens/AquariumScreen.tsx:134-161 | Initial state: an empty tank, no drag, freshwater, 26 °C, 60 % oxygen, first background, not loaded. |
| Session.Aquarium.MeasureTank | screens/AquariumScreen.tsx:420-424 | Measuring stores the tank rectangle and nothing else. |
| Session.Aquarium.StartDrag | screens/AquariumScreen.tsx:426-432 | A palette drag records its source and item. |
| Session.Aquarium.StartDragExisting | screens/AquariumScreen.tsx:434-444 | Starting a drag from the tank remembers the id and the original position, and removes the occupant from the list. |
| Session.Aquarium.Grab | screens/AquariumScreen.tsx:435-439 | The drag fields are set from the occupant. |
| Session.Aquarium.CleanupDrag | screens/AquariumScreen.tsx:570-576 | All drag state is cleared. |
| Session.Aquarium.HandleDrop | screens/AquariumScreen.tsx:481-568 | The new state is the drop transition, given the user's answer to the warnings. |
| Session.Aquarium.CheckPalette | screens/AquariumScreen.tsx:498-503 | It returns the palette decision, without changing state. |
| Session.Aquarium.LandPalette | screens/AquariumScreen.tsx:505-527 | A fish goes to the naming step and a plant is appended. |
| Session.Aquarium.PutBack | screens/AquariumScreen.tsx:542-565 | A dragged occupant is re-appended, then the drag is cleared. |
| Session.Aquarium.EditName | screens/AquariumScreen.tsx:1045 | Typing sets the draft. |
| Session.Aquarium.ConfirmCreateItem | screens/AquariumScreen.tsx:615-636 | The waiting fish is appended and the naming step ends. |
| Session.Aquarium.CancelName | screens/AquariumScreen.tsx:1052 | Cancelling drops the waiting fish. |
| Session.Aquarium.PressItem | screens/AquariumScreen.tsx:611-613 | Pressing toggles the active occupant. |
| Session.Aquarium.StartRename | screens/AquariumScreen.tsx:638-643 | The occupant becomes active. The draft is its truthy nickname as stored, even when that is not text, and `''` otherwise. |
| Session.Aquarium.ConfirmRename | screens/AquariumScreen.tsx:645-656 | A text draft renames the active occupants as RenameAll does. A draft that is not text throws at `trim` and leaves the state as it was. |
| Session.RenameUnedited | screens/AquariumScreen.tsx:638-656 | Confirming an unedited rename keeps the ids and the length. A nickname that is already trimmed text is kept. A truthy nickname that is not text leaves the list unchanged. |
| Session.Aquarium.DeleteItem | screens/AquariumScreen.tsx:658-670 | The delete transition is applied, given the user's answer. |
| Session.Aquarium.SwitchEnv | screens/AquariumScreen.tsx:449-467 | The switch transition is applied, given the user's answer. |
| Session.Aquarium.HydrateOnce | screens/AquariumScreen.tsx:688-746 | The one-time load transition is applied. |
| Session.Aquarium.ApplyLoaded | screens/AquariumScreen.tsx:696-707 | The loaded settings and the loaded items, when present, are written. |

## Left out

- Rendering, styles, animations, modals, sliders, gesture responders and the info-bubble position. These are screen layout.
- Saving (`saveNow`), debounce timers, app-state and navigation listeners, screenshots, local file storage and the Firestore reads and writes. These are I/O and timing. A saved tank is modelled as reading back exactly the document that was written.
- The averages and `toFixed` text in the tank summary. This is floating-point formatting. Only the summary's oxygen vote is modelled.
- `Date.now` and `Math.random`. These become parameters: the fresh `instanceId` of a drop and `rand(i)` for a loaded item without an id.
- JavaScript's number-to-text conversion. This becomes the parameter `numText`.
- Alert dialogs. They become a boolean answer, and the handler that runs after the answer is modelled as running at once.
- The camel-case replace in `toSlug`. It runs after `toLowerCase`, so it can never match and changes nothing.
- Unicode case mapping. Lowercasing covers A–Z plus the two non-ASCII characters that lower to ASCII. Other non-ASCII characters are left as they are, which is exact for slugs and the type tests but not for all text.
- The `__proto__` key and other prototype effects of JavaScript objects.
- Equality of ids is structural equality of values.
- Hydrate.LoadSettings: does not model a truthy non-text `env`, which the source would store as the water type. The model keeps the current type instead.
- Hydrate.ItemsRoundTrip: does not state the `speciesId` round trip. Hydrate.HydrateKeeps states it for a truthy stored `speciesId`.
- Hydrate.ItemsRoundTrip: the in-order round trip is promised only when no instance id is an array index. An id like `"7"` is listed first on loading, so the loaded order differs (Hydrate.IndexIdsLoadFirst). Ids made by a drop contain dashes and are never array indices, but an id recovered from a legacy `sp::5` item is `5`.
- Hydrate.SavedDocument: promises the stored items in order only when no instance id is an array index, for the same reason.
- Payload.IndexInOrder: states the order in which keys are written, not the order in which JavaScript enumerates them (Json.EnumeratedOrder).
- Infinities. `Number` of a text such as `"Infinity"` is infinite in JavaScript. The model's numbers are NaN or finite, and the text-to-number conversion is the parameter `textNum` of the temperature recommender.
- NaN and infinite numbers in stored records. A JSON value's number (`Json.Val.Num`) is a finite real, so a stored item whose `x` or `y` is NaN or infinite cannot be written down. The source keeps such a position when loading, because its `typeof` is `'number'` (screens/AquariumScreen.tsx:740-741). Hydrate.HydratedPosition and Hydrate.HydrateRestores speak only of finite positions.
- Compat.IsExplicitlyIncompatible, Compat.SimpleCompat and Compat.AddConflicts: they require text ids for every occupant and an incompatibility value with `includes` (an array or a text) for the candidate and every occupant.
- Session.PaletteDecision: treats a palette drop as throwing whenever `Checkable` fails. The source reads a list only when it reaches it, so some such drops do not throw there. An empty tank never reads the candidate's list in `addConflicts`. `A.includes(bId) || B.includes(aId)` does not read `B` when `A` already names `bId`. For those inputs the model says the drop changes nothing, while the source places the species. Normalised catalog species always hold an array list (Compat.IncompatValueOfNormalized), so this only concerns records that skipped normalisation.
- The two behaviours kept from the source as they are: a dragged occupant is lost when the tank was never measured (Session.LostWithoutTank), and a placed plant gets no nickname (Session.PlantPlaced).

Three behaviours of the code that a reader might not expect, modelled as written:

- `toSlug` does no camel-case splitting, because its camel-case replace runs after lowercasing.
- `incompatibleWith` is not de-duplicated.
- A bare-number `temp` is kept as it is, not turned into a range, so its bounds read as NaN (Environment.BareTempIsNaN).
