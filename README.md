# Initiative tracker — a Dafny model

A model of the domain logic of the initiative tracker, a single-page app that keeps a roster of
tabletop characters in initiative order and applies damage and healing to their hit points.

The model has five modules:

- `Characters` (`characters.dfy`): the character record (`src/types/Character.ts:4-15`). It has
  ten fields. The optional `link` is an `Option<string>`.
- `HitPoints` (`hit_points.dfy`): the damage calculation of `calculateDamage`.
  - `CalculateDamage` is an imperative method over the locals `tempHp`, `currentHp` and
    `damageLeft`. It is proved equal to the closed form `AbsorbDamage`.
  - `Struck` writes the result into a stored record, including its `dead` flag.
  - `Healed` is the record built by the heal dialog's submit handler.
- `Initiative` (`initiative.dfy`): the descending sort by initiative. It is modelled as a stable
  insertion sort, `SortByInitiative`, because `Array.prototype.sort` is stable.
  `StableSortIsUnique` proves that any ordering that is sorted and keeps ties in roster order
  equals this sort. So the choice of algorithm does not matter.
- `Home` (`home.dfy`): the roster store of the page.
  - Pure transforms: `MaxId`/`NextId`, `MapWhere` (the `map` by id), `Merge` (the object spread
    `{...char, ...patch}`) and `RemoveById` (the `filter`).
  - Specification functions for the roster after each handler: `Created`, `Updated`, `Deleted`
    and `DamagedAll`.
  - The `Store` class, whose `characters` field every handler replaces. Its methods are proved
    against those specification functions. They keep the invariant `Valid()`: ids are unique and
    the roster is sorted.
  - Create, update and delete re-sort the roster. Damage does not: `calculateDamage` never calls
    `sortCharacters`, and its lemma shows that sort order is kept anyway.
  - Heal goes through the update handler, so it re-sorts.
  - Damage computes the new pools from the record selected in the dialog. It takes the `dead`
    flag it keeps from the stored record. `Store.Damage` takes the selected record as its
    parameter, as the source does.
- `CharacterCard` (`character_card.dfy`): `getInitials`.
  - `Trim` and `Split` follow `trim()` and `split(/\s+/)`. `Split` also yields the empty first and
    last pieces of a string that is not trimmed.
  - `Words` is an independent reference definition: the maximal runs of non-whitespace.
  - `SplitTrimIsWords` proves that the `trim()`/`split()` chain yields exactly the words of the name.
  - The properties of `Initials` are then stated in terms of words.

## Model

| member | source | states |
|---|---|---|
| HitPoints.AbsorbDamage | src/pages/Home.tsx:95-104 | current hit points never go negative. Non-positive temporary hit points are left unchanged. Positive ones stay non-negative. A non-negative hit never raises temporary hit points, nor current hit points that are not negative. |
| HitPoints.CalculateDamage | src/pages/Home.tsx:90-104 | the step-by-step update of `tempHp`, `currentHp` and `damageLeft` yields exactly the pools of `AbsorbDamage`. |
| HitPoints.TempAbsorbsFirst | src/pages/Home.tsx:95-98 | a hit no larger than the temporary hit points comes entirely off them. Current hit points are untouched. |
| HitPoints.DamageSplit | src/pages/Home.tsx:95-104 | with non-negative temporary hit points and a non-negative hit, temporary hit points become `max(tempHp - amount, 0)` and only the excess `max(amount - tempHp, 0)` comes off current hit points, clamped at 0. |
| HitPoints.NegativeTempIsIgnored | src/pages/Home.tsx:95-104 | negative temporary hit points stay as they are and absorb nothing: current hit points end as they would with no temporary hit points. |
| HitPoints.DamageConservesHp | src/pages/Home.tsx:95-104 | a hit the two pools can cover lowers their sum by exactly the hit. |
| HitPoints.OverkillEmptiesPools | src/pages/Home.tsx:95-104 | a hit at least as large as both pools together leaves both at 0. |
| HitPoints.Struck | src/pages/Home.tsx:106-117 | the stored record gets the computed pools. It is dead when it was already dead or the new current hit points are not positive, and alive otherwise. No other field changes. |
| HitPoints.Damaged | src/pages/Home.tsx:90-117 | a hit computed from the record's own pools leaves current hit points non-negative; a non-negative hit raises neither temporary hit points nor current hit points that are not negative; the hit marks the record dead exactly when it was dead or has no current hit points left, and changes no other field. |
| HitPoints.DamageKeepsBounds | src/pages/Home.tsx:90-117 | damage keeps 0 <= currentHp <= maxHp and tempHp >= 0, and never raises current hit points. The record is dead afterwards exactly when it was dead or has 0 hit points. |
| HitPoints.DamageExample | src/pages/Home.tsx:90-117 | 10 current and 5 temporary hit points hit for 8 leave 0 temporary and 7 current, and the record alive. |
| HitPoints.Healed | src/pages/Home.tsx:184-203 | current hit points become the minimum of `currentHp + amount` and `maxHp`. Temporary hit points become the minimum of `tempHp + tempAmount` and `maxHp`. The record is dead exactly when it was dead or the healed hit points are not positive. Name, ac, initiative, maxHp, id, link and color do not change. |
| HitPoints.HealKeepsBounds | src/pages/Home.tsx:188-202 | healing by non-negative amounts keeps the hit-point bounds and never lowers current hit points. |
| HitPoints.HealNeverRevives | src/pages/Home.tsx:192-198 | a dead record stays dead after any heal. |
| HitPoints.HealNothingIsIdentity | src/pages/Home.tsx:186-203 | healing a consistent record by 0 and 0 returns it unchanged. |
| HitPoints.HealDeadExample | src/pages/Home.tsx:184-203 | a dead record with 0 of 20 hit points healed by 15 has 15 hit points and is still dead. |
| Initiative.Insert | src/pages/Home.tsx:39 | inserting a record yields the same multiset as prepending it. |
| Initiative.InsertSorted | src/pages/Home.tsx:39 | inserting into a roster sorted by descending initiative keeps it sorted. |
| Initiative.SortByInitiative | src/pages/Home.tsx:37-41 | the result is sorted by descending initiative and is a permutation of the input, of the same length. |
| Initiative.InsertStable | src/pages/Home.tsx:39 | insertion keeps the relative order of records with the same initiative. |
| Initiative.SortIsStable | src/pages/Home.tsx:39 | for every initiative value, the records with that value keep their roster order through the sort. |
| Initiative.SortOfSortedIsIdentity | src/pages/Home.tsx:37-41 | re-sorting a sorted roster changes nothing. |
| Initiative.SortedArrangementIsUnique | src/pages/Home.tsx:39 | two sorted rosters with the same records of each initiative, in the same order, are equal. |
| Initiative.StableSortIsUnique | src/pages/Home.tsx:37-41 | any sorted roster that keeps ties in the input's order is exactly `SortByInitiative` of the input. |
| Home.MaxId | src/pages/Home.tsx:64 | `Math.max(0, ...ids)`: at least 0, at least every id, and either 0 or one of the ids. |
| Home.NextId | src/pages/Home.tsx:64 | the new id is at least 1 and above every existing id. It is 1 or one more than an existing id. |
| Home.MapWhere | src/pages/Home.tsx:52-56 | same length. Each record with the id is replaced by its transform and every other record is unchanged. |
| Home.Merge | src/pages/Home.tsx:54 | every field comes from the patch, except that the link of the current record survives when the patch has none. |
| Home.RemoveById | src/pages/Home.tsx:44 | no record with the id remains. Every other record keeps its multiplicity. A roster without the id is returned unchanged. |
| Home.RemoveByIdAppend | src/pages/Home.tsx:44 | the filter works piece by piece, so the records it keeps stay in roster order. |
| Home.RemoveCommutesWithInitiative | src/pages/Home.tsx:44 | filtering out an id and selecting one initiative value give the same sequence in either order. |
| Home.SortKeepsIdsUnique | src/pages/Home.tsx:37-41 | re-sorting never creates an id clash. |
| Home.RemoveKeepsIdsUnique | src/pages/Home.tsx:44 | filtering keeps ids unique. |
| Home.CreateAddsOneRecord | src/pages/Home.tsx:63-69 | create grows the roster by exactly one record, the draft with the new id, above every old id. The roster stays sorted. The new record comes after the existing records of its initiative. |
| Home.CreateKeepsIdsUnique | src/pages/Home.tsx:64-65 | create keeps ids unique. |
| Home.CreateOnEmpty | src/pages/Home.tsx:64-65 | on an empty roster the new record gets id 1. |
| Home.CreateTwiceOrder | src/pages/Home.tsx:63-69 | creating initiative 10 and then initiative 20 yields [20 with id 2, 10 with id 1]. |
| Home.UpdateChangesOnlyMatch | src/pages/Home.tsx:50-61 | update keeps the length and sorts the roster. It merges the patch into the records with its id only, and keeps ids unique. |
| Home.UpdateReplacesOne | src/pages/Home.tsx:51-56 | with unique ids, update replaces exactly the matching record by its merge with the patch. |
| Home.UpdateUnknownIdIsNoop | src/pages/Home.tsx:50-61 | an update with an id not in a sorted roster leaves it unchanged. |
| Home.DeleteRemovesExactly | src/pages/Home.tsx:43-48 | delete removes exactly the records with the id, keeps every other record, and leaves the roster sorted with unique ids. |
| Home.DeleteKeepsTieOrder | src/pages/Home.tsx:37-48 | after delete, the records of each initiative value are the surviving ones in their previous roster order. |
| Home.DeleteUnknownIdIsNoop | src/pages/Home.tsx:43-48 | deleting an id not in a sorted roster leaves it unchanged. |
| Home.DamageChangesOnlyMatch | src/pages/Home.tsx:106-117 | damage keeps the length and changes only the records with the target's id. It keeps the sort order and unique ids without a re-sort. An unknown id is a no-op. |
| Home.Store.Load | src/pages/Home.tsx:14-24 | the roster is the parsed stored roster, or empty when nothing parses. |
| Home.Store.Create | src/pages/Home.tsx:63-69 | the roster becomes `Created` of the old one, one record longer. `Valid` is preserved. |
| Home.Store.Update | src/pages/Home.tsx:50-61 | the roster becomes `Updated` of the old one. `Valid` is preserved. |
| Home.Store.Delete | src/pages/Home.tsx:43-48 | the roster becomes `Deleted` of the old one. `Valid` is preserved. |
| Home.Store.Heal | src/pages/Home.tsx:184-207 | the roster becomes the update by the healed copy of the selected record. `Valid` is preserved. |
| Home.Store.Damage | src/pages/Home.tsx:90-118 | the roster becomes `DamagedAll` with the pools computed from the selected record. `Valid` is preserved. |
| CharacterCard.Trim | src/components/CharacterCard.tsx:6-8 | the trimmed name is empty exactly when the name is blank. Otherwise it starts and ends with a non-whitespace character. |
| CharacterCard.TrimCutsBlankEnds | src/components/CharacterCard.tsx:6-8 | the name is its trimmed form with a run of whitespace before it and one after it: trimming cuts whitespace at the ends and nothing else. |
| CharacterCard.Split | src/components/CharacterCard.tsx:8 | splitting always yields at least one piece. |
| CharacterCard.Words | src/components/CharacterCard.tsx:8 | there are no words exactly when the text is blank. Every word is non-empty and starts with a non-whitespace character. |
| CharacterCard.WordsJoin | src/components/CharacterCard.tsx:8 | a non-empty whitespace run separates the words on its two sides. |
| CharacterCard.WordsOfTrim | src/components/CharacterCard.tsx:6-8 | trimming does not change the words. |
| CharacterCard.SplitIsWords | src/components/CharacterCard.tsx:8 | on a non-empty text that neither starts nor ends with whitespace, the split yields exactly the words. |
| CharacterCard.SplitTrimIsWords | src/components/CharacterCard.tsx:8 | for a name that is not blank, `name.trim().split(/\s+/)` yields exactly its words. |
| CharacterCard.Upper | src/components/CharacterCard.tsx:12 | a-z map to A-Z, 32 code points lower. Every other character is kept. |
| CharacterCard.ToUpper | src/components/CharacterCard.tsx:12 | upper-casing keeps the length and maps every character with `Upper`. |
| CharacterCard.PiecesInitials | src/components/CharacterCard.tsx:9-12 | at most two characters, each already upper-case. |
| CharacterCard.Initials | src/components/CharacterCard.tsx:5-13 | at most two characters, each already upper-case. The result is empty exactly when the name is blank. |
| CharacterCard.InitialsOfWords | src/components/CharacterCard.tsx:5-13 | for a name that is not blank, the initials are computed from its words. |
| CharacterCard.BlankNameHasNoInitials | src/components/CharacterCard.tsx:6 | an empty or all-whitespace name yields "". |
| CharacterCard.SingleWordInitial | src/components/CharacterCard.tsx:8-12 | a one-word name yields exactly the upper-cased first character of that word. |
| CharacterCard.FirstAndLastInitials | src/components/CharacterCard.tsx:9-12 | a name of two or more words yields the upper-cased first characters of its first and its last word. |
| CharacterCard.MiddleWordsIgnored | src/components/CharacterCard.tsx:9-10 | inserting words between the first and the last word does not change the initials. |
| CharacterCard.InitialsDependOnWordsOnly | src/components/CharacterCard.tsx:6-12 | two names with the same words have the same initials. |
| CharacterCard.PaddingIsIgnored | src/components/CharacterCard.tsx:6-8 | leading and trailing whitespace do not change the initials. |
| CharacterCard.RunLengthIsIgnored | src/components/CharacterCard.tsx:8 | the length of an inner whitespace run does not change the initials. |

## Left out

- Persistence (src/pages/Home.tsx:14-28) is left out: reading and writing `localStorage` and `JSON.parse`/`JSON.stringify`. `Store.Load` takes the parsed value as a parameter, with `None` for "missing or unparsable". Writing the roster back after each change is not modelled.
- Home.Store.Load: promises `Valid()` only for an empty start. A stored roster is taken as it is, with no check of its ids or order, just as the source does.
- JavaScript `number` semantics (NaN, fractions, doubles, precision loss) are left out. Ids, hit points, armor class and initiative are unbounded integers.
- The sort comparator `b.initiative - a.initiative` is taken as an exact integer comparison.
- Home.Store.Heal and Home.Store.Damage always have a selected record. The source's `if (editCharacter)` guard, which makes submit a no-op when nothing is selected, is not modelled.
- Home.Store.Create computes the new id from the roster it updates. The source reads the render-time `characters` for the id but appends to the updater's `prev`. The two are the same roster unless several creates are queued within one render.
- Home.Merge treats a patch without a link and a patch with `link: undefined` the same way: both keep the old link. JavaScript's spread would copy an explicit `undefined`.
- Whitespace is the ASCII whitespace of `trim` and `\s` (space, tab, line feed, vertical tab, form feed, carriage return). Upper-casing is the ASCII a-z mapping. Unicode spaces and Unicode case mapping are left out.
- CharacterCard.PiecesInitials: requires a non-empty last piece whenever there are several pieces. The source would then concatenate `undefined`, but after `trim()` that case cannot arise, so the model does not carry it.
- Rendering, dialog open/close flags, animation, the form components and their `Number(...)` coercions, and `window.open` for the link are left out: they are presentation or foreign calls with no domain logic.
