# wk-audio sync core in Dafny

wk-audio is a browser app for WaniKani vocabulary audio. This project models
its data core. That core has five parts:

- the sync pass `getSubjects`, which reads the API credential and the stored
  cursors and chooses a working map (empty on `reset`, else the cached one);
- the subject fetcher `fetchSubjects`, which translates each vocabulary
  record into a flat `Subject`;
- the assignment fetcher `fetchSrsStages`, which writes each assignment's SRS
  stage onto its subject;
- the two derived views of the published subject map: `currentSubjectsByLevel`
  (practice-eligible subjects, grouped by level and sorted by stage) and
  `voices` (the known voice actors);
- the array helpers `shuffle` (Fisher-Yates) and `chooseRandom`.

The server and the browser are parameters:

- a fetch loop receives a `Response`: the already-parsed pages its `next_url`
  chain would deliver, or `Failed` for a network or abort error;
- each `Math.random()` draw is a real in [0, 1) supplied by the caller.

Modules and files:

- `Wrappers` (wrappers.dfy): `Option`.
- `Seqs` (seqs.dfy): two prefix lemmas.
- `WaniKaniApi` (api.dfy): the API's records and pages, and the cursor rule.
- `Subjects` (subjects.dfy): the `Subject` shape and the per-record translation.
- `Fetchers` (fetch.dfy): both page folds, each as a function and as a method
  with loops proved against it.
- `KeyOrder` (keyorder.dfy): the ascending-key visiting order of
  `Object.values` and `Object.entries` on integer keys.
- `Sync` (sync.dfy): the sync pass, as a function on a `Store` and as the
  `SyncService` class that updates its fields.
- `Projections` (projections.dfy): both derived views.
- `Util` (util.dfy): `shuffle` on an `array`, and `chooseRandom`.
- `Scenarios` (scenarios.dfy): two consecutive passes on one concrete subject, and
  concrete inputs for the four findings below.
- `Intended` (intended.dfy): corrected definitions for those findings.

How JavaScript behaviour is represented:

- A thrown `TypeError` is a `None` result or `ok == false`:
  - `.meaning` of the `undefined` that `find` returns when no meaning is primary;
  - `.srsStage` of a missing subject.
- `getSubjects` catches every throw, so a failed pass leaves the `Store` as it was.
- `if (json.data_updated_at)` holds for a present, non-empty string.
- `subject.data.readings ? … : …` takes the first branch for any array, even
  an empty one. Only an absent field falls back to `[characters]`.
- `localStorage.setItem` of a `null` cursor stores the text `"null"`.
- `Array.prototype.sort` is stable. It is modelled as an insertion sort on the
  stage `srsStage`.

## Model

| member | source | states |
|---|---|---|
| Subjects.AudioItems | src/lib/db.js:89-94 | same length as `pronunciation_audios`; item `i` carries item `i`'s url, pronunciation, voice actor id and voice actor name |
| Subjects.ReadingsOf | src/lib/db.js:95-97 | readings present: their `.reading` texts, same length and order; absent: exactly `[characters]` |
| Subjects.PrimaryMeaning | src/lib/db.js:98 | defined exactly when some meaning is primary, and then it is the first primary meaning's text |
| Subjects.OtherMeanings | src/lib/db.js:99-101 | holds every non-primary meaning, and only texts of non-primary meanings |
| Subjects.OtherMeaningsAppend | src/lib/db.js:99-101 | the filter distributes over concatenation, so secondary meanings keep their relative order |
| Subjects.OtherMeaningsCount | src/lib/db.js:99-101 | secondary meanings plus primary ones account for every meaning |
| Subjects.Translate | src/lib/db.js:85-102 | succeeds exactly when a primary meaning exists; url, characters, level, audio, readings, meaning and other meanings come from the record's fields; no stage |
| WaniKaniApi.Records | src/lib/db.js:77-84 | the records the page and record loops visit, page by page in delivery order; InRecords proves that every record of every page is among them, and RecordsSnoc that a further page appends its records |
| WaniKaniApi.InRecords | src/lib/db.js:77-84 | every record of every delivered page is folded |
| WaniKaniApi.LastCursor | src/lib/db.js:73-108 | `newUpdated` after the page loop: the input cursor, overwritten by each page that reports a `data_updated_at`; LastCursorUnreported, LastCursorLastReported and LastCursorOrigin prove what it promises |
| WaniKaniApi.LastCursorUnreported | src/lib/db.js:73-108 | when no page reports a `data_updated_at`, the fetcher returns the cursor it was given |
| WaniKaniApi.LastCursorLastReported | src/lib/db.js:104-108 | the cursor returned is the `data_updated_at` of the last page that reports one |
| WaniKaniApi.LastCursorOrigin | src/lib/db.js:73-108 | the cursor returned is the input cursor or some page's reported `data_updated_at`, never any other value |
| Fetchers.LastRecord | src/lib/db.js:84-85 | absent exactly when no record has the id; when present, the data of a record with that id |
| Fetchers.LastRecordWins | src/lib/db.js:84-85 | the record whose data is found is the last one with that id: no later record has it |
| Fetchers.MergeSubjects | src/lib/db.js:84-103 | succeeds exactly when every record translates; the resulting keys are the old keys plus exactly the ids that some record carries |
| Fetchers.MergeSubjectsAt | src/lib/db.js:84-103 | each key's entry is the translation of its last record, or its old entry when no record carries it |
| Fetchers.MergeSubjectsFrame | src/lib/db.js:84-103 | entries for ids that no record carries are unchanged |
| Fetchers.LastStage | src/lib/db.js:129-131 | absent exactly when no assignment names the subject; when present, the stage of an assignment that names it |
| Fetchers.LastStageWins | src/lib/db.js:129-131 | the assignment whose stage is found is the last one naming that subject |
| Fetchers.MergeStages | src/lib/db.js:129-131 | succeeds exactly when every assignment names a key of the map; the key set is unchanged |
| Fetchers.MergeStagesAt | src/lib/db.js:129-131 | only `srsStage` changes, and only on assigned subjects, to the last assignment's stage |
| Fetchers.FetchSubjects | src/lib/db.js:66-109 | the page and record loops succeed exactly when the response is delivered and the fold succeeds; they return the folded map and the last reported cursor |
| Fetchers.FetchSrsStages | src/lib/db.js:111-137 | the same for the assignment loop: success exactly when every assignment names a present subject; returns the folded map and the cursor |
| Sync.HasKey | src/lib/db.js:145 | whether `!key` lets the pass go on: false for a `null` and for an empty credential; NoKeyIsNoOp proves that such a pass changes nothing |
| Sync.SyncPass | src/lib/db.js:140-170 | the state after one pass, from the old state and the two responses; NoKeyIsNoOp, FailedPassIsNoOp, UnknownSubjectFails, PublishedKeys, SuccessPersists, PublishedEntry and NothingNewIsIdempotent prove what it promises |
| Sync.SyncService.constructor | src/lib/db.js:181 | module load: starts from the stored credential, cursors and cache (src/lib/db.js:60-64) with an empty published map, then runs the startup pass `getSubjects(false)`; the state is `SyncPass` of that start |
| Sync.SyncService.GetSubjects | src/lib/db.js:140-170 | the new state is `SyncPass` of the old: no-op without a key or on any failure; else cursors, cache and published map are written |
| Sync.SyncService.SetApiKey | src/lib/db.js:174-178 | stores the new credential, then runs a pass with reset |
| Sync.NoKeyIsNoOp | src/lib/db.js:144-147 | a null or empty credential leaves the whole state unchanged |
| Sync.FailedPassIsNoOp | src/lib/db.js:167-169 | a failed request or an untranslatable record leaves the whole state unchanged |
| Sync.UnknownSubjectFails | src/lib/db.js:157-162 | the pass succeeds exactly when every assignment names a subject that is in the start map or was fetched in this pass |
| Sync.PublishedKeys | src/lib/db.js:150-166 | the pass starts from an empty map on reset, so the published keys are exactly the fetched ids; otherwise it starts from the cache (empty when nothing is cached), so they are the cached keys plus the fetched ids |
| Sync.SuccessPersists | src/lib/db.js:163-166 | the persisted map is the published one; each cursor is stored as its fetcher's result, as the stored cursor again when no page reported one, and as the text "null" when that result is `null` |
| Sync.PublishedEntry | src/lib/db.js:150-166 | each published entry: fields from the last fetched record, else the start map; stage from the last assignment; a refetched subject without an assignment has no stage |
| Sync.NothingNewIsIdempotent | src/lib/db.js:140-166 | with no new records and no reset, the published map is the cached one, and a second pass publishes the same map |
| KeyOrder.MinKey | src/lib/db.js:188 | a member of the key set that no key is below |
| KeyOrder.SortedKeys | src/lib/db.js:188 | each key once, strictly ascending, exactly the keys of the set |
| KeyOrder.Values | src/lib/db.js:188 | one value per key, in ascending key order; contains exactly the map's values |
| Projections.Eligible | src/lib/db.js:189 | a subject is kept when its stage is defined and at least 1 and it has audio; GroupMembers and ShownIff prove that exactly these subjects are grouped |
| Projections.InsertByStage | src/lib/db.js:198 | one insertion step of the stable sort: in front of the first subject whose stage is not smaller; InsertPermutes, InsertKeepsSorted and InsertWithStage prove what it promises |
| Projections.InsertPermutes | src/lib/db.js:198 | inserting adds exactly the inserted subject |
| Projections.InsertKeepsSorted | src/lib/db.js:198 | inserting into a stage-sorted list keeps it sorted |
| Projections.InsertWithStage | src/lib/db.js:198 | inserting puts the subject ahead of the equal-stage subjects already present, keeping their order |
| Projections.SortByStage | src/lib/db.js:198 | the stable sort of a group by stage; SortIsSortedPermutation and SortIsStable prove that it is a sorted, stable permutation |
| Projections.SortIsSortedPermutation | src/lib/db.js:198 | the sort returns a permutation of its input, non-decreasing in stage |
| Projections.SortIsStable | src/lib/db.js:198 | for every stage, the subjects of that stage keep their relative order |
| Projections.GroupMembers | src/lib/db.js:189-195 | a group holds exactly the visited subjects that are eligible and of its level |
| Projections.LevelsIff | src/lib/db.js:192-194 | a level has a group exactly when some visited subject is pushed onto it |
| Projections.GroupStep | src/lib/db.js:189-195 | one visited subject extends its level's group when eligible, and changes nothing otherwise |
| Projections.ByLevel | src/lib/db.js:185-201 | the view for a visiting order: one group per level that has an eligible subject, each group sorted by stage; GroupByLevel, SortGroups and CurrentSubjectsByLevel are proved against it, and ShownIff and GroupOrder state what it holds |
| Projections.GroupByLevel | src/lib/db.js:187-196 | the first loop yields one group per level that has an eligible subject, holding them in visiting order |
| Projections.SortedOverAt | src/lib/db.js:197-199 | after sorting some levels' groups in place, exactly those groups are sorted and the rest are untouched |
| Projections.SortedOverAll | src/lib/db.js:197-199 | once every level has been visited, the keys are kept and every group is replaced by its stable sort |
| Projections.SortGroups | src/lib/db.js:197-199 | the second loop keeps the keys and replaces every group by its stable sort |
| Projections.CurrentSubjectsByLevel | src/lib/db.js:185-201 | the view equals `ByLevel` of the subjects in ascending id order |
| Projections.ShownIff | src/lib/db.js:188-196 | a subject is shown under a level exactly when it is in the map with stage defined and at least 1, audio non-empty and that level; shown groups are non-empty |
| Projections.GroupOrder | src/lib/db.js:188-199 | each group is a permutation of its members, all with a stage of at least 1, non-decreasing in stage, equal stages in visiting (ascending id) order |
| Projections.AllAudioMembers | src/lib/db.js:206-207 | the visited items are exactly the audio items of the map's subjects |
| Projections.VoiceNames | src/lib/db.js:205-210 | the voice-name map built from audio items in order, each write replacing an earlier one for the same id; VoiceNamesKeys and VoiceNamesLastWins prove what it promises |
| Projections.VoiceNamesKeys | src/lib/db.js:206-210 | a voice id gets a name exactly when some audio item carries it |
| Projections.VoiceNamesLastWins | src/lib/db.js:208 | the name kept for an id is the one of the last item with that id |
| Projections.CollectVoiceNames | src/lib/db.js:205-210 | the nested loops build the last-write-wins map over all audio items |
| Projections.PairNames | src/lib/db.js:211-214 | pairs each id, in order, with its name |
| Projections.Entries | src/lib/db.js:211-214 | one entry per voice id, ids strictly ascending (so no duplicates), each with the name its id maps to |
| Projections.Voices | src/lib/db.js:203-215 | the view is the entries of the last-write-wins map over the subjects' audio |
| Projections.VoiceIdsIff | src/lib/db.js:203-215 | a voice id is listed exactly when some subject in the map has an audio item with that id |
| Util.Scale | src/lib/util.js:8 | `floor(r * n)` for a draw `r` is an index in [0, n) when n is positive |
| Util.Swap | src/lib/util.js:9-11 | the three assignments through `temp`: positions `i` and `j` exchanged, every other position kept; SwapPermutes and PassSwaps prove what it promises |
| Util.SwapPermutes | src/lib/util.js:9-11 | a swap loses no element |
| Util.ValidChoices | src/lib/util.js:7-8 | one index choice per pass, the pass with index `i` choosing in [0, i]; Choices proves that the draws always give such choices |
| Util.Choices | src/lib/util.js:7-8 | the pass with index `i` chooses `floor(draw * (i + 1))`, which lies in [0, i], so the choices are valid for the array |
| Util.Shuffled | src/lib/util.js:7-11 | the passes applied to given choices; every pass keeps the length |
| Util.ShuffledPermutes | src/lib/util.js:7-11 | the shuffled contents are a permutation of the original |
| Util.PassSwaps | src/lib/util.js:7-11 | pass k exchanges `i == n - k` with its chosen `j` in [0, i] and changes no other position |
| Util.SettledStays | src/lib/util.js:7-11 | a position a pass has settled is not touched by later passes |
| Util.ShortUnchanged | src/lib/util.js:7 | arrays of length 0 or 1 are unchanged |
| Util.Shuffle | src/lib/util.js:6-14 | returns the same array, holding the result of exactly `max(n - 1, 0)` passes on the old contents, with the choices `Choices` takes from the draws |
| Util.ChooseRandom | src/lib/util.js:20-22 | undefined exactly for an empty array; otherwise the element at index `floor(draw * length)`, which lies in [0, length) |
| Scenarios.DogTranslates | src/lib/db.js:85-102 | a record without `readings` and with one primary meaning "dog" gets `[characters]` as its readings and "dog" as its meaning |
| Scenarios.FirstPass | src/lib/db.js:140-170 | a first pass with the record and no assignments publishes and caches it without a stage, and stores the cursor |
| Scenarios.FirstGrouping | src/lib/db.js:185-201 | without a stage, no level has a group |
| Scenarios.SecondPass | src/lib/db.js:140-170 | a second pass with only an assignment of stage 2 sets that stage and keeps the subject's other fields |
| Scenarios.SecondGrouping | src/lib/db.js:185-201 | once the stage is set, level 3's group is exactly that subject |
| Scenarios.EmptyReadingsAsWritten | src/lib/db.js:95-97 | a record whose `readings` is the empty array translates with no readings; the corrected translation gives its characters |
| Scenarios.ResetKeepsCursorAsWritten | src/lib/db.js:148-163 | two reset passes over the same empty pages store different cursors, "t1" and "null", depending on the store they start from |
| Scenarios.NullCursorAsWritten | src/lib/db.js:163-164 | a first pass whose pages report no cursor stores the text "null" for both cursors |
| Scenarios.RefetchLosesStageAsWritten | src/lib/db.js:85-102 | a subject with stage 2, fetched again with no assignment update, is published with no stage |
| Intended.IntendedReadingsOf | src/lib/db.js:95-97 | corrected readings: never empty; the API's readings when the array is non-empty, else `[characters]` |
| Intended.IntendedTranslate | src/lib/db.js:85-102 | the translation with the corrected readings: succeeds exactly when the code's does, differs from it only in `readings`, and its readings are never empty |
| Intended.IntendedMergeSubjects | src/lib/db.js:84-103 | corrected subject fold: succeeds exactly when every record translates, with the same key set as the code's fold |
| Intended.IntendedMergeKeepsStage | src/lib/db.js:84-103 | in the corrected fold every subject of the start map keeps its `srsStage` |
| Intended.ResetCursorFromPages | src/lib/db.js:148-166 | after a successful corrected reset pass, cursors and published map are the same from any store with a credential, and the subject cursor is the one this pass's pages report |
| Intended.NullOnlyIfReported | src/lib/db.js:163-164 | in the corrected pass a cursor is the text "null" only when a page reported it or it was stored already |
| Intended.RefetchKeepsStage | src/lib/db.js:84-131 | in the corrected pass a start-map subject that no assignment names keeps its stage, even when fetched again |

## Left out

- IndexedDB opening, reading and writing (src/lib/db.js:26-58) is asynchronous browser storage. The cache is a field of the `Store`, and a write takes effect at once.
- HTTP is left out: URLs, the `updated_after` query, headers, `fetch`, `response.json()` and following `next_url` (src/lib/db.js:67-83, 112-128). A fetch loop receives the pages that chain would deliver, so the server-side restriction by cursor is not modelled.
- `AbortController` cancellation of a superseded pass (src/lib/db.js:139-143) exists for interleaved async runs, and concurrency is not modelled. A cancelled fetch is a `Failed` response.
- The non-awaited `setObject` and the non-atomic persistence of cursors and map (src/lib/db.js:163-165) are modelled as one atomic update. This is sequential semantics.
- `localStorage` is modelled only as the `Store` fields for the credential and cursors it holds. `selectedVoice` (src/lib/db.js:217-221) is left out; it is a persisted UI setting outside the data core.
- The Svelte `writable`/`derived`/`readonly` machinery is left out. The derived views are functions and methods of the published map.
- `console.error` in the catch (src/lib/db.js:167-169) is logging only.
- `parseInt` of the object key (src/lib/db.js:212) is left out, because ids are integers throughout.
- The uniform distribution of `Math.random` (src/lib/util.js:8, 21) is left out. The draws are parameters, and only their range [0, 1) is assumed.
- Cursor monotonicity, meaning timestamps that never regress, depends on the order of the server's timestamps. The model states only which reported value becomes the cursor.
- KeyOrder.Values: JavaScript visits only array-index keys (0 to 2^32 - 2) in ascending order. The model assumes ascending order for every integer key, which matches the positive WaniKani ids. The same assumption is made for the order of `Object.entries` (src/lib/db.js:211) in Projections.Entries and Projections.Voices.
- Fetchers.FetchSubjects: when a record fails to translate, the source has already written the earlier records into the caller's object. The contract does not describe that partly updated map, because `getSubjects` discards it in its catch.
- Fetchers.FetchSrsStages: the same holds for a map partly updated before an assignment names a missing subject.
- Util.Shuffle: aliasing is modelled only as far as the array itself, which is updated in place and returned as the same reference.

## Findings

The model proper follows the code as written. In four places the code
probably does not do what it intends; the corrected definitions are in module
`Intended` (intended.dfy). Nothing in the model proper uses them; only the
counterexample lemmas in `Scenarios` refer to them.

| source | as written | input that shows it | evidently intended | confidence | as-written member | corrected member |
|---|---|---|---|---|---|---|
| src/lib/db.js:95-97 | `subject.data.readings ? … : [characters]` is true for any array, so an empty array gives no readings | a record with `readings: []` | an empty array falls back to `[characters]`, so readings are never empty | plausible, not executed; the API may never send `[]` | Scenarios.EmptyReadingsAsWritten | Intended.IntendedReadingsOf |
| src/lib/db.js:148-161 | `getSubjects(true)` (called from `apiKey.set`, src/lib/db.js:177) empties the map but still passes the stored cursors, so the server sends only records updated since then | a reset pass from a store whose cursor is "t1", over pages that report nothing | a reset pass starts from no cursor, so what it stores depends only on its own pages | likely, not executed | Scenarios.ResetKeepsCursorAsWritten | Intended.ResetCursorFromPages |
| src/lib/db.js:163-164 | a fetcher returns its `null` input cursor when no page reports one (src/lib/db.js:73, 108), and `setItem` stores it as the text "null", which `if (updatedAfter)` (src/lib/db.js:74) then accepts | a first pass whose pages report no `data_updated_at` | no cursor is stored when there is none | likely, not executed | Scenarios.NullCursorAsWritten | Intended.NullOnlyIfReported |
| src/lib/db.js:85-102 | a refetched subject is rebuilt without `srsStage`, and only assignments fetched in the same pass (src/lib/db.js:129-131) write stages back | subject 7 with stage 2, fetched again in an incremental pass with no assignment update | the subject keeps its stage | likely, not executed | Scenarios.RefetchLosesStageAsWritten | Intended.RefetchKeepsStage |
