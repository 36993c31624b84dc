# Name Recall: the data layer of app.js in Dafny

Name Recall ("anoano") is a single-page app for remembering people. It keeps one list of
person records (`AppState.people`) in `localStorage`, lets the user add, edit and delete
records, narrows the home list by tag and by a search box, lists the tags in use with
their counts, and exports and imports JSON backups. An import can merge into the list or
replace it. This project models that data layer and proves what it promises.

The modules follow the structure of `app.js`:

- `Wrappers`: `Option` and `Result`.
- `Seqs`: `Array.prototype.filter` and the subsequence relation.
- `People`: the `Person` record, the ids of a list, and `findIndex` by id.
- `Text`: `trim`, `split(',')`, `split(/\s+/)`, ASCII case mapping, `includes`, and on
  top of them `Utils.parseTags` and `Utils.getInitials`.
- `TagIndex`: `Utils.getAllUniqueTags`, as a method that builds the `Set` in loops and
  then sorts, and the per-tag count of the tags screen.
- `Query`: the tag filter and the text search inside `UI.renderPeopleList`.
- `BackupCodec`: the backup document, the checks `readImportFile` applies to a parsed
  document, and the document `exportData` builds.
- `ImportReconciler`: the preview counts of the import dialog and a declarative
  statement of what `importMerge` leaves behind (`Merged`).
- `Repository`: class `App`, whose fields are the mutable state. The fields are
  `people`, `filterTag`, `pendingImport` (`DataManager.pendingImportData`) and `stored`,
  the snapshot under the storage key. Its methods are `Storage.save`/`load`, the import
  steps, `savePerson`, `deletePerson`, the filter selection, and the two render
  computations.

`importMerge` is modelled as it runs. `MergeEach` is the `forEach` loop, and
`MergeImported` is its callback, updating `people` in place or appending to it. The
loop is proved to compute `Merged`, one candidate at a time (`MergeTurn`). The
properties of a merge are then proved about `Merged`.

Three behaviours of the code that a reader might not expect:

- **Duplicate new ids.** `importMerge` builds its map of existing ids once, before the
  loop (app.js:136), and never updates it. Two candidates carrying the same id that is
  not yet live are therefore both appended (app.js:148-150), so the merged ids repeat.
  Ids stay unique only when the new candidates' ids are distinct.
  `MergeAppendsDuplicateNewIds` shows the repetition. `MergeKeepsIdsUnique` and
  `MergeIdempotent` assume the new candidates have distinct ids.
- **Delete.** `deletePerson` filters the list by id (app.js:514), so it removes every
  record carrying the id.
- **Round trip.** A backup round-trips only when every record has a non-empty id and a
  non-empty name. Otherwise the import check rejects the whole document
  (`ExportRoundTrip`).

## Model

| member | source | states |
|---|---|---|
| `Repository.App.constructor` | app.js:7-11 | the list starts empty, with no tag filter and nothing pending |
| `Repository.App.Save` | app.js:32-34 | the stored snapshot becomes the whole current list |
| `Repository.App.Load` | app.js:23-30 | the list becomes the stored snapshot, or is empty when nothing is stored |
| `Repository.App.ReadImportFile` | app.js:75-113 | a rejected document yields its error and leaves the pending import (and the list) unchanged; an accepted one becomes the pending import and yields the preview counts against the live list |
| `Repository.App.HideImportModal` | app.js:125-130 | the pending import is cleared |
| `Repository.App.ImportMerge` | app.js:133-160 | with nothing pending nothing changes and both counts are 0; otherwise the list becomes `Merged(old list, candidates)`, is saved, the pending import is cleared, the added/updated counts equal the preview's new/update counts, and unique live ids with distinct new candidate ids stay unique |
| `Repository.App.MergeEach` | app.js:136-153 | running the callback over the candidates in order leaves exactly `Merged(old list, candidates)`, and the two counters equal the preview's new and update counts |
| `Repository.App.MergeImported` | app.js:140-152 | one candidate: a known id overwrites the first record with that id (when found), an unknown id is appended; `isNew` holds iff the id was not live, `isUpdate` iff it was live and found |
| `ImportReconciler.MergeOne` | app.js:140-152 | a known id that is found overwrites the first record with it and leaves every other index alone; a known id that is not found changes nothing; an unknown id is appended after the unchanged list |
| `ImportReconciler.MergeTurn` | app.js:140-152 | applying the callback to the list merged from the earlier candidates gives the list merged from one more; a live id is always found; the candidate adds 1 to exactly one of the two counts |
| `Repository.App.ImportOverwrite` | app.js:163-177 | with something pending and confirmation given, the list becomes exactly the candidates, is saved, and the pending import is cleared; otherwise nothing changes |
| `Repository.App.SavePerson` | app.js:477-509 | an empty form id prepends a record with the fresh id, the drawn palette colour and the parsed tags (length +1, the fresh id joins the ids); an existing id replaces the first record with that id at the same index, keeping its `colorVariant` (length and ids unchanged); unique ids stay unique; the list is saved |
| `Repository.App.DeletePerson` | app.js:512-518 | with confirmation every record with the id is removed, the rest keep their order (subsequence), uniqueness is kept and the list is saved; declined, nothing changes |
| `Repository.App.SelectTag` | app.js:552-555 | the tag filter becomes the tapped tag |
| `Repository.App.ClearFilter` | app.js:562-565 | the tag filter is removed |
| `Repository.App.RenderPeopleList` | app.js:305-331 | the records shown are the filtered view of the list, a subsequence of it and of the tag-only view; the list is not changed |
| `Repository.App.RenderAllTags` | app.js:521-559 | one badge per tag in use, strictly ascending, each with the number of people carrying that tag exactly, which is at least 1 |
| `Repository.AvatarOf` | app.js:491 | an empty avatar field gives no avatar; any other value is kept as is |
| `People.FirstIndex` | app.js:143 | -1 iff no record has the id; otherwise the index of a record with the id, before which none has it |
| `People.RemoveId` | app.js:514 | every record without the id keeps its number of copies; no record with the id is left |
| `People.RemoveIdMeaning` | app.js:514 | filtering by id removes that id entirely, keeps every other record, keeps order, and changes nothing when the id is absent |
| `People.SubseqKeepsUnique` | app.js:514 | a subsequence of a list with unique ids has unique ids and only records of that list |
| `People.ReplaceKeepsIds` | app.js:498-499 | replacing a record by one with the same id keeps the set of ids and their uniqueness |
| `People.PrependIds` | app.js:502 | putting a record in front adds exactly its id; a fresh id keeps ids unique |
| `Seqs.Filter` | app.js:316 | `filter` keeps exactly the elements satisfying the predicate, each with as many copies as the input holds, drops the others entirely, and never grows the list |
| `Seqs.FilterIsSubseq` | app.js:316 | what `filter` returns is a subsequence of its input, in the same order |
| `Seqs.SubseqTransitive` | app.js:326 | filtering a filtered list again still yields a subsequence of the original |
| `BackupCodec.RecordValid` | app.js:88 | a record is valid iff its `tags` is an array and the person it becomes has a non-empty id and a non-empty name |
| `BackupCodec.Validate` | app.js:78-94 | a parse failure, a missing or non-array `data`, and a record without a truthy id, a truthy name or a `tags` array each give their own error; the document is accepted iff every record is valid, and then yields all its records, field for field and in order |
| `BackupCodec.ExportedRecordValid` | app.js:88 | an exported record passes the per-record check iff its id and its name are non-empty, because its tags are always an array |
| `BackupCodec.ToPeople` | app.js:94 | the accepted records become people one to one, field for field |
| `BackupCodec.Export` | app.js:42-54 | an empty list gives no document; otherwise the document names the app "anoano", version "1.0", counts the people and carries the export time |
| `BackupCodec.ExportDecodes` | app.js:47-53 | the document of a non-empty list holds a `data` array of records with tags arrays that read back as exactly that list, importable or not |
| `BackupCodec.ExportRoundTrip` | app.js:42-94 | importing what export wrote gives the list back iff every record has a non-empty id and name; otherwise the whole import is refused |
| `ImportReconciler.Preview` | app.js:111-113 | `newCount` counts the candidates whose id is not live and `updateCount` those whose id is; they sum to the number of candidates |
| `ImportReconciler.PartitionCount` | app.js:111-113 | every candidate is counted as new or as matched, never both |
| `ImportReconciler.LastWith` | app.js:140-147 | the last candidate carrying an id, None iff no candidate carries it |
| `ImportReconciler.MergedSlot` | app.js:141-147 | a live slot keeps its id whether or not it is replaced |
| `ImportReconciler.Merged` | app.js:133-153 | the merged list is the live list slot for slot (same ids) followed by the unmatched candidates in input order |
| `ImportReconciler.MergeStepMatched` | app.js:141-147 | a candidate with a live id replaces the first record with that id, found at the same index in the live and the merged list; it counts as matched |
| `ImportReconciler.MergeStepNew` | app.js:148-151 | a candidate with an unknown id is appended and counts as new |
| `ImportReconciler.MergeCounts` | app.js:136-153 | final length = old length + added, and added + updated = number of candidates |
| `ImportReconciler.MergeKeepsUnmatched` | app.js:140-153 | a live record whose id no candidate carries stays unchanged at its index |
| `ImportReconciler.MergeReplacesFirst` | app.js:141-147 | a matched id puts the last candidate with it into the first live record with it; later live records with that id are untouched |
| `ImportReconciler.MergeKeepsIdsUnique` | app.js:136-153 | unique live ids and distinct new candidate ids give unique ids after the merge |
| `ImportReconciler.MergeAppendsDuplicateNewIds` | app.js:148-151 | two new candidates with the same id are both appended, so the merged ids repeat |
| `ImportReconciler.MergeHoldsCandidateIds` | app.js:140-153 | after a merge every candidate id is live |
| `ImportReconciler.MergeAppendsNewIds` | app.js:148-151 | every appended record carries an id that was not live |
| `ImportReconciler.MergeIdempotent` | app.js:133-153 | merging the same batch twice is the same as merging it once, when new candidates have distinct ids |
| `ImportReconciler.MergeExample` | app.js:111-153 | live "a" with candidates edited "a" and "b": preview 1 new and 1 update; the merge gives edited "a" then "b" |
| `Text.Trim` | app.js:233 | `trim` gives a string with no blank at either end, empty iff the input is blank, and leaves a trimmed string alone |
| `Text.TrimMiddle` | app.js:233 | what `trim` keeps is the slice of the input that starts right after its leading blanks |
| `Text.TrimDropsBlanks` | app.js:233 | what `trim` drops, before and after that slice, is blank |
| `Text.SplitComma` | app.js:234 | `split(',')` gives at least one comma-free segment, and joining the segments with commas gives the input back |
| `Text.SplitJoinComma` | app.js:234 | splitting on commas undoes joining comma-free segments with commas |
| `Text.Join` | app.js:447 | `join` of a non-empty list starts with its first element; `SplitJoinComma` and `SplitJoinWords` show that splitting undoes it |
| `Text.TrimNonEmpty` | app.js:235-236 | trim-and-drop-empty keeps only non-empty trimmed segments and adds no comma |
| `Text.TrimNonEmptyIsFilter` | app.js:235-236 | trimming and dropping empties in one pass gives the same list as `map(trim)` followed by `filter(non-empty)` |
| `Text.ParseTags` | app.js:232-237 | every tag is non-empty, trimmed and comma-free; a blank input gives no tags |
| `Text.ParseTagsIsFilter` | app.js:232-237 | on every input, blank ones included, `parseTags` is `split(',')`, then `map(trim)`, then `filter(non-empty)` |
| `Text.ParseTagsIsPipeline` | app.js:233-236 | the early return for an empty or blank input agrees with split, trim and filter, so the tags are the non-empty trimmed segments in input order |
| `Text.ParseTagsRoundTrip` | app.js:447 | clean tags joined with ", " for editing parse back to the same tags |
| `Text.ParseTagsIdempotent` | app.js:232-237 | parsing the joined result of a parse gives the same tags |
| `Text.SplitWhitespace` | app.js:220 | `split(/\s+/)` gives pieces without whitespace; the first is the input up to its first blank; the second is what follows the first run of blanks, up to the next blank; more than one piece iff the input has a blank |
| `Text.SplitJoinWords` | app.js:220 | `split(/\s+/)` undoes joining non-empty blank-free words with single spaces, piece for piece |
| `Text.SplitTwoWords` | app.js:220 | two words with one space between them split into exactly those two words |
| `Text.Upper` | app.js:222 | upper-casing maps each character and keeps the length |
| `Text.Lower` | app.js:325 | lower-casing maps each character and keeps the length |
| `Text.Contains` | app.js:327 | `includes` finds the empty query in every string, and a found query is no longer than the string |
| `Text.CharAt` | app.js:222-224 | `charAt` gives the one character at the index, or the empty string past the end |
| `Text.Initials` | app.js:218-225 | "?" for an empty name; when the trimmed name has a blank inside, its upper-cased first character followed by the upper-cased first character of its second word; otherwise the upper-cased first character of the untrimmed name |
| `Text.InitialsOfTwoWords` | app.js:220-222 | a two-word name gives the upper-cased first letters of both words |
| `Text.InitialsOfOneWord` | app.js:224 | a one-word name gives its upper-cased first letter |
| `Text.InitialsOfPaddedWord` | app.js:220-224 | as written, a blank followed by one word gives a blank as the initial |
| `Text.InitialsIntended` | app.js:218-225 | the corrected initials: "?" for a blank name; when the trimmed name has a blank inside, the upper-cased first characters of its first two words; otherwise the upper-cased first character of the trimmed name |
| `Text.IntendedInitialsVisible` | app.js:218-225 | the corrected initials of a name that is not blank start with its upper-cased first visible character and contain no blank |
| `Text.InitialsAgreeWithoutLeadingBlank` | app.js:218-225 | the corrected and the written initials agree on every non-empty name that does not start with a blank |
| `TagIndex.UniqueTags` | app.js:273-279 | the result is strictly sorted and holds a tag iff some person carries it |
| `TagIndex.Less` | app.js:278 | the default `sort` order never puts a string before itself, and puts a proper prefix before the longer string |
| `TagIndex.LessIrreflexive` | app.js:278 | the default `sort` order never puts a string before itself |
| `TagIndex.LessTransitive` | app.js:278 | the default `sort` order is transitive |
| `TagIndex.LessTotal` | app.js:278 | of two different strings, one comes before the other in the default `sort` order |
| `TagIndex.SortStrings` | app.js:278 | sorting a duplicate-free list gives the same elements in strictly ascending order |
| `TagIndex.SortedHasNoDups` | app.js:273-279 | a strictly sorted tag list has no duplicates |
| `TagIndex.TagCount` | app.js:543 | the count is the number of people whose tags contain the tag exactly, so at most the number of people, and positive iff some person carries it |
| `TagIndex.ListedTagsCounted` | app.js:536-543 | every listed tag is shown with a count between 1 and the number of people |
| `Query.TagFilterOn` | app.js:315 | the tag filter is on only for a truthy `filterTag`: none, or the empty tag, turns it off |
| `Query.ByTag` | app.js:314-316 | with the tag filter on, a person is kept iff their tags contain the tag exactly, with all their copies, and dropped entirely otherwise; with it off, the list is left as it is |
| `Query.MatchesQuery` | app.js:326-329 | the search test lets every person through for an empty query |
| `Query.View` | app.js:312-331 | the view is a subsequence of the list; with the tag filter on every shown person carries the tag; an empty query skips the search; a non-empty one keeps exactly the tag step's people whose lower-cased name, some tag, or non-empty memo contains the lower-cased query, each with as many copies as the tag step holds |
| `Query.SearchNarrowsTagView` | app.js:323-331 | adding a query only narrows the tag-filtered view, keeping its order |
| `Query.SearchFindsTagPrefix` | app.js:325-328 | a search for "fri" finds a person tagged "friend" |

## Left out

- `sw.js` (the service worker's caching) is not part of this model. It holds no data logic.
- DOM rendering, toasts, showing the modal, `navigateTo`, `showDetail`, `openForm`,
  `renderFormTags` and the HTML strings are left out. The render methods return the
  records and badges they would draw.
- `JSON.parse`/`JSON.stringify` and `localStorage` are left out. The parsed document is a
  datatype (None when parsing threw), and the snapshot is the field `stored`. A missing
  string field of a parsed record reads as "", which JavaScript treats as falsy too.
- Non-string ids or names, `null` records, and extra fields of a parsed document are not
  modelled.
- The snapshot is an ordinary field rather than ghost state, because `Load` copies it
  back into the list.
- The export download (Blob, object URL, file name) and the date text of the import
  dialog are left out. `Export` builds only the document.
- Randomness, the clock and `confirm()` become parameters: a fresh id, a palette index,
  an opaque timestamp string, and a boolean confirmation.
- `SavePerson`: the freshness of a generated id is a precondition, because
  `generateId` does no collision check. An edited id must be live, because the code
  dereferences `find(...)` without a guard (app.js:492).
- The `FileReader` step of `readImportFile` (app.js:76-77 and 100) is left out. The read is
  asynchronous and has no `onerror` handler, so a failed read does nothing. `ReadImportFile`
  takes the parsed document as a parameter, so neither the read nor its failure is modelled.
- `updateStats` is left out. Its size in KB uses floating-point division and `toFixed`.
- `Utils.compressImage` (FileReader, canvas, floating-point crop) is left out. The
  avatar is an opaque optional string.
- `Text.Upper`, `Text.Lower`: map ASCII letters only, not Unicode `toUpperCase`/`toLowerCase`.
- Strings are sequences of code points. JavaScript counts UTF-16 code units in
  `charAt`, so a name starting with a character outside the BMP differs.
- `TagIndex.SortStrings`: orders by code point, where `sort()` orders by UTF-16 code unit.
  The two differ only between characters above U+FFFF and those in U+E000–U+FFFF.
- `ImportMerge`: the toast and the re-render after the merge are left out.
- `Save`: `localStorage.setItem` can throw, for example when the quota is full, after
  the list has already changed (app.js:499 or 502 then 505, app.js:145 or 150 then
  155, app.js:171 then 172, app.js:514 then 515). The model's `Save` always succeeds,
  so it does not capture a list that changed but was not stored. In `importMerge`
  (app.js:156) and in `importOverwrite` (app.js:173) the throw would also skip
  `hideImportModal`, leaving the pending import set.
- `Validate`: the record check (app.js:88) tests only that `tags` is an array. An
  imported array holding a non-string makes `tag.toLowerCase()` throw during a search
  (app.js:328). The model types tags as strings, so that failure is not represented.
- `SplitWhitespace`: its contract pins the first two pieces, which are all `getInitials`
  reads. Later pieces are only known to be blank-free, and `SplitJoinWords` gives the
  whole result for words joined by single spaces.

## Findings

| source | as written | input that shows it | evidently intended | confidence | as-written member | corrected member |
|---|---|---|---|---|---|---|
| app.js:218-225 | `getInitials` trims the name to count its words, but for a single word takes the first character of the untrimmed name | `" Bob"`: trimmed to one word, so the initial is `" "` | the first character of the trimmed name, `"B"` | not executed | `Text.InitialsOfPaddedWord` | `Text.IntendedInitialsVisible` |
