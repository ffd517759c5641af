# GeckoT interval logic in Dafny

This project models the part of the GeckoT time tracker that decides things about time intervals. Each record is a time
interval with tags, and the code covered here works on those intervals:

- the record/tag store of the data manager (`SRC/data.js`): adding, deleting, updating and looking up records; conflict
  detection; splitting an edited record around a conflicting one; the merging import; per-tag statistics; and the two
  duration formatters;
- the parts of the application (`SRC/app.js`) that compute on intervals: the report statistics with excluded tags, the
  lane layout of the day timeline, the keyboard focus of the record modal, the timer's start/stop, and the contrast
  colour of tag chips.

Instants are integer milliseconds, and durations are whole seconds. `Math.round(ms / 1000)` is `Intervals.RoundSeconds`.

The two stored lists are the `records` and `tags` fields of `Store.RecordStore`. The source reads each list from
localStorage and writes it back whole, so here those reads and writes are reads and assignments of the fields. The
page-level `state` object is `App.App`.

Code that changes state step by step is written as methods with loops:

- `detectConflicts`, `importDataMerge` and `getStatsByTags`;
- the column assignment of the timeline;
- `getFilteredStats`.

Each method is proved equal to a specification function, and the properties are proved as lemmas about those
functions. Pure arithmetic (`formatDuration`, `formatTime`, `getContrastColor`) is written as functions.

Modules:

| file | module | contents |
|---|---|---|
| `options.dfy` | `Options` | `Option` |
| `intervals.dfy` | `Intervals` | rounding to seconds, the half-open overlap test |
| `records.dfy` | `Records` | `Record`, `Tag`, `RecordUpdate`, deletion by id, first index |
| `conflicts.dfy` | `Conflicts` | conflict detection and the split of a record around a conflict |
| `merge.dfy` | `Merge` | the tag and record merging of the import |
| `sorting.dfy` | `Sorting` | JavaScript's stable `sort` with a numeric key |
| `stats.dfy` | `Stats` | `getStatsByTags` and `getFilteredStats` as functions |
| `format.dfy` | `Format` | `formatDuration`, `formatTime` and readers that invert them |
| `timeline.dfy` | `Timeline` | clipping, sorting, column assignment and slot counts of the day view |
| `contrast.dfy` | `Contrast` | `getContrastColor` |
| `store.dfy` | `Store` | the `RecordStore` class and the store's loops |
| `app.dfy` | `App` | the modal keyboard machine and the `App` class (timer, report statistics) |

Fresh ids from `generateUUID` are method parameters (`newId`, `id1`, `id2`). The instant `new Date()` is a parameter
`now`.

## Model

| member | source | states |
|---|---|---|
| Intervals.RoundSeconds | SRC/data.js:132 | the rounded seconds `s` satisfy `s*1000-500 <= ms < s*1000+500`; `s > 0` exactly when `ms >= 500`; `s` is non-negative for a non-negative `ms` |
| Intervals.RoundSecondsUnique | SRC/data.js:132 | `Math.round` is the only integer in that rounding window |
| Intervals.RoundSecondsMonotonic | SRC/data.js:132 | rounding to seconds preserves order |
| Intervals.Overlaps | SRC/data.js:127 | for non-empty intervals, the test `start < rEnd && end > rStart` holds exactly when `[max, min)` is non-empty; touching intervals do not overlap |
| Intervals.OverlapsIffSharedInstant | SRC/data.js:127 | the overlap test holds exactly when the two half-open intervals share an instant |
| Records.ApplyUpdate | SRC/data.js:94-100 | every given field overwrites the record's field and the id is kept; when a bound is given, the duration is the rounded length of the new interval; otherwise the duration is the given one or the old one |
| Records.Without | SRC/data.js:83-87 | no record with the id remains; a record stays exactly when it was stored with another id |
| Records.WithoutKeepsOthers | SRC/data.js:85 | deleting an absent id leaves the list unchanged |
| Records.WithoutRemovesOne | SRC/data.js:85 | with unique ids, deleting removes exactly the one record at its index and keeps the order of the rest |
| Records.WithoutAppend | SRC/data.js:85 | filtering a concatenation filters each part |
| Records.WithoutUnique | SRC/data.js:85 | deleting keeps ids unique |
| Records.AppendUnique | SRC/data.js:200 | joining two lists with unique ids and no shared id keeps ids unique |
| Records.FirstIndex | SRC/data.js:92 | `findIndex` returns -1 exactly when the id is absent; otherwise it is the first index holding the id |
| Conflicts.ConflictsIn | SRC/data.js:114-143 | every detected conflict is with a stored record whose id differs and whose interval passes the half-open test, and every such record is detected |
| Conflicts.ReportedIndices | SRC/data.js:120-140 | the increasing list of exactly the indices of the records the loop reports |
| Conflicts.ConflictsInAtIndices | SRC/data.js:114-143 | entry by entry, the k-th conflict is the one with the k-th reported record, so there is one entry per reported record, in store order |
| Conflicts.FirstConflictIsFirstReported | SRC/data.js:114-143 | the conflict the edit form shows and resolves first (`conflicts[0]`) is the one with the first reported record in store order |
| Conflicts.ConflictBounds | SRC/data.js:129-139 | each conflict carries `max(start, rStart)` and `min(end, rEnd)` and the rounded length between them; for non-empty intervals the overlap is non-empty and inside `[start, end)` |
| Conflicts.DisjointStoreHasNoConflicts | SRC/data.js:127 | a store whose records only touch or miss `[start, end)` reports no conflict |
| Conflicts.Pieces | SRC/data.js:162-195 | at most two pieces; each copies description and tags under `id1` or `id2`, has its recomputed duration, and is the non-empty part of the record before the conflict or after it; with two pieces the first (`id1`) starts where the record starts and the second (`id2`) ends where it ends |
| Conflicts.KeepPositive | SRC/data.js:199 | a fragment is kept exactly when its duration is positive |
| Conflicts.KeepPositiveAppend | SRC/data.js:199 | the filter keeps the fragments in their order: filtering a concatenation filters each part |
| Conflicts.SplitAsWritten | SRC/data.js:162-199 | the saved replacement holds at most two pieces of the record, each with a positive duration |
| Conflicts.SplitAsWrittenFragments | SRC/data.js:162-199 | at most two fragments are kept; each lies inside the edited interval, misses the conflicting interval, has a positive recomputed duration, and copies description and tags under `id1` or `id2` |
| Conflicts.SplitAsWrittenCovers | SRC/data.js:162-199 | for overlapping records, an instant of the edited interval outside the conflict is kept exactly when its leftover piece is at least 500 ms long |
| Conflicts.SplitAsWrittenDropsDisjointRecord | SRC/data.js:162-198 | as written: a conflicting record that does not overlap the stored interval produces no fragment, so the record is deleted |
| Conflicts.SplitAsWrittenExample | SRC/data.js:162-198 | as written: 09:00-10:00 split around 11:00-12:00 yields nothing |
| Conflicts.SplitCovers | SRC/data.js:159-204 | corrected split: it keeps no instant of the conflict, and keeps every other instant of the record unless that leftover piece is shorter than 500 ms |
| Conflicts.Split | SRC/data.js:159-204 | corrected split: a conflict that does not overlap the record leaves exactly the record; an overlapping one leaves at most two pieces with positive durations |
| Conflicts.ContainmentExample | SRC/data.js:163-178 | a conflict strictly inside gives `[start, cStart)` and `[cEnd, end)` with their durations |
| Conflicts.FullCoverExample | SRC/data.js:197-198 | a record covered entirely yields no fragment |
| Merge.Lower | SRC/data.js:516 | lowercasing keeps the length and lowers each ASCII letter |
| Merge.NameIndex | SRC/data.js:514-517 | every key maps to a tag of the list with that lowercased name, and every tag's name is indexed |
| Merge.MergeStepInv | SRC/data.js:523-535 | one tag step keeps the merge invariant, maps the tag's id, indexes its name, appends the tag or nothing, and never changes an indexed name |
| Merge.MergeTags | SRC/data.js:519-535 | the merged tag list starts with the existing tags; the appended tags have names new to the list and to each other, ignoring case; every mapped id points to a tag of the list |
| Merge.MergeTagsMapsAll | SRC/data.js:523-535 | every imported tag ends up mapped and its name indexed |
| Merge.MergeTagsAppendsImports | SRC/data.js:530 | only imported tags are appended |
| Merge.MergeTagsIndexGrows | SRC/data.js:524-533 | a name indexed partway through the import keeps its tag until the end |
| Merge.MergeTagsMapsByName | SRC/data.js:524-532 | an imported tag's id maps to the id of the tag indexed under its lowercased name |
| Merge.Remap | SRC/data.js:544 | each tag id is replaced by its mapping; an unmapped id is kept; every other field is unchanged |
| Merge.RemapTag | SRC/data.js:544 | a tag id with a non-empty mapping becomes its mapping; otherwise it is kept; a non-empty id never becomes empty |
| Merge.MergeRecords | SRC/data.js:538-549 | at most one record per import, and no appended record has an id stored before the import |
| Merge.MergeRecordsMembers | SRC/data.js:538-549 | the appended records are exactly the remapped imports whose id was not stored before the import |
| Merge.MergeRecordsAppend | SRC/data.js:538-549 | records are appended in import order: merging a concatenation appends the merge of each part in turn |
| Merge.MergeTagsKnownNames | SRC/data.js:523-535 | imported tags whose names are all known add no tag |
| Merge.MergeRecordsKnownIds | SRC/data.js:538-549 | imported records whose ids are all stored add no record |
| Merge.ImportOwnSnapshotAddsNothing | SRC/data.js:508-557 | importing a snapshot of the store's own tags and records adds nothing |
| Sorting.InsertMultiset | SRC/app.js:1336 | inserting adds exactly the new element |
| Sorting.InsertSorted | SRC/app.js:1336 | inserting keeps the list sorted |
| Sorting.InsertStable | SRC/app.js:1336 | the inserted element goes before all elements with its key |
| Sorting.SortByPermutation | SRC/app.js:1336 | sorting only reorders: the output has the same elements, with the same multiplicities |
| Sorting.SortBySorted | SRC/app.js:1336 | the output is ordered by key |
| Sorting.SortByStable | SRC/app.js:1336 | the elements with any given key appear in the output in their input order |
| Sorting.SortByFacts | SRC/app.js:1336 | the sort is a permutation, is sorted by key, and keeps the input order among equal keys |
| Sorting.SortByDistinct | SRC/app.js:962 | sorting keeps names distinct |
| Sorting.FirstOfKeyStaysFirst | SRC/app.js:1079 | the first input element stays first among the elements with its key |
| Stats.Pairs | SRC/data.js:377 | one contribution per entry of the record's tag list |
| Stats.SumForIsTagTime | SRC/data.js:375-383 | the flattened per-tag sum equals the tag's time: each record's duration once per mention of the tag |
| Stats.OccurrencesAtMostOne | SRC/data.js:377 | a tag list without repeats names a tag at most once |
| Stats.TagTimeAtMostTotal | SRC/data.js:371-392 | with non-negative durations and no repeated tag in a record, a tag's time is between 0 and the total |
| Stats.InitialStats | SRC/data.js:367-374 | every known tag id starts at duration 0 and count 0 with a tag carrying that id |
| Stats.InitialStatsLastWins | SRC/data.js:369-374 | when two tags share an id, the entry holds the last of them |
| Stats.TallyAdds | SRC/data.js:377-382 | tallying keeps the known ids; each gains exactly its own contributions and their count; unknown ids are ignored |
| Stats.StatsByTagsMeaning | SRC/data.js:363-399 | `byTag` holds exactly the known tag ids, each with its tag, its time and its record count |
| Stats.ExclusionPartitionsTotal | SRC/app.js:935-941 | a consistency check of the model: the included total and the complementary excluded total add up to the full total, so each record is counted whole or not at all |
| Stats.NothingExcludedCountsAll | SRC/app.js:935-941 | with no excluded tag carried, the report total is the full total |
| Stats.IncludedTotal | SRC/app.js:935-941 | with non-negative durations the report total lies between 0 and the total of all records |
| Stats.AccumulateMeaning | SRC/app.js:944-949 | the accumulated key order lists each carried tag id once and nothing else; each sum is that tag's contributions |
| Stats.LookupTag | SRC/app.js:956-958 | the entry's tag is the first stored tag with the id; the placeholder is used exactly when no stored tag has the id |
| Stats.Entries | SRC/app.js:953-963 | the entries are the non-excluded accumulated ids with their sums and looked-up tags; every non-excluded id gets one |
| Stats.ByTag | SRC/app.js:953-964 | the per-tag list is a permutation of the entries and runs from the longest to the shortest time |
| Stats.ByTagDistinct | SRC/app.js:953-964 | each tag id appears at most once |
| Stats.ByTagEntries | SRC/app.js:944-963 | each entry is non-excluded and carries the tag's full time, including excluded records, and the looked-up tag |
| Stats.ByTagComplete | SRC/app.js:944-963 | every non-excluded tag id carried by a record has an entry |
| Stats.ExcludedTagExample | SRC/app.js:926-964 | work 3600 s and game 1800 s, with game excluded: total 3600, game's time 1800, and the per-tag list has an entry for work and none for game |
| Format.NatToString | SRC/data.js:585 | decimal text is non-empty, all digits, and has no leading zero |
| Format.DecimalValueOfNatToString | SRC/data.js:585 | reading decimal text gives back its number |
| Format.FormatDuration | SRC/data.js:578-588 | a zero or negative count prints `0m`; every text ends in `m`; the text has an hours part exactly when the count is at least 3600 seconds |
| Format.FormatDurationRoundTrip | SRC/data.js:578-588 | the printed hours and minutes read back; the minutes are below 60, and the read-back time is within the minute below `seconds` |
| Format.ReadDurationText | SRC/data.js:584-587 | both printed forms, `Hh Mm` and `Mm`, read back to their hours and minutes |
| Format.ReadDurationOfFormat | SRC/data.js:578-588 | the text reads back to `(seconds / 3600, (seconds % 3600) / 60)` |
| Format.JsRem | SRC/data.js:593-594 | JavaScript's `%` agrees with `%` for a non-negative dividend and stays strictly between `-b` and `b` |
| Format.FormatTime | SRC/data.js:590-596 | for a non-negative count the text ends in two two-character fields `:MM:SS` after the hours; a negative count prints a leading minus sign |
| Format.FormatTimeRoundTrip | SRC/data.js:591-596 | for a non-negative count, the `HH:MM:SS` text reads back to the same number of seconds |
| Timeline.Clip | SRC/app.js:1318-1333 | every block belongs to a record, is its clip `[max(start, ws), min(end, we))`, and is non-empty inside the window |
| Timeline.ClipKeepsOverlapping | SRC/app.js:1318-1333 | a record gets a block exactly when it and the window are non-empty and overlap |
| Timeline.ClipAppend | SRC/app.js:1318-1333 | clipping keeps the record order: the blocks of a concatenation are the blocks of each part, in order |
| Timeline.ClipSplitsAtNoon | SRC/app.js:1280-1284 | for a record inside one day, the lengths of its blocks in the AM column and in the PM column add up to its length |
| Timeline.BlocksOverlapIsOverlap | SRC/app.js:1341 | for non-empty blocks, the block test is the half-open overlap test |
| Timeline.Used | SRC/app.js:1339-1346 | `usedColumns` holds exactly the columns of the earlier blocks that overlap; its length is their number |
| Timeline.FirstFree | SRC/app.js:1348-1349 | the result is not in use and every column from the start up to it is |
| Timeline.Columns | SRC/app.js:1338-1352 | one column per block, none negative |
| Timeline.ColumnsFree | SRC/app.js:1338-1352 | a column is non-negative and is not used by an earlier overlapping block |
| Timeline.ColumnsMinimal | SRC/app.js:1338-1352 | every smaller column is taken by an earlier overlapping block |
| Timeline.OverlappingBlocksDiffer | SRC/app.js:1338-1352 | two overlapping blocks never share a column |
| Timeline.FirstFreeAtMostUsed | SRC/app.js:1348-1349 | the first free column is at most the number of columns in use |
| Timeline.ColumnBelowSlotCount | SRC/app.js:1348-1358 | a non-empty block counts itself, so its slot count is at least 1 and its column is below it |
| Timeline.Layout | SRC/app.js:1318-1336 | the blocks of a column are a permutation of the clipped blocks, in clipped-start order |
| Timeline.ActiveRecordFirstAmongTies | SRC/app.js:1257 | the running record, put first, comes first among the blocks that start where it does |
| Timeline.ThreeWayOverlapExample | SRC/app.js:1318-1359 | records 09:00-10:00, 09:30-10:30, 09:45-10:15 and 11:00-11:30 in a noon column: the layout keeps them in start order, the first three take columns 0, 1 and 2 with a slot count of 3, and the last takes column 0 with a slot count of 1 |
| Timeline.AssignColumns | SRC/app.js:1338-1352 | the loop assigns exactly the first-fit columns |
| Timeline.UsedColumns | SRC/app.js:1339-1346 | the inner loop collects the columns of the overlapping blocks that already have one, which are the earlier ones |
| Timeline.FirstFreeColumn | SRC/app.js:1348-1349 | the `while (usedColumns.includes(col)) col++` loop finds the first free column |
| Timeline.CountSlots | SRC/app.js:1354-1359 | each `totalColumnsInSlot` is the number of blocks overlapping the block, itself included |
| Timeline.LayoutColumn | SRC/app.js:1318-1359 | the blocks are the sorted clips; the columns are exactly the first-fit columns and each total is the number of blocks overlapping the block; every column is non-negative and below its slot count; overlapping blocks get different columns |
| Contrast.ParseHex | SRC/app.js:1923-1925 | `parseInt(…, 16)` is NaN exactly when the text is empty or does not start with a hex digit |
| Contrast.ContrastColor | SRC/app.js:1922-1928 | the result is one of the two text colours |
| Contrast.ParseHexByte | SRC/app.js:1923-1925 | two hex digits read back to their byte |
| Contrast.ContrastOfWellFormed | SRC/app.js:1922-1928 | for `#rrggbb`, the text is dark exactly when `r*299 + g*587 + b*114 > 128000` |
| Contrast.ContrastMonotonic | SRC/app.js:1926-1927 | brightening any channel of a colour with dark text keeps the text dark |
| Contrast.ShortColorGetsLightText | SRC/app.js:1923-1927 | a colour with no first channel (NaN) gets light text |
| Contrast.LightBlueGetsDarkText | SRC/app.js:1922-1928 | the light blue `#7dd3fc` gets dark text |
| Contrast.PureBlueGetsLightText | SRC/app.js:1922-1928 | pure blue `#0000ff` gets light text |
| Store.RecordStore.constructor | SRC/data.js:45-64 | the store holds the given records and tags |
| Store.RecordStore.AddRecord | SRC/data.js:67-80 | exactly one record, with the given fields and the new id, is appended and returned; the tags are unchanged |
| Store.RecordStore.DeleteRecord | SRC/data.js:83-87 | the records become those with another id, in order |
| Store.RecordStore.GetRecordById | SRC/data.js:108-111 | the result is nothing exactly when the id is absent; otherwise it is the first record with the id |
| Store.RecordStore.UpdateRecord | SRC/data.js:90-105 | with the id absent, nothing is returned or changed; otherwise only the first record with the id is replaced by its update, which is returned |
| Store.RecordStore.DetectConflicts | SRC/data.js:114-143 | the loop returns exactly the conflict list of the stored records; nothing is changed |
| Store.RecordStore.SplitRecordToRemoveOverlap | SRC/data.js:146-204 | corrected: a missing id returns nothing and saves nothing; an overlap replaces the record by its kept fragments after the other records; no overlap leaves the store as it was |
| Store.RecordStore.ImportDataMerge | SRC/data.js:508-557 | the tags become the merged tags; the records gain the remapped imports whose ids were not stored; both counts are what was appended |
| Store.RecordStore.GetStatsByTags | SRC/data.js:363-399 | the loops compute the specified per-tag statistics and the total |
| Store.ZeroStats | SRC/data.js:367-374 | the first loop sets every tag to zero |
| Store.TallyRecord | SRC/data.js:376-383 | the inner loop adds one record's contributions |
| Store.IndexByName | SRC/data.js:514-517 | the loop builds the name index |
| Store.MergeTagLoop | SRC/data.js:519-535 | the tag loop computes the specified merge |
| Store.MergeRecordLoop | SRC/data.js:537-549 | the record loop appends the specified records and counts them |
| Store.AddThenDeleteRestores | SRC/data.js:67-87 | deleting a record just added under a fresh id restores the store |
| Store.AddFreshKeepsUnique | SRC/data.js:67-80 | adding under a fresh id keeps ids unique |
| Store.UpdateKeepsUnique | SRC/data.js:90-105 | an update keeps ids unique and leaves every record with another id unchanged |
| Store.DuplicateImportsBothAppended | SRC/data.js:512-549 | the stored-id set is fixed before the loop, so two imports sharing a new id are both appended |
| Store.SplitKeepsStoreConsistent | SRC/data.js:146-204 | with fresh fragment ids, the corrected split keeps ids unique and the conflicting record stays stored |
| Store.SplitIds | SRC/data.js:163-196 | the split yields at most two records: the record itself, or fragments with the new ids, in order |
| App.ModalKey | SRC/app.js:533-610 | an unhandled key leaves focus and effect alone; other keys are never handled; only Up and Down change section; Space clicks only the focused existing tag; Enter without modifiers outside the description starts the timer; `n` opens the tag modal only from the tag row or with the description unfocused |
| App.ModalKeyKeepsFocusValid | SRC/app.js:533-610 | every key keeps the focus valid (none in the description; none or an existing tag in the tag row), also after tags were added |
| App.SpaceClicksFocusedTag | SRC/app.js:583-592 | with a valid focus, Space on a focused tag clicks that existing tag |
| App.ArrowsRotate | SRC/app.js:563-580 | right is +1 and left is -1 modulo the tag count |
| App.ArrowsUndo | SRC/app.js:563-580 | left undoes right and right undoes left |
| App.DownThenUp | SRC/app.js:542-561 | down from the description enters the tags at index 0, or -1 with no tags; up returns to the description at -1 |
| App.App.constructor | SRC/app.js:8-27 | the initial state: no timer, empty description and selection, focus in the description |
| App.App.OpenRecordModal | SRC/app.js:496-512 | the modal opens with nothing selected and the focus in the description; nothing else changes |
| App.App.HandleModalKeyboard | SRC/app.js:533-610 | a hidden modal ignores the key; otherwise the focus, the handled flag and the follow-up are those of the key machine; nothing else changes |
| App.App.StartTimer | SRC/app.js:652-687 | the timer runs from `now` with the given description and tags, and the modal closes |
| App.App.StopTimer | SRC/app.js:689-717 | with no timer running nothing changes; otherwise exactly one record from start to `now` with its rounded duration is appended, and the timer state is reset |
| App.App.GetFilteredStats | SRC/app.js:922-967 | the loop computes the specified report total and per-tag list |
| App.AccumulateRecord | SRC/app.js:944-949 | the inner loop adds one record's tag durations in first-seen key order |
| App.AddDurationIsStep | SRC/app.js:945-948 | create-at-zero-then-add is one accumulation step |

## Left out

- `SRC/reminder.js` is not part of this model: timers, audio, notifications, speech and random message choice.
- localStorage, JSON parsing and printing, Blob downloads and FileReader. The store keeps its lists in fields instead.
- `generateUUID` (it uses `Math.random`). Fresh ids are method parameters, and lemmas that need unique ids require that
  they be fresh.
- Local-calendar arithmetic through `Date`: day, week and month ranges, `formatDate`, export ranges and the
  `toDateString` check before the running record is added to the day view. Time zones and daylight saving are not
  modelled. ISO strings are read as their millisecond values.
- Floating-point presentation values: percentages in both statistics, pixel positions and heights, zoom, and heatmap
  levels. The `percent` field is not part of `Stats.TagStat` or `Stats.TagEntry`.
- DOM rendering, event wiring, toasts, Electron IPC and the debug `fetch` logging.
- `maxColumn` (`SRC/app.js:1351`) is computed but never read, so it is not modelled.
- Timeline.AssignColumns: the source writes `record.column` onto each block object. The model returns the columns as a
  sequence parallel to the blocks.
- Merge.Lower: `toLowerCase` is modelled on ASCII letters only. Other Unicode case mappings are not modelled.
- Contrast.ParseHex: `parseInt`'s leading whitespace, sign and `0x` prefix are not modelled. A colour slice
  starting with them reads as NaN here.
- Store.RecordStore.AddRecord: the `|| ''` and `|| []` defaults for a missing description or tag list are not modelled.
  A record always has both. Likewise `record.duration || 0` in the statistics.
- Records.ApplyUpdate: an `updates` object carrying an `id` is not modelled, because the callers never pass one.
- App.App.StartTimer: the description is passed in already trimmed, and the selected tag ids are passed in as read from
  the page. `trim` and the selection query are not modelled.
- App.App.HandleModalKeyboard: the follow-up actions (clicking the focused tag, opening the tag modal, starting the timer)
  are returned as an `App.Effect` for the caller to perform. Which element has the page focus is the parameter
  `descFocused`.
- App.App.StopTimer: it requires `TimerValid()` (a running timer has a start time). Every operation of the model keeps
  that invariant. The source never clears one without the other.
- Object-key edge cases of JavaScript dictionaries, such as a tag id equal to an inherited property name, are not
  modelled.

## Findings

| source | as written | input that shows it | evidently intended | confidence | as-written member | corrected member |
|---|---|---|---|---|---|---|
| SRC/data.js:162-198 | When the conflicting record does not overlap the edited record's stored interval, none of the three cases applies. The edited record is then filtered out and nothing replaces it. The conflict comes from `checkEditConflicts` (`SRC/app.js:1815-1836`), which tests the unsaved form times, and `fixCurrentConflict` (`SRC/app.js:1839-1855`) then splits the stored record. | The stored record is 09:00-10:00. The form is changed to 10:30-11:30, which conflicts with a stored 11:00-12:00 record. Fixing the conflict deletes the 09:00-10:00 record. | A conflict that does not touch the stored interval leaves the record as it is. | not executed | Conflicts.SplitAsWrittenDropsDisjointRecord | Conflicts.SplitCovers |
