# Clipboard history: a Dafny model

This project models the core of a clipboard manager that runs as a Tauri
desktop application. The model is split into modules:

- **Ingest** (`ingest.dfy`): the clipboard monitor of `src/index.tsx`.
  - Each clipboard change is classified by probe precedence: files, then image, then HTML, then text, otherwise `null`.
  - The active window's executable name is taken as the last path segment.
  - A payload equal to the previous one of its slot is dropped. Images have one slot; all text-like kinds share the other.
  - Plain text is promoted to `color` or `url`.
  - The monitor then issues one `save_clipboard_to_db` call and emits `clipboard_saved`.
- **HistoryStore** (`history_store.dfy`): the SQLite store of `src-tauri/src/api/db.rs`.
  - The `clipboard` table is a sequence of rows in rowid order. Its `clipboard_fts` index is a map from rowid that the three triggers keep a mirror of the table.
  - It models the insert/amend/delete commands, including the OCR amendment of image rows.
  - It models `get_history`: it keeps the newest row of each distinct content, then applies the FTS filter, `ORDER BY`, and `LIMIT`/`OFFSET`.
- **GroupedHistory** (`grouped_history.dfy`): the front-end store access of `src/utils/db.ts`.
  - `saveClipboardToDB` inserts a row without an image.
  - `getHistory` has `LIKE`-based filters and `GROUP BY content, window_title, window_exe, type` with `COUNT(*)` and `MAX(date)`, then ordering and paging.
- **Navigation** (`navigation.dfy`): the list state of `src/App.tsx`.
  - Arrow keys move the active index with clamping.
  - The offset is bumped near the end of the list or near the bottom of the scroll area.
  - `updateHistory` buckets each fetched page by relative-date label and merges it into the record it holds.
- **Highlight** (`highlight.dfy`): `highlightText` of `src/utils/highlight.tsx`, which splits the text around the case-insensitive occurrences of the query and marks them.
- **ClipboardList** (`clipbpard-list.tsx`, modelled in `clipboard_list.dfy`): the row sequence the list renders, namely loading placeholders, the empty state, or entries with date headers.
- **ClipboardItem** (`clipboard_item.dfy`): the icon and caption chosen for each entry type in `src/components/clipboard-item.tsx`.
- **Shared modules**:
  - `Ordering`: SQLite key order, a stable sort and `LIMIT`/`OFFSET`.
  - `Text`: JavaScript `trim`, `split` and `join`, and ASCII case folding.
  - `Seqs`: filters and duplicate-freedom.
  - `Wrappers`: `Option` and `Result`.

Imperative code keeps its form. The monitor (`Ingest.Monitor`), the database handle (`HistoryStore.Store`) and the App signals (`Navigation.HistoryView`) are classes whose methods update their fields. Each method is proved against a function on values (`Ingest.Ingest`, `HistoryStore.WithContent`/`Without`, `Navigation.Merge`/`Bucketed`), and lemmas state the properties of those functions. The `reduce` that buckets a page is a loop (`Navigation.HistoryView.BucketPage`). Queries and rendering are pure functions.

## Model

| member | source | states |
|---|---|---|
| Ingest.SelectKind | src/index.tsx:38-46 | The kind is `null` exactly when no probe reports one; otherwise it is a reported kind and no kind of higher precedence was reported. |
| Ingest.ExeNameIsBasename | src/index.tsx:51-52 | The window executable is a suffix of the process path. If the path is empty or ends in a separator it is the whole path. Otherwise it holds no `/` or `\` and starts right after a separator or at the start of the path. |
| Ingest.UrlHasNoSpace | src/index.tsx:83-84 | Content that passes the URL pattern contains no white space, so trimming does not change it. |
| Ingest.UrlAndColorExclusive | src/index.tsx:83-89 | No content is both a URL and (trimmed) a colour literal. |
| Ingest.FilesAlwaysSaved | src/index.tsx:54-64 | A file list is always saved, comma-joined, with type `files` and no image, and the guard is left alone. |
| Ingest.ImageGuard | src/index.tsx:65-77 | An image is saved exactly when it differs from the previous image. It is then remembered and saved with empty content and the image payload. The text slot is untouched. |
| Ingest.TextGuard | src/index.tsx:78-82 | Text-like content is saved exactly when it differs from the previous text. It is then remembered and saved unchanged, with no image. The image slot is untouched. |
| Ingest.PromotionOnlyFromText | src/index.tsx:83-98 | The saved type is `color` iff the kind is text and the trimmed content is a colour literal, and `url` iff the kind is text and the content is a URL. Any other save keeps the probed kind, or `null`. |
| Ingest.StepSlot | src/index.tsx:65-81 | One change either saves a payload new to its slot and remembers it, or leaves that slot's memory unchanged. |
| Ingest.NoConsecutiveDuplicates | src/index.tsx:65-81 | Across any sequence of changes handled one at a time, consecutive saves in one slot never carry equal payloads, and the first save differs from the initial memory. |
| Ingest.Monitor.constructor | src/index.tsx:29-30 | Both slots start as the empty string. |
| Ingest.Monitor.SaveClipboard | src/index.tsx:32-100 | The new guard and the recorded save call are those of `Ingest` on the old guard. |
| Ingest.Monitor.OnClipboardUpdate | src/index.tsx:104-107 | Does what `SaveClipboard` does, then emits `clipboard_saved` once `saveClipboard` resolves, also when the guard dropped the change. |
| Ordering.SortBy | src-tauri/src/api/db.rs:196-201 | The ordered rows are a permutation of the input, sorted by the key in the given direction. |
| Ordering.PageElements | src-tauri/src/api/db.rs:203-206 | A page is a run of consecutive rows starting at the clamped offset, and holds at most a non-negative limit of them. |
| Ordering.PageIsRun | src/utils/db.ts:85-93 | For natural offset and limit the page holds exactly `min(limit, rows - offset)` rows, starting at row `offset`. |
| Ordering.PagesAdjacent | src/utils/db.ts:85-93 | The pages at offsets 0 and `limit` together are the first `2 * limit` rows. |
| Ordering.PagesDisjoint | src/utils/db.ts:85-93 | When the rows are distinct, the pages at offsets 0 and `limit` share none. |
| HistoryStore.SameIdSameRow | src-tauri/src/api/db.rs:43 | Under the `INTEGER PRIMARY KEY`, two rows with one id are the same row. |
| HistoryStore.UpdateTouchesOnlyContent | src-tauri/src/api/db.rs:131-134 | `UPDATE ... SET content` changes only the rows with that id, and in them only the content. |
| HistoryStore.UpdateMissingIsNoOp | src-tauri/src/api/db.rs:131-134 | Updating an absent id leaves the table unchanged. |
| HistoryStore.UpdateIdempotent | src-tauri/src/api/db.rs:131-134 | Setting the same content twice equals setting it once. |
| HistoryStore.DeleteRemovesOnlyThatId | src-tauri/src/api/db.rs:238 | A row survives the delete iff it was present and has another id. |
| HistoryStore.AscendingAppend | src-tauri/src/api/db.rs:103-114 | A row appended with rowid one above the last keeps rowids ascending, and is above every earlier id. |
| HistoryStore.MirrorsAppend | src-tauri/src/api/db.rs:71-74 | The insert trigger keeps the FTS index an exact mirror of the table's indexed columns. |
| HistoryStore.MirrorsUpdate | src-tauri/src/api/db.rs:79-84 | The update trigger (delete old entry, insert new one) keeps the index a mirror. |
| HistoryStore.MirrorsRemove | src-tauri/src/api/db.rs:75-78 | The delete trigger keeps the index a mirror. |
| HistoryStore.RemoveAtIsWithout | src-tauri/src/api/db.rs:238 | With unique ids, removing the row at a position equals deleting by its id. |
| HistoryStore.Store.constructor | src-tauri/src/api/db.rs:40-66 | A freshly initialised database has an empty table and an empty index, which is a valid state. |
| HistoryStore.Store.Insert | src-tauri/src/api/db.rs:103-114 | Appends exactly the given row, with rowid `NextId` (one above the largest), and keeps the index a mirror. |
| HistoryStore.Store.UpdateContent | src-tauri/src/api/db.rs:124-137 | The table becomes `WithContent(old, id, text)`, and the index stays a mirror. |
| HistoryStore.Store.Delete | src-tauri/src/api/db.rs:235-241 | The table becomes `Without(old, id)`, and the index stays a mirror. |
| HistoryStore.Store.SaveClipboard | src-tauri/src/api/db.rs:93-122 | Inserts one row stamped `now`, with an absent image stored as `""`, and returns its id. For an image, a successful extraction replaces that row's content. A failed extraction is returned as the error and leaves the inserted row. |
| HistoryStore.LatestExists | src-tauri/src/api/db.rs:151-155 | Every content present has a newest row. |
| HistoryStore.LatestEntriesIn | src-tauri/src/api/db.rs:151-158 | A row is joined with `LatestEntries` iff it is the newest row of its content. |
| HistoryStore.OneRowPerContent | src-tauri/src/api/db.rs:151-158 | The joined rows hold exactly one row per distinct content. |
| HistoryStore.SelectedExactly | src-tauri/src/api/db.rs:151-194 | A row is selected iff it is the newest of its content and passes every condition the filter adds. |
| HistoryStore.FilteredAfterLatest | src-tauri/src/api/db.rs:151-194 | When the newest row of a content fails the filter, no row of that content is selected, however old. |
| HistoryStore.EmptyFilterSelectsAll | src-tauri/src/api/db.rs:166-188 | While the index mirrors the table, a filter with no fields (or an empty content) selects exactly the newest row of each content. |
| HistoryStore.MatchSeesRowColumns | src-tauri/src/api/db.rs:68-84 | While the index mirrors the table, `MATCH` is evaluated on each row's own content, title and executable. |
| HistoryStore.SelectedContentsUnique | src-tauri/src/api/db.rs:151-158 | Two selected rows with equal content are the same row. |
| HistoryStore.DistinctSelected | src-tauri/src/api/db.rs:151-158 | The selected rows are pairwise different. |
| HistoryStore.OrderedMembers | src-tauri/src/api/db.rs:196-201 | Every ordered row is the newest of its content and passes the filter. |
| HistoryStore.OrderedContentsDistinct | src-tauri/src/api/db.rs:151-201 | No two ordered rows share a content. |
| HistoryStore.OrderedByDefault | src-tauri/src/api/db.rs:199-201 | Without a sort option, rows come newest date first. |
| HistoryStore.DistinctContents | src-tauri/src/api/db.rs:196-201 | Reordering rows whose contents are unique keeps the contents pairwise distinct. |
| HistoryStore.HistoryPage | src-tauri/src/api/db.rs:203-232 | A successful answer is the page (offset 0 and limit 20 by default) of the ordered rows, mapped entry by entry. |
| HistoryStore.HistoryAnswer | src-tauri/src/api/db.rs:139-233 | A successful answer has at most `limit` entries, each with count 1. Each is the newest row of its content and passes the filter. Contents are pairwise different, and by default dates never increase. |
| GroupedHistory.SaveClipboardToDB | src/utils/db.ts:5-16 | Appends exactly one row with the given five columns, the date `now` and no image, and keeps the store valid. |
| GroupedHistory.LikeLiteralPrefix | src/utils/db.ts:66-68 | A pattern that starts with wildcard-free text matches iff the string starts with that text, ignoring ASCII case, and the rest of the pattern matches the remainder. |
| GroupedHistory.LikeAnything | src/utils/db.ts:66-68 | `%` matches every string. |
| GroupedHistory.LikeLeadingPercent | src/utils/db.ts:66-68 | A leading `%` matches iff the rest of the pattern matches some suffix. |
| GroupedHistory.LikeIsContainment | src/utils/db.ts:66-68 | For wildcard-free `x`, `content LIKE '%x%'` holds iff the content contains `x` ignoring ASCII case. |
| GroupedHistory.UnsetFilterKeepsAll | src/utils/db.ts:51-73 | Filter values that are absent or empty add no condition, so every row is kept. |
| GroupedHistory.KeptExactly | src/utils/db.ts:51-73 | A row is kept iff it meets each given condition: equal type, title and executable, and the content `LIKE`. |
| GroupedHistory.GroupedKeysDistinct | src/utils/db.ts:75-77 | No two groups share a (content, title, exe, type) key. |
| GroupedHistory.GroupedFromRows | src/utils/db.ts:75-77 | Every group is the group of some row. |
| GroupedHistory.GroupedCoversRows | src/utils/db.ts:75-77 | Every row's group is present. |
| GroupedHistory.GroupedCounts | src/utils/db.ts:44-77 | A group's `count` is the number of rows with its key. |
| GroupedHistory.GroupedDatesAttained | src/utils/db.ts:44-77 | A group's `date` is the date of one of its rows. |
| GroupedHistory.GroupedDatesMax | src/utils/db.ts:44-77 | No row of a group is dated later than the group's `date`. |
| GroupedHistory.GroupedTotal | src/utils/db.ts:44-77 | The counts add up to the number of rows grouped. |
| GroupedHistory.OrderedGroupsMembers | src/utils/db.ts:79-83 | The ordered result holds exactly the groups of the kept rows. |
| GroupedHistory.OrderedGroupsDistinct | src/utils/db.ts:75-83 | The ordered result holds no two entries of one group. |
| GroupedHistory.OrderedGroupsCover | src/utils/db.ts:43-77 | Filtering precedes grouping: the group of every kept row is in the result. |
| GroupedHistory.OrderedGroupsFromKept | src/utils/db.ts:43-77 | Every result entry is the group of a kept row. |
| GroupedHistory.OrderedGroupsAggregates | src/utils/db.ts:44-77 | Each count is the size of the group among the kept rows, at least 1. Each date is the latest date of that group's kept rows. |
| GroupedHistory.OrderedGroupsTotal | src/utils/db.ts:44-83 | The result's counts add up to the number of kept rows. |
| GroupedHistory.DefaultOrderIsLatestFirst | src/utils/db.ts:79-83 | Without a sort option, groups come latest `MAX(date)` first. |
| GroupedHistory.ConsecutivePages | src/utils/db.ts:85-93 | The pages at offsets 0 and `limit` are adjacent runs of the ordered groups and share no entry. |
| Navigation.FlatLength | src/App.tsx:21-24 | The summed bucket lengths equal the number of entries held. |
| Navigation.ArrowsClamp | src/App.tsx:25-28 | ArrowDown gives `min(i + 1, n - 1)` and ArrowUp gives `max(i - 1, 0)`. |
| Navigation.IndexStaysInRange | src/App.tsx:25-28 | An active index inside the list stays inside it after any key. |
| Navigation.IndexUnchanged | src/App.tsx:25-28 | Non-arrow keys, and any key on an empty list, leave the index unchanged. |
| Navigation.UpsertItems | src/App.tsx:65-68 | Pushing onto a label's bucket appends to that label's entries and leaves every other label's entries alone. |
| Navigation.UpsertKeys | src/App.tsx:65-68 | After the push the labels are the old ones plus the pushed one. |
| Navigation.UpsertUnique | src/App.tsx:65-68 | The push keeps labels unique. |
| Navigation.UpsertTotal | src/App.tsx:65-68 | The push grows the entry count by the number pushed. |
| Navigation.BucketedContents | src/App.tsx:63-70 | Each label of the bucketed page appears once. Its entries are exactly the page's entries with that label, in page order, and the entry count equals the page length. |
| Navigation.MergeContents | src/App.tsx:71-79 | The spread merge keeps labels unique, gives each label its previous entries followed by the incoming ones, and adds the counts. |
| Navigation.MergeKeepsIndexValid | src/App.tsx:71-79 | An index inside the list before a merge is still inside it after. |
| Navigation.HistoryView.constructor | src/App.tsx:10-14 | Index 0, offset 0 and an empty record. |
| Navigation.HistoryView.HandleKeyDown | src/App.tsx:20-48 | The index becomes `NextIndex` and the record is unchanged. When an arrow key leaves the index within five of the end, the offset grows by 20 and a fetch at the new offset is requested; otherwise nothing is requested. |
| Navigation.HistoryView.HandleScroll | src/App.tsx:50-58 | Within five pixels of the bottom of a mounted scroll area, the offset grows by 20 and that page is requested; otherwise nothing changes. |
| Navigation.HistoryView.BucketPage | src/App.tsx:63-70 | The loop's record is `Bucketed(page)`, whose contents `BucketedContents` states. |
| Navigation.HistoryView.UpdateHistory | src/App.tsx:60-81 | The record becomes `Merge(old, Bucketed(page))`, its entry count grows by the page length, and the labels stay unique. |
| Navigation.AsWrittenIsFirstFetch | src/App.tsx:62 | As written, every fetch answers exactly what `getHistory({ offset: 0, limit: 20 })` answers: the destructuring defaults of src/utils/db.ts:27-42 replace the offset and limit passed. |
| Navigation.IntendedFetchPage | src/App.tsx:62 | For a non-negative offset and limit, the intended call answers `min(limit, groups - offset)` groups (none past the end), the run starting at rank `offset` of the newest-first groups. No group ranked after the page is dated later than an entry on it, and none ranked before it earlier. |
| Navigation.AsWrittenAlwaysFirstPage | src/App.tsx:62 | As written, every fetch returns the first 20 groups, whatever its offset. |
| Navigation.AsWrittenLoadMoreDuplicates | src/App.tsx:60-79 | As written, loading more after the first page gives every label its first-page entries twice. |
| Navigation.IntendedPagesAdjacent | src/App.tsx:43-46 | With the intended call, the first page and the next one requested are adjacent and share no entry. |
| Highlight.IndexFrom | src/utils/highlight.tsx:16 | Finds the leftmost case-insensitive occurrence at or after a position, or reports that there is none. |
| Highlight.SplitKeepingConcat | src/utils/highlight.tsx:16 | The split pieces concatenate back to the text. |
| Highlight.SplitKeepingShape | src/utils/highlight.tsx:16 | The pieces alternate: there is an odd number of them, the odd-numbered ones are occurrences of the query, and the even-numbered ones contain none. |
| Highlight.HighlightKeepsText | src/utils/highlight.tsx:14-17 | An empty query leaves the text unchanged. Otherwise there is an odd number of parts and their texts spell the text out. |
| Highlight.MarkedExactlyAtOddPositions | src/utils/highlight.tsx:17-24 | A part is highlighted iff it equals the query ignoring case, which holds iff its position is odd. |
| Highlight.GapsHoldNoOccurrence | src/utils/highlight.tsx:16-24 | No unhighlighted part contains the query. |
| ClipboardItem.FirstPiece | src/components/clipboard-item.tsx:55 | `split(sep)[0]` is the longest prefix without `sep`. |
| ClipboardItem.Label | src/components/clipboard-item.tsx:50-101 | Files show the first comma-separated path. URLs and colours show the whole content. HTML and everything else show the first line of the trimmed content. |
| ClipboardItem.Render | src/components/clipboard-item.tsx:41-103 | Images, and only images, show the PNG data URL. Each other type has exactly one icon: code for HTML, file for files, favicon for URLs, a swatch of the content for colours, a document otherwise. The caption is the highlighted label. |
| ClipboardItem.CaptionSpellsLabel | src/components/clipboard-item.tsx:54-57 | The caption is the label, unchanged for an empty query; otherwise it is in parts that spell the label, highlighted at odd positions. |
| ClipboardItem.FirstLineCaption | src/components/clipboard-item.tsx:97-100 | One-line trimmed text is shown whole. Otherwise the caption stops right before the first line break. |
| ClipboardItem.FilesCaptionIsFirstPath | src/components/clipboard-item.tsx:64 | A file list saved as its comma-joined `toString()` (src/index.tsx:58) is captioned by exactly its first path, when that path holds no comma. |
| ClipboardList.InitialLoadingRows | src/components/clipbpard-list.tsx:37-38 | While the first page loads, the list is exactly ten placeholders. |
| ClipboardList.EmptyHistoryRows | src/components/clipbpard-list.tsx:39-40 | A loaded empty history shows only the empty state for the query. |
| ClipboardList.EntryRowsOfItems | src/components/clipbpard-list.tsx:43-67 | The entry rows are the items in order, each with its index, active exactly at `activeIndex`. |
| ClipboardList.ItemRowsDates | src/components/clipbpard-list.tsx:45-55 | Every entry sits under a header of its own relative date. Headers appear only where that label changes, and each is followed by an entry. |
| ClipboardList.FirstRows | src/components/clipbpard-list.tsx:47-55 | The list opens with the header of the first entry's date. |
| ClipboardList.LoadedRows | src/components/clipbpard-list.tsx:37-75 | A loaded non-empty list starts with its entries' part. That part holds only date headers and entry rows, and ends with the last item's row. Each entry is under its date. Exactly five placeholders follow it when more are loading, and none otherwise. |
| ClipboardList.ActiveRow | src/components/clipbpard-list.tsx:57-60 | At most one row is active, and one is iff `activeIndex` points into the items. |

## Left out

- Text extraction from images (`src-tauri/src/api/image.rs`) is not part of this model. It is the `extract` parameter of `HistoryStore.Store.SaveClipboard`.
- Opening the database and SQL execution errors are not modelled. In the model every statement succeeds, and the only error path is a failed extraction.
- The clock is a parameter: `Utc::now()` and `new Date().toISOString()` are the `now` argument.
- `getRelativeTime` (`src/utils/time.ts`), which depends on the clock and `Intl`, is the `dateLabel`/`relative` function parameter.
- The FTS5 `MATCH` operator is the `Matcher` parameter. FTS5 tokenisation and quoting of values that contain `"` are not modelled.
- HistoryStore.Ordered: the sort column of `get_history` is interpolated into SQL text. The model accepts only the seven table columns, and leaves unmodelled arbitrary column or order strings (including malformed SQL and injection). The same holds for `GroupedHistory.OrderedGroups` and `keyof ClipboardHistory`.
- Ordering.SortBy: SQL leaves the order of rows with equal sort keys open. The model keeps their input order (rowid order, or order of first appearance for groups).
- Tauri deserialisation is not modelled. `Ingest.SaveCall` records a JavaScript `null` type, which the Rust command, expecting a `String`, would reject. The extra `html` argument is ignored by the command.
- `HistoryStore.GetHistory` fails with rusqlite's conversion error when a page row has a NULL image. Rows that `GroupedHistory.SaveClipboardToDB` inserts have one; whether both modules use the same database file depends on configuration that is not part of this model.
- Highlight.HighlightText: the query is taken literally. The source builds a regular expression from it, so a query with metacharacters such as `(` or `*` is interpreted as a pattern or throws, and that is not modelled.
- Highlight.HighlightText: case is folded for ASCII letters only. The `i` flag and `toLowerCase()` also fold other letters.
- JavaScript numbers are modelled as unbounded integers for indices and offsets, and as reals for scroll positions. Floating-point rounding is not modelled.
- Promises that resolve out of order are not modelled: pages are merged in the order `UpdateHistory` is called.
- Ingest.Monitor.OnClipboardUpdate: the model assumes every call inside `saveClipboard` resolves. When `readText`, `readHtml`, `get_current_window` or `save_clipboard_to_db` rejects (the last one does for the `null` type), the source skips the `clipboard_saved` emit, and the model does not capture that.
- Ingest.NoConsecutiveDuplicates: changes are handled one at a time, each run to completion. The source starts a handler run on every change without waiting for the previous one, and the text and HTML branch awaits `readHtml()` between updating `prevText` and the save (src/index.tsx:79-82). Overlapping runs can therefore save an equal payload twice in a row (html "x" read, then "y" saved, then "x" saved, then the first run saves "x"). The property holds in the order of the guard's decisions, not in the order the store receives the saves.
- Object key order: `Navigation.Bucket` lists are in insertion order. JavaScript lists integer-like keys first, but relative-date labels are never integer-like.
- Not modelled:
  - `scrollIntoView` and the DOM references;
  - the `listen` re-fetches, `handleCopy` and `writeText`;
  - the context menu, the favicon URL (`getFaviconUrl`) and the CSS classes.

## Findings

| source | as written | input that shows it | evidently intended | confidence | as-written member | corrected member |
|---|---|---|---|---|---|---|
| src/App.tsx:62 | `getHistory(offset, limit)` passes two numbers, while `getHistory` (src/utils/db.ts:27-42) destructures a single options object. A number has no `offset` or `limit` property, so every call uses offset 0 and limit 20. | Any history of more than 15 groups: ArrowDown to index 15 or beyond requests offset 20, but the first 20 groups come back again and are appended to their labels a second time. With a single stored row, the second fetch shows that entry twice. | `getHistory({ offset, limit })`, so that the page at offset 20 follows the first one with no overlap. | not executed | Navigation.AsWrittenLoadMoreDuplicates | Navigation.IntendedPagesAdjacent |
