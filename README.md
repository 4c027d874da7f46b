# Photon Manga client bookkeeping, modelled in Dafny

This project models the logic of the Photon Manga web front end (a Next.js
site for reading manga) that does more than render:

- the lists the browser keeps in `localStorage`: the recent-reads list
  (`recent_reads`), the read-chapter ids (`read_chapters_v1`), the read
  history hook, the bookmark ids (`bookmarks_v1`), the per-manga progress
  map (`reading_progress_v1`), the anonymous id (`anon_id`) and the daily
  view-bump retry queue (`bump_daily_queue_v1`);
- the pages and widgets that read those lists: the recent page, the
  bookmarks page and the read highlight;
- the pagination arithmetic of the home page, `Pagination` and
  `PaginationFancy` (`getPages` with its `"..."` gaps);
- relative-time labels and the "New!" badge, in their two copies;
- the orderings: the latest three chapters and the chapter drop-down;
- the scroll-driven hide/show rules of the header, the reader bar and the
  desktop top hider, and the search box's highlight;
- the filter links (`URLSearchParams` `set` and `delete` as in section 6.2
  of the WHATWG URL Standard), the navigation bars' active-link rule, and
  the reading-progress API route's checks.

Storage is a class `BrowserStorage.LocalStorage` with one field per key.
Each field holds a `Stored<T>`: absent, unparsable JSON, JSON `null`,
another JSON value, or a value of the expected shape. Every writer states
that it changes its own key and nothing else. Code that updates
variables or objects in place is written as classes and methods: the
read-chapter insert, the bookmark toggles, the retry loops, `getPages`,
`URLSearchParams`, and the three scroll controllers. Each of these methods
is proved against a function, and the properties the code promises are
proved about those functions as lemmas. Database answers, the clock,
random ids and the browser's scroll position are parameters.

The modules follow the source files: `BrowserStorage` (storage.dfy),
`Recent` (lib/recent.ts), `WriteRecentOnMount`, `ButtonsRecentWriter`,
`RecentPage`, `ReadHistory`, `ReadHighlight`, `Bookmarks` (both bookmark
buttons), `BookmarksPage`, `BumpDailyViews`, `ProgressLocal`, `Time`,
`HomePage`, `MangaCard`, `ChapterSelect`, `Pagination`, `PaginationFancy`,
`SearchBox`, `FilterControls`, `Header`, `ReaderBarBehavior`,
`DesktopTopHider`, `Nav` (DesktopBar and BottomNav) and
`ReadingProgressRoute`. `Wrappers`, `Seqs`, `Strings` and `StableSort` hold
what several of them share. `StableSort` is a stable sort by an integer
key pair, which stands in for `Array.prototype.sort` with each
comparator.

## Model

| member | source | states |
|---|---|---|
| `BrowserStorage.ReadersAgree` | lib/useReadHistory.ts:9-19 | `readAll` (the catching read, `Array.isArray(arr) ? arr : []`, also `[]` for a missing value or a parse error) and the throwing read of lib/recent.ts:21-22 (an error for a parse error, `null` or a non-array) agree whenever the latter succeeds; the catching read gives `[]` whenever the throwing one throws; a stored array reads back unchanged through both |
| `Recent.WithoutManga` | lib/recent.ts:27 | the filter keeps exactly the entries of other manga, in their order, and never grows the list |
| `Recent.NextRecentShape` | lib/recent.ts:24-28 | after a save the new entry is first, no later entry shares its manga, and the length is `min(100, 1 + kept)` |
| `Recent.NextRecentKeepsOrder` | lib/recent.ts:26-28 | the entries after the first are the old entries of other manga in their old order, cut only at the tail, and none is lost while under the cap |
| `Recent.NextRecentOnePerManga` | lib/recent.ts:24-28 | a list with one entry per manga keeps that property after a save |
| `Recent.SubseqOnePerManga` | lib/recent.ts:27 | filtering (taking a subsequence) never creates a second entry for a manga |
| `Recent.AfterSave` | lib/recent.ts:19-33 | a read error leaves the stored value untouched; otherwise the stored list starts with the new entry |
| `Recent.SaveRecent` | lib/recent.ts:16-34 | `saveRecent` writes only `recent_reads`, with `at` the supplied time or else `now`, and writes nothing when reading throws |
| `Strings.TrimBlank` | components/SearchBox.tsx:54 | `!s.trim()` holds exactly when every character of the query is ECMAScript white space or a line terminator |
| `Strings.LowerTrim` | app/bookmarks/page.tsx:27 | lower-casing and trimming commute, so the title key does not depend on their order |
| `WriteRecentOnMount.InsertReadChapterShape` | components/WriteRecentOnMount.tsx:42-44 | the id is present afterwards; a present id leaves the list as it was; a new id goes to index 0, the old ids follow in order, and the length is exactly min(5000, old length + 1) |
| `WriteRecentOnMount.InsertReadChapterNoDup` | components/WriteRecentOnMount.tsx:42-45 | the insert never creates a duplicate id |
| `WriteRecentOnMount.OnMount` | components/WriteRecentOnMount.tsx:19-53 | the effect rewrites `recent_reads` as `saveRecent` does with `at = now`; it rewrites `read_chapters_v1` only when the id is new; a read that throws stops every write after it |
| `ButtonsRecentWriter.WriteRecent` | app/read/_ButtonsRecentWriter.tsx:25-46 | no metadata for the chapter means no write; otherwise the list update of `saveRecent`, whose head is the clicked chapter with the manga, number and publish date of its metadata and `at = now`, and which holds no other entry of that manga; nothing is written when reading throws |
| `ButtonsRecentWriter.OnClick` | app/read/_ButtonsRecentWriter.tsx:48-55 | a falsy previous/next id (missing, `null` or 0) attaches no handler and writes nothing; a click otherwise writes the target chapter |
| `ButtonsRecentWriter.OnAuxClick` | app/read/_ButtonsRecentWriter.tsx:56-59 | an auxiliary click writes only for `button === 1` on an attached button, and even then leaves `recent_reads` alone when the chapter has no metadata |
| `RecentPage.MapFromFacts` | app/recent/page.tsx:52-55 | the values of a `Map` filled from the sorted list hold one record per manga, cover every manga of the list, are each the LAST record of their manga, and follow the order of each manga's FIRST record |
| `RecentPage.UniqShape` | app/recent/page.tsx:52-56 | the list has at most 50 records, one per manga, all taken from storage, and is empty exactly when storage holds no record |
| `RecentPage.UniqKeepsOldest` | app/recent/page.tsx:53 | the record kept for a manga is its oldest one (no record of that manga in storage is older), because the Map keeps the first key position but the last value |
| `RecentPage.UniqNewestFirst` | app/recent/page.tsx:53 | the manga are ordered by their newest read: for a manga listed earlier there is a read at least as recent as any read of a manga listed later |
| `RecentPage.UniqCovers` | app/recent/page.tsx:56 | when fewer than 50 are listed, every manga in storage is listed |
| `RecentPage.UniqKeepsNewest` | app/recent/page.tsx:53-56 | over the cap of 50 the manga left out are the least recently read: for any read of an unlisted manga, every listed manga has a read at least as recent |
| `RecentPage.ById` | app/recent/page.tsx:86-88 | every key of the id map holds a fetched row with that id |
| `RecentPage.ByIdLastWins` | app/recent/page.tsx:86-88 | every fetched id is a key, and a row is the one kept for its id when no later row shares that id |
| `RecentPage.Found` | app/recent/page.tsx:90-93 | the records kept are exactly those of the list whose chapter came back, in list order |
| `RecentPage.Join` | app/recent/page.tsx:90-104 | one row per found record, in order, built from that record and the chapter fetched for it: the chapter number from the database, the title or "เรื่อง #id" when missing, the slug and cover or null |
| `RecentPage.ShownFacts` | app/recent/page.tsx:47-112 | nothing is shown when storage cannot be read or the query fails; otherwise one row per listed record whose chapter came back, in list order, at most 50, and no manga twice |
| `RecentPage.RecentPageView.constructor` | app/recent/page.tsx:36-37 | the page starts with no rows and loading on |
| `RecentPage.RecentPageView.Load` | app/recent/page.tsx:43-113 | `load()` queries exactly the chapter ids of a non-empty list (nothing otherwise), then sets the rows to `Shown` and turns loading off |
| `ReadHistory.MarkRead` | lib/useReadHistory.ts:46-51 | `markRead` stores what `readAll()` returned plus exactly one record at the end: no dedupe, no cap, and the old records are unchanged |
| `ReadHistory.IsReadAfterMark` | lib/useReadHistory.ts:41-50 | after `markRead(m, c)`, `isRead(c)` holds and every other chapter reads as before |
| `ReadHighlight.ComputeRead` | components/ReadHighlight.tsx:22-46 | a chapter is read iff `read_chapters_v1` is an array holding it, or else `recent_reads` is an array with a record for it; a parse error gives `false` |
| `ReadHighlight.ReadAfterSave` | components/ReadHighlight.tsx:34-40 | a chapter just saved to the recent list is highlighted unless the read-chapter list fails to parse |
| `ReadHighlight.FallbackAgreesWithHistory` | components/ReadHighlight.tsx:34-42 | with no usable read-chapter array, the highlight agrees with `isRead` of the history hook |
| `ReadHighlight.JoinTwo` | components/ReadHighlight.tsx:67 | `filter(Boolean).join(" ")` of two parts drops an empty part and puts one separator between two non-empty ones |
| `ReadHighlight.ClassString` | components/ReadHighlight.tsx:66-69 | the class string is `className` and the read or unread class, joined by a space, with an empty part dropped |
| `Bookmarks.Dedupe` | components/BookmarkButton.tsx:29-32 | `Array.from(new Set(arr))` has no duplicates, holds exactly the ids of `arr`, and is `arr` itself when `arr` had no duplicates |
| `Bookmarks.Remove` | components/BookmarkButton.tsx:30 | `set.delete(m)` keeps exactly the other ids, in their order |
| `Bookmarks.SetSource` | components/BookmarkButton.tsx:27-29 | `new Set(raw ? JSON.parse(raw) : [])` throws exactly for a parse error or a non-iterable value; otherwise it starts from the same ids `readAll` gives: empty for a missing value or `null`, the array when there is one |
| `Bookmarks.ToggledFacts` | components/BookmarkButton.tsx:29-33 | a toggle flips the membership of the manga, leaves every other id's membership alone, writes no duplicate, appends an added id last, and keeps the order of the others on removal |
| `Bookmarks.ToggleTwice` | components/BookmarkButton.tsx:30-31 | toggling twice restores every id's membership, and the very list when the manga was absent from a duplicate-free list |
| `Bookmarks.RemoveAbsent` | components/BookmarkButton.tsx:30-31 | deleting an id that was just added to the end of a list without it gives the list back |
| `Bookmarks.Initial` | components/BookmarkButton.tsx:17-23 | the mount check is true iff the stored value is an array holding the manga, which is membership in what `readAll` and the toggle's starting set hold; a parse error is caught and decides nothing |
| `Bookmarks.BookmarkButton.constructor` | components/BookmarkButton.tsx:15 | the button starts with `on` false |
| `Bookmarks.BookmarkButton.Mount` | components/BookmarkButton.tsx:17-23 | `on` becomes the stored membership, and stays as it was on a parse error |
| `Bookmarks.BookmarkButton.Toggle` | components/BookmarkButton.tsx:25-40 | a value that throws leaves storage and `on` alone; otherwise the toggled list is stored and `on` is the new membership |
| `Bookmarks.BookmarkCorner.constructor` | components/BookmarkCorner.tsx:8 | the corner tab starts with `active` false |
| `Bookmarks.BookmarkCorner.Mount` | components/BookmarkCorner.tsx:10-16 | `active` becomes the stored membership, and stays as it was on a parse error |
| `Bookmarks.BookmarkCorner.Toggle` | components/BookmarkCorner.tsx:18-31 | the same toggle as the button, with the flag `active`; a parse error leaves storage untouched |
| `BookmarksPage.CompletedIgnoresPadding` | app/bookmarks/page.tsx:25-29 | white space around a status does not change whether it reads as completed; a blank status is never completed |
| `BookmarksPage.CompletedIgnoresCase` | app/bookmarks/page.tsx:25-29 | Latin capitals in a status do not change whether it reads as completed |
| `BookmarksPage.ById` | app/bookmarks/page.tsx:96-98 | the id map has a key for every fetched row, and each key maps to a fetched row with that id |
| `BookmarksPage.Present` | app/bookmarks/page.tsx:99 | the ids that came back, in bookmark order: exactly the bookmarked ids with a fetched row |
| `BookmarksPage.OrderRows` | app/bookmarks/page.tsx:99 | one row per bookmarked id that came back, the k-th row being that id's row |
| `BookmarksPage.OrderRowsFacts` | app/bookmarks/page.tsx:96-99 | rows follow the bookmark order, come from the fetched data, number at most the ids, and every bookmarked id that came back has its row |
| `BookmarksPage.LatestNumberShown` | app/bookmarks/page.tsx:73-89 | with the one chapter the query returns (number descending, nulls first as PostgreSQL orders them, limit 1), the card shows no number exactly when the manga has no chapter or a chapter without a number, and otherwise the highest chapter number |
| `BookmarksPage.BookmarksPageView.constructor` | app/bookmarks/page.tsx:33-35 | the page starts with no ids, no rows and loading on |
| `BookmarksPage.BookmarksPageView.LoadIds` | app/bookmarks/page.tsx:38-46 | `loadIds` sets the ids to the stored array, or to `[]` when the value is not an array or fails to parse |
| `BookmarksPage.BookmarksPageView.LoadRows` | app/bookmarks/page.tsx:63-104 | no ids means no query and no rows; a failed query shows no rows; otherwise the rows in bookmark order; loading ends off |
| `BumpDailyViews.SaveQueue` | components/analytics/BumpDailyViews.tsx:20-24 | `saveQueue` stores only the first 200 items and touches no other key |
| `BumpDailyViews.RemainingSubseq` | components/analytics/BumpDailyViews.tsx:38-47 | what stays queued after a flush is the old queue with some items left out, in queue order |
| `BumpDailyViews.RemainingExactly` | components/analytics/BumpDailyViews.tsx:39-47 | an item stays queued iff all three of its attempts failed |
| `BumpDailyViews.RetryItem` | components/analytics/BumpDailyViews.tsx:39-45 | one queued item is delivered exactly when one of its three attempts succeeds; the attempts are exactly 0 up to the first success (three when all fail), each with the item's payload, and the pauses are exactly 300 then 600 ms, one after each failure but the third |
| `BumpDailyViews.FlushQueue` | components/analytics/BumpDailyViews.tsx:34-49 | `flushQueue` reads the queue as `loadQueue` does, writes nothing for an empty queue and stores exactly the undelivered items (first 200) in order; the calls are exactly `FlushCalls`: for each item in turn, attempts 0 up to its first success, three when all fail; the pauses are exactly `FlushWaits`: 300 then 600 ms after the failures that are not the third; each call's payload is the item's manga id with its queued date, the corrected payload of the Findings below |
| `BumpDailyViews.FlushCallsFacts` | components/analytics/BumpDailyViews.tsx:39-45 | a flush tries item j exactly at attempts 0 .. k-1, where k is one past its first success or 3, and every attempt comes after the ones for earlier items and earlier tries |
| `BumpDailyViews.FlushDropsDate` | components/analytics/BumpDailyViews.tsx:26-31 | a view queued for one day and flushed on a later one is counted on the flush day when the date is not passed, and on its own day when it is |
| `BumpDailyViews.Attempts` | components/analytics/BumpDailyViews.tsx:70-76 | the bump loop stops at the first success, after three failures, or when the page goes away, and never calls more than three times |
| `BumpDailyViews.Bump` | components/analytics/BumpDailyViews.tsx:52-87 | a falsy manga id does nothing; the once-flag skips the bump unless `forceBump=1`; the flag is set on success only; the manga is queued only after the third failure; the pauses are exactly 300 then 600 ms, one after each failure but the third |
| `BumpDailyViews.RetryBump` | components/analytics/BumpDailyViews.tsx:68-87 | the async loop makes exactly `Attempts` calls; the once-flag is added exactly when an attempt that ran succeeded; the manga is appended to the queue (first 200 kept) exactly when all three attempts ran and failed, and the queue is untouched otherwise; the pauses are exactly 300 then 600 ms, one after each failure but the third |
| `BumpDailyViews.EnqueueWhenFull` | components/analytics/BumpDailyViews.tsx:81-83 | a deferred bump is appended to the queue, and is dropped by the cut to 200 when the queue is already full |
| `ProgressLocal.GetAnonId` | utils/progressLocal.ts:10-20 | no window gives `''` and no write; a stored id is returned unchanged with no write; otherwise the fresh id is stored and returned |
| `ProgressLocal.LoadLocalProgress` | utils/progressLocal.ts:22-25 | `{}` without a window, for a missing value or on a parse error; the stored object otherwise; `None` exactly for a parsed non-object, on which the later write throws |
| `ProgressLocal.LoadAfterSave` | utils/progressLocal.ts:22-30 | a map `saveLocalProgress` stored loads back unchanged, without a window the load is always `{}`, and a load never shows an entry that is not stored |
| `ProgressLocal.SaveLocalProgress` | utils/progressLocal.ts:27-30 | without a window nothing is stored; otherwise the map is stored under `reading_progress_v1` |
| `ProgressLocal.UpsertLocalProgress` | utils/progressLocal.ts:32-41 | the manga's entry becomes `{chapterNumber, chapterId, now}`, every other entry and no other key changes, and nothing is stored when the write throws or there is no window |
| `Time.TimeAgoBuckets` | lib/time.ts:9-25 | each label covers a half-open range of elapsed milliseconds (s below a minute, m below an hour, h below a day, d below 7 days, w below 35 days, mo below 360 days, y from there), and its count is the elapsed time divided by the unit, rounded down; months count 30 days and years 365 |
| `Time.ZeroYears` | lib/time.ts:21-24 | from 360 up to 365 days the label is "0y ago", because months and years are both counted from days |
| `Time.NewMatchesBuckets` | lib/time.ts:2-7 | the strict "New!" rule (less than 24 hours, false for a missing date) holds exactly when the label is in seconds, minutes or hours |
| `HomePage.CopiesCompared` | app/page.tsx:24-43 | this page's label agrees with lib/time.ts below a week and counts days without bound from one day on; its inclusive "New!" rule differs from the strict one only at exactly 24 hours |
| `HomePage.NoDateNoBadge` | app/page.tsx:24-34 | a missing, empty or unparsable date gives "-" and no badge |
| `HomePage.PageSize` | app/page.tsx:54 | the page size is at least 1, 24 when `per` is missing, and `per` itself when that is at least 1 |
| `HomePage.Page` | app/page.tsx:55 | the page is at least 1, and the requested page itself when that is at least 1 |
| `HomePage.RangesTile` | app/page.tsx:56-57 | `from` starts at 0 on page 1, `[from, to]` covers exactly `pageSize` rows, and page p+1 starts right after page p ends |
| `HomePage.CeilDiv` | app/page.tsx:115 | `Math.ceil(a / b)` is the least r with `a <= b·r` |
| `HomePage.TotalPages` | app/page.tsx:114-115 | the page count is at least 1, is 1 for a missing or zero total, and is otherwise the least count of pages that holds every row |
| `HomePage.LinksClamped` | app/page.tsx:185-207 | the links are `max(1, page-1)` and `min(totalPages, page+1)`, stay in range and move one page; each is disabled exactly when it would not move, including a page past the last |
| `HomePage.Latest3Facts` | app/page.tsx:89-102 | the latest chapters are at most 3, from the input, newest first (missing date = 0) with the higher number first on a tie, and no chapter left out is newer than one shown |
| `StableSort.SortBySortedPerm` | components/MangaCard.tsx:31-36 | the sorted copy is ordered by the comparator's key and is a permutation of the input |
| `StableSort.SortByStable` | components/MangaCard.tsx:32-36 | the sort is stable: elements that compare equal keep their input order |
| `StableSort.TopK` | components/MangaCard.tsx:31-37 | `.sort(cmp).slice(0, k)` keeps at most k elements, in key order, from the input, and no element left out sorts before one kept |
| `MangaCard.Top3Facts` | components/MangaCard.tsx:31-37 | `top3` has `min(3, n)` chapters, all from the input, newest first with a missing date counting as 0, and no chapter left out is newer than one shown |
| `MangaCard.Top3Stable` | components/MangaCard.tsx:31-37 | chapters with the same publish time appear in `top3` in their input order, and they are the first of them |
| `MangaCard.RowLabel` | components/MangaCard.tsx:69-89 | a row shows "New!" exactly when `isNewWithin24h` holds, and otherwise the `timeAgo` label of a date at least a day old (or "-" for none) |
| `MangaCard.RowLabelNoSmallUnits` | components/MangaCard.tsx:81-89 | a row without the badge shows "-" only for a missing date, and otherwise a count of days or longer |
| `ChapterSelect.SortedFacts` | app/read/_ChapterSelect.tsx:21-27 | `sorted` is a permutation of the options, numbered options ascend, every null comes after every number, and the nulls keep their input order |
| `ChapterSelect.Go` | app/read/_ChapterSelect.tsx:29-32 | `go` does nothing for an id that is not a finite number, and otherwise pushes `/read/<id>` |
| `ChapterSelect.GoInjective` | app/read/_ChapterSelect.tsx:29-32 | different chapter ids lead to different routes, since decimal rendering of integers is one-to-one |
| `ChapterSelect.Label` | app/read/_ChapterSelect.tsx:52 | the option text starts with "ตอน " and is "ตอน -" exactly when the number is null |
| `Pagination.PrevNextInverse` | components/Pagination.tsx:12-26 | the buttons undo each other: "next" from a page p >= 1 leads to a page whose "previous" asks for p, and "previous" from a page p <= totalPages leads to a page whose "next" asks for p |
| `Pagination.RequestsInRange` | components/Pagination.tsx:12-26 | from a page in range every request lands in range; from a page past the end, "previous" still asks for a page past the end |
| `PaginationFancy.GetPages` | components/home/PaginationFancy.tsx:75-104 | the two loops of `getPages` compute exactly `Pages(current, total)`: the kept pages of the first loop, walked by the second with a filler page or `"..."` in each gap |
| `PaginationFancy.PushPage` | components/home/PaginationFancy.tsx:91-101 | one pass of the second loop appends the missing page for a gap of exactly 2, `"..."` for a larger gap, nothing after no page, and then the page itself |
| `PaginationFancy.KeptUpToFacts` | components/home/PaginationFancy.tsx:85-89 | the first loop keeps, in increasing order, exactly the pages in [1, total] that are the first, the last, or within 2 of the current one |
| `PaginationFancy.WithDotsEnds` | components/home/PaginationFancy.tsx:91-101 | the list starts with the first kept page and ends with the last |
| `PaginationFancy.WithDotsListsKept` | components/home/PaginationFancy.tsx:91-101 | every kept page is listed |
| `PaginationFancy.WithDotsOnlyKept` | components/home/PaginationFancy.tsx:91-101 | a listed page is kept or fills a one-page gap between two kept pages |
| `PaginationFancy.WithDotsBounds` | components/home/PaginationFancy.tsx:91-101 | every listed number lies between the first and the last kept page |
| `PaginationFancy.WithDotsIncreasing` | components/home/PaginationFancy.tsx:91-101 | the listed numbers strictly increase |
| `PaginationFancy.WithDotsNeighbours` | components/home/PaginationFancy.tsx:91-101 | two pages side by side are consecutive, and `"..."` is never first or last and sits between two pages more than 2 apart |
| `PaginationFancy.PagesFacts` | components/home/PaginationFancy.tsx:75-104 | `getPages` lists strictly increasing numbers in [1, total], pages 1 and total, and every page within 2 of the current one; a gap of exactly 2 is filled with the missing page, and `"..."` stands only where kept pages are more than 2 apart, never first, last or next to another `"..."` |
| `PaginationFancy.PagesWithinTotal` | components/home/PaginationFancy.tsx:85-101 | kept pages in [1, total] give a list whose numbers all lie in [1, total] |
| `PaginationFancy.PagesPresent` | components/home/PaginationFancy.tsx:85-101 | pages 1 and total and the window around the current page are all listed |
| `PaginationFancy.Render` | components/home/PaginationFancy.tsx:17-70 | nothing is rendered when `total <= 1`; otherwise the arrows and the `getPages` list |
| `PaginationFancy.ArrowsClamped` | components/home/PaginationFancy.tsx:34-69 | "previous" targets `max(1, current-1)` and "next" `min(total, current+1)`; in range each is disabled exactly when it points at the current page; past the end "next" leads back to the last page and stays enabled |
| `SearchBox.ArrowsUndo` | components/SearchBox.tsx:93-98 | ArrowDown then ArrowUp (and the reverse) returns to the same row away from the ends, and at the last (first) row ArrowDown (ArrowUp) stays put |
| `SearchBox.NextActiveInRange` | components/SearchBox.tsx:95-98 | a highlight in [0, len-1] stays there, and each arrow moves it by at most one row |
| `SearchBox.ChapterCountIsCount` | components/SearchBox.tsx:149 | the count shown is the first count whenever there is one (a zero shows as 0 either way), and 0 when there is none |
| `SearchBox.SearchBoxState.constructor` | components/SearchBox.tsx:31-34 | the box starts closed, not loading, with no rows and the first row highlighted |
| `SearchBox.SearchBoxState.OnKeyDown` | components/SearchBox.tsx:91-103 | keys are ignored while the drop-down is closed or empty; the arrows move the highlight; Enter goes to `/manga/<slug>` of the highlighted row only when that row exists |
| `SearchBox.SearchBoxState.OnQuery` | components/SearchBox.tsx:53-89 | a blank trimmed query clears the rows and loading without querying; an error clears the rows; a result replaces them, highlights the first row and opens the drop-down |
| `SearchBox.SearchBoxState.OnFocus` | components/SearchBox.tsx:113 | focus opens the drop-down when there are rows, and otherwise changes nothing |
| `SearchBox.SearchBoxState.OnMouseEnter` | components/SearchBox.tsx:160 | pointing at a row highlights it |
| `SearchBox.SearchBoxState.Close` | components/SearchBox.tsx:39-51 | Escape, or a mouse press outside the box, closes the drop-down |
| `FilterControls.SearchParams.constructor` | components/home/FilterControls.tsx:17 | `new URLSearchParams(search.toString())` is a copy of the current pairs |
| `FilterControls.SearchParams.Set` | components/home/FilterControls.tsx:18 | `set(name, value)` in one walk: the first pair with the name takes the value, later ones are removed, and with none the pair is appended |
| `FilterControls.SearchParams.Delete` | components/home/FilterControls.tsx:20-22 | `delete(name)` removes every pair with that name and keeps the rest in order |
| `FilterControls.BuildHref` | components/home/FilterControls.tsx:16-24 | the link is the path, `?`, and the pairs after setting `filter` and deleting `page`, `pageM` and `pageN` |
| `FilterControls.DropMembers` | components/home/FilterControls.tsx:20-22 | deleting names keeps exactly the pairs with other names |
| `FilterControls.DropDrop` | components/home/FilterControls.tsx:20-22 | deleting names one after another is deleting them all at once |
| `FilterControls.SetPairNamed` | components/home/FilterControls.tsx:18 | after `set`, exactly one pair has the name, and it holds the value |
| `FilterControls.SetPairOthers` | components/home/FilterControls.tsx:18 | `set` leaves the pairs with other names as they were, in order |
| `FilterControls.NamedDrop` | components/home/FilterControls.tsx:20-22 | deleting other names keeps the pairs with this name |
| `FilterControls.FilterQueryFacts` | components/home/FilterControls.tsx:16-24 | a pill's link has exactly one `filter`, equal to the pill's value, no `page`, `pageM` or `pageN`, and every other parameter in its original order |
| `FilterControls.OnePillActive` | components/home/FilterControls.tsx:35-39 | exactly one pill is active |
| `Header.NextVisible` | components/Header.tsx:21-31 | closer than 8px to the top the header shows; it hides only after a step down of more than 6px (or stays hidden on a smaller move); it reappears only near the top or after a step up of more than 6px |
| `Header.SmallMoveKeeps` | components/Header.tsx:26-29 | a step of at most 6px either way, away from the top, leaves the header as it was |
| `Header.HeaderState.constructor` | components/Header.tsx:9-11 | the header starts shown, at 0, with no listener |
| `Header.HeaderState.Scroll` | components/Header.tsx:21-32 | with the listener attached a scroll applies the `onScroll` rule and records the position; without it nothing changes; the listener flag still matches the listener, and a hidden header is below the top zone |
| `Header.HeaderState.Handle` | components/Header.tsx:38-50 | from 768px up the header is shown, the listener detached and the flag cleared; below, the listener is attached from the current position only when not already active |
| `ReaderBarBehavior.NextHidden` | app/read/_ReaderBarBehavior.tsx:27-34 | within 2px of the top the bar is shown; it is hidden only after a step down of more than 4px or when it was hidden and the step up is at most 4px; a hidden bar is shown again only near the top or after a step up of more than 4px |
| `ReaderBarBehavior.ReaderBar.constructor` | app/read/_ReaderBarBehavior.tsx:6-21 | nothing is installed when the bar is missing or the screen is at least 1024px wide; otherwise `lastY` is the current position, `ticking` is off and one sync frame is waiting |
| `ReaderBarBehavior.ReaderBar.Req` | app/read/_ReaderBarBehavior.tsx:40-45 | a scroll or touch move requests a frame exactly when the bar is installed and `ticking` is off, and turns `ticking` on; while `ticking` is on a frame is waiting |
| `ReaderBarBehavior.ReaderBar.Frame` | app/read/_ReaderBarBehavior.tsx:23-38 | a frame applies `NextHidden` to the class, records the position, clears `ticking` and consumes one waiting frame |
| `ReaderBarBehavior.ReaderBar.OnChange` | app/read/_ReaderBarBehavior.tsx:52-61 | becoming wide shows the bar; becoming narrow restarts from the current position and requests a frame |
| `ReaderBarBehavior.ReaderBar.OnVisible` | app/read/_ReaderBarBehavior.tsx:65-70 | when the tab becomes visible the position is re-read and a frame requested, without forcing the bar to show; otherwise nothing changes |
| `DesktopTopHider.DecideReversible` | app/read/_DesktopTopHider.tsx:35-44 | a step of at most 6px changes nothing; scrolling straight back over a step that hid the bars shows them, and, past the top 8px, back over a step that showed them hides them |
| `DesktopTopHider.TopHider.Apply` | app/read/_DesktopTopHider.tsx:28-33 | `slide-up` is set or cleared on both bars together |
| `DesktopTopHider.TopHider.constructor` | app/read/_DesktopTopHider.tsx:24-26 | hiding starts enabled exactly on a wide screen, from the current position, with both bars shown and no frame waiting |
| `DesktopTopHider.TopHider.Enable` | app/read/_DesktopTopHider.tsx:53-60 | enabling twice is a no-op; a first enable restarts from the current position and shows both bars |
| `DesktopTopHider.TopHider.Disable` | app/read/_DesktopTopHider.tsx:62-68 | disabling twice is a no-op; a first disable shows both bars |
| `DesktopTopHider.TopHider.OnChange` | app/read/_DesktopTopHider.tsx:72-75 | the enabled flag follows the 1024px query; a real switch shows both bars, and an unchanged query changes nothing |
| `DesktopTopHider.TopHider.Scroll` | app/read/_DesktopTopHider.tsx:46-51 | a scroll while enabled requests a frame only when none is waiting |
| `DesktopTopHider.TopHider.Frame` | app/read/_DesktopTopHider.tsx:35-44 | a frame applies `Decide` to both bars, records the position and consumes one waiting frame; the two bars never differ |
| `Nav.IsActiveFacts` | components/DesktopBar.tsx:42-43 | the home link is active on "/" and nowhere else; every other link is active exactly when the path starts with its href (the same rule as components/BottomNav.tsx:30) |
| `Nav.NotSegmentAware` | components/BottomNav.tsx:30 | the prefix test ignores segment boundaries, so the "/recent" item is lit on "/recentX" |
| `Nav.AtMostOneActive` | components/DesktopBar.tsx:62-69 | on any path at most one link of either bar is lit |
| `ReadingProgressRoute.PostGetAgree` | app/api/reading-progress/route.ts:11-58 | the row a valid POST upserts is one the GET with the same two ids filters for, and POST answers 400 exactly when a manga or chapter id is falsy or GET would refuse the ids |
| `ReadingProgressRoute.PostOwner` | app/api/reading-progress/route.ts:15-25 | every row POST writes has exactly one truthy owner: the user id, or else the anonymous id |
| `ReadingProgressRoute.GetAsWritten` | app/api/reading-progress/route.ts:41-63 | 400 exactly when neither id is truthy; otherwise a filter is issued, on `user_id` exactly when the user id is truthy |
| `ReadingProgressRoute.GetEmptyUserId` | app/api/reading-progress/route.ts:49-50 | with an empty `userId` and a non-empty `anonId` the query as written looks for `anon_id` equal to the empty string, where the corrected `Get` uses the anonymous id |
| `ReadingProgressRoute.Get` | app/api/reading-progress/route.ts:41-63 | 400 exactly when neither id is truthy; otherwise 500 on a database error, else 200, and the filter compares a non-empty value: the user id on `user_id` when it is truthy, else the anonymous id on `anon_id` |
| `ReadingProgressRoute.GetAgrees` | app/api/reading-progress/route.ts:49-50 | the corrected GET and the GET as written agree on every request whose `userId` is absent or non-empty |

## Left out

- JSON text and its parsing are not modelled. A stored value is one of the `Stored<T>` cases, and a parse error is its own case. Percent-encoding and the serialisation of `URLSearchParams` are left out too: a query string is its name=value pairs joined by `&`.
- A stored string counts as "another JSON value". `new Set("…")` would iterate its characters, but `Bookmarks.SetSource` treats it as a value that throws. An array stored under `reading_progress_v1` is also treated as a value on which the write throws.
- `Number(...)` giving NaN or Infinity, fractional scroll positions and other floating-point behaviour are left out: numbers are integers. `HomePage.PageSize` and `HomePage.Page` take the parsed number, or none when the parameter is missing.
- Date parsing, `Date.now()`, `toISOString()` and the local-time day key are left out. Timestamps, elapsed milliseconds and "today" are integer or string parameters. An unparsable date is its own case only on the home page (`HomePage.DateInput`). `Time.TimeAgo`, `Time.IsNewWithin24h` and `MangaCard.RowLabel` take an elapsed time or none, so an invalid date there (`false` from `isNewWithin24h`, `NaNy ago` from `timeAgo`) is not modelled.
- `toLowerCase` is modelled for the Latin capitals A-Z only.
- A `setItem` that fails (for example a full quota) is not modelled: writes succeed.
- The database queries, the RPC call and the upsert are foreign calls. Their answers and failures are parameters. Ordering, `.in(...)` and `.range(...)` are done by the database and are not part of this model, except the one-chapter list of the bookmarks query, whose order is stated by `BookmarksPage.IsNewestChapterList`.
- `crypto.randomUUID` and `Math.random` are not modelled: the fresh anonymous id is a parameter of `ProgressLocal.GetAnonId`.
- Concurrency is left out. This covers the `cancelled` and `seq` guards of the pages, `flushQueue` running unawaited beside the bump, `storage` events from other tabs, `dispatchEvent` broadcasts, and effect cleanups that remove listeners. Every handler runs to completion in the order the caller chooses.
- Timers are left out: `useDebounce` and the retry pauses. `BumpDailyViews.Bump` and `BumpDailyViews.FlushQueue` return the pauses they would take, as numbers of milliseconds.
- `ReaderBarBehavior.ReaderBar.Req`: the model does not promise that at most one frame is outstanding. The sync frames of the constructor, `OnChange` and `OnVisible` also run `onScroll` and clear `ticking`, so the sequence constructor, `Req`, `Frame`, `Req` leaves two frames waiting. In a browser the queued callbacks run in one batch, which keeps the bound, and frame batching is not modelled.
- A `requestAnimationFrame` callback is a count of waiting frames. A frame runs with the scroll position passed to it, and the order in which the browser runs frames is not modelled.
- The DOM targets the scroll controllers look up (`#reader-bar`, `.site-desktop-bar`) are assumed to exist once they have been found. `ReaderBarBehavior.ReaderBar.constructor` takes whether the bar exists.
- Route parameters and ids are integers. The router's `push`, `Link` and all rendering (JSX, styling classes, images) are not part of this model. Only the values the pages compute and show are modelled.
- `PaginationFancy.Render` gives the arrow targets and the page list. `makeHref` and the markup are not part of this model.

## Findings

| source | as written | input that shows it | evidently intended | confidence | as-written member | corrected member |
|---|---|---|---|---|---|---|
| app/api/reading-progress/route.ts:49-50 | the column is chosen by the truthiness of `userId`, but the value is `userId ?? anonId`, which keeps an empty `userId` | `GET ?userId=&anonId=a` filters on `anon_id = ""` | filter on `anon_id = "a"`, the id whose column is used | medium, not executed | `ReadingProgressRoute.GetAsWritten` (shown by `ReadingProgressRoute.GetEmptyUserId`) | `ReadingProgressRoute.Get` |
| components/analytics/BumpDailyViews.tsx:42 | the retry of a queued item calls `callRPC(item.mangaId)` without `item.date`, so the database counts it on its own current day | a view queued as `{ mangaId: 7, date: "2026-10-14" }` and flushed on 2026-10-15 is counted for 2026-10-15 | pass the queued date, `callRPC(item.mangaId, item.date)`, so the view counts for the day it happened | medium, not executed | `BumpDailyViews.FlushArgsAsWritten` (shown by `BumpDailyViews.FlushDropsDate`) | `BumpDailyViews.FlushArgs`, used by `BumpDailyViews.FlushQueue` |
