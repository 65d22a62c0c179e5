# FrameByte gallery core in Dafny

FrameByte is a browser wallpaper gallery (Next.js on Firebase). This project models
the part of it that shapes data:

- **Enricher.** Each stored wallpaper record gets an orientation (`desktop`/`phone`)
  and a resolution tier (`4k`/`hd`/`sd`). These come from its stored size, or from
  loading its image when the size is missing.
- **Cursor walker.** The home page reads the collection in pages of 12 and appends
  each enriched page to an accumulator. The cursor is the last document read.
  `hasMore` records whether the stream has ended.
- **View builder.** The visible list is recomputed from the accumulator on every
  change. The inputs are the active filter, the sort key and the search text. The
  sorted list of distinct lower-cased tags becomes the category list.
- **Controls.** The filter bar and the sidebar set the filter, sort and search state,
  and highlight the active button.
- **Detail page.** Recommends up to three wallpapers that share tags with the one
  shown. Also keeps its like and download counters.
- **Gallery tile.** Keeps a like counter and a download counter. Both are updated
  optimistically, notify the parent, and roll back when the remote update fails.
  The tile also shows a resolution badge.
- **Migration script.** Derives each record's storage path from its download URL
  (`getImagePath`). It stages an update for every record that lacks a path and
  commits when something was staged.
- **Sitemap.** Lists the two static pages and one page per wallpaper.

The model uses pure functions over immutable values. A few JavaScript behaviours are
written out explicitly:

- Truthiness: a missing value, `0` and `""` are falsy.
- `??` (nullish coalescing).
- `Array.prototype.sort`, which is stable.
- `toLowerCase` and `trim`.
- `decodeURIComponent`: UTF-8 decoding as in the URI handling functions of
  ECMA-262, section 19.2.6. A malformed escape gives `None` where the script would throw and
  return `null`.
- `localStorage`: a map from keys to the strings `"true"` and `"false"`.

Four things are parameters:

- Loading an image: `Probe`, from a URL to an optional natural size.
- The document store: a fetch is `Failed` or `Fetched(page)`. For the pagination
  proofs the store is an ordered sequence.
- Whether a remote update succeeds: a boolean.
- `new URL(u).pathname`: `PathnameOf`.

Modules: `Optional`, `Seqs`, `StableSort`, `Text`, `Uri`, `Wallpapers`, `Storage`,
`Controls`, `View`, `HomePage`, `Details`, `Item`, `FilterBar`, `Sidebar`,
`Migration`, `Sitemap`.

Behaviours of the code worth calling out, each modelled as written:

- **Recommender.** Recommendations are ranked by the number of tags they share with
  the wallpaper shown, a tag repeated on a candidate counting once per occurrence.
  Tags are compared exactly. Only candidates with the same orientation as the
  wallpaper shown qualify (components/WallpaperDetails.js:54-68).
- **Download counter.** The detail page's optimistic download count is taken back by
  one when the download fails (components/WallpaperDetails.js:93). The tile restores
  its count from before the click (components/WallpaperItem.js:75).
- **Filter value.** Tag filtering lower-cases the record's tags but not the filter
  value (app/page.js:138). A filter with an upper-case letter therefore matches
  nothing.

## Model

| member | source | states |
|---|---|---|
| Wallpapers.OrientationOf | app/page.js:18 | the orientation is desktop exactly when the width exceeds the height, phone otherwise (a square is a phone image) |
| Wallpapers.ResolutionOf | app/page.js:19-20 | 4k exactly when width ≥ 3840 or height ≥ 2160; hd exactly when below that and width ≥ 1920 or height ≥ 1080; sd otherwise |
| Wallpapers.ResolutionMonotone | app/page.js:19-20 | a larger image never lands in a lower tier |
| Wallpapers.OrientationRotate | app/page.js:18 | rotating a non-square image flips its orientation |
| Wallpapers.EnrichOne | app/page.js:16-36 | only width, height, orientation and resolution change; the result is classified consistently with its size; truthy stored dimensions are kept; otherwise the probe's size is used, or every derived field is cleared when the probe fails |
| Wallpapers.Enrich | app/page.js:14-40 | one enriched record per input record, position by position |
| Wallpapers.EnrichAppend | app/page.js:84-89 | enriching two pages separately and concatenating equals enriching the concatenation |
| Wallpapers.EnrichKeepsOrder | app/page.js:15-39 | enrichment keeps ids in page order and classifies every record |
| Wallpapers.EnrichIgnoresProbe | app/page.js:17-22 | a record with truthy stored dimensions is enriched without looking at its image |
| Wallpapers.EnrichIdempotent | app/page.js:17-34 | enriching an enriched record changes nothing |
| Wallpapers.DownloadFileName | components/WallpaperItem.js:64 | the saved file name is `FrameByte-` + (title, or id when the title is falsy) + `.jpg` |
| Seqs.FilterMembership | app/page.js:124-141 | an element is kept by `filter` exactly when it is in the input and satisfies the test |
| Seqs.FilterIsSubsequence | app/page.js:124-141 | `filter` keeps the input order |
| StableSort.SortDesc | app/page.js:116-120 | the comparator sort yields a permutation sorted by descending key |
| StableSort.SortDescIsStable | app/page.js:116-120 | the sort is stable: records with equal keys keep their relative order |
| Text.ToLowerIdempotent | app/page.js:123-126 | lower-casing twice is lower-casing once |
| Text.ContainsIffOccurs | app/page.js:125 | `includes` holds exactly when the needle occurs at some index, and agrees with `indexOf` |
| Text.TrimEmptyIffBlank | app/page.js:122 | `trim()` is empty exactly when the text is all white space |
| Text.JoinLength | components/WallpaperDetails.js:123 | `join(', ')` has the total length of the parts plus one separator between each pair |
| Text.SortedDistinct | app/page.js:169 | the result is strictly ascending and has exactly the input's elements |
| Text.StrictlyAscendingUnique | app/page.js:169 | two strictly ascending lists with the same elements are equal, so the sorted category list is determined by the tag set |
| View.FilterMatchMeaning | app/page.js:130-141 | 'phone'/'desktop' test the orientation, '4k'/'hd' the resolution, any other value membership among the lower-cased tags; a record without tags never matches a tag filter |
| View.SortedBy | app/page.js:114-120 | 'likes' and 'downloads' give a stable descending sort by that count (missing reads as 0); any other key leaves the order alone |
| View.ApplyFiltersAndSort | app/page.js:109-147 | a non-blank search shows, in accumulator order, every copy of each record whose lower-cased title or tag contains the lower-cased query and nothing else; else a filter other than 'all' shows, in accumulator order, every copy of each matching record and nothing else; else the whole accumulator is shown, sorted as `SortedBy`; `hasMore` is true exactly when filter, search and sort are all defaults |
| View.SearchOverridesFilterAndSort | app/page.js:122-129 | while a search is active, the filter and the sort do not affect the visible list |
| View.BlankSearchIgnored | app/page.js:122 | a search text made only of white space behaves as no search |
| View.SearchSelects | app/page.js:122-128 | a non-blank search shows the accumulator filtered by the lower-cased query |
| View.FilterSelects | app/page.js:129-141 | with no search text, a filter other than 'all' shows the accumulator filtered by that value, whatever the sort |
| View.SearchScenario | app/page.js:122-128 | searching "an" over "Ancient Ruins" (tag "anime") and "City Lights" (tag "urban") shows both records, in order |
| View.AllTagsMembership | app/page.js:163-168 | a string is among the collected tags exactly when it is the lower-cased form of a tag of some record |
| View.Categories | app/page.js:161-171 | an empty accumulator keeps the previous list; otherwise the list is strictly ascending and holds exactly the lower-cased tags of the records |
| Controls.InitialControls | app/page.js:47-55 | the page starts with filter 'all', sort 'default', no search and the category bar hidden |
| HomePage.Initial | app/page.js:45-55 | the page starts empty, loading, with no cursor and `hasMore` true |
| HomePage.QueryFor | app/page.js:74-80 | the query starts after the cursor exactly when the fetch is not initial and a cursor is set |
| HomePage.LastOf | app/page.js:92 | the cursor is the page's last document, and nothing for an empty page |
| HomePage.Fetch | app/page.js:60-105 | a non-initial fetch after the end is a no-op; a failure changes only the loading flags; a page replaces (initial) or extends the accumulator, moves the cursor to the page's last document, and clears `hasMore` exactly when the page is short |
| HomePage.FetchNeverReopens | app/page.js:95-97 | a fetch can clear `hasMore` but never set it |
| HomePage.LoadMoreAppends | app/page.js:86-90 | a "Load More" fetch keeps the old accumulator as a prefix |
| HomePage.PageOf | app/page.js:76-80 | a page holds at most 12 documents |
| HomePage.InitialFetchWalks | app/page.js:74-97 | the initial fetch against an ordered store holds its first min(12, N) documents, with `hasMore` true exactly when the store is not exhausted |
| HomePage.LoadMoreWalks | app/page.js:74-97 | each later fetch against a store with distinct documents extends the accumulator by exactly the next page |
| HomePage.WalkReachesStore | app/page.js:60-105 | after n + 1 fetches the accumulator is the first min(12 (n + 1), N) documents, enriched, and `hasMore` holds exactly when no page so far was short |
| HomePage.WalkEndsWithStore | app/page.js:95-97 | once `hasMore` is false the accumulator is the whole store, enriched, in query order |
| HomePage.Settle | app/page.js:145-147 | as written: the recompute sets `hasMore` to "no filter, search or sort is active", whatever the fetches recorded |
| HomePage.ShortPageForgotten | app/page.js:92-147 | as written: a one-record store loads, "Load More" reappears, fetches an empty page that clears the cursor, and the next "Load More" appends the same record a second time |
| HomePage.SettleCorrected | app/page.js:145-147 | corrected: the recompute keeps `hasMore`, the accumulator and the cursor, and "Load More" is shown only in the default view |
| HomePage.CorrectedSettleKeepsEnd | app/page.js:95-97 | corrected: after a short page the stream stays ended and the next "Load More" is a no-op |
| HomePage.SettleKeepsWalk | app/page.js:145-147 | the corrected recompute leaves the pagination state where the walk put it |
| HomePage.SettleIsInvisibleToFetch | app/page.js:145-147 | fetching after the corrected recompute gives the same accumulator, cursor and `hasMore` as fetching without it |
| Storage.StoreThenRead | components/WallpaperItem.js:15 | writing a like flag and reading it back gives the flag, and other ids keep theirs |
| Details.ImageDimensions | components/WallpaperDetails.js:10-21 | an empty URL gives no dimensions without loading anything |
| Details.WithLoadedDims | components/WallpaperDetails.js:49-52 | only width and height change: they become the loaded size when the image loads, and both become missing when it does not |
| Details.SharedTags | components/WallpaperDetails.js:66 | the counted tags are the record's tags, in order, that the shown wallpaper also has (compared exactly), with a repeated tag kept once per occurrence, so its length is the ranking score |
| Details.ScoredQualify | components/WallpaperDetails.js:54-63 | every scored candidate is another wallpaper, has loaded dimensions, the shown wallpaper's orientation, at least one shared tag, and is scored with its shared-tag count |
| Details.Recommend | components/WallpaperDetails.js:39-71 | nothing when the list is empty or the shown image has no width; otherwise at most three qualifying candidates in descending order of common tags |
| Details.RecommendationsAreTopThree | components/WallpaperDetails.js:65-68 | the recommendations are a prefix of a stable ranking of all candidates, and no candidate left out has more common tags than the third one chosen |
| Details.RecommendScenario | components/WallpaperDetails.js:54-68 | showing wallpaper 1 (tag "nature") recommends wallpaper 2 (shares "nature") and not wallpaper 3 |
| Details.InitialDetail | components/WallpaperDetails.js:26-33 | the counts come from the record (missing reads as 0) and the flag from storage |
| Details.LikeClick | components/WallpaperDetails.js:98-113 | a confirmed click flips the flag and moves the count by one in that direction; a failed click restores the flag and the count; storage ends holding the final flag |
| Details.LikeTwiceRestores | components/WallpaperDetails.js:98-106 | liking then unliking, both confirmed, restores the state, and storage agrees with the flag |
| Details.FailedLikeKeepsStoredFlag | components/WallpaperDetails.js:107-112 | a failed click leaves the stored flag reading as before |
| Details.DownloadClick | components/WallpaperDetails.js:76-96 | the count ends one higher after a successful download and unchanged after a failure; nothing else changes |
| Details.RecommendationLike | components/WallpaperDetails.js:115-121 | the recommendation with the liked id takes the new like count; the others are untouched |
| Details.RecommendationLikeIdempotent | components/WallpaperDetails.js:115-121 | applying the same like twice is applying it once, and ids keep their positions |
| Details.DisplayTitle | components/WallpaperDetails.js:123 | the title when truthy; else the tags joined by ", " (`Text.Join`), which starts with the first tag and has the parts' length plus two per separator; else "Untitled Wallpaper" |
| Item.Sync | components/WallpaperItem.js:10-19 | the tile's counts come from the record (missing reads as 0) and its flag from storage |
| Item.LikeClick | components/WallpaperItem.js:21-48 | a confirmed click flips the flag, moves the count by one and notifies the new count; a failed click restores flag and count and notifies the new count then the old one; the last notification always equals the tile's final count |
| Item.FailedLikeRestoresStorage | components/WallpaperItem.js:39-43 | a failed click leaves storage as it was when storage agreed with the flag |
| Item.DownloadClick | components/WallpaperItem.js:50-79 | the parent is first told count + 1; on failure the count is restored and the parent is told again; the last notification equals the final count |
| Item.ResolutionBadge | components/WallpaperItem.js:81-106 | a badge is shown exactly for '4k' and 'hd', labelled "4K"/"HD", purple exactly for '4k' |
| FilterBar.InitialBar | components/FilterBar.js:7-8 | the sort label starts as "Most Popular" with the drop-down closed |
| FilterBar.MainFilterClick | components/FilterBar.js:10-22 | the filter is set; 'all' clears the search; 'categories' toggles the category bar and any other filter hides it; the sort is untouched |
| FilterBar.ToggleDropdown | components/FilterBar.js:64 | the drop-down flips and the label stays |
| FilterBar.HomeClickResets | components/FilterBar.js:13-38 | after clicking Home, Home is highlighted and Categories is not |
| FilterBar.CategoriesTwice | components/FilterBar.js:17-21 | clicking Categories twice restores the category bar |
| FilterBar.CategoriesHighlight | components/FilterBar.js:17-30 | after a main-filter click, Categories is highlighted exactly when that click opened the bar |
| FilterBar.SortKeepsFilter | components/FilterBar.js:24-28 | choosing a sort keeps the filter, the search and the Home highlight |
| Sidebar.ClicksAreExclusive | components/Sidebar.js:9-18 | after any sidebar click, a non-default sort and a filter other than 'all' are never both active |
| Sidebar.SortClickShowsSorted | components/Sidebar.js:15-18 | with no search text, a sort link shows the whole accumulator in that sort's order, and "Load More" stays only for the default order |
| Sidebar.FilterClickSelects | components/Sidebar.js:9-12 | with no search text, a filter link shows the matching records in loaded order and hides "Load More"; 'all' shows the accumulator as loaded |
| Sidebar.Click | components/Sidebar.js:27-56 | a link click leaves the search and the category bar alone |
| Sidebar.ClickHighlightsOnlyIt | components/Sidebar.js:29-57 | after a link click exactly that link is highlighted |
| Sidebar.TrendingShowsMostLiked | components/Sidebar.js:27 | Trending, with no search, shows every loaded wallpaper most liked first (ties in loaded order) and hides "Load More" |
| Sidebar.FourKShowsUltraHd | components/Sidebar.js:48 | 4K, with no search, shows exactly the loaded 4k wallpapers in loaded order |
| Uri.Utf8Decodes | updateWallpapers.js:18 | every code point's UTF-8 bytes are a well-formed sequence that decodes back to it |
| Uri.DecodePlain | updateWallpapers.js:18 | text without `%` decodes to itself |
| Uri.BadEscapeFails | updateWallpapers.js:18 | a `%` not followed by two hex digits makes decoding fail |
| Uri.EncodeAlphabet | updateWallpapers.js:16-17 | an encoded path holds no `/` and no `?`, so the splits cannot cut into it |
| Uri.DecodeEncode | updateWallpapers.js:18 | decoding inverts encoding on every string |
| Migration.StorageSegment | updateWallpapers.js:16-17 | the segment is a prefix of the text after the first `/o/`, holds no `?`, has no `/o/` starting inside it, and ends at the end, at the first `?` or at the first `/o/` |
| Migration.CutSegmentUnique | updateWallpapers.js:16-17 | any prefix with those properties is the segment, so the cut is determined: it is the text before the first `/o/` or the first `?` |
| Migration.ImagePath | updateWallpapers.js:12-28 | an empty URL gives nothing; a Storage URL gives its decoded segment; any other URL gives the decoded last path segment, or nothing when it does not parse |
| Migration.StorageUrlRoundTrip | updateWallpapers.js:15-18 | a Storage URL built from an encoded object path, with any query after it, yields that path back, provided the `/o/` before the path is the first one |
| Migration.PathUrlRoundTrip | updateWallpapers.js:19-22 | a URL whose path ends with an encoded name yields that name back |
| Migration.UpdateFor | updateWallpapers.js:44-53 | an update is staged only for a record with a URL, without a path, whose URL yields a non-empty path, and it carries that path |
| Migration.SelectedMembership | updateWallpapers.js:43-54 | an update is staged exactly when some record of the snapshot produces it |
| Migration.MigrationIsIdempotent | updateWallpapers.js:45-49 | after the batch is applied, a second run stages nothing |
| Migration.UpdateWallpapers | updateWallpapers.js:30-63 | an empty snapshot stops early; otherwise the staged updates are the selected ones in snapshot order, the count is their number, and the batch is committed exactly when some record qualified |
| Sitemap.SitemapFor | app/sitemap.js:4-34 | the home page (daily, priority 1) and the about page (monthly, 0.5) come first, then one weekly page with priority 0.8 per id, in order |
| Sitemap.IdOf | app/sitemap.js:11 | a URL names a wallpaper exactly when it starts with the wallpaper prefix |
| Sitemap.SitemapIdsRoundTrip | app/sitemap.js:10-33 | reading the ids back from the wallpaper entries gives the snapshot's ids, and the static pages name none |
| Sitemap.WallpaperUrlsDistinct | app/sitemap.js:11 | distinct ids give distinct URLs |

## Left out

- Firestore, the network, `fetch`, blobs, `window.open` and the anchor-click download: the store and the remote updates are parameters (a page or a failure, a success flag), and only their effect on state is modelled.
- Image decoding: `Probe` gives an image's natural size or `None`. It is taken to answer the same for the same URL; a real reload could differ.
- Concurrency: each fetch is modelled as one atomic step. Two overlapping fetches, or a fetch that resolves after the controls changed, are not modelled. Neither is the order in which `Promise.all` settles; only its in-order result is.
- Rendering and JSX: the skeleton cards, the "reached the end" text, the spinner, the dimension caption on a tile (components/WallpaperItem.js:95; it needs number-to-text formatting) and the modal are not modelled. The visible list, the flags and the highlight predicates are.
- `generateRecommendations`, `handleLikeToggle`, `openModal` and `closeModal` on the home page (app/page.js:174-185): their bodies are elided in the source. The `selectedWallpaper` and `recommendations` state they drive is not modelled either.
- Sitemap `lastModified`: a clock read.
- The category bar, header, hero search debounce, wallpaper page client and the image proxies under app/api: these are not part of this model.
- `localStorage.setItem` failures and quota: storage writes always succeed.
- Text.ToLower: folds ASCII letters only. `toLowerCase` also folds non-ASCII letters.
- Text.LexLess: compares code points. JavaScript's default `sort()` compares UTF-16 code units, so the two differ only for characters outside the Basic Multilingual Plane.
- Migration.ImagePath: `new URL(u).pathname` is a parameter, not a URL parser. `Migration.PathUrlRoundTrip` assumes what that parameter returns.
- Migration.UpdateWallpapers: the console messages and the awaited `batch.commit()` are not modelled. `committed` records that the commit is issued.
- Sitemap.SitemapFor: priorities are kept in tenths (1, 0.5 and 0.8 become 10, 5 and 8). JavaScript numbers are not modelled.
- HomePage.WalkReachesStore: it assumes the store does not change between fetches and that document ids are distinct. The walk is stated over fetches alone; `HomePage.SettleIsInvisibleToFetch` shows the corrected recompute in between changes nothing the walk records.

## Findings

| source | as written | input that shows it | evidently intended | confidence | as-written member | corrected member |
|---|---|---|---|---|---|---|
| app/page.js:146-147 | After every accumulator change, the recompute sets `hasMore` to "no filter, search or sort is active". This overwrites the `false` a short page wrote (app/page.js:95-97). An empty page also sets the cursor to `undefined` (line 92-93). The next "Load More" then queries from the top again. | In the default view, a store holding one document: the initial fetch reads it, so `hasMore` goes false, then true again after the recompute. "Load More" fetches an empty page and clears the cursor, and `hasMore` goes true again. The next "Load More" appends the same document a second time. | A short page ends the stream. The recompute should only hide "Load More" while a filter, search or sort is active. | medium, not executed | HomePage.ShortPageForgotten | HomePage.CorrectedSettleKeepsEnd |
