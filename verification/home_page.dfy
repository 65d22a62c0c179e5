/** The paginated accumulator of the home page (app/page.js, `fetchWallpapers` and
    the effects that recompute the view). Each fetch is one atomic transition whose
    remote outcome, the page of documents or a failure, is a parameter. */
module HomePage {
  import opened Optional
  import opened Wallpapers
  import opened Controls
  import View
  import Text

  const PAGE_SIZE: nat := 12

  datatype HomeState = HomeState(
    all: seq<Wallpaper>,
    visible: seq<Wallpaper>,
    controls: Controls,
    isLoading: bool,
    isLoadingMore: bool,
    cursor: Option<Wallpaper>,
    hasMore: bool,
    categories: seq<string>)

  /** The state before the first fetch. */
  function Initial(): (s: HomeState)
    ensures s.all == [] && s.visible == [] && s.cursor.None? && s.hasMore
    ensures s.isLoading && !s.isLoadingMore && s.categories == []
    ensures s.controls == InitialControls()
  {
    HomeState([], [], InitialControls(), true, false, None, true, [])
  }

  /** The query a fetch issues: from the top, or strictly after the cursor document. */
  datatype Query = FromTop | StartAfter(cursor: Wallpaper)

  /** An initial fetch ignores the cursor; a later one starts after it when it is set. */
  function QueryFor(s: HomeState, isInitial: bool): (q: Query)
    ensures q.StartAfter? <==> !isInitial && s.cursor.Some?
    ensures q.StartAfter? ==> q.cursor == s.cursor.value
  {
    if isInitial then FromTop
    else match s.cursor
      case Some(c) => StartAfter(c)
      case None => FromTop
  }

  /** What the document store answers: a page of at most `PAGE_SIZE` raw documents,
      or an error. */
  datatype FetchOutcome = Failed | Fetched(page: seq<Wallpaper>)

  /** The last document of a page, `undefined` for an empty page. */
  function LastOf(page: seq<Wallpaper>): (r: Option<Wallpaper>)
    ensures r.None? <==> page == []
    ensures r.Some? ==> r.value == page[|page| - 1]
  {
    if page == [] then None else Some(page[|page| - 1])
  }

  /** `fetchWallpapers(isInitial)`: skipped when the end was reached and this is not
      an initial fetch; otherwise the enriched page replaces (initial) or extends the
      accumulator, the cursor moves to the page's last document, and a short page
      ends the stream. A failure changes nothing but the loading flags. */
  function Fetch(s: HomeState, isInitial: bool, outcome: FetchOutcome, probe: Probe): (r: HomeState)
    ensures !s.hasMore && !isInitial ==> r == s
    ensures s.hasMore || isInitial ==>
      && !r.isLoadingMore
      && r.isLoading == (s.isLoading && !isInitial)
      && r.visible == s.visible && r.controls == s.controls && r.categories == s.categories
    ensures (s.hasMore || isInitial) && outcome.Failed? ==>
      r.all == s.all && r.cursor == s.cursor && r.hasMore == s.hasMore
    ensures (s.hasMore || isInitial) && outcome.Fetched? ==>
      && r.all == (if isInitial then [] else s.all) + Enrich(outcome.page, probe)
      && r.cursor == LastOf(outcome.page)
      && (r.hasMore <==> s.hasMore && |outcome.page| >= PAGE_SIZE)
  {
    if !s.hasMore && !isInitial then s
    else
      var flags := s.(isLoading := s.isLoading && !isInitial, isLoadingMore := false);
      match outcome
      case Failed => flags
      case Fetched(page) =>
        var enriched := Enrich(page, probe);
        flags.(all := if isInitial then enriched else s.all + enriched,
               cursor := LastOf(page),
               hasMore := if |page| < PAGE_SIZE then false else s.hasMore)
  }

  /** A fetch never sets `hasMore`; it only clears it. */
  lemma FetchNeverReopens(s: HomeState, isInitial: bool, outcome: FetchOutcome, probe: Probe)
    ensures Fetch(s, isInitial, outcome, probe).hasMore ==> s.hasMore
  {
  }

  /** A later fetch only appends: the previous accumulator is a prefix of the new one. */
  lemma LoadMoreAppends(s: HomeState, outcome: FetchOutcome, probe: Probe)
    ensures s.all <= Fetch(s, false, outcome, probe).all
  {
  }

  // ---------------------------------------------------------------- the view effects

  /** The effects that run after the accumulator or a control changes, as written:
      the visible list and `hasMore` come from the view builder, and the category
      list is rebuilt. */
  function Settle(s: HomeState): (r: HomeState)
    ensures r.hasMore <==> !View.IsFiltered(s.controls.activeFilter, s.controls.sortBy, s.controls.searchQuery)
    ensures r.all == s.all && r.cursor == s.cursor && r.controls == s.controls
  {
    var c := s.controls;
    var v := View.ApplyFiltersAndSort(s.all, c.activeFilter, c.sortBy, c.searchQuery);
    s.(visible := v.visible, hasMore := v.hasMore, categories := View.Categories(s.all, s.categories))
  }

  /** A record with no stored dimensions. */
  function Sample(): Wallpaper
  {
    Wallpaper("a", "u", None, None, None, None, None, None, None, None, None)
  }

  /** As written, the end of the stream is forgotten in the default view: a one-record
      first page clears `hasMore`, the recompute sets it again, "Load More" fetches an
      empty page that clears the cursor, the recompute sets `hasMore` again, and the
      next "Load More" queries from the top and appends the first page a second time. */
  lemma ShortPageForgotten(probe: Probe)
    ensures
      var store := [Sample()];
      var s1 := Fetch(Initial(), true, Fetched(store), probe);
      var s2 := Settle(s1);
      var s3 := Settle(Fetch(s2, false, Fetched([]), probe));
      var s4 := Fetch(s3, false, Fetched(store), probe);
      && !s1.hasMore && s2.hasMore
      && s3.cursor.None? && s3.hasMore && QueryFor(s3, false) == FromTop
      && s4.all == Enrich(store + store, probe)
  {
    var store := [Sample()];
    EnrichAppend(store, store, probe);
    assert !View.IsFiltered("all", "default", "") by {
      assert Text.Trim("") == "";
    }
  }

  /** Whether the "Load More" button is offered: the stream has not ended and no
      filter, search or sort is active. */
  predicate ShowLoadMore(s: HomeState)
  {
    s.hasMore && !View.IsFiltered(s.controls.activeFilter, s.controls.sortBy, s.controls.searchQuery)
  }

  /** The recompute with the evident intent: `hasMore` keeps recording the end of the
      stream, and an active filter, search or sort only hides the button. */
  function SettleCorrected(s: HomeState): (r: HomeState)
    ensures r.hasMore == s.hasMore && r.all == s.all && r.cursor == s.cursor && r.controls == s.controls
    ensures ShowLoadMore(r) ==> !View.IsFiltered(r.controls.activeFilter, r.controls.sortBy, r.controls.searchQuery)
  {
    var c := s.controls;
    var v := View.ApplyFiltersAndSort(s.all, c.activeFilter, c.sortBy, c.searchQuery);
    s.(visible := v.visible, categories := View.Categories(s.all, s.categories))
  }

  /** With the corrected recompute a short page ends the stream for good: the next
      "Load More" is a no-op, so no later fetch can query from the top again. */
  lemma CorrectedSettleKeepsEnd(s: HomeState, isInitial: bool, page: seq<Wallpaper>, probe: Probe,
                                next: FetchOutcome, probe2: Probe)
    requires s.hasMore || isInitial
    requires |page| < PAGE_SIZE
    ensures
      var settled := SettleCorrected(Fetch(s, isInitial, Fetched(page), probe));
      && !settled.hasMore
      && !ShowLoadMore(settled)
      && Fetch(settled, false, next, probe2) == settled
  {
  }

  // ---------------------------------------------------------------- walking a store

  /** A collection of documents ordered as the query orders them (upload time,
      newest first), with distinct ids. */
  ghost predicate DistinctIds(store: seq<Wallpaper>)
  {
    forall i, j :: 0 <= i < j < |store| ==> store[i].id != store[j].id
  }

  function Min(a: int, b: int): int
  {
    if a <= b then a else b
  }

  /** The index of the first occurrence of `c`, or `|store|` when it is absent. */
  function Position(store: seq<Wallpaper>, c: Wallpaper): (k: nat)
    ensures k <= |store|
    ensures k < |store| ==> store[k] == c
    ensures forall j :: 0 <= j < k ==> store[j] != c
  {
    if store == [] then 0
    else if store[0] == c then 0
    else 1 + Position(store[1..], c)
  }

  /** The page the store returns for a query: up to `PAGE_SIZE` documents from the top
      or from just after the cursor document. */
  function PageOf(store: seq<Wallpaper>, q: Query): (page: seq<Wallpaper>)
    ensures |page| <= PAGE_SIZE
  {
    var start := match q
      case FromTop => 0
      case StartAfter(c) => Min(Position(store, c) + 1, |store|);
    store[start..Min(start + PAGE_SIZE, |store|)]
  }

  /** After `m` successful fetches against `store` (the first one initial), the
      accumulator holds the first `min(12 m, |store|)` documents, enriched, and
      `hasMore` holds exactly when none of the pages was short. */
  ghost predicate WalkedTo(s: HomeState, store: seq<Wallpaper>, probe: Probe, m: nat)
  {
    var k := Min(PAGE_SIZE * m, |store|);
    && s.all == Enrich(store[..k], probe)
    && (s.hasMore <==> PAGE_SIZE * m <= |store|)
    && (s.hasMore ==> k > 0 && s.cursor == Some(store[k - 1]))
  }

  /** The first fetch of a page load reaches the first page. */
  lemma InitialFetchWalks(s: HomeState, store: seq<Wallpaper>, probe: Probe)
    requires s.hasMore
    ensures WalkedTo(Fetch(s, true, Fetched(PageOf(store, FromTop)), probe), store, probe, 1)
  {
    var k := Min(PAGE_SIZE, |store|);
    var page := PageOf(store, FromTop);
    assert page == store[..k];
    var r := Fetch(s, true, Fetched(page), probe);
    assert r.all == Enrich(page, probe);
    assert r.cursor == LastOf(page);
    assert r.hasMore <==> |page| >= PAGE_SIZE;
  }

  /** Each "Load More" against the same store reaches the next page, and one past the
      end is a no-op. */
  lemma LoadMoreWalks(s: HomeState, store: seq<Wallpaper>, probe: Probe, m: nat)
    requires DistinctIds(store)
    requires m >= 1 && WalkedTo(s, store, probe, m)
    ensures WalkedTo(Fetch(s, false, Fetched(PageOf(store, QueryFor(s, false))), probe), store, probe, m + 1)
  {
    var k := Min(PAGE_SIZE * m, |store|);
    if s.hasMore {
      assert Position(store, store[k - 1]) == k - 1;
      var page := PageOf(store, QueryFor(s, false));
      var k' := Min(PAGE_SIZE * (m + 1), |store|);
      assert page == store[k..k'];
      assert store[..k'] == store[..k] + page;
      EnrichAppend(store[..k], page, probe);
    }
  }

  /** The corrected recompute leaves the walk where it was. */
  lemma SettleKeepsWalk(s: HomeState, store: seq<Wallpaper>, probe: Probe, m: nat)
    requires WalkedTo(s, store, probe, m)
    ensures WalkedTo(SettleCorrected(s), store, probe, m)
  {
  }

  /** The corrected recompute between two fetches changes nothing a fetch reads or
      the walk records: fetching after it gives the same accumulator, cursor and
      `hasMore` as fetching without it. */
  lemma SettleIsInvisibleToFetch(s: HomeState, isInitial: bool, outcome: FetchOutcome, probe: Probe)
    ensures var a := Fetch(SettleCorrected(s), isInitial, outcome, probe);
      var b := Fetch(s, isInitial, outcome, probe);
      a.all == b.all && a.cursor == b.cursor && a.hasMore == b.hasMore
  {
  }

  /** A walk whose stream has ended holds the whole store. */
  lemma EndedWalkIsWhole(s: HomeState, store: seq<Wallpaper>, probe: Probe, m: nat)
    requires WalkedTo(s, store, probe, m)
    ensures !s.hasMore ==> s.all == Enrich(store, probe)
  {
    assert store[..|store|] == store;
  }

  /** The fetches of a page load: an initial fetch followed by `n` "Load More"
      fetches. The recompute in between is left out: in its corrected form it changes
      neither the accumulator, the cursor nor `hasMore` (`SettleIsInvisibleToFetch`). */
  function Walk(store: seq<Wallpaper>, probe: Probe, n: nat): HomeState
  {
    if n == 0 then Fetch(Initial(), true, Fetched(PageOf(store, FromTop)), probe)
    else
      var s := Walk(store, probe, n - 1);
      Fetch(s, false, Fetched(PageOf(store, QueryFor(s, false))), probe)
  }

  /** Walking a store with `N` documents: after `n + 1` fetches the accumulator holds
      the first `min(12 (n + 1), N)` documents and `hasMore` turns false on the first
      fetch whose page is short. */
  lemma {:induction false} WalkReachesStore(store: seq<Wallpaper>, probe: Probe, n: nat)
    requires DistinctIds(store)
    ensures WalkedTo(Walk(store, probe, n), store, probe, n + 1)
  {
    if n == 0 {
      InitialFetchWalks(Initial(), store, probe);
    } else {
      var prev := Walk(store, probe, n - 1);
      WalkReachesStore(store, probe, n - 1);
      LoadMoreWalks(prev, store, probe, n);
      assert Walk(store, probe, n) == Fetch(prev, false, Fetched(PageOf(store, QueryFor(prev, false))), probe);
    }
  }

  /** Once the walk reports the end of the stream, the accumulator is the whole store,
      enriched, in query order. */
  lemma WalkEndsWithStore(store: seq<Wallpaper>, probe: Probe, n: nat)
    requires DistinctIds(store)
    ensures !Walk(store, probe, n).hasMore ==> Walk(store, probe, n).all == Enrich(store, probe)
  {
    WalkReachesStore(store, probe, n);
    EndedWalkIsWhole(Walk(store, probe, n), store, probe, n + 1);
  }
}
