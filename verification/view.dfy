/** The displayed list of the home page (app/page.js, `applyFiltersAndSort` and the
    category extraction): a pure function of the accumulated wallpapers, the active
    filter, the sort key and the search text, recomputed whenever one changes. */
module View {
  import opened Optional
  import opened Wallpapers
  import Text
  import Seqs
  import StableSort

  datatype View = View(visible: seq<Wallpaper>, hasMore: bool)

  // ---------------------------------------------------------------- search

  /** The title, or the empty string when it is missing (`title || ''`). */
  function TitleText(w: Wallpaper): string
  {
    if w.title.Some? then w.title.value else ""
  }

  /** A record matches a lower-cased query when its lower-cased title or one of its
      lower-cased tags contains the query. */
  predicate SearchMatch(w: Wallpaper, query: string)
  {
    || Text.Contains(Text.ToLower(TitleText(w)), query)
    || (w.tags.Some? && exists i :: 0 <= i < |w.tags.value| && Text.Contains(Text.ToLower(w.tags.value[i]), query))
  }

  function SearchTest(query: string): Wallpaper -> bool
  {
    w => SearchMatch(w, query)
  }

  // ---------------------------------------------------------------- filter

  function LowerAll(tags: seq<string>): (r: seq<string>)
    ensures |r| == |tags|
    ensures forall i :: 0 <= i < |tags| ==> r[i] == Text.ToLower(tags[i])
  {
    seq(|tags|, i requires 0 <= i < |tags| => Text.ToLower(tags[i]))
  }

  /** 'phone' and 'desktop' test the orientation, '4k' and 'hd' the resolution; any
      other filter value must be one of the record's lower-cased tags. */
  predicate FilterMatch(w: Wallpaper, filter: string)
  {
    if filter == "phone" || filter == "desktop" then
      w.orientation.Some? && OrientationName(w.orientation.value) == filter
    else if filter == "4k" || filter == "hd" then
      w.resolution.Some? && ResolutionName(w.resolution.value) == filter
    else
      w.tags.Some? && filter in LowerAll(w.tags.value)
  }

  function FilterTest(filter: string): Wallpaper -> bool
  {
    w => FilterMatch(w, filter)
  }

  /** The filter values in terms of the record's fields. */
  lemma FilterMatchMeaning(w: Wallpaper, filter: string)
    ensures filter == "phone" ==> (FilterMatch(w, filter) <==> w.orientation == Some(Phone))
    ensures filter == "desktop" ==> (FilterMatch(w, filter) <==> w.orientation == Some(Desktop))
    ensures filter == "4k" ==> (FilterMatch(w, filter) <==> w.resolution == Some(UltraHd))
    ensures filter == "hd" ==> (FilterMatch(w, filter) <==> w.resolution == Some(Hd))
    ensures filter !in {"phone", "desktop", "4k", "hd"} ==>
      (FilterMatch(w, filter) <==> w.tags.Some? && exists i :: 0 <= i < |w.tags.value| && Text.ToLower(w.tags.value[i]) == filter)
    ensures w.tags.None? && filter !in {"phone", "desktop", "4k", "hd"} ==> !FilterMatch(w, filter)
  {
    if filter !in {"phone", "desktop", "4k", "hd"} && w.tags.Some? {
      var lower := LowerAll(w.tags.value);
      assert filter in lower <==> exists i :: 0 <= i < |lower| && lower[i] == filter;
    }
  }

  // ---------------------------------------------------------------- the view

  /** Any filter, search text or sort other than the defaults. */
  predicate IsFiltered(filter: string, sortBy: string, search: string)
  {
    filter != "all" || Text.Trim(search) != "" || sortBy != "default"
  }

  /** The accumulator sorted by the sort key: descending likes or downloads, a
      missing count read as 0; any other key keeps the accumulator order. */
  function SortedBy(all: seq<Wallpaper>, sortBy: string): (r: seq<Wallpaper>)
    ensures sortBy == "likes" ==> StableSort.IsStableSortDesc(r, all, LikesOf)
    ensures sortBy == "downloads" ==> StableSort.IsStableSortDesc(r, all, DownloadsOf)
    ensures sortBy != "likes" && sortBy != "downloads" ==> r == all
  {
    if sortBy == "likes" then
      StableSort.SortDescIsStable(all, LikesOf);
      StableSort.SortDesc(all, LikesOf)
    else if sortBy == "downloads" then
      StableSort.SortDescIsStable(all, DownloadsOf);
      StableSort.SortDesc(all, DownloadsOf)
    else all
  }

  /** What `Seqs.Filter` keeps, element by element: every copy of a selected record
      and nothing else. */
  lemma Selection(all: seq<Wallpaper>, p: Wallpaper -> bool)
    ensures forall w :: multiset(Seqs.Filter(all, p))[w] == if p(w) then multiset(all)[w] else 0
    ensures forall w :: w in Seqs.Filter(all, p) <==> w in all && p(w)
  {
    forall w
      ensures multiset(Seqs.Filter(all, p))[w] == if p(w) then multiset(all)[w] else 0
      ensures w in Seqs.Filter(all, p) <==> w in all && p(w)
    {
      Seqs.FilterMultiplicity(all, p, w);
      Seqs.FilterMembership(all, p, w);
    }
  }

  /** The visible list and the `hasMore` value the recompute writes. A non-blank
      search selects from the unsorted accumulator and overrides the filter; else a
      filter other than 'all' selects from the unsorted accumulator; else the
      accumulator is shown sorted. */
  function ApplyFiltersAndSort(all: seq<Wallpaper>, filter: string, sortBy: string, search: string): (r: View)
    ensures r.hasMore <==> filter == "all" && Text.Trim(search) == "" && sortBy == "default"
    ensures Text.Trim(search) != "" ==>
      && Seqs.Subsequence(r.visible, all)
      && (forall w :: multiset(r.visible)[w] == if SearchMatch(w, Text.ToLower(search)) then multiset(all)[w] else 0)
      && forall w :: w in r.visible <==> w in all && SearchMatch(w, Text.ToLower(search))
    ensures Text.Trim(search) == "" && filter != "all" ==>
      && Seqs.Subsequence(r.visible, all)
      && (forall w :: multiset(r.visible)[w] == if FilterMatch(w, filter) then multiset(all)[w] else 0)
      && forall w :: w in r.visible <==> w in all && FilterMatch(w, filter)
    ensures Text.Trim(search) == "" && filter == "all" ==>
      && multiset(r.visible) == multiset(all)
      && (sortBy == "likes" ==> StableSort.IsStableSortDesc(r.visible, all, LikesOf))
      && (sortBy == "downloads" ==> StableSort.IsStableSortDesc(r.visible, all, DownloadsOf))
      && (sortBy != "likes" && sortBy != "downloads" ==> r.visible == all)
  {
    var sorted := SortedBy(all, sortBy);
    var visible :=
      if Text.Trim(search) != "" then
        var p := SearchTest(Text.ToLower(search));
        Seqs.FilterIsSubsequence(all, p);
        Selection(all, p);
        Seqs.Filter(all, p)
      else if filter != "all" then
        var p := FilterTest(filter);
        Seqs.FilterIsSubsequence(all, p);
        Selection(all, p);
        Seqs.Filter(all, p)
      else sorted;
    View(visible, !IsFiltered(filter, sortBy, search))
  }

  /** The search result depends only on the accumulator and the search text: the
      filter and the sort are ignored while a search is active. */
  lemma SearchOverridesFilterAndSort(all: seq<Wallpaper>, f1: string, s1: string, f2: string, s2: string, search: string)
    requires Text.Trim(search) != ""
    ensures ApplyFiltersAndSort(all, f1, s1, search).visible == ApplyFiltersAndSort(all, f2, s2, search).visible
    ensures !ApplyFiltersAndSort(all, f1, s1, search).hasMore
  {
  }

  lemma ScenarioQuery()
    ensures Text.Trim("an") == "an" && Text.ToLower("an") == "an"
  {
    assert !Text.IsWhiteSpace('a') && !Text.IsWhiteSpace('n');
    assert Text.TrimStart("an") == "an";
    var lower := Text.ToLower("an");
    assert |lower| == 2 && lower[0] == 'a' && lower[1] == 'n';
  }

  lemma ScenarioTitle()
    ensures Text.Contains(Text.ToLower("Ancient Ruins"), "an")
  {
    assert Text.ToLower("Ancient Ruins") == "ancient ruins";
  }

  lemma ScenarioTag()
    ensures Text.Contains(Text.ToLower("urban"), "an")
  {
    assert Text.ToLower("urban") == "urban";
    assert Text.Contains("urban"[2..], "an");
  }

  /** A non-blank search shows the records the lower-cased query matches, in
      accumulator order. */
  lemma SearchSelects(all: seq<Wallpaper>, filter: string, sortBy: string, search: string)
    requires Text.Trim(search) != ""
    ensures ApplyFiltersAndSort(all, filter, sortBy, search).visible == Seqs.Filter(all, SearchTest(Text.ToLower(search)))
  {
  }

  /** A filter other than 'all', with no search text, shows the records the filter
      value matches, in accumulator order and whatever the sort. */
  lemma FilterSelects(all: seq<Wallpaper>, filter: string, sortBy: string, search: string)
    requires Text.Trim(search) == "" && filter != "all"
    ensures ApplyFiltersAndSort(all, filter, sortBy, search).visible == Seqs.Filter(all, FilterTest(filter))
  {
  }

  /** Two matching records are both kept, in order. */
  lemma KeepBoth(a: Wallpaper, b: Wallpaper, query: string)
    requires SearchMatch(a, query) && SearchMatch(b, query)
    ensures Seqs.Filter([a, b], SearchTest(query)) == [a, b]
  {
    Seqs.FilterCons(a, [b], SearchTest(query));
    Seqs.FilterCons(b, [], SearchTest(query));
  }

  /** Searching "an" over "Ancient Ruins" (tag "anime") and "City Lights" (tag
      "urban") matches both records: the first by its title, the second because
      "urban" contains "an". */
  lemma SearchScenario()
    ensures
      var a := Wallpaper("1", "u1", Some("Ancient Ruins"), Some(["anime"]), None, None, None, None, None, None, None);
      var b := Wallpaper("2", "u2", Some("City Lights"), Some(["urban"]), None, None, None, None, None, None, None);
      ApplyFiltersAndSort([a, b], "all", "default", "an") == View([a, b], false)
  {
    var a := Wallpaper("1", "u1", Some("Ancient Ruins"), Some(["anime"]), None, None, None, None, None, None, None);
    var b := Wallpaper("2", "u2", Some("City Lights"), Some(["urban"]), None, None, None, None, None, None, None);
    ScenarioQuery();
    ScenarioTitle();
    ScenarioTag();
    assert SearchMatch(a, "an");
    assert b.tags.value[0] == "urban";
    assert Text.Contains(Text.ToLower(b.tags.value[0]), "an");
    assert SearchMatch(b, "an");
    KeepBoth(a, b, "an");
    SearchSelects([a, b], "all", "default", "an");
  }

  /** A search text made only of white space is no search at all. */
  lemma BlankSearchIgnored(all: seq<Wallpaper>, filter: string, sortBy: string, search: string)
    requires forall i :: 0 <= i < |search| ==> Text.IsWhiteSpace(search[i])
    ensures ApplyFiltersAndSort(all, filter, sortBy, search) == ApplyFiltersAndSort(all, filter, sortBy, "")
  {
    Text.TrimEmptyIffBlank(search);
    Text.TrimEmptyIffBlank("");
  }

  // ---------------------------------------------------------------- categories

  /** `t` is the lower-cased form of a tag of some accumulated record. */
  ghost predicate IsCategoryOf(t: string, all: seq<Wallpaper>)
  {
    exists i, j :: 0 <= i < |all| && all[i].tags.Some? && 0 <= j < |all[i].tags.value|
      && Text.ToLower(all[i].tags.value[j]) == t
  }

  function TagsOf(w: Wallpaper): seq<string>
  {
    if w.tags.Some? then LowerAll(w.tags.value) else []
  }

  /** The lower-cased tags of all records, in record order, with repetitions. */
  function AllTags(all: seq<Wallpaper>): seq<string>
  {
    if all == [] then [] else TagsOf(all[0]) + AllTags(all[1..])
  }

  lemma {:induction false} AllTagsMembership(all: seq<Wallpaper>, t: string)
    ensures t in AllTags(all) <==> IsCategoryOf(t, all)
    decreases |all|
  {
    if all != [] {
      AllTagsMembership(all[1..], t);
      if IsCategoryOf(t, all[1..]) {
        var i, j :| 0 <= i < |all[1..]| && all[1..][i].tags.Some? && 0 <= j < |all[1..][i].tags.value|
          && Text.ToLower(all[1..][i].tags.value[j]) == t;
        assert all[i + 1] == all[1..][i];
      }
      if IsCategoryOf(t, all) {
        var i, j :| 0 <= i < |all| && all[i].tags.Some? && 0 <= j < |all[i].tags.value|
          && Text.ToLower(all[i].tags.value[j]) == t;
        if i == 0 {
          assert TagsOf(all[0])[j] == t;
        } else {
          assert all[1..][i - 1] == all[i];
        }
      }
    }
  }

  /** The category list after an accumulator change: the distinct lower-cased tags in
      ascending order, or the previous list when the accumulator is empty. */
  function Categories(all: seq<Wallpaper>, previous: seq<string>): (r: seq<string>)
    ensures all == [] ==> r == previous
    ensures all != [] ==> Text.StrictlyAscending(r)
    ensures all != [] ==> forall t :: t in r <==> IsCategoryOf(t, all)
  {
    if all == [] then previous
    else
      var r := Text.SortedDistinct(AllTags(all));
      assert forall t :: t in r <==> IsCategoryOf(t, all) by {
        forall t
          ensures t in r <==> IsCategoryOf(t, all)
        {
          AllTagsMembership(all, t);
        }
      }
      r
  }
}
