/** The sidebar (components/Sidebar.js): choosing a sort resets the filter, choosing
    a filter resets the sort, and each link is highlighted by the state it sets. */
module Sidebar {
  import opened Controls
  import opened Optional
  import opened Wallpapers
  import Seqs
  import StableSort
  import Text
  import View

  /** `handleFilterClick`: sets the filter and resets the sort. */
  function FilterClick(c: Controls, filter: string): (r: Controls)
    ensures r == c.(activeFilter := filter, sortBy := "default")
  {
    c.(activeFilter := filter, sortBy := "default")
  }

  /** `handleSortClick`: sets the sort and resets the filter. */
  function SortClick(c: Controls, sort: string): (r: Controls)
    ensures r == c.(sortBy := sort, activeFilter := "all")
  {
    c.(sortBy := sort, activeFilter := "all")
  }

  /** After any sidebar click a sort and a filter are never both active. */
  lemma ClicksAreExclusive(c: Controls, value: string)
    ensures var r := FilterClick(c, value); r.sortBy == "default" || r.activeFilter == "all"
    ensures var r := SortClick(c, value); r.sortBy == "default" || r.activeFilter == "all"
  {
  }

  /** With no search text, a sort choice shows the whole accumulator ordered by that
      sort, and "Load More" stays only for the default order. */
  lemma SortClickShowsSorted(c: Controls, sort: string, all: seq<Wallpaper>)
    requires Text.Trim(c.searchQuery) == ""
    ensures var r := SortClick(c, sort);
      var v := View.ApplyFiltersAndSort(all, r.activeFilter, r.sortBy, r.searchQuery);
      && v.visible == View.SortedBy(all, sort)
      && multiset(v.visible) == multiset(all)
      && (v.hasMore <==> sort == "default")
  {
  }

  /** With no search text, a filter choice shows the matching records in loaded order
      and hides "Load More"; choosing 'all' shows the accumulator as loaded. */
  lemma FilterClickSelects(c: Controls, filter: string, all: seq<Wallpaper>)
    requires Text.Trim(c.searchQuery) == ""
    ensures var r := FilterClick(c, filter);
      var v := View.ApplyFiltersAndSort(all, r.activeFilter, r.sortBy, r.searchQuery);
      && (filter != "all" ==> v.visible == Seqs.Filter(all, View.FilterTest(filter)) && !v.hasMore)
      && (filter == "all" ==> v.visible == all && v.hasMore)
  {
    var r := FilterClick(c, filter);
    if filter != "all" {
      View.FilterSelects(all, r.activeFilter, r.sortBy, r.searchQuery);
    }
  }

  /** The four links: Trending and Recently Added sort, 4K and HD filter. */
  datatype Link = Trending | RecentlyAdded | FourK | HdLink

  predicate IsSortLink(l: Link)
  {
    l == Trending || l == RecentlyAdded
  }

  /** The sort key or filter value a link sets. */
  function LinkValue(l: Link): string
  {
    match l
    case Trending => "likes"
    case RecentlyAdded => "recent"
    case FourK => "4k"
    case HdLink => "hd"
  }

  /** Clicking a link. */
  function Click(c: Controls, l: Link): (r: Controls)
    ensures r.searchQuery == c.searchQuery && r.showCategories == c.showCategories
  {
    if IsSortLink(l) then SortClick(c, LinkValue(l)) else FilterClick(c, LinkValue(l))
  }

  /** A link is highlighted when the state it controls holds its value. */
  predicate IsActive(c: Controls, l: Link)
  {
    if IsSortLink(l) then c.sortBy == LinkValue(l) else c.activeFilter == LinkValue(l)
  }

  /** After clicking a link exactly that link is highlighted. */
  lemma ClickHighlightsOnlyIt(c: Controls, clicked: Link, other: Link)
    ensures IsActive(Click(c, clicked), clicked)
    ensures other != clicked ==> !IsActive(Click(c, clicked), other)
  {
  }

  /** Trending, with no search text, shows every loaded wallpaper, most liked first and
      ties in loaded order, and hides "Load More". */
  lemma TrendingShowsMostLiked(c: Controls, all: seq<Wallpaper>)
    requires Text.Trim(c.searchQuery) == ""
    ensures var r := Click(c, Trending);
      var v := View.ApplyFiltersAndSort(all, r.activeFilter, r.sortBy, r.searchQuery);
      StableSort.IsStableSortDesc(v.visible, all, LikesOf) && !v.hasMore
  {
  }

  /** 4K Wallpapers, with no search text, shows exactly the loaded 4K wallpapers, in
      loaded order. */
  lemma FourKShowsUltraHd(c: Controls, all: seq<Wallpaper>)
    requires Text.Trim(c.searchQuery) == ""
    ensures var r := Click(c, FourK);
      var v := View.ApplyFiltersAndSort(all, r.activeFilter, r.sortBy, r.searchQuery);
      && Seqs.Subsequence(v.visible, all)
      && (forall w :: w in v.visible <==> w in all && w.resolution == Some(UltraHd))
      && !v.hasMore
  {
    forall w {
      View.FilterMatchMeaning(w, "4k");
    }
  }
}
