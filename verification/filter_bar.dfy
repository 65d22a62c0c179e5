/** The filter bar above the gallery (components/FilterBar.js): main filter buttons,
    the sort drop-down and the highlight rules. */
module FilterBar {
  import opened Controls

  /** The bar's own state: the label of the chosen sort and whether the drop-down is
      open. */
  datatype BarState = BarState(sortLabel: string, dropdownOpen: bool)

  function InitialBar(): (b: BarState)
    ensures b.sortLabel == "Most Popular" && !b.dropdownOpen
  {
    BarState("Most Popular", false)
  }

  /** `handleMainFilterClick`: the filter is set; 'all' also clears the search;
      'categories' toggles the category bar and every other filter hides it. */
  function MainFilterClick(c: Controls, filter: string): (r: Controls)
    ensures r.activeFilter == filter && r.sortBy == c.sortBy
    ensures r.searchQuery == (if filter == "all" then "" else c.searchQuery)
    ensures r.showCategories <==> filter == "categories" && !c.showCategories
  {
    c.(activeFilter := filter,
       searchQuery := if filter == "all" then "" else c.searchQuery,
       showCategories := if filter == "categories" then !c.showCategories else false)
  }

  /** `handleSortClick`: sets the sort and its label and closes the drop-down. */
  function SortClick(c: Controls, b: BarState, sort: string, caption: string): (r: (Controls, BarState))
    ensures r.0 == c.(sortBy := sort)
    ensures r.1 == BarState(caption, false)
  {
    (c.(sortBy := sort), b.(sortLabel := caption, dropdownOpen := false))
  }

  /** The sort button opens or closes the drop-down. */
  function ToggleDropdown(b: BarState): (r: BarState)
    ensures r.dropdownOpen != b.dropdownOpen && r.sortLabel == b.sortLabel
  {
    b.(dropdownOpen := !b.dropdownOpen)
  }

  /** The Categories button is highlighted while the category bar is shown and the
      filter is 'categories' or one of the categories. */
  predicate IsCategoriesActive(c: Controls, categories: seq<string>)
  {
    c.showCategories && (c.activeFilter == "categories" || c.activeFilter in categories)
  }

  /** Home is highlighted when no filter and no search text are active. */
  predicate IsHomeActive(c: Controls)
  {
    c.activeFilter == "all" && c.searchQuery == ""
  }

  /** 'For Phone' and 'For Desktop' are highlighted when their filter is active. */
  predicate IsFilterActive(c: Controls, filter: string)
  {
    c.activeFilter == filter
  }

  /** Clicking Home always leads to the highlighted Home state with the bar hidden. */
  lemma HomeClickResets(c: Controls, categories: seq<string>)
    ensures IsHomeActive(MainFilterClick(c, "all"))
    ensures !IsCategoriesActive(MainFilterClick(c, "all"), categories)
  {
  }

  /** Clicking Categories twice restores the category bar and keeps the search. */
  lemma CategoriesTwice(c: Controls)
    ensures MainFilterClick(MainFilterClick(c, "categories"), "categories") == c.(activeFilter := "categories")
  {
  }

  /** Clicking Categories highlights it exactly when it opens the bar; any other main
      filter removes the highlight. */
  lemma CategoriesHighlight(c: Controls, filter: string, categories: seq<string>)
    ensures IsCategoriesActive(MainFilterClick(c, filter), categories) <==> filter == "categories" && !c.showCategories
  {
  }

  /** A sort choice leaves the filter, the search and the category bar alone. */
  lemma SortKeepsFilter(c: Controls, b: BarState, sort: string, caption: string)
    ensures SortClick(c, b, sort, caption).0.activeFilter == c.activeFilter
    ensures SortClick(c, b, sort, caption).0.searchQuery == c.searchQuery
    ensures IsHomeActive(SortClick(c, b, sort, caption).0) == IsHomeActive(c)
  {
  }
}
