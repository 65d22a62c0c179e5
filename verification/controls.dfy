/** The home page's control state (app/page.js lines 47-49, 55), shared by the
    filter bar, the sidebar and the view builder. */
module Controls {

  datatype Controls = Controls(
    activeFilter: string,
    sortBy: string,
    searchQuery: string,
    showCategories: bool)

  /** The values the page starts with: filter 'all', sort 'default', no search,
      category bar hidden. */
  function InitialControls(): (c: Controls)
    ensures c.activeFilter == "all" && c.sortBy == "default" && c.searchQuery == "" && !c.showCategories
  {
    Controls("all", "default", "", false)
  }
}
