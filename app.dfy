/**
 * `App`, the composition root: it owns the manager and the UI and offers the
 * page and category navigation the rendered buttons call. Rendering and
 * scrolling are not modelled; the login wiring is not part of this model.
 */
module Navigation {
  import opened JsNumber
  import opened Memos
  import opened Manager
  import opened Ui

  class App {
    const manager: MemoManager
    const ui: MemoUI

    /** `new App()`: one manager, loaded from `persisted`, shared with the UI. */
    constructor (persisted: Option<seq<Memo>>)
      ensures fresh(manager) && fresh(ui) && ui.manager == manager
      ensures manager.memos == (if persisted.Some? then persisted.value else [])
      ensures manager.currentPage == 1 && manager.selectedCategory == None
      ensures manager.editingId == None && manager.Saved()
    {
      var m := new MemoManager(persisted);
      manager := m;
      ui := new MemoUI(m);
    }

    /** `filterByCategory`: selects the category (None shows all) and goes back to page 1. */
    method FilterByCategory(category: Option<string>)
      modifies manager`selectedCategory, manager`currentPage
      ensures manager.selectedCategory == category && manager.currentPage == 1
      ensures !FilterActive(category) ==> manager.GetTotalPages() == CeilDiv(|manager.memos|, ItemsPerPage)
    {
      manager.selectedCategory := category;
      manager.currentPage := 1;
    }

    /** `goToPage`: any page number is taken as it is. */
    method GoToPage(page: int)
      modifies manager`currentPage
      ensures manager.currentPage == page
    {
      manager.currentPage := page;
    }

    /**
     * `nextPage`: one page on unless already on the last page (or past it).
     * A page within 1..getTotalPages() stays within it.
     */
    method NextPage()
      modifies manager`currentPage
      ensures old(manager.currentPage) < manager.GetTotalPages() ==>
                manager.currentPage == old(manager.currentPage) + 1
      ensures old(manager.currentPage) >= manager.GetTotalPages() ==>
                manager.currentPage == old(manager.currentPage)
      ensures 1 <= old(manager.currentPage) <= manager.GetTotalPages() ==>
                1 <= manager.currentPage <= manager.GetTotalPages()
    {
      if manager.currentPage < manager.GetTotalPages() {
        GoToPage(manager.currentPage + 1);
      }
    }

    /**
     * `previousPage`: one page back unless already on page 1 (or before it).
     * A page within 1..getTotalPages() stays within it.
     */
    method PreviousPage()
      modifies manager`currentPage
      ensures old(manager.currentPage) > 1 ==> manager.currentPage == old(manager.currentPage) - 1
      ensures old(manager.currentPage) <= 1 ==> manager.currentPage == old(manager.currentPage)
      ensures 1 <= old(manager.currentPage) <= manager.GetTotalPages() ==>
                1 <= manager.currentPage <= manager.GetTotalPages()
    {
      if manager.currentPage > 1 {
        GoToPage(manager.currentPage - 1);
      }
    }
  }
}
