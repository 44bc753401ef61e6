/**
  The state of the table component: the current page's rows, the paging
  counters, the loading flag, the selection, and the custom-select dialog.
  The fetch is split at its suspension point: StartFetch is what runs before
  the request is awaited, ApplyResponse what runs once the response arrives,
  with the decoded rows and counters as its arguments.
 */
module AppState {
  import opened Wrappers
  import opened JsInt
  import opened Selection
  import opened Paging

  class App {
    var artworks: seq<int>     // ids of the current page's rows, in order
    var currentPage: int
    var totalPages: int
    var loading: bool
    var selectedIds: set<int>
    var showOverlay: bool      // the custom-select dialog is open
    var selectCount: string    // text of the dialog's number field

    /** The state before anything is fetched. */
    constructor ()
      ensures artworks == [] && currentPage == 1 && totalPages == 1 && !loading
      ensures selectedIds == {} && !showOverlay && selectCount == ""
    {
      artworks := [];
      currentPage := 1;
      totalPages := 1;
      loading := false;
      selectedIds := {};
      showOverlay := false;
      selectCount := "";
    }

    /** `fetchdata(page)` up to the awaited request: raise the loading flag; `request` is the page put in the URL. */
    method StartFetch(page: int) returns (request: int)
      modifies this
      ensures loading && request == page
      ensures artworks == old(artworks) && currentPage == old(currentPage) && totalPages == old(totalPages)
      ensures selectedIds == old(selectedIds) && showOverlay == old(showOverlay) && selectCount == old(selectCount)
    {
      loading := true;
      request := page;
    }

    /** The rest of `fetchdata`: the response replaces the rows and both counters and ends loading. */
    method ApplyResponse(rows: seq<int>, responsePage: int, responseTotal: int)
      modifies this
      ensures artworks == rows && currentPage == responsePage && totalPages == responseTotal && !loading
      ensures selectedIds == old(selectedIds) && showOverlay == old(showOverlay) && selectCount == old(selectCount)
    {
      artworks := rows;
      currentPage := responsePage;
      totalPages := responseTotal;
      loading := false;
    }

    /** The mount effect: fetch page 1. */
    method Mount() returns (request: int)
      modifies this
      ensures loading && request == 1
      ensures artworks == old(artworks) && currentPage == old(currentPage) && totalPages == old(totalPages)
      ensures selectedIds == old(selectedIds) && showOverlay == old(showOverlay) && selectCount == old(selectCount)
    {
      request := StartFetch(1);
    }

    /** `changepage(page)`: start fetching `page`. */
    method ChangePage(page: int) returns (request: int)
      modifies this
      ensures loading && request == page
      ensures artworks == old(artworks) && currentPage == old(currentPage) && totalPages == old(totalPages)
      ensures selectedIds == old(selectedIds) && showOverlay == old(showOverlay) && selectCount == old(selectCount)
    {
      request := StartFetch(page);
    }

    /** A click on Prev: nothing while disabled, else a fetch of the previous page. */
    method ClickPrev() returns (request: Option<int>)
      modifies this
      ensures request == PrevTarget(old(currentPage))
      ensures loading == (old(loading) || request.Some?)
      ensures artworks == old(artworks) && currentPage == old(currentPage) && totalPages == old(totalPages)
      ensures selectedIds == old(selectedIds) && showOverlay == old(showOverlay) && selectCount == old(selectCount)
    {
      if PrevDisabled(currentPage) {
        request := None;
      } else {
        var page := ChangePage(currentPage - 1);
        request := Some(page);
      }
    }

    /** A click on Next: nothing while disabled, else a fetch of the next page. */
    method ClickNext() returns (request: Option<int>)
      modifies this
      ensures request == NextTarget(old(currentPage), old(totalPages))
      ensures loading == (old(loading) || request.Some?)
      ensures artworks == old(artworks) && currentPage == old(currentPage) && totalPages == old(totalPages)
      ensures selectedIds == old(selectedIds) && showOverlay == old(showOverlay) && selectCount == old(selectCount)
    {
      if NextDisabled(currentPage, totalPages) {
        request := None;
      } else {
        var page := ChangePage(currentPage + 1);
        request := Some(page);
      }
    }

    /** `checked` of the header checkbox. */
    predicate IsHeaderChecked()
      reads this
    {
      HeaderChecked(artworks, selectedIds)
    }

    /** The "Selected: n" counter. */
    function SelectedCount(): nat
      reads this
    {
      |selectedIds|
    }

    /** `togglerow(id)`. */
    method ToggleRow(id: int)
      modifies this
      ensures selectedIds == Toggled(old(selectedIds), id)
      ensures artworks == old(artworks) && currentPage == old(currentPage) && totalPages == old(totalPages)
      ensures loading == old(loading) && showOverlay == old(showOverlay) && selectCount == old(selectCount)
    {
      selectedIds := Toggled(selectedIds, id);
    }

    /** `selectallcurrentpage()`: the `every` test, then the updater's loop. */
    method SelectAllCurrentPage()
      modifies this
      ensures selectedIds == SelectAllPage(old(selectedIds), artworks)
      ensures artworks == old(artworks) && currentPage == old(currentPage) && totalPages == old(totalPages)
      ensures loading == old(loading) && showOverlay == old(showOverlay) && selectCount == old(selectCount)
    {
      var allSelected := AllSelected(artworks, selectedIds);
      ghost var prev := selectedIds;
      selectedIds := ApplyToPage(selectedIds, artworks, allSelected);
      forall x ensures x in selectedIds <==> x in SelectAllPage(prev, artworks) {
        SelectAllMembership(prev, artworks, x);
      }
    }

    /** The "Custom Select" button opens the dialog. */
    method OpenOverlay()
      modifies this
      ensures showOverlay
      ensures artworks == old(artworks) && currentPage == old(currentPage) && totalPages == old(totalPages)
      ensures loading == old(loading) && selectedIds == old(selectedIds) && selectCount == old(selectCount)
    {
      showOverlay := true;
    }

    /** Typing in the dialog's number field replaces the count text. */
    method EditCount(text: string)
      modifies this
      ensures selectCount == text
      ensures artworks == old(artworks) && currentPage == old(currentPage) && totalPages == old(totalPages)
      ensures loading == old(loading) && selectedIds == old(selectedIds) && showOverlay == old(showOverlay)
    {
      selectCount := text;
    }

    /** Cancel closes the dialog and keeps the typed text. */
    method CancelOverlay()
      modifies this
      ensures !showOverlay
      ensures artworks == old(artworks) && currentPage == old(currentPage) && totalPages == old(totalPages)
      ensures loading == old(loading) && selectedIds == old(selectedIds) && selectCount == old(selectCount)
    {
      showOverlay := false;
    }

    /** `customselect()`: parse the text, add the first rows, close the dialog and clear the text. */
    method CustomSelect()
      modifies this
      ensures selectedIds == CustomSelected(old(selectedIds), artworks, ParseInt(old(selectCount)))
      ensures !showOverlay && selectCount == ""
      ensures artworks == old(artworks) && currentPage == old(currentPage) && totalPages == old(totalPages)
      ensures loading == old(loading)
    {
      var count := ParseInt(selectCount);
      ghost var prev := selectedIds;
      selectedIds := AddRows(selectedIds, FirstRows(artworks, count));
      assert forall x :: x in selectedIds <==> x in CustomSelected(prev, artworks, count);
      showOverlay := false;
      selectCount := "";
    }
  }

  /**
    Leaving a page and coming back: whatever pages the two responses bring,
    the selection is the one before, so the rows selected on the original
    page are still selected when it is shown again.
   */
  method NavigateAndReturn(app: App, away: int, awayRows: seq<int>, awayTotal: int,
                           backRows: seq<int>, backTotal: int)
    modifies app
    ensures app.selectedIds == old(app.selectedIds)
    ensures app.artworks == backRows && app.currentPage == old(app.currentPage) && !app.loading
    ensures forall x | x in backRows :: x in app.selectedIds <==> x in old(app.selectedIds)
  {
    var home := app.currentPage;
    var _ := app.ChangePage(away);
    app.ApplyResponse(awayRows, away, awayTotal);
    var _ := app.ChangePage(home);
    app.ApplyResponse(backRows, home, backTotal);
  }

  /** Cancelling the dialog and opening it again shows the text typed before. */
  method CancelThenReopen(app: App)
    modifies app
    ensures app.showOverlay && app.selectCount == old(app.selectCount)
    ensures app.selectedIds == old(app.selectedIds)
  {
    app.CancelOverlay();
    app.OpenOverlay();
  }

  /** On the first render, before the mount effect runs, the component shows page 1 of 1, so neither Prev nor Next requests anything. */
  method InitialButtonsDisabled() returns (prev: Option<int>, next: Option<int>)
    ensures prev == None && next == None
  {
    var app := new App();
    prev := app.ClickPrev();
    next := app.ClickNext();
  }

  /** The first scenario end to end on the component: page 1 of 5 holds rows 101 and 102. */
  method ScenarioOnApp() returns (counts: seq<nat>)
    ensures counts == [1, 2, 0]
  {
    var app := new App();
    var _ := app.Mount();
    app.ApplyResponse([101, 102], 1, 5);
    app.ToggleRow(101);
    var c1 := app.SelectedCount();
    app.SelectAllCurrentPage();
    var c2 := app.SelectedCount();
    app.SelectAllCurrentPage();
    var c3 := app.SelectedCount();
    ScenarioToggleAndSelectAll();
    counts := [c1, c2, c3];
  }
}
