/**
  The set of selected record ids and the three updates the table applies to it:
  toggling one row, the header checkbox (select or deselect the whole current
  page) and the custom select (add the first rows of the current page).
  A page is the sequence of its rows' ids, in table order.
 */
module Selection {
  import opened Wrappers
  import opened JsInt

  /** The ids on a page, as a set. */
  function Ids(rows: seq<int>): set<int> {
    set x | x in rows
  }

  /** `artworks.every(a => selectedids.has(a.id))`: vacuously true on an empty page. */
  predicate AllSelected(rows: seq<int>, sel: set<int>) {
    forall i | 0 <= i < |rows| :: rows[i] in sel
  }

  /** No row of the page is selected. */
  predicate NoneSelected(rows: seq<int>, sel: set<int>) {
    forall i | 0 <= i < |rows| :: rows[i] !in sel
  }

  /** The `checked` state of the header checkbox: some rows, all of them selected. */
  predicate HeaderChecked(rows: seq<int>, sel: set<int>) {
    |rows| > 0 && AllSelected(rows, sel)
  }

  /** The header checkbox is checked exactly when the page is non-empty and all its ids are selected. */
  lemma HeaderCheckedMeaning(rows: seq<int>, sel: set<int>)
    ensures HeaderChecked(rows, sel) <==> rows != [] && Ids(rows) <= sel
  {
  }

  // ---------------------------------------------------------------------------
  // togglerow

  /** The selection after clicking the checkbox of row `id`. */
  function Toggled(sel: set<int>, id: int): (r: set<int>)
    ensures id in r <==> id !in sel
    ensures forall x | x != id :: x in r <==> x in sel
  {
    if id in sel then sel - {id} else sel + {id}
  }

  /** Toggling the same row twice restores the selection. */
  lemma ToggleTwice(sel: set<int>, id: int)
    ensures Toggled(Toggled(sel, id), id) == sel
  {
  }

  /** The selected count shown above the table moves by exactly one. */
  lemma ToggleSize(sel: set<int>, id: int)
    ensures |Toggled(sel, id)| == if id in sel then |sel| - 1 else |sel| + 1
  {
  }

  /** The selection after `n` clicks on the checkbox of row `id`. */
  function ToggledTimes(sel: set<int>, id: int, n: nat): set<int> {
    if n == 0 then sel else Toggled(ToggledTimes(sel, id, n - 1), id)
  }

  /** An even number of clicks on one row is no change; an odd number is one toggle. */
  lemma {:induction false} ToggleParity(sel: set<int>, id: int, n: nat)
    ensures ToggledTimes(sel, id, n) == if n % 2 == 0 then sel else Toggled(sel, id)
  {
    if n > 0 {
      ToggleParity(sel, id, n - 1);
      if n % 2 == 0 {
        ToggleTwice(sel, id);
      }
    }
  }

  // ---------------------------------------------------------------------------
  // selectallcurrentpage

  /**
    The `forEach` loop of the header checkbox's updater: starting from a copy of
    `prev`, delete every page id when `allSelected`, add every page id otherwise.
   */
  method ApplyToPage(prev: set<int>, rows: seq<int>, allSelected: bool) returns (newSet: set<int>)
    ensures forall x | x in rows :: x in newSet <==> !allSelected
    ensures forall x | x !in rows :: x in newSet <==> x in prev
  {
    newSet := prev;
    for i := 0 to |rows|
      invariant forall x | x in rows[..i] :: x in newSet <==> !allSelected
      invariant forall x | x !in rows[..i] :: x in newSet <==> x in prev
    {
      assert rows[..i + 1] == rows[..i] + [rows[i]];
      if allSelected {
        newSet := newSet - {rows[i]};
      } else {
        newSet := newSet + {rows[i]};
      }
    }
    assert rows[..|rows|] == rows;
  }

  /** The selection after clicking the header checkbox while `rows` is the current page. */
  function SelectAllPage(sel: set<int>, rows: seq<int>): set<int> {
    if AllSelected(rows, sel) then sel - Ids(rows) else sel + Ids(rows)
  }

  /**
    Clicking the header checkbox changes only the page's ids: all of them leave
    the selection when all were selected before, and all of them join it otherwise.
   */
  lemma SelectAllMembership(sel: set<int>, rows: seq<int>, x: int)
    ensures x in rows ==> (x in SelectAllPage(sel, rows) <==> !AllSelected(rows, sel))
    ensures x !in rows ==> (x in SelectAllPage(sel, rows) <==> x in sel)
  {
  }

  /** An empty page: `every` is true and the loop never runs, so nothing changes. */
  lemma SelectAllEmptyPage(sel: set<int>)
    ensures SelectAllPage(sel, []) == sel
  {
  }

  /** With none or all of the page selected, two clicks on the header restore the selection. */
  lemma SelectAllTwice(sel: set<int>, rows: seq<int>)
    requires NoneSelected(rows, sel) || AllSelected(rows, sel)
    ensures SelectAllPage(SelectAllPage(sel, rows), rows) == sel
  {
    var once := SelectAllPage(sel, rows);
    if AllSelected(rows, sel) {
      if rows != [] {
        assert rows[0] !in once;
      }
      assert NoneSelected(rows, once);
    } else {
      assert AllSelected(rows, once);
    }
  }

  /** With part of a non-empty page selected, two clicks on the header deselect the whole page. */
  lemma SelectAllTwicePartial(sel: set<int>, rows: seq<int>)
    requires !NoneSelected(rows, sel) && !AllSelected(rows, sel)
    ensures SelectAllPage(SelectAllPage(sel, rows), rows) == sel - Ids(rows)
  {
    assert AllSelected(rows, SelectAllPage(sel, rows));
  }

  /** A click on the header checkbox flips it, except on an empty page where it stays unchecked. */
  lemma SelectAllFlipsHeader(sel: set<int>, rows: seq<int>)
    ensures HeaderChecked(rows, SelectAllPage(sel, rows)) <==> |rows| > 0 && !HeaderChecked(rows, sel)
  {
    var after := SelectAllPage(sel, rows);
    if |rows| > 0 && AllSelected(rows, sel) {
      assert rows[0] !in after;
    }
  }

  // ---------------------------------------------------------------------------
  // customselect

  /** The `forEach` loop of the custom-select updater: add every id of `rows` to a copy of `prev`. */
  method AddRows(prev: set<int>, rows: seq<int>) returns (newSet: set<int>)
    ensures forall x :: x in newSet <==> x in prev || x in rows
  {
    newSet := prev;
    for i := 0 to |rows|
      invariant forall x :: x in newSet <==> x in prev || x in rows[..i]
    {
      assert rows[..i + 1] == rows[..i] + [rows[i]];
      newSet := newSet + {rows[i]};
    }
    assert rows[..|rows|] == rows;
  }

  /** The rows `artworks.slice(0, count)` keeps. */
  function FirstRows(rows: seq<int>, count: Option<int>): (r: seq<int>)
    ensures |r| <= |rows|
  {
    rows[..SliceEnd(|rows|, count)]
  }

  /** The selection after the custom select with parsed count `count` (`None` is NaN). */
  function CustomSelected(sel: set<int>, rows: seq<int>, count: Option<int>): set<int> {
    sel + Ids(FirstRows(rows, count))
  }

  /** The custom select only adds, and only ids of the current page. */
  lemma CustomSelectAdditive(sel: set<int>, rows: seq<int>, count: Option<int>)
    ensures sel <= CustomSelected(sel, rows, count)
    ensures CustomSelected(sel, rows, count) - sel <= Ids(rows)
  {
  }

  /** A count between 0 and the page length adds exactly the first `n` rows. */
  lemma CustomSelectFirstN(sel: set<int>, rows: seq<int>, n: int)
    requires 0 <= n <= |rows|
    ensures CustomSelected(sel, rows, Some(n)) == sel + Ids(rows[..n])
  {
  }

  /** A count at or above the page length adds the whole page. */
  lemma CustomSelectWholePage(sel: set<int>, rows: seq<int>, n: int)
    requires n >= |rows|
    ensures CustomSelected(sel, rows, Some(n)) == sel + Ids(rows)
  {
    assert rows[..|rows|] == rows;
  }

  /** An unparsable count (NaN) adds nothing. */
  lemma CustomSelectNaN(sel: set<int>, rows: seq<int>)
    ensures CustomSelected(sel, rows, None) == sel
  {
  }

  /** A negative count keeps all but the last `-n` rows, as `slice` does. */
  lemma CustomSelectNegative(sel: set<int>, rows: seq<int>, n: int)
    requires n < 0
    ensures CustomSelected(sel, rows, Some(n)) == sel + Ids(rows[..if |rows| + n < 0 then 0 else |rows| + n])
  {
  }

  /** A page has no more distinct ids than rows. */
  lemma {:induction false} IdsSize(rows: seq<int>)
    ensures |Ids(rows)| <= |rows|
  {
    if rows != [] {
      IdsSize(rows[1..]);
      assert Ids(rows) == {rows[0]} + Ids(rows[1..]);
    }
  }

  /** The custom select raises the selected count by at most the number of rows it takes. */
  lemma CustomSelectSize(sel: set<int>, rows: seq<int>, count: Option<int>)
    ensures |sel| <= |CustomSelected(sel, rows, count)| <= |sel| + SliceEnd(|rows|, count)
  {
    var taken := FirstRows(rows, count);
    IdsSize(taken);
    assert CustomSelected(sel, rows, count) == sel + (Ids(taken) - sel);
  }

  // ---------------------------------------------------------------------------
  // Scenarios

  /** Page [101, 102]: toggle 101, then the header checkbox twice; the count goes 1, 2, 0. */
  lemma ScenarioToggleAndSelectAll()
    ensures |Toggled({}, 101)| == 1
    ensures |SelectAllPage(Toggled({}, 101), [101, 102])| == 2
    ensures |SelectAllPage(SelectAllPage(Toggled({}, 101), [101, 102]), [101, 102])| == 0
  {
    var rows := [101, 102];
    var s1 := Toggled({}, 101);
    assert s1 == {101};
    assert !AllSelected(rows, s1) by { assert rows[1] !in s1; }
    assert Ids(rows) == {101, 102};
    var s2 := SelectAllPage(s1, rows);
    assert s2 == {101, 102};
    assert AllSelected(rows, s2);
    assert SelectAllPage(s2, rows) == {};
  }

  /** Custom select on the page [1, 2, 3, 4, 5]: the text "3" selects {1, 2, 3}; the text "abc" selects nothing. */
  lemma ScenarioCustomSelect(sel: set<int>)
    ensures CustomSelected({}, [1, 2, 3, 4, 5], ParseInt("3")) == {1, 2, 3}
    ensures CustomSelected(sel, [1, 2, 3, 4, 5], ParseInt("abc")) == sel
  {
    ParseIntExamples();
    var rows := [1, 2, 3, 4, 5];
    assert rows[..3] == [1, 2, 3];
    assert Ids([1, 2, 3]) == {1, 2, 3};
  }
}
