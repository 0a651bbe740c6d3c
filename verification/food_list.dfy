/**
 * The food list page's client state: the selected food ids, the sort column and
 * direction, the paging, the header checkbox and the delete dialog.
 */
module FoodList {
  import opened Wrappers
  import opened JsValues
  import Sequences
  import Catalog

  /**
   * A checkbox click on a row: an id not yet selected is appended; a selected id
   * is dropped everywhere it occurs, the others keeping their order.
   */
  function ToggleSelected(selected: seq<int>, id: int): (r: seq<int>)
    ensures id !in selected ==> r == selected + [id]
    ensures id in selected ==> id !in r && forall x :: x != id ==> multiset(r)[x] == multiset(selected)[x]
    ensures Sequences.NoDuplicates(selected) ==> Sequences.NoDuplicates(r)
  {
    if id in selected then Sequences.RemoveAll(selected, id)
    else
      assert Sequences.NoDuplicates(selected) ==> Sequences.NoDuplicates(selected + [id]);
      selected + [id]
  }

  /**
   * Clicking the same row twice gives back the same set of selected ids; when the
   * id was not selected it gives back the very same sequence.
   */
  lemma ToggleTwice(selected: seq<int>, id: int)
    ensures forall x :: x in ToggleSelected(ToggleSelected(selected, id), id) <==> x in selected
    ensures id !in selected ==> ToggleSelected(ToggleSelected(selected, id), id) == selected
  {
    var once := ToggleSelected(selected, id);
    var twice := ToggleSelected(once, id);
    if id in selected {
      assert twice == once + [id];
      forall x
        ensures x in twice <==> x in selected
      {
        if x != id {
          assert multiset(once)[x] == multiset(selected)[x];
        }
      }
    } else {
      Sequences.RemoveAllAppended(selected, id);
    }
  }

  /**
   * Unticking a row drops its id where it stood: the ids before and after it keep
   * their places and their order.
   */
  lemma ToggleDropsInPlace(before: seq<int>, id: int, after: seq<int>)
    requires id !in before && id !in after
    ensures ToggleSelected(before + [id] + after, id) == before + after
  {
    Sequences.RemoveAllConcat(before + [id], after, id);
    Sequences.RemoveAllConcat(before, [id], id);
  }

  /** The header checkbox: checked selects the ids of the rows on the page, in page order; unchecked clears. */
  function SelectAll(checked: bool, page: seq<Catalog.Food>): (r: seq<int>)
    ensures checked ==> |r| == |page| && forall i :: 0 <= i < |page| ==> r[i] == page[i].id
    ensures !checked ==> r == []
  {
    if checked then seq(|page|, i requires 0 <= i < |page| => page[i].id) else []
  }

  /** The columns the table can be sorted by. */
  datatype Column = DescriptionColumn | ServingSizeColumn | CarbohydratesColumn
                  | ProteinColumn | TotalFatColumn | CaloriesColumn

  datatype Direction = Asc | Desc

  datatype Sort = Sort(orderBy: Column, direction: Direction)

  /** The page opens sorted by description, ascending. */
  const InitialSort := Sort(DescriptionColumn, Asc)

  /**
   * A click on a column header: the clicked column becomes the sort column, and
   * the direction becomes descending exactly when that column was already sorted
   * ascending; every other click sorts ascending.
   */
  function ClickSort(s: Sort, column: Column): (r: Sort)
    ensures r.orderBy == column
    ensures r.direction == Desc <==> s.orderBy == column && s.direction == Asc
  {
    var isAsc := s.orderBy == column && s.direction == Asc;
    Sort(column, if isAsc then Desc else Asc)
  }

  /** Repeated clicks on one column alternate the direction, and two clicks from ascending come back to it. */
  lemma ClickSortAlternates(s: Sort, column: Column)
    ensures ClickSort(ClickSort(s, column), column).direction != ClickSort(s, column).direction
    ensures s.orderBy == column && s.direction == Asc ==> ClickSort(ClickSort(s, column), column) == s
  {
  }

  datatype Paging = Paging(page: int, rowsPerPage: Num)

  /** The page opens on page 0 with 10 rows per page. */
  const InitialPaging := Paging(0, Fin(10.0))

  /** Choosing a page size stores `parseInt(value, 10)` and always goes back to page 0. */
  function ChangeRowsPerPage(p: Paging, value: string, parseInt: string -> Option<int>): (r: Paging)
    ensures r.page == 0
    ensures parseInt(value).Some? ==> r.rowsPerPage == Fin(parseInt(value).value as real)
    ensures parseInt(value).None? ==> r.rowsPerPage.NaN?
  {
    Paging(0, match parseInt(value) case Some(n) => Fin(n as real) case None => NaN)
  }

  /**
   * Choosing a page size forgets the paging it started from; choosing the same size
   * again changes nothing, and choosing 10 gives back the paging the page opens with.
   */
  lemma ChangeRowsPerPageForgetsPaging(p: Paging, q: Paging, value: string, parseInt: string -> Option<int>)
    ensures ChangeRowsPerPage(p, value, parseInt) == ChangeRowsPerPage(q, value, parseInt)
    ensures var once := ChangeRowsPerPage(p, value, parseInt);
      ChangeRowsPerPage(once, value, parseInt) == once
    ensures parseInt(value) == Some(10) ==> ChangeRowsPerPage(p, value, parseInt) == InitialPaging
  {
  }

  /**
   * The header checkbox shows a dash when the number of selected ids is above 0 and
   * below the number of rows on the page; the ids need not be rows of this page.
   */
  predicate HeaderIndeterminate(selected: seq<int>, page: seq<Catalog.Food>) {
    |selected| > 0 && |selected| < |page|
  }

  /** The header checkbox is ticked when there are rows and as many ids are selected, from whatever page. */
  predicate HeaderChecked(selected: seq<int>, page: seq<Catalog.Food>) {
    |page| > 0 && |selected| == |page|
  }

  /**
   * The header checkbox is never ticked and dashed at once; after "select all" on a
   * non-empty page it is ticked, and after clearing it is neither.
   */
  lemma HeaderCheckboxStates(selected: seq<int>, page: seq<Catalog.Food>)
    ensures !(HeaderIndeterminate(selected, page) && HeaderChecked(selected, page))
    ensures |page| > 0 ==>
      HeaderChecked(SelectAll(true, page), page) && !HeaderIndeterminate(SelectAll(true, page), page)
    ensures !HeaderChecked(SelectAll(false, page), page) && !HeaderIndeterminate(SelectAll(false, page), page)
  {
  }

  /** The delete button opens the confirmation dialog only when something is selected. */
  function ClickDelete(selected: seq<int>, dialogOpen: bool): (r: bool)
    ensures |selected| > 0 ==> r
    ensures r && !dialogOpen ==> |selected| > 0
    ensures |selected| == 0 ==> r == dialogOpen
  {
    if |selected| > 0 then true else dialogOpen
  }

  /**
   * Ticking a row that was not selected, or "select all" on a non-empty page, lets the
   * delete button open the dialog; unticking the only selected row or clearing the
   * selection leaves the dialog as it was.
   */
  lemma SelectionOpensDelete(selected: seq<int>, id: int, page: seq<Catalog.Food>, dialogOpen: bool)
    ensures id !in selected ==> ClickDelete(ToggleSelected(selected, id), dialogOpen)
    ensures |page| > 0 ==> ClickDelete(SelectAll(true, page), dialogOpen)
    ensures ClickDelete(ToggleSelected([id], id), dialogOpen) == dialogOpen
    ensures ClickDelete(SelectAll(false, page), dialogOpen) == dialogOpen
  {
  }
}
