/**
 * The paginated, selectable table (`PaginatedSelectableTableSection` in
 * pages/Components/TablesDemo.jsx): page arithmetic, the Prev/Next buttons,
 * the page clamp run when the page size changes, and the set of selected ids.
 */
module TablesPagination {
  import opened TablesData

  /** The page sizes the "Rows per page" select offers. */
  const SizeOptions: seq<int> := [3, 5, 10]

  /** `Math.ceil(a / b)` for a non-negative numerator and a positive denominator. */
  function CeilDiv(a: nat, b: nat): nat
    requires b > 0
  {
    (a + b - 1) / b
  }

  /** `Math.max(1, Math.ceil(total / size))`. */
  function TotalPages(total: nat, size: nat): int
    requires size > 0
  {
    var c := CeilDiv(total, size);
    if c < 1 then 1 else c
  }

  /** There is always a page; with rows, the pages hold them all and the last one is not empty. */
  lemma TotalPagesSpec(total: nat, size: nat)
    requires size > 0
    ensures TotalPages(total, size) >= 1
    ensures total == 0 ==> TotalPages(total, size) == 1
    ensures total > 0 ==> (TotalPages(total, size) - 1) * size < total <= TotalPages(total, size) * size
  {
    var q := (total + size - 1) / size;
    var m := (total + size - 1) % size;
    assert total + size - 1 == q * size + m;
    if total == 0 {
      assert q == 0;
    } else {
      assert q * size >= total;
      assert (q - 1) * size == q * size - size;
    }
  }

  /** An index as `Array.prototype.slice` reads it: negative counts from the end, then clamped to the length. */
  function SliceIndex(k: int, len: nat): (r: nat)
    ensures r <= len
  {
    if k < 0 then (if len + k < 0 then 0 else len + k)
    else if k > len then len
    else k
  }

  /** `s.slice(from, to)`. */
  function JsSlice<T>(s: seq<T>, from: int, to: int): seq<T>
  {
    var a := SliceIndex(from, |s|);
    var b := SliceIndex(to, |s|);
    if a < b then s[a..b] else []
  }

  /** `(page - 1) * size`: the index of the first row on the page. */
  function Start(page: int, size: int): int
  {
    (page - 1) * size
  }

  /** `pageRows`: `data.slice(start, start + size)`. */
  function PageRows(data: seq<Row>, page: int, size: int): seq<Row>
  {
    JsSlice(data, Start(page, size), Start(page, size) + size)
  }

  /**
   * A page holds at most `size` rows: the rows from `start` up to
   * `min(start + size, total)`, the range the "Showing" caption prints, and none
   * once `start` is past the end; every page up to `totalPages` has a row.
   */
  lemma PageRowsSpec(data: seq<Row>, page: int, size: int)
    requires page >= 1 && size > 0
    ensures |PageRows(data, page, size)| <= size
    ensures var start := Start(page, size);
      start < |data| ==>
        var last := if start + size < |data| then start + size else |data|;
        PageRows(data, page, size) == data[start..last] && |PageRows(data, page, size)| == last - start > 0
    ensures Start(page, size) >= |data| ==> PageRows(data, page, size) == []
    ensures |data| > 0 && page <= TotalPages(|data|, size) ==> |PageRows(data, page, size)| > 0
  {
    var start := Start(page, size);
    assert start >= 0 by {
      assert (page - 1) * size >= 0;
    }
    TotalPagesSpec(|data|, size);
    if |data| > 0 && page <= TotalPages(|data|, size) {
      var tp := TotalPages(|data|, size);
      assert (page - 1) * size <= (tp - 1) * size by {
        MulMonotone(page - 1, tp - 1, size);
      }
    }
  }

  lemma MulMonotone(a: int, b: int, c: nat)
    requires a <= b
    ensures a * c <= b * c
  {
    assert b * c - a * c == (b - a) * c;
  }

  /**
   * Every row is on exactly the page its index says: row `i` is item `i % size`
   * of page `i / size + 1`, and that page is within `totalPages`.
   */
  lemma RowOnItsPage(data: seq<Row>, size: int, i: int)
    requires size > 0 && 0 <= i < |data|
    ensures 1 <= i / size + 1 <= TotalPages(|data|, size)
    ensures |PageRows(data, i / size + 1, size)| > i % size
    ensures PageRows(data, i / size + 1, size)[i % size] == data[i]
  {
    var p := i / size + 1;
    assert Start(p, size) == i - i % size;
    PageRowsSpec(data, p, size);
    TotalPagesSpec(|data|, size);
    var tp := TotalPages(|data|, size);
    if p > tp {
      MulMonotone(tp, p - 1, size);
    }
  }

  /** The Prev button: `Math.max(1, p - 1)`. */
  function PrevPage(p: int): int
  {
    if p - 1 < 1 then 1 else p - 1
  }

  /** The Next button: `Math.min(totalPages, p + 1)`. */
  function NextPage(p: int, totalPages: int): int
  {
    if p + 1 < totalPages then p + 1 else totalPages
  }

  /** The effect run after a size change: `if (page > totalPages) setPage(totalPages)`. */
  function ClampPage(p: int, totalPages: int): int
  {
    if p > totalPages then totalPages else p
  }

  /**
   * Prev never goes below page 1 and Next never beyond the last page; on a page
   * in range both stay in range, move by one page unless at the edge, and undo
   * each other.
   */
  lemma PrevNextSpec(p: int, tp: int)
    requires 1 <= p <= tp
    ensures 1 <= PrevPage(p) <= tp && 1 <= NextPage(p, tp) <= tp
    ensures PrevPage(p) == (if p == 1 then 1 else p - 1)
    ensures NextPage(p, tp) == (if p == tp then tp else p + 1)
    ensures p > 1 ==> NextPage(PrevPage(p), tp) == p
    ensures p < tp ==> PrevPage(NextPage(p, tp)) == p
  {
  }

  /**
   * After the clamp the page is within `totalPages`; a page already in range is
   * kept, a page past the end becomes the last page, and clamping twice is clamping once.
   */
  lemma ClampPageSpec(p: int, tp: int)
    requires 1 <= p && 1 <= tp
    ensures 1 <= ClampPage(p, tp) <= tp
    ensures p <= tp ==> ClampPage(p, tp) == p
    ensures p > tp ==> ClampPage(p, tp) == tp
    ensures ClampPage(ClampPage(p, tp), tp) == ClampPage(p, tp)
  {
  }

  /** `toggleRow`'s updater: copy the set, then delete the id if present, else add it. */
  function Toggled(prev: set<int>, id: int): set<int>
  {
    if id in prev then prev - {id} else prev + {id}
  }

  /** Toggling flips the one id, keeps every other id as it was, and toggling again restores the set. */
  lemma ToggledSpec(prev: set<int>, id: int)
    ensures id in Toggled(prev, id) <==> id !in prev
    ensures forall x :: x != id ==> (x in Toggled(prev, id) <==> x in prev)
    ensures Toggled(Toggled(prev, id), id) == prev
  {
  }

  /** The ids of a list of rows. */
  function Ids(rows: seq<Row>): seq<int>
  {
    seq(|rows|, i requires 0 <= i < |rows| => rows[i].id)
  }

  /** `pageRows.every((r) => selected.has(r.id))`. */
  predicate AllSelected(pageIds: seq<int>, selected: set<int>)
  {
    forall i :: 0 <= i < |pageIds| ==> pageIds[i] in selected
  }

  /** The set `toggleAllOnPage` leaves: the page's ids removed if all were selected, else added. */
  function ToggledAll(prev: set<int>, pageIds: seq<int>, allSelected: bool): set<int>
  {
    if allSelected then prev - set i | i in pageIds else prev + set i | i in pageIds
  }

  /**
   * `toggleAllOnPage`'s updater: copy the set, then delete (or add) the page's
   * ids one by one.
   */
  method ToggleAllUpdate(prev: set<int>, pageIds: seq<int>, allSelected: bool) returns (next: set<int>)
    ensures next == ToggledAll(prev, pageIds, allSelected)
  {
    next := prev;
    for k := 0 to |pageIds|
      invariant next == ToggledAll(prev, pageIds[..k], allSelected)
    {
      assert pageIds[..k + 1] == pageIds[..k] + [pageIds[k]];
      if allSelected {
        next := next - {pageIds[k]};
      } else {
        next := next + {pageIds[k]};
      }
    }
    assert pageIds[..|pageIds|] == pageIds;
  }

  /**
   * Selecting all on the page: if every id of the page was selected, afterwards
   * none is, otherwise all are; ids off the page keep their state; on an empty
   * page `every` holds vacuously and nothing changes.
   */
  lemma ToggledAllSpec(prev: set<int>, pageIds: seq<int>)
    ensures var next := ToggledAll(prev, pageIds, AllSelected(pageIds, prev));
      (AllSelected(pageIds, prev) ==> forall i :: 0 <= i < |pageIds| ==> pageIds[i] !in next)
      && (!AllSelected(pageIds, prev) ==> AllSelected(pageIds, next))
      && (forall x :: x !in pageIds ==> (x in next <==> x in prev))
    ensures |pageIds| == 0 ==> ToggledAll(prev, pageIds, AllSelected(pageIds, prev)) == prev
  {
  }

  /** The paginated table's state: the current page, the page size and the selected ids. */
  class PaginatedTable {
    var page: int
    var size: int
    var selected: set<int>

    /** The page is at least 1 and the size is one of the offered options. */
    predicate Valid()
      reads this
    {
      page >= 1 && size in SizeOptions
    }

    /** `useState(1)`, `useState(3)`, `useState(() => new Set())`. */
    constructor ()
      ensures Valid() && page == 1 && size == 3 && selected == {}
    {
      page := 1;
      size := 3;
      selected := {};
    }

    function LastPage(): int
      reads this
      requires Valid()
    {
      TotalPages(|BaseData|, size)
    }

    /** The rows of the current page. */
    function CurrentRows(): seq<Row>
      reads this
    {
      PageRows(BaseData, page, size)
    }

    method Prev()
      requires Valid()
      modifies this
      ensures Valid() && page == PrevPage(old(page))
      ensures size == old(size) && selected == old(selected)
    {
      page := if page - 1 < 1 then 1 else page - 1;
    }

    method Next()
      requires Valid()
      modifies this
      ensures Valid() && page == NextPage(old(page), old(LastPage()))
      ensures size == old(size) && selected == old(selected)
    {
      TotalPagesSpec(|BaseData|, size);
      var tp := TotalPages(|BaseData|, size);
      page := if page + 1 < tp then page + 1 else tp;
    }

    /** The select's `onChange`: one of the offered sizes. */
    method SetSize(n: int)
      requires Valid() && n in SizeOptions
      modifies this
      ensures Valid() && size == n
      ensures page == old(page) && selected == old(selected)
    {
      size := n;
    }

    /** The effect that keeps the page in range after a size change. */
    method SyncPage()
      requires Valid()
      modifies this
      ensures Valid() && page == ClampPage(old(page), LastPage()) && page <= LastPage()
      ensures size == old(size) && selected == old(selected)
    {
      TotalPagesSpec(|BaseData|, size);
      var tp := TotalPages(|BaseData|, size);
      if page > tp {
        page := tp;
      }
    }

    method ToggleRow(id: int)
      modifies this
      ensures selected == Toggled(old(selected), id)
      ensures page == old(page) && size == old(size)
    {
      if id in selected {
        selected := selected - {id};
      } else {
        selected := selected + {id};
      }
    }

    /** The header checkbox: `allOnPageSelected` is read from the state the page was rendered with. */
    method ToggleAllOnPage()
      modifies this
      ensures var ids := Ids(old(CurrentRows()));
        selected == ToggledAll(old(selected), ids, AllSelected(ids, old(selected)))
      ensures page == old(page) && size == old(size)
    {
      var ids := Ids(CurrentRows());
      var all := forall i :: 0 <= i < |ids| ==> ids[i] in selected;
      selected := ToggleAllUpdate(selected, ids, all);
    }
  }
}
