/**
 * The sortable table (`SortableTableSection` in pages/Components/TablesDemo.jsx):
 * clicking a header sorts the six rows by that column, case-insensitively,
 * and clicking it again flips the direction.
 */
module TablesSort {
  import opened Text
  import opened TablesData

  /** The columns a header click can sort by. */
  datatype Column = Name | Email | Role

  datatype Direction = Asc | Desc

  function Field(r: Row, col: Column): string
  {
    match col
    case Name => r.name
    case Email => r.email
    case Role => r.role
  }

  /** `String(a[sortBy]).toLowerCase()`. */
  function SortKey(r: Row, col: Column): string
  {
    Lower(Field(r, col))
  }

  /** The comparator handed to `sort`: -1, 1 or 0, the first two swapped when descending. */
  function Compare(a: Row, b: Row, col: Column, dir: Direction): (r: int)
    ensures -1 <= r <= 1
  {
    var va := SortKey(a, col);
    var vb := SortKey(b, col);
    if Less(va, vb) then (if dir == Asc then -1 else 1)
    else if Less(vb, va) then (if dir == Asc then 1 else -1)
    else 0
  }

  /**
   * The comparator is consistent: swapping its arguments negates it, it returns 0
   * exactly on equal keys, and in ascending order it is negative exactly when the
   * first key sorts before the second.
   */
  lemma CompareConsistent(a: Row, b: Row, col: Column, dir: Direction)
    ensures Compare(a, b, col, dir) == -Compare(b, a, col, dir)
    ensures Compare(a, b, col, dir) == 0 <==> SortKey(a, col) == SortKey(b, col)
    ensures Compare(a, b, col, Asc) < 0 <==> Less(SortKey(a, col), SortKey(b, col))
    ensures Compare(a, b, col, Desc) == Compare(b, a, col, Asc)
  {
    LessTrichotomy(SortKey(a, col), SortKey(b, col));
    LessIrreflexive(SortKey(a, col));
  }

  /** "May come first" under the comparator is transitive, so a sorted order exists. */
  lemma CompareTransitive(a: Row, b: Row, c: Row, col: Column, dir: Direction)
    requires Compare(a, b, col, dir) <= 0 && Compare(b, c, col, dir) <= 0
    ensures Compare(a, c, col, dir) <= 0
  {
    var ka, kb, kc := SortKey(a, col), SortKey(b, col), SortKey(c, col);
    LessTrichotomy(ka, kb);
    LessTrichotomy(kb, kc);
    LessTrichotomy(ka, kc);
    if dir == Asc {
      if Less(kc, ka) {
        if Less(ka, kb) { LessTransitive(kc, ka, kb); }
        if Less(kb, kc) { LessTransitive(kb, kc, ka); }
      }
    } else {
      if Less(ka, kc) {
        if Less(kb, ka) { LessTransitive(kb, ka, kc); }
        if Less(kc, kb) { LessTransitive(ka, kc, kb); }
      }
    }
  }

  /** Every row may come before every later one. */
  predicate Sorted(s: seq<Row>, col: Column, dir: Direction)
  {
    forall i, j :: 0 <= i < j < |s| ==> Compare(s[i], s[j], col, dir) <= 0
  }

  /** Place `x` before the first row it may precede. */
  function Insert(x: Row, s: seq<Row>, col: Column, dir: Direction): (r: seq<Row>)
    ensures multiset(r) == multiset(s) + multiset{x}
  {
    if |s| == 0 then [x]
    else if Compare(x, s[0], col, dir) <= 0 then [x] + s
    else
      assert s == [s[0]] + s[1..];
      [s[0]] + Insert(x, s[1..], col, dir)
  }

  /**
   * `arr.sort(comparator)` on a copy of the rows. `Array.prototype.sort` is stable,
   * so rows with equal keys keep their order; inserting each row in front of the
   * rows after it with the same key is one stable sort.
   */
  function SortRows(rows: seq<Row>, col: Column, dir: Direction): seq<Row>
  {
    if |rows| == 0 then [] else Insert(rows[0], SortRows(rows[1..], col, dir), col, dir)
  }

  /** A row that may precede every row of a sorted sequence can be put in front of it. */
  lemma ConsSorted(y: Row, t: seq<Row>, col: Column, dir: Direction)
    requires Sorted(t, col, dir)
    requires forall j :: 0 <= j < |t| ==> Compare(y, t[j], col, dir) <= 0
    ensures Sorted([y] + t, col, dir)
  {
    var r := [y] + t;
    forall i, j | 0 <= i < j < |r| ensures Compare(r[i], r[j], col, dir) <= 0 {
      assert r[j] == t[j - 1];
      if i > 0 {
        assert r[i] == t[i - 1];
      }
    }
  }

  lemma {:induction false} InsertSorted(x: Row, s: seq<Row>, col: Column, dir: Direction)
    requires Sorted(s, col, dir)
    ensures Sorted(Insert(x, s, col, dir), col, dir)
  {
    if |s| == 0 {
    } else if Compare(x, s[0], col, dir) <= 0 {
      forall j | 0 <= j < |s| ensures Compare(x, s[j], col, dir) <= 0 {
        if j > 0 { CompareTransitive(x, s[0], s[j], col, dir); }
      }
      ConsSorted(x, s, col, dir);
    } else {
      var t := Insert(x, s[1..], col, dir);
      assert Sorted(s[1..], col, dir) by {
        forall i, j | 0 <= i < j < |s[1..]| ensures Compare(s[1..][i], s[1..][j], col, dir) <= 0 {
          assert s[1..][i] == s[i + 1] && s[1..][j] == s[j + 1];
        }
      }
      InsertSorted(x, s[1..], col, dir);
      CompareConsistent(x, s[0], col, dir);
      forall j | 0 <= j < |t| ensures Compare(s[0], t[j], col, dir) <= 0 {
        assert t[j] in multiset(t);
        if t[j] != x {
          assert t[j] in multiset(s[1..]);
          var k :| 0 <= k < |s[1..]| && s[1..][k] == t[j];
          assert s[k + 1] == t[j];
        }
      }
      ConsSorted(s[0], t, col, dir);
    }
  }

  /** The result of the sort is in comparator order. */
  lemma {:induction false} SortRowsSorted(rows: seq<Row>, col: Column, dir: Direction)
    ensures Sorted(SortRows(rows, col, dir), col, dir)
  {
    if |rows| > 0 {
      SortRowsSorted(rows[1..], col, dir);
      InsertSorted(rows[0], SortRows(rows[1..], col, dir), col, dir);
    }
  }

  lemma HeadTail(rows: seq<Row>)
    requires |rows| > 0
    ensures multiset(rows) == multiset{rows[0]} + multiset(rows[1..])
  {
    assert rows == [rows[0]] + rows[1..];
  }

  /** The result holds the same rows, each as often as before. */
  lemma {:induction false} SortRowsPermutation(rows: seq<Row>, col: Column, dir: Direction)
    ensures multiset(SortRows(rows, col, dir)) == multiset(rows)
  {
    if |rows| > 0 {
      SortRowsPermutation(rows[1..], col, dir);
      HeadTail(rows);
      var t := SortRows(rows[1..], col, dir);
      assert SortRows(rows, col, dir) == Insert(rows[0], t, col, dir);
    }
  }

  /** The rows whose sort key is `k`, in order. */
  function WithKey(s: seq<Row>, col: Column, k: string): seq<Row>
  {
    if |s| == 0 then []
    else (if SortKey(s[0], col) == k then [s[0]] else []) + WithKey(s[1..], col, k)
  }

  lemma WithKeyConsIn(y: Row, t: seq<Row>, col: Column, k: string)
    requires SortKey(y, col) == k
    ensures WithKey([y] + t, col, k) == [y] + WithKey(t, col, k)
  {
    var r := [y] + t;
    assert r[0] == y && r[1..] == t;
  }

  lemma WithKeyConsOut(y: Row, t: seq<Row>, col: Column, k: string)
    requires SortKey(y, col) != k
    ensures WithKey([y] + t, col, k) == WithKey(t, col, k)
  {
    var r := [y] + t;
    assert r[0] == y && r[1..] == t;
    assert [] + WithKey(t, col, k) == WithKey(t, col, k);
  }

  /** Inserting a row with key `k` puts it in front of the other rows with key `k`. */
  lemma {:induction false} InsertStableSame(x: Row, s: seq<Row>, col: Column, dir: Direction, k: string)
    requires SortKey(x, col) == k
    ensures WithKey(Insert(x, s, col, dir), col, k) == [x] + WithKey(s, col, k)
  {
    if |s| == 0 || Compare(x, s[0], col, dir) <= 0 {
      assert Insert(x, s, col, dir) == [x] + s;
      WithKeyConsIn(x, s, col, k);
    } else {
      CompareConsistent(x, s[0], col, dir);
      assert SortKey(s[0], col) != k;
      InsertStableSame(x, s[1..], col, dir, k);
      var r1 := Insert(x, s[1..], col, dir);
      assert Insert(x, s, col, dir) == [s[0]] + r1;
      WithKeyConsOut(s[0], r1, col, k);
      assert s == [s[0]] + s[1..];
      WithKeyConsOut(s[0], s[1..], col, k);
    }
  }

  /** Inserting a row with another key leaves the rows with key `k` as they were. */
  lemma {:induction false} InsertStableOther(x: Row, s: seq<Row>, col: Column, dir: Direction, k: string)
    requires SortKey(x, col) != k
    ensures WithKey(Insert(x, s, col, dir), col, k) == WithKey(s, col, k)
  {
    if |s| == 0 || Compare(x, s[0], col, dir) <= 0 {
      assert Insert(x, s, col, dir) == [x] + s;
      WithKeyConsOut(x, s, col, k);
    } else {
      InsertStableOther(x, s[1..], col, dir, k);
      var r1 := Insert(x, s[1..], col, dir);
      assert Insert(x, s, col, dir) == [s[0]] + r1;
      assert s == [s[0]] + s[1..];
      if SortKey(s[0], col) == k {
        WithKeyConsIn(s[0], r1, col, k);
        WithKeyConsIn(s[0], s[1..], col, k);
      } else {
        WithKeyConsOut(s[0], r1, col, k);
        WithKeyConsOut(s[0], s[1..], col, k);
      }
    }
  }

  /** Stability: rows with the same key appear in the sorted table in their original order. */
  lemma {:induction false} SortRowsStable(rows: seq<Row>, col: Column, dir: Direction, k: string)
    ensures WithKey(SortRows(rows, col, dir), col, k) == WithKey(rows, col, k)
  {
    if |rows| > 0 {
      SortRowsStable(rows[1..], col, dir, k);
      var t := SortRows(rows[1..], col, dir);
      assert SortRows(rows, col, dir) == Insert(rows[0], t, col, dir);
      assert rows == [rows[0]] + rows[1..];
      if SortKey(rows[0], col) == k {
        InsertStableSame(rows[0], t, col, dir, k);
        WithKeyConsIn(rows[0], rows[1..], col, k);
      } else {
        InsertStableOther(rows[0], t, col, dir, k);
        WithKeyConsOut(rows[0], rows[1..], col, k);
      }
    }
  }

  /** `toggleSort`: the same column flips the direction, another column sorts by it ascending. */
  function NextSort(sortBy: Column, direction: Direction, key: Column): (Column, Direction)
  {
    if key == sortBy then (sortBy, if direction == Asc then Desc else Asc)
    else (key, Asc)
  }

  /**
   * After a click the table is sorted by the clicked column; the direction is
   * ascending after a click on a new column and flips on the current one, so a
   * second click on the same column restores the previous state.
   */
  lemma NextSortSpec(sortBy: Column, direction: Direction, key: Column)
    ensures NextSort(sortBy, direction, key).0 == key
    ensures key != sortBy ==> NextSort(sortBy, direction, key).1 == Asc
    ensures key == sortBy ==> NextSort(sortBy, direction, key).1 != direction
    ensures var (b, d) := NextSort(sortBy, direction, key); NextSort(b, d, key) == (key, if d == Asc then Desc else Asc)
    ensures key == sortBy ==> var (b, d) := NextSort(sortBy, direction, key); NextSort(b, d, key) == (sortBy, direction)
  {
  }

  /** The sortable table's state: the column and direction chosen by the header clicks. */
  class SortableTable {
    var sortBy: Column
    var direction: Direction

    /** `useState("name")`, `useState("asc")`. */
    constructor ()
      ensures sortBy == Name && direction == Asc
    {
      sortBy := Name;
      direction := Asc;
    }

    /** The rows on display: `baseData.slice(0, 6)` sorted by the current column and direction. */
    function Rows(): seq<Row>
      reads this
    {
      SortRows(BaseData[..6], sortBy, direction)
    }

    /** A click on the header of `key`. */
    method ToggleSort(key: Column)
      modifies this
      ensures (sortBy, direction) == NextSort(old(sortBy), old(direction), key)
    {
      if key == sortBy {
        direction := if direction == Asc then Desc else Asc;
      } else {
        sortBy := key;
        direction := Asc;
      }
    }
  }
}
