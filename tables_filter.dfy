/**
 * The search table (`FilteringTableSection` in pages/Components/TablesDemo.jsx):
 * the query is trimmed and lower-cased, and the rows whose lower-cased name or
 * e-mail contains it are shown.
 */
module TablesFilter {
  import opened Text
  import opened TablesData
  import opened TablesMarkup

  /** Whether a row matches an already normalised query. */
  predicate Matches(r: Row, s: string)
  {
    Contains(Lower(r.name), s) || Contains(Lower(r.email), s)
  }

  /** `rows.filter(…)` with the matching predicate. */
  function FilterRows(rows: seq<Row>, s: string): seq<Row>
  {
    if |rows| == 0 then []
    else (if Matches(rows[0], s) then [rows[0]] else []) + FilterRows(rows[1..], s)
  }

  /** The normalised query: `q.trim().toLowerCase()`. */
  function NormalQuery(q: string): string
  {
    Lower(Trim(q))
  }

  /** The `filtered` memo: all six rows for a blank query, else the matching ones. */
  function Filtered(q: string): seq<Row>
  {
    var s := NormalQuery(q);
    if s == "" then BaseData[..6] else FilterRows(BaseData, s)
  }

  /** `a` can be obtained from `b` by deleting elements, keeping the order of the rest. */
  predicate Subsequence(a: seq<Row>, b: seq<Row>)
    decreases |b|
  {
    if |a| == 0 then true
    else if |b| == 0 then false
    else if a[0] == b[0] then Subsequence(a[1..], b[1..])
    else Subsequence(a, b[1..])
  }

  /**
   * Filtering keeps exactly the matching rows, in their original order: the
   * result is a subsequence of the input, every row of it matches, every
   * matching row of the input is in it, and each matching row is kept as often
   * as it occurs in the input.
   */
  lemma {:induction false} FilterRowsSpec(rows: seq<Row>, s: string)
    ensures Subsequence(FilterRows(rows, s), rows)
    ensures forall r :: r in FilterRows(rows, s) ==> Matches(r, s)
    ensures forall r :: r in rows && Matches(r, s) ==> r in FilterRows(rows, s)
    ensures forall r :: multiset(FilterRows(rows, s))[r] == if Matches(r, s) then multiset(rows)[r] else 0
  {
    if |rows| > 0 {
      FilterRowsSpec(rows[1..], s);
      var rest := FilterRows(rows[1..], s);
      assert rows == [rows[0]] + rows[1..];
      assert multiset(rows) == multiset{rows[0]} + multiset(rows[1..]);
      if Matches(rows[0], s) {
        assert ([rows[0]] + rest)[1..] == rest;
        assert multiset(FilterRows(rows, s)) == multiset{rows[0]} + multiset(rest);
      } else {
        assert [] + rest == rest;
        assert multiset(FilterRows(rows, s)) == multiset(rest);
      }
      forall r | r in rows && Matches(r, s) ensures r in FilterRows(rows, s) {
        if r != rows[0] {
          assert r in rows[1..];
        }
      }
    }
  }

  /** A query that trims to nothing shows all six rows. */
  lemma BlankQueryShowsAll(q: string)
    requires forall k :: 0 <= k < |q| ==> IsSpace(q[k])
    ensures Filtered(q) == BaseData
  {
    TrimBlank(q);
    assert BaseData[..6] == BaseData;
  }

  /**
   * A query with any non-blank character filters the data by its trimmed,
   * lower-cased form, which is not empty; by `FilterRowsSpec` the rows shown are
   * then the matching rows of the data, in order, and no others.
   */
  lemma NonBlankQueryFilters(q: string)
    requires exists k :: 0 <= k < |q| && !IsSpace(q[k])
    ensures NormalQuery(q) != ""
    ensures Filtered(q) == FilterRows(BaseData, NormalQuery(q))
  {
    TrimBlank(q);
  }

  lemma {:induction false} LeadingSpaceLower(s: string)
    ensures LeadingSpace(Lower(s)) == LeadingSpace(s)
  {
    if |s| > 0 {
      LeadingSpaceLower(s[1..]);
      assert Lower(s)[1..] == Lower(s[1..]);
    }
  }

  lemma {:induction false} TrailingSpaceLower(s: string)
    ensures TrailingSpace(Lower(s)) == TrailingSpace(s)
  {
    if |s| > 0 {
      TrailingSpaceLower(s[..|s| - 1]);
      assert Lower(s)[..|s| - 1] == Lower(s[..|s| - 1]);
    }
  }

  /** Lower-casing never turns a character into white space or back, so it commutes with `trim`. */
  lemma TrimLower(s: string)
    ensures Trim(Lower(s)) == Lower(Trim(s))
  {
    LeadingSpaceLower(s);
    var a := LeadingSpace(s);
    var t := s[a..];
    LowerSlice(s, a, |s|);
    assert Lower(s)[a..] == Lower(t);
    TrailingSpaceLower(t);
    var b := |t| - TrailingSpace(t);
    LowerSlice(t, 0, b);
    assert Lower(t)[..b] == Lower(t[..b]);
  }

  /** The search is case-insensitive: a query and its lower-cased form show the same rows. */
  lemma FilterIgnoresCase(q: string)
    ensures Filtered(Lower(q)) == Filtered(q)
  {
    TrimLower(q);
    LowerIdempotent(Trim(q));
  }

  /**
   * `highlight(text, query)` for an empty query: just the escaped text. A
   * non-empty query goes through a regular expression, given here as `regexPath`.
   */
  function Highlight(text: string, query: string, regexPath: (string, string) -> string): string
  {
    if query == "" then EscapeHtml(text) else regexPath(text, query)
  }

  /** The search table's state: the text typed into the search box. */
  class FilterTable {
    var q: string

    /** `useState("")`. */
    constructor ()
      ensures q == ""
    {
      q := "";
    }

    /** The `onChange` handler of the search box. */
    method SetQuery(value: string)
      modifies this
      ensures q == value
    {
      q := value;
    }

    /** The rows on display. */
    function Rows(): seq<Row>
      reads this
    {
      Filtered(q)
    }

    /** The `rowsHtml` part of the search table's snippet. */
    function RowsHtml(regexPath: (string, string) -> string): string
      reads this
    {
      var query := q;
      FilterRowsHtml(Filtered(query), t => Highlight(t, query, regexPath))
    }
  }

  /** Before anything is typed the snippet lists all six rows, names and e-mails merely escaped. */
  lemma InitialRowsHtml(regexPath: (string, string) -> string)
    ensures FilterRowsHtml(Filtered(""), t => Highlight(t, "", regexPath))
         == FilterRowsHtml(BaseData, EscapeHtml)
  {
    BlankQueryShowsAll("");
    FilterRowsHtmlSameMarks(BaseData, t => Highlight(t, "", regexPath), EscapeHtml);
  }

  lemma FilterRowsHtmlSameMarks(rows: seq<Row>, f: string -> string, g: string -> string)
    requires forall t :: f(t) == g(t)
    ensures FilterRowsHtml(rows, f) == FilterRowsHtml(rows, g)
  {
    var a := seq(|rows|, i requires 0 <= i < |rows| => FilterRowHtml(rows[i], f));
    var b := seq(|rows|, i requires 0 <= i < |rows| => FilterRowHtml(rows[i], g));
    assert a == b;
  }
}
