/** The paginated table view: an optional case-insensitive search over the
    cells' string forms, then one page of the filtered rows. */
module Browse {
  import opened Text
  import opened Tables

  /** The page size the page uses when its caller passes none. */
  const DefaultPageSize: nat := 10

  /** The cell's string form contains the query, ignoring ASCII case. */
  predicate CellMatches(c: Cell, query: string) {
    Contains(Lower(Render(c)), Lower(query))
  }

  /** Some cell of the row matches the query. */
  predicate RowMatches(row: Row, query: string) {
    exists k :: 0 <= k < |row| && CellMatches(row[k], query)
  }

  /** The rows kept by the search mask, in their original order. */
  function Search(rows: seq<Row>, query: string): (kept: seq<Row>)
    ensures |kept| <= |rows|
    ensures forall r :: r in kept ==> r in rows && RowMatches(r, query)
    ensures forall r :: r in rows && RowMatches(r, query) ==> r in kept
    decreases |rows|
  {
    if rows == [] then
      []
    else
      assert rows == [rows[0]] + rows[1..];
      (if RowMatches(rows[0], query) then [rows[0]] else []) + Search(rows[1..], query)
  }

  /** The search is an order-preserving filter: searching a concatenation is
      concatenating the searches, and a single row is kept exactly when it
      matches. Together these fix the result uniquely. */
  lemma {:induction false} SearchDistributes(a: seq<Row>, b: seq<Row>, query: string)
    ensures Search(a + b, query) == Search(a, query) + Search(b, query)
    decreases |a|
  {
    if a == [] {
      assert a + b == b;
    } else {
      assert (a + b)[0] == a[0];
      assert (a + b)[1..] == a[1..] + b;
      SearchDistributes(a[1..], b, query);
    }
  }

  lemma SearchSingle(r: Row, query: string)
    ensures Search([r], query) == if RowMatches(r, query) then [r] else []
  {
  }

  /** Every row matches the query. */
  predicate AllRowsMatch(rows: seq<Row>, query: string) {
    forall i :: 0 <= i < |rows| ==> RowMatches(rows[i], query)
  }

  /** The search leaves the rows unchanged exactly when every row matches. */
  lemma {:induction false} SearchKeepsAllIff(rows: seq<Row>, query: string)
    ensures Search(rows, query) == rows <==> AllRowsMatch(rows, query)
    decreases |rows|
  {
    if rows != [] {
      var x, tail := rows[0], rows[1..];
      assert rows == [x] + tail;
      SearchKeepsAllIff(tail, query);
      assert AllRowsMatch(rows, query) <==> RowMatches(x, query) && AllRowsMatch(tail, query) by {
        assert forall i :: 0 <= i < |tail| ==> tail[i] == rows[i + 1];
        if RowMatches(x, query) && AllRowsMatch(tail, query) {
          forall i | 0 <= i < |rows| ensures RowMatches(rows[i], query) {
            if i > 0 {
              assert rows[i] == tail[i - 1];
            }
          }
        }
      }
      if RowMatches(x, query) {
        assert Search(rows, query) == [x] + Search(tail, query);
        assert ([x] + Search(tail, query))[1..] == Search(tail, query);
      } else {
        assert Search(rows, query) == Search(tail, query);
        assert |Search(rows, query)| < |rows|;
      }
    }
  }

  /** The empty query occurs in every string, so the search would keep
      every row that has a cell: the `if search_query` guard only changes
      the result for rows without cells. */
  lemma EmptyQueryKeepsRowsWithCells(rows: seq<Row>)
    requires forall i :: 0 <= i < |rows| ==> |rows[i]| > 0
    ensures Search(rows, "") == rows
  {
    forall i | 0 <= i < |rows| ensures RowMatches(rows[i], "") {
      assert OccursAt(Lower(Render(rows[i][0])), Lower(""), 0);
    }
    assert AllRowsMatch(rows, "");
    SearchKeepsAllIff(rows, "");
  }

  /** The table the view pages through: filtered only when a query was typed. */
  function Filtered(rows: seq<Row>, query: string): seq<Row> {
    if query != "" then Search(rows, query) else rows
  }

  /** The largest page number the selector accepts. */
  function LastPage(n: nat, pageSize: nat): nat
    requires pageSize > 0
  {
    n / pageSize + 1
  }

  /** The index arithmetic of the selector: page `p` starts inside the
      table, the next page starts `pageSize` later, a page before the last
      ends inside the table, and the last one holds the remainder. */
  lemma PageArithmetic(n: nat, pageSize: nat, p: nat)
    requires pageSize > 0 && 1 <= p <= LastPage(n, pageSize)
    ensures (p - 1) * pageSize <= n
    ensures p * pageSize == (p - 1) * pageSize + pageSize
    ensures p < LastPage(n, pageSize) ==> p * pageSize <= n
    ensures p == LastPage(n, pageSize) ==> n - (p - 1) * pageSize == n % pageSize < pageSize
  {
    var q := n / pageSize;
    assert n == q * pageSize + n % pageSize;
    MulMonotone(p - 1, q, pageSize);
    if p < LastPage(n, pageSize) {
      MulMonotone(p, q, pageSize);
    }
  }

  lemma MulMonotone(a: nat, b: nat, c: nat)
    requires a <= b
    ensures a * c <= b * c
  {
  }

  /** `rows.iloc[start:end]` for page `pageNumber`: the rows from
      `(pageNumber - 1) * pageSize` on, at most `pageSize` of them, in order. */
  function Page(rows: seq<Row>, pageSize: nat, pageNumber: nat): (page: seq<Row>)
    requires pageSize > 0 && 1 <= pageNumber <= LastPage(|rows|, pageSize)
    ensures (pageNumber - 1) * pageSize <= |rows|
    ensures |page| <= pageSize
    ensures forall r :: r in page ==> r in rows
  {
    PageArithmetic(|rows|, pageSize, pageNumber);
    var startIdx := (pageNumber - 1) * pageSize;
    var endIdx := startIdx + pageSize;
    rows[startIdx..if endIdx <= |rows| then endIdx else |rows|]
  }

  /** The view of `display_data_with_pagination`: filter when a query was
      typed, compute the window `[start, start + pageSize)` of the selected
      page, show the slice of the filtered rows that falls inside it. */
  method DisplayDataWithPagination(t: Table, query: string, pageSize: nat, pageNumber: nat)
    returns (shown: seq<Row>)
    requires pageSize > 0
    requires 1 <= pageNumber <= LastPage(|Filtered(t.rows, query)|, pageSize)
    ensures shown == Page(Filtered(t.rows, query), pageSize, pageNumber)
    ensures |shown| <= pageSize
    ensures forall r :: r in shown ==> r in t.rows
    ensures query != "" ==> forall r :: r in shown ==> RowMatches(r, query)
  {
    var rows := t.rows;
    if query != "" {
      rows := Search(rows, query);
    }
    assert rows == Filtered(t.rows, query);
    PageArithmetic(|rows|, pageSize, pageNumber);
    var startIdx := (pageNumber - 1) * pageSize;
    var endIdx := startIdx + pageSize;
    shown := rows[startIdx..if endIdx <= |rows| then endIdx else |rows|];
    assert shown == Page(rows, pageSize, pageNumber);
  }

  /** Pages `p` to the last one, one after another. */
  function PagesFrom(rows: seq<Row>, pageSize: nat, p: nat): seq<Row>
    requires pageSize > 0 && 1 <= p
    decreases LastPage(|rows|, pageSize) + 1 - p
  {
    if p > LastPage(|rows|, pageSize) then []
    else Page(rows, pageSize, p) + PagesFrom(rows, pageSize, p + 1)
  }

  /** The pages the selector offers, read in order, are the rows from the
      start of page `p` to the end of the table. */
  lemma {:induction false} PagesFromIsSuffix(rows: seq<Row>, pageSize: nat, p: nat)
    requires pageSize > 0 && 1 <= p <= LastPage(|rows|, pageSize)
    ensures PagesFrom(rows, pageSize, p) == rows[(p - 1) * pageSize..]
    decreases LastPage(|rows|, pageSize) + 1 - p
  {
    var n := |rows|;
    PageArithmetic(n, pageSize, p);
    var s := (p - 1) * pageSize;
    var page := Page(rows, pageSize, p);
    PageIsSlice(rows, pageSize, p, s);
    assert PagesFrom(rows, pageSize, p) == page + PagesFrom(rows, pageSize, p + 1);
    if p == LastPage(n, pageSize) {
      assert page == rows[s..];
    } else {
      var s' := p * pageSize;
      assert s' == s + pageSize && s' <= n;
      PagesFromIsSuffix(rows, pageSize, p + 1);
      assert PagesFrom(rows, pageSize, p + 1) == rows[s'..];
      assert page == rows[s..s'];
      assert rows[s..] == rows[s..s'] + rows[s'..];
    }
  }

  /** Page `p` is the run of consecutive rows that starts at index
      `s = (p - 1) * pageSize` and stops after `pageSize` rows or at the end
      of the table. */
  lemma PageIsSlice(rows: seq<Row>, pageSize: nat, p: nat, s: nat)
    requires pageSize > 0 && 1 <= p <= LastPage(|rows|, pageSize)
    requires s == (p - 1) * pageSize
    ensures s <= |rows|
    ensures |Page(rows, pageSize, p)| == if s + pageSize <= |rows| then pageSize else |rows| - s
    ensures forall k :: 0 <= k < |Page(rows, pageSize, p)| ==> Page(rows, pageSize, p)[k] == rows[s + k]
  {
    PageArithmetic(|rows|, pageSize, p);
  }

  /** Every row is on exactly one page: the pages 1 to the last, read in
      order, are the whole table. */
  lemma PagesCoverRows(rows: seq<Row>, pageSize: nat)
    requires pageSize > 0
    ensures PagesFrom(rows, pageSize, 1) == rows
  {
    PagesFromIsSuffix(rows, pageSize, 1);
  }

  /** Every page before the last is full, and the last page is empty
      exactly when the row count is a multiple of the page size (including
      the empty table). */
  lemma PageSizes(rows: seq<Row>, pageSize: nat, p: nat)
    requires pageSize > 0 && 1 <= p <= LastPage(|rows|, pageSize)
    ensures p < LastPage(|rows|, pageSize) ==> |Page(rows, pageSize, p)| == pageSize
    ensures p == LastPage(|rows|, pageSize) ==> (|Page(rows, pageSize, p)| == 0 <==> |rows| % pageSize == 0)
  {
    PageArithmetic(|rows|, pageSize, p);
    PageIsSlice(rows, pageSize, p, (p - 1) * pageSize);
  }
}
