/** Read-only reports over a table: the unique/duplicate record counts shown
    in the pie chart and the per-column record counts of the bar chart. */
module Analysis {
  import opened Tables

  /** `drop_duplicates()`: keeps the first occurrence of every row, under
      equality of all cells. */
  function DropDuplicates(rows: seq<Row>): (d: seq<Row>)
    ensures NoDuplicates(d)
    ensures forall r :: r in d <==> r in rows
    ensures |d| <= |rows|
    decreases |rows|
  {
    if rows == [] then
      []
    else
      var front := rows[..|rows| - 1];
      var last := rows[|rows| - 1];
      assert rows == front + [last];
      var prev := DropDuplicates(front);
      if last in prev then prev else prev + [last]
  }

  /** Dropping duplicates keeps every row exactly when no row repeats. */
  lemma {:induction false} DropDuplicatesKeepsAllIff(rows: seq<Row>)
    ensures |DropDuplicates(rows)| == |rows| <==> NoDuplicates(rows)
    decreases |rows|
  {
    if rows != [] {
      var front := rows[..|rows| - 1];
      var last := rows[|rows| - 1];
      assert rows == front + [last];
      DropDuplicatesKeepsAllIff(front);
      if last in front {
        var j :| 0 <= j < |front| && front[j] == last;
        assert rows[j] == rows[|rows| - 1];
      } else {
        if NoDuplicates(front) {
          forall i, k | 0 <= i < k < |rows| ensures rows[i] != rows[k] {
            if k < |rows| - 1 {
              assert rows[i] == front[i] && rows[k] == front[k];
            } else {
              assert rows[i] == front[i];
            }
          }
        }
        if NoDuplicates(rows) {
          forall i, k | 0 <= i < k < |front| ensures front[i] != front[k] {
            assert front[i] == rows[i] && front[k] == rows[k];
          }
        }
      }
    }
  }

  /** A sequence without repetitions has as many distinct elements as it has
      elements. */
  lemma {:induction false} DistinctCardinality(d: seq<Row>)
    requires NoDuplicates(d)
    ensures |set r | r in d| == |d|
    decreases |d|
  {
    if d != [] {
      var front := d[..|d| - 1];
      var last := d[|d| - 1];
      assert d == front + [last];
      assert NoDuplicates(front) by {
        forall i, k | 0 <= i < k < |front| ensures front[i] != front[k] {
          assert front[i] == d[i] && front[k] == d[k];
        }
      }
      DistinctCardinality(front);
      assert last !in front by {
        forall i | 0 <= i < |front| ensures front[i] != last {
          assert front[i] == d[i];
        }
      }
      assert (set r | r in d) == (set r | r in front) + {last};
    }
  }

  /** The number of rows `drop_duplicates()` keeps is the number of distinct
      rows of the table. */
  lemma DropDuplicatesCountsDistinctRows(rows: seq<Row>)
    ensures |DropDuplicates(rows)| == |set r | r in rows|
  {
    var d := DropDuplicates(rows);
    DistinctCardinality(d);
    assert (set r | r in d) == (set r | r in rows);
  }

  /** The three counts the page reports. */
  datatype RecordCounts = RecordCounts(unique: nat, duplicate: nat, total: nat)

  /** The counts behind the pie chart: the total is the row count, the unique
      count the number of distinct rows, and the duplicate count the rest, so
      it is zero exactly when no row repeats; a non-empty table has at least
      one unique row. */
  function GeneratePieChart(t: Table): (c: RecordCounts)
    ensures c.total == |t.rows|
    ensures c.unique + c.duplicate == c.total
    ensures c.unique == |set r | r in t.rows|
    ensures c.duplicate == 0 <==> NoDuplicates(t.rows)
    ensures |t.rows| > 0 ==> c.unique >= 1
  {
    var total := |t.rows|;
    var unique := |DropDuplicates(t.rows)|;
    DropDuplicatesCountsDistinctRows(t.rows);
    DropDuplicatesKeepsAllIff(t.rows);
    assert |t.rows| > 0 ==> t.rows[0] in DropDuplicates(t.rows);
    RecordCounts(unique, total - unique, total)
  }

  /** A table of `n` copies of one row has one unique record and `n - 1`
      duplicates. */
  lemma IdenticalRows(columns: seq<string>, x: Row, n: nat)
    requires n >= 1
    ensures GeneratePieChart(Table(columns, seq(n, _ => x))) == RecordCounts(1, n - 1, n)
  {
    var rows := seq(n, _ => x);
    assert rows[0] == x;
    assert (set r | r in rows) == {x};
  }

  /** `df[col]`: the cells of column `j`, top to bottom. */
  function ColumnCells(t: Table, j: nat): (col: seq<Cell>)
    requires Valid(t) && j < |t.columns|
  {
    seq(|t.rows|, i requires 0 <= i < |t.rows| => t.rows[i][j])
  }

  /** The (column, records) pairs of the bar chart: one per column, in column
      order, each reporting the length of that column, which is the number of
      rows of the table. */
  function DisplayColumnShapes(t: Table): (shapes: seq<(string, nat)>)
    requires Valid(t)
    ensures |shapes| == |t.columns|
    ensures forall j :: 0 <= j < |shapes| ==> shapes[j] == (t.columns[j], |t.rows|)
  {
    seq(|t.columns|, j requires 0 <= j < |t.columns| => (t.columns[j], |ColumnCells(t, j)|))
  }
}
