/** Ingestion: the extension test, the merge of several uploaded files by
    `pd.concat`, and the choice between reading one file and merging many. */
module Ingest {
  import opened Text
  import opened Tables

  /** Why no table came out of the upload step. */
  datatype Error =
    | NothingUploaded        // the uploader is empty: the page shows nothing more
    | NoObjectsToConcatenate // `pd.concat([])` raises: no file passed the extension test

  datatype Result<T> = Ok(value: T) | Err(error: Error)

  /** An uploaded file: its name and the table the CSV parser reads from it. */
  datatype UploadedFile = UploadedFile(name: string, table: Table)

  /** Every uploaded file parsed to a valid table. */
  predicate ValidUploads(files: seq<UploadedFile>) {
    forall i :: 0 <= i < |files| ==> Valid(files[i].table)
  }

  /** No uploaded file passes the extension test. */
  predicate NoCsvFile(files: seq<UploadedFile>) {
    forall i :: 0 <= i < |files| ==> !IsCsv(files[i].name)
  }

  /** `name.split('.')[-1].lower()`. */
  function FileExtension(name: string): string {
    Lower(LastPiece(name, '.'))
  }

  predicate IsCsv(name: string) {
    FileExtension(name) == "csv"
  }

  /** A file is merged exactly when the text after the last dot of its name
      (the whole name when there is no dot) reads "csv" in any case. */
  lemma IsCsvIff(name: string)
    ensures IsCsv(name) <==>
      exists k :: 0 <= k <= |name| && (k == 0 || name[k - 1] == '.') &&
        '.' !in name[k..] && Lower(name[k..]) == "csv"
  {
    var e := LastPiece(name, '.');
    LastPieceIsAfterLastSeparator(name, '.');
    var k0 := |name| - |e|;
    if IsCsv(name) {
      assert name[k0..] == e;
    }
    if k :| 0 <= k <= |name| && (k == 0 || name[k - 1] == '.') && '.' !in name[k..] && Lower(name[k..]) == "csv" {
      assert k == k0;
    }
  }

  /** The parsed tables of the files that pass the extension test, in
      upload order (the list `dfs`). */
  function KeptTables(files: seq<UploadedFile>): (kept: seq<Table>)
    ensures ValidUploads(files) ==> AllValid(kept)
    decreases |files|
  {
    if files == [] then []
    else
      var last := files[|files| - 1];
      KeptTables(files[..|files| - 1]) + (if IsCsv(last.name) then [last.table] else [])
  }

  /** Keeping distributes over concatenation of the upload list: the kept
      tables keep the upload order. */
  lemma {:induction false} KeptTablesDistributes(a: seq<UploadedFile>, b: seq<UploadedFile>)
    ensures KeptTables(a + b) == KeptTables(a) + KeptTables(b)
    decreases |b|
  {
    if b == [] {
      assert a + b == a;
    } else {
      var b' := b[..|b| - 1];
      assert (a + b)[..|a + b| - 1] == a + b';
      assert (a + b)[|a + b| - 1] == b[|b| - 1];
      KeptTablesDistributes(a, b');
    }
  }

  /** A single file is kept exactly when it passes the extension test. */
  lemma KeptTablesSingle(f: UploadedFile)
    ensures KeptTables([f]) == if IsCsv(f.name) then [f.table] else []
  {
    assert [f][..0] == [];
  }

  /** Nothing is kept exactly when no file passes the extension test. */
  lemma {:induction false} KeptTablesEmptyIff(files: seq<UploadedFile>)
    ensures KeptTables(files) == [] <==> NoCsvFile(files)
    decreases |files|
  {
    if files != [] {
      var front := files[..|files| - 1];
      var last := files[|files| - 1];
      assert files == front + [last];
      assert KeptTables(files) == KeptTables(front) + (if IsCsv(last.name) then [last.table] else []);
      if IsCsv(last.name) {
        assert |KeptTables(files)| > 0;
        assert !NoCsvFile(files) by {
          assert IsCsv(files[|files| - 1].name);
        }
      } else {
        KeptTablesEmptyIff(front);
        NoCsvFileAppend(front, last);
      }
    }
  }

  lemma NoCsvFileAppend(front: seq<UploadedFile>, last: UploadedFile)
    ensures NoCsvFile(front + [last]) <==> NoCsvFile(front) && !IsCsv(last.name)
  {
    var files := front + [last];
    if NoCsvFile(front) && !IsCsv(last.name) {
      forall i | 0 <= i < |files| ensures !IsCsv(files[i].name) {
        if i < |front| {
          assert files[i] == front[i];
        } else {
          assert files[i] == last;
        }
      }
    }
    if NoCsvFile(files) {
      assert files[|front|] == last;
      forall i | 0 <= i < |front| ensures !IsCsv(front[i].name) {
        assert front[i] == files[i];
      }
    }
  }

  /** Every kept table is the table of a file that passes the test. */
  lemma {:induction false} KeptTablesFromCsvFiles(files: seq<UploadedFile>)
    ensures forall t :: t in KeptTables(files) ==>
      exists i :: 0 <= i < |files| && IsCsv(files[i].name) && files[i].table == t
    decreases |files|
  {
    if files != [] {
      var front := files[..|files| - 1];
      KeptTablesFromCsvFiles(front);
      forall t | t in KeptTables(files)
        ensures exists i :: 0 <= i < |files| && IsCsv(files[i].name) && files[i].table == t
      {
        if t in KeptTables(front) {
          var i :| 0 <= i < |front| && IsCsv(front[i].name) && front[i].table == t;
          assert files[i] == front[i];
        } else {
          assert IsCsv(files[|files| - 1].name) && files[|files| - 1].table == t;
        }
      }
    }
  }

  /** The column labels of a concatenation: those of `a`, then those of `b`
      that `a` lacks, in order of first appearance (see UnionColumnsOrder). */
  function UnionColumns(a: seq<string>, b: seq<string>): (u: seq<string>)
    ensures |a| <= |u| && u[..|a|] == a
    ensures forall c :: c in u <==> c in a || c in b
    ensures NoDuplicates(a) ==> NoDuplicates(u)
    decreases |b|
  {
    if b == [] then a
    else
      var a' := if b[0] in a then a else a + [b[0]];
      assert NoDuplicates(a) ==> NoDuplicates(a');
      var u := UnionColumns(a', b[1..]);
      assert u[..|a|] == u[..|a'|][..|a|];
      assert b == [b[0]] + b[1..];
      u
  }

  /** The labels of `u` after its prefix `a` are labels of `b` that `a`
      lacks, in the order of their first appearance in `b`. */
  predicate AddedInOrder(a: seq<string>, b: seq<string>, u: seq<string>)
    requires |a| <= |u|
  {
    && (forall i :: |a| <= i < |u| ==> u[i] !in a && u[i] in b)
    && (forall i, j :: |a| <= i < j < |u| ==> IndexOf(b, u[i]) < IndexOf(b, u[j]))
  }

  /** The union adds the labels `a` lacks in the order in which `b` first
      shows them, each once. */
  lemma {:induction false} UnionColumnsOrder(a: seq<string>, b: seq<string>)
    ensures AddedInOrder(a, b, UnionColumns(a, b))
    decreases |b|
  {
    if b != [] {
      var a' := if b[0] in a then a else a + [b[0]];
      var u := UnionColumns(a', b[1..]);
      assert UnionColumns(a, b) == u;
      UnionColumnsOrder(a', b[1..]);
      AddedInOrderStep(a, b, a', u);
    }
  }

  /** One step of the union: `b[0]` is appended unless `a` has it already. */
  lemma AddedInOrderStep(a: seq<string>, b: seq<string>, a': seq<string>, u: seq<string>)
    requires b != []
    requires a' == if b[0] in a then a else a + [b[0]]
    requires |a'| <= |u| && u[..|a'|] == a'
    requires AddedInOrder(a', b[1..], u)
    ensures AddedInOrder(a, b, u)
  {
    forall i | |a'| <= i < |u| ensures u[i] !in a && u[i] in b && IndexOf(b, u[i]) == 1 + IndexOf(b[1..], u[i]) {
      IndexOfTail(b, u[i]);
    }
    if b[0] !in a {
      assert u[|a|] == a'[|a|] == b[0];
    }
  }

  lemma IndexOfTail(b: seq<string>, x: string)
    requires b != [] && x in b[1..] && x != b[0]
    ensures x in b && IndexOf(b, x) == 1 + IndexOf(b[1..], x)
  {
  }

  /** Position of a column label. */
  function IndexOf(s: seq<string>, x: string): (i: nat)
    requires x in s
    ensures i < |s| && s[i] == x
    ensures forall k :: 0 <= k < i ==> s[k] != x
  {
    if s[0] == x then 0 else 1 + IndexOf(s[1..], x)
  }

  lemma IndexOfDistinct(s: seq<string>, i: nat)
    requires NoDuplicates(s) && i < |s|
    ensures IndexOf(s, s[i]) == i
  {
  }

  /** A row laid out under `from`, re-laid under `to`: the cell of each
      column of `to` that `from` has, missing for the others. */
  function Align(row: Row, from: seq<string>, to: seq<string>): (r: Row)
    requires |row| == |from|
    ensures |r| == |to|
    ensures forall j :: 0 <= j < |to| && to[j] !in from ==> r[j] == Missing
    ensures forall j :: 0 <= j < |to| && to[j] in from ==> r[j] == row[IndexOf(from, to[j])]
  {
    seq(|to|, j requires 0 <= j < |to| =>
      if to[j] in from then row[IndexOf(from, to[j])] else Missing)
  }

  /** Re-laying the rows of a table under the same distinct columns changes
      nothing. */
  lemma AlignSelf(row: Row, cols: seq<string>)
    requires |row| == |cols| && NoDuplicates(cols)
    ensures Align(row, cols, cols) == row
  {
    forall j | 0 <= j < |cols| ensures Align(row, cols, cols)[j] == row[j] {
      IndexOfDistinct(cols, j);
    }
  }

  function AlignRows(rows: seq<Row>, from: seq<string>, to: seq<string>): (r: seq<Row>)
    requires forall i :: 0 <= i < |rows| ==> |rows[i]| == |from|
    ensures |r| == |rows|
    ensures forall i :: 0 <= i < |r| ==> r[i] == Align(rows[i], from, to)
  {
    seq(|rows|, i requires 0 <= i < |rows| => Align(rows[i], from, to))
  }

  /** `pd.concat([a, b], ignore_index=True)`: the columns of `a`, then the
      columns only `b` has, in `b`'s order; the rows of `a`, then those of
      `b`, each re-laid under those columns. */
  function ConcatTwo(a: Table, b: Table): (r: Table)
    requires Valid(a) && Valid(b)
    ensures Valid(r)
    ensures |a.columns| <= |r.columns| && r.columns[..|a.columns|] == a.columns
    ensures forall c :: c in r.columns <==> c in a.columns || c in b.columns
    ensures AddedInOrder(a.columns, b.columns, r.columns)
    ensures |r.rows| == |a.rows| + |b.rows|
    ensures forall i :: 0 <= i < |a.rows| ==> r.rows[i] == Align(a.rows[i], a.columns, r.columns)
    ensures forall i :: 0 <= i < |b.rows| ==> r.rows[|a.rows| + i] == Align(b.rows[i], b.columns, r.columns)
  {
    var u := UnionColumns(a.columns, b.columns);
    UnionColumnsOrder(a.columns, b.columns);
    Table(u, AlignRows(a.rows, a.columns, u) + AlignRows(b.rows, b.columns, u))
  }

  function TotalRows(ts: seq<Table>): nat
    decreases |ts|
  {
    if ts == [] then 0 else TotalRows(ts[..|ts| - 1]) + |ts[|ts| - 1].rows|
  }

  predicate AllValid(ts: seq<Table>) {
    forall k :: 0 <= k < |ts| ==> Valid(ts[k])
  }

  /** `pd.concat(dfs, ignore_index=True)` for a non-empty list: a valid
      table whose row count is the sum of the inputs' row counts. */
  function ConcatTables(ts: seq<Table>): (r: Table)
    requires |ts| >= 1 && AllValid(ts)
    ensures Valid(r)
    ensures |r.rows| == TotalRows(ts)
    ensures forall k, c :: 0 <= k < |ts| && c in ts[k].columns ==> c in r.columns
    ensures forall c :: c in r.columns ==> exists k :: 0 <= k < |ts| && c in ts[k].columns
    decreases |ts|
  {
    if |ts| == 1 then
      assert TotalRows(ts) == |ts[0].rows| by { assert ts[..0] == []; }
      ts[0]
    else
      var front, last := ts[..|ts| - 1], ts[|ts| - 1];
      assert forall k :: 0 <= k < |front| ==> front[k] == ts[k];
      var m := ConcatTables(front);
      var r := ConcatTwo(m, last);
      assert r.columns == UnionColumns(m.columns, last.columns);
      r
  }

  /** The rows of the inputs, one input after another. */
  function ConcatRows(ts: seq<Table>): seq<Row>
    decreases |ts|
  {
    if ts == [] then [] else ConcatRows(ts[..|ts| - 1]) + ts[|ts| - 1].rows
  }

  /** When every input has the same columns, the merge has those columns
      and its rows are the inputs' rows, input after input, each input in its
      own row order. */
  lemma {:induction false} ConcatSameColumns(ts: seq<Table>, cols: seq<string>)
    requires |ts| >= 1 && AllValid(ts)
    requires forall k :: 0 <= k < |ts| ==> ts[k].columns == cols
    ensures ConcatTables(ts) == Table(cols, ConcatRows(ts))
    decreases |ts|
  {
    if |ts| == 1 {
      assert ts[..0] == [];
    } else {
      var front := ts[..|ts| - 1];
      var last := ts[|ts| - 1];
      ConcatSameColumns(front, cols);
      var m := ConcatTables(front);
      assert UnionColumns(cols, cols) == cols by { UnionWithSubset(cols, cols); }
      forall i | 0 <= i < |m.rows| ensures Align(m.rows[i], cols, cols) == m.rows[i] {
        AlignSelf(m.rows[i], cols);
      }
      forall i | 0 <= i < |last.rows| ensures Align(last.rows[i], cols, cols) == last.rows[i] {
        AlignSelf(last.rows[i], cols);
      }
      assert AlignRows(m.rows, cols, cols) == m.rows;
      assert AlignRows(last.rows, cols, cols) == last.rows;
    }
  }

  /** The rows of the inputs, each re-laid under the columns `u`, input
      after input. */
  function AlignedRows(ts: seq<Table>, u: seq<string>): (r: seq<Row>)
    requires AllValid(ts)
    ensures forall i :: 0 <= i < |r| ==> |r[i]| == |u|
    decreases |ts|
  {
    if ts == [] then []
    else AlignedRows(ts[..|ts| - 1], u) + AlignRows(ts[|ts| - 1].rows, ts[|ts| - 1].columns, u)
  }

  /** Re-laying a row twice, through columns that include its own, is
      re-laying it once. */
  lemma AlignTwice(row: Row, c: seq<string>, mid: seq<string>, u: seq<string>)
    requires |row| == |c|
    requires forall x :: x in c ==> x in mid
    ensures Align(Align(row, c, mid), mid, u) == Align(row, c, u)
  {
  }

  lemma {:induction false} RealignRows(ts: seq<Table>, mid: seq<string>, u: seq<string>)
    requires AllValid(ts)
    requires forall k, x :: 0 <= k < |ts| && x in ts[k].columns ==> x in mid
    ensures AlignRows(AlignedRows(ts, mid), mid, u) == AlignedRows(ts, u)
    decreases |ts|
  {
    if ts != [] {
      var front := ts[..|ts| - 1];
      var last := ts[|ts| - 1];
      RealignRows(front, mid, u);
      var a := AlignedRows(front, mid);
      var b := AlignRows(last.rows, last.columns, mid);
      assert AlignRows(a + b, mid, u) == AlignRows(a, mid, u) + AlignRows(b, mid, u);
      forall i | 0 <= i < |last.rows|
        ensures Align(b[i], mid, u) == Align(last.rows[i], last.columns, u)
      {
        AlignTwice(last.rows[i], last.columns, mid, u);
      }
      assert AlignRows(b, mid, u) == AlignRows(last.rows, last.columns, u);
    }
  }

  /** Merge order and contents for any columns: the merged rows are the rows
      of the inputs, input after input and each in its own order, every row
      re-laid under the merged columns (a column its file lacks reads as
      missing). */
  lemma {:induction false} ConcatTablesRows(ts: seq<Table>)
    requires |ts| >= 1 && AllValid(ts)
    ensures ConcatTables(ts).rows == AlignedRows(ts, ConcatTables(ts).columns)
    decreases |ts|
  {
    var r := ConcatTables(ts);
    if |ts| == 1 {
      assert ts[..0] == [];
      forall i | 0 <= i < |ts[0].rows| ensures Align(ts[0].rows[i], r.columns, r.columns) == ts[0].rows[i] {
        AlignSelf(ts[0].rows[i], r.columns);
      }
      assert AlignRows(ts[0].rows, ts[0].columns, r.columns) == ts[0].rows;
    } else {
      var front := ts[..|ts| - 1];
      var last := ts[|ts| - 1];
      var m := ConcatTables(front);
      ConcatTablesRows(front);
      assert forall k :: 0 <= k < |front| ==> front[k] == ts[k];
      RealignRows(front, m.columns, r.columns);
    }
  }

  lemma {:induction false} UnionWithSubset(a: seq<string>, b: seq<string>)
    requires forall c :: c in b ==> c in a
    ensures UnionColumns(a, b) == a
    decreases |b|
  {
    if b != [] {
      assert b[0] in a;
      UnionWithSubset(a, b[1..]);
    }
  }

  /** `merge_data_files`, as a value: the concatenation of the kept tables,
      or the error `pd.concat` raises on an empty list. */
  function Merge(files: seq<UploadedFile>): (r: Result<Table>)
    requires ValidUploads(files)
  {
    var kept := KeptTables(files);
    if kept == [] then Err(NoObjectsToConcatenate) else Ok(ConcatTables(kept))
  }

  /** The merge fails exactly when no file passes the extension test;
      otherwise it is a valid table holding as many rows as the kept files,
      namely their rows in upload order, and its columns are exactly the
      columns of the files that pass the test. */
  lemma MergeOutcome(files: seq<UploadedFile>)
    requires ValidUploads(files)
    ensures Merge(files).Err? <==> NoCsvFile(files)
    ensures Merge(files).Err? ==> Merge(files).error == NoObjectsToConcatenate
    ensures Merge(files).Ok? ==>
      && Valid(Merge(files).value)
      && |Merge(files).value.rows| == TotalRows(KeptTables(files))
      && Merge(files).value.rows == AlignedRows(KeptTables(files), Merge(files).value.columns)
      && (forall i, c :: 0 <= i < |files| && IsCsv(files[i].name) && c in files[i].table.columns ==>
           c in Merge(files).value.columns)
      && (forall c :: c in Merge(files).value.columns ==>
           exists i :: 0 <= i < |files| && IsCsv(files[i].name) && c in files[i].table.columns)
  {
    KeptTablesEmptyIff(files);
    var kept := KeptTables(files);
    if kept != [] {
      ConcatTablesRows(kept);
      KeptTablesFromCsvFiles(files);
      forall c | c in Merge(files).value.columns
        ensures exists i :: 0 <= i < |files| && IsCsv(files[i].name) && c in files[i].table.columns
      {
        var k :| 0 <= k < |kept| && c in kept[k].columns;
        assert kept[k] in kept;
        var i :| 0 <= i < |files| && IsCsv(files[i].name) && files[i].table == kept[k];
      }
    }
    forall i | 0 <= i < |files| && IsCsv(files[i].name)
      ensures files[i].table in KeptTables(files)
    {
      KeptTablesHoldsCsvFile(files, i);
    }
  }

  /** The table of every file that passes the extension test is kept. */
  lemma {:induction false} KeptTablesHoldsCsvFile(files: seq<UploadedFile>, i: nat)
    requires i < |files| && IsCsv(files[i].name)
    ensures files[i].table in KeptTables(files)
    decreases |files|
  {
    var front := files[..|files| - 1];
    var last := files[|files| - 1];
    assert KeptTables(files) == KeptTables(front) + (if IsCsv(last.name) then [last.table] else []);
    if i < |files| - 1 {
      assert files[i] == front[i];
      KeptTablesHoldsCsvFile(front, i);
    }
  }

  /** When every uploaded file is a CSV file and all share the same
      columns, the merge is the rows of the files in upload order. */
  lemma {:induction false} MergeAllCsvSameColumns(files: seq<UploadedFile>, cols: seq<string>)
    requires |files| >= 1
    requires ValidUploads(files)
    requires forall i :: 0 <= i < |files| ==> IsCsv(files[i].name) && files[i].table.columns == cols
    ensures Merge(files) == Ok(Table(cols, FileRows(files)))
  {
    KeptAllCsv(files);
    ConcatSameColumns(KeptTables(files), cols);
    ConcatRowsOfFiles(files);
  }

  /** The rows of the uploaded files, in upload order. */
  function FileRows(files: seq<UploadedFile>): seq<Row>
    decreases |files|
  {
    if files == [] then [] else FileRows(files[..|files| - 1]) + files[|files| - 1].table.rows
  }

  function TablesOf(files: seq<UploadedFile>): (ts: seq<Table>)
    ensures |ts| == |files|
    ensures forall i :: 0 <= i < |files| ==> ts[i] == files[i].table
    decreases |files|
  {
    if files == [] then [] else TablesOf(files[..|files| - 1]) + [files[|files| - 1].table]
  }

  lemma {:induction false} KeptAllCsv(files: seq<UploadedFile>)
    requires forall i :: 0 <= i < |files| ==> IsCsv(files[i].name)
    ensures KeptTables(files) == TablesOf(files)
    decreases |files|
  {
    if files != [] {
      var front := files[..|files| - 1];
      var last := files[|files| - 1];
      assert forall i :: 0 <= i < |front| ==> front[i] == files[i];
      KeptAllCsv(front);
      assert KeptTables(files) == KeptTables(front) + [last.table];
    }
  }

  lemma {:induction false} ConcatRowsOfFiles(files: seq<UploadedFile>)
    ensures ConcatRows(TablesOf(files)) == FileRows(files)
    decreases |files|
  {
    if files != [] {
      var front := files[..|files| - 1];
      ConcatRowsOfFiles(front);
      assert TablesOf(files)[..|files| - 1] == TablesOf(front);
      assert TablesOf(files)[|files| - 1] == files[|files| - 1].table;
    }
  }

  /** One more file of the upload list keeps its table exactly when it
      passes the extension test. */
  lemma KeptTablesStep(files: seq<UploadedFile>, i: nat)
    requires i < |files|
    ensures KeptTables(files[..i + 1]) ==
      KeptTables(files[..i]) + (if FileExtension(files[i].name) == "csv" then [files[i].table] else [])
  {
    assert files[..i + 1][..i] == files[..i];
  }

  /** `merge_data_files`: walks the uploads in order, appends the parsed
      table of every file that passes the extension test, then concatenates;
      fails when nothing was appended. */
  method MergeDataFiles(files: seq<UploadedFile>) returns (r: Result<Table>)
    requires ValidUploads(files)
    ensures r == Merge(files)
    ensures r.Err? <==> NoCsvFile(files)
  {
    var dfs: seq<Table> := [];
    for i := 0 to |files|
      invariant dfs == KeptTables(files[..i])
    {
      var file := files[i];
      var fileExtension := Lower(LastPiece(file.name, '.'));
      KeptTablesStep(files, i);
      if fileExtension == "csv" {
        dfs := dfs + [file.table];
      }
    }
    assert files[..|files|] == files;
    MergeOutcome(files);
    if dfs == [] {
      r := Err(NoObjectsToConcatenate);
    } else {
      r := Ok(ConcatTables(dfs));
    }
  }

  /** The upload step of the page: nothing when the uploader is empty; the
      one file's table, read without any extension test, when only one file
      was uploaded; the merge otherwise. */
  method LoadUploads(files: seq<UploadedFile>) returns (r: Result<Table>)
    requires ValidUploads(files)
    ensures |files| == 0 ==> r == Err(NothingUploaded)
    ensures |files| == 1 ==> r == Ok(files[0].table)
    ensures |files| > 1 ==> r == Merge(files)
    ensures r.Ok? ==> Valid(r.value)
  {
    if |files| == 0 {
      r := Err(NothingUploaded);
    } else if |files| > 1 {
      r := MergeDataFiles(files);
      MergeOutcome(files);
    } else {
      r := Ok(files[0].table);
    }
  }
}
