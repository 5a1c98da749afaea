/** Concrete instances of the page's logic on small inputs. */
module Scenarios {
  import opened Text
  import opened Tables
  import opened Analysis
  import opened Ingest

  /** The extension test ignores case. */
  lemma UpperCaseExtensionIsCsv()
    ensures IsCsv("a.CSV")
  {
    assert "a.CSV" == "a" + ['.'] + "CSV";
    LastPieceAfterSeparator("a", "CSV", '.');
  }

  /** Only the text after the last dot counts. */
  lemma DoubleExtensionIsNotCsv()
    ensures !IsCsv("x.csv.gz")
  {
    assert "x.csv.gz" == "x.csv" + ['.'] + "gz";
    LastPieceAfterSeparator("x.csv", "gz", '.');
  }

  /** A name without a dot is its own extension. */
  lemma BareNameCsvIsCsv()
    ensures IsCsv("csv")
  {
    LastPieceWithoutSeparator("csv", '.');
  }

  /** Any name ending in `.csv` passes the extension test. */
  lemma DotCsvIsCsv(stem: string)
    ensures IsCsv(stem + ".csv")
  {
    assert stem + ".csv" == stem + ['.'] + "csv";
    LastPieceAfterSeparator(stem, "csv", '.');
  }

  /** Two CSV uploads with the same columns merge to the rows of the first
      followed by the rows of the second. */
  lemma MergeTwo(f1: UploadedFile, f2: UploadedFile)
    requires Valid(f1.table) && Valid(f2.table)
    requires IsCsv(f1.name) && IsCsv(f2.name) && f1.table.columns == f2.table.columns
    ensures ValidUploads([f1, f2])
    ensures Merge([f1, f2]) == Ok(Table(f1.table.columns, f1.table.rows + f2.table.rows))
  {
    var files := [f1, f2];
    assert ValidUploads(files);
    MergeAllCsvSameColumns(files, f1.table.columns);
    assert files[..1] == [f1];
    assert [f1][..0] == [];
    assert FileRows([f1]) == f1.table.rows;
    assert FileRows(files) == f1.table.rows + f2.table.rows;
  }

  /** Two CSV uploads with the header `id,name`: the first holds the row
      (1, "Bob") twice, the second the row (2, "Amy"). The merge is the three
      rows in upload order. */
  lemma MergeExample(a: UploadedFile, b: UploadedFile, bob: Row, amy: Row)
    requires bob == [Num(1), Str("Bob")] && amy == [Num(2), Str("Amy")]
    requires IsCsv(a.name) && IsCsv(b.name)
    requires a.table == Table(["id", "name"], [bob, bob]) && b.table == Table(["id", "name"], [amy])
    ensures ValidUploads([a, b]) && Merge([a, b]) == Ok(Table(["id", "name"], [bob, bob, amy]))
  {
    ExampleTablesValid(a.table, b.table, bob, amy);
    assert a.table.rows + b.table.rows == [bob, bob, amy];
    MergeTwo(a, b);
  }

  lemma ExampleTablesValid(ta: Table, tb: Table, bob: Row, amy: Row)
    requires |bob| == 2 && |amy| == 2
    requires ta == Table(["id", "name"], [bob, bob]) && tb == Table(["id", "name"], [amy])
    ensures Valid(ta) && Valid(tb)
  {
    assert ta.columns[0] != ta.columns[1];
  }

  /** The merged table of that example has three records: two unique, one
      duplicate. */
  lemma CountExample(bob: Row, amy: Row)
    requires bob == [Num(1), Str("Bob")] && amy == [Num(2), Str("Amy")]
    ensures GeneratePieChart(Table(["id", "name"], [bob, bob, amy])) == RecordCounts(2, 1, 3)
  {
    assert bob != amy by { assert bob[0] != amy[0]; }
    assert (set r | r in [bob, bob, amy]) == {bob, amy};
  }
}
