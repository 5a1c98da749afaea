/** The table handed to the CSV writer by the download button: with the
    lowercase option, every text cell folded to lower case. */
module Export {
  import opened Text
  import opened Tables

  /** The `applymap` callback: text is lowercased, any other value is
      returned as it is. */
  function LowerCell(c: Cell): Cell {
    if c.Str? then Str(Lower(c.s)) else c
  }

  /** `df.applymap(LowerCell)`: same columns (headers are not touched), same
      number of rows and of cells per row; a text cell becomes the lower case
      of its text and stays text, every other cell is unchanged. */
  function LowercaseTable(t: Table): (r: Table)
    ensures r.columns == t.columns
    ensures |r.rows| == |t.rows|
    ensures forall i :: 0 <= i < |t.rows| ==> |r.rows[i]| == |t.rows[i]|
    ensures forall i, j :: 0 <= i < |t.rows| && 0 <= j < |t.rows[i]| ==>
      (r.rows[i][j].Str? <==> t.rows[i][j].Str?)
    ensures forall i, j :: 0 <= i < |t.rows| && 0 <= j < |t.rows[i]| && t.rows[i][j].Str? ==>
      r.rows[i][j].s == Lower(t.rows[i][j].s)
    ensures forall i, j :: 0 <= i < |t.rows| && 0 <= j < |t.rows[i]| && !t.rows[i][j].Str? ==>
      r.rows[i][j] == t.rows[i][j]
    ensures Valid(t) ==> Valid(r)
  {
    Table(t.columns, seq(|t.rows|, i requires 0 <= i < |t.rows| => LowerRow(t.rows[i])))
  }

  function LowerRow(row: Row): (r: Row)
    ensures |r| == |row|
    ensures forall j :: 0 <= j < |row| ==> r[j] == LowerCell(row[j])
  {
    seq(|row|, j requires 0 <= j < |row| => LowerCell(row[j]))
  }

  /** No text cell of the table holds a capital letter. */
  predicate AllTextLowerCase(t: Table) {
    forall i, j :: 0 <= i < |t.rows| && 0 <= j < |t.rows[i]| && t.rows[i][j].Str? ==>
      IsLowerCase(t.rows[i][j].s)
  }

  /** `download_clean_data`, before the CSV encoding: the table is exported
      as it is unless the lowercase option is set; with it, no text cell of
      the export holds a capital letter, and the export has the input's
      shape. */
  function DownloadCleanData(t: Table, convertLowercase: bool): (exported: Table)
    ensures !convertLowercase ==> exported == t
    ensures convertLowercase ==> exported == LowercaseTable(t) && AllTextLowerCase(exported)
    ensures exported.columns == t.columns && |exported.rows| == |t.rows|
    ensures Valid(t) ==> Valid(exported)
  {
    if convertLowercase then LowercaseTable(t) else t
  }

  /** Lowercasing an exported table again changes nothing. */
  lemma LowercaseIdempotent(t: Table)
    ensures LowercaseTable(LowercaseTable(t)) == LowercaseTable(t)
  {
    var once := LowercaseTable(t);
    var twice := LowercaseTable(once);
    forall i | 0 <= i < |t.rows| ensures twice.rows[i] == once.rows[i] {
      forall j | 0 <= j < |t.rows[i]| ensures twice.rows[i][j] == once.rows[i][j] {
        if t.rows[i][j].Str? {
          LowerIdempotent(t.rows[i][j].s);
        }
      }
    }
  }

  /** The lowercase export of an exported table is the export itself. */
  lemma DownloadIdempotent(t: Table)
    ensures DownloadCleanData(DownloadCleanData(t, true), true) == DownloadCleanData(t, true)
  {
    LowercaseIdempotent(t);
  }
}
