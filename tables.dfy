/** The table the page works on, as the table library holds it after
    parsing: named columns and rows of tagged cells. */
module Tables {

  /** One scalar value: text, an integer, a boolean, or a missing value. */
  datatype Cell = Str(s: string) | Num(n: int) | Bool(b: bool) | Missing

  type Row = seq<Cell>

  datatype Table = Table(columns: seq<string>, rows: seq<Row>)

  predicate NoDuplicates<T(==)>(s: seq<T>) {
    forall i, j :: 0 <= i < j < |s| ==> s[i] != s[j]
  }

  /** What every parsed table satisfies: column names are distinct (the
      parser renames repeated headers) and every row has one cell per
      column. */
  predicate Valid(t: Table) {
    && NoDuplicates(t.columns)
    && forall i :: 0 <= i < |t.rows| ==> |t.rows[i]| == |t.columns|
  }

  function DigitChar(d: nat): char
    requires d < 10
  {
    "0123456789"[d]
  }

  function NatToString(n: nat): string
    decreases n
  {
    if n < 10 then [DigitChar(n)] else NatToString(n / 10) + [DigitChar(n % 10)]
  }

  /** The string form of a cell, as `astype(str)` gives it. */
  function Render(c: Cell): string {
    match c
    case Str(s) => s
    case Num(n) => if n < 0 then "-" + NatToString(-n) else NatToString(n)
    case Bool(b) => if b then "True" else "False"
    case Missing => "nan"
  }
}
