/** The tabular data the pipeline works on: cell values as pandas hands
    them over, rows as ordered column/value pairs, and frames. */
module Table {
  import opened Wrappers

  /** A calendar date; the time of day is never looked at. */
  datatype Date = Date(year: nat, month: nat, day: nat)

  /** The dates a pandas timestamp can carry. */
  predicate ValidDate(d: Date) {
    1 <= d.year <= 9999 && 1 <= d.month <= 12 && 1 <= d.day <= 31
  }

  /** One cell of a data frame, tagged by its runtime type.
      `Float` keeps only whether the value is finite and, if so, its value.
      `Stamp(None)` is pandas' missing timestamp (NaT).
      `Other` is any other object, identified by its text form. */
  datatype Cell =
    | Null
    | Int(i: int)
    | Float(finite: bool, x: real)
    | Str(s: string)
    | Stamp(date: Option<Date>)
    | Other(text: string)

  /** A row (or record): column names with their values, in column order. */
  type Row = seq<(string, Cell)>

  /** A data frame: its column labels and its rows, in source order. */
  datatype Frame = Frame(columns: seq<string>, rows: seq<Row>)

  /** The column names of a row or of a record, in order. */
  function Keys<V>(row: seq<(string, V)>): seq<string> {
    if row == [] then [] else [row[0].0] + Keys(row[1..])
  }

  /** The value stored under `col`, if the row has that column. */
  function Lookup<V>(row: seq<(string, V)>, col: string): (r: Option<V>)
    ensures r.Some? <==> col in Keys(row)
  {
    if row == [] then None
    else if row[0].0 == col then Some(row[0].1)
    else Lookup(row[1..], col)
  }

  /** `df[col] = ...` for one row: the value under `col` becomes `c`,
      every other cell and the column order stay as they were. */
  function SetCell(row: Row, col: string, c: Cell): (r: Row)
    ensures Keys(r) == Keys(row)
    ensures col in Keys(row) ==> Lookup(r, col) == Some(c)
    ensures forall k :: k != col ==> Lookup(r, k) == Lookup(row, k)
  {
    if row == [] then []
    else [if row[0].0 == col then (col, c) else row[0]] + SetCell(row[1..], col, c)
  }
}
