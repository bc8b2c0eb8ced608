/** Tables as the merge operations see them: an ordered list of column names
    and an ordered list of rows, each row holding one cell per column. */
module Tables {

  datatype Option<T> = None | Some(value: T)

  /** A cell. `Null` stands for a missing value (NaN or None in a data frame). */
  datatype Value = Null | Num(n: int) | Text(s: string)

  /** One row: its cells in column order. */
  type Row = seq<Value>

  datatype Table = Table(columns: seq<string>, rows: seq<Row>)

  /** The errors the table operations raise. */
  datatype Error =
    | MissingKeyArgument          // a key argument is None or empty
    | InvalidDirection            // an anti-join direction other than the two known ones
    | ColumnNotFound(name: string) // a key column the table does not have

  datatype Result<T> = Ok(value: T) | Err(error: Error)

  /** Every row has exactly one cell per column. */
  predicate WellFormed(t: Table) {
    forall r :: r in t.rows ==> |r| == |t.columns|
  }

  /** Position of the first column called `name`, if there is one. */
  function IndexOf(cols: seq<string>, name: string): (r: Option<nat>)
    ensures r.None? <==> name !in cols
    ensures r.Some? ==> r.value < |cols| && cols[r.value] == name
    ensures r.Some? ==> forall k :: 0 <= k < r.value ==> cols[k] != name
  {
    if |cols| == 0 then None
    else if cols[0] == name then Some(0)
    else match IndexOf(cols[1..], name)
      case None => None
      case Some(k) => Some(k + 1)
  }

  /** The cell at position `k` of a row; `Null` past its end. */
  function Cell(r: Row, k: nat): Value {
    if k < |r| then r[k] else Null
  }

  /** The value of the column called `name` in a row of a table with columns `cols`. */
  function Lookup(cols: seq<string>, r: Row, name: string): Value {
    match IndexOf(cols, name)
    case None => Null
    case Some(k) => Cell(r, k)
  }

  /** Column `k` of a table, top to bottom. */
  function Column(t: Table, k: nat): (c: seq<Value>)
    ensures |c| == |t.rows|
    ensures forall i :: 0 <= i < |c| ==> c[i] == Cell(t.rows[i], k)
  {
    seq(|t.rows|, i requires 0 <= i < |t.rows| => Cell(t.rows[i], k))
  }

  /** The distinct values of a column. */
  function Values(s: seq<Value>): set<Value> {
    set v | v in s
  }

  /** A row of `n` missing values. */
  function NullRow(n: nat): (r: Row)
    ensures |r| == n && forall k :: 0 <= k < n ==> r[k] == Null
  {
    seq(n, k => Null)
  }
}
