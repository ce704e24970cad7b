/**
 * The SQL fragment the quality package generates, with the three-valued logic of section 8.12 of ISO/IEC 9075:1992.
 */
module Sql {
  import opened Common

  datatype Truth = True | False | Unknown

  function Not(t: Truth): Truth {
    match t
    case True => False
    case False => True
    case Unknown => Unknown
  }

  function And(a: Truth, b: Truth): Truth {
    if a == False || b == False then False
    else if a == Unknown || b == Unknown then Unknown
    else True
  }

  function Or(a: Truth, b: Truth): Truth {
    Not(And(Not(a), Not(b)))
  }

  function FromBool(b: bool): Truth {
    if b then True else False
  }

  datatype Cell = Null | Num(n: real) | Text(s: string)

  type Literal = c: Cell | !c.Null? witness Num(0.0)

  type Row = map<string, Cell>

  /** Rows are loaded by key lookup with a NULL default, so every column has a cell. */
  function CellAt(row: Row, column: string): Cell {
    if column in row then row[column] else Null
  }

  datatype Table = Table(columns: set<string>, rows: seq<Row>)

  type Database = map<string, Table>

  datatype Operator = Gt | Ge | Lt | Le | Eq | Ne

  function CompareReals(a: real, op: Operator, b: real): bool {
    match op
    case Gt => a > b
    case Ge => a >= b
    case Lt => a < b
    case Le => a <= b
    case Eq => a == b
    case Ne => a != b
  }

  /** `cell op number`; a text cell compared with a number is caught by `WellTyped` before this is asked. */
  function Compare(cell: Cell, op: Operator, value: real): Truth {
    match cell
    case Null => Unknown
    case Text(_) => Unknown
    case Num(n) => FromBool(CompareReals(n, op, value))
  }

  function Equal(a: Cell, b: Cell): Truth {
    if a.Null? || b.Null? then Unknown else FromBool(a == b)
  }

  /** `cell = v1 OR cell = v2 OR ...` */
  function AnyEqual(cell: Cell, values: seq<Literal>): Truth {
    if values == [] then False else Or(Equal(cell, values[0]), AnyEqual(cell, values[1..]))
  }

  datatype Condition =
    | IsNull(column: string)
    | NotCompare(column: string, op: Operator, value: real)
    | NotBetween(column: string, low: real, high: real)
    | NotIn(column: string, values: seq<Literal>)

  function Holds(c: Condition, row: Row): Truth {
    var cell := CellAt(row, c.column);
    match c
    case IsNull(_) => FromBool(cell.Null?)
    case NotCompare(_, op, value) => Not(Compare(cell, op, value))
    case NotBetween(_, low, high) => Not(And(Compare(cell, Ge, low), Compare(cell, Le, high)))
    case NotIn(_, values) => Not(AnyEqual(cell, values))
  }

  predicate SameKind(cell: Cell, value: Literal) {
    cell.Null? || (cell.Num? <==> value.Num?)
  }

  /** The cell can be compared with the condition's literals; otherwise the engine raises a conversion error. */
  predicate WellTyped(c: Condition, row: Row) {
    var cell := CellAt(row, c.column);
    match c
    case IsNull(_) => true
    case NotCompare(_, _, _) => !cell.Text?
    case NotBetween(_, _, _) => !cell.Text?
    case NotIn(_, values) => forall v :: v in values ==> SameKind(cell, v)
  }

  /** The truth tables of section 8.12, and what a comparison with a NULL gives. */
  lemma TruthTables(a: Truth, b: Truth, x: Cell, y: Cell)
    ensures Not(True) == False && Not(False) == True && Not(Unknown) == Unknown
    ensures And(a, b) == True <==> a == True && b == True
    ensures And(a, b) == False <==> a == False || b == False
    ensures Or(a, b) == True <==> a == True || b == True
    ensures Or(a, b) == False <==> a == False && b == False
    ensures Equal(x, y) == Unknown <==> x == Null || y == Null
    ensures Equal(x, y) == True <==> x == y && x != Null
  {
  }

  datatype Scalar =
    | CountStar
    | CountDistinct(column: string)
    | CountStarMinusDistinct(column: string)

  /** `SELECT select FROM table [WHERE condition]` */
  datatype Query = Query(select: Scalar, table: string, where: Option<Condition>)

  datatype SqlError = NoSuchTable | NoSuchColumn | ConversionError

  function Cells(rows: seq<Row>, column: string): (cells: seq<Cell>)
    ensures |cells| == |rows|
    ensures forall i :: 0 <= i < |rows| ==> cells[i] == CellAt(rows[i], column)
  {
    seq(|rows|, i requires 0 <= i < |rows| => CellAt(rows[i], column))
  }

  /** COUNT(DISTINCT column) skips NULLs: section 6.5 of ISO/IEC 9075:1992. */
  function DistinctValues(cells: seq<Cell>): set<Cell> {
    set c | c in cells && !c.Null?
  }

  predicate ColumnsExist(q: Query, t: Table) {
    && (q.where.Some? ==> q.where.value.column in t.columns)
    && (q.select.CountStar? || q.select.column in t.columns)
  }

  function Execute(q: Query, db: Database): Result<int, SqlError> {
    if q.table !in db then Err(NoSuchTable)
    else if !ColumnsExist(q, db[q.table]) then Err(NoSuchColumn)
    else if q.where.Some? && exists r :: r in db[q.table].rows && !WellTyped(q.where.value, r) then Err(ConversionError)
    else
      var rows := if q.where.None? then db[q.table].rows
                  else Filter(db[q.table].rows, (r: Row) => Holds(q.where.value, r) == True);
      match q.select
      case CountStar => Ok(|rows|)
      case CountDistinct(c) => Ok(|DistinctValues(Cells(rows, c))|)
      case CountStarMinusDistinct(c) => Ok(|rows| - |DistinctValues(Cells(rows, c))|)
  }
}
