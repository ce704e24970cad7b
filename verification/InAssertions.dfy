/** `column IN (...)` from its text to its verdict: the list lexer and printer, the engine's reading, the assertion. */
module InAssertions {
  import opened Common
  import opened Sql
  import opened Assertions
  import InList

  /** The value the engine gives to a numeric literal. */
  type Numerals = string -> real

  function LiteralOf(item: InList.Item, numerals: Numerals): Literal {
    match item
    case Quoted(text) => Text(text)
    case Number(digits) => Num(numerals(digits))
  }

  function Literals(items: seq<InList.Item>, numerals: Numerals): seq<Literal> {
    seq(|items|, i requires 0 <= i < |items| => LiteralOf(items[i], numerals))
  }

  lemma LiteralMembers(items: seq<InList.Item>, numerals: Numerals, cell: Cell)
    ensures cell in Literals(items, numerals) <==> IsListed(cell, items, numerals)
  {
    var literals := Literals(items, numerals);
    if cell in literals {
      var i :| 0 <= i < |literals| && literals[i] == cell;
      assert items[i] in items;
    }
    if IsListed(cell, items, numerals) {
      var x :| x in items && cell == LiteralOf(x, numerals);
      var i :| 0 <= i < |items| && items[i] == x;
      assert literals[i] == cell;
    }
  }

  predicate IsListed(cell: Cell, items: seq<InList.Item>, numerals: Numerals) {
    exists x :: x in items && cell == LiteralOf(x, numerals)
  }

  /** The SQL list that the parser emits for the text between the parentheses. */
  function EmittedList(values: string): Result<string, InList.ParseError> {
    match InList.ValueList(values)
    case Err(e) => Err(e)
    case Ok(items) => Ok(InList.Join(InList.PrintAll(items), ", "))
  }

  /** The condition `column NOT IN (list)` as the engine reads it. */
  function ReadCondition(column: string, list: string, numerals: Numerals): Option<Condition> {
    match InList.ReadList(list)
    case None => None
    case Some(items) => Some(NotIn(column, Literals(items, numerals)))
  }

  /** The engine's outcome for the emitted query; None when it cannot read the query. */
  function OutcomeOfText(table: string, column: string, list: string, db: Database, numerals: Numerals)
    : Option<Result<Outcome, SqlError>>
  {
    match ReadCondition(column, list, numerals)
    case None => None
    case Some(condition) =>
      var a := InValues(table, column, condition.values);
      Some(Evaluate(ParsedAssertion(a, Query(CountStar, table, Some(condition)), FailCondition(Gt, 0.0)), db))
  }

  /** Table and column exist, and every cell of the column compares with every listed value. */
  predicate IsComparable(table: string, column: string, items: seq<InList.Item>, db: Database, numerals: Numerals) {
    && table in db && column in db[table].columns
    && (forall r, x | r in db[table].rows && x in items && !CellAt(r, column).Null? ::
         if x.Quoted? then CellAt(r, column).Text? else CellAt(r, column).Num?)
  }

  predicate IsUnlisted(cell: Cell, items: seq<InList.Item>, numerals: Numerals) {
    !cell.Null? && !IsListed(cell, items, numerals)
  }

  lemma ComparableApplies(
    table: string, column: string, items: seq<InList.Item>, db: Database, numerals: Numerals)
    requires IsComparable(table, column, items, db, numerals)
    ensures Applies(InValues(table, column, Literals(items, numerals)), db)
  {
    var literals := Literals(items, numerals);
    forall r, v | r in db[table].rows && v in literals && !CellAt(r, column).Null?
      ensures (CellAt(r, column).Num? && v.Num?) || (CellAt(r, column).Text? && v.Text?)
    {
      LiteralMembers(items, numerals, v);
    }
  }

  lemma {:induction false} ViolatingRows(
    rows: seq<Row>, table: string, column: string, items: seq<InList.Item>, numerals: Numerals)
    ensures Count(rows, (r: Row) => Violates(InValues(table, column, Literals(items, numerals)), r))
         == Count(rows, (r: Row) => IsUnlisted(CellAt(r, column), items, numerals))
  {
    if rows != [] {
      LiteralMembers(items, numerals, CellAt(rows[0], column));
      ViolatingRows(rows[1..], table, column, items, numerals);
    }
  }

  /**
   * From the text between the parentheses to the verdict: the engine reads the emitted list back as the values meant,
   * the assertion passes iff each cell is NULL or one of them, and it reports the number of the others.
   */
  lemma InTextMeaning(table: string, column: string, values: string, db: Database, numerals: Numerals)
    requires InList.ValueList(values).Ok? && table in db && column in db[table].columns
    requires forall r, x | r in db[table].rows && x in InList.ValueList(values).value && !CellAt(r, column).Null? ::
      if x.Quoted? then CellAt(r, column).Text? else CellAt(r, column).Num?
    ensures var items := InList.ValueList(values).value;
            var outcome := OutcomeOfText(table, column, EmittedList(values).value, db, numerals);
            && outcome.Some? && outcome.value.Ok?
            && (outcome.value.value.passed <==>
                 forall r :: r in db[table].rows ==> !IsUnlisted(CellAt(r, column), items, numerals))
            && outcome.value.value.failingCount
               == Count(db[table].rows, (r: Row) => IsUnlisted(CellAt(r, column), items, numerals))
  {
    var items := InList.ValueList(values).value;
    assert IsComparable(table, column, items, db, numerals);
    InList.EmittedListReadsBack(values);
    ComparableApplies(table, column, items, db, numerals);
    RowAssertionMeaning(InValues(table, column, Literals(items, numerals)), db);
    ViolatingRows(db[table].rows, table, column, items, numerals);
    CountZero(db[table].rows, (r: Row) => IsUnlisted(CellAt(r, column), items, numerals));
  }

  /** The same for values written down by a user, each text in a kind of quotes it does not hold. */
  lemma WrittenInMeaning(table: string, column: string, items: seq<InList.Item>, db: Database, numerals: Numerals)
    requires items != [] && forall x :: x in items ==>
      if x.Quoted? then '\'' !in x.text || '\"' !in x.text else InList.IsNumber(x.digits)
    requires table in db && column in db[table].columns
    requires forall r, x | r in db[table].rows && x in items && !CellAt(r, column).Null? ::
      if x.Quoted? then CellAt(r, column).Text? else CellAt(r, column).Num?
    ensures var values := InList.Join(InList.WriteAll(items), ", ");
            && EmittedList(values).Ok?
            && var outcome := OutcomeOfText(table, column, EmittedList(values).value, db, numerals);
               && outcome.Some? && outcome.value.Ok?
               && (outcome.value.value.passed <==>
                    forall r :: r in db[table].rows ==> !IsUnlisted(CellAt(r, column), items, numerals))
               && outcome.value.value.failingCount
                  == Count(db[table].rows, (r: Row) => IsUnlisted(CellAt(r, column), items, numerals))
  {
    assert forall x :: x in items ==> InList.Writable(x);
    InList.WrittenListReadsBack(items);
    InTextMeaning(table, column, InList.Join(InList.WriteAll(items), ", "), db, numerals);
  }
}
