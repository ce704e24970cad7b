/** The assertion language: quality/assertion_parser.py compiles it, quality/assertion_engine.py reads the answers. */
module Assertions {
  import opened Common
  import opened Sql

  /** The parsed fields of one assertion. */
  datatype Assertion =
    | IsNotNull(table: string, column: string)
    | IsUnique(table: string, column: string)
    | Comparison(table: string, column: string, op: Operator, value: real)
    | Between(table: string, column: string, low: real, high: real)
    | InValues(table: string, column: string, values: seq<Literal>)
    | RowCount(table: string, op: Operator, threshold: real)
    | CountDistinctValues(table: string, column: string, op: Operator, threshold: real)

  /** The printed `count op value` under which the assertion is said to fail. */
  datatype FailCondition = FailCondition(op: Operator, value: real)

  datatype ParsedAssertion = ParsedAssertion(assertion: Assertion, query: Query, fail: FailCondition)

  function NegateOperator(op: Operator): Operator {
    match op
    case Gt => Le
    case Ge => Lt
    case Lt => Ge
    case Le => Gt
    case Eq => Ne
    case Ne => Eq
  }

  function Compile(a: Assertion): ParsedAssertion {
    var noRows := FailCondition(Gt, 0.0);
    match a
    case IsNotNull(t, c) => ParsedAssertion(a, Query(CountStar, t, Some(IsNull(c))), noRows)
    case IsUnique(t, c) => ParsedAssertion(a, Query(CountStarMinusDistinct(c), t, None), noRows)
    case Comparison(t, c, op, v) => ParsedAssertion(a, Query(CountStar, t, Some(NotCompare(c, op, v))), noRows)
    case Between(t, c, lo, hi) => ParsedAssertion(a, Query(CountStar, t, Some(NotBetween(c, lo, hi))), noRows)
    case InValues(t, c, vs) => ParsedAssertion(a, Query(CountStar, t, Some(NotIn(c, vs))), noRows)
    case RowCount(t, op, n) =>
      ParsedAssertion(a, Query(CountStar, t, None), FailCondition(NegateOperator(op), n))
    case CountDistinctValues(t, c, op, n) =>
      ParsedAssertion(a, Query(CountDistinct(c), t, None), FailCondition(NegateOperator(op), n))
  }

  /** Python's int(float(...)): toward zero. */
  function Truncate(r: real): int {
    if r >= 0.0 then r.Floor else -((-r).Floor)
  }

  function CompareInts(actual: int, op: Operator, threshold: int): bool {
    match op
    case Gt => actual > threshold
    case Ge => actual >= threshold
    case Lt => actual < threshold
    case Le => actual <= threshold
    case Eq => actual == threshold
    case Ne => actual != threshold
  }

  datatype Outcome = Outcome(passed: bool, failingCount: int)

  function Evaluate(parsed: ParsedAssertion, db: Database): Result<Outcome, SqlError> {
    match Execute(parsed.query, db)
    case Err(e) => Err(e)
    case Ok(count) =>
      match parsed.assertion
      case RowCount(_, op, n) =>
        var passed := CompareInts(count, op, Truncate(n));
        Ok(Outcome(passed, if passed then 0 else count))
      case CountDistinctValues(_, _, op, n) =>
        var passed := CompareInts(count, op, Truncate(n));
        Ok(Outcome(passed, if passed then 0 else count))
      case _ => Ok(Outcome(count == 0, count))
  }

  // ---------------------------------------------------------------------------------------------
  // What the language means, said without SQL
  // ---------------------------------------------------------------------------------------------

  predicate IsRowAssertion(a: Assertion) {
    a.IsNotNull? || a.Comparison? || a.Between? || a.InValues?
  }

  /** What one row says of a row assertion; only IS NOT NULL takes a stand on a missing value. */
  function Says(a: Assertion, row: Row): Truth
    requires IsRowAssertion(a)
  {
    match (a, CellAt(row, a.column))
    case (IsNotNull(_, _), cell) => FromBool(!cell.Null?)
    case (_, Null) => Unknown
    case (Comparison(_, _, op, v), Num(n)) => FromBool(CompareReals(n, op, v))
    case (Between(_, _, lo, hi), Num(n)) => FromBool(lo <= n <= hi)
    case (InValues(_, _, vs), cell) => FromBool(cell in vs)
    case (_, Text(_)) => Unknown
  }

  predicate Violates(a: Assertion, row: Row)
    requires IsRowAssertion(a)
  {
    Says(a, row) == False
  }

  /** The cell can be compared with the assertion's literals: numbers with numbers, texts with texts, NULL with all. */
  predicate Compares(a: Assertion, cell: Cell) {
    match a
    case Comparison(_, _, _, _) => !cell.Text?
    case Between(_, _, _, _) => !cell.Text?
    case InValues(_, _, values) =>
      cell.Null? || (forall v :: v in values ==> (cell.Num? && v.Num?) || (cell.Text? && v.Text?))
    case _ => true
  }

  /** The database holds what the assertion talks about, and its cells compare with the assertion's literals. */
  predicate Applies(a: Assertion, db: Database) {
    && a.table in db
    && (!a.RowCount? ==> a.column in db[a.table].columns)
    && (IsRowAssertion(a) ==> forall r :: r in db[a.table].rows ==> Compares(a, CellAt(r, a.column)))
  }

  lemma {:induction false} MembershipIsTwoValued(cell: Cell, values: seq<Literal>)
    ensures !cell.Null? ==> AnyEqual(cell, values) == FromBool(cell in values)
    ensures cell.Null? && values != [] ==> AnyEqual(cell, values) == Unknown
  {
    if values != [] {
      MembershipIsTwoValued(cell, values[1..]);
      assert cell in values <==> cell == values[0] || cell in values[1..];
    }
  }

  /** A generated WHERE clause is TRUE of exactly the rows that violate the assertion. */
  lemma WhereSelectsViolations(a: Assertion, row: Row)
    requires IsRowAssertion(a) && (a.InValues? ==> a.values != [])
    requires Compares(a, CellAt(row, a.column))
    ensures Holds(Compile(a).query.where.value, row) == True <==> Violates(a, row)
  {
    if a.InValues? {
      MembershipIsTwoValued(CellAt(row, a.column), a.values);
    }
  }

  lemma {:induction false} SelectedRows(a: Assertion, rows: seq<Row>, c: Condition)
    requires IsRowAssertion(a) && (a.InValues? ==> a.values != [])
    requires c == Compile(a).query.where.value
    requires forall r :: r in rows ==> Compares(a, CellAt(r, a.column))
    ensures |Filter(rows, (r: Row) => Holds(c, r) == True)| == Count(rows, (r: Row) => Violates(a, r))
  {
    if rows != [] {
      WhereSelectsViolations(a, rows[0]);
      SelectedRows(a, rows[1..], c);
    }
  }

  /**
   * Compiling keeps the meaning of row assertions: they pass iff no row makes them FALSE, and the number
   * reported is the number of rows that do. The IN list is never empty: the parser refuses an empty one.
   */
  lemma RowAssertionMeaning(a: Assertion, db: Database)
    requires IsRowAssertion(a) && Applies(a, db) && (a.InValues? ==> a.values != [])
    ensures var outcome := Evaluate(Compile(a), db);
            && outcome.Ok?
            && (outcome.value.passed <==> forall r :: r in db[a.table].rows ==> Says(a, r) != False)
            && outcome.value.failingCount == Count(db[a.table].rows, (r: Row) => Violates(a, r))
  {
    var c := Compile(a).query.where.value;
    ErrorsExactly(a, db);
    SelectedRows(a, db[a.table].rows, c);
    CountZero(db[a.table].rows, (r: Row) => Violates(a, r));
  }

  predicate IsMissing(cell: Cell) {
    cell.Null?
  }

  function Nulls(cells: seq<Cell>): nat {
    Count(cells, IsMissing)
  }

  /** The cells that repeat an earlier one. */
  function Repeats(cells: seq<Cell>): nat {
    if cells == [] then 0
    else
      var last, rest := cells[|cells| - 1], cells[..|cells| - 1];
      Repeats(rest) + if !last.Null? && last in rest then 1 else 0
  }

  lemma DistinctValuesSnoc(rest: seq<Cell>, last: Cell)
    ensures |DistinctValues(rest + [last])| == |DistinctValues(rest)| + if last.Null? || last in rest then 0 else 1
  {
    var values := DistinctValues(rest);
    assert DistinctValues(rest + [last]) == values + if last.Null? then {} else {last};
    if last.Null? {
      assert values + {} == values;
    } else if last in rest {
      assert last in values && values + {last} == values;
    } else {
      assert last !in values;
    }
  }

  lemma {:induction false} NullsRepeatsAndValues(cells: seq<Cell>)
    ensures |cells| == Nulls(cells) + Repeats(cells) + |DistinctValues(cells)|
  {
    if cells != [] {
      var last, rest := cells[|cells| - 1], cells[..|cells| - 1];
      assert cells == rest + [last];
      NullsRepeatsAndValues(rest);
      CountAppend(rest, [last], IsMissing);
      assert Count([last], IsMissing) == if last.Null? then 1 else 0;
      DistinctValuesSnoc(rest, last);
      hide DistinctValues, Count;
    }
  }

  lemma {:induction false} NoRepeats(cells: seq<Cell>)
    requires Nulls(cells) == 0
    ensures Repeats(cells) == 0 <==> Distinct(cells)
  {
    CountZero(cells, IsMissing);
    if cells != [] {
      var last, rest := cells[|cells| - 1], cells[..|cells| - 1];
      CountZero(rest, IsMissing);
      NoRepeats(rest);
      assert cells == rest + [last];
      assert Distinct(cells) <==> Distinct(rest) && last !in rest;
    }
  }

  /** IS UNIQUE passes iff the column is NULL-free and pairwise distinct; it reports NULLs plus repeats. */
  lemma UniqueMeaning(a: Assertion, db: Database)
    requires a.IsUnique? && Applies(a, db)
    ensures var outcome := Evaluate(Compile(a), db);
            var cells := Cells(db[a.table].rows, a.column);
            && outcome.Ok?
            && (outcome.value.passed <==> Null !in cells && Distinct(cells))
            && outcome.value.failingCount == Nulls(cells) + Repeats(cells)
  {
    var cells := Cells(db[a.table].rows, a.column);
    NullsRepeatsAndValues(cells);
    CountZero(cells, IsMissing);
    if Nulls(cells) == 0 {
      NoRepeats(cells);
    }
  }

  // ---------------------------------------------------------------------------------------------
  // Thresholds
  // ---------------------------------------------------------------------------------------------

  predicate IsInteger(r: real) {
    r.Floor as real == r
  }

  /** The truncated test gives the exact answer for every possible count. */
  ghost predicate TruncationExact(op: Operator, t: real) {
    forall count: nat :: CompareInts(count, op, Truncate(t)) == CompareReals(count as real, op, t)
  }

  /** Exactly when cutting the threshold to an integer is harmless, operator by operator. */
  predicate HarmlessThreshold(op: Operator, t: real) {
    || IsInteger(t)
    || t <= -1.0
    || (t >= 0.0 && (op == Gt || op == Le))
    || (-1.0 < t < 0.0 && (op == Ge || op == Lt))
  }

  lemma TruncationBrackets(t: real)
    ensures t >= 0.0 ==> Truncate(t) >= 0 && Truncate(t) as real <= t < Truncate(t) as real + 1.0
    ensures t < 0.0 ==> Truncate(t) <= 0 && Truncate(t) as real - 1.0 < t <= Truncate(t) as real
    ensures IsInteger(t) ==> Truncate(t) as real == t
    ensures !IsInteger(t) ==> Truncate(t) as real != t
  {
    if t < 0.0 {
      var k := (-t).Floor;
      assert Truncate(t) == -k && k as real <= -t < k as real + 1.0;
      if IsInteger(t) {
        assert -t == (-t.Floor) as real;
      }
    }
  }

  lemma HarmlessIsExact(op: Operator, t: real, count: nat)
    requires HarmlessThreshold(op, t)
    ensures CompareInts(count, op, Truncate(t)) == CompareReals(count as real, op, t)
  {
    TruncationBrackets(t);
  }

  lemma TruncationExactness(op: Operator, t: real)
    ensures TruncationExact(op, t) <==> HarmlessThreshold(op, t)
  {
    var k := Truncate(t);
    TruncationBrackets(t);
    if HarmlessThreshold(op, t) {
      forall count: nat { HarmlessIsExact(op, t, count); }
    } else {
      assert k >= 0;
      assert CompareInts(k, op, k) != CompareReals(k as real, op, t);
    }
  }

  /** All six operators agree iff the threshold is an integer or at most -1. */
  lemma TruncationExactForAllOperators(t: real)
    ensures (forall op :: TruncationExact(op, t)) <==> IsInteger(t) || t <= -1.0
  {
    forall op ensures TruncationExact(op, t) <==> HarmlessThreshold(op, t) {
      TruncationExactness(op, t);
    }
    assert TruncationExact(Eq, t) <==> HarmlessThreshold(Eq, t);
  }

  lemma NegatedComparison(a: real, op: Operator, b: real)
    ensures CompareReals(a, NegateOperator(op), b) <==> !CompareReals(a, op, b)
  {
  }

  /** The count a threshold assertion looks at. */
  function CountOf(a: Assertion, db: Database): nat
    requires (a.RowCount? || a.CountDistinctValues?) && Applies(a, db)
  {
    if a.RowCount? then |db[a.table].rows| else |DistinctValues(Cells(db[a.table].rows, a.column))|
  }

  /**
   * The verdict compares with the threshold cut to an integer, and a failure reports the count. For a harmless
   * threshold it is the exact comparison and the opposite of the printed fail condition.
   */
  lemma ThresholdMeaning(a: Assertion, db: Database)
    requires (a.RowCount? || a.CountDistinctValues?) && Applies(a, db)
    ensures var outcome := Evaluate(Compile(a), db);
            var count := CountOf(a, db);
            var fail := Compile(a).fail;
            && outcome.Ok?
            && (outcome.value.passed <==> CompareReals(count as real, a.op, Truncate(a.threshold) as real))
            && outcome.value.failingCount == (if outcome.value.passed then 0 else count)
            && (HarmlessThreshold(a.op, a.threshold) ==>
                 && (outcome.value.passed <==> CompareReals(count as real, a.op, a.threshold))
                 && (outcome.value.passed <==> !CompareReals(count as real, fail.op, fail.value)))
  {
    TruncationExactness(a.op, a.threshold);
    NegatedComparison(CountOf(a, db) as real, a.op, a.threshold);
  }

  /** Outside that condition some table gets a verdict that contradicts the printed fail condition. */
  lemma HarmfulThresholdMisjudges(table: string, op: Operator, t: real) returns (db: Database)
    requires !HarmlessThreshold(op, t)
    ensures var a := RowCount(table, op, t);
            && Applies(a, db)
            && Evaluate(Compile(a), db).Ok?
            && var fail := Compile(a).fail;
               Evaluate(Compile(a), db).value.passed == CompareReals(|db[table].rows| as real, fail.op, fail.value)
  {
    TruncationExactness(op, t);
    var count: nat :| CompareInts(count, op, Truncate(t)) != CompareReals(count as real, op, t);
    db := map[table := Table({}, seq(count, _ => map[]))];
    NegatedComparison(count as real, op, t);
  }

  /** Whatever the assertion, a missing table or column or an incomparable cell is an error, and nothing else is. */
  lemma ErrorsExactly(a: Assertion, db: Database)
    ensures Evaluate(Compile(a), db).Err? <==> !Applies(a, db)
  {
    if IsRowAssertion(a) {
      forall row: Row { ComparesIsWellTyped(a, row); }
      hide WellTyped, Compares, Holds;
    }
  }

  lemma ComparesIsWellTyped(a: Assertion, row: Row)
    requires IsRowAssertion(a)
    ensures WellTyped(Compile(a).query.where.value, row) <==> Compares(a, CellAt(row, a.column))
  {
  }

  /** A row or uniqueness assertion fails exactly when the count it reports meets the printed condition `count > 0`. */
  lemma FailConditionMeaning(a: Assertion, db: Database)
    requires (IsRowAssertion(a) || a.IsUnique?) && Applies(a, db) && (a.InValues? ==> a.values != [])
    ensures var outcome := Evaluate(Compile(a), db);
            var fail := Compile(a).fail;
            && outcome.Ok? && outcome.value.failingCount >= 0
            && (outcome.value.passed <==> !CompareReals(outcome.value.failingCount as real, fail.op, fail.value))
  {
    ErrorsExactly(a, db);
    if a.IsUnique? {
      UniqueMeaning(a, db);
    } else {
      RowAssertionMeaning(a, db);
    }
  }

  // ---------------------------------------------------------------------------------------------
  // The engine
  // ---------------------------------------------------------------------------------------------

  /** One line of an assertion list: text that does not parse, or its parsed fields. */
  datatype Line = Unparsable | Parsed(assertion: Assertion)

  /** Any error, in parsing or in the database, is a failure reported with the count -1. */
  function ExecuteSingle(line: Line, db: Database): Outcome {
    match line
    case Unparsable => Outcome(false, -1)
    case Parsed(a) =>
      match Evaluate(Compile(a), db)
      case Err(_) => Outcome(false, -1)
      case Ok(outcome) => outcome
  }

  /** The line is an assertion the database can answer; the parser lets no empty IN list through. */
  predicate IsAnswerable(line: Line, db: Database) {
    line.Parsed? && Applies(line.assertion, db)
    && (line.assertion.InValues? ==> line.assertion.values != [])
  }

  /** What the assertion says of the table, without SQL. */
  ghost predicate IsSatisfied(a: Assertion, db: Database)
    requires Applies(a, db)
  {
    if a.IsUnique? then
      Null !in Cells(db[a.table].rows, a.column) && Distinct(Cells(db[a.table].rows, a.column))
    else if a.RowCount? || a.CountDistinctValues? then
      CompareReals(CountOf(a, db) as real, a.op, Truncate(a.threshold) as real)
    else forall r :: r in db[a.table].rows ==> Says(a, r) != False
  }

  /** The number to be reported: violating rows, NULLs and repeats, or a count that fails its comparison. */
  ghost function ReportedCount(a: Assertion, db: Database): int
    requires Applies(a, db)
  {
    if a.IsUnique? then Nulls(Cells(db[a.table].rows, a.column)) + Repeats(Cells(db[a.table].rows, a.column))
    else if a.RowCount? || a.CountDistinctValues? then (if IsSatisfied(a, db) then 0 else CountOf(a, db))
    else Count(db[a.table].rows, (r: Row) => Says(a, r) == False)
  }

  /** The outcome of one line: its meaning if it can be answered, else a failure with count -1. */
  lemma ExecuteSingleMeaning(line: Line, db: Database)
    ensures IsAnswerable(line, db) ==>
      ExecuteSingle(line, db) == Outcome(IsSatisfied(line.assertion, db), ReportedCount(line.assertion, db))
    ensures line.Unparsable? || !Applies(line.assertion, db) ==> ExecuteSingle(line, db) == Outcome(false, -1)
  {
    if line.Parsed? {
      var a := line.assertion;
      ErrorsExactly(a, db);
      if IsAnswerable(line, db) {
        if a.IsUnique? {
          UniqueMeaning(a, db);
        } else if a.RowCount? || a.CountDistinctValues? {
          ThresholdMeaning(a, db);
        } else {
          RowAssertionMeaning(a, db);
          SameCount(db[a.table].rows, (r: Row) => Violates(a, r), (r: Row) => Says(a, r) == False);
        }
      }
    }
  }

  datatype Report = Report(run: nat, passed: nat, failed: nat, details: seq<Outcome>)

  datatype RunResult = Returned(report: Report) | Blocked(report: Report)

  /**
   * Runs every line, whatever the earlier ones gave. A line that can be answered gets the verdict and count of its
   * meaning; one that does not parse, or that the database cannot answer, fails with count -1. The run blocks iff asked
   * to and some line failed.
   */
  method RunAssertions(lines: seq<Line>, db: Database, block: bool) returns (result: RunResult)
    ensures result.report.run == |lines| == |result.report.details|
    ensures forall i :: 0 <= i < |lines| ==> result.report.details[i] == ExecuteSingle(lines[i], db)
    ensures forall i | 0 <= i < |lines| && lines[i].Parsed? && Applies(lines[i].assertion, db)
        && (lines[i].assertion.InValues? ==> lines[i].assertion.values != []) ::
      result.report.details[i] == Outcome(IsSatisfied(lines[i].assertion, db), ReportedCount(lines[i].assertion, db))
    ensures forall i | 0 <= i < |lines| && (lines[i].Unparsable? || !Applies(lines[i].assertion, db)) ::
      result.report.details[i] == Outcome(false, -1)
    ensures block && (exists i :: 0 <= i < |lines| && (lines[i].Unparsable? || !Applies(lines[i].assertion, db))) ==>
      result.Blocked?
    ensures (forall i :: 0 <= i < |lines| ==> IsAnswerable(lines[i], db)) ==>
      (result.Blocked? <==> block && exists i :: 0 <= i < |lines| && !IsSatisfied(lines[i].assertion, db))
    ensures result.report.passed == Count(result.report.details, (o: Outcome) => o.passed)
    ensures result.report.passed + result.report.failed == |lines|
    ensures result.Blocked? <==> block && exists i :: 0 <= i < |lines| && !result.report.details[i].passed
    ensures result.Blocked? <==> block && exists i :: 0 <= i < |lines| && !ExecuteSingle(lines[i], db).passed
  {
    var results: seq<Outcome> := [];
    var passed, failed := 0, 0;
    for i := 0 to |lines|
      invariant |results| == i
      invariant forall k :: 0 <= k < i ==> results[k] == ExecuteSingle(lines[k], db)
      invariant passed == Count(results, (o: Outcome) => o.passed) && passed + failed == i
      invariant failed == 0 <==> forall k :: 0 <= k < i ==> results[k].passed
    {
      var outcome := ExecuteSingle(lines[i], db);
      CountAppend(results, [outcome], (o: Outcome) => o.passed);
      results := results + [outcome];
      if outcome.passed {
        passed := passed + 1;
      } else {
        failed := failed + 1;
      }
    }
    var report := Report(|results|, passed, failed, results);
    forall i | 0 <= i < |lines| { ExecuteSingleMeaning(lines[i], db); }
    result := if failed > 0 && block then Blocked(report) else Returned(report);
  }
}
