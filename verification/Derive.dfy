/** `DERIVE field = aggregate GROUP BY keys`: the rewriting of quality/transform_engine.py. */
module Derive {
  import opened Common
  import opened Sql

  /** An aggregate expression, applied to the rows of one group: section 6.5 of ISO/IEC 9075:1992. */
  type Aggregate = seq<Row> -> Cell

  function KeyOf(row: Row, keys: seq<string>): (key: seq<Cell>)
    ensures |key| == |keys|
  {
    seq(|keys|, i requires 0 <= i < |keys| => CellAt(row, keys[i]))
  }

  /** All rows in the group of `row`; grouping puts NULLs together (section 7.7). */
  function GroupOf(row: Row, rows: seq<Row>, keys: seq<string>): seq<Row> {
    Filter(rows, (r: Row) => KeyOf(r, keys) == KeyOf(row, keys))
  }

  function GroupRow(row: Row, rows: seq<Row>, keys: seq<string>, field: string, f: Aggregate): Row {
    (map k | k in keys :: CellAt(row, k))[field := f(GroupOf(row, rows, keys))]
  }

  /** `grouped` holds one row per distinct key of `rows`, in whatever order the engine delivers them. */
  ghost predicate IsGrouping(grouped: seq<Row>, rows: seq<Row>, keys: seq<string>, field: string, f: Aggregate) {
    IsPartialGrouping(grouped, rows, rows, keys, field, f)
  }

  /** A grouping in progress: `seen` are the rows already put into their groups. */
  ghost predicate IsPartialGrouping(
    grouped: seq<Row>, seen: seq<Row>, rows: seq<Row>, keys: seq<string>, field: string, f: Aggregate)
  {
    && (forall r :: r in seen ==> GroupRow(r, rows, keys, field, f) in grouped)
    && (forall g :: g in grouped ==> exists r :: r in rows && g == GroupRow(r, rows, keys, field, f))
    && (forall i, j :: 0 <= i < j < |grouped| ==> KeyOf(grouped[i], keys) != KeyOf(grouped[j], keys))
  }

  /** `t1.k1 = t2.k1 AND t1.k2 = t2.k2 AND ...` */
  function JoinCondition(left: Row, right: Row, keys: seq<string>): Truth {
    if keys == [] then True
    else And(Equal(CellAt(left, keys[0]), CellAt(right, keys[0])), JoinCondition(left, right, keys[1..]))
  }

  function Matches(left: Row, right: seq<Row>, keys: seq<string>): seq<Row> {
    Filter(right, (r: Row) => JoinCondition(left, r, keys) == True)
  }

  /** The output rows of one left row; a row without partner gets NULL (section 7.5). */
  function JoinRow(left: Row, right: seq<Row>, keys: seq<string>, field: string): seq<Row> {
    var matches := Matches(left, right, keys);
    if matches == [] then [left[field := Null]]
    else seq(|matches|, i requires 0 <= i < |matches| => left[field := CellAt(matches[i], field)])
  }

  /** `SELECT t1.*, t2.field FROM left t1 LEFT JOIN right t2 ON ...` */
  function LeftJoin(left: seq<Row>, right: seq<Row>, keys: seq<string>, field: string): seq<Row> {
    if left == [] then [] else JoinRow(left[0], right, keys, field) + LeftJoin(left[1..], right, keys, field)
  }

  /** The value a window computation gives a row: its group's aggregate, or NULL when a key is NULL. */
  function WindowValue(row: Row, rows: seq<Row>, keys: seq<string>, f: Aggregate): Cell {
    if Null in KeyOf(row, keys) then Null else f(GroupOf(row, rows, keys))
  }

  function WindowRow(row: Row, rows: seq<Row>, keys: seq<string>, field: string, f: Aggregate): Row {
    row[field := WindowValue(row, rows, keys, f)]
  }

  function Window(rows: seq<Row>, keys: seq<string>, field: string, f: Aggregate): seq<Row> {
    seq(|rows|, i requires 0 <= i < |rows| => WindowRow(rows[i], rows, keys, field, f))
  }

  lemma {:induction false} JoinConditionMeaning(left: Row, right: Row, keys: seq<string>)
    ensures JoinCondition(left, right, keys) == True
       <==> KeyOf(left, keys) == KeyOf(right, keys) && Null !in KeyOf(left, keys)
  {
    if keys != [] {
      JoinConditionMeaning(left, right, keys[1..]);
      assert KeyOf(left, keys) == [CellAt(left, keys[0])] + KeyOf(left, keys[1..]);
      assert KeyOf(right, keys) == [CellAt(right, keys[0])] + KeyOf(right, keys[1..]);
      assert KeyOf(left, keys)[0] == CellAt(left, keys[0]) && KeyOf(right, keys)[0] == CellAt(right, keys[0]);
      assert KeyOf(left, keys)[1..] == KeyOf(left, keys[1..]) && KeyOf(right, keys)[1..] == KeyOf(right, keys[1..]);
    }
  }

  lemma GroupRowKey(row: Row, rows: seq<Row>, keys: seq<string>, field: string, f: Aggregate)
    requires field !in keys
    ensures KeyOf(GroupRow(row, rows, keys, field, f), keys) == KeyOf(row, keys)
    ensures CellAt(GroupRow(row, rows, keys, field, f), field) == f(GroupOf(row, rows, keys))
  {
  }

  lemma {:induction false} FilterNone<T>(s: seq<T>, p: T -> bool)
    requires forall x :: x in s ==> !p(x)
    ensures Filter(s, p) == []
  {
    if s != [] {
      FilterNone(s[1..], p);
    }
  }

  lemma FilterOne<T>(s: seq<T>, p: T -> bool, i: nat)
    requires i < |s| && forall j :: 0 <= j < |s| ==> (p(s[j]) <==> j == i)
    ensures Filter(s, p) == [s[i]]
  {
    assert s == s[..i] + ([s[i]] + s[i + 1..]);
    FilterAppend(s[..i], [s[i]] + s[i + 1..], p);
    FilterNone(s[..i], p);
    FilterNone(s[i + 1..], p);
  }

  /** A row meets at most one group row: its own, unless a key is NULL. */
  lemma MatchesOwnGroup(row: Row, rows: seq<Row>, grouped: seq<Row>, keys: seq<string>, field: string, f: Aggregate)
    requires row in rows && field !in keys && IsGrouping(grouped, rows, keys, field, f)
    ensures Matches(row, grouped, keys)
         == if Null in KeyOf(row, keys) then [] else [GroupRow(row, rows, keys, field, f)]
  {
    var p := (r: Row) => JoinCondition(row, r, keys) == True;
    forall g ensures p(g) <==> KeyOf(row, keys) == KeyOf(g, keys) && Null !in KeyOf(row, keys) {
      JoinConditionMeaning(row, g, keys);
    }
    if Null in KeyOf(row, keys) {
      FilterNone(grouped, p);
    } else {
      var own := GroupRow(row, rows, keys, field, f);
      GroupRowKey(row, rows, keys, field, f);
      var i :| 0 <= i < |grouped| && grouped[i] == own;
      FilterOne(grouped, p, i);
    }
  }

  lemma JoinRowIsWindowRow(row: Row, rows: seq<Row>, grouped: seq<Row>, keys: seq<string>, field: string, f: Aggregate)
    requires row in rows && field !in keys && IsGrouping(grouped, rows, keys, field, f)
    ensures JoinRow(row, grouped, keys, field) == [WindowRow(row, rows, keys, field, f)]
  {
    hide IsGrouping, Matches, KeyOf, GroupRow, GroupOf;
    MatchesOwnGroup(row, rows, grouped, keys, field, f);
    GroupRowKey(row, rows, keys, field, f);
  }

  lemma {:induction false} JoinIsWindow(
    left: seq<Row>, rows: seq<Row>, grouped: seq<Row>, keys: seq<string>, field: string, f: Aggregate)
    requires forall r :: r in left ==> r in rows
    requires field !in keys && IsGrouping(grouped, rows, keys, field, f)
    ensures |LeftJoin(left, grouped, keys, field)| == |left|
    ensures forall i :: 0 <= i < |left| ==>
      LeftJoin(left, grouped, keys, field)[i] == WindowRow(left[i], rows, keys, field, f)
  {
    hide IsGrouping, JoinRow, WindowRow;
    if left != [] {
      JoinRowIsWindowRow(left[0], rows, grouped, keys, field, f);
      JoinIsWindow(left[1..], rows, grouped, keys, field, f);
    }
  }

  /**
   * Aggregating and joining back is a window computation, whatever order the groups come in: one output row per
   * input row, unchanged in the original columns, with the aggregate of all rows of equal key in the new one,
   * or NULL when a key column is NULL.
   */
  lemma DeriveIsWindow(t: Table, grouped: seq<Row>, keys: seq<string>, field: string, f: Aggregate)
    requires forall r :: r in t.rows ==> r.Keys == t.columns
    requires field !in t.columns && forall k :: k in keys ==> k in t.columns
    requires IsGrouping(grouped, t.rows, keys, field, f)
    ensures var result := LeftJoin(t.rows, grouped, keys, field);
            && |result| == |t.rows|
            && (forall i, c :: 0 <= i < |result| && c in t.columns ==> CellAt(result[i], c) == CellAt(t.rows[i], c))
            && (forall i :: 0 <= i < |result| ==>
                 CellAt(result[i], field) == WindowValue(t.rows[i], t.rows, keys, f))
            && DerivesPerGroup(t.rows, result, keys, field, f)
            && result == Window(t.rows, keys, field, f)
  {
    WindowMeaning(t.rows, keys, field, f);
    hide IsGrouping, LeftJoin, WindowValue, DerivesPerGroup;
    JoinIsWindow(t.rows, t.rows, grouped, keys, field, f);
    assert forall i :: 0 <= i < |t.rows| ==> t.rows[i] in t.rows;
    assert LeftJoin(t.rows, grouped, keys, field) == Window(t.rows, keys, field, f);
  }

  // ---------------------------------------------------------------------------------------------
  // What the derived column means, said cell by cell
  // ---------------------------------------------------------------------------------------------

  /** The rows have equal cells in all key columns; two NULLs are equal here. */
  predicate AgreeOn(a: Row, b: Row, keys: seq<string>) {
    forall k :: k in keys ==> CellAt(a, k) == CellAt(b, k)
  }

  /** The aggregate over exactly the rows that agree with `row`, each as often as it occurs; NULL for a NULL key. */
  ghost predicate IsGroupValue(value: Cell, row: Row, rows: seq<Row>, keys: seq<string>, f: Aggregate) {
    if exists k :: k in keys && CellAt(row, k) == Null then value == Null
    else
      exists group: seq<Row> :: value == f(group)
        && forall r :: multiset(group)[r] == if AgreeOn(r, row, keys) then multiset(rows)[r] else 0
  }

  ghost predicate DerivesPerGroup(
    rows: seq<Row>, result: seq<Row>, keys: seq<string>, field: string, f: Aggregate)
  {
    && |result| == |rows|
    && (forall i, c :: 0 <= i < |rows| && c != field ==> CellAt(result[i], c) == CellAt(rows[i], c))
    && (forall i :: 0 <= i < |rows| ==> IsGroupValue(CellAt(result[i], field), rows[i], rows, keys, f))
  }

  lemma KeysAgree(a: Row, b: Row, keys: seq<string>)
    ensures KeyOf(a, keys) == KeyOf(b, keys) <==> AgreeOn(a, b, keys)
    ensures Null in KeyOf(a, keys) <==> exists k :: k in keys && CellAt(a, k) == Null
  {
    if KeyOf(a, keys) == KeyOf(b, keys) {
      forall k | k in keys ensures CellAt(a, k) == CellAt(b, k) {
        var i :| 0 <= i < |keys| && keys[i] == k;
        assert KeyOf(a, keys)[i] == KeyOf(b, keys)[i];
      }
    }
    if k :| k in keys && CellAt(a, k) == Null {
      var i :| 0 <= i < |keys| && keys[i] == k;
      assert KeyOf(a, keys)[i] == Null;
    }
  }

  /** The group of a row holds exactly the rows that agree with it, each as often as the table does. */
  lemma GroupOfMeaning(row: Row, rows: seq<Row>, keys: seq<string>)
    ensures forall r :: multiset(GroupOf(row, rows, keys))[r] == if AgreeOn(r, row, keys) then multiset(rows)[r] else 0
  {
    hide KeyOf, AgreeOn;
    forall r ensures
      multiset(GroupOf(row, rows, keys))[r] == if AgreeOn(r, row, keys) then multiset(rows)[r] else 0
    {
      FilterCounts(rows, (x: Row) => KeyOf(x, keys) == KeyOf(row, keys), r);
      KeysAgree(r, row, keys);
    }
  }

  lemma WindowMeaning(rows: seq<Row>, keys: seq<string>, field: string, f: Aggregate)
    ensures DerivesPerGroup(rows, Window(rows, keys, field, f), keys, field, f)
  {
    hide KeyOf, GroupOf, AgreeOn;
    forall i | 0 <= i < |rows| ensures IsGroupValue(WindowValue(rows[i], rows, keys, f), rows[i], rows, keys, f) {
      KeysAgree(rows[i], rows[i], keys);
      GroupOfMeaning(rows[i], rows, keys);
    }
  }

  /** A counting aggregate, for one, yields the number of rows with equal key cells. */
  lemma CountingDerive(rows: seq<Row>, result: seq<Row>, keys: seq<string>, field: string, i: nat)
    requires DerivesPerGroup(rows, result, keys, field, (group: seq<Row>) => Num(|group| as real)) && i < |rows|
    ensures CellAt(result[i], field) ==
      if exists k :: k in keys && CellAt(rows[i], k) == Null then Null
      else Num(Count(rows, (r: Row) => forall k :: k in keys ==> CellAt(r, k) == CellAt(rows[i], k)) as real)
  {
    var agrees := (r: Row) => forall k :: k in keys ==> CellAt(r, k) == CellAt(rows[i], k);
    var count := (group: seq<Row>) => Num(|group| as real);
    assert IsGroupValue(CellAt(result[i], field), rows[i], rows, keys, count);
    if !exists k :: k in keys && CellAt(rows[i], k) == Null {
      var group: seq<Row> :| CellAt(result[i], field) == count(group)
        && forall r :: multiset(group)[r] == if AgreeOn(r, rows[i], keys) then multiset(rows)[r] else 0;
      forall r ensures multiset(group)[r] == multiset(Filter(rows, agrees))[r] {
        FilterCounts(rows, agrees, r);
      }
      assert multiset(group) == multiset(Filter(rows, agrees));
      assert |group| == |multiset(group)| && |Filter(rows, agrees)| == |multiset(Filter(rows, agrees))|;
      FilterCounts(rows, agrees, rows[i]);
    }
  }

  /** Rows of equal key get equal values, so the join loses no grouping. */
  lemma EqualKeysEqualValues(a: Row, b: Row, rows: seq<Row>, keys: seq<string>, f: Aggregate)
    requires KeyOf(a, keys) == KeyOf(b, keys)
    ensures WindowValue(a, rows, keys, f) == WindowValue(b, rows, keys, f)
  {
    SameFilter(rows, (r: Row) => KeyOf(r, keys) == KeyOf(a, keys), (r: Row) => KeyOf(r, keys) == KeyOf(b, keys));
  }

  lemma {:induction false} SameFilter<T>(s: seq<T>, p: T -> bool, q: T -> bool)
    requires forall x :: x in s ==> p(x) == q(x)
    ensures Filter(s, p) == Filter(s, q)
  {
    if s != [] {
      SameFilter(s[1..], p, q);
    }
  }

  // ---------------------------------------------------------------------------------------------
  // The three statements on the executor's tables
  // ---------------------------------------------------------------------------------------------

  predicate WellFormed(t: Table) {
    forall r :: r in t.rows ==> r.Keys == t.columns
  }

  /** The name after the last dot. */
  function BareName(name: string): (bare: string)
    ensures '.' !in bare && |bare| <= |name| && name[|name| - |bare|..] == bare
    ensures |bare| < |name| ==> name[|name| - |bare| - 1] == '.'
    decreases |name|
  {
    if '.' !in name then name
    else if name[0] == '.' && '.' !in name[1..] then name[1..]
    else BareName(name[1..])
  }

  /** A grouping column as SQL resolves it in a query over `table`. */
  predicate Resolves(name: string, table: string, columns: set<string>) {
    && BareName(name) in columns
    && (name == BareName(name) || name == table + "." + BareName(name))
  }

  /** A name resolves to a column by itself or behind the table's name and a dot. */
  lemma ResolvesMeaning(name: string, table: string, columns: set<string>)
    ensures Resolves(name, table, columns) <==>
      exists c | c in columns && '.' !in c :: BareName(name) == c && (name == c || name == table + "." + c)
  {
  }

  /** The name after the last dot, for a qualified and for a plain one. */
  lemma {:induction false} BareNameMeaning(prefix: string, bare: string)
    requires '.' !in bare
    ensures BareName(bare) == bare && BareName(prefix + "." + bare) == bare
  {
    var name := prefix + "." + bare;
    assert name[|prefix|] == '.';
    if prefix == "" {
      assert name[1..] == bare;
    } else {
      assert name[1..] == prefix[1..] + "." + bare;
      assert name[1..][|prefix| - 1] == '.';
      BareNameMeaning(prefix[1..], bare);
    }
  }

  function BareNames(names: seq<string>): seq<string> {
    seq(|names|, i requires 0 <= i < |names| => BareName(names[i]))
  }

  /** The statement `CREATE TABLE name AS SELECT ... FROM table GROUP BY names` is accepted. */
  predicate CanGroup(catalog: map<string, Table>, name: string, table: string, names: seq<string>) {
    && name !in catalog && table in catalog
    && forall n :: n in names ==> Resolves(n, table, catalog[table].columns)
  }

  datatype TransformError = StatementFailed

  function IntermediateName(table: string, field: string): string {
    "__" + table + "_" + field + "_agg"
  }

  function TargetName(table: string, output: string): string {
    if output != "" then output else table + "_derived"
  }

  lemma EqualKeysEqualGroupRow(a: Row, b: Row, rows: seq<Row>, keys: seq<string>, field: string, f: Aggregate)
    requires KeyOf(a, keys) == KeyOf(b, keys)
    ensures GroupRow(a, rows, keys, field, f) == GroupRow(b, rows, keys, field, f)
  {
    SameFilter(rows, (x: Row) => KeyOf(x, keys) == KeyOf(a, keys), (x: Row) => KeyOf(x, keys) == KeyOf(b, keys));
    forall k | k in keys ensures CellAt(a, k) == CellAt(b, k) {
      var i :| 0 <= i < |keys| && keys[i] == k;
      assert KeyOf(a, keys)[i] == KeyOf(b, keys)[i];
    }
  }

  predicate IsKnown(grouped: seq<Row>, row: Row, keys: seq<string>) {
    exists g :: g in grouped && KeyOf(g, keys) == KeyOf(row, keys)
  }

  lemma KnownGroup(grouped: seq<Row>, rows: seq<Row>, seen: seq<Row>, row: Row, keys: seq<string>, field: string,
                   f: Aggregate)
    requires field !in keys && IsPartialGrouping(grouped, seen, rows, keys, field, f) && IsKnown(grouped, row, keys)
    ensures GroupRow(row, rows, keys, field, f) in grouped
  {
    hide KeyOf, GroupRow;
    var g :| g in grouped && KeyOf(g, keys) == KeyOf(row, keys);
    var r :| r in rows && g == GroupRow(r, rows, keys, field, f);
    GroupRowKey(r, rows, keys, field, f);
    EqualKeysEqualGroupRow(r, row, rows, keys, field, f);
  }

  lemma NewGroup(grouped: seq<Row>, row: Row, added: Row, keys: seq<string>)
    requires forall i, j :: 0 <= i < j < |grouped| ==> KeyOf(grouped[i], keys) != KeyOf(grouped[j], keys)
    requires !IsKnown(grouped, row, keys) && KeyOf(added, keys) == KeyOf(row, keys)
    ensures var all := grouped + [added];
            forall i, j :: 0 <= i < j < |all| ==> KeyOf(all[i], keys) != KeyOf(all[j], keys)
  {
    hide KeyOf;
    assert forall i :: 0 <= i < |grouped| ==> grouped[i] in grouped;
  }

  /** One step of grouping: a row of a known key adds nothing, a row of a new key adds its group row. */
  lemma GroupStep(grouped: seq<Row>, rows: seq<Row>, seen: seq<Row>, row: Row, keys: seq<string>, field: string,
                  f: Aggregate)
    requires field !in keys && row in rows && IsPartialGrouping(grouped, seen, rows, keys, field, f)
    ensures var added := if IsKnown(grouped, row, keys) then [] else [GroupRow(row, rows, keys, field, f)];
            IsPartialGrouping(grouped + added, seen + [row], rows, keys, field, f)
  {
    var added := GroupRow(row, rows, keys, field, f);
    GroupRowKey(row, rows, keys, field, f);
    hide KeyOf, GroupRow, IsKnown;
    if IsKnown(grouped, row, keys) {
      KnownGroup(grouped, rows, seen, row, keys, field, f);
      assert grouped + [] == grouped;
    } else {
      NewGroup(grouped, row, added, keys);
      assert forall x :: x in grouped + [added] <==> x in grouped || x == added;
    }
    assert forall r :: r in seen + [row] <==> r in seen || r == row;
  }

  lemma GroupColumns(grouped: seq<Row>, rows: seq<Row>, keys: seq<string>, field: string, f: Aggregate)
    requires IsGrouping(grouped, rows, keys, field, f)
    ensures forall g :: g in grouped ==> g.Keys == (set k | k in keys) + {field}
  {
    hide KeyOf, GroupOf;
  }

  lemma NoGroups(rows: seq<Row>, keys: seq<string>, field: string, f: Aggregate)
    ensures IsPartialGrouping([], [], rows, keys, field, f)
  {
  }

  /** Grouping in order of first appearance: one of the orders an engine may choose. */
  method GroupRows(rows: seq<Row>, keys: seq<string>, field: string, f: Aggregate) returns (grouped: seq<Row>)
    requires field !in keys
    ensures IsGrouping(grouped, rows, keys, field, f)
    ensures forall g :: g in grouped ==> g.Keys == (set k | k in keys) + {field}
  {
    hide KeyOf, GroupRow, IsPartialGrouping, IsKnown;
    grouped := [];
    NoGroups(rows, keys, field, f);
    for i := 0 to |rows|
      invariant IsPartialGrouping(grouped, rows[..i], rows, keys, field, f)
    {
      GroupStep(grouped, rows, rows[..i], rows[i], keys, field, f);
      assert rows[..i] + [rows[i]] == rows[..i + 1];
      var added := if IsKnown(grouped, rows[i], keys) then [] else [GroupRow(rows[i], rows, keys, field, f)];
      grouped := grouped + added;
    }
    assert rows[..|rows|] == rows;
    GroupColumns(grouped, rows, keys, field, f);
  }

  class Executor {
    /** The tables of the database. */
    var catalog: map<string, Table>
    /** The names the executor remembers to drop. */
    var tables: seq<string>

    ghost predicate Valid()
      reads this
    {
      forall n :: n in catalog ==> WellFormed(catalog[n])
    }

    method CreateGrouped(
      name: string, table: string, names: seq<string>, keys: seq<string>, field: string, f: Aggregate)
      returns (ok: bool)
      requires Valid() && field !in keys
      modifies `catalog
      ensures Valid()
      ensures ok <==> CanGroup(old(catalog), name, table, names)
      ensures !ok ==> catalog == old(catalog)
      ensures ok ==> name in catalog && catalog == old(catalog)[name := catalog[name]]
      ensures ok ==> IsGrouping(catalog[name].rows, old(catalog)[table].rows, keys, field, f)
    {
      ok := CanGroup(catalog, name, table, names);
      if ok {
        hide IsGrouping, CanGroup;
        var grouped := GroupRows(catalog[table].rows, keys, field, f);
        catalog := catalog[name := Table((set k | k in keys) + {field}, grouped)];
      }
    }

    /**
     * The GROUP BY branch of `_execute_derive`: create the grouped table, create the joined table, drop the grouped
     * one. When the second statement fails, the grouped table stays behind under its fixed name.
     */
    method ExecuteDerive(table: string, field: string, groupColumns: seq<string>, f: Aggregate, output: string)
      returns (result: Result<(), TransformError>)
      requires Valid()
      requires table in catalog ==> field !in catalog[table].columns
      requires field !in BareNames(groupColumns)
      modifies this
      ensures Valid()
      ensures result.Ok? <==> (
        && CanGroup(old(catalog), IntermediateName(table, field), table, groupColumns)
        && TargetName(table, output) !in old(catalog)
        && TargetName(table, output) != IntermediateName(table, field))
      ensures
        var target := if output != "" then output else table + "_derived";
        var intermediate := "__" + table + "_" + field + "_agg";
        && (result.Ok? ==> target in catalog && target !in old(catalog) && intermediate !in catalog)
        && (result.Err? && catalog != old(catalog) ==>
             intermediate in catalog && catalog == old(catalog)[intermediate := catalog[intermediate]])
      ensures result.Ok? <==> (
        && table in old(catalog) && "__" + table + "_" + field + "_agg" !in old(catalog)
        && (forall n :: n in groupColumns ==> Resolves(n, table, old(catalog)[table].columns))
        && TargetName(table, output) !in old(catalog)
        && TargetName(table, output) != "__" + table + "_" + field + "_agg")
      ensures result.Ok? ==> var target := TargetName(table, output);
        && catalog == old(catalog)[target := Table(old(catalog)[table].columns + {field},
             Window(old(catalog)[table].rows, BareNames(groupColumns), field, f))]
        && DerivesPerGroup(old(catalog)[table].rows, catalog[target].rows, BareNames(groupColumns), field, f)
        && tables == if target in old(tables) then old(tables) else old(tables) + [target]
      ensures result.Err? ==> tables == old(tables)
      ensures result.Err? && !CanGroup(old(catalog), IntermediateName(table, field), table, groupColumns) ==>
        catalog == old(catalog)
      ensures result.Err? && CanGroup(old(catalog), IntermediateName(table, field), table, groupColumns) ==>
        var left := IntermediateName(table, field);
        left in catalog && catalog == old(catalog)[left := catalog[left]]
    {
      CanGroupMeaning(catalog, table, field, groupColumns);
      hide IsGrouping, CanGroup, LeftJoin, Window, BareName, DerivesPerGroup, Resolves;
      var keys := [];
      for i := 0 to |groupColumns|
        invariant keys == BareNames(groupColumns[..i])
        invariant catalog == old(catalog) && tables == old(tables)
      {
        BareNamesAppend(groupColumns[..i], groupColumns[i]);
        assert groupColumns[..i + 1] == groupColumns[..i] + [groupColumns[i]];
        keys := keys + [BareName(groupColumns[i])];
      }
      assert groupColumns[..|groupColumns|] == groupColumns;
      var intermediate := IntermediateName(table, field);
      ghost var before := catalog;
      var ok := CreateGrouped(intermediate, table, groupColumns, keys, field, f);
      if !ok {
        return Err(StatementFailed);
      }
      GroupingFacts(before, intermediate, table, groupColumns);
      var target := if output != "" then output else table + "_derived";
      if target in catalog {
        return Err(StatementFailed);
      }
      var source := catalog[table];
      DeriveIsWindow(source, catalog[intermediate].rows, keys, field, f);
      WindowIsWellFormed(source, keys, field, f);
      var joined := LeftJoin(source.rows, catalog[intermediate].rows, keys, field);
      catalog := catalog[target := Table(source.columns + {field}, joined)];
      catalog := catalog - {intermediate};
      assert catalog == before[target := catalog[target]];
      if target !in tables {
        tables := tables + [target];
      }
      result := Ok(());
    }
  }

  lemma BareNamesAppend(names: seq<string>, name: string)
    ensures BareNames(names + [name]) == BareNames(names) + [BareName(name)]
  {
  }

  lemma CanGroupMeaning(catalog: map<string, Table>, table: string, field: string, names: seq<string>)
    ensures CanGroup(catalog, IntermediateName(table, field), table, names) <==> (
      && table in catalog && "__" + table + "_" + field + "_agg" !in catalog
      && (forall n :: n in names ==> Resolves(n, table, catalog[table].columns)))
  {
  }

  lemma GroupingFacts(catalog: map<string, Table>, name: string, table: string, names: seq<string>)
    requires CanGroup(catalog, name, table, names)
    ensures table in catalog && name !in catalog
    ensures forall k :: k in BareNames(names) ==> k in catalog[table].columns
  {
    hide BareName;
    forall k | k in BareNames(names) ensures k in catalog[table].columns {
      var i :| 0 <= i < |names| && k == BareNames(names)[i];
      assert Resolves(names[i], table, catalog[table].columns);
    }
  }

  lemma WindowIsWellFormed(t: Table, keys: seq<string>, field: string, f: Aggregate)
    requires WellFormed(t)
    ensures WellFormed(Table(t.columns + {field}, Window(t.rows, keys, field, f)))
  {
    hide WindowValue;
  }
}
