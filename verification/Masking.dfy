/** The masking step: `_simulate_masking_api` of tools/data_mask.py. */
module Masking {
  import opened Common
  import opened Strings

  /** A cell: Python's None, a string, or any other value with its `str` text. */
  datatype Value = Absent | Str(s: string) | Other(text: string)

  type Row = map<string, Value>

  type Dataset = map<string, seq<Row>>

  /** The first 16 hexadecimal digits of a keyed hash. */
  type Digest = d: string | |d| == 16 && forall c :: c in d ==> IsLowerHex(c) witness "0000000000000000"

  type Mac = string -> Digest

  datatype Rule = Rule(classification: Option<string>, strategy: Option<string>, action: Option<string>)

  datatype Policy = Policy(defaultStrategy: Option<string>, rules: seq<Rule>)

  /** Column name to classification, as the contract states it. */
  type Contract = map<string, Option<string>>

  datatype MaskResult = MaskResult(dataset: Dataset, strategies: map<string, string>, rowsProcessed: map<string, nat>)

  function Or(value: Option<string>, fallback: string): string {
    if value.Some? then value.value else fallback
  }

  function Show(v: Value): string {
    match v
    case Absent => "None"
    case Str(s) => s
    case Other(t) => t
  }

  function Qualified(table: string, column: string): string {
    table + "." + column
  }

  function DefaultStrategy(policy: Policy): string {
    Or(policy.defaultStrategy, "tokenize")
  }

  predicate Names(rule: Rule, classification: string) {
    classification != "" && rule.classification == Some(classification)
  }

  /** The strategy of the last rule that names the classification, else the default. */
  function ClassStrategy(rules: seq<Rule>, classification: string, fallback: string): string {
    if rules == [] then fallback
    else
      var last := rules[|rules| - 1];
      if Names(last, classification) then Or(last.strategy, Or(last.action, fallback))
      else ClassStrategy(rules[..|rules| - 1], classification, fallback)
  }

  function ColumnStrategy(contract: Contract, policy: Policy, column: string): string
    requires column in contract
  {
    ClassStrategy(policy.rules, Or(contract[column], "public"), DefaultStrategy(policy))
  }

  function StrategyMap(contract: Contract, policy: Policy): map<string, string> {
    map c | c in contract :: ColumnStrategy(contract, policy, c)
  }

  function StrategyFor(strategies: map<string, string>, column: string): string {
    if column in strategies then strategies[column] else "passthrough"
  }

  function MaskValue(strategy: string, v: Value, mac: Mac): Value {
    if strategy == "redact" then Str("[REDACTED]")
    else if strategy == "tokenize" then Str("TOKEN_" + mac(Show(v)))
    else if strategy == "format_preserve_encrypt" then Str("FPE_" + mac(Show(v)))
    else v
  }

  function MaskRow(table: string, row: Row, strategies: map<string, string>, mac: Mac): Row {
    map c | c in row :: MaskValue(StrategyFor(strategies, Qualified(table, c)), row[c], mac)
  }

  function MaskRows(table: string, rows: seq<Row>, strategies: map<string, string>, mac: Mac): seq<Row> {
    seq(|rows|, i requires 0 <= i < |rows| => MaskRow(table, rows[i], strategies, mac))
  }

  function MaskDataset(dataset: Dataset, strategies: map<string, string>, mac: Mac): Dataset {
    map t | t in dataset :: MaskRows(t, dataset[t], strategies, mac)
  }

  /** The table by classification gives each the strategy its rules give it. */
  ghost predicate TabulatesRules(byClass: map<string, string>, rules: seq<Rule>, fallback: string) {
    forall c :: (if c in byClass then byClass[c] else fallback) == ClassStrategy(rules, c, fallback)
  }

  lemma TabulateOne(byClass: map<string, string>, rules: seq<Rule>, i: nat, fallback: string)
    requires i < |rules| && TabulatesRules(byClass, rules[..i], fallback)
    ensures var rule := rules[i];
            var byClass' := if rule.classification.Some? && rule.classification.value != ""
              then byClass[rule.classification.value := Or(rule.strategy, Or(rule.action, fallback))] else byClass;
            TabulatesRules(byClass', rules[..i + 1], fallback)
  {
    assert rules[..i + 1][..i] == rules[..i] && rules[..i + 1][i] == rules[i];
  }

  method BuildStrategyMap(contract: Contract, policy: Policy) returns (strategies: map<string, string>)
    ensures strategies == StrategyMap(contract, policy)
  {
    hide ClassStrategy;
    var fallback := DefaultStrategy(policy);
    var byClass: map<string, string> := map[];
    NoRules(fallback);
    for i := 0 to |policy.rules|
      invariant TabulatesRules(byClass, policy.rules[..i], fallback)
    {
      hide TabulatesRules;
      var rule := policy.rules[i];
      TabulateOne(byClass, policy.rules, i, fallback);
      if rule.classification.Some? && rule.classification.value != "" {
        byClass := byClass[rule.classification.value := Or(rule.strategy, Or(rule.action, fallback))];
      }
    }
    assert policy.rules[..|policy.rules|] == policy.rules;
    strategies := map[];
    var pending := contract.Keys;
    while pending != {}
      invariant pending <= contract.Keys && strategies.Keys == contract.Keys - pending
      invariant forall c :: c in strategies ==> strategies[c] == ColumnStrategy(contract, policy, c)
      decreases |pending|
    {
      var column :| column in pending;
      var classification := Or(contract[column], "public");
      strategies := strategies[column := if classification in byClass then byClass[classification] else fallback];
      pending := pending - {column};
    }
  }

  lemma NoRules(fallback: string)
    ensures TabulatesRules(map[], [], fallback)
  {
  }

  method MaskOneRow(table: string, row: Row, strategies: map<string, string>, mac: Mac) returns (masked: Row)
    ensures masked == MaskRow(table, row, strategies, mac)
  {
    hide StrategyFor;
    masked := map[];
    var pending := row.Keys;
    while pending != {}
      invariant pending <= row.Keys && masked.Keys == row.Keys - pending
      invariant forall c :: c in masked ==>
        masked[c] == MaskValue(StrategyFor(strategies, Qualified(table, c)), row[c], mac)
      decreases |pending|
    {
      var column :| column in pending;
      var strategy := StrategyFor(strategies, Qualified(table, column));
      if strategy == "passthrough" {
        masked := masked[column := row[column]];
      } else if strategy == "redact" {
        masked := masked[column := Str("[REDACTED]")];
      } else if strategy == "tokenize" {
        masked := masked[column := Str("TOKEN_" + mac(Show(row[column])))];
      } else if strategy == "format_preserve_encrypt" {
        masked := masked[column := Str("FPE_" + mac(Show(row[column])))];
      } else {
        masked := masked[column := row[column]];
      }
      pending := pending - {column};
    }
  }

  method MaskTable(table: string, rows: seq<Row>, strategies: map<string, string>, mac: Mac)
    returns (masked: seq<Row>)
    ensures masked == MaskRows(table, rows, strategies, mac)
  {
    hide MaskRow;
    masked := [];
    for i := 0 to |rows|
      invariant masked == MaskRows(table, rows[..i], strategies, mac)
    {
      var row := MaskOneRow(table, rows[i], strategies, mac);
      masked := masked + [row];
    }
    assert rows[..|rows|] == rows;
  }

  /** Masks every cell by the strategy of its column, in any order of tables and columns. */
  method SimulateMaskingApi(dataset: Dataset, contract: Contract, policy: Policy, mac: Mac)
    returns (result: MaskResult)
    ensures result.strategies == StrategyMap(contract, policy)
    ensures result.dataset == MaskDataset(dataset, result.strategies, mac)
    ensures result.rowsProcessed == map t | t in dataset :: |dataset[t]|
  {
    hide MaskRows, StrategyMap;
    var strategies := BuildStrategyMap(contract, policy);
    var masked: Dataset := map[];
    var processed: map<string, nat> := map[];
    var pending := dataset.Keys;
    while pending != {}
      invariant pending <= dataset.Keys && masked.Keys == processed.Keys == dataset.Keys - pending
      invariant forall t :: t in masked ==> masked[t] == MaskRows(t, dataset[t], strategies, mac)
      invariant forall t :: t in masked ==> processed[t] == |dataset[t]|
      decreases |pending|
    {
      var table :| table in pending;
      var maskedRows := MaskTable(table, dataset[table], strategies, mac);
      masked := masked[table := maskedRows];
      processed := processed[table := |dataset[table]|];
      pending := pending - {table};
    }
    result := MaskResult(masked, strategies, processed);
  }

  /** Tables, row counts and row keys survive masking. */
  lemma MaskingKeepsShape(dataset: Dataset, strategies: map<string, string>, mac: Mac)
    ensures var masked := MaskDataset(dataset, strategies, mac);
            && masked.Keys == dataset.Keys
            && (forall t :: t in dataset ==> |masked[t]| == |dataset[t]|)
            && (forall t, i :: t in dataset && 0 <= i < |dataset[t]| ==> masked[t][i].Keys == dataset[t][i].Keys)
  {
  }

  /**
   * The strategy of a column: that of the last rule naming its class, and of the rule its strategy before its action;
   * else the policy's default, tokenizing if there is none. A column without class is public.
   */
  lemma ColumnStrategyMeaning(contract: Contract, policy: Policy, column: string, i: nat)
    requires column in contract
    ensures var tier := if contract[column] == None then "public" else contract[column].value;
            var fallback := if policy.defaultStrategy == None then "tokenize" else policy.defaultStrategy.value;
            && ((forall j :: 0 <= j < |policy.rules| ==> policy.rules[j].classification != Some(tier)) ==>
                 ColumnStrategy(contract, policy, column) == fallback)
            && (i < |policy.rules| && tier != "" && policy.rules[i].classification == Some(tier)
                && (forall j :: i < j < |policy.rules| ==> policy.rules[j].classification != Some(tier)) ==>
                 ColumnStrategy(contract, policy, column) ==
                   if policy.rules[i].strategy.Some? then policy.rules[i].strategy.value
                   else if policy.rules[i].action.Some? then policy.rules[i].action.value
                   else fallback)
  {
    LastRuleDecides(policy.rules, Or(contract[column], "public"), DefaultStrategy(policy), i);
  }

  lemma {:induction false} LastRuleDecides(rules: seq<Rule>, tier: string, fallback: string, i: nat)
    ensures (forall j :: 0 <= j < |rules| ==> rules[j].classification != Some(tier)) ==>
      ClassStrategy(rules, tier, fallback) == fallback
    ensures i < |rules| && Names(rules[i], tier) && (forall j :: i < j < |rules| ==> !Names(rules[j], tier)) ==>
      ClassStrategy(rules, tier, fallback) == Or(rules[i].strategy, Or(rules[i].action, fallback))
  {
    if rules != [] {
      LastRuleDecides(rules[..|rules| - 1], tier, fallback, i);
    }
  }

  /** A column for which no strategy is given stays as it is. */
  lemma UnlistedColumnStays(dataset: Dataset, strategies: map<string, string>, mac: Mac, c: Column, i: nat)
    requires Qualified(c.table, c.name) !in strategies && HasCell(dataset, c, i)
    ensures HasCell(MaskDataset(dataset, strategies, mac), c, i)
    ensures CellOf(MaskDataset(dataset, strategies, mac), c, i) == CellOf(dataset, c, i)
  {
    MaskedCell(dataset, strategies, mac, c, i);
  }

  /** What each strategy writes into a cell, as text; a strategy without name of its own leaves the cell alone. */
  lemma MaskedForms(strategy: string, v: Value, mac: Mac)
    ensures strategy == "redact" ==> MaskValue(strategy, v, mac) == Str("[REDACTED]")
    ensures strategy == "tokenize" ==> MaskValue(strategy, v, mac) == Str("TOKEN_" + mac(Show(v)))
    ensures strategy == "format_preserve_encrypt" ==> MaskValue(strategy, v, mac) == Str("FPE_" + mac(Show(v)))
    ensures strategy != "redact" && strategy != "tokenize" && strategy != "format_preserve_encrypt" ==>
      MaskValue(strategy, v, mac) == v
    ensures Show(Absent) == "None" && (forall s :: Show(Str(s)) == s) && (forall s :: Show(Other(s)) == s)
  {
  }

  // ---------------------------------------------------------------------------------------------
  // References between columns
  // ---------------------------------------------------------------------------------------------

  datatype Column = Column(table: string, name: string)

  function StrategyOf(strategies: map<string, string>, c: Column): string {
    StrategyFor(strategies, Qualified(c.table, c.name))
  }

  /** Row `i` of the table has a cell in the column. */
  predicate HasCell(dataset: Dataset, c: Column, i: nat) {
    c.table in dataset && i < |dataset[c.table]| && c.name in dataset[c.table][i]
  }

  function CellOf(dataset: Dataset, c: Column, i: nat): Value
    requires HasCell(dataset, c, i)
  {
    dataset[c.table][i][c.name]
  }

  lemma MaskedCell(dataset: Dataset, strategies: map<string, string>, mac: Mac, c: Column, i: nat)
    ensures var masked := MaskDataset(dataset, strategies, mac);
            && (HasCell(masked, c, i) <==> HasCell(dataset, c, i))
            && (HasCell(dataset, c, i) ==>
                 CellOf(masked, c, i) == MaskValue(StrategyOf(strategies, c), CellOf(dataset, c, i), mac))
  {
  }

  /** The value occurs in the column. */
  ghost predicate Occurs(dataset: Dataset, c: Column, v: Value) {
    exists i :: HasCell(dataset, c, i) && CellOf(dataset, c, i) == v
  }

  /** Every value of the child column occurs in the parent column. */
  ghost predicate Included(dataset: Dataset, child: Column, parent: Column) {
    forall v :: Occurs(dataset, child, v) ==> Occurs(dataset, parent, v)
  }

  lemma MaskedOccurs(dataset: Dataset, strategies: map<string, string>, mac: Mac, c: Column, w: Value)
    ensures Occurs(MaskDataset(dataset, strategies, mac), c, w) <==>
      exists v :: Occurs(dataset, c, v) && MaskValue(StrategyOf(strategies, c), v, mac) == w
  {
    var masked := MaskDataset(dataset, strategies, mac);
    var strategy := StrategyOf(strategies, c);
    if Occurs(masked, c, w) {
      var i :| HasCell(masked, c, i) && CellOf(masked, c, i) == w;
      MaskedCell(dataset, strategies, mac, c, i);
      assert Occurs(dataset, c, CellOf(dataset, c, i));
    }
    if v :| Occurs(dataset, c, v) && MaskValue(strategy, v, mac) == w {
      var i :| HasCell(dataset, c, i) && CellOf(dataset, c, i) == v;
      MaskedCell(dataset, strategies, mac, c, i);
    }
  }

  /** Two columns under one strategy keep every inclusion they had, whatever the hash does. */
  lemma MaskingKeepsInclusions(
    dataset: Dataset, strategies: map<string, string>, mac: Mac, child: Column, parent: Column)
    requires StrategyOf(strategies, child) == StrategyOf(strategies, parent)
    requires forall v :: Occurs(dataset, child, v) ==> Occurs(dataset, parent, v)
    ensures Included(MaskDataset(dataset, strategies, mac), child, parent)
  {
    hide Occurs;
    forall w | Occurs(MaskDataset(dataset, strategies, mac), child, w)
      ensures Occurs(MaskDataset(dataset, strategies, mac), parent, w)
    {
      MaskedOccurs(dataset, strategies, mac, child, w);
      MaskedOccurs(dataset, strategies, mac, parent, w);
    }
  }

  /** An SQL foreign key: a missing child value refers to nothing and is allowed. */
  ghost predicate ForeignKey(dataset: Dataset, child: Column, parent: Column) {
    forall v :: v != Absent && Occurs(dataset, child, v) ==> Occurs(dataset, parent, v)
  }

  predicate IsHashing(strategy: string) {
    strategy == "tokenize" || strategy == "format_preserve_encrypt"
  }

  lemma HashingInjective(strategy: string, v: Value, w: Value, mac: Mac)
    requires IsHashing(strategy)
    ensures MaskValue(strategy, v, mac) == MaskValue(strategy, w, mac) <==> mac(Show(v)) == mac(Show(w))
  {
    var prefix := if strategy == "tokenize" then "TOKEN_" else "FPE_";
    assert (prefix + mac(Show(v)))[|prefix|..] == mac(Show(v));
    assert (prefix + mac(Show(w)))[|prefix|..] == mac(Show(w));
  }

  lemma MaskedForeignKey(
    dataset: Dataset, strategies: map<string, string>, mac: Mac, child: Column, parent: Column)
    requires StrategyOf(strategies, child) == StrategyOf(strategies, parent)
    requires ForeignKey(dataset, child, parent)
    ensures var masked := MaskDataset(dataset, strategies, mac);
            var absent := MaskValue(StrategyOf(strategies, child), Absent, mac);
            ForeignKey(masked, child, parent) <==>
              !Occurs(dataset, child, Absent) || absent == Absent || Occurs(masked, parent, absent)
  {
    hide Occurs;
    var masked := MaskDataset(dataset, strategies, mac);
    var absent := MaskValue(StrategyOf(strategies, child), Absent, mac);
    MaskedOccurs(dataset, strategies, mac, child, absent);
    forall w | w != Absent && w != absent && Occurs(masked, child, w)
      ensures Occurs(masked, parent, w)
    {
      MaskedOccurs(dataset, strategies, mac, child, w);
      MaskedOccurs(dataset, strategies, mac, parent, w);
    }
    if !Occurs(dataset, child, Absent) && Occurs(masked, child, absent) {
      MaskedOccurs(dataset, strategies, mac, parent, absent);
    }
  }

  /** Some value of the parent column is masked to what a missing value is masked to. */
  ghost predicate MeetsMissing(dataset: Dataset, strategy: string, parent: Column, mac: Mac) {
    if strategy == "redact" then exists v :: Occurs(dataset, parent, v)
    else if IsHashing(strategy) then exists v :: Occurs(dataset, parent, v) && mac(Show(v)) == mac("None")
    else true
  }

  lemma MaskedMissing(dataset: Dataset, strategies: map<string, string>, mac: Mac, parent: Column)
    ensures var strategy := StrategyOf(strategies, parent);
            var absent := MaskValue(strategy, Absent, mac);
            MeetsMissing(dataset, strategy, parent, mac) <==>
              absent == Absent || Occurs(MaskDataset(dataset, strategies, mac), parent, absent)
  {
    hide Occurs, MaskDataset;
    var strategy := StrategyOf(strategies, parent);
    MaskedOccurs(dataset, strategies, mac, parent, MaskValue(strategy, Absent, mac));
    if IsHashing(strategy) {
      forall v ensures
        MaskValue(strategy, v, mac) == MaskValue(strategy, Absent, mac) <==> mac(Show(v)) == mac("None")
      {
        HashingInjective(strategy, v, Absent, mac);
      }
    }
  }

  /**
   * Read as an SQL foreign key, a reference survives exactly when no child value is missing, or some parent value is
   * masked like a missing one: any value under redaction, one whose digest is that of "None" under hashing.
   */
  lemma MaskingAndForeignKeys(
    dataset: Dataset, strategies: map<string, string>, mac: Mac, child: Column, parent: Column)
    requires StrategyOf(strategies, child) == StrategyOf(strategies, parent)
    requires ForeignKey(dataset, child, parent)
    ensures ForeignKey(MaskDataset(dataset, strategies, mac), child, parent) <==>
      (Occurs(dataset, child, Absent) ==> MeetsMissing(dataset, StrategyOf(strategies, child), parent, mac))
  {
    MaskedForeignKey(dataset, strategies, mac, child, parent);
    MaskedMissing(dataset, strategies, mac, parent);
    hide MeetsMissing, Occurs, ForeignKey, MaskDataset, MaskValue;
  }

  /** A foreign key with one missing child value, sound before tokenizing and broken after it. */
  lemma ForeignKeyBreaks(mac: Mac) returns (dataset: Dataset, strategies: map<string, string>)
    requires mac("1") != mac("None")
    ensures var child, parent := Column("order", "customer"), Column("customer", "id");
            && StrategyOf(strategies, child) == StrategyOf(strategies, parent) == "tokenize"
            && ForeignKey(dataset, child, parent)
            && !ForeignKey(MaskDataset(dataset, strategies, mac), child, parent)
  {
    var child, parent := Column("order", "customer"), Column("customer", "id");
    var orders, customers := [map["customer" := Str("1")], map["customer" := Absent]], [map["id" := Str("1")]];
    dataset := map["order" := orders, "customer" := customers];
    strategies := map[Qualified("order", "customer") := "tokenize", Qualified("customer", "id") := "tokenize"];
    assert HasCell(dataset, child, 1) && CellOf(dataset, child, 1) == Absent;
    assert HasCell(dataset, parent, 0) && CellOf(dataset, parent, 0) == Str("1");
    assert forall i: nat :: HasCell(dataset, child, i) ==> i < 2;
    assert forall i: nat :: HasCell(dataset, parent, i) ==> i == 0;
    assert forall v :: Occurs(dataset, parent, v) ==> v == Str("1");
    MaskingAndForeignKeys(dataset, strategies, mac, child, parent);
  }

  /** Row `i` of one column and row `j` of the other meet in their equality join. */
  predicate Joins(dataset: Dataset, a: Column, b: Column, i: nat, j: nat) {
    HasCell(dataset, a, i) && HasCell(dataset, b, j) && CellOf(dataset, a, i) == CellOf(dataset, b, j)
  }

  ghost predicate SameJoin(before: Dataset, after: Dataset, a: Column, b: Column) {
    forall i: nat, j: nat :: Joins(before, a, b, i, j) <==> Joins(after, a, b, i, j)
  }

  /** No two different values of the columns share a digest. */
  ghost predicate NoCollision(dataset: Dataset, a: Column, b: Column, mac: Mac) {
    forall i: nat, j: nat | HasCell(dataset, a, i) && HasCell(dataset, b, j) ::
      mac(Show(CellOf(dataset, a, i))) == mac(Show(CellOf(dataset, b, j))) ==>
        CellOf(dataset, a, i) == CellOf(dataset, b, j)
  }

  /**
   * An equality join over two tokenized, or two format-preserving, columns selects the same pairs iff no digest
   * collides.
   */
  lemma MaskingKeepsJoins(dataset: Dataset, strategies: map<string, string>, mac: Mac, a: Column, b: Column)
    requires StrategyOf(strategies, a) == StrategyOf(strategies, b) && IsHashing(StrategyOf(strategies, a))
    ensures SameJoin(dataset, MaskDataset(dataset, strategies, mac), a, b) <==> NoCollision(dataset, a, b, mac)
  {
    hide MaskDataset, MaskValue, StrategyOf, HasCell, CellOf;
    var masked := MaskDataset(dataset, strategies, mac);
    forall i: nat, j: nat | HasCell(dataset, a, i) && HasCell(dataset, b, j)
      ensures Joins(masked, a, b, i, j) <==> mac(Show(CellOf(dataset, a, i))) == mac(Show(CellOf(dataset, b, j)))
    {
      MaskedCell(dataset, strategies, mac, a, i);
      MaskedCell(dataset, strategies, mac, b, j);
      HashingInjective(StrategyOf(strategies, a), CellOf(dataset, a, i), CellOf(dataset, b, j), mac);
    }
    forall i: nat, j: nat | !(HasCell(dataset, a, i) && HasCell(dataset, b, j))
      ensures !Joins(masked, a, b, i, j)
    {
      MaskedCell(dataset, strategies, mac, a, i);
      MaskedCell(dataset, strategies, mac, b, j);
    }
    if !NoCollision(dataset, a, b, mac) {
      var i: nat, j: nat :| HasCell(dataset, a, i) && HasCell(dataset, b, j)
        && mac(Show(CellOf(dataset, a, i))) == mac(Show(CellOf(dataset, b, j)))
        && CellOf(dataset, a, i) != CellOf(dataset, b, j);
      assert Joins(masked, a, b, i, j);
    }
  }

  /** The same join with SQL equality, where a missing value equals nothing. */
  predicate SqlJoins(dataset: Dataset, a: Column, b: Column, i: nat, j: nat) {
    Joins(dataset, a, b, i, j) && CellOf(dataset, a, i) != Absent
  }

  ghost predicate SameSqlJoin(before: Dataset, after: Dataset, a: Column, b: Column) {
    forall i: nat, j: nat :: SqlJoins(before, a, b, i, j) <==> SqlJoins(after, a, b, i, j)
  }

  /** Under SQL equality the join is kept, collisions aside, iff missing values do not meet in both columns. */
  lemma MaskingAndSqlJoins(dataset: Dataset, strategies: map<string, string>, mac: Mac, a: Column, b: Column)
    requires StrategyOf(strategies, a) == StrategyOf(strategies, b) && IsHashing(StrategyOf(strategies, a))
    requires NoCollision(dataset, a, b, mac)
    ensures SameSqlJoin(dataset, MaskDataset(dataset, strategies, mac), a, b) <==>
      !(Occurs(dataset, a, Absent) && Occurs(dataset, b, Absent))
  {
    var masked := MaskDataset(dataset, strategies, mac);
    MaskingKeepsJoins(dataset, strategies, mac, a, b);
    hide MaskDataset, NoCollision, HasCell, CellOf, StrategyOf;
    forall i: nat, j: nat ensures SqlJoins(masked, a, b, i, j) <==> Joins(dataset, a, b, i, j) {
      MaskedCell(dataset, strategies, mac, a, i);
      assert Joins(dataset, a, b, i, j) <==> Joins(masked, a, b, i, j);
    }
    if Occurs(dataset, a, Absent) && Occurs(dataset, b, Absent) {
      var i :| HasCell(dataset, a, i) && CellOf(dataset, a, i) == Absent;
      var j :| HasCell(dataset, b, j) && CellOf(dataset, b, j) == Absent;
      assert Joins(dataset, a, b, i, j);
      assert !SqlJoins(dataset, a, b, i, j);
    }
  }
}
