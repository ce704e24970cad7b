/** The gate after the pipeline: gates/post_data_pipeline.py. */
module PostPipelineGate {
  import opened Common
  import opened Strings
  import opened Masking
  import opened PiiValidator

  /** `fq_col.split(".", 1)`: table and column around the first dot. */
  function SplitQualified(name: string): Option<(string, string)> {
    if name == "" then None
    else if name[0] == '.' then Some(("", name[1..]))
    else
      match SplitQualified(name[1..])
      case None => None
      case Some((table, column)) => Some(([name[0]] + table, column))
  }

  /** A name splits iff it has a dot, at the first one, and qualifying again undoes it. */
  lemma {:induction false} SplitJoins(name: string)
    ensures SplitQualified(name).Some? <==> '.' in name
    ensures SplitQualified(name).Some? ==> '.' !in SplitQualified(name).value.0
    ensures SplitQualified(name).Some? ==>
      Qualified(SplitQualified(name).value.0, SplitQualified(name).value.1) == name
  {
    if name != "" && name[0] != '.' {
      SplitJoins(name[1..]);
    } else if name != "" {
      assert "" + "." + name[1..] == name;
    }
  }

  predicate IsRestricted(classification: string) {
    Lower(classification) == "restricted"
  }

  /** What may stand in a restricted column outside production. FPE values are not on the list. */
  predicate IsAcceptable(v: Value) {
    match v
    case Absent => true
    case Str(s) => s == "" || s == "[REDACTED]" || s == "****" || "TOK-" <= s || "TOKEN_" <= s
    case Other(_) => false
  }

  /** Acceptable are missing and empty values, the two placeholders, and texts with one of the two token prefixes. */
  lemma AcceptableForms(v: Value)
    ensures IsAcceptable(v) <==>
      || v == Absent || v == Str("") || v == Str("[REDACTED]") || v == Str("****")
      || (exists code :: v == Str("TOK-" + code))
      || (exists code :: v == Str("TOKEN_" + code))
  {
    if v.Str? && "TOK-" <= v.s {
      assert v == Str("TOK-" + v.s[4..]);
    }
    if v.Str? && "TOKEN_" <= v.s {
      assert v == Str("TOKEN_" + v.s[6..]);
    }
  }

  /** Positions of unacceptable cells in a column, in row order. */
  function Unacceptable(rows: seq<Row>, column: string): nat {
    Count(rows, (r: Row) => !IsAcceptable(Get(r, column)))
  }

  function ColumnViolations(name: string, dataset: Dataset): nat {
    match SplitQualified(name)
    case None => 0
    case Some((table, column)) => if table in dataset then Unacceptable(dataset[table], column) else 0
  }

  /** All violations of all restricted columns. */
  function AllViolations(columns: seq<string>, dataset: Dataset): nat {
    if columns == [] then 0
    else AllViolations(columns[..|columns| - 1], dataset) + ColumnViolations(columns[|columns| - 1], dataset)
  }

  const REPORT_CAP: nat := 10

  /** The count after one more column: its loop stops at the violation that finds the cap reached. */
  function CappedAfter(found: nat, violations: nat): nat {
    if found + violations <= REPORT_CAP then found + violations
    else if found >= REPORT_CAP then found + 1
    else REPORT_CAP
  }

  function CappedViolations(columns: seq<string>, dataset: Dataset): nat {
    if columns == [] then 0
    else
      var found := CappedViolations(columns[..|columns| - 1], dataset);
      var violations := ColumnViolations(columns[|columns| - 1], dataset);
      if violations == 0 then found else CappedAfter(found, violations)
  }

  /** Capping changes the number but never the verdict, and leaving only the inner loop still bounds the number. */
  lemma {:induction false} CappedScan(columns: seq<string>, dataset: Dataset)
    ensures CappedViolations(columns, dataset) == 0 <==> AllViolations(columns, dataset) == 0
    ensures CappedViolations(columns, dataset) <= AllViolations(columns, dataset)
    ensures CappedViolations(columns, dataset) <= 9 + |columns|
    ensures AllViolations(columns, dataset) <= REPORT_CAP ==>
      CappedViolations(columns, dataset) == AllViolations(columns, dataset)
  {
    if columns != [] {
      CappedScan(columns[..|columns| - 1], dataset);
      if CappedViolations(columns[..|columns| - 1], dataset) >= REPORT_CAP {
        assert |columns| >= 2;
      }
    }
  }

  /** How many of the columns have a violation. */
  function ViolatingColumns(columns: seq<string>, dataset: Dataset): nat {
    Count(columns, (c: string) => ColumnViolations(c, dataset) > 0)
  }

  /** The number itself, below ten. */
  lemma {:induction false} CappedBelowTen(columns: seq<string>, dataset: Dataset)
    requires AllViolations(columns, dataset) < 10
    ensures CappedViolations(columns, dataset) == AllViolations(columns, dataset)
  {
    hide ColumnViolations;
    if columns != [] {
      CappedBelowTen(columns[..|columns| - 1], dataset);
    }
  }

  /** The number itself from the column on that reaches the tenth: each later column with a violation adds one. */
  lemma {:induction false} CappedExactly(columns: seq<string>, dataset: Dataset, i: nat)
    requires i < |columns|
    requires AllViolations(columns[..i], dataset) < 10 <= AllViolations(columns[..i + 1], dataset)
    ensures CappedViolations(columns, dataset) == 10 + ViolatingColumns(columns[i + 1..], dataset)
  {
    hide ColumnViolations, ViolatingColumns;
    var before, last := columns[..|columns| - 1], columns[|columns| - 1];
    if i == |before| {
      assert columns[..i] == before && columns[..i + 1] == columns && columns[i + 1..] == [];
      NoneViolating(dataset);
      CappedBelowTen(before, dataset);
    } else {
      assert before[..i] == columns[..i] && before[..i + 1] == columns[..i + 1];
      CappedExactly(before, dataset, i);
      OneMoreViolating(before[i + 1..], last, dataset);
      assert columns[i + 1..] == before[i + 1..] + [last];
    }
  }

  lemma NoneViolating(dataset: Dataset)
    ensures ViolatingColumns([], dataset) == 0
  {
  }

  lemma OneMoreViolating(columns: seq<string>, last: string, dataset: Dataset)
    ensures ViolatingColumns(columns + [last], dataset) ==
      ViolatingColumns(columns, dataset) + if ColumnViolations(last, dataset) > 0 then 1 else 0
  {
    CountAppend(columns, [last], (c: string) => ColumnViolations(c, dataset) > 0);
  }

  datatype CheckResult = CheckResult(name: string, passed: bool, violations: nat)

  const MASKING_CHECK := "masking_correctness"
  const RESTRICTED_CHECK := "restricted_data_check"

  ghost predicate NoRestrictedViolation(dataset: Dataset, classifications: map<string, string>) {
    forall c :: c in classifications && IsRestricted(classifications[c]) ==> ColumnViolations(c, dataset) == 0
  }

  lemma {:induction false} AllViolationsZero(columns: seq<string>, dataset: Dataset)
    ensures AllViolations(columns, dataset) == 0 <==> forall c :: c in columns ==> ColumnViolations(c, dataset) == 0
  {
    if columns != [] {
      AllViolationsZero(columns[..|columns| - 1], dataset);
      assert columns == columns[..|columns| - 1] + [columns[|columns| - 1]];
    }
  }

  method CountColumn(rows: seq<Row>, column: string, found: nat) returns (total: nat)
    ensures total ==
      if Unacceptable(rows, column) == 0 then found else CappedAfter(found, Unacceptable(rows, column))
  {
    total := found;
    var unacceptable := (r: Row) => !IsAcceptable(Get(r, column));
    for i := 0 to |rows|
      invariant total == found + Count(rows[..i], unacceptable)
      invariant total > found ==> total < REPORT_CAP
    {
      assert rows[..i + 1] == rows[..i] + [rows[i]];
      CountAppend(rows[..i], [rows[i]], unacceptable);
      if !IsAcceptable(Get(rows[i], column)) {
        total := total + 1;
        if total >= REPORT_CAP {
          CountAppend(rows[..i + 1], rows[i + 1..], unacceptable);
          assert rows == rows[..i + 1] + rows[i + 1..];
          return;
        }
      }
    }
    assert rows[..|rows|] == rows;
  }

  /** The verdict CHECK 5 stands for. */
  ghost predicate RestrictedDataAbsent(
    tier: Option<string>, classifications: Option<map<string, string>>, dataset: Option<Dataset>)
  {
    && tier.Some?
    && (Lower(tier.value) != "production" ==>
         && classifications.Some? && dataset.Some?
         && NoRestrictedViolation(dataset.value, classifications.value))
  }

  method RestrictedColumns(classifications: map<string, string>) returns (columns: seq<string>)
    ensures forall c :: c in columns <==> c in classifications && IsRestricted(classifications[c])
    ensures Distinct(columns)
  {
    columns := [];
    var pending := classifications.Keys;
    while pending != {}
      invariant pending <= classifications.Keys && Distinct(columns)
      invariant forall c :: c in columns <==>
        c in classifications && c !in pending && IsRestricted(classifications[c])
      decreases |pending|
    {
      var column :| column in pending;
      pending := pending - {column};
      if IsRestricted(classifications[column]) {
        columns := columns + [column];
      }
    }
  }

  /** CHECK 5. The verdict is that of the uncapped scan. */
  method CheckRestrictedData(
    tier: Option<string>, classifications: Option<map<string, string>>, dataset: Option<Dataset>)
    returns (result: CheckResult)
    ensures result.name == RESTRICTED_CHECK
    ensures result.passed <==> RestrictedDataAbsent(tier, classifications, dataset)
    ensures tier == None ==> !result.passed
    ensures tier.Some? && Lower(tier.value) == "production" ==> result.passed
    ensures tier.Some? && Lower(tier.value) != "production" && (classifications == None || dataset == None) ==>
      !result.passed
    ensures tier.Some? && Lower(tier.value) != "production" && classifications.Some? && dataset.Some? ==>
      (result.passed <==> forall c :: c in classifications.value && Lower(classifications.value[c]) == "restricted" ==>
        ColumnViolations(c, dataset.value) == 0)
    ensures result.violations > 0 ==> !result.passed && classifications.Some?
    ensures result.violations == 0 ||
      result.violations <= 9 + |set c | c in classifications.value && IsRestricted(classifications.value[c])|
  {
    if tier == None {
      return CheckResult(RESTRICTED_CHECK, false, 0);
    }
    if Lower(tier.value) == "production" {
      return CheckResult(RESTRICTED_CHECK, true, 0);
    }
    if classifications == None || dataset == None {
      return CheckResult(RESTRICTED_CHECK, false, 0);
    }
    var columns := RestrictedColumns(classifications.value);
    var violations := ScanRestricted(columns, dataset.value);
    CappedScan(columns, dataset.value);
    AllViolationsZero(columns, dataset.value);
    DistinctSize(columns);
    assert (set c | c in classifications.value && IsRestricted(classifications.value[c])) == set c | c in columns;
    result := CheckResult(RESTRICTED_CHECK, violations == 0, violations);
  }

  method ScanRestricted(columns: seq<string>, dataset: Dataset) returns (violations: nat)
    ensures violations == CappedViolations(columns, dataset)
  {
    violations := 0;
    for i := 0 to |columns|
      invariant violations == CappedViolations(columns[..i], dataset)
    {
      assert columns[..i + 1][..i] == columns[..i];
      match SplitQualified(columns[i]) {
        case None =>
        case Some((table, column)) =>
          var rows := if table in dataset then dataset[table] else [];
          violations := CountColumn(rows, column, violations);
      }
    }
    assert columns[..|columns|] == columns;
  }

  /**
   * All inputs of CHECK 3 are there, and in the drawn samples every sensitive cell passes: its format is right, or the
   * analyser was asked, answered and found nothing.
   */
  ghost predicate MaskingConfirmed(
    validator: Option<PIIValidator>, dataset: Option<Dataset>, classifications: Option<map<string, string>>,
    strategies: Option<map<string, string>>, samples: map<string, seq<Row>>)
  {
    && validator.Some? && dataset.Some? && classifications.Some? && strategies.Some?
    && forall t :: t in dataset.value && dataset.value[t] != [] ==>
         && t in samples && IsSample(samples[t], dataset.value[t], validator.value.sampleSize)
         && TablePasses(t, dataset.value[t][0].Keys, samples[t], classifications.value, strategies.value,
                        validator.value.analyse)
  }

  ghost predicate AllGivenAndClean(
    validator: Option<PIIValidator>, dataset: Option<Dataset>, classifications: Option<map<string, string>>,
    strategies: Option<map<string, string>>)
  {
    && validator.Some? && dataset.Some? && classifications.Some? && strategies.Some?
    && CleanByFormat(dataset.value, classifications.value, strategies.value)
  }

  /** CHECK 3: fails on any missing input, on an analyser that cannot answer, and on any violation in the sample. */
  method CheckMasking(validator: Option<PIIValidator>, dataset: Option<Dataset>,
                      classifications: Option<map<string, string>>, strategies: Option<map<string, string>>)
    returns (result: CheckResult, ghost samples: map<string, seq<Row>>)
    modifies if validator.Some? then {validator.value} else {}
    ensures result.name == MASKING_CHECK
    ensures result.passed <==> MaskingConfirmed(validator, dataset, classifications, strategies, samples)
    ensures validator == None || dataset == None || classifications == None || strategies == None ==> !result.passed
    ensures result.passed ==> forall t :: t in dataset.value && dataset.value[t] != [] ==>
      && t in samples && IsSample(samples[t], dataset.value[t], validator.value.sampleSize)
      && TablePasses(t, dataset.value[t][0].Keys, samples[t], classifications.value, strategies.value,
                     validator.value.analyse)
    ensures validator.Some? && dataset.Some? && classifications.Some? && strategies.Some? ==>
      (CleanByFormat(dataset.value, classifications.value, strategies.value) ==>
        result.passed && validator.value.calls == old(validator.value.calls))
    ensures AllGivenAndClean(validator, dataset, classifications, strategies) ==>
      result.passed && validator.value.calls == old(validator.value.calls)
  {
    if validator == None || dataset == None || classifications == None || strategies == None {
      return CheckResult(MASKING_CHECK, false, 0), map[];
    }
    var scan;
    scan, samples := validator.value.Validate(dataset.value, classifications.value, strategies.value);
    match scan {
      case Err(_) => result := CheckResult(MASKING_CHECK, false, 0);
      case Ok(s) => result := CheckResult(MASKING_CHECK, Passed(s), s.violations);
    }
  }

  datatype GateResult = GateResult(passed: bool, run: nat, failed: nat, failedNames: seq<string>)

  /**
   * All six checks run whatever the others give; the gate passes iff each of them does. The four checks that only
   * compare inputs are given by their results.
   */
  method Evaluate(contract: CheckResult, quality: CheckResult, lineage: CheckResult, integrity: CheckResult,
                  tier: Option<string>, validator: Option<PIIValidator>, dataset: Option<Dataset>,
                  classifications: Option<map<string, string>>, strategies: Option<map<string, string>>)
    returns (gate: GateResult, masking: CheckResult, restricted: CheckResult, ghost samples: map<string, seq<Row>>)
    modifies if validator.Some? then {validator.value} else {}
    ensures masking.name == MASKING_CHECK && restricted.name == RESTRICTED_CHECK && gate.run == 6
    ensures gate.passed <==>
      contract.passed && quality.passed && masking.passed && lineage.passed && restricted.passed && integrity.passed
    ensures gate.failedNames ==
      FailedNames([contract, quality, masking, lineage, restricted, integrity]) && gate.failed == |gate.failedNames|
    ensures restricted.passed <==> RestrictedDataAbsent(tier, classifications, dataset)
    ensures masking.passed <==> MaskingConfirmed(validator, dataset, classifications, strategies, samples)
    ensures AllGivenAndClean(validator, dataset, classifications, strategies) ==>
      masking.passed && validator.value.calls == old(validator.value.calls)
  {
    masking, samples := CheckMasking(validator, dataset, classifications, strategies);
    restricted := CheckRestrictedData(tier, classifications, dataset);
    var results := [contract, quality, masking, lineage, restricted, integrity];
    var names := FailedNames(results);
    FailedNamesEmpty(results);
    assert forall r :: r in results <==>
      r == contract || r == quality || r == masking || r == lineage || r == restricted || r == integrity;
    gate := GateResult(names == [], |results|, |names|, names);
  }

  function FailedNames(results: seq<CheckResult>): seq<string> {
    if results == [] then []
    else (if results[0].passed then [] else [results[0].name]) + FailedNames(results[1..])
  }

  lemma {:induction false} FailedNamesEmpty(results: seq<CheckResult>)
    ensures FailedNames(results) == [] <==> forall r :: r in results ==> r.passed
  {
    if results != [] {
      FailedNamesEmpty(results[1..]);
    }
  }

  // ---------------------------------------------------------------------------------------------
  // The masker's output and the two checks agree
  // ---------------------------------------------------------------------------------------------

  predicate HidesByFormat(strategy: string) {
    strategy == "redact" || strategy == "tokenize"
  }

  lemma StripRedacted()
    ensures Strip("[REDACTED]") == "[REDACTED]"
  {
  }

  lemma TokenIsNamedToken(d: Digest)
    ensures IsNamedToken("TOKEN_" + d)
  {
    var s := "TOKEN_" + d;
    assert s[5] == '_';
    forall i | 5 < i < |s| ensures IsAlphanumeric(s[i]) {
      assert s[i] == d[i - 6] && d[i - 6] in d;
    }
  }

  /** A redacted or tokenized cell satisfies both files' formats. */
  lemma MaskedCellIsAccepted(strategy: string, v: Value, mac: Mac)
    requires HidesByFormat(strategy)
    ensures CellCleanByFormat(strategy, MaskValue(strategy, v, mac))
    ensures IsAcceptable(MaskValue(strategy, v, mac))
  {
    StripRedacted();
    TokenIsNamedToken(mac(Show(v)));
  }

  lemma RestrictedIsScanned(classification: string)
    requires IsRestricted(classification)
    ensures IsScanned(classification)
  {
  }

  lemma MissingCellIsAccepted(strategy: string)
    ensures CellCleanByFormat(strategy, Absent) && IsAcceptable(Absent)
  {
  }

  /**
   * If every confidential or restricted column resolves to redact or tokenize, the masked output passes the scan by
   * format alone, for any sample and any analyser, and shows no restricted data.
   */
  lemma MaskedOutputPasses(
    dataset: Dataset, classifications: map<string, string>, strategies: map<string, string>, mac: Mac)
    requires forall c :: c in classifications && IsScanned(classifications[c]) ==>
      HidesByFormat(StrategyFor(strategies, c))
    ensures CleanByFormat(MaskDataset(dataset, strategies, mac), classifications, strategies)
    ensures NoRestrictedViolation(MaskDataset(dataset, strategies, mac), classifications)
  {
    hide CellCleanByFormat, IsAcceptable, MaskValue, HidesByFormat, IsScanned, IsRestricted;
    var masked := MaskDataset(dataset, strategies, mac);
    EmptyIsNotScanned();
    forall t, i, c | t in masked && 0 <= i < |masked[t]| && IsScanned(ClassOf(classifications, Qualified(t, c)))
      ensures CellCleanByFormat(StrategyFor(strategies, Qualified(t, c)), Get(masked[t][i], c))
      ensures IsAcceptable(Get(masked[t][i], c))
    {
      var strategy := StrategyFor(strategies, Qualified(t, c));
      MissingCellIsAccepted(strategy);
      if c in dataset[t][i] {
        MaskedCellIsAccepted(strategy, dataset[t][i][c], mac);
      }
    }
    forall name | name in classifications && IsRestricted(classifications[name])
      ensures ColumnViolations(name, masked) == 0
    {
      SplitJoins(name);
      RestrictedIsScanned(classifications[name]);
      if SplitQualified(name).Some? {
        var (table, column) := SplitQualified(name).value;
        if table in masked {
          CountZero(masked[table], (r: Row) => !IsAcceptable(Get(r, column)));
        }
      }
    }
  }

  /** The classification map that a contract induces. */
  function Classifications(contract: Contract): map<string, string> {
    map c | c in contract :: Or(contract[c], "public")
  }

  /** The same for the strategies the masker itself derives from contract and policy. */
  lemma ContractDrivenMaskingPasses(dataset: Dataset, contract: Contract, policy: Policy, mac: Mac)
    requires forall c :: c in contract && IsScanned(Or(contract[c], "public")) ==>
      HidesByFormat(ColumnStrategy(contract, policy, c))
    ensures var strategies := StrategyMap(contract, policy);
            var masked := MaskDataset(dataset, strategies, mac);
            var classifications := map c | c in contract :: Or(contract[c], "public");
            && CleanByFormat(masked, classifications, strategies)
            && NoRestrictedViolation(masked, classifications)
  {
    MaskedOutputPasses(dataset, Classifications(contract), StrategyMap(contract, policy), mac);
  }

  /** A cell whose masked form CHECK 5 accepts: FPE values are refused, untouched values must be acceptable. */
  predicate SurvivesCheck(strategy: string, v: Value) {
    HidesByFormat(strategy) || (strategy != "format_preserve_encrypt" && IsAcceptable(v))
  }

  lemma MaskedCellVerdict(strategy: string, v: Value, mac: Mac)
    ensures IsAcceptable(MaskValue(strategy, v, mac)) <==> SurvivesCheck(strategy, v)
  {
    if strategy == "format_preserve_encrypt" {
      assert ("FPE_" + mac(Show(v)))[0] == 'F';
    }
  }

  lemma AllAcceptable(rows: seq<Row>, column: string)
    ensures Unacceptable(rows, column) == 0 <==>
      forall i :: 0 <= i < |rows| && column in rows[i] ==> IsAcceptable(rows[i][column])
  {
    CountZero(rows, (r: Row) => !IsAcceptable(Get(r, column)));
    assert forall i :: 0 <= i < |rows| ==> rows[i] in rows;
    assert IsAcceptable(Absent);
    hide IsAcceptable;
    if Unacceptable(rows, column) == 0 {
      assert forall r :: r in rows ==> IsAcceptable(Get(r, column));
    }
  }

  /**
   * When a masked column shows no restricted data, strategy by strategy. A restricted column under
   * format-preserving encryption passes only when no row has it.
   */
  lemma RestrictedColumnVerdict(dataset: Dataset, strategies: map<string, string>, mac: Mac, name: string)
    requires SplitQualified(name).Some?
    ensures var (table, name') := SplitQualified(name).value;
            var c := Column(table, name');
            ColumnViolations(name, MaskDataset(dataset, strategies, mac)) == 0 <==>
              forall i: nat | HasCell(dataset, c, i) ::
                SurvivesCheck(StrategyFor(strategies, name), CellOf(dataset, c, i))
  {
    hide MaskDataset, IsAcceptable, MaskValue, SurvivesCheck, Unacceptable, StrategyFor;
    SplitJoins(name);
    var (table, name') := SplitQualified(name).value;
    var c := Column(table, name');
    var masked := MaskDataset(dataset, strategies, mac);
    MaskingKeepsShape(dataset, strategies, mac);
    if table in dataset {
      AllAcceptable(masked[table], name');
      forall i: nat | HasCell(dataset, c, i)
        ensures HasCell(masked, c, i)
        ensures IsAcceptable(masked[table][i][name']) <==>
          SurvivesCheck(StrategyFor(strategies, name), CellOf(dataset, c, i))
      {
        MaskedCell(dataset, strategies, mac, c, i);
        MaskedCellVerdict(StrategyFor(strategies, name), CellOf(dataset, c, i), mac);
      }
    }
  }
}
