/** The post-mask scan of gates/pii_validator.py. */
module PiiValidator {
  import opened Common
  import opened Strings
  import opened Masking

  predicate IsScanned(classification: string) {
    Lower(classification) == "confidential" || Lower(classification) == "restricted"
  }

  predicate IsValidRedacted(v: Value) {
    match v
    case Absent => true
    case Str(s) => Strip(s) in {"", "[REDACTED]", "NULL", "REDACTED"}
    case Other(_) => false
  }

  /** Upper-case letters, an underscore, letters and digits. */
  predicate IsNamedToken(s: string) {
    exists k :: 0 < k < |s| - 1 && s[k] == '_'
      && (forall i :: 0 <= i < k ==> IsUpper(s[i])) && (forall i :: k < i < |s| ==> IsAlphanumeric(s[i]))
  }

  /** TOK- and hexadecimal digits, in either case. */
  predicate IsTokToken(s: string) {
    |s| > 4 && Lower(s[..4]) == "tok-" && forall i :: 4 <= i < |s| ==> IsLowerHex(LowerChar(s[i]))
  }

  predicate IsStars(s: string) {
    |s| >= 3 && forall i :: 0 <= i < |s| ==> s[i] == '*'
  }

  predicate IsTokenText(s: string) {
    IsNamedToken(s) || IsTokToken(s) || IsStars(s)
  }

  /** The patterns are anchored by `$`, which also matches before one final newline. */
  predicate IsValidToken(s: string) {
    IsTokenText(s) || (s != "" && s[|s| - 1] == '\n' && IsTokenText(s[..|s| - 1]))
  }

  predicate AllFrom(s: string, characters: string) {
    forall c :: c in s ==> c in characters
  }

  /** A name in upper case, an underscore and a code. */
  predicate IsNamedWord(s: string, name: string, code: string) {
    && name != "" && code != "" && s == name + "_" + code
    && AllFrom(name, UPPERS) && AllFrom(code, ALPHANUMERICS)
  }

  /** `tok-` in either case, and a hexadecimal code in either case. */
  predicate IsTokWord(s: string, prefix: string, code: string) {
    && s == prefix + code && code != ""
    && Lower(prefix) == "tok-" && AllFrom(Lower(code), DIGITS + "abcdef")
  }

  /** The three token languages, word by word. */
  ghost predicate IsTokenWord(s: string) {
    || (exists name, code :: IsNamedWord(s, name, code))
    || (exists prefix, code :: IsTokWord(s, prefix, code))
    || (|s| >= 3 && AllFrom(s, "*"))
  }

  lemma AllFromClass(s: string, p: char -> bool, characters: string)
    requires forall c :: p(c) <==> c in characters
    ensures (forall i :: 0 <= i < |s| ==> p(s[i])) <==> AllFrom(s, characters)
  {
    assert forall i :: 0 <= i < |s| ==> s[i] in s;
  }

  lemma UpperWord(s: string)
    ensures (forall i :: 0 <= i < |s| ==> IsUpper(s[i])) <==> AllFrom(s, UPPERS)
  {
    forall c ensures IsUpper(c) <==> c in UPPERS {
      CharacterClasses(c);
    }
    hide *;
    AllFromClass(s, c => IsUpper(c), UPPERS);
  }

  lemma AlphanumericWord(s: string)
    ensures (forall i :: 0 <= i < |s| ==> IsAlphanumeric(s[i])) <==> AllFrom(s, ALPHANUMERICS)
  {
    forall c ensures IsAlphanumeric(c) <==> c in ALPHANUMERICS {
      CharacterClasses(c);
    }
    hide *;
    AllFromClass(s, c => IsAlphanumeric(c), ALPHANUMERICS);
  }

  lemma HexWord(s: string)
    ensures (forall i :: 0 <= i < |s| ==> IsLowerHex(s[i])) <==> AllFrom(s, DIGITS + "abcdef")
  {
    forall c ensures IsLowerHex(c) <==> c in DIGITS + "abcdef" {
      CharacterClasses(c);
    }
    hide *;
    AllFromClass(s, c => IsLowerHex(c), DIGITS + "abcdef");
  }

  lemma NamedTokenAt(s: string, k: int)
    requires 0 < k < |s| - 1 && s[k] == '_'
    ensures (forall i :: 0 <= i < k ==> IsUpper(s[i])) && (forall i :: k < i < |s| ==> IsAlphanumeric(s[i])) <==>
      IsNamedWord(s, s[..k], s[k + 1..])
  {
    hide IsUpper, IsAlphanumeric, AllFrom;
    UpperWord(s[..k]);
    AlphanumericWord(s[k + 1..]);
    assert s == s[..k] + "_" + s[k + 1..];
    var name, code := s[..k], s[k + 1..];
    assert (forall i :: 0 <= i < k ==> IsUpper(s[i])) <==> (forall i :: 0 <= i < |name| ==> IsUpper(name[i]));
    if forall i :: 0 <= i < |code| ==> IsAlphanumeric(code[i]) {
      forall i | k < i < |s| ensures IsAlphanumeric(s[i]) {
        assert s[i] == code[i - k - 1];
      }
    }
  }

  lemma NamedTokens(s: string)
    ensures IsNamedToken(s) <==> exists name, code :: IsNamedWord(s, name, code)
  {
    hide IsUpper, IsAlphanumeric, AllFrom;
    forall k | 0 < k < |s| - 1 && s[k] == '_' ensures
      (forall i :: 0 <= i < k ==> IsUpper(s[i])) && (forall i :: k < i < |s| ==> IsAlphanumeric(s[i])) <==>
        IsNamedWord(s, s[..k], s[k + 1..])
    {
      NamedTokenAt(s, k);
    }
    if name, code :| IsNamedWord(s, name, code) {
      assert s[..|name|] == name && s[|name|] == '_' && s[|name| + 1..] == code;
    }
  }

  lemma TokTokens(s: string)
    ensures IsTokToken(s) <==> exists prefix, code :: IsTokWord(s, prefix, code)
  {
    if |s| > 4 {
      TokTokenAt(s);
      assert s == s[..4] + s[4..];
    }
    if prefix, code :| IsTokWord(s, prefix, code) {
      assert s[..4] == prefix && s[4..] == code;
    }
  }

  lemma TokTokenAt(s: string)
    requires |s| > 4
    ensures IsTokToken(s) <==> IsTokWord(s, s[..4], s[4..])
  {
    hide IsLowerHex, LowerChar, AllFrom;
    var code := s[4..];
    HexWord(Lower(code));
    assert s == s[..4] + code;
    if forall i :: 0 <= i < |code| ==> IsLowerHex(Lower(code)[i]) {
      forall i | 4 <= i < |s| ensures IsLowerHex(LowerChar(s[i])) {
        assert Lower(code)[i - 4] == LowerChar(s[i]);
      }
    }
  }

  lemma TokenWords(s: string)
    ensures IsTokenText(s) <==> IsTokenWord(s)
  {
    NamedTokens(s);
    TokTokens(s);
    StarTokens(s);
    hide IsNamedToken, IsTokToken, IsStars, IsNamedWord, IsTokWord, AllFrom;
  }

  lemma StarTokens(s: string)
    ensures IsStars(s) <==> |s| >= 3 && AllFrom(s, "*")
  {
    AllFromClass(s, c => c == '*', "*");
  }

  /** A token is a word of one of the languages, with or without a final newline. */
  lemma TokenLanguage(s: string)
    ensures IsValidToken(s) <==> IsTokenWord(s) || exists word :: s == word + "\n" && IsTokenWord(word)
  {
    TokenWords(s);
    if s != "" {
      TokenWords(s[..|s| - 1]);
      assert s[|s| - 1] == '\n' ==> s == s[..|s| - 1] + "\n";
    }
    hide IsTokenText, IsTokenWord;
    if word :| s == word + "\n" && IsTokenWord(word) {
      assert s[..|s| - 1] == word;
    }
  }

  predicate IsPlaceholder(core: string) {
    core == "" || core == "[REDACTED]" || core == "NULL" || core == "REDACTED"
  }

  /** Redacted are missing values, blank texts and the three placeholders with blanks around them, nothing else. */
  lemma RedactedForms(v: Value)
    ensures IsValidRedacted(v) <==>
      || v == Absent
      || (v.Str? && exists before, core, after :: IsPadded(v.s, before, core, after) && IsPlaceholder(core))
  {
    if v.Str? {
      var before, after := StripMeaning(v.s);
      hide Strip;
      if IsValidRedacted(v) {
        assert IsPadded(v.s, before, Strip(v.s), after);
      }
      if b, core, a :| IsPadded(v.s, b, core, a) && IsPlaceholder(core) {
        StripPlaceholder(b, core, a);
      }
    }
  }

  predicate IsPadded(s: string, before: string, core: string, after: string) {
    s == before + core + after && IsBlank(before) && IsBlank(after)
  }

  lemma StripPlaceholder(before: string, core: string, after: string)
    requires IsBlank(before) && IsBlank(after)
    requires core == "" || (!IsSpace(core[0]) && !IsSpace(core[|core| - 1]))
    ensures Strip(before + core + after) == core
  {
    StripsLeft(before, core + after);
    assert before + core + after == before + (core + after);
    if core == "" {
      StripsLeft(after, "");
      assert core + after == after && after + "" == after;
    } else {
      assert StripLeft(core + after) == core + after;
      StripsRight(core, after);
    }
  }

  lemma {:induction false} StripsLeft(blank: string, s: string)
    requires IsBlank(blank)
    ensures StripLeft(blank + s) == StripLeft(s)
  {
    if blank == "" {
      assert blank + s == s;
    } else {
      assert (blank + s)[1..] == blank[1..] + s && blank[0] in blank;
      StripsLeft(blank[1..], s);
    }
  }

  lemma {:induction false} StripsRight(s: string, blank: string)
    requires IsBlank(blank)
    ensures StripRight(s + blank) == StripRight(s)
  {
    if blank == "" {
      assert s + blank == s;
    } else {
      assert (s + blank)[..|s + blank| - 1] == s + blank[..|blank| - 1] && blank[|blank| - 1] in blank;
      StripsRight(s, blank[..|blank| - 1]);
    }
  }

  /** Classifications are compared in lower case. */
  lemma ScannedClasses()
    ensures IsScanned("confidential") && IsScanned("Confidential") && IsScanned("RESTRICTED")
    ensures !IsScanned("internal") && !IsScanned("public") && !IsScanned("")
  {
    assert Lower("confidential") == Lower("Confidential") == "confidential" && Lower("RESTRICTED") == "restricted";
    assert Lower("internal")[0] == 'i' && Lower("public")[0] == 'p' && |Lower("")| == 0;
  }

  /** What the analyser finds in a text at or above the confidence threshold; None when it fails. */
  type Analyser = string -> Option<set<string>>

  datatype ScanUnavailable = ScanUnavailable

  /** The verdict on one cell: whether the analyser was asked, whether it failed, and the violations. */
  datatype CellScan = CellScan(asked: bool, failed: bool, entities: set<string>)

  const CLEAN := CellScan(false, false, {})

  /** A blank text is not sent to the analyser. */
  function AnalyzeValue(text: string, analyse: Analyser): CellScan {
    if Strip(text) == "" then CLEAN
    else
      match analyse(text)
      case None => CellScan(true, true, {})
      case Some(entities) => CellScan(true, false, entities)
  }

  function ScanCell(strategy: string, v: Value, analyse: Analyser): CellScan {
    if strategy == "redact" || strategy == "redaction" then
      if IsValidRedacted(v) then CLEAN else CellScan(false, false, {"REDACTION_FORMAT_VIOLATION"})
    else if strategy == "tokenize" || strategy == "tokenization" then
      if v.Str? && !IsValidToken(v.s) then AnalyzeValue(v.s, analyse) else CLEAN
    else
      if v.Str? then AnalyzeValue(v.s, analyse) else CLEAN
  }

  /** `row.get(column)` */
  function Get(row: Row, column: string): Value {
    if column in row then row[column] else Absent
  }

  function ClassOf(classifications: map<string, string>, column: string): string {
    if column in classifications then classifications[column] else ""
  }

  datatype ColumnResult = ColumnResult(
    table: string, column: string, rowsScanned: nat, violations: nat, types: set<string>)

  datatype ScanResult = ScanResult(tablesScanned: nat, rowsSampled: nat, violations: nat, columns: seq<ColumnResult>)

  predicate Passed(r: ScanResult) {
    r.violations == 0
  }

  /** A sample without replacement: `min(size, |rows|)` rows, no row more often than it occurs. */
  predicate IsSample(sample: seq<Row>, rows: seq<Row>, size: nat) {
    && |sample| == (if |rows| > size then size else |rows|)
    && multiset(sample) <= multiset(rows)
  }

  /** No row of the column is found wanting. Cells on which the analyser fails are the business of the next one. */
  predicate ColumnClean(sample: seq<Row>, column: string, strategy: string, analyse: Analyser) {
    forall r :: r in sample ==> ScanCell(strategy, Get(r, column), analyse).entities == {}
  }

  /** The analyser answers for every row of the column for which it is asked. */
  predicate ColumnScannable(sample: seq<Row>, column: string, strategy: string, analyse: Analyser) {
    forall r :: r in sample ==> !ScanCell(strategy, Get(r, column), analyse).failed
  }

  predicate ColumnUnread(sample: seq<Row>, column: string, strategy: string, analyse: Analyser) {
    forall r :: r in sample ==> !ScanCell(strategy, Get(r, column), analyse).asked
  }

  /**
   * Every cell of every sensitive column is in order by its format alone, so no sample can send it to the analyser.
   */
  ghost predicate CleanByFormat(
    dataset: Dataset, classifications: map<string, string>, strategies: map<string, string>)
  {
    forall t, i, c :: t in dataset && 0 <= i < |dataset[t]| && IsScanned(ClassOf(classifications, Qualified(t, c))) ==>
      CellCleanByFormat(StrategyFor(strategies, Qualified(t, c)), Get(dataset[t][i], c))
  }

  /** The cell's format alone settles the matter, whatever the analyser would say. */
  predicate CellCleanByFormat(strategy: string, v: Value) {
    if strategy == "redact" || strategy == "redaction" then IsValidRedacted(v)
    else if strategy == "tokenize" || strategy == "tokenization" then
      !v.Str? || IsValidToken(v.s) || Strip(v.s) == ""
    else !v.Str? || Strip(v.s) == ""
  }

  /** A cell is clean without the analyser being asked iff its format is in order. */
  lemma CleanByFormatMeansUnread(strategy: string, v: Value, analyse: Analyser)
    ensures CellCleanByFormat(strategy, v) <==> ScanCell(strategy, v, analyse) == CLEAN
  {
    hide IsValidToken, Strip;
  }

  predicate IsRedacting(strategy: string) {
    strategy == "redact" || strategy == "redaction"
  }

  /** A text that is left to the analyser: not blank, and no token where tokens are due. */
  predicate IsAnalysed(strategy: string, v: Value) {
    && !IsRedacting(strategy) && v.Str? && Strip(v.s) != ""
    && (strategy == "tokenize" || strategy == "tokenization" ==> !IsValidToken(v.s))
  }

  /** What is wrong with a cell, said of its format and the analyser's answer. */
  function FlawsOf(strategy: string, v: Value, analyse: Analyser): set<string> {
    if IsRedacting(strategy) then (if IsValidRedacted(v) then {} else {"REDACTION_FORMAT_VIOLATION"})
    else if IsAnalysed(strategy, v) && analyse(v.s).Some? then analyse(v.s).value
    else {}
  }

  /** A cell passes when its format is right, or the analyser was asked, answered and found nothing. */
  predicate CellPasses(strategy: string, v: Value, analyse: Analyser) {
    if IsRedacting(strategy) then IsValidRedacted(v)
    else IsAnalysed(strategy, v) ==> analyse(v.s) == Some({})
  }

  lemma CellVerdict(strategy: string, v: Value, analyse: Analyser)
    ensures var scan := ScanCell(strategy, v, analyse);
            && scan.entities == FlawsOf(strategy, v, analyse)
            && (scan.asked <==> IsAnalysed(strategy, v))
            && (scan.failed <==> IsAnalysed(strategy, v) && analyse(v.s) == None)
            && (!scan.failed && scan.entities == {} <==> CellPasses(strategy, v, analyse))
  {
    hide IsValidToken, Strip, IsValidRedacted;
  }

  /** Whatever the analyser finds in a cell it is asked about is among the flaws of the cell. */
  lemma FindingsAreFlaws(strategy: string, s: string, analyse: Analyser, found: set<string>)
    requires strategy != "redact" && strategy != "redaction" && Strip(s) != ""
    requires strategy == "tokenize" || strategy == "tokenization" ==> !IsValidToken(s)
    requires analyse(s) == Some(found) && found != {}
    ensures ScanCell(strategy, Str(s), analyse) == CellScan(true, false, found)
    ensures FlawsOf(strategy, Str(s), analyse) == found && !CellPasses(strategy, Str(s), analyse)
  {
    hide IsValidToken, Strip;
  }

  /** The report of a column counts exactly the flawed rows and names exactly their flaws. */
  lemma {:induction false} ReportMeaning(
    table: string, column: string, strategy: string, sample: seq<Row>, analyse: Analyser)
    ensures var report := ReportOf(table, column, strategy, sample, analyse);
            && report.violations == Count(sample, (r: Row) => FlawsOf(strategy, Get(r, column), analyse) != {})
            && (forall e :: e in report.types <==>
                 exists r :: r in sample && e in FlawsOf(strategy, Get(r, column), analyse))
  {
    hide ScanCell, FlawsOf;
    forall r: Row ensures
      ScanCell(strategy, Get(r, column), analyse).entities == FlawsOf(strategy, Get(r, column), analyse)
    {
      CellVerdict(strategy, Get(r, column), analyse);
    }
    SameCount(sample, (r: Row) => ScanCell(strategy, Get(r, column), analyse).entities != {},
              (r: Row) => FlawsOf(strategy, Get(r, column), analyse) != {});
    if sample != [] {
      var before, last := sample[..|sample| - 1], sample[|sample| - 1];
      ReportMeaning(table, column, strategy, before, analyse);
      assert forall r :: r in sample <==> r in before || r == last;
    }
  }

  /** What the analyser and the format checks found in the column, over the sample. */
  function EntitiesOf(sample: seq<Row>, column: string, strategy: string, analyse: Analyser): set<string> {
    if sample == [] then {}
    else EntitiesOf(sample[..|sample| - 1], column, strategy, analyse)
         + ScanCell(strategy, Get(sample[|sample| - 1], column), analyse).entities
  }

  /** The report due for one column. */
  function ReportOf(table: string, column: string, strategy: string, sample: seq<Row>, analyse: Analyser): ColumnResult
  {
    ColumnResult(table, column, |sample|,
                 Count(sample, (r: Row) => ScanCell(strategy, Get(r, column), analyse).entities != {}),
                 EntitiesOf(sample, column, strategy, analyse))
  }

  /** The same under the column's strategy. */
  function DueReport(table: string, column: string, strategies: map<string, string>, sample: seq<Row>,
                     analyse: Analyser): (r: ColumnResult)
    ensures r.table == table && r.column == column
  {
    ReportOf(table, column, StrategyFor(strategies, Qualified(table, column)), sample, analyse)
  }

  predicate HasViolations(r: ColumnResult) {
    r.violations > 0
  }

  /** The reports of one table: one for each of its sensitive columns. */
  ghost predicate DescribesTable(
    results: seq<ColumnResult>, table: string, columns: set<string>, sample: seq<Row>,
    classifications: map<string, string>, strategies: map<string, string>, analyse: Analyser)
  {
    Covers(results, table, ScannedOf(table, columns, classifications), sample, strategies, analyse)
  }

  function ScannedOf(table: string, columns: set<string>, classifications: map<string, string>): set<string> {
    set c | c in columns && IsScanned(ClassOf(classifications, Qualified(table, c)))
  }

  lemma ScannedAdd(table: string, columns: set<string>, classifications: map<string, string>, c: string)
    requires c !in columns
    ensures var more := IsScanned(ClassOf(classifications, Qualified(table, c)));
            && ScannedOf(table, columns + {c}, classifications)
               == ScannedOf(table, columns, classifications) + (if more then {c} else {})
            && |ScannedOf(table, columns + {c}, classifications)|
               == |ScannedOf(table, columns, classifications)| + (if more then 1 else 0)
  {
    hide IsScanned;
    var scanned := ScannedOf(table, columns, classifications);
    var more := IsScanned(ClassOf(classifications, Qualified(table, c)));
    assert ScannedOf(table, columns + {c}, classifications) == scanned + (if more then {c} else {});
    assert c !in scanned;
  }

  /** The reports cover exactly the given columns. */
  ghost predicate Covers(results: seq<ColumnResult>, table: string, scanned: set<string>, sample: seq<Row>,
                         strategies: map<string, string>, analyse: Analyser)
  {
    && |results| == |scanned|
    && (forall r :: r in results ==>
         r.column in scanned && r == DueReport(table, r.column, strategies, sample, analyse))
    && (forall c :: c in scanned ==> DueReport(table, c, strategies, sample, analyse) in results)
  }

  lemma CoverOne(results: seq<ColumnResult>, table: string, scanned: set<string>, sample: seq<Row>,
                 strategies: map<string, string>, analyse: Analyser, c: string)
    requires Covers(results, table, scanned, sample, strategies, analyse) && c !in scanned
    ensures Covers(results + [DueReport(table, c, strategies, sample, analyse)], table, scanned + {c}, sample,
                   strategies, analyse)
  {
    hide DueReport;
    var report := DueReport(table, c, strategies, sample, analyse);
    assert forall r :: r in results + [report] <==> r in results || r == report;
  }

  lemma DescribeOne(
    results: seq<ColumnResult>, table: string, columns: set<string>, sample: seq<Row>,
    classifications: map<string, string>, strategies: map<string, string>, analyse: Analyser, c: string)
    requires DescribesTable(results, table, columns, sample, classifications, strategies, analyse) && c !in columns
    ensures var results' := if IsScanned(ClassOf(classifications, Qualified(table, c)))
              then results + [DueReport(table, c, strategies, sample, analyse)] else results;
            DescribesTable(results', table, columns + {c}, sample, classifications, strategies, analyse)
  {
    ScannedAdd(table, columns, classifications, c);
    assert c !in ScannedOf(table, columns, classifications);
    hide IsScanned, DueReport, ScannedOf, Covers;
    if IsScanned(ClassOf(classifications, Qualified(table, c))) {
      CoverOne(results, table, ScannedOf(table, columns, classifications), sample, strategies, analyse, c);
    } else {
      assert ScannedOf(table, columns, classifications) + {} == ScannedOf(table, columns, classifications);
    }
  }

  lemma ReportNames(table: string, column: string, strategy: string, sample: seq<Row>, analyse: Analyser)
    ensures ReportOf(table, column, strategy, sample, analyse).table == table
    ensures ReportOf(table, column, strategy, sample, analyse).column == column
    ensures !HasViolations(ReportOf(table, column, strategy, sample, analyse)) <==>
      ColumnClean(sample, column, strategy, analyse)
  {
    CountZero(sample, (r: Row) => ScanCell(strategy, Get(r, column), analyse).entities != {});
  }

  /** The table's reports show no violation iff its sensitive columns are clean. */
  lemma DescribedClean(
    results: seq<ColumnResult>, table: string, columns: set<string>, sample: seq<Row>,
    classifications: map<string, string>, strategies: map<string, string>, analyse: Analyser)
    requires DescribesTable(results, table, columns, sample, classifications, strategies, analyse)
    ensures Count(results, HasViolations) == 0 <==>
      TableClean(table, columns, sample, classifications, strategies, analyse)
  {
    hide IsScanned, ReportOf, ColumnClean, HasViolations, DueReport;
    CountZero(results, HasViolations);
    forall c | c in ScannedOf(table, columns, classifications)
      ensures var strategy := StrategyFor(strategies, Qualified(table, c));
              !HasViolations(DueReport(table, c, strategies, sample, analyse)) <==>
                ColumnClean(sample, c, strategy, analyse)
    {
      DueReportClean(table, c, strategies, sample, analyse);
    }
  }

  lemma DueReportClean(table: string, c: string, strategies: map<string, string>, sample: seq<Row>, analyse: Analyser)
    ensures !HasViolations(DueReport(table, c, strategies, sample, analyse)) <==>
      ColumnClean(sample, c, StrategyFor(strategies, Qualified(table, c)), analyse)
  {
    ReportNames(table, c, StrategyFor(strategies, Qualified(table, c)), sample, analyse);
  }

  /** How many rows the samples hold together. */
  ghost function TotalRows(samples: map<string, seq<Row>>): nat {
    |set t, i | t in samples && 0 <= i < |samples[t]| :: (t, i)|
  }

  lemma {:induction false} RowPositions(table: string, n: nat)
    ensures |set i | 0 <= i < n :: (table, i)| == n
  {
    if n > 0 {
      RowPositions(table, n - 1);
      assert (set i | 0 <= i < n :: (table, i)) == (set i | 0 <= i < n - 1 :: (table, i)) + {(table, n - 1)};
    }
  }

  lemma TotalRowsAdd(samples: map<string, seq<Row>>, table: string, sample: seq<Row>)
    requires table !in samples
    ensures TotalRows(samples[table := sample]) == TotalRows(samples) + |sample|
  {
    var before := set t, i | t in samples && 0 <= i < |samples[t]| :: (t, i);
    var added := set i | 0 <= i < |sample| :: (table, i);
    var samples' := samples[table := sample];
    RowPositions(table, |sample|);
    assert (set t, i | t in samples' && 0 <= i < |samples'[t]| :: (t, i)) == before + added;
    assert before !! added;
  }

  method PickSample(rows: seq<Row>, size: nat) returns (sample: seq<Row>)
    ensures IsSample(sample, rows, size)
  {
    if |rows| > size {
      sample := rows[..size];
      assert rows == rows[..size] + rows[size..];
    } else {
      sample := rows;
    }
  }

  lemma SampleMembers(sample: seq<Row>, rows: seq<Row>, size: nat)
    requires IsSample(sample, rows, size)
    ensures forall r :: r in sample ==> r in rows
  {
    forall r | r in sample ensures r in rows {
      assert r in multiset(sample);
      assert r in multiset(rows);
    }
  }

  class PIIValidator {
    const analyse: Analyser
    const sampleSize: nat
    /** How often the analyser was called. */
    var calls: nat

    constructor (analyse: Analyser, sampleSize: nat)
      ensures this.analyse == analyse && this.sampleSize == sampleSize && calls == 0
    {
      this.analyse, this.sampleSize, calls := analyse, sampleSize, 0;
    }

    /** One column over the sampled rows; a failing analyser stops the scan. */
    method ScanColumn(table: string, column: string, strategy: string, sample: seq<Row>)
      returns (result: Result<ColumnResult, ScanUnavailable>)
      modifies this
      ensures result.Ok? <==> ColumnScannable(sample, column, strategy, analyse)
      ensures result.Ok? ==> result.value == ReportOf(table, column, strategy, sample, analyse)
      ensures result.Ok? ==>
        && result.value.violations == Count(sample, (r: Row) => FlawsOf(strategy, Get(r, column), analyse) != {})
        && (forall e :: e in result.value.types <==>
             exists r :: r in sample && e in FlawsOf(strategy, Get(r, column), analyse))
      ensures calls >= old(calls)
      ensures calls == old(calls) <==> ColumnUnread(sample, column, strategy, analyse)
    {
      hide ScanCell, FlawsOf, Get;
      var violations := 0;
      var types: set<string> := {};
      var violates := (r: Row) => ScanCell(strategy, Get(r, column), analyse).entities != {};
      for i := 0 to |sample|
        invariant violations == Count(sample[..i], violates)
        invariant types == EntitiesOf(sample[..i], column, strategy, analyse)
        invariant ColumnScannable(sample[..i], column, strategy, analyse)
        invariant calls >= old(calls)
        invariant calls == old(calls) <==> ColumnUnread(sample[..i], column, strategy, analyse)
      {
        assert sample[..i + 1] == sample[..i] + [sample[i]];
        assert sample[..i + 1][..i] == sample[..i];
        CountAppend(sample[..i], [sample[i]], violates);
        var scan := ScanCell(strategy, Get(sample[i], column), analyse);
        if scan.asked {
          calls := calls + 1;
        }
        if scan.failed {
          FailedIsAsked(strategy, Get(sample[i], column), analyse);
          return Err(ScanUnavailable);
        }
        if scan.entities != {} {
          violations := violations + 1;
          types := types + scan.entities;
        }
      }
      assert sample[..|sample|] == sample;
      hide ColumnScannable, ColumnUnread, EntitiesOf, Count;
      ReportMeaning(table, column, strategy, sample, analyse);
      result := Ok(ColumnResult(table, column, |sample|, violations, types));
    }

    /** The sensitive columns of one table, in any order. It fails iff the analyser fails on one of their cells. */
    method ScanTable(table: string, columns: set<string>, sample: seq<Row>,
                     classifications: map<string, string>, strategies: map<string, string>)
      returns (violating: nat, results: seq<ColumnResult>, failed: bool)
      modifies this
      ensures !failed ==>
        && DescribesTable(results, table, columns, sample, classifications, strategies, analyse)
        && violating == Count(results, HasViolations)
      ensures !failed <==> TableScannable(table, columns, sample, classifications, strategies, analyse)
      ensures (forall c :: c in columns && IsScanned(ClassOf(classifications, Qualified(table, c))) ==>
                ColumnUnread(sample, c, StrategyFor(strategies, Qualified(table, c)), analyse))
              ==> calls == old(calls)
    {
      hide IsScanned, ColumnScannable, ColumnUnread, ReportOf, DescribesTable;
      violating, results, failed := 0, [], false;
      DescribeNone(table, sample, classifications, strategies, analyse);
      var todo := columns;
      assert columns - todo == {};
      while todo != {}
        invariant todo <= columns
        invariant DescribesTable(results, table, columns - todo, sample, classifications, strategies, analyse)
        invariant violating == Count(results, HasViolations)
        invariant TableScannable(table, columns - todo, sample, classifications, strategies, analyse)
        invariant (forall c :: c in columns && IsScanned(ClassOf(classifications, Qualified(table, c))) ==>
                    ColumnUnread(sample, c, StrategyFor(strategies, Qualified(table, c)), analyse))
                  ==> calls == old(calls)
        decreases |todo|
      {
        var column :| column in todo;
        assert columns - (todo - {column}) == (columns - todo) + {column};
        DescribeOne(results, table, columns - todo, sample, classifications, strategies, analyse, column);
        todo := todo - {column};
        if IsScanned(ClassOf(classifications, Qualified(table, column))) {
          var strategy := StrategyFor(strategies, Qualified(table, column));
          var scan := ScanColumn(table, column, strategy, sample);
          if scan.Err? {
            failed := true;
            return;
          }
          CountAppend(results, [scan.value], HasViolations);
          results := results + [scan.value];
          if scan.value.violations > 0 {
            violating := violating + 1;
          }
        }
      }
      assert columns - todo == columns;
    }

    /**
     * All tables, the sensitive columns of each table's first row, any sample: one report per such column, and a pass
     * iff none is found wanting. There is a result iff the analyser answers for every sampled sensitive cell it is
     * asked about. When every such cell is in order by its format, the scan passes and the analyser is never called.
     */
    method Validate(dataset: Dataset, classifications: map<string, string>, strategies: map<string, string>)
      returns (result: Result<ScanResult, ScanUnavailable>, ghost samples: map<string, seq<Row>>)
      modifies this
      ensures samples.Keys <= dataset.Keys
      ensures forall t :: t in samples ==> dataset[t] != [] && IsSample(samples[t], dataset[t], sampleSize)
      ensures result.Ok? ==> forall t :: t in dataset && dataset[t] != [] ==> t in samples
      ensures result.Ok? ==> DescribesScan(result.value, dataset, samples, classifications, strategies, analyse)
      ensures result.Ok? ==> (Passed(result.value) <==> forall t :: t in samples ==>
        TableClean(t, dataset[t][0].Keys, samples[t], classifications, strategies, analyse))
      ensures result.Ok? <==> forall t :: t in samples ==>
        TableScannable(t, dataset[t][0].Keys, samples[t], classifications, strategies, analyse)
      ensures CleanByFormat(dataset, classifications, strategies) ==>
        result.Ok? && Passed(result.value) && calls == old(calls)
      ensures result.Ok? && Passed(result.value) <==> forall t :: t in samples ==>
        TablePasses(t, dataset[t][0].Keys, samples[t], classifications, strategies, analyse)
      ensures (forall t :: t in dataset ==> |dataset[t]| <= sampleSize) ==>
        (result.Ok? && Passed(result.value) <==> DatasetClean(dataset, classifications, strategies, analyse))
    {
      hide IsScanned, ColumnScannable, ColumnUnread, CleanByFormat, IsSample, TableClean, TableScannable;
      hide DatasetClean, TablePasses;
      hide DescribesTable, DescribesScan, Count, HasViolations;
      samples := map[];
      var scan := ScanResult(0, 0, 0, []);
      DescribesNothing(dataset, classifications, strategies, analyse);
      var pending := dataset.Keys;
      while pending != {}
        invariant pending <= dataset.Keys && samples.Keys <= dataset.Keys - pending
        invariant forall t :: t in samples ==> dataset[t] != [] && IsSample(samples[t], dataset[t], sampleSize)
        invariant forall t :: t in dataset && t !in pending && dataset[t] != [] ==> t in samples
        invariant DescribesScan(scan, dataset, samples, classifications, strategies, analyse)
        invariant Passed(scan) <==> forall t :: t in samples ==>
          TableClean(t, dataset[t][0].Keys, samples[t], classifications, strategies, analyse)
        invariant forall t :: t in samples ==>
          TableScannable(t, dataset[t][0].Keys, samples[t], classifications, strategies, analyse)
        invariant CleanByFormat(dataset, classifications, strategies) ==> Passed(scan) && calls == old(calls)
        decreases |pending|
      {
        var table :| table in pending;
        pending := pending - {table};
        var rows := dataset[table];
        if rows == [] {
          continue;
        }
        var sample := PickSample(rows, sampleSize);
        ghost var before := samples;
        samples := samples[table := sample];
        if CleanByFormat(dataset, classifications, strategies) {
          CleanTable(dataset, classifications, strategies, table, sample, sampleSize, analyse);
        }
        var violating, results, failed := ScanTable(table, rows[0].Keys, sample, classifications, strategies);
        if failed {
          TableVerdict(table, rows[0].Keys, sample, classifications, strategies, analyse);
          WholeTableUnscannable(dataset, table, sample, sampleSize, classifications, strategies, analyse);
          return Err(ScanUnavailable), samples;
        }
        assert forall t :: t in before ==> samples[t] == before[t];
        DescribedClean(results, table, rows[0].Keys, sample, classifications, strategies, analyse);
        DescribeTable(scan, dataset, before, classifications, strategies, analyse, table, sample, results);
        scan := AddTable(scan, sample, violating, results);
      }
      forall t | t in samples {
        TableVerdict(t, dataset[t][0].Keys, samples[t], classifications, strategies, analyse);
      }
      WholeTablesScanned(dataset, samples, sampleSize, classifications, strategies, analyse);
      result := Ok(scan);
    }
  }

  /** The totals with one more table. */
  function AddTable(scan: ScanResult, sample: seq<Row>, violating: nat, results: seq<ColumnResult>): ScanResult {
    ScanResult(scan.tablesScanned + 1, scan.rowsSampled + |sample|, scan.violations + violating, scan.columns + results)
  }

  function ReportsOn(columns: seq<ColumnResult>, table: string): seq<ColumnResult> {
    Filter(columns, (r: ColumnResult) => r.table == table)
  }

  ghost predicate TotalsFit(scan: ScanResult, samples: map<string, seq<Row>>) {
    && scan.tablesScanned == |samples| && scan.rowsSampled == TotalRows(samples)
    && scan.violations == Count(scan.columns, HasViolations)
  }

  /** The reports on one table are those due. */
  ghost predicate TableReported(
    columns: seq<ColumnResult>, dataset: Dataset, table: string, sample: seq<Row>,
    classifications: map<string, string>, strategies: map<string, string>, analyse: Analyser)
  {
    && table in dataset && dataset[table] != []
    && DescribesTable(ReportsOn(columns, table), table, dataset[table][0].Keys, sample, classifications, strategies,
                      analyse)
  }

  ghost predicate ReportsFit(
    columns: seq<ColumnResult>, dataset: Dataset, samples: map<string, seq<Row>>,
    classifications: map<string, string>, strategies: map<string, string>, analyse: Analyser)
  {
    && (forall r :: r in columns ==> r.table in samples)
    && (forall t :: t in samples ==>
         TableReported(columns, dataset, t, samples[t], classifications, strategies, analyse))
  }

  /** The totals fit the samples, and the reports fall into those of the sampled tables. */
  ghost predicate DescribesScan(
    scan: ScanResult, dataset: Dataset, samples: map<string, seq<Row>>,
    classifications: map<string, string>, strategies: map<string, string>, analyse: Analyser)
  {
    && TotalsFit(scan, samples)
    && ReportsFit(scan.columns, dataset, samples, classifications, strategies, analyse)
  }

  lemma RowsNeedTables(samples: map<string, seq<Row>>)
    ensures TotalRows(samples) > 0 ==> exists t :: t in samples
  {
    var all := set t, i | t in samples && 0 <= i < |samples[t]| :: (t, i);
    if all != {} {
      var x :| x in all;
      assert x.0 in samples;
    }
  }

  lemma DescribesNothing(dataset: Dataset, classifications: map<string, string>, strategies: map<string, string>,
                         analyse: Analyser)
    ensures DescribesScan(ScanResult(0, 0, 0, []), dataset, map[], classifications, strategies, analyse)
  {
    RowsNeedTables(map[]);
  }

  lemma {:induction false} ReportsOnSame(columns: seq<ColumnResult>, table: string)
    ensures (forall r :: r in columns ==> r.table == table) ==> ReportsOn(columns, table) == columns
    ensures (forall r :: r in columns ==> r.table != table) ==> ReportsOn(columns, table) == []
  {
    if columns != [] {
      ReportsOnSame(columns[1..], table);
      assert forall r :: r in columns <==> r == columns[0] || r in columns[1..];
      assert columns == [columns[0]] + columns[1..];
    }
  }

  lemma ReportsOnAppend(columns: seq<ColumnResult>, results: seq<ColumnResult>, table: string, t: string)
    requires forall r :: r in columns ==> r.table != table
    requires forall r :: r in results ==> r.table == table
    ensures ReportsOn(columns + results, t) == if t == table then results else ReportsOn(columns, t)
  {
    FilterAppend(columns, results, (r: ColumnResult) => r.table == t);
    ReportsOnSame(results, t);
    ReportsOnSame(columns, t);
    assert ReportsOn(columns, t) + [] == ReportsOn(columns, t) && [] + results == results;
  }

  lemma DescribedNames(
    results: seq<ColumnResult>, table: string, columns: set<string>, sample: seq<Row>,
    classifications: map<string, string>, strategies: map<string, string>, analyse: Analyser)
    requires DescribesTable(results, table, columns, sample, classifications, strategies, analyse)
    ensures forall r :: r in results ==> r.table == table
  {
    hide ScannedOf;
  }

  lemma DescribeTable(
    scan: ScanResult, dataset: Dataset, samples: map<string, seq<Row>>,
    classifications: map<string, string>, strategies: map<string, string>, analyse: Analyser,
    table: string, sample: seq<Row>, results: seq<ColumnResult>)
    requires DescribesScan(scan, dataset, samples, classifications, strategies, analyse)
    requires table in dataset && dataset[table] != [] && table !in samples
    requires DescribesTable(results, table, dataset[table][0].Keys, sample, classifications, strategies, analyse)
    ensures DescribesScan(AddTable(scan, sample, Count(results, HasViolations), results),
                          dataset, samples[table := sample], classifications, strategies, analyse)
  {
    hide DescribesTable, ReportsFit, Count, HasViolations, TotalRows;
    TotalRowsAdd(samples, table, sample);
    CountAppend(scan.columns, results, HasViolations);
    AddReports(scan.columns, dataset, samples, classifications, strategies, analyse, table, sample, results);
  }

  lemma AddReports(
    columns: seq<ColumnResult>, dataset: Dataset, samples: map<string, seq<Row>>,
    classifications: map<string, string>, strategies: map<string, string>, analyse: Analyser,
    table: string, sample: seq<Row>, results: seq<ColumnResult>)
    requires ReportsFit(columns, dataset, samples, classifications, strategies, analyse)
    requires table in dataset && dataset[table] != [] && table !in samples
    requires DescribesTable(results, table, dataset[table][0].Keys, sample, classifications, strategies, analyse)
    ensures ReportsFit(columns + results, dataset, samples[table := sample], classifications, strategies, analyse)
  {
    DescribedNames(results, table, dataset[table][0].Keys, sample, classifications, strategies, analyse);
    TablesOfBoth(columns, results, samples.Keys, table);
    ReportsOnAppend(columns, results, table, table);
    var samples' := samples[table := sample];
    assert samples'.Keys == samples.Keys + {table};
    assert TableReported(columns + results, dataset, table, sample, classifications, strategies, analyse);
    hide TableReported;
    forall t | t in samples
      ensures TableReported(columns + results, dataset, t, samples[t], classifications, strategies, analyse)
    {
      ReportedStays(columns, dataset, t, samples[t], classifications, strategies, analyse, table, results);
    }
  }

  lemma ReportedStays(
    columns: seq<ColumnResult>, dataset: Dataset, t: string, sample: seq<Row>,
    classifications: map<string, string>, strategies: map<string, string>, analyse: Analyser,
    table: string, results: seq<ColumnResult>)
    requires TableReported(columns, dataset, t, sample, classifications, strategies, analyse) && t != table
    requires forall r :: r in columns ==> r.table != table
    requires forall r :: r in results ==> r.table == table
    ensures TableReported(columns + results, dataset, t, sample, classifications, strategies, analyse)
  {
    ReportsOnAppend(columns, results, table, t);
    hide DescribesTable, ReportsOn;
  }

  lemma TablesOfBoth(columns: seq<ColumnResult>, results: seq<ColumnResult>, tables: set<string>, table: string)
    requires forall r :: r in columns ==> r.table in tables
    requires forall r :: r in results ==> r.table == table
    ensures forall r :: r in columns + results ==> r.table in tables + {table}
  {
  }

  lemma DescribeNone(table: string, sample: seq<Row>, classifications: map<string, string>,
                     strategies: map<string, string>, analyse: Analyser)
    ensures DescribesTable([], table, {}, sample, classifications, strategies, analyse)
  {
    assert ScannedOf(table, {}, classifications) == {};
  }

  /** No sensitive column of the table is found wanting in the sample. */
  ghost predicate TableClean(table: string, columns: set<string>, sample: seq<Row>,
                             classifications: map<string, string>, strategies: map<string, string>, analyse: Analyser)
  {
    forall c :: c in columns && IsScanned(ClassOf(classifications, Qualified(table, c))) ==>
      ColumnClean(sample, c, StrategyFor(strategies, Qualified(table, c)), analyse)
  }

  /** The analyser answers for every cell of the table's sensitive columns for which it is asked. */
  ghost predicate TableScannable(
    table: string, columns: set<string>, sample: seq<Row>, classifications: map<string, string>,
    strategies: map<string, string>, analyse: Analyser)
  {
    forall c :: c in columns && IsScanned(ClassOf(classifications, Qualified(table, c))) ==>
      ColumnScannable(sample, c, StrategyFor(strategies, Qualified(table, c)), analyse)
  }

  /** Every sampled cell of a sensitive column passes. */
  ghost predicate TablePasses(
    table: string, columns: set<string>, sample: seq<Row>, classifications: map<string, string>,
    strategies: map<string, string>, analyse: Analyser)
  {
    forall c, r | c in columns && IsScanned(ClassOf(classifications, Qualified(table, c))) && r in sample ::
      CellPasses(StrategyFor(strategies, Qualified(table, c)), Get(r, c), analyse)
  }

  lemma TableVerdict(table: string, columns: set<string>, sample: seq<Row>, classifications: map<string, string>,
                     strategies: map<string, string>, analyse: Analyser)
    ensures TableClean(table, columns, sample, classifications, strategies, analyse)
            && TableScannable(table, columns, sample, classifications, strategies, analyse) <==>
              TablePasses(table, columns, sample, classifications, strategies, analyse)
  {
    hide IsScanned, ScanCell, CellPasses, StrategyFor;
    forall c, r ensures
      var strategy := StrategyFor(strategies, Qualified(table, c));
      var scan := ScanCell(strategy, Get(r, c), analyse);
      !scan.failed && scan.entities == {} <==> CellPasses(strategy, Get(r, c), analyse)
    {
      CellVerdict(StrategyFor(strategies, Qualified(table, c)), Get(r, c), analyse);
    }
  }

  /** Every cell of every sensitive column of a table's first row can be scanned and is clean. */
  ghost predicate DatasetClean(dataset: Dataset, classifications: map<string, string>, strategies: map<string, string>,
                               analyse: Analyser)
  {
    forall t :: t in dataset && dataset[t] != [] ==>
      && TableClean(t, dataset[t][0].Keys, dataset[t], classifications, strategies, analyse)
      && TableScannable(t, dataset[t][0].Keys, dataset[t], classifications, strategies, analyse)
  }

  /** A table no larger than the sample is scanned whole. */
  lemma SmallTableIsScannedWhole(
    table: string, columns: set<string>, sample: seq<Row>, rows: seq<Row>, size: nat,
    classifications: map<string, string>, strategies: map<string, string>, analyse: Analyser)
    requires IsSample(sample, rows, size) && |rows| <= size
    ensures TableClean(table, columns, sample, classifications, strategies, analyse)
         == TableClean(table, columns, rows, classifications, strategies, analyse)
    ensures TableScannable(table, columns, sample, classifications, strategies, analyse)
         == TableScannable(table, columns, rows, classifications, strategies, analyse)
  {
    WholeSample(sample, rows, size);
    hide IsScanned, ScanCell, StrategyFor, IsSample;
    forall c, strategy
      ensures ColumnClean(sample, c, strategy, analyse) == ColumnClean(rows, c, strategy, analyse)
      ensures ColumnScannable(sample, c, strategy, analyse) == ColumnScannable(rows, c, strategy, analyse)
    {
    }
    hide ColumnClean, ColumnScannable;
  }

  lemma WholeSample(sample: seq<Row>, rows: seq<Row>, size: nat)
    requires IsSample(sample, rows, size) && |rows| <= size
    ensures forall r :: r in sample <==> r in rows
  {
    SampleMembers(sample, rows, size);
    var rest := multiset(rows) - multiset(sample);
    assert multiset(rows) == multiset(sample) + rest;
    assert |multiset(rows)| == |rows| && |multiset(sample)| == |sample|;
    assert rest == multiset{};
    forall r | r in rows ensures r in sample {
      assert r in multiset(rows);
      assert r in multiset(sample);
    }
  }

  lemma WholeTablesScanned(
    dataset: Dataset, samples: map<string, seq<Row>>, size: nat, classifications: map<string, string>,
    strategies: map<string, string>, analyse: Analyser)
    requires forall t :: t in samples ==> t in dataset && dataset[t] != [] && IsSample(samples[t], dataset[t], size)
    requires forall t :: t in dataset && dataset[t] != [] ==> t in samples
    requires forall t :: t in samples ==>
      TableScannable(t, dataset[t][0].Keys, samples[t], classifications, strategies, analyse)
    ensures (forall t :: t in dataset ==> |dataset[t]| <= size) ==> (
      DatasetClean(dataset, classifications, strategies, analyse) <==> forall t :: t in samples ==>
        TableClean(t, dataset[t][0].Keys, samples[t], classifications, strategies, analyse))
  {
    hide TableClean, TableScannable, IsSample;
    forall t | t in samples && |dataset[t]| <= size
      ensures TableClean(t, dataset[t][0].Keys, samples[t], classifications, strategies, analyse)
           == TableClean(t, dataset[t][0].Keys, dataset[t], classifications, strategies, analyse)
      ensures TableScannable(t, dataset[t][0].Keys, samples[t], classifications, strategies, analyse)
           == TableScannable(t, dataset[t][0].Keys, dataset[t], classifications, strategies, analyse)
    {
      SmallTableIsScannedWhole(t, dataset[t][0].Keys, samples[t], dataset[t], size, classifications, strategies,
                               analyse);
    }
  }

  lemma WholeTableUnscannable(
    dataset: Dataset, table: string, sample: seq<Row>, size: nat, classifications: map<string, string>,
    strategies: map<string, string>, analyse: Analyser)
    requires table in dataset && dataset[table] != [] && IsSample(sample, dataset[table], size)
    requires !TableScannable(table, dataset[table][0].Keys, sample, classifications, strategies, analyse)
    ensures |dataset[table]| <= size ==> !DatasetClean(dataset, classifications, strategies, analyse)
  {
    hide TableClean, TableScannable, IsSample;
    if |dataset[table]| <= size {
      SmallTableIsScannedWhole(table, dataset[table][0].Keys, sample, dataset[table], size, classifications,
                               strategies, analyse);
    }
  }

  /** Two lists of rows that agree in the columns of the first row. */
  predicate AgreeOnFirstRow(rows: seq<Row>, others: seq<Row>) {
    && |rows| == |others| && rows != [] && others[0].Keys == rows[0].Keys
    && forall i, c :: 0 <= i < |rows| && c in rows[0] ==> Get(rows[i], c) == Get(others[i], c)
  }

  lemma ColumnsAgree(rows: seq<Row>, others: seq<Row>, c: string, strategy: string, analyse: Analyser)
    requires AgreeOnFirstRow(rows, others) && c in rows[0]
    ensures ColumnClean(rows, c, strategy, analyse) == ColumnClean(others, c, strategy, analyse)
    ensures ColumnScannable(rows, c, strategy, analyse) == ColumnScannable(others, c, strategy, analyse)
  {
    hide ScanCell, Get;
    forall i | 0 <= i < |rows| ensures rows[i] in rows && others[i] in others && Get(rows[i], c) == Get(others[i], c) {
    }
  }

  /** Columns that the first row lacks are never looked at: whatever later rows hold there, the verdict is the same. */
  lemma FirstRowDecides(
    table: string, rows: seq<Row>, others: seq<Row>, classifications: map<string, string>,
    strategies: map<string, string>, analyse: Analyser)
    requires |rows| == |others| && rows != [] && others[0].Keys == rows[0].Keys
    requires forall i, c :: 0 <= i < |rows| && c in rows[0] ==> Get(rows[i], c) == Get(others[i], c)
    ensures TableClean(table, rows[0].Keys, rows, classifications, strategies, analyse)
         == TableClean(table, others[0].Keys, others, classifications, strategies, analyse)
    ensures TableScannable(table, rows[0].Keys, rows, classifications, strategies, analyse)
         == TableScannable(table, others[0].Keys, others, classifications, strategies, analyse)
  {
    assert AgreeOnFirstRow(rows, others) && others != [];
    hide IsScanned, ColumnClean, ColumnScannable, AgreeOnFirstRow, StrategyFor;
    forall c, strategy | c in rows[0]
      ensures ColumnClean(rows, c, strategy, analyse) == ColumnClean(others, c, strategy, analyse)
      ensures ColumnScannable(rows, c, strategy, analyse) == ColumnScannable(others, c, strategy, analyse)
    {
      ColumnsAgree(rows, others, c, strategy, analyse);
    }
  }

  /** A value of a sensitive column goes unseen, whatever it is, when the first row does not have the column. */
  lemma LateColumnEscapes(v: Value, analyse: Analyser)
    ensures var classifications, strategies := map["t.b" := "confidential"], map["t.b" := "redact"];
            IsScanned(ClassOf(classifications, Qualified("t", "b"))) &&
            DatasetClean(map["t" := [map["a" := Absent], map["a" := Absent, "b" := v]]], classifications, strategies,
                         analyse)
  {
    var classifications := map["t.b" := "confidential"];
    assert Qualified("t", "b") == "t.b" && Qualified("t", "a") == "t.a";
    EmptyIsNotScanned();
    ConfidentialIsScanned();
    hide IsScanned;
    assert ClassOf(classifications, "t.a") == "" && ClassOf(classifications, "t.b") == "confidential";
  }

  lemma EmptyIsNotScanned()
    ensures !IsScanned("")
  {
    assert |Lower("")| == 0;
  }

  lemma ConfidentialIsScanned()
    ensures IsScanned("confidential")
  {
  }

  ghost predicate TableCleanByFormat(
    table: string, columns: set<string>, sample: seq<Row>, classifications: map<string, string>,
    strategies: map<string, string>)
  {
    forall c, r | c in columns && IsScanned(ClassOf(classifications, Qualified(table, c))) && r in sample ::
      CellCleanByFormat(StrategyFor(strategies, Qualified(table, c)), Get(r, c))
  }

  lemma OutageCell(strategy: string, v: Value, analyse: Analyser)
    requires forall text :: analyse(text) == None
    ensures var scan := ScanCell(strategy, v, analyse);
            !scan.failed && scan.entities == {} <==> CellCleanByFormat(strategy, v)
  {
    hide IsValidToken, Strip;
  }

  /** While the analyser is down, a table passes only on the strength of its formats. */
  lemma OutagePassesOnFormatOnly(
    table: string, columns: set<string>, sample: seq<Row>, classifications: map<string, string>,
    strategies: map<string, string>, analyse: Analyser)
    requires forall text :: analyse(text) == None
    ensures TableScannable(table, columns, sample, classifications, strategies, analyse)
            && TableClean(table, columns, sample, classifications, strategies, analyse) <==>
              TableCleanByFormat(table, columns, sample, classifications, strategies)
  {
    hide IsScanned, ScanCell, CellCleanByFormat, StrategyFor;
    forall c, r ensures
      var strategy := StrategyFor(strategies, Qualified(table, c));
      var scan := ScanCell(strategy, Get(r, c), analyse);
      !scan.failed && scan.entities == {} <==> CellCleanByFormat(strategy, Get(r, c))
    {
      OutageCell(StrategyFor(strategies, Qualified(table, c)), Get(r, c), analyse);
    }
  }

  lemma CleanTable(dataset: Dataset, classifications: map<string, string>, strategies: map<string, string>,
                   table: string, sample: seq<Row>, size: nat, analyse: Analyser)
    requires CleanByFormat(dataset, classifications, strategies)
    requires table in dataset && dataset[table] != [] && IsSample(sample, dataset[table], size)
    ensures TableClean(table, dataset[table][0].Keys, sample, classifications, strategies, analyse)
    ensures TableScannable(table, dataset[table][0].Keys, sample, classifications, strategies, analyse)
    ensures forall c :: c in dataset[table][0] && IsScanned(ClassOf(classifications, Qualified(table, c))) ==>
      ColumnUnread(sample, c, StrategyFor(strategies, Qualified(table, c)), analyse)
  {
    hide IsScanned, ScanCell, CellCleanByFormat;
    SampleMembers(sample, dataset[table], size);
    forall c, r | IsScanned(ClassOf(classifications, Qualified(table, c))) && r in sample
      ensures ScanCell(StrategyFor(strategies, Qualified(table, c)), Get(r, c), analyse) == CLEAN
    {
      var i :| 0 <= i < |dataset[table]| && dataset[table][i] == r;
      CleanByFormatMeansUnread(StrategyFor(strategies, Qualified(table, c)), Get(dataset[table][i], c), analyse);
    }
  }

  lemma FailedIsAsked(strategy: string, v: Value, analyse: Analyser)
    ensures ScanCell(strategy, v, analyse).failed ==> ScanCell(strategy, v, analyse).asked
  {
  }
}
