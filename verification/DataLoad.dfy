/** The atomic load of tools/data_load.py: stage every table, then swap, or drop what was staged. */
module DataLoad {
  import opened Common

  type Rows = seq<map<string, string>>

  function StagingName(table: string): string {
    "__staging_" + table
  }

  lemma StagingNameInjective(a: string, b: string)
    requires StagingName(a) == StagingName(b)
    ensures a == b
  {
    assert a == StagingName(a)[|"__staging_"|..] && b == StagingName(b)[|"__staging_"|..];
  }

  /** The staging names a load of these tables uses. */
  function StagingNames(tables: set<string>): set<string> {
    set t | t in tables :: StagingName(t)
  }

  class SimulatedTargetStore {
    var tables: map<string, Rows>
    var staging: map<string, Rows>

    constructor ()
      ensures tables == map[] && staging == map[]
    {
      tables, staging := map[], map[];
    }

    method CreateStaging(table: string, rows: Rows) returns (name: string)
      modifies `staging
      ensures name == StagingName(table) && staging == old(staging)[name := rows]
    {
      name := StagingName(table);
      staging := staging[name := rows];
    }

    /** Fails, without effect, when the staging table is not there. */
    method SwapStaging(table: string, name: string) returns (ok: bool)
      modifies this
      ensures ok <==> name in old(staging)
      ensures !ok ==> tables == old(tables) && staging == old(staging)
      ensures ok ==> tables == old(tables)[table := old(staging)[name]] && staging == old(staging) - {name}
    {
      if name !in staging {
        return false;
      }
      tables := tables[table := staging[name]];
      staging := staging - {name};
      return true;
    }

    method DropStaging(name: string)
      modifies `staging
      ensures staging == old(staging) - {name}
    {
      staging := staging - {name};
    }
  }

  lemma StagingNamesAdd(tables: set<string>, table: string)
    ensures StagingNames(tables + {table}) == StagingNames(tables) + {StagingName(table)}
    ensures StagingName(table) in StagingNames(tables) <==> table in tables
  {
    if StagingName(table) in StagingNames(tables) {
      var t :| t in tables && StagingName(t) == StagingName(table);
      StagingNameInjective(t, table);
    }
  }

  /** The record of the staged tables gives each its staging name. */
  predicate IsRecord(staged: map<string, string>) {
    forall t :: t in staged ==> staged[t] == StagingName(t)
  }

  lemma RecordOne(staged: map<string, string>, table: string)
    requires IsRecord(staged)
    ensures IsRecord(staged[table := StagingName(table)])
  {
  }

  /** Every table of `staged` waits under its staging name. */
  predicate AllStaged(staging: map<string, Rows>, staged: set<string>, dataset: map<string, Rows>)
    requires staged <= dataset.Keys
  {
    forall t :: t in staged ==> StagingName(t) in staging && staging[StagingName(t)] == dataset[t]
  }

  /** Besides the names of the staged tables, the staging area is as it was before. */
  predicate StagedFrom(before: map<string, Rows>, staging: map<string, Rows>, staged: set<string>,
                       dataset: map<string, Rows>)
  {
    && staged <= dataset.Keys && AllStaged(staging, staged, dataset)
    && staging - StagingNames(staged) == before - StagingNames(staged)
  }

  lemma StageOne(before: map<string, Rows>, staging: map<string, Rows>, staged: set<string>,
                 dataset: map<string, Rows>, table: string)
    requires StagedFrom(before, staging, staged, dataset) && table in dataset && table !in staged
    ensures StagedFrom(before, staging[StagingName(table) := dataset[table]], staged + {table}, dataset)
  {
    StagingNamesAdd(staged, table);
    var staging' := staging[StagingName(table) := dataset[table]];
    var names := StagingNames(staged);
    assert forall t :: t in staged ==> StagingName(t) in names;
    assert staging' - (names + {StagingName(table)}) == (staging - names) - {StagingName(table)};
    assert before - (names + {StagingName(table)}) == (before - names) - {StagingName(table)};
  }

  lemma NothingStaged(staging: map<string, Rows>, dataset: map<string, Rows>)
    ensures StagedFrom(staging, staging, {}, dataset)
  {
  }

  /** Where staging may go wrong: the rows cannot be listed and no entry comes about, or just after it is on record. */
  datatype Fault = Nowhere | OnCreating | AfterCreating

  /** What happens to each table; `simulate_failure` is one table with `AfterCreating`. */
  type Faults = string -> Fault

  /** The tables staged are those on record; the one that failed is on record iff it failed only afterwards. */
  predicate StoppedAt(staged: set<string>, failed: string, dataset: map<string, Rows>, faults: Faults) {
    && staged <= dataset.Keys && failed in dataset && faults(failed) != Nowhere
    && (failed in staged <==> faults(failed) == AfterCreating)
    && forall t :: t in staged && t != failed ==> faults(t) == Nowhere
  }

  /** The tables not pending are staged and on record, and none of them has a fault. */
  ghost predicate StagedSoFar(before: map<string, Rows>, staging: map<string, Rows>, staged: map<string, string>,
                              pending: set<string>, dataset: map<string, Rows>, faults: Faults)
  {
    && pending <= dataset.Keys && staged.Keys == dataset.Keys - pending && IsRecord(staged)
    && StagedFrom(before, staging, staged.Keys, dataset)
    && forall t :: t in staged ==> faults(t) == Nowhere
  }

  lemma StagingStarts(staging: map<string, Rows>, dataset: map<string, Rows>, faults: Faults)
    ensures StagedSoFar(staging, staging, map[], dataset.Keys, dataset, faults)
  {
    NothingStaged(staging, dataset);
    var none: map<string, string> := map[];
    assert none.Keys == {} == dataset.Keys - dataset.Keys;
  }

  /** One more table: it is staged, or the load stops at it. */
  lemma StagingStep(before: map<string, Rows>, staging: map<string, Rows>, staged: map<string, string>,
                    pending: set<string>, dataset: map<string, Rows>, faults: Faults, table: string)
    requires StagedSoFar(before, staging, staged, pending, dataset, faults) && table in pending
    ensures table in dataset
    ensures faults(table) == OnCreating ==>
      StoppedAt(staged.Keys, table, dataset, faults) && StagedFrom(before, staging, staged.Keys, dataset)
    ensures var staging' := staging[StagingName(table) := dataset[table]];
            var staged' := staged[table := StagingName(table)];
            && IsRecord(staged) && IsRecord(staged') && StagedFrom(before, staging', staged'.Keys, dataset)
            && (faults(table) == Nowhere ==>
                 StagedSoFar(before, staging', staged', pending - {table}, dataset, faults))
            && (faults(table) == AfterCreating ==> StoppedAt(staged'.Keys, table, dataset, faults))
  {
    StageOne(before, staging, staged.Keys, dataset, table);
    RecordOne(staged, table);
    hide StagedFrom, IsRecord, StagingName;
    var staged' := staged[table := StagingName(table)];
    assert staged'.Keys == staged.Keys + {table} == dataset.Keys - (pending - {table});
  }

  lemma StagingEnds(before: map<string, Rows>, staging: map<string, Rows>, staged: map<string, string>,
                    dataset: map<string, Rows>, faults: Faults)
    requires StagedSoFar(before, staging, staged, {}, dataset, faults)
    ensures staged.Keys == dataset.Keys && IsRecord(staged) && StagedFrom(before, staging, staged.Keys, dataset)
    ensures forall t :: t in dataset ==> faults(t) == Nowhere
  {
    hide StagedFrom, IsRecord;
    assert dataset.Keys - {} == dataset.Keys;
  }

  /** Stages tables in any order up to the first fault; every name created is on record. */
  method StageAll(store: SimulatedTargetStore, dataset: map<string, Rows>, faults: Faults)
    returns (staged: map<string, string>, ok: bool)
    modifies store`staging
    ensures IsRecord(staged)
    ensures ok <==> forall t :: t in dataset ==> faults(t) == Nowhere
    ensures if ok then staged.Keys == dataset.Keys
            else exists failed :: StoppedAt(staged.Keys, failed, dataset, faults)
    ensures StagedFrom(old(store.staging), store.staging, staged.Keys, dataset)
  {
    hide StagedFrom, StagingName, IsRecord, StagedSoFar;
    staged := map[];
    var pending := dataset.Keys;
    StagingStarts(store.staging, dataset, faults);
    while pending != {}
      invariant StagedSoFar(old(store.staging), store.staging, staged, pending, dataset, faults)
      decreases |pending|
    {
      var table :| table in pending;
      StagingStep(old(store.staging), store.staging, staged, pending, dataset, faults, table);
      if faults(table) == OnCreating {
        return staged, false;
      }
      var name := store.CreateStaging(table, dataset[table]);
      staged := staged[table := name];
      if faults(table) == AfterCreating {
        return staged, false;
      }
      pending := pending - {table};
    }
    StagingEnds(old(store.staging), store.staging, staged, dataset, faults);
    ok := true;
  }

  /** The tables not pending are installed and gone from staging, the others as before. */
  predicate SwappedFrom(tables0: map<string, Rows>, staging0: map<string, Rows>, tables: map<string, Rows>,
                        staging: map<string, Rows>, pending: set<string>, dataset: map<string, Rows>)
  {
    && pending <= dataset.Keys && AllStaged(staging0, dataset.Keys, dataset)
    && tables == tables0 + (map t | t in dataset && t !in pending :: dataset[t])
    && staging == staging0 - StagingNames(dataset.Keys - pending)
  }

  lemma SwapOne(tables0: map<string, Rows>, staging0: map<string, Rows>, tables: map<string, Rows>,
                staging: map<string, Rows>, pending: set<string>, dataset: map<string, Rows>, table: string)
    requires SwappedFrom(tables0, staging0, tables, staging, pending, dataset) && table in pending
    ensures table in dataset && StagingName(table) in staging && staging[StagingName(table)] == dataset[table]
    ensures SwappedFrom(tables0, staging0, tables[table := dataset[table]], staging - {StagingName(table)},
                        pending - {table}, dataset)
  {
    StagingNamesAdd(dataset.Keys - pending, table);
    assert dataset.Keys - (pending - {table}) == (dataset.Keys - pending) + {table};
  }

  lemma SwapEnds(tables0: map<string, Rows>, staging0: map<string, Rows>, tables: map<string, Rows>,
                 staging: map<string, Rows>, dataset: map<string, Rows>)
    requires SwappedFrom(tables0, staging0, tables, staging, {}, dataset)
    ensures tables == tables0 + dataset && staging == staging0 - StagingNames(dataset.Keys)
  {
    assert dataset.Keys - {} == dataset.Keys;
    assert (map t | t in dataset && t !in {} :: dataset[t]) == dataset;
  }

  lemma SwapStarts(tables0: map<string, Rows>, staging0: map<string, Rows>, dataset: map<string, Rows>)
    requires AllStaged(staging0, dataset.Keys, dataset)
    ensures SwappedFrom(tables0, staging0, tables0, staging0, dataset.Keys, dataset)
  {
    assert dataset.Keys - dataset.Keys == {};
  }

  /** Once everything is staged, no swap can fail. */
  method SwapAll(store: SimulatedTargetStore, dataset: map<string, Rows>, staged: map<string, string>)
    returns (ok: bool, loaded: seq<string>)
    requires staged.Keys == dataset.Keys && IsRecord(staged)
    requires AllStaged(store.staging, dataset.Keys, dataset)
    modifies store
    ensures ok
    ensures store.tables == old(store.tables) + dataset
    ensures store.staging == old(store.staging) - StagingNames(dataset.Keys)
    ensures Distinct(loaded) && forall t :: t in loaded <==> t in dataset
  {
    hide AllStaged, StagingName, StagingNames, SwappedFrom;
    ok, loaded := true, [];
    SwapStarts(store.tables, store.staging, dataset);
    var pending := staged.Keys;
    while pending != {} && ok
      invariant pending <= staged.Keys && ok
      invariant Distinct(loaded) && forall t :: t in loaded <==> t in dataset && t !in pending
      invariant SwappedFrom(old(store.tables), old(store.staging), store.tables, store.staging, pending, dataset)
      decreases |pending|
    {
      var table :| table in pending;
      SwapOne(old(store.tables), old(store.staging), store.tables, store.staging, pending, dataset, table);
      ok := store.SwapStaging(table, staged[table]);
      pending := pending - {table};
      if ok {
        loaded := loaded + [table];
      }
    }
    SwapEnds(old(store.tables), old(store.staging), store.tables, store.staging, dataset);
  }

  method DropAll(store: SimulatedTargetStore, staged: map<string, string>)
    requires IsRecord(staged)
    modifies store`staging
    ensures store.staging == old(store.staging) - StagingNames(staged.Keys)
  {
    var pending := staged.Keys;
    while pending != {}
      invariant pending <= staged.Keys
      invariant store.staging == old(store.staging) - StagingNames(staged.Keys - pending)
      decreases |pending|
    {
      var table :| table in pending;
      store.DropStaging(staged[table]);
      assert StagingNames(staged.Keys - (pending - {table})) ==
        StagingNames(staged.Keys - pending) + {StagingName(table)};
      pending := pending - {table};
    }
    assert staged.Keys - pending == staged.Keys;
  }

  lemma StagedFromDrops(before: map<string, Rows>, staging: map<string, Rows>, staged: set<string>,
                        dataset: map<string, Rows>)
    requires StagedFrom(before, staging, staged, dataset)
    ensures staged <= dataset.Keys && AllStaged(staging, staged, dataset)
    ensures staging - StagingNames(staged) == before - StagingNames(staged)
  {
  }

  datatype LoadResult =
    | NoDataset
    | HumanGateRequired
    | LoadFailed
    | Loaded(tables: seq<string>, rowCounts: map<string, nat>)

  predicate IsHex64(token: string) {
    |token| >= 64 && forall c :: c in token ==> '0' <= c <= '9' || 'a' <= c <= 'f'
  }

  /** The token pattern is anchored by `$`, which also matches before one final newline. */
  predicate IsApprovalToken(token: string) {
    IsHex64(token) || (token != "" && token[|token| - 1] == '\n' && IsHex64(token[..|token| - 1]))
  }

  /** A token is 64 or more lower-case hexadecimal digits, with or without a final newline. */
  lemma ApprovalTokens(token: string)
    ensures IsApprovalToken(token) <==> exists digits: string |
        |digits| >= 64 && (forall c :: c in digits ==> c in "0123456789abcdef") ::
        token == digits || token == digits + "\n"
  {
    forall digits: string ensures IsHex64(digits) <==>
      |digits| >= 64 && forall c :: c in digits ==> c in "0123456789abcdef"
    {
      forall c: char { HexDigits(c); }
    }
    hide IsHex64;
    if token != "" && token[|token| - 1] == '\n' {
      assert token == token[..|token| - 1] + "\n";
    }
    if digits: string :| token == digits + "\n" && IsHex64(digits) {
      assert token[..|token| - 1] == digits;
    }
  }

  lemma HexDigits(c: char)
    ensures '0' <= c <= '9' || 'a' <= c <= 'f' <==> c in "0123456789abcdef"
  {
    if '0' <= c <= '9' {
      assert "0123456789abcdef"[c as int - '0' as int] == c;
    } else if 'a' <= c <= 'f' {
      assert "0123456789abcdef"[c as int - 'a' as int + 10] == c;
    }
  }

  /**
   * All or nothing, wherever staging goes wrong. Success installs exactly the given rows; failure leaves every target
   * table as it was; either way no staging entry of this load remains and unrelated entries are untouched.
   */
  method Execute(dataset: map<string, Rows>, classification: string, approvalToken: string,
                 store: SimulatedTargetStore, faults: Faults) returns (result: LoadResult)
    modifies store
    ensures result == NoDataset <==> dataset == map[]
    ensures result == HumanGateRequired <==> (
      && dataset != map[] && (classification == "confidential" || classification == "restricted")
      && !IsApprovalToken(approvalToken))
    ensures result == NoDataset || result == HumanGateRequired ==>
      store.tables == old(store.tables) && store.staging == old(store.staging)
    ensures result == LoadFailed || result.Loaded? ==> (
      result == LoadFailed <==> exists t :: t in dataset && faults(t) != Nowhere)
    ensures result == LoadFailed ==> store.tables == old(store.tables)
    ensures result == LoadFailed ==> exists touched, failed | StoppedAt(touched, failed, dataset, faults) ::
      store.staging == old(store.staging) - StagingNames(touched)
    ensures result.Loaded? ==>
      && store.tables == old(store.tables) + dataset
      && store.staging == old(store.staging) - StagingNames(dataset.Keys)
      && Distinct(result.tables) && (forall t :: t in result.tables <==> t in dataset)
      && result.rowCounts == map t | t in dataset :: |dataset[t]|
  {
    if dataset == map[] {
      return NoDataset;
    }
    if IsSensitive(classification) && !IsApprovalToken(approvalToken) {
      return HumanGateRequired;
    }
    hide StagingNames, AllStaged, StagingName;
    var staged, ok := StageAll(store, dataset, faults);
    StagedFromDrops(old(store.staging), store.staging, staged.Keys, dataset);
    hide StagedFrom;
    var loaded := [];
    if ok {
      ok, loaded := SwapAll(store, dataset, staged);
    }
    if !ok {
      DropAll(store, staged);
      return LoadFailed;
    }
    return Loaded(loaded, map t | t in dataset :: |dataset[t]|);
  }
}
