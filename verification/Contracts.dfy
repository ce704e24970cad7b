/**
 * Contract versions and the hash index beside them: contracts/contract_manager.py, contracts/artifact_integrity.py,
 * contracts/steward_gate.py and contracts/contract_validator.py.
 */
module Contracts {
  import opened Common
  import opened LineageStore

  /** The hexadecimal digest of a text; no property below needs it to be collision-free. */
  type Digest = string -> string

  function HashOf(text: string, digest: Digest): string {
    "sha256:" + digest(text)
  }

  /** An index entry; entries made by `register_hash` carry no version. */
  datatype HashEntry = HashEntry(hash: string, version: Option<int>)

  /** `Zoneless` is a time without time zone: it parses, but comparing it with the clock raises. */
  datatype ReviewTime = NoTime | Unparsable | Zoneless | At(seconds: int)

  /** What the gates read of a parsed contract, which may be an empty dictionary. */
  datatype ContractDoc = EmptyDoc | ContractDoc(steward: string, reviewedAt: ReviewTime)

  const ARTIFACT_TYPES := {"pipeline", "contract", "masking_policy"}

  type HashIndex = map<string, map<string, HashEntry>>

  // ---------------------------------------------------------------------------------------------
  // The version chain
  // ---------------------------------------------------------------------------------------------

  datatype World = World(contracts: seq<ContractVersion>, index: map<string, HashEntry>)

  const EMPTY := World([], map[])

  /** `Register` is `register_hash` for a contract, which writes the same index entry without storing a text. */
  datatype Call =
    | Create(pipelineRef: string, yaml: string)
    | Update(pipelineRef: string, yaml: string)
    | Register(pipelineRef: string, hash: string)

  function StoreVersion(w: World, pipelineRef: string, version: int, yaml: string, digest: Digest): World {
    World(w.contracts + [ContractVersion(pipelineRef, version, yaml, HashOf(yaml, digest))],
          w.index[pipelineRef := HashEntry(HashOf(yaml, digest), Some(version))])
  }

  /** Creation never looks for an existing version; updating without one is an error that changes nothing. */
  function Perform(w: World, c: Call, digest: Digest): World {
    match c
    case Create(p, yaml) => StoreVersion(w, p, 1, yaml, digest)
    case Register(p, hash) => w.(index := w.index[p := HashEntry(hash, None)])
    case Update(p, yaml) =>
      match LatestOf(w.contracts, p)
      case None => w
      case Some(latest) => StoreVersion(w, p, latest.version + 1, yaml, digest)
  }

  function After(calls: seq<Call>, digest: Digest): World {
    if calls == [] then EMPTY else Perform(After(calls[..|calls| - 1], digest), calls[|calls| - 1], digest)
  }

  function StoredFor(contracts: seq<ContractVersion>, pipelineRef: string): seq<ContractVersion> {
    Filter(contracts, (c: ContractVersion) => c.pipelineRef == pipelineRef)
  }

  /** The call stores a text for the pipeline; updates of a pipeline never created store nothing. */
  predicate GivesText(c: Call, pipelineRef: string, created: bool) {
    c.pipelineRef == pipelineRef && (c.Create? || (c.Update? && created))
  }

  /** The texts the pipeline was given, from its first creation on. */
  function Texts(calls: seq<Call>, pipelineRef: string): seq<string> {
    if calls == [] then []
    else
      var before, last := Texts(calls[..|calls| - 1], pipelineRef), calls[|calls| - 1];
      if GivesText(last, pipelineRef, before != []) then before + [last.yaml] else before
  }

  /** The hash registered for the pipeline since its last text, if any. */
  function Registered(calls: seq<Call>, pipelineRef: string): Option<string> {
    if calls == [] then None
    else
      var before, last := calls[..|calls| - 1], calls[|calls| - 1];
      if last.Register? && last.pipelineRef == pipelineRef then Some(last.hash)
      else if GivesText(last, pipelineRef, Texts(before, pipelineRef) != []) then None
      else Registered(before, pipelineRef)
  }

  function Creations(calls: seq<Call>, pipelineRef: string): nat {
    Count(calls, (c: Call) => c.Create? && c.pipelineRef == pipelineRef)
  }

  /** Versions 1, 2, 3, ... of the texts, in order. */
  function Chain(texts: seq<string>, pipelineRef: string, digest: Digest): seq<ContractVersion> {
    seq(|texts|, i requires 0 <= i < |texts| =>
      ContractVersion(pipelineRef, i + 1, texts[i], HashOf(texts[i], digest)))
  }

  lemma SortingChain(texts: seq<string>, pipelineRef: string, digest: Digest)
    ensures SortBy(Chain(texts, pipelineRef, digest), (c: ContractVersion) => c.version)
         == Chain(texts, pipelineRef, digest)
  {
    SortByIdentity(Chain(texts, pipelineRef, digest), (c: ContractVersion) => c.version);
  }

  lemma StoreVersionFilter(w: World, p: string, version: int, yaml: string, digest: Digest, pipelineRef: string)
    ensures StoredFor(StoreVersion(w, p, version, yaml, digest).contracts, pipelineRef)
         == StoredFor(w.contracts, pipelineRef)
          + if p == pipelineRef then [ContractVersion(p, version, yaml, HashOf(yaml, digest))] else []
  {
    FilterAppend(w.contracts, [ContractVersion(p, version, yaml, HashOf(yaml, digest))],
                 (c: ContractVersion) => c.pipelineRef == pipelineRef);
  }

  lemma ChainAppend(texts: seq<string>, yaml: string, pipelineRef: string, digest: Digest)
    ensures Chain(texts + [yaml], pipelineRef, digest)
         == Chain(texts, pipelineRef, digest)
          + [ContractVersion(pipelineRef, |texts| + 1, yaml, HashOf(yaml, digest))]
  {
  }

  lemma CreationsStep(calls: seq<Call>, pipelineRef: string)
    requires calls != []
    ensures var last := calls[|calls| - 1];
            Creations(calls, pipelineRef) == Creations(calls[..|calls| - 1], pipelineRef)
              + if last.Create? && last.pipelineRef == pipelineRef then 1 else 0
  {
    var last := calls[|calls| - 1];
    assert calls == calls[..|calls| - 1] + [last];
    CountAppend(calls[..|calls| - 1], [last], (c: Call) => c.Create? && c.pipelineRef == pipelineRef);
  }

  /** The index entry of a chain names its last version and that version's hash, until a hash is registered over it. */
  predicate IndexAgrees(w: World, texts: seq<string>, registered: Option<string>, pipelineRef: string, digest: Digest)
  {
    match registered
    case Some(hash) => pipelineRef in w.index && w.index[pipelineRef] == HashEntry(hash, None)
    case None =>
      if texts == [] then pipelineRef !in w.index
      else && pipelineRef in w.index
           && w.index[pipelineRef] == HashEntry(HashOf(texts[|texts| - 1], digest), Some(|texts|))
  }

  /** If a pipeline is created at most once, its store and index form one chain of all texts given since. */
  lemma {:induction false} ChainHolds(calls: seq<Call>, pipelineRef: string, digest: Digest)
    requires Creations(calls, pipelineRef) <= 1
    ensures StoredFor(After(calls, digest).contracts, pipelineRef)
         == Chain(Texts(calls, pipelineRef), pipelineRef, digest)
    ensures IndexAgrees(After(calls, digest), Texts(calls, pipelineRef), Registered(calls, pipelineRef), pipelineRef,
                        digest)
    ensures Texts(calls, pipelineRef) == [] <==> Creations(calls, pipelineRef) == 0
  {
    hide Creations, Chain, StoredFor, SortBy, HashOf, IndexAgrees, Perform;
    if calls == [] {
      EmptyCalls(pipelineRef, digest);
    } else {
      var before, last := calls[..|calls| - 1], calls[|calls| - 1];
      CreationsStep(calls, pipelineRef);
      ChainHolds(before, pipelineRef, digest);
      ChainStep(After(before, digest), last, Texts(before, pipelineRef), Registered(before, pipelineRef), pipelineRef,
                digest);
    }
  }

  lemma EmptyCalls(pipelineRef: string, digest: Digest)
    ensures Creations([], pipelineRef) == 0 && StoredFor([], pipelineRef) == [] == Chain([], pipelineRef, digest)
    ensures IndexAgrees(EMPTY, [], None, pipelineRef, digest)
  {
  }

  lemma ChainStep(w: World, c: Call, texts: seq<string>, registered: Option<string>, pipelineRef: string,
                  digest: Digest)
    requires StoredFor(w.contracts, pipelineRef) == Chain(texts, pipelineRef, digest)
    requires IndexAgrees(w, texts, registered, pipelineRef, digest)
    requires c.Create? && c.pipelineRef == pipelineRef ==> texts == []
    ensures var w' := Perform(w, c, digest);
            var takes := GivesText(c, pipelineRef, texts != []);
            var texts' := if takes then texts + [c.yaml] else texts;
            var registered' :=
              if c.Register? && c.pipelineRef == pipelineRef then Some(c.hash) else if takes then None else registered;
            && StoredFor(w'.contracts, pipelineRef) == Chain(texts', pipelineRef, digest)
            && IndexAgrees(w', texts', registered', pipelineRef, digest)
  {
    hide SortBy, HashOf, StoredFor;
    if !c.Register? {
      SortingChain(texts, pipelineRef, digest);
      var latest := LatestOf(w.contracts, c.pipelineRef);
      if c.pipelineRef == pipelineRef {
        StoredIsVersions(w.contracts, texts, pipelineRef, digest);
      }
      var version := if c.Create? || latest == None then 1 else latest.value.version + 1;
      StoreVersionFilter(w, c.pipelineRef, version, c.yaml, digest, pipelineRef);
      ChainAppend(texts, c.yaml, pipelineRef, digest);
    }
  }

  lemma StoredIsVersions(contracts: seq<ContractVersion>, texts: seq<string>, pipelineRef: string, digest: Digest)
    requires StoredFor(contracts, pipelineRef) == Chain(texts, pipelineRef, digest)
    ensures VersionsOf(contracts, pipelineRef) == Chain(texts, pipelineRef, digest)
  {
    SortingChain(texts, pipelineRef, digest);
    hide SortBy, Chain;
  }

  /** What `get_contract` finds for a version number: the first stored version with it. */
  function FindVersion(versions: seq<ContractVersion>, version: int): Option<ContractVersion> {
    if versions == [] then None
    else if versions[0].version == version then Some(versions[0])
    else FindVersion(versions[1..], version)
  }

  lemma {:induction false} FindInChain(texts: seq<string>, pipelineRef: string, digest: Digest, from: nat, version: int)
    requires from <= |texts| && from < version
    ensures FindVersion(Chain(texts, pipelineRef, digest)[from..], version)
         == if version <= |texts| then Some(Chain(texts, pipelineRef, digest)[version - 1]) else None
    decreases |texts| - from
  {
    var chain := Chain(texts, pipelineRef, digest);
    if from < |texts| {
      assert chain[from..][0] == chain[from] && chain[from..][1..] == chain[from + 1..];
      if version != from + 1 {
        FindInChain(texts, pipelineRef, digest, from + 1, version);
      }
    }
  }

  /**
   * After any calls that create the pipeline at most once: the stored versions are exactly 1..n once each, version v
   * returns the text given at the pipeline's v-th call, and the latest is version n.
   */
  lemma VersionChain(calls: seq<Call>, pipelineRef: string, digest: Digest)
    requires Creations(calls, pipelineRef) <= 1
    ensures var w, texts := After(calls, digest), Texts(calls, pipelineRef);
            && VersionsOf(w.contracts, pipelineRef) == Chain(texts, pipelineRef, digest)
            && (forall v :: 1 <= v <= |texts| ==>
                 var found := FindVersion(VersionsOf(w.contracts, pipelineRef), v);
                 found == Some(ContractVersion(pipelineRef, v, texts[v - 1], HashOf(texts[v - 1], digest))))
            && LatestOf(w.contracts, pipelineRef)
               == (if texts == [] then None else FindVersion(VersionsOf(w.contracts, pipelineRef), |texts|))
  {
    ChainHolds(calls, pipelineRef, digest);
    hide SortBy, HashOf, After, Texts, Creations, Chain, FindVersion, StoredFor;
    ChainLookups(After(calls, digest).contracts, Texts(calls, pipelineRef), pipelineRef, digest);
  }

  lemma ChainLookups(contracts: seq<ContractVersion>, texts: seq<string>, pipelineRef: string, digest: Digest)
    requires StoredFor(contracts, pipelineRef) == Chain(texts, pipelineRef, digest)
    ensures VersionsOf(contracts, pipelineRef) == Chain(texts, pipelineRef, digest)
    ensures forall v :: 1 <= v <= |texts| ==>
      var found := FindVersion(VersionsOf(contracts, pipelineRef), v);
      found == Some(ContractVersion(pipelineRef, v, texts[v - 1], HashOf(texts[v - 1], digest)))
    ensures LatestOf(contracts, pipelineRef)
         == if texts == [] then None else FindVersion(VersionsOf(contracts, pipelineRef), |texts|)
  {
    SortingChain(texts, pipelineRef, digest);
    ChainFinds(texts, pipelineRef, digest);
    hide SortBy, HashOf, FindVersion, Chain;
    assert VersionsOf(contracts, pipelineRef) == Chain(texts, pipelineRef, digest);
  }

  lemma ChainFinds(texts: seq<string>, pipelineRef: string, digest: Digest)
    ensures var chain := Chain(texts, pipelineRef, digest);
            && |chain| == |texts|
            && (forall v :: 1 <= v <= |texts| ==>
                 var version := ContractVersion(pipelineRef, v, texts[v - 1], HashOf(texts[v - 1], digest));
                 FindVersion(chain, v) == Some(version))
            && (texts != [] ==> FindVersion(chain, |texts|) == Some(chain[|chain| - 1]))
  {
    hide HashOf;
    var chain := Chain(texts, pipelineRef, digest);
    assert chain[0..] == chain;
    forall v | 1 <= v <= |texts| ensures FindVersion(chain, v) == Some(chain[v - 1]) {
      FindInChain(texts, pipelineRef, digest, 0, v);
    }
  }

  predicate VersionsExact(versions: seq<ContractVersion>) {
    forall i :: 0 <= i < |versions| ==> versions[i].version == i + 1
  }

  predicate IsFirst(c: ContractVersion) {
    c.version == 1
  }

  lemma LatestIsStored(contracts: seq<ContractVersion>, pipelineRef: string)
    requires forall c :: c in contracts ==> c.version >= 1
    ensures LatestOf(contracts, pipelineRef).Some? ==> LatestOf(contracts, pipelineRef).value.version >= 1
  {
    var key := (c: ContractVersion) => c.version;
    var stored := StoredFor(contracts, pipelineRef);
    FilterMembers(contracts, (c: ContractVersion) => c.pipelineRef == pipelineRef);
    SortByFacts(stored, key);
    var versions := VersionsOf(contracts, pipelineRef);
    assert versions != [] ==> versions[|versions| - 1] in versions;
  }

  /** The call stores a version: 1 on creation, the next one on an update of a stored contract. */
  function StoredVersion(w: World, c: Call): Option<int> {
    match c
    case Create(_, _) => Some(1)
    case Update(p, _) =>
      if LatestOf(w.contracts, p) == None then None else Some(LatestOf(w.contracts, p).value.version + 1)
    case Register(_, _) => None
  }

  lemma FirstsStep(w: World, c: Call, pipelineRef: string, digest: Digest)
    requires forall v :: v in w.contracts ==> v.version >= 1
    ensures Count(StoredFor(Perform(w, c, digest).contracts, pipelineRef), IsFirst)
         == Count(StoredFor(w.contracts, pipelineRef), IsFirst)
          + if c.Create? && c.pipelineRef == pipelineRef then 1 else 0
    ensures forall v :: v in Perform(w, c, digest).contracts ==> v.version >= 1
  {
    hide HashOf, SortBy, StoredFor;
    LatestIsStored(w.contracts, c.pipelineRef);
    var version := StoredVersion(w, c);
    hide LatestOf;
    if version.Some? {
      StoreVersionFilter(w, c.pipelineRef, version.value, c.yaml, digest, pipelineRef);
      var added := ContractVersion(c.pipelineRef, version.value, c.yaml, HashOf(c.yaml, digest));
      CountAppend(StoredFor(w.contracts, pipelineRef), [added], IsFirst);
      assert Count([added], IsFirst) == if version.value == 1 then 1 else 0;
      assert StoredFor(w.contracts, pipelineRef) + [] == StoredFor(w.contracts, pipelineRef);
    }
  }

  /** Every creation leaves one more version 1 behind. */
  lemma {:induction false} FirstsAreCreations(calls: seq<Call>, pipelineRef: string, digest: Digest)
    ensures Count(StoredFor(After(calls, digest).contracts, pipelineRef), IsFirst) == Creations(calls, pipelineRef)
    ensures forall c :: c in After(calls, digest).contracts ==> c.version >= 1
  {
    if calls != [] {
      FirstsAreCreations(calls[..|calls| - 1], pipelineRef, digest);
      CreationsStep(calls, pipelineRef);
      FirstsStep(After(calls[..|calls| - 1], digest), calls[|calls| - 1], pipelineRef, digest);
      hide Perform, StoredFor, Creations;
    }
  }

  /** The stored versions are exactly 1..n once each iff the pipeline was created at most once. */
  lemma ChainExactly(calls: seq<Call>, pipelineRef: string, digest: Digest)
    ensures VersionsExact(VersionsOf(After(calls, digest).contracts, pipelineRef)) <==>
      Creations(calls, pipelineRef) <= 1
  {
    var stored := StoredFor(After(calls, digest).contracts, pipelineRef);
    var versions := VersionsOf(After(calls, digest).contracts, pipelineRef);
    if Creations(calls, pipelineRef) <= 1 {
      VersionChain(calls, pipelineRef, digest);
    }
    if VersionsExact(versions) {
      FirstsAreCreations(calls, pipelineRef, digest);
      CountSorted(stored, (c: ContractVersion) => c.version, IsFirst);
      ExactHasOneFirst(versions);
    }
  }

  lemma ExactHasOneFirst(versions: seq<ContractVersion>)
    requires VersionsExact(versions)
    ensures Count(versions, IsFirst) <= 1
  {
    if versions != [] {
      CountZero(versions[1..], IsFirst);
    }
  }

  // ---------------------------------------------------------------------------------------------
  // The three verifiers
  // ---------------------------------------------------------------------------------------------

  /** `verify_hash`: an artifact without entry cannot be verified. */
  function VerifyHash(index: HashIndex, artifactType: string, artifactId: string, text: string, digest: Digest): bool {
    && artifactType in index && artifactId in index[artifactType]
    && HashOf(text, digest) == index[artifactType][artifactId].hash
  }

  function StoredHash(index: HashIndex, pipelineId: string): string {
    if "contract" in index && pipelineId in index["contract"] then index["contract"][pipelineId].hash else ""
  }

  /** The steward gate's fifth check; a missing or empty stored hash does not fail it. */
  predicate GateIntegrity(index: HashIndex, pipelineId: string, text: string, digest: Digest) {
    var stored := StoredHash(index, pipelineId);
    stored == "" || HashOf(text, digest) == stored
  }

  /** `validate_integrity` adds the prefix to an expected hash that lacks it. */
  predicate ValidateIntegrity(text: string, expected: string, digest: Digest) {
    HashOf(text, digest) == if "sha256:" <= expected then expected else "sha256:" + expected
  }

  predicate IndexOf(index: HashIndex, w: World) {
    "contract" in index && index["contract"] == w.index
  }

  lemma LatestAfterStore(w: World, p: string, version: int, yaml: string, digest: Digest, pipelineRef: string)
    ensures var latest := LatestOf(w.contracts, pipelineRef);
            var added := ContractVersion(p, version, yaml, HashOf(yaml, digest));
            LatestOf(StoreVersion(w, p, version, yaml, digest).contracts, pipelineRef)
            == if p != pipelineRef then latest
               else if latest == None || latest.value.version <= version then Some(added) else latest
  {
    StoreVersionFilter(w, p, version, yaml, digest, pipelineRef);
    var stored := StoredFor(w.contracts, pipelineRef);
    assert stored + [] == stored;
    if p == pipelineRef {
      var added := ContractVersion(p, version, yaml, HashOf(yaml, digest));
      assert (stored + [added])[..|stored|] == stored;
    }
  }

  /** Some update of the pipeline took effect. */
  predicate WasUpdated(calls: seq<Call>, pipelineRef: string) {
    calls != []
    && var before, last := calls[..|calls| - 1], calls[|calls| - 1];
       || WasUpdated(before, pipelineRef)
       || (last.Update? && GivesText(last, pipelineRef, Texts(before, pipelineRef) != []))
  }

  /** The last call that gave the pipeline a text is a creation that came after an update. */
  predicate IsShadowed(calls: seq<Call>, pipelineRef: string) {
    calls != []
    && var before, last := calls[..|calls| - 1], calls[|calls| - 1];
       if last.pipelineRef != pipelineRef || last.Register? then IsShadowed(before, pipelineRef)
       else last.Create? && WasUpdated(before, pipelineRef)
  }

  /** What the calls on one pipeline come down to. */
  datatype Summary = Summary(texts: seq<string>, updated: bool, shadowed: bool, registered: Option<string>)

  function Summarize(calls: seq<Call>, pipelineRef: string): Summary {
    Summary(Texts(calls, pipelineRef), WasUpdated(calls, pipelineRef), IsShadowed(calls, pipelineRef),
            Registered(calls, pipelineRef))
  }

  function SummaryStep(m: Summary, c: Call, pipelineRef: string): Summary {
    if c.pipelineRef != pipelineRef then m
    else if c.Register? then m.(registered := Some(c.hash))
    else if m.texts == [] && c.Update? then m.(shadowed := false)
    else
      Summary(m.texts + [c.yaml], m.updated || c.Update?, c.Create? && m.updated, None)
  }

  /** How index and latest version of a pipeline stand to each other. */
  predicate Mirrors(w: World, m: Summary, pipelineRef: string, digest: Digest) {
    var latest := LatestOf(w.contracts, pipelineRef);
    && (if m.texts == [] then latest == None && !m.updated && !m.shadowed
        else && latest.Some? && latest.value.version >= 1
             && latest.value.hash == HashOf(latest.value.yaml, digest)
             && (latest.value.version > 1 <==> m.updated)
             && (!m.shadowed ==> latest.value.yaml == m.texts[|m.texts| - 1]))
    && match m.registered
       case Some(hash) => pipelineRef in w.index && w.index[pipelineRef] == HashEntry(hash, None)
       case None =>
         if m.texts == [] then pipelineRef !in w.index
         else && pipelineRef in w.index
              && w.index[pipelineRef].hash == HashOf(m.texts[|m.texts| - 1], digest)
              && w.index[pipelineRef].version.Some?
              && (w.index[pipelineRef].version == Some(latest.value.version) <==> !m.shadowed)
  }

  lemma MirrorsStep(w: World, c: Call, m: Summary, pipelineRef: string, digest: Digest)
    requires Mirrors(w, m, pipelineRef, digest)
    ensures Mirrors(Perform(w, c, digest), SummaryStep(m, c, pipelineRef), pipelineRef, digest)
  {
    hide LatestOf, HashOf;
    if !c.Register? {
      var latest := LatestOf(w.contracts, c.pipelineRef);
      var version := if c.Create? || latest == None then 1 else latest.value.version + 1;
      LatestAfterStore(w, c.pipelineRef, version, c.yaml, digest, pipelineRef);
    }
    if c.pipelineRef != pipelineRef {
      assert Mirrors(Perform(w, c, digest), m, pipelineRef, digest);
    }
  }

  lemma {:induction false} MirrorsHolds(calls: seq<Call>, pipelineRef: string, digest: Digest)
    ensures Mirrors(After(calls, digest), Summarize(calls, pipelineRef), pipelineRef, digest)
    ensures Texts(calls, pipelineRef) == [] <==> Creations(calls, pipelineRef) == 0
    ensures WasUpdated(calls, pipelineRef) ==> Texts(calls, pipelineRef) != []
  {
    if calls == [] {
      NothingStored(pipelineRef, digest);
    } else {
      var before, last := calls[..|calls| - 1], calls[|calls| - 1];
      CreationsStep(calls, pipelineRef);
      MirrorsHolds(before, pipelineRef, digest);
      hide Creations, Mirrors, Perform;
      assert Summarize(calls, pipelineRef) == SummaryStep(Summarize(before, pipelineRef), last, pipelineRef);
      MirrorsStep(After(before, digest), last, Summarize(before, pipelineRef), pipelineRef, digest);
    }
  }

  /** The hash the index holds for the pipeline: the last one registered, or that of the last text since. */
  function EntryHash(calls: seq<Call>, pipelineRef: string, digest: Digest): Option<string> {
    var texts, registered := Texts(calls, pipelineRef), Registered(calls, pipelineRef);
    if registered.Some? then registered
    else if texts == [] then None
    else Some(HashOf(texts[|texts| - 1], digest))
  }

  /**
   * What each verifier accepts, over every run: `verify_hash` and the steward gate a text of the entry's hash, but the
   * gate also any text when the entry is missing or empty; `validate_integrity` adds a missing prefix first. So the
   * three agree on a text iff there is a nonempty entry whose hash has the prefix or is not the text's bare digest.
   */
  lemma VerifiersAccept(calls: seq<Call>, pipelineRef: string, index: HashIndex, text: string, digest: Digest)
    requires IndexOf(index, After(calls, digest))
    ensures var entry := EntryHash(calls, pipelineRef, digest);
            var verified := VerifyHash(index, "contract", pipelineRef, text, digest);
            var admitted := GateIntegrity(index, pipelineRef, text, digest);
            var validated := ValidateIntegrity(text, StoredHash(index, pipelineRef), digest);
            && (verified <==> entry == Some(HashOf(text, digest)))
            && (admitted <==> verified || entry == None || entry == Some(""))
            && (validated <==>
                 || verified
                 || (entry == Some(digest(text)) && !("sha256:" <= digest(text)))
                 || (entry == None && digest(text) == ""))
            && (verified == admitted == validated <==>
                 entry.Some? && entry.value != ""
                 && ("sha256:" <= entry.value || entry.value != digest(text)))
  {
    hide After, Texts, Registered, IsShadowed, WasUpdated, LatestOf, HashOf, Creations;
    MirrorsHolds(calls, pipelineRef, digest);
    Prefixed(text, StoredHash(index, pipelineRef), digest);
  }

  lemma Prefixed(text: string, expected: string, digest: Digest)
    ensures HashOf(text, digest) == "sha256:" + expected <==> digest(text) == expected
    ensures "sha256:" <= HashOf(text, digest)
  {
    assert HashOf(text, digest)[7..] == digest(text) && ("sha256:" + expected)[7..] == expected;
  }

  /** For a created pipeline without a hash registered since, all three accept the text given last. */
  lemma VerifiersAgree(calls: seq<Call>, pipelineRef: string, index: HashIndex, text: string, digest: Digest)
    requires Creations(calls, pipelineRef) >= 1 && Registered(calls, pipelineRef) == None
    requires IndexOf(index, After(calls, digest))
    ensures var texts := Texts(calls, pipelineRef);
            && texts != []
            && var matches := HashOf(text, digest) == HashOf(texts[|texts| - 1], digest);
               && VerifyHash(index, "contract", pipelineRef, text, digest) == matches
               && GateIntegrity(index, pipelineRef, text, digest) == matches
               && ValidateIntegrity(text, StoredHash(index, pipelineRef), digest) == matches
               && (!("sha256:" <= digest(texts[|texts| - 1])) ==>
                    ValidateIntegrity(text, digest(texts[|texts| - 1]), digest) == matches)
  {
    hide After, Texts, Registered, IsShadowed, WasUpdated, LatestOf, HashOf, Creations;
    var texts := Texts(calls, pipelineRef);
    MirrorsHolds(calls, pipelineRef, digest);
    Prefixed(text, digest(texts[|texts| - 1]), digest);
    Prefixed(texts[|texts| - 1], digest(texts[|texts| - 1]), digest);
    Prefixed(text, StoredHash(index, pipelineRef), digest);
  }

  /**
   * After a creation over an existing contract the text given last need not be the one `get_contract` answers. The
   * index names the latest stored version iff no creation has followed an update without a further update, and no hash
   * was registered since. The verifiers accept the stored latest text iff its hash is the one registered, or else iff
   * that holds or the two texts collide.
   */
  lemma LatestIsVerifiedExactly(calls: seq<Call>, pipelineRef: string, index: HashIndex, digest: Digest)
    requires Creations(calls, pipelineRef) >= 1 && IndexOf(index, After(calls, digest))
    ensures var latest := LatestOf(After(calls, digest).contracts, pipelineRef);
            var texts := Texts(calls, pipelineRef);
            var registered := Registered(calls, pipelineRef);
            && latest.Some? && texts != [] && pipelineRef in index["contract"]
            && (index["contract"][pipelineRef].version == Some(latest.value.version) <==>
                 registered == None && !IsShadowed(calls, pipelineRef))
            && (VerifyHash(index, "contract", pipelineRef, latest.value.yaml, digest) <==>
                 if registered.Some? then registered.value == HashOf(latest.value.yaml, digest)
                 else !IsShadowed(calls, pipelineRef)
                      || HashOf(latest.value.yaml, digest) == HashOf(texts[|texts| - 1], digest))
  {
    hide After, Texts, Registered, IsShadowed, WasUpdated, LatestOf, HashOf, Creations;
    MirrorsHolds(calls, pipelineRef, digest);
  }

  /** What a caller can check before creating: the index will name the latest version iff none above 1 is stored. */
  lemma CreationIsSafeExactly(calls: seq<Call>, pipelineRef: string, yaml: string, digest: Digest)
    ensures var before := LatestOf(After(calls, digest).contracts, pipelineRef);
            var w := After(calls + [Create(pipelineRef, yaml)], digest);
            && pipelineRef in w.index && LatestOf(w.contracts, pipelineRef).Some?
            && (w.index[pipelineRef].version == Some(LatestOf(w.contracts, pipelineRef).value.version) <==>
                 before == None || before.value.version <= 1)
  {
    var calls' := calls + [Create(pipelineRef, yaml)];
    assert calls'[..|calls'| - 1] == calls;
    MirrorsHolds(calls, pipelineRef, digest);
    MirrorsHolds(calls', pipelineRef, digest);
  }

  /** Create A, update to B, create C: the latest contract is still B, but the verifiers want C. */
  lemma RecreationDiverges(pipelineRef: string, a: string, b: string, c: string, digest: Digest)
    requires digest(b) != digest(c)
    ensures var calls := [Create(pipelineRef, a), Update(pipelineRef, b), Create(pipelineRef, c)];
            var w := After(calls, digest);
            var latest := LatestOf(w.contracts, pipelineRef);
            && latest == Some(ContractVersion(pipelineRef, 2, b, HashOf(b, digest)))
            && !VerifyHash(map["contract" := w.index], "contract", pipelineRef, b, digest)
            && VerifyHash(map["contract" := w.index], "contract", pipelineRef, c, digest)
  {
    hide After, LatestOf, HashOf, VerifyHash, Perform;
    ThreeCalls(Create(pipelineRef, a), Update(pipelineRef, b), Create(pipelineRef, c), digest);
    Recreated(pipelineRef, a, b, c, digest);
  }

  lemma Recreated(pipelineRef: string, a: string, b: string, c: string, digest: Digest)
    requires digest(b) != digest(c)
    ensures var w1 := Perform(EMPTY, Create(pipelineRef, a), digest);
            var w := Perform(Perform(w1, Update(pipelineRef, b), digest), Create(pipelineRef, c), digest);
            && LatestOf(w.contracts, pipelineRef) == Some(ContractVersion(pipelineRef, 2, b, HashOf(b, digest)))
            && !VerifyHash(map["contract" := w.index], "contract", pipelineRef, b, digest)
            && VerifyHash(map["contract" := w.index], "contract", pipelineRef, c, digest)
  {
    hide LatestOf, HashOf;
    var w1 := StoreVersion(EMPTY, pipelineRef, 1, a, digest);
    var w2 := StoreVersion(w1, pipelineRef, 2, b, digest);
    NothingStored(pipelineRef, digest);
    LatestAfterStore(EMPTY, pipelineRef, 1, a, digest, pipelineRef);
    LatestAfterStore(w1, pipelineRef, 2, b, digest, pipelineRef);
    LatestAfterStore(w2, pipelineRef, 1, c, digest, pipelineRef);
    HashesDiffer(b, c, digest);
  }

  lemma NothingStored(pipelineRef: string, digest: Digest)
    ensures After([], digest) == EMPTY && LatestOf(EMPTY.contracts, pipelineRef) == None
  {
  }

  lemma ThreeCalls(x: Call, y: Call, z: Call, digest: Digest)
    ensures After([x, y, z], digest) == Perform(Perform(Perform(EMPTY, x, digest), y, digest), z, digest)
  {
    hide Perform;
    assert [x, y, z][..2] == [x, y] && [x, y][..1] == [x] && [x][..0] == [];
    assert After([x], digest) == Perform(EMPTY, x, digest);
    assert After([x, y], digest) == Perform(After([x], digest), y, digest);
  }

  lemma HashesDiffer(b: string, c: string, digest: Digest)
    requires digest(b) != digest(c)
    ensures HashOf(b, digest) != HashOf(c, digest)
  {
    assert HashOf(b, digest)[7..] == digest(b) && HashOf(c, digest)[7..] == digest(c);
  }

  /**
   * For a pipeline never created nor registered they disagree: the store rejects every text, the gate lets every text
   * pass.
   */
  lemma UncreatedPipeline(calls: seq<Call>, pipelineRef: string, index: HashIndex, text: string, digest: Digest)
    requires Creations(calls, pipelineRef) == 0 && Registered(calls, pipelineRef) == None
    requires IndexOf(index, After(calls, digest))
    ensures !VerifyHash(index, "contract", pipelineRef, text, digest)
    ensures GateIntegrity(index, pipelineRef, text, digest)
  {
    MirrorsHolds(calls, pipelineRef, digest);
  }

  // ---------------------------------------------------------------------------------------------
  // Gate and freshness
  // ---------------------------------------------------------------------------------------------

  const SECONDS_PER_DAY := 86400
  const STEWARD_PREFIX := "nhi_data-steward_"

  datatype GateCheck = PipelineExists | ContractExists | StewardValid | NotStale | IntegrityValid

  /** `Raised`: the gate ends in a TypeError instead of a verdict. */
  datatype GateVerdict = Allowed | Rejected(check: GateCheck) | Raised

  predicate IsFreshReview(t: ReviewTime, now: int, staleDays: int) {
    t.At? && now - t.seconds <= staleDays * SECONDS_PER_DAY
  }

  /** The contract under review: a given one, even if empty, hides that of the entry. */
  function DocumentOf(entry: Option<Option<ContractDoc>>, contract: Option<ContractDoc>): ContractDoc {
    if contract.Some? then contract.value
    else if entry.Some? && entry.value.Some? then entry.value.value
    else EmptyDoc
  }

  predicate IsZoneless(doc: ContractDoc) {
    doc != EmptyDoc && doc.reviewedAt.Zoneless?
  }

  /** Whether a check holds, given that the earlier ones do. */
  predicate CheckHolds(check: GateCheck, entry: Option<Option<ContractDoc>>, contract: Option<ContractDoc>,
                       text: Option<string>, index: HashIndex, pipelineId: string, now: int, staleDays: int,
                       digest: Digest)
  {
    var doc := DocumentOf(entry, contract);
    match check
    case PipelineExists => entry.Some?
    case ContractExists => doc != EmptyDoc
    case StewardValid => doc != EmptyDoc && STEWARD_PREFIX <= doc.steward
    case NotStale => doc != EmptyDoc && IsFreshReview(doc.reviewedAt, now, staleDays)
    case IntegrityValid => text.Some? ==> GateIntegrity(index, pipelineId, text.value, digest)
  }

  const CHECKS := [PipelineExists, ContractExists, StewardValid, NotStale, IntegrityValid]

  /** `StewardGate.check`; `entry` is the pipeline's entry in the state. */
  function CheckGate(entry: Option<Option<ContractDoc>>, contract: Option<ContractDoc>, text: Option<string>,
                     index: HashIndex, pipelineId: string, now: int, staleDays: int, digest: Digest): GateVerdict
  {
    if entry == None then Rejected(PipelineExists)
    else
      var doc := if contract == None then entry.value else contract;
      if doc == None || doc.value.EmptyDoc? then Rejected(ContractExists)
      else if doc.value.steward == "" || !(STEWARD_PREFIX <= doc.value.steward) then Rejected(StewardValid)
      else
        match doc.value.reviewedAt
        case NoTime => Rejected(NotStale)
        case Unparsable => Rejected(NotStale)
        case Zoneless => Raised
        case At(seconds) =>
          if now - seconds > staleDays * SECONDS_PER_DAY then Rejected(NotStale)
          else if text.Some? && StoredHash(index, pipelineId) != ""
                  && HashOf(text.value, digest) != StoredHash(index, pipelineId) then Rejected(IntegrityValid)
          else Allowed
  }

  lemma AllChecks(entry: Option<Option<ContractDoc>>, contract: Option<ContractDoc>, text: Option<string>,
                  index: HashIndex, pipelineId: string, now: int, staleDays: int, digest: Digest)
    ensures (forall i :: 0 <= i < |CHECKS| ==>
              CheckHolds(CHECKS[i], entry, contract, text, index, pipelineId, now, staleDays, digest)) <==> (
      && CheckHolds(PipelineExists, entry, contract, text, index, pipelineId, now, staleDays, digest)
      && CheckHolds(ContractExists, entry, contract, text, index, pipelineId, now, staleDays, digest)
      && CheckHolds(StewardValid, entry, contract, text, index, pipelineId, now, staleDays, digest)
      && CheckHolds(NotStale, entry, contract, text, index, pipelineId, now, staleDays, digest)
      && CheckHolds(IntegrityValid, entry, contract, text, index, pipelineId, now, staleDays, digest))
    ensures (forall i :: 0 <= i < 3 ==>
              CheckHolds(CHECKS[i], entry, contract, text, index, pipelineId, now, staleDays, digest)) <==> (
      && CheckHolds(PipelineExists, entry, contract, text, index, pipelineId, now, staleDays, digest)
      && CheckHolds(ContractExists, entry, contract, text, index, pipelineId, now, staleDays, digest)
      && CheckHolds(StewardValid, entry, contract, text, index, pipelineId, now, staleDays, digest))
  {
    hide CheckHolds;
    assert CHECKS[0] == PipelineExists && CHECKS[1] == ContractExists && CHECKS[2] == StewardValid
      && CHECKS[3] == NotStale && CHECKS[4] == IntegrityValid;
  }

  /**
   * The gate admits a pipeline iff all five checks hold, and otherwise names the first that does not, except that a
   * review time without time zone makes it raise once the first three checks hold.
   */
  lemma GateNamesFirstFailure(entry: Option<Option<ContractDoc>>, contract: Option<ContractDoc>, text: Option<string>,
                              index: HashIndex, pipelineId: string, now: int, staleDays: int, digest: Digest)
    ensures var verdict := CheckGate(entry, contract, text, index, pipelineId, now, staleDays, digest);
            && (verdict == Allowed <==> forall i :: 0 <= i < |CHECKS| ==>
                 CheckHolds(CHECKS[i], entry, contract, text, index, pipelineId, now, staleDays, digest))
            && (verdict == Raised <==>
                 && (forall i :: 0 <= i < 3 ==>
                      CheckHolds(CHECKS[i], entry, contract, text, index, pipelineId, now, staleDays, digest))
                 && IsZoneless(DocumentOf(entry, contract)))
            && (forall i | 0 <= i < |CHECKS| && verdict == Rejected(CHECKS[i]) ::
                 && !CheckHolds(CHECKS[i], entry, contract, text, index, pipelineId, now, staleDays, digest)
                 && forall j :: 0 <= j < i ==>
                      CheckHolds(CHECKS[j], entry, contract, text, index, pipelineId, now, staleDays, digest))
  {
    AllChecks(entry, contract, text, index, pipelineId, now, staleDays, digest);
    var verdict := CheckGate(entry, contract, text, index, pipelineId, now, staleDays, digest);
    forall i, j | 0 <= i < |CHECKS| && verdict == Rejected(CHECKS[i]) && 0 <= j <= i
      ensures CheckHolds(CHECKS[j], entry, contract, text, index, pipelineId, now, staleDays, digest) <==> j < i
    {
      assert CHECKS[0] == PipelineExists && CHECKS[1] == ContractExists && CHECKS[2] == StewardValid
        && CHECKS[3] == NotStale && CHECKS[4] == IntegrityValid;
    }
  }

  datatype Freshness = Fresh | Stale | FreshnessRaised

  /** `validate_freshness`, without its error texts. */
  function ValidateFreshness(doc: ContractDoc, now: int, staleDays: int): Freshness {
    if doc.EmptyDoc? then Stale
    else
      match doc.reviewedAt
      case NoTime => Stale
      case Unparsable => Stale
      case Zoneless => FreshnessRaised
      case At(seconds) => if now - seconds > staleDays * SECONDS_PER_DAY then Stale else Fresh
  }

  /** Fresh is a review no older than the limit in days of 86400 seconds; only a time without zone raises. */
  lemma FreshnessMeaning(doc: ContractDoc, now: int, staleDays: int)
    ensures ValidateFreshness(doc, now, staleDays) == Fresh <==>
      exists steward, seconds | seconds >= now - staleDays * 24 * 60 * 60 :: doc == ContractDoc(steward, At(seconds))
    ensures ValidateFreshness(doc, now, staleDays) == FreshnessRaised <==> IsZoneless(doc)
  {
    if doc.ContractDoc? && doc.reviewedAt.At? {
      assert doc == ContractDoc(doc.steward, At(doc.reviewedAt.seconds));
    }
  }

  /** Under one limit the gate admits only what the validator calls fresh, and raises only where it raises. */
  lemma GateImpliesFresh(entry: Option<Option<ContractDoc>>, doc: ContractDoc, text: Option<string>,
                         index: HashIndex, pipelineId: string, now: int, staleDays: int, digest: Digest)
    ensures var verdict := CheckGate(entry, Some(doc), text, index, pipelineId, now, staleDays, digest);
            && (verdict == Allowed ==> ValidateFreshness(doc, now, staleDays) == Fresh)
            && (verdict == Raised ==> ValidateFreshness(doc, now, staleDays) == FreshnessRaised)
  {
    AllChecks(entry, Some(doc), text, index, pipelineId, now, staleDays, digest);
    GateNamesFirstFailure(entry, Some(doc), text, index, pipelineId, now, staleDays, digest);
    hide CheckGate;
  }

  // ---------------------------------------------------------------------------------------------
  // The objects
  // ---------------------------------------------------------------------------------------------

  /** The shared state dictionary. */
  class ConductorState {
    var artifactHashes: HashIndex

    constructor ()
      ensures artifactHashes == map[]
    {
      artifactHashes := map[];
    }
  }

  class ContractManager {
    const pg: PgLineageWriter
    const state: ConductorState
    const digest: Digest

    ghost predicate Valid()
      reads this, state
    {
      "contract" in state.artifactHashes
    }

    ghost function Model(): World
      reads this, pg, state
      requires Valid()
    {
      World(pg.contracts, state.artifactHashes["contract"])
    }

    /** Makes sure that the index has a place for contracts. */
    constructor (pg: PgLineageWriter, state: ConductorState, digest: Digest)
      modifies state
      ensures Valid() && this.pg == pg && this.state == state && this.digest == digest
      ensures state.artifactHashes == if "contract" in old(state.artifactHashes) then old(state.artifactHashes)
                                      else old(state.artifactHashes)["contract" := map[]]
    {
      this.pg, this.state, this.digest := pg, state, digest;
      new;
      if "contract" !in state.artifactHashes {
        state.artifactHashes := state.artifactHashes["contract" := map[]];
      }
    }

    method RegisterVersion(pipelineRef: string, version: int, yaml: string)
      requires Valid()
      modifies pg`contracts, state
      ensures Valid() && Model() == StoreVersion(old(Model()), pipelineRef, version, yaml, digest)
      ensures state.artifactHashes == old(state.artifactHashes)["contract" := Model().index]
    {
      pg.StoreContractVersion(pipelineRef, version, yaml, HashOf(yaml, digest));
      var entry := HashEntry(HashOf(yaml, digest), Some(version));
      var entries := state.artifactHashes["contract"];
      state.artifactHashes := state.artifactHashes["contract" := entries[pipelineRef := entry]];
    }

    method CreateContract(pipelineRef: string, yaml: string)
      requires Valid()
      modifies pg`contracts, state
      ensures Valid() && Model() == Perform(old(Model()), Create(pipelineRef, yaml), digest)
    {
      RegisterVersion(pipelineRef, 1, yaml);
    }

    /** Returns the new version number, or None when there is no contract to update. */
    method UpdateContract(pipelineRef: string, yaml: string) returns (version: Option<int>)
      requires Valid()
      modifies pg`contracts, state
      ensures Valid() && Model() == Perform(old(Model()), Update(pipelineRef, yaml), digest)
      ensures version == None <==> LatestOf(old(pg.contracts), pipelineRef) == None
      ensures version.Some? ==> Model().index[pipelineRef].version == version
    {
      var latest := pg.GetLatestContract(pipelineRef);
      if latest == None {
        return None;
      }
      RegisterVersion(pipelineRef, latest.value.version + 1, yaml);
      version := Some(latest.value.version + 1);
    }

    method GetContract(pipelineRef: string, version: Option<int>) returns (found: Option<ContractVersion>)
      ensures found ==
        if version == None then LatestOf(pg.contracts, pipelineRef)
        else FindVersion(VersionsOf(pg.contracts, pipelineRef), version.value)
    {
      if version == None {
        return pg.GetLatestContract(pipelineRef);
      }
      var versions := pg.GetContractVersions(pipelineRef);
      for i := 0 to |versions|
        invariant FindVersion(versions[i..], version.value) == FindVersion(versions, version.value)
      {
        assert versions[i..][1..] == versions[i + 1..];
        if versions[i].version == version.value {
          return Some(versions[i]);
        }
      }
      return None;
    }
  }

  class ArtifactIntegrity {
    const state: ConductorState
    const digest: Digest

    constructor (state: ConductorState, digest: Digest)
      ensures this.state == state && this.digest == digest
    {
      this.state, this.digest := state, digest;
    }

    /** Returns false, without effect, for an unknown artifact type. */
    method RegisterHash(artifactType: string, artifactId: string, hash: string) returns (ok: bool)
      modifies state
      ensures ok <==> artifactType in ARTIFACT_TYPES
      ensures !ok ==> state.artifactHashes == old(state.artifactHashes)
      ensures artifactType == "contract" && "contract" in old(state.artifactHashes) ==> forall contracts ::
        IndexOf(state.artifactHashes, Perform(World(contracts, old(state.artifactHashes)["contract"]),
                                              Register(artifactId, hash), digest))
      ensures ok ==>
        var before := old(state.artifactHashes);
        var entries := if artifactType in before then before[artifactType] else map[];
        state.artifactHashes == before[artifactType := entries[artifactId := HashEntry(hash, None)]]
    {
      if artifactType !in ARTIFACT_TYPES {
        return false;
      }
      if artifactType !in state.artifactHashes {
        state.artifactHashes := state.artifactHashes[artifactType := map[]];
      }
      var entries := state.artifactHashes[artifactType];
      state.artifactHashes := state.artifactHashes[artifactType := entries[artifactId := HashEntry(hash, None)]];
      return true;
    }

    /** None for an unknown artifact type. */
    method Verify(artifactType: string, artifactId: string, text: string) returns (valid: Option<bool>)
      ensures valid == None <==> artifactType !in ARTIFACT_TYPES
      ensures valid.Some? ==> valid.value == VerifyHash(state.artifactHashes, artifactType, artifactId, text, digest)
    {
      if artifactType !in ARTIFACT_TYPES {
        return None;
      }
      var entries := if artifactType in state.artifactHashes then state.artifactHashes[artifactType] else map[];
      if artifactId !in entries {
        return Some(false);
      }
      return Some(HashOf(text, digest) == entries[artifactId].hash);
    }
  }
}
