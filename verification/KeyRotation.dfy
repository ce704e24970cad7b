/** Key versions and their rotation schedule: gates/key_rotation.py. Times are in seconds. */
module KeyRotation {
  import opened Common

  /** In the order in which a version passes through them. */
  datatype Status = Current | Warning | Overdue | Retained | Rotated

  function Rank(s: Status): nat {
    match s
    case Current => 0
    case Warning => 1
    case Overdue => 2
    case Retained => 3
    case Rotated => 4
  }

  predicate IsActive(s: Status) {
    s == Current || s == Warning || s == Overdue
  }

  datatype KeyVersion = KeyVersion(
    createdAt: real, rotationDueAt: real, status: Status, rotatedAt: Option<real>, retentionExpiresAt: Option<real>)

  datatype Config = Config(interval: real, warningThreshold: real)

  datatype Tracker = Tracker(versions: map<string, KeyVersion>, current: Option<string>)

  const EMPTY := Tracker(map[], None)

  function RetireVersion(t: Tracker, id: string, now: real, config: Config): Tracker {
    if id in t.versions then
      var key := t.versions[id].(
        status := Retained, rotatedAt := Some(now), retentionExpiresAt := Some(now + config.interval));
      t.(versions := t.versions[id := key])
    else t
  }

  function RetireCurrent(t: Tracker, now: real, config: Config): Tracker {
    if t.current.Some? then RetireVersion(t, t.current.value, now, config) else t
  }

  function InitializeKey(t: Tracker, id: string, createdAt: real, config: Config): Tracker {
    var key := KeyVersion(createdAt, createdAt + config.interval, Current, None, None);
    Tracker(RetireCurrent(t, createdAt, config).versions[id := key], Some(id))
  }

  predicate RetentionOver(key: KeyVersion, now: real) {
    key.status == Retained && key.retentionExpiresAt.Some? && now > key.retentionExpiresAt.value
  }

  /** The expiry sweep at the start of `rotate`. */
  function Sweep(t: Tracker, now: real): Tracker {
    t.(versions := map id | id in t.versions ::
      SweptAt(t.versions[id], now))
  }

  /** A retained version past its limit becomes ROTATED; nothing else happens to it. */
  function SweptAt(key: KeyVersion, now: real): (swept: KeyVersion)
    ensures swept == key.(status := swept.status)
    ensures swept.status != key.status <==>
      key.status == Retained && key.retentionExpiresAt.Some? && key.retentionExpiresAt.value < now
    ensures swept.status != key.status ==> swept.status == Rotated
  {
    if RetentionOver(key, now) then key.(status := Rotated) else key
  }

  function RotateUnswept(t: Tracker, id: string, now: real, config: Config): Tracker {
    InitializeKey(RetireCurrent(t, now, config), id, now, config)
  }

  function Rotate(t: Tracker, id: string, now: real, config: Config): Tracker {
    RotateUnswept(Sweep(t, now), id, now, config)
  }

  function ReportedStatus(t: Tracker, now: real, config: Config): Status {
    if t.current == None || t.current.value !in t.versions then Current
    else
      var remaining := t.versions[t.current.value].rotationDueAt - now;
      if remaining < 0.0 then Overdue else if remaining <= config.warningThreshold then Warning else Current
  }

  /** `check_rotation_status` writes WARNING and OVERDUE into the key, but never CURRENT. */
  function CheckRotationStatus(t: Tracker, now: real, config: Config): Tracker {
    var status := ReportedStatus(t, now, config);
    if status == Current then t
    else t.(versions := t.versions[t.current.value := t.versions[t.current.value].(status := status)])
  }

  predicate IsAccessible(t: Tracker, id: string, now: real) {
    && id in t.versions
    && var key := t.versions[id];
       || key.status == Current
       || (key.status == Retained && (key.retentionExpiresAt.Some? ==> now < key.retentionExpiresAt.value))
  }

  // ---------------------------------------------------------------------------------------------
  // Runs
  // ---------------------------------------------------------------------------------------------

  datatype Call =
    | Initialize(id: string, createdAt: real)
    | RotateTo(id: string)
    | Check

  /** A call and the clock it reads. */
  datatype TimedCall = TimedCall(call: Call, now: real)

  /** The call installs a version under this id, be it known or not. */
  predicate Installs(call: Call, id: string) {
    !call.Check? && call.id == id
  }

  predicate Reinstalls(calls: seq<TimedCall>, id: string) {
    exists c :: c in calls && Installs(c.call, id)
  }

  function Perform(t: Tracker, c: TimedCall, sweeping: bool, config: Config): Tracker {
    match c.call
    case Initialize(id, createdAt) => InitializeKey(t, id, createdAt, config)
    case RotateTo(id) => if sweeping then Rotate(t, id, c.now, config) else RotateUnswept(t, id, c.now, config)
    case Check => CheckRotationStatus(t, c.now, config)
  }

  /** The clock never goes back. Ids may be reused: a counted id can meet one given by a caller. */
  predicate IsRun(clock: real, calls: seq<TimedCall>)
    decreases |calls|
  {
    calls == [] || (clock <= calls[0].now && IsRun(calls[0].now, calls[1..]))
  }

  function After(t: Tracker, calls: seq<TimedCall>, sweeping: bool, config: Config): Tracker
    decreases |calls|
  {
    if calls == [] then t else After(Perform(t, calls[0], sweeping, config), calls[1..], sweeping, config)
  }

  function ClockAfter(clock: real, calls: seq<TimedCall>): real
    decreases |calls|
  {
    if calls == [] then clock else ClockAfter(calls[0].now, calls[1..])
  }

  /** Active status marks exactly the current version, and the clock vouches for WARNING and OVERDUE. */
  ghost predicate Consistent(t: Tracker, clock: real, config: Config) {
    && (t.current.Some? ==> t.current.value in t.versions)
    && (forall id :: id in t.versions ==> t.versions[id].rotationDueAt == t.versions[id].createdAt + config.interval)
    && (forall id :: id in t.versions ==> (IsActive(t.versions[id].status) <==> t.current == Some(id)))
    && (forall id :: id in t.versions && t.versions[id].status == Overdue ==> t.versions[id].rotationDueAt < clock)
    && (forall id :: id in t.versions && !IsActive(t.versions[id].status) ==>
         t.versions[id].retentionExpiresAt.Some?)
    && (forall id :: id in t.versions && t.versions[id].status == Rotated ==>
         t.versions[id].retentionExpiresAt.value < clock)
  }

  /** `rotate` retires the current version, and the `initialize_key` it calls retires it again to the same effect. */
  lemma RetiringTwice(t: Tracker, id: string, now: real, config: Config)
    ensures RotateUnswept(t, id, now, config) == InitializeKey(t, id, now, config)
  {
  }

  lemma InitializeKeepsConsistent(t: Tracker, clock: real, id: string, createdAt: real, now: real, config: Config)
    requires Consistent(t, clock, config) && clock <= now
    ensures Consistent(InitializeKey(t, id, createdAt, config), now, config)
  {
  }

  lemma SweepKeepsConsistent(t: Tracker, clock: real, now: real, config: Config)
    requires Consistent(t, clock, config) && clock <= now
    ensures Consistent(Sweep(t, now), now, config)
  {
  }

  lemma CheckKeepsConsistent(t: Tracker, clock: real, now: real, config: Config)
    requires Consistent(t, clock, config) && clock <= now
    ensures Consistent(CheckRotationStatus(t, now, config), now, config)
  {
  }

  lemma PerformKeepsConsistent(t: Tracker, clock: real, c: TimedCall, config: Config)
    requires Consistent(t, clock, config) && clock <= c.now
    ensures Consistent(Perform(t, c, true, config), c.now, config)
  {
    hide Consistent, InitializeKey, RotateUnswept, CheckRotationStatus;
    match c.call
    case Initialize(id, createdAt) => InitializeKeepsConsistent(t, clock, id, createdAt, c.now, config);
    case RotateTo(id) =>
      SweepKeepsConsistent(t, clock, c.now, config);
      RetiringTwice(Sweep(t, c.now), id, c.now, config);
      InitializeKeepsConsistent(Sweep(t, c.now), c.now, id, c.now, c.now, config);
    case Check => CheckKeepsConsistent(t, clock, c.now, config);
  }

  lemma PerformMovesForward(t: Tracker, clock: real, c: TimedCall, config: Config, id: string)
    requires Consistent(t, clock, config) && clock <= c.now && !Installs(c.call, id) && id in t.versions
    ensures var t' := Perform(t, c, true, config);
            && id in t'.versions && Rank(t.versions[id].status) <= Rank(t'.versions[id].status)
            && (t'.versions[id].status != t.versions[id].status ==>
                 Rank(t.versions[id].status) < Rank(t'.versions[id].status))
  {
  }

  lemma {:induction false} RunKeepsConsistent(t: Tracker, clock: real, calls: seq<TimedCall>, config: Config)
    requires Consistent(t, clock, config) && IsRun(clock, calls)
    ensures Consistent(After(t, calls, true, config), ClockAfter(clock, calls), config)
    decreases |calls|
  {
    hide Consistent, Perform;
    if calls != [] {
      PerformKeepsConsistent(t, clock, calls[0], config);
      RunKeepsConsistent(Perform(t, calls[0], true, config), calls[0].now, calls[1..], config);
    }
  }

  /**
   * Over every run, a version has status CURRENT, WARNING or OVERDUE iff it is the current one, and it is due one
   * interval after its creation.
   */
  lemma OnlyCurrentIsActive(clock: real, calls: seq<TimedCall>, config: Config, id: string)
    requires IsRun(clock, calls) && id in After(EMPTY, calls, true, config).versions
    ensures var t := After(EMPTY, calls, true, config);
            && (IsActive(t.versions[id].status) <==> t.current == Some(id))
            && t.versions[id].rotationDueAt == t.versions[id].createdAt + config.interval
  {
    RunKeepsConsistent(EMPTY, clock, calls, config);
  }

  lemma ReinstallsRest(calls: seq<TimedCall>, id: string)
    requires calls != [] && !Reinstalls(calls, id)
    ensures !Installs(calls[0].call, id) && !Reinstalls(calls[1..], id)
  {
    assert calls[0] in calls;
  }

  /**
   * From any point of a run to any later one, no version disappears, and the status of one that is not installed anew
   * moves only forward.
   */
  lemma {:induction false} StatusMovesForward(
    t: Tracker, clock: real, calls: seq<TimedCall>, config: Config, id: string)
    requires Consistent(t, clock, config) && IsRun(clock, calls) && id in t.versions && !Reinstalls(calls, id)
    ensures var t' := After(t, calls, true, config);
            && id in t'.versions && Rank(t.versions[id].status) <= Rank(t'.versions[id].status)
            && (t'.versions[id].status != t.versions[id].status ==>
                 Rank(t.versions[id].status) < Rank(t'.versions[id].status))
    decreases |calls|
  {
    hide Consistent, Perform, Rank, Reinstalls, Installs;
    if calls != [] {
      ReinstallsRest(calls, id);
      PerformMovesForward(t, clock, calls[0], config, id);
      PerformKeepsConsistent(t, clock, calls[0], config);
      StatusMovesForward(Perform(t, calls[0], true, config), calls[0].now, calls[1..], config, id);
    }
  }

  // ---------------------------------------------------------------------------------------------
  // The sweep is invisible
  // ---------------------------------------------------------------------------------------------

  /** `swept` differs from `plain` only in versions already marked ROTATED whose retention is over by the clock. */
  ghost predicate SweptTwin(swept: Tracker, plain: Tracker, clock: real) {
    && swept.current == plain.current && swept.versions.Keys == plain.versions.Keys
    && forall id :: id in plain.versions ==>
         || swept.versions[id] == plain.versions[id]
         || (RetentionOver(plain.versions[id], clock)
             && swept.versions[id] == plain.versions[id].(status := Rotated))
  }

  lemma TwinsInitialize(swept: Tracker, plain: Tracker, clock: real, id: string, createdAt: real, now: real,
                        config: Config)
    requires SweptTwin(swept, plain, clock) && clock <= now
    ensures SweptTwin(InitializeKey(swept, id, createdAt, config), InitializeKey(plain, id, createdAt, config), now)
  {
  }

  lemma TwinsSweep(swept: Tracker, plain: Tracker, clock: real, now: real)
    requires SweptTwin(swept, plain, clock) && clock <= now
    ensures SweptTwin(Sweep(swept, now), plain, now)
  {
  }

  lemma TwinsCheck(swept: Tracker, plain: Tracker, clock: real, now: real, config: Config)
    requires SweptTwin(swept, plain, clock) && Consistent(swept, clock, config) && clock <= now
    ensures SweptTwin(CheckRotationStatus(swept, now, config), CheckRotationStatus(plain, now, config), now)
  {
  }

  lemma TwinsPerform(swept: Tracker, plain: Tracker, clock: real, c: TimedCall, config: Config)
    requires SweptTwin(swept, plain, clock) && Consistent(swept, clock, config) && clock <= c.now
    ensures SweptTwin(Perform(swept, c, true, config), Perform(plain, c, false, config), c.now)
  {
    hide SweptTwin, Consistent, InitializeKey, RotateUnswept, CheckRotationStatus, Sweep;
    match c.call
    case Initialize(id, createdAt) => TwinsInitialize(swept, plain, clock, id, createdAt, c.now, config);
    case RotateTo(id) =>
      TwinsSweep(swept, plain, clock, c.now);
      RetiringTwice(Sweep(swept, c.now), id, c.now, config);
      RetiringTwice(plain, id, c.now, config);
      TwinsInitialize(Sweep(swept, c.now), plain, c.now, id, c.now, c.now, config);
    case Check => TwinsCheck(swept, plain, clock, c.now, config);
  }

  lemma TwinsAnswerAlike(swept: Tracker, plain: Tracker, clock: real, id: string, later: real)
    requires SweptTwin(swept, plain, clock) && clock <= later
    ensures IsAccessible(swept, id, later) == IsAccessible(plain, id, later)
  {
  }

  lemma {:induction false} TwinRuns(swept: Tracker, plain: Tracker, clock: real, calls: seq<TimedCall>, config: Config)
    requires SweptTwin(swept, plain, clock) && Consistent(swept, clock, config) && IsRun(clock, calls)
    ensures SweptTwin(After(swept, calls, true, config), After(plain, calls, false, config), ClockAfter(clock, calls))
    decreases |calls|
  {
    hide SweptTwin, Consistent, Perform;
    if calls != [] {
      TwinsPerform(swept, plain, clock, calls[0], config);
      PerformKeepsConsistent(swept, clock, calls[0], config);
      TwinRuns(Perform(swept, calls[0], true, config), Perform(plain, calls[0], false, config), calls[0].now,
               calls[1..], config);
    }
  }

  /** A tracker that never swept would give the same answer of `is_version_accessible`, now and later. */
  lemma SweepIsInvisible(clock: real, calls: seq<TimedCall>, config: Config, id: string, later: real)
    requires IsRun(clock, calls) && ClockAfter(clock, calls) <= later
    ensures IsAccessible(After(EMPTY, calls, true, config), id, later)
         == IsAccessible(After(EMPTY, calls, false, config), id, later)
  {
    TwinRuns(EMPTY, EMPTY, clock, calls, config);
    TwinsAnswerAlike(After(EMPTY, calls, true, config), After(EMPTY, calls, false, config), ClockAfter(clock, calls),
                     id, later);
  }

  /** `accessible_versions`: by status alone, whatever the retention limit. */
  function AccessibleVersions(t: Tracker): set<string> {
    set id | id in t.versions && (t.versions[id].status == Current || t.versions[id].status == Retained)
  }

  function RotatedVersions(t: Tracker): set<string> {
    set id | id in t.versions && t.versions[id].status == Rotated
  }

  lemma {:induction false} UnsweptKeepsNoRotated(t: Tracker, calls: seq<TimedCall>, config: Config)
    requires RotatedVersions(t) == {}
    ensures RotatedVersions(After(t, calls, false, config)) == {}
    decreases |calls|
  {
    if calls != [] {
      var t' := Perform(t, calls[0], false, config);
      forall id | id in t'.versions ensures t'.versions[id].status != Rotated {
        assert id in t.versions && t.versions[id].status == Rotated ==> id in RotatedVersions(t);
      }
      UnsweptKeepsNoRotated(t', calls[1..], config);
    }
  }

  lemma TwinsList(swept: Tracker, plain: Tracker, clock: real)
    requires SweptTwin(swept, plain, clock) && RotatedVersions(plain) == {}
    ensures AccessibleVersions(plain) == AccessibleVersions(swept) + RotatedVersions(swept)
  {
    assert forall id :: id in plain.versions && plain.versions[id].status == Rotated ==> id in RotatedVersions(plain);
  }

  /**
   * The sweep does show in `accessible_versions`, which ignores retention limits: exactly the versions marked ROTATED
   * leave the list.
   */
  lemma SweepShowsInList(clock: real, calls: seq<TimedCall>, config: Config)
    requires IsRun(clock, calls)
    ensures var swept, plain := After(EMPTY, calls, true, config), After(EMPTY, calls, false, config);
            && AccessibleVersions(plain) == AccessibleVersions(swept) + RotatedVersions(swept)
            && AccessibleVersions(swept) !! RotatedVersions(swept)
  {
    TwinRuns(EMPTY, EMPTY, clock, calls, config);
    UnsweptKeepsNoRotated(EMPTY, calls, config);
    TwinsList(After(EMPTY, calls, true, config), After(EMPTY, calls, false, config), ClockAfter(clock, calls));
  }

  /** The two queries differ by the retained versions whose limit has come and which no sweep has marked yet. */
  lemma ListedButInaccessible(t: Tracker, id: string, now: real)
    ensures IsAccessible(t, id, now) ==> id in AccessibleVersions(t)
    ensures id in AccessibleVersions(t) && !IsAccessible(t, id, now) <==> (
      && id in t.versions && t.versions[id].status == Retained
      && t.versions[id].retentionExpiresAt.Some? && t.versions[id].retentionExpiresAt.value <= now)
  {
  }

  // ---------------------------------------------------------------------------------------------
  // What accessibility means
  // ---------------------------------------------------------------------------------------------

  lemma PerformKeepsRetired(t: Tracker, clock: real, c: TimedCall, config: Config, id: string)
    requires Consistent(t, clock, config) && clock <= c.now && !Installs(c.call, id)
    requires id in t.versions && !IsActive(t.versions[id].status)
    ensures var t' := Perform(t, c, true, config);
            && id in t'.versions && !IsActive(t'.versions[id].status)
            && t'.versions[id].retentionExpiresAt == t.versions[id].retentionExpiresAt
  {
  }

  /** Once retired, a version stays accessible up to its fixed retention limit and never after, in every run. */
  lemma {:induction false} RetiredUntilLimit(t: Tracker, clock: real, calls: seq<TimedCall>, config: Config, id: string,
                                             later: real)
    requires Consistent(t, clock, config) && IsRun(clock, calls)
    requires id in t.versions && !IsActive(t.versions[id].status) && !Reinstalls(calls, id)
    requires ClockAfter(clock, calls) <= later
    ensures t.versions[id].retentionExpiresAt.Some?
    ensures IsAccessible(After(t, calls, true, config), id, later) <==>
      later < t.versions[id].retentionExpiresAt.value
    decreases |calls|
  {
    if calls != [] {
      ReinstallsRest(calls, id);
      PerformKeepsRetired(t, clock, calls[0], config, id);
      PerformKeepsConsistent(t, clock, calls[0], config);
      hide Consistent, Perform, IsAccessible, Reinstalls;
      RetiredUntilLimit(Perform(t, calls[0], true, config), calls[0].now, calls[1..], config, id, later);
    }
  }

  /** The version replaced by a rotation is readable for exactly one interval, whatever is called afterwards. */
  lemma RotatedOutForOneInterval(
    t: Tracker, clock: real, next: string, now: real, calls: seq<TimedCall>, config: Config, later: real)
    requires Consistent(t, clock, config) && t.current.Some? && clock <= now && next != t.current.value
    requires IsRun(now, calls) && !Reinstalls(calls, t.current.value) && ClockAfter(now, calls) <= later
    ensures IsAccessible(After(Rotate(t, next, now, config), calls, true, config), t.current.value, later) <==>
      later < now + config.interval
  {
    PerformKeepsConsistent(t, clock, TimedCall(RotateTo(next), now), config);
    RetiredUntilLimit(Rotate(t, next, now, config), now, calls, config, t.current.value, later);
  }

  /** What the documentation promises: the current version and the retained ones. */
  predicate IsPromised(t: Tracker, id: string, now: real) {
    && id in t.versions
    && (t.current == Some(id)
        || (t.versions[id].status == Retained
            && (t.versions[id].retentionExpiresAt.Some? ==> now < t.versions[id].retentionExpiresAt.value)))
  }

  /** The answer keeps the promise iff the version does not carry WARNING or OVERDUE. */
  lemma PromiseKeptExactly(t: Tracker, clock: real, config: Config, id: string, now: real)
    requires Consistent(t, clock, config)
    ensures (IsAccessible(t, id, now) == IsPromised(t, id, now)) <==>
      !(id in t.versions && (t.versions[id].status == Warning || t.versions[id].status == Overdue))
  {
  }

  /** The call checks the rotation status when the due date has passed or is within the warning threshold. */
  predicate IsDueCheck(c: TimedCall, due: real, config: Config) {
    c.call.Check? && (due - c.now < 0.0 || due - c.now <= config.warningThreshold)
  }

  /** A status check locks the current version out iff rotation is overdue or due within the threshold. */
  lemma CheckLocksOutCurrent(t: Tracker, clock: real, config: Config, now: real, later: real)
    requires Consistent(t, clock, config) && t.current.Some? && IsAccessible(t, t.current.value, later)
    ensures IsAccessible(CheckRotationStatus(t, now, config), t.current.value, later) <==>
      !IsDueCheck(TimedCall(Check, now), t.versions[t.current.value].rotationDueAt, config)
  {
  }

  /** How many calls there are up to the last one that installs a version. */
  function SinceInstall(calls: seq<TimedCall>): (n: nat)
    ensures n <= |calls|
  {
    if calls == [] then 0
    else
      var rest := SinceInstall(calls[1..]);
      if rest > 0 then rest + 1 else if calls[0].call.Check? then 0 else 1
  }

  ghost predicate HasDueCheck(calls: seq<TimedCall>, from: nat, due: real, config: Config) {
    exists i :: from <= i < |calls| && IsDueCheck(calls[i], due, config)
  }

  predicate IsLockedOut(t: Tracker) {
    t.current.Some? && t.current.value in t.versions && t.versions[t.current.value].status != Current
  }

  lemma HasDueCheckShift(calls: seq<TimedCall>, from: nat, due: real, config: Config)
    requires calls != []
    ensures HasDueCheck(calls, from + 1, due, config) <==> HasDueCheck(calls[1..], from, due, config)
    ensures HasDueCheck(calls, 0, due, config) <==>
      IsDueCheck(calls[0], due, config) || HasDueCheck(calls[1..], 0, due, config)
  {
    hide IsDueCheck;
    forall i | 0 <= i < |calls| - 1 ensures calls[1..][i] == calls[i + 1] {
    }
    if HasDueCheck(calls[1..], from, due, config) {
      var i :| from <= i < |calls[1..]| && IsDueCheck(calls[1..][i], due, config);
      assert IsDueCheck(calls[i + 1], due, config);
    }
    if HasDueCheck(calls[1..], 0, due, config) {
      var i :| 0 <= i < |calls[1..]| && IsDueCheck(calls[1..][i], due, config);
      assert IsDueCheck(calls[i + 1], due, config);
    }
  }

  lemma PerformLocks(t: Tracker, clock: real, c: TimedCall, config: Config)
    requires Consistent(t, clock, config)
    ensures var t' := Perform(t, c, true, config);
            && (!c.call.Check? ==> t'.current.Some? && !IsLockedOut(t'))
            && (c.call.Check? ==> t'.current == t.current)
            && (c.call.Check? && t.current.Some? ==>
                 && t.current.value in t.versions && t.current.value in t'.versions
                 && DueOf(t') == DueOf(t) == t.versions[t.current.value].rotationDueAt
                 && (IsLockedOut(t') <==>
                      IsLockedOut(t) || IsDueCheck(c, t.versions[t.current.value].rotationDueAt, config)))
  {
  }

  function DueOf(t: Tracker): real {
    if t.current.Some? && t.current.value in t.versions then t.versions[t.current.value].rotationDueAt else 0.0
  }

  /** The due date of the version that is current after the run. */
  function DueAfter(t: Tracker, calls: seq<TimedCall>, config: Config): real {
    DueOf(After(t, calls, true, config))
  }

  lemma {:induction false} LockedAfter(t: Tracker, clock: real, calls: seq<TimedCall>, config: Config)
    requires Consistent(t, clock, config) && IsRun(clock, calls)
    ensures var n, due := SinceInstall(calls), DueAfter(t, calls, config);
            && (n == 0 ==> After(t, calls, true, config).current == t.current && due == DueOf(t))
            && (n > 0 || t.current.Some? ==> (
                 IsLockedOut(After(t, calls, true, config)) <==>
                   HasDueCheck(calls, n, due, config) || (n == 0 && IsLockedOut(t))))
    decreases |calls|
  {
    if calls != [] {
      var t' := Perform(t, calls[0], true, config);
      PerformLocks(t, clock, calls[0], config);
      PerformKeepsConsistent(t, clock, calls[0], config);
      assert IsLockedOut(t) ==> t.current.Some?;
      hide Consistent, Perform, IsLockedOut, HasDueCheck, IsDueCheck;
      LockedAfter(t', calls[0].now, calls[1..], config);
      HasDueCheckShift(calls, SinceInstall(calls[1..]), DueAfter(t, calls, config), config);
    }
  }

  /**
   * Over every run: the current version is inaccessible iff some status check since its installation came when
   * rotation was overdue or due within the threshold. The answer does not depend on when it is asked.
   */
  lemma LockedOutExactly(clock: real, calls: seq<TimedCall>, config: Config, later: real)
    requires IsRun(clock, calls) && After(EMPTY, calls, true, config).current.Some?
    ensures var t := After(EMPTY, calls, true, config);
            && t.current.value in t.versions
            && (!IsAccessible(t, t.current.value, later) <==>
                 HasDueCheck(calls, SinceInstall(calls), t.versions[t.current.value].rotationDueAt, config))
  {
    RunKeepsConsistent(EMPTY, clock, calls, config);
    LockedAfter(EMPTY, clock, calls, config);
    hide Perform, HasDueCheck, After;
  }

  /** The lock-out happens under every configuration: one check after the due date. */
  lemma LockedOutRun(config: Config) returns (calls: seq<TimedCall>)
    ensures IsRun(0.0, calls)
    ensures var t := After(EMPTY, calls, true, config);
            t.current == Some("k") && "k" in t.versions && forall later :: !IsAccessible(t, "k", later)
  {
    var checked := if config.interval >= 0.0 then config.interval + 1.0 else 0.0;
    var install, check := TimedCall(Initialize("k", 0.0), 0.0), TimedCall(Check, checked);
    calls := [install, check];
    var t1 := Perform(EMPTY, install, true, config);
    assert calls[1..] == [check] && [check][1..] == [];
    assert After(t1, [check], true, config) == Perform(t1, check, true, config);
    assert IsRun(0.0, [check]);
  }

  // ---------------------------------------------------------------------------------------------
  // The tracker
  // ---------------------------------------------------------------------------------------------

  class KeyRotationTracker {
    const config: Config
    var versions: map<string, KeyVersion>
    var current: Option<string>
    /** The largest clock value read so far. */
    ghost var clock: real

    ghost function Model(): Tracker
      reads this
    {
      Tracker(versions, current)
    }

    ghost predicate Valid()
      reads this
    {
      Consistent(Model(), clock, config)
    }

    constructor (config: Config, ghost start: real)
      ensures Valid() && Model() == EMPTY && this.config == config && clock == start
    {
      this.config, versions, current, clock := config, map[], None, start;
    }

    method Retire(id: string, now: real)
      modifies `versions
      ensures Model() == RetireVersion(old(Model()), id, now, config)
      ensures versions == if id !in old(versions) then old(versions) else old(versions)[id := old(versions)[id].(
        status := Retained, rotatedAt := Some(now), retentionExpiresAt := Some(now + config.interval))]
    {
      if id in versions {
        var key := versions[id].(
          status := Retained, rotatedAt := Some(now), retentionExpiresAt := Some(now + config.interval));
        versions := versions[id := key];
      }
    }

    /** `createdAt` may be given by the caller; it need not be the clock. */
    method Initialize(id: string, createdAt: real, ghost now: real)
      requires Valid() && clock <= now
      modifies this
      ensures Valid() && clock == now
      ensures Model() == Perform(old(Model()), TimedCall(Call.Initialize(id, createdAt), now), true, config)
    {
      PerformKeepsConsistent(Model(), clock, TimedCall(Call.Initialize(id, createdAt), now), config);
      hide Consistent;
      StoreNewKey(id, createdAt);
      clock := now;
    }

    method StoreNewKey(id: string, createdAt: real)
      modifies `versions, `current
      ensures Model() == InitializeKey(old(Model()), id, createdAt, config)
      ensures current == Some(id) && id in versions
      ensures versions[id] == KeyVersion(createdAt, createdAt + config.interval, Current, None, None)
      ensures versions.Keys == old(versions).Keys + {id}
      ensures forall v | v in old(versions) && v != id && old(current) != Some(v) :: versions[v] == old(versions)[v]
      ensures forall v | v in old(versions) && v != id && old(current) == Some(v) ::
        versions[v] == old(versions)[v].(
          status := Retained, rotatedAt := Some(createdAt), retentionExpiresAt := Some(createdAt + config.interval))
    {
      var key := KeyVersion(createdAt, createdAt + config.interval, Current, None, None);
      if current.Some? {
        Retire(current.value, createdAt);
      }
      versions := versions[id := key];
      current := Some(id);
    }

    method RotateKey(id: string, now: real)
      requires Valid() && clock <= now
      modifies this
      ensures Valid() && clock == now
      ensures Model() == Perform(old(Model()), TimedCall(RotateTo(id), now), true, config)
      ensures current == Some(id) && versions.Keys == old(versions).Keys + {id}
      ensures versions[id] == KeyVersion(now, now + config.interval, Current, None, None)
      ensures forall v | v in old(versions) && v != id && old(current) != Some(v) ::
        versions[v] == SweptAt(old(versions)[v], now)
      ensures forall v | v in old(versions) && v != id && old(current) == Some(v) ::
        versions[v].status == Retained && versions[v].rotatedAt == Some(now)
        && versions[v].retentionExpiresAt == Some(now + config.interval)
    {
      PerformKeepsConsistent(Model(), clock, TimedCall(RotateTo(id), now), config);
      hide Consistent, Sweep, InitializeKey;
      SweepRetained(now);
      if current.Some? {
        Retire(current.value, now);
      }
      StoreNewKey(id, now);
      clock := now;
    }

    method SweepRetained(now: real)
      modifies `versions
      ensures Model() == Sweep(old(Model()), now)
      ensures versions.Keys == old(versions).Keys && current == old(current)
      ensures forall v | v in old(versions) :: versions[v] == SweptAt(old(versions)[v], now)
    {
      var pending := versions.Keys;
      while pending != {}
        invariant pending <= versions.Keys == old(versions).Keys && current == old(current)
        invariant forall v :: v in versions ==>
          versions[v] == if v in pending then old(versions)[v] else Sweep(old(Model()), now).versions[v]
        decreases |pending|
      {
        var v :| v in pending;
        if versions[v].status == Retained {
          if versions[v].retentionExpiresAt.Some? && now > versions[v].retentionExpiresAt.value {
            versions := versions[v := versions[v].(status := Rotated)];
          }
        }
        pending := pending - {v};
      }
    }

    method CheckStatus(now: real) returns (status: Status)
      requires Valid() && clock <= now
      modifies this
      ensures Valid() && clock == now
      ensures Model() == Perform(old(Model()), TimedCall(Check, now), true, config)
      ensures status == ReportedStatus(old(Model()), now, config)
      ensures old(current) == None ==> status == Current && versions == old(versions)
      ensures old(current).Some? ==> old(current).value in old(versions)
      ensures old(current).Some? ==>
        var due := old(versions)[old(current).value].rotationDueAt;
        && (status == Overdue <==> due < now)
        && (status == Warning <==> now <= due && due - now <= config.warningThreshold)
        && (status == Current <==> now <= due && due - now > config.warningThreshold)
      ensures old(current).Some? && status != Current ==>
        versions == old(versions)[old(current).value := old(versions)[old(current).value].(status := status)]
      ensures current == old(current) && (status == Current ==> versions == old(versions))
    {
      PerformKeepsConsistent(Model(), clock, TimedCall(Check, now), config);
      clock := now;
      if current == None {
        return Current;
      }
      var key := versions[current.value];
      var remaining := key.rotationDueAt - now;
      if remaining < 0.0 {
        versions := versions[current.value := key.(status := Overdue)];
        return Overdue;
      }
      if remaining <= config.warningThreshold {
        versions := versions[current.value := key.(status := Warning)];
        return Warning;
      }
      return Current;
    }

    method IsVersionAccessible(id: string, now: real) returns (accessible: bool)
      ensures accessible <==> IsAccessible(Tracker(versions, current), id, now)
    {
      if id !in versions {
        return false;
      }
      var key := versions[id];
      if key.status == Current {
        return true;
      }
      if key.status == Retained {
        if key.retentionExpiresAt.Some? {
          return now < key.retentionExpiresAt.value;
        }
        return true;
      }
      return false;
    }
  }
}
