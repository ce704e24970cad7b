/**
 * The dual write of lineage events: `LineageEmitter.emit` and `QdrantLineageWriter.write` as a protocol whose steps
 * interleave freely, since the original does its I/O outside the lock.
 */
module DualWrite {
  import opened Common

  const MAX_RETRIES: nat := 3

  /** What the protocol looks at: the content hash and the classification; `body` is the rest. */
  datatype Event = Event(hash: string, classification: string, body: string)

  datatype Store = Qdrant | Postgres

  datatype Outcome = Returned(success: bool, warned: bool) | Raised(store: Store)

  datatype Phase =
    | Upserting(attempt: nat)
    | WritingRow
    | Deciding
    | Done(outcome: Outcome)

  /**
   * One call of `emit`. `row` is the row id PostgreSQL gave it, `stored` says that some upsert attempt took effect,
   * `slept` is the total backoff in seconds.
   */
  datatype Emit = Emit(event: Event, phase: Phase, qdrantFailed: bool, stored: bool, row: Option<string>, slept: nat)

  datatype State = State(points: map<string, Event>, rows: map<string, Event>, emits: map<nat, Emit>)

  datatype Step =
    | Start(id: nat, event: Event)
    | UpsertSucceeds(id: nat)
    | UpsertFails(id: nat, tookEffect: bool)
    | RowWritten(id: nat, row: string)
    | RowFails(id: nat)
    | Decide(id: nat)

  /** The point id derived from a content hash. */
  type PointId = string -> string

  const INIT := State(map[], map[], map[])

  function Pow3(n: nat): nat {
    if n == 0 then 1 else 3 * Pow3(n - 1)
  }

  /** Seconds slept after `failures` failed attempts that were each followed by another one. */
  function TotalBackoff(failures: nat): nat {
    if failures == 0 then 0 else TotalBackoff(failures - 1) + Pow3(failures - 1)
  }

  /** Step 4 of `emit`: classification-aware error handling. */
  function DecideOutcome(e: Emit): Outcome {
    if IsSensitive(e.event.classification) && e.qdrantFailed then Raised(Qdrant)
    else if IsSensitive(e.event.classification) && e.row == None then Raised(Postgres)
    else Returned(!e.qdrantFailed && e.row != None, e.qdrantFailed || e.row == None)
  }

  predicate CanStep(s: State, step: Step) {
    match step
    case Start(id, _) => id !in s.emits
    case UpsertSucceeds(id) => id in s.emits && s.emits[id].phase.Upserting?
    case UpsertFails(id, _) => id in s.emits && s.emits[id].phase.Upserting?
    case RowWritten(id, row) => id in s.emits && s.emits[id].phase.WritingRow? && row !in s.rows
    case RowFails(id) => id in s.emits && s.emits[id].phase.WritingRow?
    case Decide(id) => id in s.emits && s.emits[id].phase.Deciding?
  }

  function Apply(s: State, step: Step, pointId: PointId): State
    requires CanStep(s, step)
  {
    match step
    case Start(id, event) =>
      s.(emits := s.emits[id := Emit(event, Upserting(0), false, false, None, 0)])
    case UpsertSucceeds(id) =>
      var e := s.emits[id];
      s.(points := s.points[pointId(e.event.hash) := e.event],
         emits := s.emits[id := e.(phase := WritingRow, stored := true)])
    case UpsertFails(id, tookEffect) =>
      var e := s.emits[id];
      var attempt := e.phase.attempt;
      var e' := if attempt < MAX_RETRIES - 1
                then e.(phase := Upserting(attempt + 1), slept := e.slept + Pow3(attempt))
                else e.(phase := WritingRow, qdrantFailed := true);
      s.(points := if tookEffect then s.points[pointId(e.event.hash) := e.event] else s.points,
         emits := s.emits[id := e'.(stored := e.stored || tookEffect)])
    case RowWritten(id, row) =>
      var e := s.emits[id];
      s.(rows := s.rows[row := e.event], emits := s.emits[id := e.(phase := Deciding, row := Some(row))])
    case RowFails(id) =>
      s.(emits := s.emits[id := s.emits[id].(phase := Deciding)])
    case Decide(id) =>
      var e := s.emits[id];
      s.(emits := s.emits[id := e.(phase := Done(DecideOutcome(e)))])
  }

  predicate IsRun(s: State, steps: seq<Step>, pointId: PointId)
    decreases |steps|
  {
    steps == [] || (CanStep(s, steps[0]) && IsRun(Apply(s, steps[0], pointId), steps[1..], pointId))
  }

  /** The state after a run: any interleaving of any number of emits. */
  function After(s: State, steps: seq<Step>, pointId: PointId): State
    requires IsRun(s, steps, pointId)
    decreases |steps|
  {
    if steps == [] then s else After(Apply(s, steps[0], pointId), steps[1..], pointId)
  }

  // ---------------------------------------------------------------------------------------------
  // What every run keeps
  // ---------------------------------------------------------------------------------------------

  predicate EmitInvariant(e: Emit) {
    match e.phase
    case Upserting(a) => a < MAX_RETRIES && !e.qdrantFailed && e.row == None && e.slept == TotalBackoff(a)
    case WritingRow => BackoffKnown(e) && e.row == None
    case Deciding => BackoffKnown(e)
    case Done(outcome) => BackoffKnown(e) && outcome == DecideOutcome(e)
  }

  predicate BackoffKnown(e: Emit) {
    if e.qdrantFailed then e.slept == TotalBackoff(MAX_RETRIES - 1) else e.stored
  }

  /** The emits whose PostgreSQL write succeeded. */
  function RowWriters(s: State): set<nat> {
    set id | id in s.emits && s.emits[id].row.Some?
  }

  /** The content hashes of which some upsert took effect. */
  function StoredHashes(s: State): set<string> {
    set id | id in s.emits && s.emits[id].stored :: s.emits[id].event.hash
  }

  predicate HasRow(s: State, id: nat, row: string) {
    id in s.emits && s.emits[id].row == Some(row)
  }

  ghost predicate RowsMatchWriters(s: State) {
    && |s.rows| == |RowWriters(s)|
    && (forall id, r :: HasRow(s, id, r) ==> r in s.rows && s.rows[r] == s.emits[id].event)
    && (forall r :: r in s.rows ==> exists id :: HasRow(s, id, r))
    && (forall a, b, r :: HasRow(s, a, r) && HasRow(s, b, r) ==> a == b)
  }

  ghost predicate PointsMatchHashes(s: State, pointId: PointId) {
    && s.points.Keys == (set h | h in StoredHashes(s) :: pointId(h))
    && (forall p :: p in s.points ==> s.points[p].hash in StoredHashes(s) && p == pointId(s.points[p].hash))
  }

  /** An upsert of the emit took effect on the point. */
  predicate StoredOn(s: State, id: nat, point: string, pointId: PointId) {
    id in s.emits && s.emits[id].stored && pointId(s.emits[id].event.hash) == point
  }

  /** Each point holds the event of some emit of which an upsert took effect there. */
  ghost predicate PointsHoldEvents(s: State, pointId: PointId) {
    forall p :: p in s.points ==> exists id :: StoredOn(s, id, p, pointId) && s.emits[id].event == s.points[p]
  }

  ghost predicate Invariant(s: State, pointId: PointId) {
    && (forall id :: id in s.emits ==> EmitInvariant(s.emits[id]))
    && RowsMatchWriters(s)
    && PointsMatchHashes(s, pointId)
    && PointsHoldEvents(s, pointId)
  }

  lemma StepKeepsEmits(s: State, step: Step, pointId: PointId)
    requires forall id :: id in s.emits ==> EmitInvariant(s.emits[id])
    requires CanStep(s, step)
    ensures var s' := Apply(s, step, pointId); forall id :: id in s'.emits ==> EmitInvariant(s'.emits[id])
  {
  }

  /** A step that neither writes a row nor changes which emits have one leaves the correspondence alone. */
  lemma SameRowsMatch(s: State, s': State)
    requires RowsMatchWriters(s) && s'.rows == s.rows
    requires forall id :: id in s'.emits && s'.emits[id].row.Some? ==> id in s.emits
    requires forall id :: id in s.emits ==>
      id in s'.emits && s'.emits[id].row == s.emits[id].row && s'.emits[id].event == s.emits[id].event
    ensures RowsMatchWriters(s')
  {
    assert RowWriters(s') == RowWriters(s);
    forall id, r ensures HasRow(s', id, r) <==> HasRow(s, id, r) {
    }
  }

  lemma NewWriterCounted(s: State, s': State, id: nat)
    requires id in s.emits && s.emits[id].row == None
    requires s'.emits.Keys == s.emits.Keys && s'.emits[id].row.Some?
    requires forall k :: k in s.emits && k != id ==> s'.emits[k] == s.emits[k]
    ensures |RowWriters(s')| == |RowWriters(s)| + 1
  {
    assert RowWriters(s') == RowWriters(s) + {id};
  }

  lemma NewRowMatches(s: State, s': State, id: nat, row: string)
    requires RowsMatchWriters(s) && id in s.emits && s.emits[id].row == None && row !in s.rows
    requires s'.emits.Keys == s.emits.Keys && s'.rows == s.rows[row := s.emits[id].event]
    requires forall k :: k in s.emits && k != id ==> s'.emits[k] == s.emits[k]
    requires s'.emits[id].row == Some(row) && s'.emits[id].event == s.emits[id].event
    ensures RowsMatchWriters(s')
  {
    hide RowWriters;
    NewWriterCounted(s, s', id);
    assert HasRow(s', id, row);
    forall r | r in s'.rows ensures exists k :: HasRow(s', k, r) {
      if r != row {
        var k :| HasRow(s, k, r);
        assert HasRow(s', k, r);
      }
    }
    forall k, r | HasRow(s', k, r) && k != id ensures HasRow(s, k, r) {
    }
  }

  lemma StepKeepsRows(s: State, step: Step, pointId: PointId)
    requires forall id :: id in s.emits ==> EmitInvariant(s.emits[id])
    requires RowsMatchWriters(s) && CanStep(s, step)
    ensures RowsMatchWriters(Apply(s, step, pointId))
  {
    hide RowsMatchWriters;
    if step.RowWritten? {
      NewRowMatches(s, Apply(s, step, pointId), step.id, step.row);
    } else {
      SameRowsMatch(s, Apply(s, step, pointId));
    }
  }

  lemma StepKeepsPoints(s: State, step: Step, pointId: PointId)
    requires forall id :: id in s.emits ==> EmitInvariant(s.emits[id])
    requires PointsMatchHashes(s, pointId) && CanStep(s, step)
    ensures PointsMatchHashes(Apply(s, step, pointId), pointId)
  {
    var s' := Apply(s, step, pointId);
    var stores := step.UpsertSucceeds? || (step.UpsertFails? && step.tookEffect);
    var hash := if step.Start? then "" else s.emits[step.id].event.hash;
    forall h ensures h in StoredHashes(s') <==> h in StoredHashes(s) || (stores && h == hash) {
      if h in StoredHashes(s) {
        var id :| id in s.emits && s.emits[id].stored && s.emits[id].event.hash == h;
        assert id in s'.emits && s'.emits[id].stored && s'.emits[id].event.hash == h;
      }
      if stores && h == hash {
        assert s'.emits[step.id].stored && s'.emits[step.id].event.hash == h;
      }
    }
  }

  lemma StepKeepsPointEvents(s: State, step: Step, pointId: PointId)
    requires PointsHoldEvents(s, pointId) && CanStep(s, step)
    ensures PointsHoldEvents(Apply(s, step, pointId), pointId)
  {
    var s' := Apply(s, step, pointId);
    forall p | p in s'.points
      ensures exists id :: StoredOn(s', id, p, pointId) && s'.emits[id].event == s'.points[p]
    {
      if p in s.points && s'.points[p] == s.points[p] {
        var id :| StoredOn(s, id, p, pointId) && s.emits[id].event == s.points[p];
        assert StoredOn(s', id, p, pointId) && s'.emits[id].event == s.emits[id].event;
      } else {
        assert StoredOn(s', step.id, p, pointId);
      }
    }
  }

  lemma {:induction false} InvariantHolds(s: State, steps: seq<Step>, pointId: PointId)
    requires Invariant(s, pointId) && IsRun(s, steps, pointId)
    ensures Invariant(After(s, steps, pointId), pointId)
    decreases |steps|
  {
    hide RowsMatchWriters, PointsMatchHashes, PointsHoldEvents, EmitInvariant, Apply, CanStep;
    if steps != [] {
      StepKeepsEmits(s, steps[0], pointId);
      StepKeepsRows(s, steps[0], pointId);
      StepKeepsPoints(s, steps[0], pointId);
      StepKeepsPointEvents(s, steps[0], pointId);
      InvariantHolds(Apply(s, steps[0], pointId), steps[1..], pointId);
    }
  }

  lemma InitInvariant(pointId: PointId)
    ensures Invariant(INIT, pointId)
  {
  }

  // ---------------------------------------------------------------------------------------------
  // What a caller may rely on, over every interleaving
  // ---------------------------------------------------------------------------------------------

  predicate InQdrant(s: State, hash: string, pointId: PointId) {
    pointId(hash) in s.points && s.points[pointId(hash)].hash == hash
  }

  predicate InPostgres(s: State, hash: string) {
    exists r :: r in s.rows && s.rows[r].hash == hash
  }

  /** The point of this hash holds another hash: point ids have 128 bits, content hashes are of any length. */
  predicate Overwritten(s: State, hash: string, pointId: PointId) {
    pointId(hash) in s.points && s.points[pointId(hash)].hash != hash
  }

  /** No other stored hash shares the point of this one. */
  ghost predicate OwnPoint(s: State, hash: string, pointId: PointId) {
    forall h :: h in StoredHashes(s) && pointId(h) == pointId(hash) ==> h == hash
  }

  /** No two stored hashes collide. */
  ghost predicate NoCollision(s: State, pointId: PointId) {
    forall h :: h in StoredHashes(s) ==> OwnPoint(s, h, pointId)
  }

  predicate HoldsEvent(s: State, e: Event, pointId: PointId) {
    pointId(e.hash) in s.points && s.points[pointId(e.hash)] == e
  }

  /** The event's point holds another event, be it of a colliding hash or, far more likely, of the same one. */
  predicate IsDisplaced(s: State, e: Event, pointId: PointId) {
    pointId(e.hash) in s.points && s.points[pointId(e.hash)] != e
  }

  /** Every emit that took effect on the event's point carries this very event. */
  ghost predicate OwnsPoint(s: State, e: Event, pointId: PointId) {
    forall id :: StoredOn(s, id, pointId(e.hash), pointId) ==> s.emits[id].event == e
  }

  predicate IsClean(e: Emit) {
    e.phase.Done? && e.phase.outcome.Returned? && !e.phase.outcome.warned
  }

  lemma CleanMeansBothStores(s: State, id: nat, pointId: PointId)
    requires Invariant(s, pointId) && id in s.emits && IsClean(s.emits[id])
    ensures var hash := s.emits[id].event.hash;
            InQdrant(s, hash, pointId) || (Overwritten(s, hash, pointId) && !OwnPoint(s, hash, pointId))
    ensures HasRow(s, id, s.emits[id].row.value)
    ensures InPostgres(s, s.emits[id].event.hash)
  {
    var e := s.emits[id];
    assert EmitInvariant(e);
    assert e.event.hash in StoredHashes(s);
    assert pointId(e.event.hash) in s.points;
    assert HasRow(s, id, e.row.value);
  }

  lemma CleanMeansEventStored(s: State, id: nat, pointId: PointId)
    requires Invariant(s, pointId) && id in s.emits && IsClean(s.emits[id])
    ensures var e := s.emits[id].event;
            && e in s.rows.Values
            && (HoldsEvent(s, e, pointId) || (IsDisplaced(s, e, pointId) && !OwnsPoint(s, e, pointId)))
  {
    var e := s.emits[id].event;
    CleanMeansBothStores(s, id, pointId);
    assert s.rows[s.emits[id].row.value] == e;
    hide PointsMatchHashes, EmitInvariant, RowsMatchWriters;
    var p := pointId(e.hash);
    var k :| StoredOn(s, k, p, pointId) && s.emits[k].event == s.points[p];
  }

  /** The event that the step puts into the given point, if it does. */
  function Puts(s: State, step: Step, point: string, pointId: PointId): Option<Event>
    requires CanStep(s, step)
  {
    if step.UpsertSucceeds? || (step.UpsertFails? && step.tookEffect) then
      var event := s.emits[step.id].event;
      if pointId(event.hash) == point then Some(event) else None
    else None
  }

  /** The event of the last upsert of the run that took effect on the given point. */
  function LastUpsert(s: State, steps: seq<Step>, point: string, pointId: PointId): Option<Event>
    requires IsRun(s, steps, pointId)
    decreases |steps|
  {
    if steps == [] then None
    else
      match LastUpsert(Apply(s, steps[0], pointId), steps[1..], point, pointId)
      case Some(event) => Some(event)
      case None => Puts(s, steps[0], point, pointId)
  }

  function PointAt(s: State, point: string): Option<Event> {
    if point in s.points then Some(s.points[point]) else None
  }

  lemma StepPuts(s: State, step: Step, point: string, pointId: PointId)
    requires CanStep(s, step)
    ensures var put := Puts(s, step, point, pointId);
            PointAt(Apply(s, step, pointId), point) == if put.Some? then put else PointAt(s, point)
  {
  }

  /** Whatever the interleaving, a point holds the event of the last upsert that took effect on it. */
  lemma {:induction false} PointHoldsLastUpsert(s: State, steps: seq<Step>, point: string, pointId: PointId)
    requires IsRun(s, steps, pointId)
    ensures var last := LastUpsert(s, steps, point, pointId);
            PointAt(After(s, steps, pointId), point) == if last.Some? then last else PointAt(s, point)
    decreases |steps|
  {
    hide Apply, CanStep, Puts, PointAt;
    if steps != [] {
      StepPuts(s, steps[0], point, pointId);
      PointHoldsLastUpsert(Apply(s, steps[0], pointId), steps[1..], point, pointId);
    }
  }

  lemma OwnsPointMeans(s: State, e: Event, pointId: PointId)
    ensures OwnsPoint(s, e, pointId) <==>
      forall k | k in s.emits && s.emits[k].stored && pointId(s.emits[k].event.hash) == pointId(e.hash) ::
      s.emits[k].event == e
  {
    if OwnsPoint(s, e, pointId) {
      forall k | k in s.emits && s.emits[k].stored && pointId(s.emits[k].event.hash) == pointId(e.hash)
        ensures s.emits[k].event == e
      {
        assert StoredOn(s, k, pointId(e.hash), pointId);
      }
    }
  }

  /** A sensitive emit that has returned. */
  predicate ReturnedSensitive(s: State, id: nat) {
    && id in s.emits && IsSensitive(s.emits[id].event.classification)
    && s.emits[id].phase.Done? && s.emits[id].phase.outcome.Returned?
  }

  lemma ReturnedIsStored(s: State, id: nat, pointId: PointId)
    requires Invariant(s, pointId) && ReturnedSensitive(s, id)
    ensures var e := s.emits[id].event;
            && s.emits[id].phase.outcome == Returned(true, false)
            && s.emits[id].row.Some? && s.emits[id].row.value in s.rows && s.rows[s.emits[id].row.value] == e
            && (HoldsEvent(s, e, pointId) || (IsDisplaced(s, e, pointId) && !OwnsPoint(s, e, pointId)))
            && (InQdrant(s, e.hash, pointId)
                || (Overwritten(s, e.hash, pointId) && !OwnPoint(s, e.hash, pointId)))
  {
    assert EmitInvariant(s.emits[id]);
    assert IsClean(s.emits[id]);
    CleanMeansBothStores(s, id, pointId);
    CleanMeansEventStored(s, id, pointId);
    hide Invariant, OwnsPoint, OwnPoint, InQdrant, Overwritten, HoldsEvent, IsDisplaced, InPostgres;
  }

  /**
   * A sensitive emit that returns normally has its own row in PostgreSQL. Its event is in Qdrant iff no other event has
   * been put on its point since, and in particular if all emits on the point carry this event. Its content hash is in
   * Qdrant even then, unless a different hash collides.
   */
  lemma SensitiveReturnMeansBothStores(steps: seq<Step>, id: nat, pointId: PointId)
    requires IsRun(INIT, steps, pointId)
    requires var s := After(INIT, steps, pointId);
             && id in s.emits && IsSensitive(s.emits[id].event.classification)
             && s.emits[id].phase.Done? && s.emits[id].phase.outcome.Returned?
    ensures var s := After(INIT, steps, pointId);
            var e := s.emits[id].event;
            && s.emits[id].phase.outcome == Returned(true, false)
            && s.emits[id].row.Some? && s.emits[id].row.value in s.rows && s.rows[s.emits[id].row.value] == e
            && pointId(e.hash) in s.points
            && (HoldsEvent(s, e, pointId) || IsDisplaced(s, e, pointId))
            && (HoldsEvent(s, e, pointId) <==> LastUpsert(INIT, steps, pointId(e.hash), pointId) == Some(e))
            && ((forall k | k in s.emits && s.emits[k].stored && pointId(s.emits[k].event.hash) == pointId(e.hash) ::
                  s.emits[k].event == e) ==> HoldsEvent(s, e, pointId))
            && (InQdrant(s, e.hash, pointId) || Overwritten(s, e.hash, pointId))
            && (OwnPoint(s, e.hash, pointId) ==> InQdrant(s, e.hash, pointId))
  {
    hide IsRun, After, LastUpsert, Invariant, OwnsPoint, OwnPoint, Overwritten, InQdrant;
    InitInvariant(pointId);
    InvariantHolds(INIT, steps, pointId);
    var s := After(INIT, steps, pointId);
    ReturnedIsStored(s, id, pointId);
    OwnsPointMeans(s, s.emits[id].event, pointId);
    PointHoldsLastUpsert(INIT, steps, pointId(s.emits[id].event.hash), pointId);
  }

  predicate Injective(hashes: set<string>, pointId: PointId) {
    forall a, b :: a in hashes && b in hashes && pointId(a) == pointId(b) ==> a == b
  }

  lemma {:induction false} ImageSize(hashes: set<string>, pointId: PointId)
    ensures |set h | h in hashes :: pointId(h)| <= |hashes|
    ensures |set h | h in hashes :: pointId(h)| == |hashes| <==> Injective(hashes, pointId)
  {
    if hashes != {} {
      var x :| x in hashes;
      var rest := hashes - {x};
      var image := set h | h in rest :: pointId(h);
      ImageSize(rest, pointId);
      assert (set h | h in hashes :: pointId(h)) == image + {pointId(x)};
      if pointId(x) in image {
        var y :| y in rest && pointId(y) == pointId(x);
        assert image + {pointId(x)} == image;
      } else {
        assert forall y :: y in rest ==> pointId(y) in image;
      }
    }
  }

  lemma CollisionsAsImage(s: State, pointId: PointId)
    ensures NoCollision(s, pointId) <==> Injective(StoredHashes(s), pointId)
  {
    hide StoredHashes;
  }

  lemma FoundIffNoCollision(s: State, pointId: PointId)
    requires PointsMatchHashes(s, pointId)
    ensures (forall h :: h in StoredHashes(s) ==> InQdrant(s, h, pointId)) <==> NoCollision(s, pointId)
  {
    hide StoredHashes;
    assert forall h :: h in StoredHashes(s) ==> pointId(h) in s.points;
  }

  /**
   * PostgreSQL holds one row per successful row write, each with its own event. Qdrant holds nothing but hashes of
   * which an upsert took effect, retries and repeated emits notwithstanding; it holds one point for each of them, and
   * each can be found, iff no two of them collide.
   */
  lemma StoreSizes(steps: seq<Step>, pointId: PointId)
    requires IsRun(INIT, steps, pointId)
    ensures var s := After(INIT, steps, pointId);
            && |s.rows| == |RowWriters(s)| && RowsMatchWriters(s)
            && |s.points| <= |StoredHashes(s)| && PointsMatchHashes(s, pointId)
            && (|s.points| == |StoredHashes(s)| <==> NoCollision(s, pointId))
            && ((forall h :: h in StoredHashes(s) ==> InQdrant(s, h, pointId)) <==> NoCollision(s, pointId))
  {
    InitInvariant(pointId);
    InvariantHolds(INIT, steps, pointId);
    var s := After(INIT, steps, pointId);
    ImageSize(StoredHashes(s), pointId);
    CollisionsAsImage(s, pointId);
    FoundIffNoCollision(s, pointId);
    hide RowsMatchWriters, StoredHashes, NoCollision, InQdrant;
    assert |s.points| == |s.points.Keys|;
  }

  /**
   * An event found in one store only was emitted, and every emit of it raised, warned or is still in flight, unless
   * its point has been taken by a different event of some other emit.
   */
  lemma EventGapIsAccountedFor(steps: seq<Step>, e: Event, pointId: PointId)
    requires IsRun(INIT, steps, pointId)
    requires var s := After(INIT, steps, pointId); HoldsEvent(s, e, pointId) != (e in s.rows.Values)
    ensures var s := After(INIT, steps, pointId);
            && (exists id :: id in s.emits && s.emits[id].event == e)
            && (forall id :: id in s.emits && s.emits[id].event == e && IsClean(s.emits[id]) ==>
                 e in s.rows.Values && IsDisplaced(s, e, pointId) && !OwnsPoint(s, e, pointId))
  {
    InitInvariant(pointId);
    InvariantHolds(INIT, steps, pointId);
    var s := After(INIT, steps, pointId);
    forall id | id in s.emits && s.emits[id].event == e && IsClean(s.emits[id])
      ensures e in s.rows.Values && IsDisplaced(s, e, pointId) && !OwnsPoint(s, e, pointId)
    {
      CleanMeansEventStored(s, id, pointId);
    }
    if e in s.rows.Values {
      var r :| r in s.rows && s.rows[r] == e;
      var id :| HasRow(s, id, r);
      assert s.emits[id].event == e;
    } else {
      var id :| StoredOn(s, id, pointId(e.hash), pointId) && s.emits[id].event == s.points[pointId(e.hash)];
      assert s.emits[id].event == e;
    }
  }

  /** One more emit that succeeds in both stores, after any run. */
  lemma EmitCleanly(steps: seq<Step>, id: nat, event: Event, row: string, pointId: PointId) returns (more: seq<Step>)
    requires IsRun(INIT, steps, pointId)
    requires id !in After(INIT, steps, pointId).emits && row !in After(INIT, steps, pointId).rows
    ensures IsRun(INIT, more, pointId)
    ensures var s := After(INIT, steps, pointId);
            After(INIT, more, pointId) == State(
              s.points[pointId(event.hash) := event], s.rows[row := event],
              s.emits[id := Emit(event, Done(Returned(true, false)), false, true, Some(row), 0)])
  {
    hide IsRun, After;
    AppendStep(INIT, steps, Start(id, event), pointId);
    more := steps + [Start(id, event)];
    AppendStep(INIT, more, UpsertSucceeds(id), pointId);
    more := more + [UpsertSucceeds(id)];
    AppendStep(INIT, more, RowWritten(id, row), pointId);
    more := more + [RowWritten(id, row)];
    AppendStep(INIT, more, Decide(id), pointId);
    more := more + [Decide(id)];
  }

  /**
   * Two different events of one content hash are enough to lose the first from Qdrant: both emits return success
   * without a warning, and no hash is missing anywhere.
   */
  lemma EqualHashDisplaces(e1: Event, e2: Event, pointId: PointId) returns (steps: seq<Step>)
    requires IsSensitive(e1.classification) && e1.hash == e2.hash && e1 != e2
    ensures IsRun(INIT, steps, pointId)
    ensures var s := After(INIT, steps, pointId);
            && s.emits.Keys == {0, 1} && s.emits[0].event == e1 && s.emits[1].event == e2
            && s.emits[0].phase == s.emits[1].phase == Done(Returned(true, false))
            && e1 in s.rows.Values && e1 !in s.points.Values && InQdrant(s, e1.hash, pointId)
  {
    steps := EmitCleanly([], 0, e1, "a", pointId);
    steps := EmitCleanly(steps, 1, e2, "b", pointId);
    assert After(INIT, steps, pointId).rows["a"] == e1;
  }

  /**
   * A hash found in one store only belongs to some emit, and every emit of that hash raised, warned or is still in
   * flight, unless the point holds a different hash that collides. Events displaced by others of the same hash leave
   * no such gap.
   */
  lemma GapIsAccountedFor(steps: seq<Step>, hash: string, pointId: PointId)
    requires IsRun(INIT, steps, pointId)
    requires var s := After(INIT, steps, pointId); InQdrant(s, hash, pointId) != InPostgres(s, hash)
    ensures var s := After(INIT, steps, pointId);
            && (exists id :: id in s.emits && s.emits[id].event.hash == hash)
            && (forall id :: id in s.emits && s.emits[id].event.hash == hash && IsClean(s.emits[id]) ==>
                 Overwritten(s, hash, pointId) && !OwnPoint(s, hash, pointId))
  {
    InitInvariant(pointId);
    InvariantHolds(INIT, steps, pointId);
    var s := After(INIT, steps, pointId);
    forall id | id in s.emits && s.emits[id].event.hash == hash && IsClean(s.emits[id])
      ensures Overwritten(s, hash, pointId) && !OwnPoint(s, hash, pointId)
    {
      CleanMeansBothStores(s, id, pointId);
    }
    if InPostgres(s, hash) {
      var r :| r in s.rows && s.rows[r].hash == hash;
      var id :| HasRow(s, id, r);
      assert s.emits[id].event.hash == hash;
    } else {
      assert hash in StoredHashes(s);
    }
  }

  lemma {:induction false} TotalBackoffClosedForm(n: nat)
    ensures 2 * TotalBackoff(n) + 1 == Pow3(n)
  {
    if n > 0 {
      TotalBackoffClosedForm(n - 1);
    }
  }

  /** A failed retry loop sleeps (3^(MAX-1)-1)/2 seconds in total: 1 + 3, the announced 9 is never slept. */
  lemma FailedLoopBackoff(steps: seq<Step>, id: nat, pointId: PointId)
    requires IsRun(INIT, steps, pointId)
    requires var s := After(INIT, steps, pointId); id in s.emits && s.emits[id].qdrantFailed
    ensures After(INIT, steps, pointId).emits[id].slept == (Pow3(MAX_RETRIES - 1) - 1) / 2 == 4
  {
    InitInvariant(pointId);
    InvariantHolds(INIT, steps, pointId);
    assert EmitInvariant(After(INIT, steps, pointId).emits[id]);
    TotalBackoffClosedForm(MAX_RETRIES - 1);
    assert Pow3(2) == 9;
  }

  /** Raising undoes nothing: a sensitive emit can raise while both stores hold its event. */
  lemma RaisedMayBeStored(event: Event, pointId: PointId) returns (steps: seq<Step>)
    requires IsSensitive(event.classification)
    ensures IsRun(INIT, steps, pointId)
    ensures var s := After(INIT, steps, pointId);
            && 0 in s.emits && s.emits[0].phase == Done(Raised(Qdrant))
            && InQdrant(s, event.hash, pointId) && InPostgres(s, event.hash)
  {
    var s1 := Apply(INIT, Start(0, event), pointId);
    var s2 := Apply(s1, UpsertFails(0, true), pointId);
    var s3 := Apply(s2, UpsertFails(0, false), pointId);
    var s4 := Apply(s3, UpsertFails(0, false), pointId);
    var s5 := Apply(s4, RowWritten(0, "r"), pointId);
    var s6 := Apply(s5, Decide(0), pointId);
    steps := [Decide(0)];
    assert After(s5, steps, pointId) == s6;
    steps := Prepend(s4, RowWritten(0, "r"), steps, pointId);
    steps := Prepend(s3, UpsertFails(0, false), steps, pointId);
    steps := Prepend(s2, UpsertFails(0, false), steps, pointId);
    steps := Prepend(s1, UpsertFails(0, true), steps, pointId);
    steps := Prepend(INIT, Start(0, event), steps, pointId);
    assert s6.rows["r"] == event;
  }

  /** The step is one of the emit's that puts something into a store. */
  predicate TakesEffect(step: Step, id: nat) {
    step.id == id && (step.UpsertSucceeds? || (step.UpsertFails? && step.tookEffect) || step.RowWritten?)
  }

  predicate HasTakenEffect(s: State, id: nat) {
    id in s.emits && (s.emits[id].stored || s.emits[id].row.Some?)
  }

  lemma StepEffect(s: State, step: Step, id: nat, pointId: PointId)
    requires CanStep(s, step)
    ensures HasTakenEffect(Apply(s, step, pointId), id) <==> HasTakenEffect(s, id) || TakesEffect(step, id)
  {
  }

  lemma {:induction false} EffectsAreSteps(s: State, steps: seq<Step>, id: nat, pointId: PointId)
    requires IsRun(s, steps, pointId)
    requires forall k :: k in s.emits ==> EmitInvariant(s.emits[k])
    ensures HasTakenEffect(After(s, steps, pointId), id) <==>
      HasTakenEffect(s, id) || exists k :: 0 <= k < |steps| && TakesEffect(steps[k], id)
    decreases |steps|
  {
    hide Apply, CanStep, HasTakenEffect, TakesEffect, EmitInvariant;
    if steps != [] {
      StepKeepsEmits(s, steps[0], pointId);
      StepEffect(s, steps[0], id, pointId);
      EffectsAreSteps(Apply(s, steps[0], pointId), steps[1..], id, pointId);
      assert steps == [steps[0]] + steps[1..];
    }
  }

  /** No other emit uses the emit's point. */
  predicate IsAlone(s: State, id: nat, pointId: PointId)
    requires id in s.emits
  {
    forall k :: k in s.emits && k != id ==> pointId(s.emits[k].event.hash) != pointId(s.emits[id].event.hash)
  }

  lemma AloneInQdrant(s: State, id: nat, pointId: PointId)
    requires PointsMatchHashes(s, pointId) && id in s.emits && IsAlone(s, id, pointId)
    ensures InQdrant(s, s.emits[id].event.hash, pointId) <==> s.emits[id].stored
  {
    var hash := s.emits[id].event.hash;
    if s.emits[id].stored {
      assert hash in StoredHashes(s) && pointId(hash) in s.points;
    }
  }

  lemma AloneInPostgres(s: State, id: nat, pointId: PointId)
    requires RowsMatchWriters(s) && id in s.emits && IsAlone(s, id, pointId)
    ensures InPostgres(s, s.emits[id].event.hash) <==> s.emits[id].row.Some?
  {
    var hash := s.emits[id].event.hash;
    if s.emits[id].row.Some? {
      assert HasRow(s, id, s.emits[id].row.value);
    }
    if InPostgres(s, hash) {
      var r :| r in s.rows && s.rows[r].hash == hash;
      var k :| HasRow(s, k, r);
      assert s.emits[k].event.hash == hash;
    }
  }

  /**
   * Exactly when an emit leaves nothing behind, over every interleaving and whatever its outcome: its hash is in
   * neither store iff each of its upsert attempts was refused and its row write failed. An emit that raised because of
   * PostgreSQL always leaves its point.
   */
  lemma LeavesNothingExactly(steps: seq<Step>, id: nat, pointId: PointId)
    requires IsRun(INIT, steps, pointId)
    requires var s := After(INIT, steps, pointId);
             id in s.emits && forall k | k in s.emits && k != id ::
               pointId(s.emits[k].event.hash) != pointId(s.emits[id].event.hash)
    ensures var s := After(INIT, steps, pointId);
            var hash := s.emits[id].event.hash;
            && (!InQdrant(s, hash, pointId) && !InPostgres(s, hash) <==>
                 forall k :: 0 <= k < |steps| ==> !TakesEffect(steps[k], id))
            && (s.emits[id].phase == Done(Raised(Postgres)) ==> InQdrant(s, hash, pointId) && !InPostgres(s, hash))
  {
    InitInvariant(pointId);
    InvariantHolds(INIT, steps, pointId);
    EffectsAreSteps(INIT, steps, id, pointId);
    var s := After(INIT, steps, pointId);
    AloneInQdrant(s, id, pointId);
    AloneInPostgres(s, id, pointId);
    if s.emits[id].phase == Done(Raised(Postgres)) {
      RaisedForPostgres(s.emits[id]);
    }
    hide IsRun, After, Invariant, InQdrant, InPostgres, IsAlone, TakesEffect;
  }

  lemma RaisedForPostgres(e: Emit)
    requires EmitInvariant(e) && e.phase == Done(Raised(Postgres))
    ensures e.stored && e.row == None
  {
  }

  lemma Prepend(s: State, step: Step, steps: seq<Step>, pointId: PointId) returns (all: seq<Step>)
    requires CanStep(s, step) && IsRun(Apply(s, step, pointId), steps, pointId)
    ensures all == [step] + steps && IsRun(s, all, pointId)
    ensures After(s, all, pointId) == After(Apply(s, step, pointId), steps, pointId)
  {
    all := [step] + steps;
    assert all[1..] == steps;
  }

  lemma {:induction false} AppendStep(s: State, steps: seq<Step>, step: Step, pointId: PointId)
    requires IsRun(s, steps, pointId) && CanStep(After(s, steps, pointId), step)
    ensures IsRun(s, steps + [step], pointId)
    ensures After(s, steps + [step], pointId) == Apply(After(s, steps, pointId), step, pointId)
    decreases |steps|
  {
    hide Apply, CanStep;
    if steps == [] {
      assert steps + [step] == [step] && [step][1..] == [];
    } else {
      AppendStep(Apply(s, steps[0], pointId), steps[1..], step, pointId);
      assert (steps + [step])[1..] == steps[1..] + [step];
    }
  }

  // ---------------------------------------------------------------------------------------------
  // The code of one emit is one thread of that protocol
  // ---------------------------------------------------------------------------------------------

  datatype UpsertResponse = Accepted | Refused | AcceptedThenLost

  /** The steps of a retry loop from the given attempt on, as the store responds. */
  function Attempts(id: nat, respond: nat -> UpsertResponse, attempt: nat): seq<Step>
    decreases MAX_RETRIES - attempt
  {
    if attempt >= MAX_RETRIES then []
    else
      match respond(attempt)
      case Accepted => [UpsertSucceeds(id)]
      case Refused => [UpsertFails(id, false)] + Attempts(id, respond, attempt + 1)
      case AcceptedThenLost => [UpsertFails(id, true)] + Attempts(id, respond, attempt + 1)
  }

  /** All steps of one emit. */
  function EmitSteps(id: nat, event: Event, respond: nat -> UpsertResponse, row: Option<string>): seq<Step> {
    [Start(id, event)] + Attempts(id, respond, 0)
    + [if row.Some? then RowWritten(id, row.value) else RowFails(id), Decide(id)]
  }

  class LineageEmitter {
    var points: map<string, Event>
    var rows: map<string, Event>
    const pointId: PointId
    /** The steps taken so far by all calls. */
    ghost var history: seq<Step>

    ghost predicate Valid()
      reads this
    {
      && IsRun(INIT, history, pointId)
      && points == After(INIT, history, pointId).points && rows == After(INIT, history, pointId).rows
    }

    ghost function Machine(): State
      reads this
      requires Valid()
    {
      After(INIT, history, pointId)
    }

    constructor (pointId: PointId)
      ensures Valid() && history == [] && this.pointId == pointId
    {
      points, rows, this.pointId, history := map[], map[], pointId, [];
    }

    /** The retry loop; `respond` is what the store does at each attempt. */
    method WriteQdrant(event: Event, respond: nat -> UpsertResponse, ghost id: nat) returns (ok: bool, slept: nat)
      requires Valid() && AtAttempt(history, pointId, id, event, 0, 0)
      modifies `points, `history
      ensures points == if exists k :: 0 <= k < MAX_RETRIES && respond(k) != Refused
                        then old(points)[pointId(event.hash) := event] else old(points)
      ensures Valid() && history == old(history) + Attempts(id, respond, 0)
      ensures AfterAttempts(history, pointId, id, event, ok, slept)
      ensures ok <==> exists k :: 0 <= k < MAX_RETRIES && respond(k) == Accepted
    {
      hide IsRun, After, AtAttempt, AfterAttempts, Attempts, Pow3;
      slept := 0;
      var attempt := 0;
      while attempt < MAX_RETRIES
        invariant 0 <= attempt <= MAX_RETRIES && Valid() && rows == old(rows)
        invariant AtAttempt(history, pointId, id, event, attempt, slept)
        invariant history + Attempts(id, respond, attempt) == old(history) + Attempts(id, respond, 0)
        invariant forall k :: 0 <= k < attempt ==> respond(k) != Accepted
        invariant points == if exists k :: 0 <= k < attempt && respond(k) != Refused
                            then old(points)[pointId(event.hash) := event] else old(points)
      {
        var response := respond(attempt);
        AttemptStep(history, pointId, id, event, attempt, slept, response);
        if response != Refused {
          points := points[pointId(event.hash) := event];
        }
        ghost var step := StepOf(id, response);
        AttemptsUnroll(history, id, respond, attempt);
        history := history + [step];
        if response == Accepted {
          return true, slept;
        }
        if attempt < MAX_RETRIES - 1 {
          slept := slept + Pow3(attempt);
        }
        attempt := attempt + 1;
      }
      AttemptsExhausted(history, pointId, id, event, slept);
      AttemptsUnroll(history, id, respond, MAX_RETRIES);
      ok := false;
    }

    /** `emit`: upsert with retries, then the row write, then the decision; `row` is None when PostgreSQL raises. */
    method EmitEvent(event: Event, respond: nat -> UpsertResponse, row: Option<string>, ghost id: nat)
      returns (outcome: Outcome)
      requires Valid() && id !in Machine().emits && (row.Some? ==> row.value !in rows)
      modifies this
      ensures Valid() && history == old(history) + EmitSteps(id, event, respond, row)
      ensures id in Machine().emits && Machine().emits[id].event == event
      ensures Machine().emits[id].phase == Done(outcome)
      ensures points == if exists k :: 0 <= k < MAX_RETRIES && respond(k) != Refused
                        then old(points)[pointId(event.hash) := event] else old(points)
      ensures rows == if row.Some? then old(rows)[row.value := event] else old(rows)
      ensures outcome.Returned? && outcome.success <==>
        (exists k :: 0 <= k < MAX_RETRIES && respond(k) == Accepted) && row.Some?
      ensures outcome.Returned? ==> outcome.warned == !outcome.success
      ensures outcome.Raised? <==> (
        && IsSensitive(event.classification)
        && !((exists k :: 0 <= k < MAX_RETRIES && respond(k) == Accepted) && row.Some?))
      ensures outcome.Raised? ==>
        (outcome.store == Qdrant <==> forall k :: 0 <= k < MAX_RETRIES ==> respond(k) != Accepted)
      ensures event !in old(points).Values && event !in old(rows).Values ==> (
        && (event in points.Values <==> exists k :: 0 <= k < MAX_RETRIES && respond(k) != Refused)
        && (event in rows.Values <==> row.Some?))
    {
      hide IsRun, After, AtAttempt, AfterAttempts, IsSensitive, Attempts, EmitSteps;
      StartsAtAttempt(history, pointId, id, event);
      history := history + [Start(id, event)];
      var ok, slept := WriteQdrant(event, respond, id);
      FinishEmit(history, pointId, id, event, ok, slept, row);
      if row.Some? {
        rows := rows[row.value := event];
      }
      if IsSensitive(event.classification) && !ok {
        outcome := Raised(Qdrant);
      } else if IsSensitive(event.classification) && row == None {
        outcome := Raised(Postgres);
      } else {
        outcome := Returned(ok && row.Some?, !ok || row == None);
      }
      EmitStepsConcat(old(history), id, event, respond, row);
      PutIsThere(old(points), pointId(event.hash), event);
      if row.Some? {
        PutIsThere(old(rows), row.value, event);
      }
      history := history + [if row.Some? then RowWritten(id, row.value) else RowFails(id), Decide(id)];
    }
  }

  lemma PutIsThere(store: map<string, Event>, key: string, event: Event)
    ensures event in store[key := event].Values
  {
    assert store[key := event][key] == event;
  }

  function StepOf(id: nat, response: UpsertResponse): Step {
    if response == Accepted then UpsertSucceeds(id) else UpsertFails(id, response == AcceptedThenLost)
  }

  lemma EmitStepsConcat(history: seq<Step>, id: nat, event: Event, respond: nat -> UpsertResponse, row: Option<string>)
    ensures (history + [Start(id, event)] + Attempts(id, respond, 0))
      + [if row.Some? then RowWritten(id, row.value) else RowFails(id), Decide(id)]
      == history + EmitSteps(id, event, respond, row)
  {
  }

  lemma AttemptsUnroll(history: seq<Step>, id: nat, respond: nat -> UpsertResponse, attempt: nat)
    ensures attempt >= MAX_RETRIES ==> history + Attempts(id, respond, attempt) == history
    ensures attempt < MAX_RETRIES ==>
      var rest := if respond(attempt) == Accepted then [] else Attempts(id, respond, attempt + 1);
      history + Attempts(id, respond, attempt) == (history + [StepOf(id, respond(attempt))]) + rest
  {
    if attempt < MAX_RETRIES {
      var rest := if respond(attempt) == Accepted then [] else Attempts(id, respond, attempt + 1);
      assert Attempts(id, respond, attempt) == [StepOf(id, respond(attempt))] + rest;
    }
  }

  /** The emit stands before the given attempt, or has used all of them up. */
  ghost predicate AtAttempt(history: seq<Step>, pointId: PointId, id: nat, event: Event, attempt: nat, slept: nat) {
    && IsRun(INIT, history, pointId)
    && var s := After(INIT, history, pointId);
       && id in s.emits && s.emits[id].event == event && s.emits[id].row == None && s.emits[id].slept == slept
       && if attempt < MAX_RETRIES then s.emits[id].phase == Upserting(attempt) && !s.emits[id].qdrantFailed
          else s.emits[id].phase == WritingRow && s.emits[id].qdrantFailed
  }

  /** The emit stands before its row write. */
  ghost predicate AfterAttempts(history: seq<Step>, pointId: PointId, id: nat, event: Event, ok: bool, slept: nat) {
    && IsRun(INIT, history, pointId)
    && var s := After(INIT, history, pointId);
       && id in s.emits && s.emits[id].event == event && s.emits[id].row == None && s.emits[id].slept == slept
       && s.emits[id].phase == WritingRow && s.emits[id].qdrantFailed == !ok
  }

  lemma StartsAtAttempt(history: seq<Step>, pointId: PointId, id: nat, event: Event)
    requires IsRun(INIT, history, pointId) && id !in After(INIT, history, pointId).emits
    ensures var history' := history + [Start(id, event)];
            && IsRun(INIT, history', pointId) && AtAttempt(history', pointId, id, event, 0, 0)
            && After(INIT, history', pointId).points == After(INIT, history, pointId).points
            && After(INIT, history', pointId).rows == After(INIT, history, pointId).rows
  {
    AppendStep(INIT, history, Start(id, event), pointId);
    hide IsRun, After;
  }

  lemma AttemptStep(history: seq<Step>, pointId: PointId, id: nat, event: Event, attempt: nat, slept: nat,
                    response: UpsertResponse)
    requires AtAttempt(history, pointId, id, event, attempt, slept) && attempt < MAX_RETRIES
    ensures IsRun(INIT, history, pointId)
    ensures var history' := history + [StepOf(id, response)];
            var s := After(INIT, history, pointId);
            var slept' := if attempt < MAX_RETRIES - 1 then slept + Pow3(attempt) else slept;
            && IsRun(INIT, history', pointId)
            && After(INIT, history', pointId).rows == s.rows
            && After(INIT, history', pointId).points
               == (if response != Refused then s.points[pointId(event.hash) := event] else s.points)
            && (if response == Accepted then AfterAttempts(history', pointId, id, event, true, slept)
                else AtAttempt(history', pointId, id, event, attempt + 1, slept'))
  {
    AppendStep(INIT, history, StepOf(id, response), pointId);
    hide IsRun, After;
  }

  lemma AttemptsExhausted(history: seq<Step>, pointId: PointId, id: nat, event: Event, slept: nat)
    requires AtAttempt(history, pointId, id, event, MAX_RETRIES, slept)
    ensures AfterAttempts(history, pointId, id, event, false, slept)
  {
  }

  lemma FinishEmit(history: seq<Step>, pointId: PointId, id: nat, event: Event, ok: bool, slept: nat,
                   row: Option<string>)
    requires AfterAttempts(history, pointId, id, event, ok, slept)
    requires row.Some? ==> row.value !in After(INIT, history, pointId).rows
    ensures IsRun(INIT, history, pointId)
    ensures var history' := history + [if row.Some? then RowWritten(id, row.value) else RowFails(id), Decide(id)];
            && IsRun(INIT, history', pointId)
            && var s, s' := After(INIT, history, pointId), After(INIT, history', pointId);
               && s'.points == s.points
               && s'.rows == (if row.Some? then s.rows[row.value := event] else s.rows)
               && id in s'.emits && s'.emits[id].event == event
               && s'.emits[id].phase == Done(
                    if IsSensitive(event.classification) && !ok then Raised(Qdrant)
                    else if IsSensitive(event.classification) && row == None then Raised(Postgres)
                    else Returned(ok && row.Some?, !ok || row == None))
  {
    hide IsSensitive;
    var write := if row.Some? then RowWritten(id, row.value) else RowFails(id);
    AppendStep(INIT, history, write, pointId);
    AppendStep(INIT, history + [write], Decide(id), pointId);
    assert history + [write] + [Decide(id)] == history + [write, Decide(id)];
    hide IsRun, After;
  }
}
