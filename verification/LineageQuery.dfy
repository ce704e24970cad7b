/** The relational queries of lineage/query.py over the lineage store. */
module LineageQuery {
  import opened Common
  import opened Graphs
  import opened LineageStore

  predicate MatchesTarget(e: Event, table: string, tier: string) {
    && (table != "" ==> e.target.table == Some(table))
    && (tier != "" ==> e.target.tier == Some(tier))
  }

  function Timestamp(e: Event): int {
    e.timestamp
  }

  function OrEmpty(s: Option<string>): string {
    if s.Some? then s.value else ""
  }

  function TargetKey(e: Event): (string, string) {
    (OrEmpty(e.target.table), OrEmpty(e.target.tier))
  }

  /** One target that a source reaches, with the first event found to write it. */
  datatype AffectedTarget = AffectedTarget(table: Option<string>, tier: Option<string>, eventId: string)

  datatype PiiAudit = PiiAudit(events: seq<Event>, counts: map<string, nat>)

  predicate InAudit(e: Event, start: Option<int>, end: Option<int>) {
    && IsSensitive(e.classification)
    && (start.Some? ==> e.timestamp >= start.value)
    && (end.Some? ==> e.timestamp <= end.value)
  }

  /** The ids reached from some event of `sources` by traversing `next`. */
  ghost predicate ReachedFrom(next: Edges, sources: seq<Event>, id: string) {
    exists s :: s in sources && Reaches(next, s.id, id)
  }

  /** The events gathered from the traversals of the first sources, first occurrence kept. */
  ghost predicate IsUnion(events: map<string, Event>, next: Edges, sources: seq<Event>, gathered: seq<Event>) {
    && Distinct(Ids(gathered))
    && (forall e :: e in gathered ==> e.id in events && e == events[e.id])
    && (forall id :: id in Ids(gathered) <==> id in events && ReachedFrom(next, sources, id))
  }

  lemma IdsMembers(events: seq<Event>)
    ensures forall id :: id in Ids(events) <==> exists e :: e in events && e.id == id
  {
    forall id | id in Ids(events) ensures exists e :: e in events && e.id == id {
      var i :| 0 <= i < |events| && Ids(events)[i] == id;
      assert events[i] in events;
    }
    forall e | e in events ensures e.id in Ids(events) {
      var i :| 0 <= i < |events| && events[i] == e;
      assert Ids(events)[i] == e.id;
    }
  }

  lemma ReachedFromAppend(next: Edges, sources: seq<Event>, s: Event, id: string)
    ensures ReachedFrom(next, sources + [s], id) <==> ReachedFrom(next, sources, id) || Reaches(next, s.id, id)
  {
    hide Reaches;
    assert forall x :: x in sources + [s] <==> x in sources || x == s;
    assert s in sources + [s];
  }

  /** Merging one more traversal into the union. */
  method Merge(events: map<string, Event>, ghost next: Edges, ghost sources: seq<Event>, ghost source: Event,
               gathered: seq<Event>, found: seq<Event>) returns (merged: seq<Event>)
    requires IsUnion(events, next, sources, gathered)
    requires IsExactTraversal(events, next, source.id, found)
    ensures IsUnion(events, next, sources + [source], merged)
  {
    hide IsTraversalList, ReachedFrom, Reaches;
    FoundFacts(events, next, source.id, found);
    var seen := set id | id in Ids(gathered);
    merged := gathered;
    for i := 0 to |found|
      invariant Distinct(Ids(merged)) && seen == (set id | id in Ids(merged))
      invariant forall e :: e in merged ==> e.id in events && e == events[e.id]
      invariant forall id :: id in seen <==> id in Ids(gathered) || id in Ids(found[..i])
    {
      var e := found[i];
      assert found[..i + 1] == found[..i] + [e];
      assert Ids(found[..i + 1]) == Ids(found[..i]) + [e.id];
      if e.id !in seen {
        assert Ids(merged + [e]) == Ids(merged) + [e.id];
        seen := seen + {e.id};
        merged := merged + [e];
      }
    }
    assert found[..|found|] == found;
    forall id ensures id in Ids(merged) <==> id in events && ReachedFrom(next, sources + [source], id) {
      ReachedFromAppend(next, sources, source, id);
      assert id in Ids(merged) <==> id in seen;
    }
  }

  lemma FoundFacts(events: map<string, Event>, next: Edges, start: string, found: seq<Event>)
    requires IsExactTraversal(events, next, start, found)
    ensures Distinct(Ids(found)) && forall e :: e in found ==> e.id in events && e == events[e.id]
  {
  }

  lemma SortedUnion(events: map<string, Event>, next: Edges, sources: seq<Event>, gathered: seq<Event>)
    requires IsUnion(events, next, sources, gathered)
    ensures IsUnion(events, next, sources, SortBy(gathered, Timestamp))
  {
    hide ReachedFrom;
    var sorted := SortBy(gathered, Timestamp);
    SortByFacts(gathered, Timestamp);
    IdsMembers(gathered);
    IdsMembers(sorted);
    forall i, j | 0 <= i < j < |gathered| ensures gathered[i] != gathered[j] {
      assert Ids(gathered)[i] != Ids(gathered)[j];
    }
    SortByDistinct(gathered, Timestamp);
    forall i, j | 0 <= i < j < |sorted| ensures Ids(sorted)[i] != Ids(sorted)[j] {
      assert sorted[i] in sorted && sorted[j] in sorted;
    }
  }

  class LineageQueryEngine {
    const pg: PgLineageWriter

    constructor (pg: PgLineageWriter)
      ensures this.pg == pg
    {
      this.pg := pg;
    }

    /** The events that write the wanted target; an empty table or tier asks for any. */
    function TargetEvents(table: string, tier: string): (targets: seq<Event>)
      reads pg
      requires pg.Valid()
      ensures forall e :: e in targets <==> e.id in pg.events && pg.events[e.id] == e && MatchesTarget(e, table, tier)
      ensures forall e :: e in targets ==>
        (table == "" || e.target.table == Some(table)) && (tier == "" || e.target.tier == Some(tier))
      ensures forall id | id in pg.events && pg.events[id].id == id
          && (table == "" || pg.events[id].target.table == Some(table))
          && (tier == "" || pg.events[id].target.tier == Some(tier)) ::
        pg.events[id] in targets
    {
      FilterMembers(pg.Values(), (e: Event) => MatchesTarget(e, table, tier));
      Filter(pg.Values(), (e: Event) => MatchesTarget(e, table, tier))
    }

    function SourceEvents(table: string): (sources: seq<Event>)
      reads pg
      requires pg.Valid()
      ensures forall e :: e in sources <==> e.id in pg.events && pg.events[e.id] == e && e.sourceTable == Some(table)
    {
      FilterMembers(pg.Values(), (e: Event) => e.sourceTable == Some(table));
      Filter(pg.Values(), (e: Event) => e.sourceTable == Some(table))
    }

    /**
     * A duplicate-free list in timestamp order, holding exactly the events in the ancestry of some matching event.
     */
    method TraceProvenance(table: string, tier: string) returns (chain: seq<Event>)
      requires pg.Valid()
      ensures IsUnion(pg.events, Inverse(EdgesOf(pg.dag)), TargetEvents(table, tier), chain)
      ensures SortedBy(chain, Timestamp)
      ensures forall i, j :: 0 <= i < j < |chain| ==> chain[i].timestamp <= chain[j].timestamp
    {
      hide IsUnion, IsExactTraversal, SortBy, SortedBy, EdgesOf, Inverse, PgLineageWriter.Valid;
      var targets := TargetEvents(table, tier);
      ghost var next := Inverse(EdgesOf(pg.dag));
      var gathered := [];
      EmptyUnion(pg.events, next);
      for i := 0 to |targets|
        invariant IsUnion(pg.events, next, targets[..i], gathered)
      {
        var ancestors := pg.TraceAncestry(targets[i].id);
        gathered := Merge(pg.events, next, targets[..i], targets[i], gathered, ancestors);
        assert targets[..i + 1] == targets[..i] + [targets[i]];
      }
      assert targets[..|targets|] == targets;
      SortedUnion(pg.events, next, targets, gathered);
      SortByFacts(gathered, Timestamp);
      chain := SortBy(gathered, Timestamp);
      InTimeOrder(chain);
    }

    /**
     * The distinct targets, named by table and tier and at least partly named, that the descendants of the events
     * reading `sourceTable` write.
     */
    method ImpactAnalysis(sourceTable: string) returns (affected: seq<AffectedTarget>)
      requires pg.Valid()
      ensures forall i, j :: 0 <= i < j < |affected| ==> KeyOfAffected(affected[i]) != KeyOfAffected(affected[j])
      ensures forall a :: a in affected ==>
        && a.eventId in pg.events && ReachedFrom(EdgesOf(pg.dag), SourceEvents(sourceTable), a.eventId)
        && KeyOfAffected(a) == TargetKey(pg.events[a.eventId]) != ("", "")
      ensures forall id | id in pg.events && ReachedFrom(EdgesOf(pg.dag), SourceEvents(sourceTable), id) ::
        TargetKey(pg.events[id]) == ("", "") ||
        exists a :: a in affected && KeyOfAffected(a) == TargetKey(pg.events[id])
    {
      hide IsUnion, IsExactTraversal, EdgesOf, ReachedFrom, TargetKey, KeyOfAffected, PgLineageWriter.Valid;
      var sources := SourceEvents(sourceTable);
      var gathered := GatherDescendants(sources);
      affected := DistinctTargets(gathered);
      UnionTargets(pg.events, EdgesOf(pg.dag), sources, gathered, affected);
    }

    /** The descendants of all sources, each once. */
    method GatherDescendants(sources: seq<Event>) returns (gathered: seq<Event>)
      requires pg.Valid()
      ensures IsUnion(pg.events, EdgesOf(pg.dag), sources, gathered)
    {
      hide IsUnion, IsExactTraversal, EdgesOf, PgLineageWriter.Valid;
      ghost var next := EdgesOf(pg.dag);
      gathered := [];
      EmptyUnion(pg.events, next);
      for i := 0 to |sources|
        invariant IsUnion(pg.events, next, sources[..i], gathered)
      {
        var descendants := pg.TraceDescendants(sources[i].id);
        gathered := Merge(pg.events, next, sources[..i], sources[i], gathered, descendants);
        assert sources[..i + 1] == sources[..i] + [sources[i]];
      }
      assert sources[..|sources|] == sources;
    }

    /** Exactly the sensitive events of the period in timestamp order, and how many there are of each class. */
    method AuditPii(start: Option<int>, end: Option<int>) returns (audit: PiiAudit)
      requires pg.Valid()
      ensures forall e :: e in audit.events <==> (
        && e.id in pg.events && pg.events[e.id] == e && InAudit(e, start, end)
        && (e.classification == "confidential" || e.classification == "restricted")
        && (start.Some? ==> start.value <= e.timestamp) && (end.Some? ==> e.timestamp <= end.value))
      ensures forall id | id in pg.events && pg.events[id].id == id
          && pg.events[id].classification in {"confidential", "restricted"}
          && (start == None || start.value <= pg.events[id].timestamp)
          && (end == None || pg.events[id].timestamp <= end.value) ::
        pg.events[id] in audit.events
      ensures Distinct(audit.events) && SortedBy(audit.events, Timestamp)
      ensures forall i, j :: 0 <= i < j < |audit.events| ==> audit.events[i].timestamp <= audit.events[j].timestamp
      ensures forall c :: c in audit.counts <==> exists e :: e in audit.events && e.classification == c
      ensures forall c :: c in audit.counts ==>
        audit.counts[c] == Count(audit.events, (e: Event) => e.classification == c)
    {
      var inAudit := (e: Event) => InAudit(e, start, end);
      var matching := Filter(pg.Values(), inAudit);
      FilterMembers(pg.Values(), inAudit);
      ValuesDistinct(pg.Values());
      SortByFacts(matching, Timestamp);
      SortByDistinct(matching, Timestamp);
      hide SortBy, SortedBy, Filter;
      var events := SortBy(matching, Timestamp);
      InTimeOrder(events);
      var counts := CountClasses(events);
      audit := PiiAudit(events, counts);
    }
  }

  /** Two events write the same target when table and tier agree, a missing name counting as an empty one. */
  lemma SameTarget(a: Event, b: Event)
    ensures TargetKey(a) == TargetKey(b) <==>
      && (a.target.table == b.target.table || (IsUnnamed(a.target.table) && IsUnnamed(b.target.table)))
      && (a.target.tier == b.target.tier || (IsUnnamed(a.target.tier) && IsUnnamed(b.target.tier)))
    ensures TargetKey(a) == ("", "") <==> IsUnnamed(a.target.table) && IsUnnamed(a.target.tier)
  {
  }

  predicate IsUnnamed(name: Option<string>) {
    name == None || name == Some("")
  }

  lemma InTimeOrder(events: seq<Event>)
    requires SortedBy(events, Timestamp)
    ensures forall i, j :: 0 <= i < j < |events| ==> events[i].timestamp <= events[j].timestamp
  {
    forall i, j | 0 <= i < j < |events| ensures events[i].timestamp <= events[j].timestamp {
      assert Timestamp(events[i]) <= Timestamp(events[j]);
    }
  }

  lemma ValuesDistinct(values: seq<Event>)
    requires Distinct(Ids(values))
    ensures Distinct(values)
  {
    forall i, j | 0 <= i < j < |values| ensures values[i] != values[j] {
      assert Ids(values)[i] != Ids(values)[j];
    }
  }

  lemma EmptyUnion(events: map<string, Event>, next: Edges)
    ensures IsUnion(events, next, [], [])
  {
    assert Ids([]) == [];
  }

  lemma UnionFacts(events: map<string, Event>, next: Edges, sources: seq<Event>, gathered: seq<Event>)
    requires IsUnion(events, next, sources, gathered)
    ensures forall e :: e in gathered ==> e.id in events && e == events[e.id] && ReachedFrom(next, sources, e.id)
    ensures forall id :: id in events && ReachedFrom(next, sources, id) ==> events[id] in gathered
  {
    hide ReachedFrom;
    IdsMembers(gathered);
  }

  lemma UnionTargets(events: map<string, Event>, next: Edges, sources: seq<Event>, gathered: seq<Event>,
                     affected: seq<AffectedTarget>)
    requires IsUnion(events, next, sources, gathered)
    requires forall a :: a in affected ==>
      exists e :: e in gathered && e.id == a.eventId && KeyOfAffected(a) == TargetKey(e) != ("", "")
    requires forall e :: e in gathered && TargetKey(e) != ("", "") ==>
      exists a :: a in affected && KeyOfAffected(a) == TargetKey(e)
    ensures forall a :: a in affected ==>
      && a.eventId in events && ReachedFrom(next, sources, a.eventId)
      && KeyOfAffected(a) == TargetKey(events[a.eventId]) != ("", "")
    ensures forall id | id in events && ReachedFrom(next, sources, id) ::
      TargetKey(events[id]) == ("", "") || exists a :: a in affected && KeyOfAffected(a) == TargetKey(events[id])
  {
    UnionFacts(events, next, sources, gathered);
    hide IsUnion, ReachedFrom, TargetKey, KeyOfAffected;
  }

  function KeyOfAffected(a: AffectedTarget): (string, string) {
    (OrEmpty(a.table), OrEmpty(a.tier))
  }

  /** `affected` names the targets of `seen`, each once and each by one of the events. */
  ghost predicate NamesTargets(affected: seq<AffectedTarget>, seen: set<(string, string)>, events: seq<Event>) {
    && (forall i, j :: 0 <= i < j < |affected| ==> KeyOfAffected(affected[i]) != KeyOfAffected(affected[j]))
    && (forall a :: a in affected ==> KeyOfAffected(a) in seen)
    && (forall a :: a in affected ==>
         exists e :: e in events && e.id == a.eventId && KeyOfAffected(a) == TargetKey(e) != ("", ""))
    && (forall k :: k in seen ==> exists a :: a in affected && KeyOfAffected(a) == k)
  }

  lemma NameOneMore(affected: seq<AffectedTarget>, seen: set<(string, string)>, events: seq<Event>, e: Event)
    requires NamesTargets(affected, seen, events) && e in events
    requires TargetKey(e) !in seen && TargetKey(e) != ("", "")
    ensures NamesTargets(affected + [AffectedTarget(e.target.table, e.target.tier, e.id)], seen + {TargetKey(e)},
                         events)
  {
    var a := AffectedTarget(e.target.table, e.target.tier, e.id);
    var affected' := affected + [a];
    assert forall x :: x in affected' <==> x in affected || x == a;
    assert KeyOfAffected(a) == TargetKey(e);
    forall i | 0 <= i < |affected| ensures KeyOfAffected(affected[i]) != KeyOfAffected(a) {
      assert affected[i] in affected;
    }
  }

  method DistinctTargets(events: seq<Event>) returns (affected: seq<AffectedTarget>)
    ensures forall i, j :: 0 <= i < j < |affected| ==> KeyOfAffected(affected[i]) != KeyOfAffected(affected[j])
    ensures forall a :: a in affected ==>
      exists e :: e in events && e.id == a.eventId && KeyOfAffected(a) == TargetKey(e) != ("", "")
    ensures forall e :: e in events && TargetKey(e) != ("", "") ==>
      exists a :: a in affected && KeyOfAffected(a) == TargetKey(e)
  {
    affected := [];
    var seen: set<(string, string)> := {};
    for i := 0 to |events|
      invariant NamesTargets(affected, seen, events)
      invariant forall k :: 0 <= k < i && TargetKey(events[k]) != ("", "") ==> TargetKey(events[k]) in seen
    {
      hide NamesTargets;
      var e := events[i];
      var key := TargetKey(e);
      if key !in seen && key != ("", "") {
        NameOneMore(affected, seen, events, e);
        seen := seen + {key};
        affected := affected + [AffectedTarget(e.target.table, e.target.tier, e.id)];
      }
    }
  }

  function CountClass(events: seq<Event>, classification: string): nat {
    Count(events, (e: Event) => e.classification == classification)
  }

  method CountClasses(events: seq<Event>) returns (counts: map<string, nat>)
    ensures forall c :: c in counts <==> exists e :: e in events && e.classification == c
    ensures forall c :: c in counts ==> counts[c] == CountClass(events, c)
  {
    counts := map[];
    for i := 0 to |events|
      invariant forall c :: c in counts <==> exists k :: 0 <= k < i && events[k].classification == c
      invariant forall c ::
        (if c in counts then counts[c] else 0) == CountClass(events[..i], c)
    {
      var c := events[i].classification;
      assert events[..i + 1] == events[..i] + [events[i]];
      forall d ensures CountClass(events[..i + 1], d) == CountClass(events[..i], d) + if d == c then 1 else 0 {
        CountAppend(events[..i], [events[i]], (e: Event) => e.classification == d);
      }
      counts := counts[c := (if c in counts then counts[c] else 0) + 1];
    }
    assert events[..|events|] == events;
  }
}
