/** The in-memory lineage store of lineage/pg_writer.py. */
module LineageStore {
  import opened Common
  import opened Graphs

  datatype Target = Target(table: Option<string>, tier: Option<string>)

  /** A stored event row; timestamps stand for their place in the order of ISO timestamps. */
  datatype Event = Event(
    id: string, classification: string, timestamp: int, sourceTable: Option<string>, target: Target,
    contentHash: string)

  datatype DagEdge = DagEdge(parent: string, child: string, relationship: string)

  datatype ContractVersion = ContractVersion(pipelineRef: string, version: int, yaml: string, hash: string)

  datatype EdgeError = InvalidRelationship | ParentNotFound | ChildNotFound

  /** Parent-to-child pairs. */
  function EdgesOf(dag: seq<DagEdge>): Edges {
    set e | e in dag :: (e.parent, e.child)
  }

  function Ids(events: seq<Event>): seq<string> {
    seq(|events|, i requires 0 <= i < |events| => events[i].id)
  }

  // ---------------------------------------------------------------------------------------------
  // Traversal
  // ---------------------------------------------------------------------------------------------

  /** `later` came onto the stack as the start or as the successor of an event already listed. */
  predicate HasReason(next: Edges, start: string, listed: seq<Event>, later: string) {
    later == start || exists e :: e in listed && (e.id, later) in next
  }

  /** The listed events are distinct, taken from the store, and each but the first succeeds an earlier one. */
  ghost predicate IsTraversalList(events: map<string, Event>, next: Edges, start: string, listed: seq<Event>) {
    && Distinct(Ids(listed))
    && (forall e :: e in listed ==> e.id in events && e == events[e.id])
    && (listed != [] ==> listed[0].id == start)
    && (forall k :: 0 < k < |listed| ==> exists e :: e in listed[..k] && (e.id, listed[k].id) in next)
  }

  /** What holds at the head of the traversal loop. */
  ghost predicate TraversalInvariant(
    events: map<string, Event>, next: Edges, start: string,
    visited: set<string>, stack: seq<string>, listed: seq<Event>)
  {
    && (forall e :: e in next ==> e.0 in events && e.1 in events)
    && (forall v :: v in visited || v in stack ==> Reaches(next, start, v) && (v in events || v == start))
    && (start in visited || (visited == {} && stack == [start]))
    && (forall e :: e in next && e.0 in visited ==> e.1 in visited || e.1 in stack)
    && IsTraversalList(events, next, start, listed)
    && (forall v :: v in visited && v in events <==> v in Ids(listed))
    && (forall v :: v in stack ==> HasReason(next, start, listed, v))
  }

  /** The exact answer of a traversal: the registered events reachable from the start. */
  ghost predicate IsExactTraversal(events: map<string, Event>, next: Edges, start: string, listed: seq<Event>) {
    && IsTraversalList(events, next, start, listed)
    && (forall v :: v in Ids(listed) <==> v in events && Reaches(next, start, v))
    && (start in events ==> listed != [])
  }

  lemma TraversalStarts(events: map<string, Event>, next: Edges, start: string)
    requires forall e :: e in next ==> e.0 in events && e.1 in events
    ensures TraversalInvariant(events, next, start, {}, [start], [])
  {
    ReachesSelf(next, start);
  }

  lemma SkipVisited(events: map<string, Event>, next: Edges, start: string,
                    visited: set<string>, stack: seq<string>, listed: seq<Event>)
    requires TraversalInvariant(events, next, start, visited, stack, listed)
    requires stack != [] && stack[|stack| - 1] in visited
    ensures TraversalInvariant(events, next, start, visited, stack[..|stack| - 1], listed)
  {
    hide IsTraversalList, HasReason, Reaches;
    assert stack == stack[..|stack| - 1] + [stack[|stack| - 1]];
  }

  lemma ListVisited(events: map<string, Event>, next: Edges, start: string, listed: seq<Event>, current: string)
    requires IsTraversalList(events, next, start, listed)
    requires current in events && events[current].id == current && current !in Ids(listed)
    requires if listed == [] then current == start else exists e :: e in listed && (e.id, current) in next
    ensures IsTraversalList(events, next, start, listed + [events[current]])
  {
    var listed' := listed + [events[current]];
    assert Ids(listed') == Ids(listed) + [current];
    IdsStayDistinct(Ids(listed), current);
    hide Ids, Distinct;
    forall k | 0 < k < |listed'| ensures exists e :: e in listed'[..k] && (e.id, listed'[k].id) in next {
      if k < |listed| {
        assert listed'[..k] == listed[..k] && listed'[k] == listed[k];
      } else {
        assert listed'[..k] == listed;
      }
    }
    assert forall e :: e in listed' <==> e in listed || e == events[current];
    assert listed != [] ==> listed'[0] == listed[0];
  }

  lemma IdsStayDistinct(ids: seq<string>, id: string)
    requires Distinct(ids) && id !in ids
    ensures Distinct(ids + [id])
  {
  }

  lemma VisitStack(events: map<string, Event>, next: Edges, start: string,
                   visited: set<string>, stack: seq<string>, listed: seq<Event>, successors: seq<string>)
    requires TraversalInvariant(events, next, start, visited, stack, listed)
    requires stack != [] && stack[|stack| - 1] !in visited
    requires forall s :: s in successors <==> (stack[|stack| - 1], s) in next
    ensures var current, rest := stack[|stack| - 1], stack[..|stack| - 1];
            && (forall v :: v in visited + {current} || v in rest + successors ==>
                 Reaches(next, start, v) && (v in events || v == start))
            && (forall e :: e in next && e.0 in visited + {current} ==>
                 e.1 in visited + {current} || e.1 in rest + successors)
            && start in visited + {current}
  {
    hide IsTraversalList, HasReason, Reaches;
    var current, rest := stack[|stack| - 1], stack[..|stack| - 1];
    assert stack == rest + [current];
    forall s | s in successors ensures Reaches(next, start, s) {
      ReachesStep(next, start, current, s);
    }
  }

  lemma VisitList(events: map<string, Event>, next: Edges, start: string,
                  visited: set<string>, stack: seq<string>, listed: seq<Event>)
    requires TraversalInvariant(events, next, start, visited, stack, listed)
    requires forall id :: id in events ==> events[id].id == id
    requires stack != [] && stack[|stack| - 1] !in visited
    ensures var current := stack[|stack| - 1];
            var listed' := if current in events then listed + [events[current]] else listed;
            && IsTraversalList(events, next, start, listed')
            && (forall v :: v in visited + {current} && v in events <==> v in Ids(listed'))
  {
    hide Reaches, IsTraversalList;
    var current := stack[|stack| - 1];
    assert HasReason(next, start, listed, current);
    if current in events {
      assert listed == [] ==> current == start by {
        if listed == [] {
          assert Ids(listed) == [];
        }
      }
      assert listed != [] ==> Ids(listed)[0] in Ids(listed);
      ListVisited(events, next, start, listed, current);
      assert Ids(listed + [events[current]]) == Ids(listed) + [current];
    }
  }

  lemma ReasonsGrow(next: Edges, start: string, listed: seq<Event>, rest: seq<string>, successors: seq<string>,
                    event: Event)
    requires forall v :: v in rest ==> HasReason(next, start, listed, v)
    requires forall v :: v in successors ==> (event.id, v) in next
    ensures forall v :: v in rest + successors ==> HasReason(next, start, listed + [event], v)
  {
    assert event in listed + [event];
  }

  lemma Visit(events: map<string, Event>, next: Edges, start: string,
              visited: set<string>, stack: seq<string>, listed: seq<Event>, successors: seq<string>)
    requires TraversalInvariant(events, next, start, visited, stack, listed)
    requires forall id :: id in events ==> events[id].id == id
    requires stack != [] && stack[|stack| - 1] !in visited
    requires forall s :: s in successors <==> (stack[|stack| - 1], s) in next
    ensures var current := stack[|stack| - 1];
            var listed' := if current in events then listed + [events[current]] else listed;
            TraversalInvariant(events, next, start, visited + {current}, stack[..|stack| - 1] + successors, listed')
  {
    hide IsTraversalList, HasReason, Reaches, Ids;
    var current, rest := stack[|stack| - 1], stack[..|stack| - 1];
    VisitStack(events, next, start, visited, stack, listed, successors);
    VisitList(events, next, start, visited, stack, listed);
    assert forall v :: v in rest ==> v in stack;
    if current in events {
      ReasonsGrow(next, start, listed, rest, successors, events[current]);
    } else {
      assert forall v :: v in rest + successors ==> v in rest;
    }
  }

  lemma TraversalEnds(events: map<string, Event>, next: Edges, start: string, visited: set<string>, listed: seq<Event>)
    requires TraversalInvariant(events, next, start, visited, [], listed)
    ensures IsExactTraversal(events, next, start, listed)
  {
    hide IsTraversalList, HasReason, Reaches;
    forall v | Reaches(next, start, v) ensures v in visited {
      ClosedSetHoldsReachable(next, visited, start, v);
    }
    assert start in events ==> start in Ids(listed);
  }

  lemma TraversalMeasure(events: map<string, Event>, next: Edges, start: string,
                         visited: set<string>, stack: seq<string>, listed: seq<Event>)
    requires TraversalInvariant(events, next, start, visited, stack, listed)
    requires stack != [] && stack[|stack| - 1] !in visited
    ensures var unvisited := events.Keys + {start} - visited;
            |unvisited - {stack[|stack| - 1]}| < |unvisited|
  {
    var current := stack[|stack| - 1];
    assert current in stack;
    var unvisited := events.Keys + {start} - visited;
    assert unvisited == (unvisited - {current}) + {current};
  }

  class PgLineageWriter {
    var events: map<string, Event>
    /** The insertion order of `events`, which Python dictionaries keep. */
    var order: seq<string>
    var dag: seq<DagEdge>
    var contracts: seq<ContractVersion>

    ghost predicate Valid()
      reads this
    {
      && Distinct(order) && (forall id :: id in order <==> id in events)
      && (forall id :: id in events ==> events[id].id == id)
      && (forall e :: e in EdgesOf(dag) ==> e.0 in events && e.1 in events)
    }

    constructor ()
      ensures Valid() && events == map[] && dag == [] && contracts == []
    {
      events, order, dag, contracts := map[], [], [], [];
    }

    /** Stores a row under a fresh id; equal content is stored again as another row. */
    method WriteEvent(event: Event)
      requires Valid() && event.id !in events
      modifies `events, `order
      ensures Valid()
      ensures events == old(events)[event.id := event] && order == old(order) + [event.id]
    {
      events := events[event.id := event];
      order := order + [event.id];
    }

    /** Adds an edge between registered events; cycles are not refused. */
    method AddDagEdge(parent: string, child: string, relationship: string) returns (error: Option<EdgeError>)
      requires Valid()
      modifies `dag
      ensures Valid()
      ensures error == None <==>
        relationship in {"derived_from", "masked_from", "loaded_to"} && parent in events && child in events
      ensures error == Some(InvalidRelationship) <==> relationship !in {"derived_from", "masked_from", "loaded_to"}
      ensures error == Some(ChildNotFound) ==> parent in events && child !in events
      ensures dag == if error == None then old(dag) + [DagEdge(parent, child, relationship)] else old(dag)
    {
      if relationship !in {"derived_from", "masked_from", "loaded_to"} {
        return Some(InvalidRelationship);
      }
      if parent !in events {
        return Some(ParentNotFound);
      }
      if child !in events {
        return Some(ChildNotFound);
      }
      EdgesOfAppend(dag, DagEdge(parent, child, relationship));
      dag := dag + [DagEdge(parent, child, relationship)];
      return None;
    }

    /** All rows in insertion order. */
    function Values(): (values: seq<Event>)
      reads this
      requires Valid()
      ensures Ids(values) == order
      ensures forall e :: e in values <==> e.id in events && events[e.id] == e
    {
      assert forall i :: 0 <= i < |order| ==> order[i] in events;
      var values := seq(|order|, i requires 0 <= i < |order| && order[i] in events reads this => events[order[i]]);
      assert forall id :: id in events ==> exists i :: 0 <= i < |order| && order[i] == id && values[i] == events[id];
      values
    }

    function GetParents(id: string): (edges: seq<DagEdge>)
      reads `dag
      ensures forall e :: e in edges <==> e in dag && e.child == id
    {
      FilterMembers(dag, (e: DagEdge) => e.child == id);
      Filter(dag, (e: DagEdge) => e.child == id)
    }

    function GetChildren(id: string): (edges: seq<DagEdge>)
      reads `dag
      ensures forall e :: e in edges <==> e in dag && e.parent == id
    {
      FilterMembers(dag, (e: DagEdge) => e.parent == id);
      Filter(dag, (e: DagEdge) => e.parent == id)
    }

    /** Walks backward with an explicit stack, on any edge set, cyclic ones included. */
    method TraceAncestry(id: string) returns (result: seq<Event>)
      requires Valid()
      ensures IsExactTraversal(events, Inverse(EdgesOf(dag)), id, result)
    {
      hide TraversalInvariant, IsExactTraversal, EdgesOf, Inverse, Filter, Distinct;
      ghost var next := Inverse(EdgesOf(dag));
      InverseEndpoints(EdgesOf(dag), events.Keys);
      TraversalStarts(events, next, id);
      var visited: set<string> := {};
      var stack := [id];
      result := [];
      while stack != []
        invariant TraversalInvariant(events, next, id, visited, stack, result)
        decreases |events.Keys + {id} - visited|, |stack|
      {
        var current := stack[|stack| - 1];
        var rest := stack[..|stack| - 1];
        if current in visited {
          SkipVisited(events, next, id, visited, stack, result);
          stack := rest;
          continue;
        }
        TraversalMeasure(events, next, id, visited, stack, result);
        assert events.Keys + {id} - (visited + {current}) == events.Keys + {id} - visited - {current};
        var parents := ParentIds(GetParents(current));
        ParentsAreSuccessors(dag, current);
        Visit(events, next, id, visited, stack, result, parents);
        visited := visited + {current};
        if current in events {
          result := result + [events[current]];
        }
        stack := rest + parents;
      }
      TraversalEnds(events, next, id, visited, result);
    }

    /** Walks forward the same way. */
    method TraceDescendants(id: string) returns (result: seq<Event>)
      requires Valid()
      ensures IsExactTraversal(events, EdgesOf(dag), id, result)
    {
      hide TraversalInvariant, IsExactTraversal, EdgesOf, Filter, Distinct;
      ghost var next := EdgesOf(dag);
      TraversalStarts(events, next, id);
      var visited: set<string> := {};
      var stack := [id];
      result := [];
      while stack != []
        invariant TraversalInvariant(events, next, id, visited, stack, result)
        decreases |events.Keys + {id} - visited|, |stack|
      {
        var current := stack[|stack| - 1];
        var rest := stack[..|stack| - 1];
        if current in visited {
          SkipVisited(events, next, id, visited, stack, result);
          stack := rest;
          continue;
        }
        TraversalMeasure(events, next, id, visited, stack, result);
        assert events.Keys + {id} - (visited + {current}) == events.Keys + {id} - visited - {current};
        var children := ChildIds(GetChildren(current));
        ChildrenAreSuccessors(dag, current);
        Visit(events, next, id, visited, stack, result, children);
        visited := visited + {current};
        if current in events {
          result := result + [events[current]];
        }
        stack := rest + children;
      }
      TraversalEnds(events, next, id, visited, result);
    }

    method StoreContractVersion(pipelineRef: string, version: int, yaml: string, hash: string)
      modifies `contracts
      ensures contracts == old(contracts) + [ContractVersion(pipelineRef, version, yaml, hash)]
    {
      contracts := contracts + [ContractVersion(pipelineRef, version, yaml, hash)];
    }

    function GetContractVersions(pipelineRef: string): seq<ContractVersion>
      reads `contracts
    {
      VersionsOf(contracts, pipelineRef)
    }

    function GetLatestContract(pipelineRef: string): Option<ContractVersion>
      reads `contracts
    {
      LatestOf(contracts, pipelineRef)
    }
  }

  function VersionsOf(contracts: seq<ContractVersion>, pipelineRef: string): seq<ContractVersion> {
    SortBy(Filter(contracts, (c: ContractVersion) => c.pipelineRef == pipelineRef), (c: ContractVersion) => c.version)
  }

  function LatestOf(contracts: seq<ContractVersion>, pipelineRef: string): Option<ContractVersion> {
    var versions := VersionsOf(contracts, pipelineRef);
    if versions == [] then None else Some(versions[|versions| - 1])
  }

  function ParentIds(edges: seq<DagEdge>): seq<string> {
    seq(|edges|, i requires 0 <= i < |edges| => edges[i].parent)
  }

  function ChildIds(edges: seq<DagEdge>): seq<string> {
    seq(|edges|, i requires 0 <= i < |edges| => edges[i].child)
  }

  lemma EdgesOfAppend(dag: seq<DagEdge>, e: DagEdge)
    ensures EdgesOf(dag + [e]) == EdgesOf(dag) + {(e.parent, e.child)}
  {
    assert forall x :: x in dag + [e] <==> x in dag || x == e;
    assert e in dag + [e];
  }

  lemma InverseEndpoints(edges: Edges, nodes: set<string>)
    requires forall e :: e in edges ==> e.0 in nodes && e.1 in nodes
    ensures forall e :: e in Inverse(edges) ==> e.0 in nodes && e.1 in nodes
  {
  }

  lemma ParentsAreSuccessors(dag: seq<DagEdge>, id: string)
    ensures forall s :: s in ParentIds(Filter(dag, (e: DagEdge) => e.child == id)) <==>
      (id, s) in Inverse(EdgesOf(dag))
  {
    var parents := Filter(dag, (e: DagEdge) => e.child == id);
    FilterMembers(dag, (e: DagEdge) => e.child == id);
    forall s | (id, s) in Inverse(EdgesOf(dag)) ensures s in ParentIds(parents) {
      assert (s, id) in EdgesOf(dag);
      var e :| e in dag && e.parent == s && e.child == id;
      var i :| 0 <= i < |parents| && parents[i] == e;
      assert ParentIds(parents)[i] == s;
    }
    forall s | s in ParentIds(parents) ensures (id, s) in Inverse(EdgesOf(dag)) {
      var i :| 0 <= i < |parents| && ParentIds(parents)[i] == s;
      assert parents[i] in parents;
      assert (s, id) in EdgesOf(dag);
    }
  }

  lemma ChildrenAreSuccessors(dag: seq<DagEdge>, id: string)
    ensures forall s :: s in ChildIds(Filter(dag, (e: DagEdge) => e.parent == id)) <==> (id, s) in EdgesOf(dag)
  {
    var children := Filter(dag, (e: DagEdge) => e.parent == id);
    FilterMembers(dag, (e: DagEdge) => e.parent == id);
    forall s | (id, s) in EdgesOf(dag) ensures s in ChildIds(children) {
      var e :| e in dag && e.parent == id && e.child == s;
      var i :| 0 <= i < |children| && children[i] == e;
      assert ChildIds(children)[i] == s;
    }
    forall s | s in ChildIds(children) ensures (id, s) in EdgesOf(dag) {
      var i :| 0 <= i < |children| && ChildIds(children)[i] == s;
      assert children[i] in children;
    }
  }

  /** `a` is in the ancestry of `b` iff `b` is in the descendants of `a`, whatever lists the two traversals return. */
  lemma TraversalsAreDual(events: map<string, Event>, dag: seq<DagEdge>, a: string, b: string,
                          ancestry: seq<Event>, descendants: seq<Event>)
    requires a in events && b in events
    requires IsExactTraversal(events, Inverse(EdgesOf(dag)), b, ancestry)
    requires IsExactTraversal(events, EdgesOf(dag), a, descendants)
    ensures a in Ids(ancestry) <==> b in Ids(descendants)
  {
    ReachabilityDual(EdgesOf(dag), a, b);
  }
}
