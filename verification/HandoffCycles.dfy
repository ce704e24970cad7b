/** Cycle detection over handoff routes: `detect_handoff_cycles` of agents/__init__.py. */
module HandoffCycles {
  import opened Common
  import opened Graphs

  /** One handoff route. A missing field and an empty one are the same to the code, so "" stands for both. */
  datatype Route = Route(source: string, target: string, direction: string)

  datatype Color = White | Gray | Black

  type Adjacency = map<string, seq<string>>

  predicate IsForward(r: Route) {
    && r.direction != "direct" && r.direction != "return"
    && r.source != "" && r.target != ""
  }

  /** The graph the documentation speaks of: one edge per route that hands new work forward. */
  function ForwardEdges(routes: seq<Route>): Edges {
    set r | r in routes && IsForward(r) :: (r.source, r.target)
  }

  function EdgesOf(graph: Adjacency): Edges {
    set u, v | u in graph && v in graph[u] :: (u, v)
  }

  /** The last edge of each reported cycle. */
  function ClosingEdges(cycles: seq<seq<string>>): Edges {
    set c | c in cycles && |c| >= 2 :: (c[|c| - 2], c[|c| - 1])
  }

  function Whites(color: map<string, Color>): set<string> {
    set n | n in color && color[n] == White
  }

  /** Every node already finished sends its edges to nodes finished before it, or along a closing edge. */
  ghost predicate FinishedEdges(edges: Edges, finished: seq<string>, closing: Edges) {
    forall j, v :: 0 <= j < |finished| && (finished[j], v) in edges ==>
      v in finished[..j] || (finished[j], v) in closing
  }

  /** What holds between any two steps of the search. */
  ghost predicate SearchInvariant(
    graph: Adjacency, color: map<string, Color>, path: seq<string>, cycles: seq<seq<string>>, finished: seq<string>)
  {
    && (forall e :: e in EdgesOf(graph) ==> e.0 in color && e.1 in color)
    && (forall n :: n in path <==> n in color && color[n] == Gray)
    && (forall n :: n in finished <==> n in color && color[n] == Black)
    && Distinct(path) && Distinct(finished)
    && (path != [] ==> IsWalk(EdgesOf(graph), path))
    && (forall c :: c in cycles ==> IsSimpleCycle(EdgesOf(graph), c))
    && FinishedEdges(EdgesOf(graph), finished, ClosingEdges(cycles))
  }

  function IndexOf(s: seq<string>, x: string): (i: nat)
    requires x in s
    ensures i < |s| && s[i] == x && x !in s[..i]
  {
    if s[0] == x then 0 else
      assert s == [s[0]] + s[1..];
      var i := 1 + IndexOf(s[1..], x);
      assert forall k :: 0 < k < i ==> s[k] == s[1..][k - 1] && s[1..][k - 1] in s[1..][..i - 1];
      i
  }

  /** Cutting the live path at a gray neighbour and returning to it is a simple cycle. */
  lemma BackEdgeClosesCycle(edges: Edges, path: seq<string>, v: string)
    requires path != [] && IsWalk(edges, path) && Distinct(path)
    requires v in path && (path[|path| - 1], v) in edges
    ensures IsSimpleCycle(edges, path[IndexOf(path, v)..] + [v])
  {
    var k := IndexOf(path, v);
    var c := path[k..] + [v];
    assert c[0] == v == c[|c| - 1] && c[..|c| - 1] == path[k..];
    forall i | 0 <= i < |c| - 1 ensures (c[i], c[i + 1]) in edges {
      assert c[i] == path[k + i];
      if i < |c| - 2 {
        assert c[i + 1] == path[k + i + 1];
      }
    }
  }

  lemma ClosingEdgesAppend(cycles: seq<seq<string>>, c: seq<string>)
    requires |c| >= 2
    ensures ClosingEdges(cycles + [c]) == ClosingEdges(cycles) + {(c[|c| - 2], c[|c| - 1])}
  {
    assert forall d :: d in cycles + [c] <==> d in cycles || d == c;
    assert c in cycles + [c];
  }

  /** What the colour of a node means. */
  lemma ColorMeaning(graph: Adjacency, color: map<string, Color>, path: seq<string>, cycles: seq<seq<string>>,
                     finished: seq<string>, node: string)
    requires SearchInvariant(graph, color, path, cycles, finished)
    ensures node in color ==> match color[node]
                              case White => node in Whites(color)
                              case Gray => node in path
                              case Black => node in finished
  {
  }

  lemma EndsAreColored(graph: Adjacency, color: map<string, Color>, path: seq<string>, cycles: seq<seq<string>>,
                       finished: seq<string>, node: string, neighbor: string)
    requires SearchInvariant(graph, color, path, cycles, finished) && (node, neighbor) in EdgesOf(graph)
    ensures neighbor in color
  {
  }

  /** Turning a white successor of the path's end gray. */
  lemma EnterNode(graph: Adjacency, color: map<string, Color>, path: seq<string>, cycles: seq<seq<string>>,
                  finished: seq<string>, node: string)
    requires SearchInvariant(graph, color, path, cycles, finished)
    requires node in color && color[node] == White
    requires path != [] ==> (path[|path| - 1], node) in EdgesOf(graph)
    ensures SearchInvariant(graph, color[node := Gray], path + [node], cycles, finished)
    ensures Whites(color[node := Gray]) == Whites(color) - {node}
  {
    var path' := path + [node];
    forall i | 0 <= i < |path'| - 1 ensures (path'[i], path'[i + 1]) in EdgesOf(graph) {
      if i < |path| - 1 {
        assert (path[i], path[i + 1]) in EdgesOf(graph);
      }
    }
  }

  /** Reporting the cycle that a gray neighbour closes. */
  lemma ReportCycle(graph: Adjacency, color: map<string, Color>, path: seq<string>, cycles: seq<seq<string>>,
                    finished: seq<string>, v: string)
    requires SearchInvariant(graph, color, path, cycles, finished)
    requires path != [] && v in path && (path[|path| - 1], v) in EdgesOf(graph)
    ensures var cycles' := cycles + [path[IndexOf(path, v)..] + [v]];
            && SearchInvariant(graph, color, path, cycles', finished)
            && (path[|path| - 1], v) in ClosingEdges(cycles')
            && ClosingEdges(cycles) <= ClosingEdges(cycles')
  {
    BackEdgeClosesCycle(EdgesOf(graph), path, v);
    var c := path[IndexOf(path, v)..] + [v];
    assert c[|c| - 2] == path[|path| - 1];
    ClosingEdgesAppend(cycles, c);
    assert forall d :: d in cycles + [c] ==> d in cycles || d == c;
  }

  /** Turning the path's end black once all its edges are accounted for. */
  lemma LeaveNode(graph: Adjacency, color: map<string, Color>, path: seq<string>, cycles: seq<seq<string>>,
                  finished: seq<string>, node: string)
    requires SearchInvariant(graph, color, path + [node], cycles, finished)
    requires forall v :: (node, v) in EdgesOf(graph) ==> v in finished || (node, v) in ClosingEdges(cycles)
    ensures SearchInvariant(graph, color[node := Black], path, cycles, finished + [node])
    ensures Whites(color[node := Black]) == Whites(color)
  {
    var path' := path + [node];
    assert path'[|path|] == node && forall i :: 0 <= i < |path| ==> path'[i] == path[i];
    assert node in path' && node !in path && node !in finished && node in color;
    assert forall n :: n in path' <==> n in path || n == node;
    forall i | 0 <= i < |path| - 1 ensures (path[i], path[i + 1]) in EdgesOf(graph) {
      assert (path'[i], path'[i + 1]) in EdgesOf(graph);
    }
    FinishNode(EdgesOf(graph), finished, ClosingEdges(cycles), node);
  }

  /** Finishing a node whose edges are all accounted for keeps the finishing order sound. */
  lemma FinishNode(edges: Edges, finished: seq<string>, closing: Edges, node: string)
    requires FinishedEdges(edges, finished, closing)
    requires forall v :: (node, v) in edges ==> v in finished || (node, v) in closing
    ensures FinishedEdges(edges, finished + [node], closing)
  {
    var f := finished + [node];
    forall j, v | 0 <= j < |f| && (f[j], v) in edges ensures v in f[..j] || (f[j], v) in closing {
      if j < |finished| {
        assert f[..j] == finished[..j];
      } else {
        assert f[..j] == finished;
      }
    }
  }

  /** Each of the successors is finished, or the edge to it closes a reported cycle. */
  ghost predicate Accounted(node: string, successors: seq<string>, finished: seq<string>, closing: Edges) {
    forall v :: v in successors ==> v in finished || (node, v) in closing
  }

  lemma AccountForOne(node: string, successors: seq<string>, i: nat, finished0: seq<string>, finished: seq<string>,
                      closing0: Edges, closing: Edges)
    requires i < |successors| && Accounted(node, successors[..i], finished0, closing0)
    requires finished0 <= finished && closing0 <= closing
    requires successors[i] in finished || (node, successors[i]) in closing
    ensures Accounted(node, successors[..i + 1], finished, closing)
  {
    assert successors[..i + 1] == successors[..i] + [successors[i]];
    assert forall x :: x in finished0 ==> x in finished;
  }

  lemma AccountForNone(node: string, finished: seq<string>, closing: Edges)
    ensures Accounted(node, [], finished, closing)
  {
  }

  lemma AllAccounted(node: string, successors: seq<string>, finished: seq<string>, closing: Edges)
    requires Accounted(node, successors, finished, closing)
    ensures forall v :: v in successors ==> v in finished || (node, v) in closing
  {
  }

  lemma NeighborsAreEdges(graph: Adjacency, node: string)
    ensures forall v :: (node, v) in EdgesOf(graph) <==> v in if node in graph then graph[node] else []
  {
  }

  /** The shared state of the recursive search: the closure variables of the original. */
  class CycleSearch {
    const graph: Adjacency
    var color: map<string, Color>
    var path: seq<string>
    var cycles: seq<seq<string>>
    ghost var finished: seq<string>

    ghost predicate Valid()
      reads this
    {
      SearchInvariant(graph, color, path, cycles, finished)
    }

    constructor (graph: Adjacency, nodes: set<string>)
      requires forall e :: e in EdgesOf(graph) ==> e.0 in nodes && e.1 in nodes
      ensures Valid() && this.graph == graph
      ensures color == map n | n in nodes :: White
      ensures path == [] && cycles == [] && finished == []
    {
      this.graph := graph;
      color := map n | n in nodes :: White;
      path, cycles, finished := [], [], [];
    }

    method Dfs(node: string)
      requires Valid() && node in color && color[node] == White
      requires path != [] ==> (path[|path| - 1], node) in EdgesOf(graph)
      modifies this
      ensures Valid() && node in finished
      ensures path == old(path) && color.Keys == old(color.Keys)
      ensures old(finished) <= finished && ClosingEdges(old(cycles)) <= ClosingEdges(cycles)
      ensures Whites(color) <= Whites(old(color)) - {node}
      decreases |Whites(color)|
    {
      hide SearchInvariant, ClosingEdges, Whites, EdgesOf, Distinct, Accounted, IndexOf;
      ColorMeaning(graph, color, path, cycles, finished, node);
      EnterNode(graph, color, path, cycles, finished, node);
      color := color[node := Gray];
      path := path + [node];
      var neighbors := if node in graph then graph[node] else [];
      NeighborsAreEdges(graph, node);
      AccountForNone(node, finished, ClosingEdges(cycles));
      var i := 0;
      while i < |neighbors|
        invariant 0 <= i <= |neighbors|
        invariant Valid() && path == old(path) + [node] && color.Keys == old(color.Keys)
        invariant old(finished) <= finished && ClosingEdges(old(cycles)) <= ClosingEdges(cycles)
        invariant Whites(color) <= Whites(old(color)) - {node}
        invariant Accounted(node, neighbors[..i], finished, ClosingEdges(cycles))
      {
        var neighbor := neighbors[i];
        assert (node, neighbor) in EdgesOf(graph);
        EndsAreColored(graph, color, path, cycles, finished, node, neighbor);
        ColorMeaning(graph, color, path, cycles, finished, neighbor);
        ghost var finished0, cycles0 := finished, cycles;
        if color[neighbor] == Gray {
          ReportCycle(graph, color, path, cycles, finished, neighbor);
          var start := IndexOf(path, neighbor);
          cycles := cycles + [path[start..] + [neighbor]];
        } else if color[neighbor] == White {
          assert node in Whites(old(color));
          SubsetSmaller(Whites(color), Whites(old(color)), node);
          Dfs(neighbor);
        }
        AccountForOne(node, neighbors, i, finished0, finished, ClosingEdges(cycles0), ClosingEdges(cycles));
        i := i + 1;
      }
      assert neighbors[..i] == neighbors;
      AllAccounted(node, neighbors, finished, ClosingEdges(cycles));
      LeaveNode(graph, color, old(path), cycles, finished, node);
      path := path[..|path| - 1];
      color := color[node := Black];
      finished := finished + [node];
    }

    /** Searches from every node still white, taking the nodes in any order. */
    method SearchAll()
      requires Valid() && path == []
      modifies this
      ensures Valid() && forall n :: n in old(color) ==> n in finished
    {
      hide SearchInvariant, ClosingEdges, Whites;
      var pending := color.Keys;
      while pending != {}
        invariant Valid() && path == [] && color.Keys == old(color.Keys)
        invariant pending <= color.Keys
        invariant forall n :: n in color && n !in pending ==> n in finished
        decreases |pending|
      {
        var node :| node in pending;
        ColorMeaning(graph, color, path, cycles, finished, node);
        if color[node] == White {
          Dfs(node);
        }
        pending := pending - {node};
      }
    }
  }

  lemma SubsetSmaller(small: set<string>, big: set<string>, x: string)
    requires small <= big - {x} && x in big
    ensures |small| < |big|
  {
    var rest := big - {x} - small;
    assert big == small + rest + {x};
  }

  /** The targets of a source's forward routes, in route order and as often as they are routed to. */
  function TargetsOf(routes: seq<Route>, source: string): seq<string> {
    if routes == [] then []
    else
      var before, last := TargetsOf(routes[..|routes| - 1], source), routes[|routes| - 1];
      if IsForward(last) && last.source == source then before + [last.target] else before
  }

  ghost predicate ListsTargets(graph: Adjacency, routes: seq<Route>) {
    && (forall u :: u in graph <==> TargetsOf(routes, u) != [])
    && (forall u :: u in graph ==> graph[u] == TargetsOf(routes, u))
  }

  lemma {:induction false} TargetsAreEdges(routes: seq<Route>, u: string, v: string)
    ensures v in TargetsOf(routes, u) <==> (u, v) in ForwardEdges(routes)
  {
    if routes != [] {
      var before, last := routes[..|routes| - 1], routes[|routes| - 1];
      TargetsAreEdges(before, u, v);
      assert forall r :: r in routes <==> r in before || r == last;
      if (u, v) in ForwardEdges(before) {
        var r :| r in before && IsForward(r) && (r.source, r.target) == (u, v);
        assert r in routes;
      }
    }
  }

  lemma ListsTargetsStep(graph: Adjacency, before: seq<Route>, r: Route)
    requires ListsTargets(graph, before)
    ensures var targets := (if r.source in graph then graph[r.source] else []) + [r.target];
            ListsTargets(if IsForward(r) then graph[r.source := targets] else graph, before + [r])
  {
    assert (before + [r])[..|before|] == before;
    forall u ensures TargetsOf(before + [r], u) ==
      TargetsOf(before, u) + if IsForward(r) && r.source == u then [r.target] else []
    {
    }
  }

  /** What the searched edges are, read off the routes. */
  lemma EdgesAreForwardRoutes(routes: seq<Route>, u: string, v: string)
    ensures (u, v) in ForwardEdges(routes) <==> exists r | r in routes ::
      r.source == u != "" && r.target == v != "" && r.direction != "direct" && r.direction != "return"
  {
    if r :| r in routes && IsForward(r) && r.source == u && r.target == v {
      assert r.direction != "direct" && r.direction != "return";
    }
  }

  /** A direct or return route, put anywhere into the list, changes neither the edges nor their order. */
  lemma OtherRoutesAreIgnored(before: seq<Route>, r: Route, after: seq<Route>, source: string)
    requires r.direction == "direct" || r.direction == "return"
    ensures ForwardEdges(before + [r] + after) == ForwardEdges(before + after)
    ensures TargetsOf(before + [r] + after, source) == TargetsOf(before + after, source)
  {
    TargetsConcat(before + [r], after, source);
    TargetsConcat(before, [r], source);
    TargetsConcat(before, after, source);
    TargetsOfOne(r, source);
    var edges, edges' := ForwardEdges(before + after), ForwardEdges(before + [r] + after);
    forall e ensures e in edges <==> e in edges' {
      EdgesAreForwardRoutes(before + after, e.0, e.1);
      EdgesAreForwardRoutes(before + [r] + after, e.0, e.1);
    }
  }

  /** Targets are listed route by route: the list of a concatenation is the concatenation of the lists. */
  lemma {:induction false} TargetsConcat(a: seq<Route>, b: seq<Route>, source: string)
    ensures TargetsOf(a + b, source) == TargetsOf(a, source) + TargetsOf(b, source)
  {
    if b == [] {
      assert a + b == a;
    } else {
      assert (a + b)[..|a + b| - 1] == a + b[..|b| - 1];
      TargetsConcat(a, b[..|b| - 1], source);
    }
  }

  lemma TargetsOfOne(r: Route, source: string)
    ensures TargetsOf([r], source) ==
      if r.source == source != "" && r.target != "" && r.direction != "direct" && r.direction != "return"
      then [r.target] else []
  {
    assert [r][..0] == [];
  }

  /** Adjacency lists from the forward routes, in route order. */
  method BuildGraph(routes: seq<Route>) returns (graph: Adjacency)
    ensures forall u, v :: (u, v) in EdgesOf(graph) <==> exists r | r in routes ::
      r.source == u != "" && r.target == v != "" && r.direction != "direct" && r.direction != "return"
    ensures EdgesOf(graph) == ForwardEdges(routes)
    ensures forall u :: u in graph <==> TargetsOf(routes, u) != []
    ensures forall u :: u in graph ==> graph[u] == TargetsOf(routes, u)
  {
    hide TargetsOf, ForwardEdges;
    graph := map[];
    var i := 0;
    NoTargets();
    while i < |routes|
      invariant 0 <= i <= |routes|
      invariant ListsTargets(graph, routes[..i])
    {
      hide ListsTargets;
      var r := routes[i];
      assert routes[..i + 1] == routes[..i] + [r];
      ListsTargetsStep(graph, routes[..i], r);
      if r.direction == "direct" || r.direction == "return" {
      } else if r.source != "" && r.target != "" {
        graph := graph[r.source := (if r.source in graph then graph[r.source] else []) + [r.target]];
      }
      i := i + 1;
    }
    assert routes[..i] == routes;
    forall u, v ensures v in TargetsOf(routes, u) <==> (u, v) in ForwardEdges(routes) {
      TargetsAreEdges(routes, u, v);
    }
    EdgesFromTargets(graph, routes);
    forall u, v { EdgesAreForwardRoutes(routes, u, v); }
  }

  lemma NoTargets()
    ensures ListsTargets(map[], [])
  {
  }

  lemma EdgesFromTargets(graph: Adjacency, routes: seq<Route>)
    requires ListsTargets(graph, routes)
    requires forall u, v :: v in TargetsOf(routes, u) <==> (u, v) in ForwardEdges(routes)
    ensures EdgesOf(graph) == ForwardEdges(routes)
  {
    hide TargetsOf, ForwardEdges;
    var edges := ForwardEdges(routes);
    forall e | e in EdgesOf(graph) ensures e in edges {
      assert e.1 in TargetsOf(routes, e.0);
    }
    forall e | e in edges ensures e in EdgesOf(graph) {
      assert (e.0, e.1) in edges;
      assert e.1 in TargetsOf(routes, e.0);
    }
  }

  /** Once every node is finished, the reversed finishing order sorts what is left of the graph. */
  lemma FinishingOrderIsTopological(edges: Edges, finished: seq<string>, closing: Edges)
    requires Distinct(finished) && FinishedEdges(edges, finished, closing)
    requires forall e :: e in edges ==> e.0 in finished
    ensures IsTopologicalOrder(edges - closing, Reverse(finished))
  {
    var order := Reverse(finished);
    forall e | e in edges - closing
      ensures exists i, j :: 0 <= i < j < |order| && order[i] == e.0 && order[j] == e.1
    {
      var a :| 0 <= a < |finished| && finished[a] == e.0;
      assert (finished[a], e.1) in edges;
      var b :| 0 <= b < a && finished[b] == e.1;
      var i, j := |order| - 1 - a, |order| - 1 - b;
      assert order[i] == e.0 && order[j] == e.1;
    }
  }

  lemma EndpointsAreNodes(graph: Adjacency)
    ensures var nodes := graph.Keys + set u, v | u in graph && v in graph[u] :: v;
            forall e :: e in EdgesOf(graph) ==> e.0 in nodes && e.1 in nodes
  {
  }

  lemma AllFinished(graph: Adjacency, color: map<string, Color>, path: seq<string>, cycles: seq<seq<string>>,
                    finished: seq<string>)
    requires SearchInvariant(graph, color, path, cycles, finished)
    ensures FinishedEdges(EdgesOf(graph), finished, ClosingEdges(cycles)) && Distinct(finished)
    ensures forall c :: c in cycles ==> IsSimpleCycle(EdgesOf(graph), c)
  {
  }

  lemma ReportedMeansCyclic(edges: Edges, cycles: seq<seq<string>>, order: seq<string>)
    requires forall c :: c in cycles ==> IsSimpleCycle(edges, c)
    requires IsTopologicalOrder(edges - ClosingEdges(cycles), order)
    ensures cycles == [] <==> Acyclic(edges)
  {
    if cycles == [] {
      assert edges - ClosingEdges(cycles) == edges;
      TopologicalOrderMeansAcyclic(edges, order);
    } else {
      assert cycles[0] in cycles;
    }
  }

  /** Every directed cycle of the graph runs through the closing edge of some reported cycle. */
  lemma EveryCycleIsCut(edges: Edges, cycles: seq<seq<string>>, order: seq<string>, w: seq<string>)
    requires IsTopologicalOrder(edges - ClosingEdges(cycles), order)
    requires IsClosedWalk(edges, w)
    ensures exists k :: 0 <= k < |w| - 1 && (w[k], w[k + 1]) in ClosingEdges(cycles)
  {
    TopologicalOrderMeansAcyclic(edges - ClosingEdges(cycles), order);
    assert !IsClosedWalk(edges - ClosingEdges(cycles), w);
  }

  /**
   * The whole detector. Roots are taken in any order, as the iteration over the original's node set may.
   * `finished` is the order in which nodes turn black.
   */
  method DetectHandoffCycles(routes: seq<Route>) returns (cycles: seq<seq<string>>, ghost finished: seq<string>)
    ensures forall u, v :: (u, v) in ForwardEdges(routes) <==> exists r | r in routes ::
      r.source == u != "" && r.target == v != "" && r.direction != "direct" && r.direction != "return"
    ensures cycles == [] <==> Acyclic(ForwardEdges(routes))
    ensures forall c :: c in cycles ==> IsSimpleCycle(ForwardEdges(routes), c)
    ensures IsTopologicalOrder(ForwardEdges(routes) - ClosingEdges(cycles), Reverse(finished))
    ensures Acyclic(ForwardEdges(routes) - ClosingEdges(cycles))
  {
    hide SearchInvariant, IsTopologicalOrder, Acyclic, IsSimpleCycle, ClosingEdges, FinishedEdges, ForwardEdges;
    var graph := BuildGraph(routes);
    ghost var edges := ForwardEdges(routes);
    var allNodes := graph.Keys + set u, v | u in graph && v in graph[u] :: v;
    EndpointsAreNodes(graph);
    var search := new CycleSearch(graph, allNodes);
    search.SearchAll();
    AllFinished(graph, search.color, search.path, search.cycles, search.finished);
    cycles := search.cycles;
    finished := search.finished;
    FinishingOrderIsTopological(edges, finished, ClosingEdges(cycles));
    ReportedMeansCyclic(edges, cycles, Reverse(finished));
    TopologicalOrderMeansAcyclic(edges - ClosingEdges(cycles), Reverse(finished));
  }
}
