/** The provenance graph: acceptance by Kahn's algorithm and breadth-first traces. */
module Provenance {
  import opened Ordering

  datatype NodeKind =
    | Campaign | Run | ListObligation | SourceRequest | WorkItem | FetchAttempt | FetchAttemptResult
    | RawObject | SourceVintage | NormalizedObservation | ConfidenceAssessment | Snapshot | FactorInput
    | MartOutput

  datatype EdgeKind =
    | Contains | Requires | Dispatches | SatisfiedBy | AttemptedBy | Completes | Observed | Reuses
    | ArchivesAs | NormalizedAs | ReconcilesWith | Supersedes | AssessedBy | SelectedInto | Projects
    | Materializes

  datatype Node = Node(nodeId: string, kind: NodeKind)

  datatype Edge = Edge(edgeId: string, fromId: string, kind: EdgeKind, toId: string, ordinal: nat)

  datatype Graph = Graph(nodes: seq<Node>, edges: seq<Edge>)

  datatype Error =
    | NoNodes | DuplicateNode | DuplicateEdge | DanglingEdge | Cyclic | MissingStartNode

  datatype Result<+T> = Ok(value: T) | Err(error: Error)

  // ---------------------------------------------------------------- what a graph means

  /** Edges seen as pairs of endpoints; parallel edges of other kind or ordinal collapse. */
  type Arcs = set<(string, string)>

  function ArcsOf(edges: seq<Edge>): Arcs {
    set e | e in edges :: (e.fromId, e.toId)
  }

  function IdsOf(nodes: seq<Node>): set<string> {
    set n | n in nodes :: n.nodeId
  }

  function Flip(arcs: Arcs): Arcs {
    set a | a in arcs :: (a.1, a.0)
  }

  ghost predicate Path(arcs: Arcs, p: seq<string>) {
    |p| >= 2 && forall i :: 0 <= i < |p| - 1 ==> (p[i], p[i + 1]) in arcs
  }

  /** There is a path of at least one edge from `a` to `b`. */
  ghost predicate Reaches(arcs: Arcs, a: string, b: string) {
    exists p :: Path(arcs, p) && p[0] == a && p[|p| - 1] == b
  }

  ghost predicate Acyclic(arcs: Arcs) {
    forall x :: !Reaches(arcs, x, x)
  }

  ghost predicate Closed(nodes: seq<Node>, edges: seq<Edge>) {
    forall e :: e in edges ==> e.fromId in IdsOf(nodes) && e.toId in IdsOf(nodes)
  }

  ghost predicate DistinctNodeIds(nodes: seq<Node>) {
    forall i, j :: 0 <= i < j < |nodes| ==> nodes[i].nodeId != nodes[j].nodeId
  }

  ghost predicate DistinctEdgeIds(edges: seq<Edge>) {
    forall i, j :: 0 <= i < j < |edges| ==> edges[i].edgeId != edges[j].edgeId
  }

  /** The graphs the contract admits. */
  ghost predicate WellFormed(g: Graph) {
    && g.nodes != []
    && DistinctNodeIds(g.nodes)
    && DistinctEdgeIds(g.edges)
    && Closed(g.nodes, g.edges)
    && Acyclic(ArcsOf(g.edges))
  }

  // ---------------------------------------------------------------- paths

  lemma ArcReaches(arcs: Arcs, a: string, b: string)
    requires (a, b) in arcs
    ensures Reaches(arcs, a, b)
  {
    var p := [a, b];
    assert Path(arcs, p) && p[0] == a && p[|p| - 1] == b;
  }

  lemma ReachesTransitive(arcs: Arcs, a: string, b: string, c: string)
    requires Reaches(arcs, a, b) && Reaches(arcs, b, c)
    ensures Reaches(arcs, a, c)
  {
    var p :| Path(arcs, p) && p[0] == a && p[|p| - 1] == b;
    var q :| Path(arcs, q) && q[0] == b && q[|q| - 1] == c;
    var r := p + q[1..];
    assert Path(arcs, r) && r[0] == a && r[|r| - 1] == c;
  }

  /** A reaching path is one arc, or one arc followed by a reaching path. */
  lemma ReachesStep(arcs: Arcs, a: string, c: string)
    ensures Reaches(arcs, a, c) <==>
            (a, c) in arcs || exists b :: Reaches(arcs, a, b) && (b, c) in arcs
  {
    if Reaches(arcs, a, c) {
      var p :| Path(arcs, p) && p[0] == a && p[|p| - 1] == c;
      if |p| > 2 {
        var q := p[..|p| - 1];
        assert Path(arcs, q) && q[0] == a && q[|q| - 1] == p[|p| - 2];
        assert Reaches(arcs, a, p[|p| - 2]) && (p[|p| - 2], c) in arcs;
      }
    } else {
      if (a, c) in arcs {
        ArcReaches(arcs, a, c);
      }
      forall b | Reaches(arcs, a, b) && (b, c) in arcs
        ensures false
      {
        ArcReaches(arcs, b, c);
        ReachesTransitive(arcs, a, b, c);
      }
    }
  }

  lemma FlipPath(arcs: Arcs, a: string, b: string)
    requires Reaches(arcs, a, b)
    ensures Reaches(Flip(arcs), b, a)
  {
    var p :| Path(arcs, p) && p[0] == a && p[|p| - 1] == b;
    var q := seq(|p|, i requires 0 <= i < |p| => p[|p| - 1 - i]);
    forall i | 0 <= i < |q| - 1
      ensures (q[i], q[i + 1]) in Flip(arcs)
    {
      var k := |p| - 2 - i;
      assert (p[k], p[k + 1]) in arcs;
    }
    assert Path(Flip(arcs), q) && q[0] == b && q[|q| - 1] == a;
  }

  lemma FlipFlip(arcs: Arcs)
    ensures Flip(Flip(arcs)) == arcs
  {
    forall a | a in arcs
      ensures a in Flip(Flip(arcs))
    {
      assert (a.1, a.0) in Flip(arcs);
    }
  }

  // ---------------------------------------------------------------- Kahn's criterion

  /** Every predecessor of a listed node is listed before it. */
  ghost predicate Topological(arcs: Arcs, order: seq<string>) {
    forall i, u :: 0 <= i < |order| && (u, order[i]) in arcs ==> u in order[..i]
  }

  lemma {:induction false} PathDescends(arcs: Arcs, order: seq<string>, p: seq<string>, i: nat)
    requires Topological(arcs, order) && Path(arcs, p)
    requires i < |order| && p[|p| - 1] == order[i]
    ensures p[0] in order[..i]
    decreases |p|
  {
    assert (p[|p| - 2], order[i]) in arcs;
    var j :| 0 <= j < i && order[j] == p[|p| - 2];
    if |p| > 2 {
      PathDescends(arcs, order, p[..|p| - 1], j);
    }
  }

  lemma TopologicalAcyclic(arcs: Arcs, order: seq<string>)
    requires Topological(arcs, order) && Distinct(order)
    requires forall a :: a in arcs ==> a.1 in order
    ensures Acyclic(arcs)
  {
    forall x | Reaches(arcs, x, x)
      ensures false
    {
      var p :| Path(arcs, p) && p[0] == x && p[|p| - 1] == x;
      assert (p[|p| - 2], x) in arcs;
      var i :| 0 <= i < |order| && order[i] == x;
      PathDescends(arcs, order, p, i);
    }
  }

  /** A node sequence each of whose consecutive pairs is an arc; one node alone qualifies. */
  ghost predicate Walk(arcs: Arcs, w: seq<string>) {
    w != [] && forall i :: 0 <= i < |w| - 1 ==> (w[i], w[i + 1]) in arcs
  }

  lemma WalkPrepend(arcs: Arcs, u: string, w: seq<string>)
    requires Walk(arcs, w) && (u, w[0]) in arcs
    ensures Walk(arcs, [u] + w)
    ensures u in w ==> Reaches(arcs, u, u)
  {
    var longer := [u] + w;
    forall i | 0 <= i < |longer| - 1
      ensures (longer[i], longer[i + 1]) in arcs
    {
      if i > 0 {
        assert (w[i - 1], w[i]) in arcs;
      }
    }
    if u in w {
      var i :| 0 <= i < |w| && w[i] == u;
      var cycle := longer[..i + 2];
      assert Path(arcs, cycle) && cycle[0] == u && cycle[|cycle| - 1] == u;
    }
  }

  /** The arcs into `v` whose source is not yet visited; its size is the in-degree Kahn's loop keeps. */
  ghost function Pending(arcs: Arcs, done: set<string>, v: string): Arcs {
    set a | a in arcs && a.1 == v && a.0 !in done
  }

  lemma PendingVisit(arcs: Arcs, done: set<string>, n: string, v: string)
    requires n !in done
    ensures |Pending(arcs, done, v)| ==
            |Pending(arcs, done + {n}, v)| + if (n, v) in arcs then 1 else 0
  {
    var after := Pending(arcs, done + {n}, v);
    if (n, v) in arcs {
      assert Pending(arcs, done, v) == after + {(n, v)};
    } else {
      assert Pending(arcs, done, v) == after;
    }
  }

  /** Walking backwards among unvisited nodes, each of which has an unvisited predecessor, must close
      a cycle. */
  lemma {:induction false} BackwardWalk(arcs: Arcs, ids: set<string>, done: set<string>, walk: seq<string>)
    requires forall a :: a in arcs ==> a.0 in ids
    requires forall v :: v in ids && v !in done ==> |Pending(arcs, done, v)| != 0
    requires Walk(arcs, walk) && Distinct(walk) && Elements(walk) <= ids - done
    ensures !Acyclic(arcs)
    decreases |ids - done| - |walk|
  {
    assert walk[0] in Elements(walk);
    var a :| a in Pending(arcs, done, walk[0]);
    WalkPrepend(arcs, a.0, walk);
    if a.0 !in walk {
      var longer := [a.0] + walk;
      assert Distinct(longer) && Elements(longer) == {a.0} + Elements(walk);
      DistinctWithin(longer, ids - done);
      BackwardWalk(arcs, ids, done, longer);
    }
  }

  /** Walking backwards without end is only possible on a cycle: every node has a root behind it, or is one. */
  lemma {:induction false} RootBehind(arcs: Arcs, ids: set<string>, walk: seq<string>) returns (root: string)
    requires Acyclic(arcs) && forall a :: a in arcs ==> a.0 in ids
    requires Walk(arcs, walk) && Distinct(walk) && Elements(walk) <= ids
    ensures forall u :: (u, root) !in arcs
    ensures root == walk[|walk| - 1] || Reaches(arcs, root, walk[|walk| - 1])
    decreases |ids| - |walk|
  {
    if a :| a in arcs && a.1 == walk[0] {
      WalkPrepend(arcs, a.0, walk);
      var longer := [a.0] + walk;
      assert Distinct(longer) && Elements(longer) == {a.0} + Elements(walk);
      DistinctWithin(longer, ids);
      root := RootBehind(arcs, ids, longer);
    } else {
      root := walk[0];
      assert forall u :: (u, root) in arcs ==> (u, root).1 == root;
      if |walk| > 1 {
        assert Path(arcs, walk);
      }
    }
  }

  function Successors(arcs: Arcs, n: string): set<string> {
    set a | a in arcs && a.0 == n :: a.1
  }

  lemma ArcAddedAt(before: Arcs, a: (string, string), v: string)
    ensures |Pending(before + {a}, {}, v)| ==
            |Pending(before, {}, v)| + if v == a.1 && a !in before then 1 else 0
  {
    if v == a.1 && a !in before {
      assert Pending(before + {a}, {}, v) == Pending(before, {}, v) + {a};
    } else {
      assert Pending(before + {a}, {}, v) == Pending(before, {}, v);
    }
  }

  /** The two dictionaries say what they should about `arcs`. */
  ghost predicate Tabulated(arcs: Arcs, ids: set<string>, outgoing: map<string, set<string>>,
                            indegree: map<string, nat>) {
    && outgoing.Keys == ids && indegree.Keys == ids
    && (forall n :: n in ids ==> outgoing[n] == Successors(arcs, n))
    && (forall v :: v in ids ==> indegree[v] == |Pending(arcs, {}, v)|)
  }

  lemma NewArcTabulated(arcs: Arcs, ids: set<string>, outgoing: map<string, set<string>>, indegree: map<string, nat>,
                        source: string, target: string)
    requires Tabulated(arcs, ids, outgoing, indegree) && source in ids && target in ids
    requires target !in outgoing[source]
    ensures Tabulated(arcs + {(source, target)}, ids, outgoing[source := outgoing[source] + {target}],
                      indegree[target := indegree[target] + 1])
  {
    var a := (source, target);
    assert a !in arcs;
    forall v {
      ArcAddedAt(arcs, a, v);
    }
    forall n | n != source
      ensures Successors(arcs + {a}, n) == Successors(arcs, n)
    {
    }
    assert Successors(arcs + {a}, source) == Successors(arcs, source) + {target};
  }

  lemma KnownArc(arcs: Arcs, source: string, target: string)
    requires target in Successors(arcs, source)
    ensures arcs + {(source, target)} == arcs
  {
    var a :| a in arcs && a.0 == source && a.1 == target;
    assert a == (source, target);
  }

  lemma ArcsSnoc(edges: seq<Edge>, k: nat)
    requires k < |edges|
    ensures ArcsOf(edges[..k + 1]) == ArcsOf(edges[..k]) + {(edges[k].fromId, edges[k].toId)}
  {
    assert edges[..k + 1] == edges[..k] + [edges[k]];
  }

  /** The two dictionaries the validator fills from the edges: successor sets and in-degrees. */
  method CountDegrees(ids: set<string>, edges: seq<Edge>)
    returns (outgoing: map<string, set<string>>, indegree: map<string, nat>)
    requires forall e :: e in edges ==> e.fromId in ids && e.toId in ids
    ensures Tabulated(ArcsOf(edges), ids, outgoing, indegree)
  {
    outgoing := map n | n in ids :: {};
    indegree := map n | n in ids :: 0;
    NothingTabulated(ids, outgoing, indegree);
    for k := 0 to |edges|
      invariant Tabulated(ArcsOf(edges[..k]), ids, outgoing, indegree)
    {
      var e := edges[k];
      ArcsSnoc(edges, k);
      if e.toId !in outgoing[e.fromId] {
        NewArcTabulated(ArcsOf(edges[..k]), ids, outgoing, indegree, e.fromId, e.toId);
        outgoing := outgoing[e.fromId := outgoing[e.fromId] + {e.toId}];
        indegree := indegree[e.toId := indegree[e.toId] + 1];
      } else {
        KnownArc(ArcsOf(edges[..k]), e.fromId, e.toId);
      }
    }
    assert edges[..|edges|] == edges;
  }

  lemma NothingTabulated(ids: set<string>, outgoing: map<string, set<string>>, indegree: map<string, nat>)
    requires outgoing == (map n | n in ids :: {}) && indegree == (map n | n in ids :: 0)
    ensures Tabulated(ArcsOf([]), ids, outgoing, indegree)
  {
    assert ArcsOf([]) == {};
    forall n
      ensures Pending({}, {}, n) == {} && Successors({}, n) == {}
    {
    }
  }

  /** The inner loop on its own: every target loses one, and those that reach zero are enqueued. */
  method Decrement(targets: set<string>, degrees: map<string, nat>, pending: seq<string>, ghost seen: set<string>)
    returns (indegree: map<string, nat>, queue: seq<string>)
    requires forall v :: v in targets ==> v in degrees && degrees[v] > 0
    requires Frontier(degrees, pending, seen)
    ensures indegree.Keys == degrees.Keys
    ensures forall v :: v in degrees ==> indegree[v] == if v in targets then degrees[v] - 1 else degrees[v]
    ensures Frontier(indegree, queue, seen)
  {
    indegree, queue := degrees, pending;
    var sorted := SortedStrings(targets);
    ghost var left := targets;
    assert Elements(sorted[0..]) == targets;
    for k := 0 to |sorted|
      invariant left <= targets && left == Elements(sorted[k..])
      invariant indegree.Keys == degrees.Keys
      invariant forall v :: v in degrees ==>
        indegree[v] == if v in targets && v !in left then degrees[v] - 1 else degrees[v]
      invariant Frontier(indegree, queue, seen)
    {
      var target := sorted[k];
      assert sorted[k..] == [target] + sorted[k + 1..];
      assert target !in sorted[k + 1..] && target in left;
      assert Elements(sorted[k + 1..]) == left - {target};
      left := left - {target};
      indegree := indegree[target := indegree[target] - 1];
      if indegree[target] == 0 {
        queue := queue + [target];
      }
    }
  }

  /** Where Kahn's loop stands: the visiting order so far, the in-degrees left, and the frontier. */
  ghost predicate Visiting(arcs: Arcs, ids: set<string>, order: seq<string>, indegree: map<string, nat>) {
    && Distinct(order) && Elements(order) <= ids
    && indegree.Keys == ids
    && (forall v :: v in ids ==> indegree[v] == |Pending(arcs, Elements(order), v)|)
    && Topological(arcs, order)
  }

  /** The queue holds exactly the nodes of in-degree zero not yet visited. */
  ghost predicate Frontier(indegree: map<string, nat>, queue: seq<string>, seen: set<string>) {
    && Distinct(queue)
    && (forall v :: v in indegree ==> (v in queue || v in seen <==> indegree[v] == 0))
    && (forall v :: v in queue ==> v in indegree && v !in seen)
  }

  ghost predicate Listed(arcs: Arcs, ids: set<string>, outgoing: map<string, set<string>>) {
    forall n :: n in ids ==> n in outgoing && outgoing[n] == Successors(arcs, n)
  }

  /** One turn of Kahn's loop: the head of the queue is visited. */
  method VisitNext(ghost arcs: Arcs, ghost ids: set<string>, outgoing: map<string, set<string>>,
                   ghost order: seq<string>, degrees: map<string, nat>, waiting: seq<string>)
    returns (indegree: map<string, nat>, queue: seq<string>)
    requires Visiting(arcs, ids, order, degrees) && waiting != [] && Frontier(degrees, waiting, Elements(order))
    requires Listed(arcs, ids, outgoing) && forall a :: a in arcs ==> a.0 in ids && a.1 in ids
    ensures |order| < |ids|
    ensures Visiting(arcs, ids, order + [waiting[0]], indegree)
    ensures Frontier(indegree, queue, Elements(order + [waiting[0]]))
  {
    var n := waiting[0];
    VisitStep(arcs, ids, order, degrees, waiting);
    indegree, queue := Decrement(outgoing[n], degrees, waiting[1..], Elements(order + [n]));
    Visited(arcs, ids, order, n, degrees, indegree);
  }

  /** Kahn's loop: it visits every node exactly when the graph has no cycle. */
  method VisitAll(ids: set<string>, edges: seq<Edge>) returns (visited: nat)
    requires forall e :: e in edges ==> e.fromId in ids && e.toId in ids
    ensures visited <= |ids|
    ensures visited == |ids| <==> Acyclic(ArcsOf(edges))
  {
    ghost var arcs := ArcsOf(edges);
    var outgoing, indegree := CountDegrees(ids, edges);
    var queue := SortedStrings(set v | v in ids && indegree[v] == 0);
    visited := 0;
    ghost var order: seq<string> := [];
    FrontierStart(arcs, ids, indegree, queue);
    while queue != []
      invariant visited == |order|
      invariant Visiting(arcs, ids, order, indegree)
      invariant Frontier(indegree, queue, Elements(order))
      decreases |ids| - visited
    {
      ghost var n := queue[0];
      indegree, queue := VisitNext(arcs, ids, outgoing, order, indegree, queue);
      visited := visited + 1;
      order := order + [n];
    }
    VisitOutcome(arcs, ids, order, indegree);
  }

  lemma FrontierStart(arcs: Arcs, ids: set<string>, indegree: map<string, nat>, queue: seq<string>)
    requires indegree.Keys == ids && forall v :: v in ids ==> indegree[v] == |Pending(arcs, {}, v)|
    requires Distinct(queue) && Elements(queue) == set v | v in ids && indegree[v] == 0
    ensures Visiting(arcs, ids, [], indegree) && Frontier(indegree, queue, Elements([]))
  {
    assert Elements<string>([]) == {};
    assert forall v :: v in queue <==> v in Elements(queue);
  }

  /** The node at the head of the queue has no unvisited predecessor, and its successors are neither
      visited nor enqueued. */
  lemma VisitStep(arcs: Arcs, ids: set<string>, order: seq<string>, indegree: map<string, nat>, queue: seq<string>)
    requires Visiting(arcs, ids, order, indegree) && queue != [] && Frontier(indegree, queue, Elements(order))
    requires forall a :: a in arcs ==> a.0 in ids && a.1 in ids
    ensures queue[0] in ids && queue[0] !in order && |order| < |ids|
    ensures forall u :: (u, queue[0]) in arcs ==> u in order
    ensures forall v :: v in Successors(arcs, queue[0]) ==> v in ids && indegree[v] > 0
    ensures Frontier(indegree, queue[1..], Elements(order + [queue[0]]))
  {
    var n, done := queue[0], Elements(order);
    FrontierStep(indegree, queue, order);
    assert Pending(arcs, done, n) == {};
    forall u | (u, n) in arcs
      ensures u in order
    {
      assert u !in done ==> (u, n) in Pending(arcs, done, n);
    }
    forall v | v in Successors(arcs, n)
      ensures v in ids && indegree[v] > 0
    {
      assert (n, v) in Pending(arcs, done, v);
    }
    ElementsOf(n, order);
    DistinctWithin(order + [n], ids);
  }

  lemma FrontierStep(indegree: map<string, nat>, queue: seq<string>, order: seq<string>)
    requires queue != [] && Frontier(indegree, queue, Elements(order))
    ensures queue[0] in indegree && indegree[queue[0]] == 0 && queue[0] !in order
    ensures Frontier(indegree, queue[1..], Elements(order + [queue[0]]))
  {
    var n := queue[0];
    assert n in queue;
    ElementsOf(n, order);
    assert queue == [n] + queue[1..];
  }

  /** Appending that node keeps the order topological and the in-degrees exact. */
  lemma Visited(arcs: Arcs, ids: set<string>, order: seq<string>, n: string,
                before: map<string, nat>, after: map<string, nat>)
    requires Visiting(arcs, ids, order, before) && n in ids && n !in order
    requires forall u :: (u, n) in arcs ==> u in order
    requires after.Keys == ids
    requires forall v :: v in ids ==> before[v] == after[v] + if v in Successors(arcs, n) then 1 else 0
    ensures Visiting(arcs, ids, order + [n], after)
  {
    var done := Elements(order);
    ElementsOf(n, order);
    forall v | v in ids
      ensures after[v] == |Pending(arcs, done + {n}, v)|
    {
      PendingVisit(arcs, done, n, v);
      assert v in Successors(arcs, n) <==> (n, v) in arcs;
    }
    forall i, u | 0 <= i < |order + [n]| && (u, (order + [n])[i]) in arcs
      ensures u in (order + [n])[..i]
    {
      assert (order + [n])[..i] == order[..i];
    }
  }

  lemma LeftOverCycle(arcs: Arcs, ids: set<string>, order: seq<string>, indegree: map<string, nat>)
    requires Visiting(arcs, ids, order, indegree) && Frontier(indegree, [], Elements(order))
    requires forall a :: a in arcs ==> a.0 in ids && a.1 in ids
    requires ids - Elements(order) != {}
    ensures !Acyclic(arcs)
  {
    var start :| start in ids - Elements(order);
    ElementsOf(start, []);
    BackwardWalk(arcs, ids, Elements(order), [start]);
  }

  /** When no node of in-degree zero is left, all nodes were visited exactly when there is no cycle. */
  lemma VisitOutcome(arcs: Arcs, ids: set<string>, order: seq<string>, indegree: map<string, nat>)
    requires Visiting(arcs, ids, order, indegree) && Frontier(indegree, [], Elements(order))
    requires forall a :: a in arcs ==> a.0 in ids && a.1 in ids
    ensures |order| <= |ids|
    ensures |order| == |ids| <==> Acyclic(arcs)
  {
    DistinctSize(order);
    SubsetSize(Elements(order), ids);
    if |order| == |ids| {
      forall a | a in arcs
        ensures a.1 in order
      {
        assert a.1 in Elements(order);
      }
      TopologicalAcyclic(arcs, order);
    } else {
      assert ids == Elements(order) + (ids - Elements(order));
      LeftOverCycle(arcs, ids, order, indegree);
    }
  }

  predicate NodeBefore(a: Node, b: Node) {
    TextLess(a.nodeId, b.nodeId)
  }

  predicate EdgeBefore(a: Edge, b: Edge) {
    TextLess(a.edgeId, b.edgeId)
  }

  function SortedNodes(nodes: seq<Node>): (r: seq<Node>)
    ensures multiset(r) == multiset(nodes) && Sorted(NodeBefore, r)
  {
    TextOrder();
    Sort(NodeBefore, nodes)
  }

  function SortedEdges(edges: seq<Edge>): (r: seq<Edge>)
    ensures multiset(r) == multiset(edges) && Sorted(EdgeBefore, r)
  {
    TextOrder();
    Sort(EdgeBefore, edges)
  }

  /** The checks of the graph validator, in its order. */
  method Check(g: Graph) returns (failure: Result<()>)
    ensures failure.Ok? <==> WellFormed(g)
    ensures failure == Err(Cyclic) <==>
            g.nodes != [] && DistinctNodeIds(g.nodes) && DistinctEdgeIds(g.edges)
            && Closed(g.nodes, g.edges) && !Acyclic(ArcsOf(g.edges))
  {
    if g.nodes == [] {
      return Err(NoNodes);
    }
    var ids := IdsOf(g.nodes);
    IdCount(g.nodes);
    if |ids| != |g.nodes| {
      return Err(DuplicateNode);
    }
    EdgeIdCount(g.edges);
    if |EdgeIdsOf(g.edges)| != |g.edges| {
      return Err(DuplicateEdge);
    }
    if exists e :: e in g.edges && (e.fromId !in ids || e.toId !in ids) {
      return Err(DanglingEdge);
    }
    var visited := VisitAll(ids, g.edges);
    if visited != |ids| {
      return Err(Cyclic);
    }
    return Ok(());
  }

  /** Nodes and edges whose ids ascend as texts. */
  ghost predicate IdsAscend(g: Graph) {
    && (forall i, j :: 0 <= i < j < |g.nodes| ==> TextLess(g.nodes[i].nodeId, g.nodes[j].nodeId))
    && (forall i, j :: 0 <= i < j < |g.edges| ==> TextLess(g.edges[i].edgeId, g.edges[j].edgeId))
  }

  lemma SortedIdsAscend(g: Graph)
    requires WellFormed(g) && Sorted(NodeBefore, g.nodes) && Sorted(EdgeBefore, g.edges)
    ensures IdsAscend(g)
  {
    TextOrder();
  }

  /** The validator of the graph: it accepts exactly the well-formed graphs, stored in the order of their ids. */
  method ValidateClosedGraph(given: Graph) returns (r: Result<Graph>)
    ensures r.Ok? <==> WellFormed(given)
    ensures r.Ok? ==>
      && WellFormed(r.value)
      && multiset(r.value.nodes) == multiset(given.nodes) && multiset(r.value.edges) == multiset(given.edges)
      && IdsAscend(r.value)
  {
    var sorted := Graph(SortedNodes(given.nodes), SortedEdges(given.edges));
    SameUpToOrder(given, sorted);
    var checked := Check(sorted);
    if checked.Ok? {
      SortedIdsAscend(sorted);
    }
    return match checked
      case Ok(_) => Ok(sorted)
      case Err(e) => Err(e);
  }

  lemma IdCount(nodes: seq<Node>)
    ensures |IdsOf(nodes)| == |nodes| <==> DistinctNodeIds(nodes)
  {
    var ids := seq(|nodes|, i requires 0 <= i < |nodes| => nodes[i].nodeId);
    assert forall i :: 0 <= i < |nodes| ==> nodes[i].nodeId == ids[i];
    assert DistinctNodeIds(nodes) <==> Distinct(ids);
    forall x
      ensures x in IdsOf(nodes) <==> x in Elements(ids)
    {
      forall i | 0 <= i < |nodes| && ids[i] == x
        ensures x in IdsOf(nodes)
      {
        assert nodes[i] in nodes;
      }
      forall v | v in nodes && v.nodeId == x
        ensures x in ids
      {
        var i :| 0 <= i < |nodes| && nodes[i] == v;
        assert ids[i] == x;
      }
    }
    assert IdsOf(nodes) == Elements(ids);
    SizeTellsDistinct(ids);
  }

  function EdgeIdsOf(edges: seq<Edge>): set<string> {
    set e | e in edges :: e.edgeId
  }

  lemma EdgeIdCount(edges: seq<Edge>)
    ensures |EdgeIdsOf(edges)| == |edges| <==> DistinctEdgeIds(edges)
  {
    var ids := seq(|edges|, i requires 0 <= i < |edges| => edges[i].edgeId);
    assert forall i :: 0 <= i < |edges| ==> edges[i].edgeId == ids[i];
    assert DistinctEdgeIds(edges) <==> Distinct(ids);
    forall x
      ensures x in EdgeIdsOf(edges) <==> x in Elements(ids)
    {
      forall i | 0 <= i < |edges| && ids[i] == x
        ensures x in EdgeIdsOf(edges)
      {
        assert edges[i] in edges;
      }
      forall v | v in edges && v.edgeId == x
        ensures x in ids
      {
        var i :| 0 <= i < |edges| && edges[i] == v;
        assert ids[i] == x;
      }
    }
    assert EdgeIdsOf(edges) == Elements(ids);
    SizeTellsDistinct(ids);
  }

  /** Nothing that acceptance looks at depends on the order of the tuples. */
  lemma SameUpToOrder(a: Graph, b: Graph)
    requires multiset(a.nodes) == multiset(b.nodes) && multiset(a.edges) == multiset(b.edges)
    ensures IdsOf(a.nodes) == IdsOf(b.nodes) && ArcsOf(a.edges) == ArcsOf(b.edges)
    ensures DistinctNodeIds(a.nodes) == DistinctNodeIds(b.nodes)
    ensures DistinctEdgeIds(a.edges) == DistinctEdgeIds(b.edges)
    ensures WellFormed(a) == WellFormed(b)
  {
    MultisetMembers(a.nodes, b.nodes);
    MultisetMembers(a.edges, b.edges);
    IdCount(a.nodes);
    IdCount(b.nodes);
    EdgeIdCount(a.edges);
    EdgeIdCount(b.edges);
    assert EdgeIdsOf(a.edges) == EdgeIdsOf(b.edges);
  }

  // ---------------------------------------------------------------- traces

  function Direction(g: Graph, backwards: bool): Arcs {
    if backwards then Flip(ArcsOf(g.edges)) else ArcsOf(g.edges)
  }

  /** The adjacency dictionary a trace fills; an absent key stands for the empty set. */
  method Adjacency(g: Graph, backwards: bool) returns (adjacency: map<string, set<string>>)
    ensures forall n ::
      (if n in adjacency then adjacency[n] else {}) == Successors(Direction(g, backwards), n)
  {
    adjacency := map[];
    ghost var prefix: Graph := Graph(g.nodes, []);
    for k := 0 to |g.edges|
      invariant prefix == Graph(g.nodes, g.edges[..k])
      invariant forall n ::
        (if n in adjacency then adjacency[n] else {}) == Successors(Direction(prefix, backwards), n)
    {
      var e := g.edges[k];
      var (source, target) := if backwards then (e.toId, e.fromId) else (e.fromId, e.toId);
      ghost var before := Direction(prefix, backwards);
      prefix := Graph(g.nodes, g.edges[..k + 1]);
      assert Direction(prefix, backwards) == before + {(source, target)} by {
        assert g.edges[..k + 1] == g.edges[..k] + [e];
        FlipAdd(ArcsOf(g.edges[..k]), (e.fromId, e.toId));
        assert ArcsOf(g.edges[..k + 1]) == ArcsOf(g.edges[..k]) + {(e.fromId, e.toId)};
      }
      var known := if source in adjacency then adjacency[source] else {};
      adjacency := adjacency[source := known + {target}];
    }
    assert g.edges[..|g.edges|] == g.edges;
  }

  lemma FlipAdd(arcs: Arcs, a: (string, string))
    ensures Flip(arcs + {a}) == Flip(arcs) + {(a.1, a.0)}
  {
  }

  /** What an expansion has done after the targets `seen`. */
  ghost predicate Expanded(seen: set<string>, marked: set<string>, waiting: seq<string>,
                           reached: set<string>, queue: seq<string>) {
    && reached == marked + seen
    && waiting <= queue && Elements(queue) == Elements(waiting) + (seen - marked)
    && (reached == marked ==> queue == waiting)
  }

  lemma ExpandOne(seen: set<string>, marked: set<string>, waiting: seq<string>, reached: set<string>,
                  queue: seq<string>, target: string)
    requires Expanded(seen, marked, waiting, reached, queue)
    ensures if target in reached then Expanded(seen + {target}, marked, waiting, reached, queue)
            else Expanded(seen + {target}, marked, waiting, reached + {target}, queue + [target])
  {
    ElementsOf(target, queue);
  }

  /** One expansion: the targets not yet reached are marked and enqueued. */
  method Expand(targets: set<string>, marked: set<string>, waiting: seq<string>)
    returns (reached: set<string>, queue: seq<string>)
    ensures reached == marked + targets
    ensures waiting <= queue && Elements(queue) == Elements(waiting) + (targets - marked)
    ensures reached == marked ==> queue == waiting
  {
    reached, queue := marked, waiting;
    var sorted := SortedStrings(targets);
    for k := 0 to |sorted|
      invariant Expanded(Elements(sorted[..k]), marked, waiting, reached, queue)
    {
      var target := sorted[k];
      ExpandOne(Elements(sorted[..k]), marked, waiting, reached, queue, target);
      ElementsOf(target, sorted[..k]);
      assert sorted[..k + 1] == sorted[..k] + [target];
      if target !in reached {
        reached := reached + {target};
        queue := queue + [target];
      }
    }
    assert sorted[..|sorted|] == sorted;
  }

  /** Where the search stands: what was reached is reachable, and only queued nodes still owe their
      successors. */
  ghost predicate Searching(arcs: Arcs, start: string, reached: set<string>, waiting: set<string>,
                            expanded: set<string>) {
    && (forall n :: n in reached ==> Reaches(arcs, start, n))
    && waiting <= {start} + reached <= waiting + expanded
    && (forall n :: n in expanded ==> Successors(arcs, n) <= reached)
  }

  lemma SearchStep(arcs: Arcs, start: string, reached: set<string>, current: string, waiting: set<string>,
                   expanded: set<string>)
    requires Searching(arcs, start, reached, {current} + waiting, expanded)
    ensures var next := Successors(arcs, current);
            Searching(arcs, start, reached + next, waiting + (next - reached), expanded + {current})
  {
    forall n | n in Successors(arcs, current)
      ensures Reaches(arcs, start, n)
    {
      assert (current, n) in arcs;
      assert current in {start} + reached;
      ReachesStep(arcs, start, n);
    }
  }

  /** When nothing waits, the search has reached every reachable node. */
  lemma SearchDone(arcs: Arcs, start: string, reached: set<string>, expanded: set<string>, n: string)
    requires Searching(arcs, start, reached, {}, expanded)
    ensures n in reached <==> Reaches(arcs, start, n)
  {
    if Reaches(arcs, start, n) {
      ClosedUnderArcs(arcs, start, reached, n);
    }
  }

  ghost function Targets(arcs: Arcs): set<string> {
    set a | a in arcs :: a.1
  }

  lemma SuccessorsWithin(arcs: Arcs, n: string)
    ensures Successors(arcs, n) <= Targets(arcs)
  {
  }

  /** The breadth-first loop of a trace. */
  method Search(ghost arcs: Arcs, adjacency: map<string, set<string>>, start: string)
    returns (reached: set<string>)
    requires forall n :: (if n in adjacency then adjacency[n] else {}) == Successors(arcs, n)
    ensures forall n :: n in reached <==> Reaches(arcs, start, n)
  {
    ghost var expanded := {};
    var queue: seq<string>;
    reached, queue := {}, [start];
    SearchStart(arcs, start);
    while queue != []
      invariant reached <= Targets(arcs)
      invariant Searching(arcs, start, reached, Elements(queue), expanded)
      decreases |Targets(arcs) - reached|, |queue|
    {
      var current, marked := queue[0], reached;
      var next := if current in adjacency then adjacency[current] else {};
      SearchHead(arcs, start, reached, queue, expanded, next);
      reached, queue := Expand(next, marked, queue[1..]);
      expanded := expanded + {current};
      Shrinks(Targets(arcs), marked, reached);
    }
    assert Elements(queue) == {};
    forall n
      ensures n in reached <==> Reaches(arcs, start, n)
    {
      SearchDone(arcs, start, reached, expanded, n);
    }
  }

  lemma SearchStart(arcs: Arcs, start: string)
    ensures Searching(arcs, start, {}, Elements([start]), {})
  {
    ElementsOf(start, []);
  }

  lemma SearchHead(arcs: Arcs, start: string, reached: set<string>, queue: seq<string>, expanded: set<string>,
                   next: set<string>)
    requires queue != [] && reached <= Targets(arcs) && next == Successors(arcs, queue[0])
    requires Searching(arcs, start, reached, Elements(queue), expanded)
    ensures Searching(arcs, start, reached + next, Elements(queue[1..]) + (next - reached), expanded + {queue[0]})
    ensures reached + next <= Targets(arcs)
  {
    assert queue == [queue[0]] + queue[1..];
    ElementsOf(queue[0], queue[1..]);
    SearchStep(arcs, start, reached, queue[0], Elements(queue[1..]), expanded);
    SuccessorsWithin(arcs, queue[0]);
  }

  /** A trace: the nodes reachable by a non-empty path, sorted and without duplicates. */
  method Reachable(g: Graph, start: string, backwards: bool) returns (r: Result<seq<string>>)
    ensures r == Err(MissingStartNode) <==> start !in IdsOf(g.nodes)
    ensures r.Err? ==> r == Err(MissingStartNode)
    ensures r.Ok? ==> Ascending(TextLess, r.value)
    ensures r.Ok? ==> forall n :: n in r.value <==> Reaches(Direction(g, backwards), start, n)
  {
    if start !in IdsOf(g.nodes) {
      return Err(MissingStartNode);
    }
    var adjacency := Adjacency(g, backwards);
    ghost var arcs := Direction(g, backwards);
    var reached := Search(arcs, adjacency, start);
    var listed := SortedStrings(reached);
    forall n
      ensures n in listed <==> Reaches(arcs, start, n)
    {
      assert n in listed <==> n in Elements(listed);
    }
    return Ok(listed);
  }

  lemma Shrinks(bound: set<string>, before: set<string>, after: set<string>)
    requires before <= after <= bound
    ensures after == before || |bound - after| < |bound - before|
  {
    SubsetSize(bound - after, bound - before);
    assert bound - after == bound - before ==> after == before by {
      assert after == bound - (bound - after);
      assert before == bound - (bound - before);
    }
  }

  lemma ClosedUnderArcs(arcs: Arcs, start: string, reached: set<string>, n: string)
    requires forall n :: n in {start} + reached ==> Successors(arcs, n) <= reached
    requires Reaches(arcs, start, n)
    ensures n in reached
  {
    var p :| Path(arcs, p) && p[0] == start && p[|p| - 1] == n;
    assert (p[0], p[1]) in arcs;
    assert p[1] in Successors(arcs, start);
    for k := 1 to |p|
      invariant forall i :: 1 <= i <= k && i < |p| ==> p[i] in reached
    {
      if k + 1 < |p| {
        assert (p[k], p[k + 1]) in arcs;
        assert p[k + 1] in Successors(arcs, p[k]);
      }
    }
  }

  /** Forward and reverse traces answer the same question from the two ends. */
  lemma ForwardIffReverse(g: Graph, a: string, b: string)
    ensures Reaches(Direction(g, false), a, b) <==> Reaches(Direction(g, true), b, a)
  {
    var arcs := ArcsOf(g.edges);
    if Reaches(arcs, a, b) {
      FlipPath(arcs, a, b);
    }
    if Reaches(Flip(arcs), b, a) {
      FlipPath(Flip(arcs), b, a);
      FlipFlip(arcs);
    }
  }

  /** In an accepted graph no trace, in either direction, contains its own start, and no two
      nodes trace to each other. */
  lemma TracesAreAntisymmetric(g: Graph, a: string, b: string, backwards: bool)
    requires WellFormed(g)
    ensures !Reaches(Direction(g, backwards), a, a)
    ensures !(Reaches(Direction(g, backwards), a, b) && Reaches(Direction(g, backwards), b, a))
  {
    ForwardIffReverse(g, a, a);
    if Reaches(Direction(g, backwards), a, b) && Reaches(Direction(g, backwards), b, a) {
      ReachesTransitive(Direction(g, backwards), a, b, a);
    }
  }
}
