/**
 Topology metrics of an undirected graph: degrees and the size of the largest
 connected component, found by breadth-first search.
 */
module GraphHealth {

  type Node = string
  type Edge = (Node, Node)
  type Adjacency = map<Node, set<Node>>

  // ----- the graph -----

  /** The nodes joined to `n` by some edge, in either direction. */
  function Neighbors(edges: seq<Edge>, n: Node): set<Node> {
    (set e | e in edges && e.0 == n :: e.1) + (set e | e in edges && e.1 == n :: e.0)
  }

  function Nodes(nodes: seq<Node>, edges: seq<Edge>): set<Node> {
    (set n | n in nodes) + (set e | e in edges :: e.0) + (set e | e in edges :: e.1)
  }

  function Adjacent(adjacency: Adjacency, n: Node): set<Node> {
    if n in adjacency then adjacency[n] else {}
  }

  /** An undirected adjacency within a node set. */
  ghost predicate Undirected(nodes: set<Node>, adjacency: Adjacency) {
    && (forall a :: Adjacent(adjacency, a) <= nodes)
    && (forall a, b :: b in Adjacent(adjacency, a) <==> a in Adjacent(adjacency, b))
  }

  ghost predicate IsPath(adjacency: Adjacency, p: seq<Node>) {
    p != [] && forall i | 0 < i < |p| :: p[i] in Adjacent(adjacency, p[i - 1])
  }

  ghost predicate Connected(adjacency: Adjacency, a: Node, b: Node) {
    exists p :: IsPath(adjacency, p) && p[0] == a && p[|p| - 1] == b
  }

  /** The connected class of a node. */
  ghost function Component(nodes: set<Node>, adjacency: Adjacency, a: Node): set<Node> {
    set b | b in nodes && Connected(adjacency, a, b)
  }

  /** No edge leaves the set. */
  ghost predicate Closed(adjacency: Adjacency, s: set<Node>) {
    forall a | a in s :: Adjacent(adjacency, a) <= s
  }

  lemma {:induction false} PathStays(adjacency: Adjacency, s: set<Node>, p: seq<Node>, i: nat)
    requires Closed(adjacency, s) && IsPath(adjacency, p) && p[0] in s && i < |p|
    ensures p[i] in s
  {
    if i > 0 { PathStays(adjacency, s, p, i - 1); }
  }

  lemma ConnectedSelf(adjacency: Adjacency, a: Node)
    ensures Connected(adjacency, a, a)
  {
    assert IsPath(adjacency, [a]);
  }

  lemma ConnectedStep(adjacency: Adjacency, a: Node, b: Node, c: Node)
    requires Connected(adjacency, a, b) && c in Adjacent(adjacency, b)
    ensures Connected(adjacency, a, c)
  {
    var p :| IsPath(adjacency, p) && p[0] == a && p[|p| - 1] == b;
    assert IsPath(adjacency, p + [c]);
  }

  /** A closed set of nodes connected to `a` that holds `a` is the component of `a`. */
  lemma ClosedIsComponent(nodes: set<Node>, adjacency: Adjacency, a: Node, s: set<Node>)
    requires a in s && s <= nodes && Closed(adjacency, s) && forall b | b in s :: Connected(adjacency, a, b)
    ensures s == Component(nodes, adjacency, a)
  {
    forall b | b in Component(nodes, adjacency, a) ensures b in s {
      var p :| IsPath(adjacency, p) && p[0] == a && p[|p| - 1] == b;
      PathStays(adjacency, s, p, |p| - 1);
    }
  }

  /** All members of a component have the same component. */
  lemma SameComponent(nodes: set<Node>, adjacency: Adjacency, a: Node, b: Node)
    requires Undirected(nodes, adjacency) && a in nodes && b in Component(nodes, adjacency, a)
    ensures Component(nodes, adjacency, b) == Component(nodes, adjacency, a)
  {
    var p :| IsPath(adjacency, p) && p[0] == a && p[|p| - 1] == b;
    ComponentsAlong(nodes, adjacency, p, |p| - 1);
  }

  lemma {:induction false} ComponentsAlong(nodes: set<Node>, adjacency: Adjacency, p: seq<Node>, i: nat)
    requires Undirected(nodes, adjacency) && IsPath(adjacency, p) && i < |p|
    ensures Component(nodes, adjacency, p[i]) == Component(nodes, adjacency, p[0])
  {
    if i > 0 {
      ComponentsAlong(nodes, adjacency, p, i - 1);
      AdjacentComponents(nodes, adjacency, p[i - 1], p[i]);
      AdjacentComponents(nodes, adjacency, p[i], p[i - 1]);
    }
  }

  lemma AdjacentComponents(nodes: set<Node>, adjacency: Adjacency, a: Node, b: Node)
    requires Undirected(nodes, adjacency) && b in Adjacent(adjacency, a)
    ensures Component(nodes, adjacency, b) <= Component(nodes, adjacency, a)
  {
    forall c | c in Component(nodes, adjacency, b) ensures Connected(adjacency, a, c) {
      var p :| IsPath(adjacency, p) && p[0] == b && p[|p| - 1] == c;
      var q := [a] + p;
      forall i | 0 < i < |q| ensures q[i] in Adjacent(adjacency, q[i - 1]) {
        if i > 1 { assert q[i] == p[i - 1] && q[i - 1] == p[i - 2]; }
      }
      assert IsPath(adjacency, q) && q[|q| - 1] == c;
    }
  }

  // ----- breadth-first search -----

  function Elements(s: seq<Node>): set<Node> {
    set n | n in s
  }

  lemma ElementsSnoc(q: seq<Node>, n: Node)
    ensures Elements(q + [n]) == Elements(q) + {n}
  {
  }

  /** Append the unseen neighbours to the queue, in some order, and mark them seen. */
  method Enqueue(neighbors: set<Node>, seen0: set<Node>, q0: seq<Node>) returns (seen: set<Node>, q: seq<Node>)
    ensures seen == seen0 + neighbors
    ensures Elements(q) == Elements(q0) + (neighbors - seen0)
    ensures |q| == |q0| + |neighbors - seen0|
  {
    seen, q := seen0, q0;
    var rest := neighbors;
    ghost var taken: set<Node> := {};
    while rest != {}
      invariant rest !! taken && neighbors == rest + taken
      invariant Enqueued(seen0, q0, taken, seen, q)
    {
      var n :| n in rest;
      EnqueueOne(seen0, q0, taken, seen, q, n);
      if n !in seen {
        q := q + [n];
        seen := seen + {n};
      }
      rest, taken := rest - {n}, taken + {n};
    }
    assert taken == neighbors;
  }

  ghost predicate Enqueued(seen0: set<Node>, q0: seq<Node>, taken: set<Node>, seen: set<Node>, q: seq<Node>) {
    seen == seen0 + taken && Elements(q) == Elements(q0) + (taken - seen0) && |q| == |q0| + |taken - seen0|
  }

  lemma EnqueueOne(seen0: set<Node>, q0: seq<Node>, taken: set<Node>, seen: set<Node>, q: seq<Node>, n: Node)
    requires n !in taken && Enqueued(seen0, q0, taken, seen, q)
    ensures if n in seen then Enqueued(seen0, q0, taken + {n}, seen, q)
            else Enqueued(seen0, q0, taken + {n}, seen + {n}, q + [n])
  {
    ElementsSnoc(q, n);
    if n in seen {
      assert (taken + {n}) - seen0 == taken - seen0 && seen0 + (taken + {n}) == seen;
    } else {
      assert (taken + {n}) - seen0 == (taken - seen0) + {n};
      assert seen0 + (taken + {n}) == seen + {n};
      assert Elements(q0) + ((taken - seen0) + {n}) == (Elements(q0) + (taken - seen0)) + {n};
    }
  }

  /** A search under way: `done` nodes are visited, `open` ones wait in the queue. */
  ghost predicate Frontier(nodes: set<Node>, adjacency: Adjacency, start: Node, seen0: set<Node>, done: set<Node>,
        open: set<Node>) {
    && done !! open && seen0 !! (done + open)
    && start in done + open && done + open <= nodes
    && (forall b | b in done + open :: Connected(adjacency, start, b))
    && (forall d | d in done :: Adjacent(adjacency, d) <= done + open)
  }

  lemma FreshNodes(nodes: set<Node>, adjacency: Adjacency, start: Node, seen0: set<Node>, done: set<Node>,
        open: set<Node>, node: Node)
    requires Undirected(nodes, adjacency) && Closed(adjacency, seen0) && node in open
    requires Frontier(nodes, adjacency, start, seen0, done, open)
    ensures Adjacent(adjacency, node) !! seen0 && Adjacent(adjacency, node) <= nodes
    ensures forall b | b in Adjacent(adjacency, node) :: Connected(adjacency, start, b)
  {
    forall b | b in Adjacent(adjacency, node) ensures b !in seen0 && Connected(adjacency, start, b) {
      ConnectedStep(adjacency, start, node, b);
      assert node in Adjacent(adjacency, b);
    }
  }

  lemma FrontierStep(nodes: set<Node>, adjacency: Adjacency, start: Node, seen0: set<Node>, done: set<Node>,
        open: set<Node>, node: Node, fresh': set<Node>)
    requires Frontier(nodes, adjacency, start, seen0, done, open) && node in open
    requires Adjacent(adjacency, node) !! seen0 && Adjacent(adjacency, node) <= nodes
    requires forall b | b in Adjacent(adjacency, node) :: Connected(adjacency, start, b)
    requires fresh' == Adjacent(adjacency, node) - (done + open)
    ensures Frontier(nodes, adjacency, start, seen0, done + {node}, (open - {node}) + fresh')
  {
    var done2, open2 := done + {node}, (open - {node}) + fresh';
    assert done2 + open2 == (done + open) + fresh';
    forall d | d in done2 ensures Adjacent(adjacency, d) <= done2 + open2 {
      if d != node { assert Adjacent(adjacency, d) <= done + open; }
    }
  }

  lemma FrontierCounts(done: set<Node>, open: set<Node>, seen0: set<Node>, neighbors: set<Node>, node: Node)
    requires node in open && done !! open && neighbors !! seen0
    ensures var fresh' := neighbors - (done + open); var open2 := (open - {node}) + fresh';
            && |open2| == |open| - 1 + |fresh'| && node !in done
            && seen0 + (done + open) + neighbors == seen0 + ((done + {node}) + open2)
            && neighbors - (seen0 + (done + open)) == fresh'
  {
    var fresh' := neighbors - (done + open);
    assert (open - {node}) !! fresh';
  }

  /** The state of one search: what it has marked is visited or waits in the queue. */
  ghost predicate Searching(nodes: set<Node>, adjacency: Adjacency, start: Node, seen0: set<Node>, seen: set<Node>,
        queue: seq<Node>, done: set<Node>, open: set<Node>)
  {
    && Frontier(nodes, adjacency, start, seen0, done, open)
    && open == Elements(queue) && |open| == |queue| && seen == seen0 + (done + open)
  }

  /** Visit the head of the queue and enqueue its unseen neighbours. */
  method Visit(nodes: set<Node>, adjacency: Adjacency, start: Node, seen0: set<Node>, seenBefore: set<Node>,
        queue: seq<Node>, ghost done: set<Node>, ghost open: set<Node>)
    returns (seen: set<Node>, q: seq<Node>, ghost open': set<Node>)
    requires Undirected(nodes, adjacency) && Closed(adjacency, seen0) && queue != []
    requires Searching(nodes, adjacency, start, seen0, seenBefore, queue, done, open)
    ensures queue[0] !in done && queue[0] in nodes
    ensures Searching(nodes, adjacency, start, seen0, seen, q, done + {queue[0]}, open')
  {
    var node := queue[0];
    ghost var fresh' := Adjacent(adjacency, node) - (done + open);
    FreshNodes(nodes, adjacency, start, seen0, done, open, node);
    FrontierStep(nodes, adjacency, start, seen0, done, open, node, fresh');
    FrontierCounts(done, open, seen0, Adjacent(adjacency, node), node);
    QueueHead(queue);
    seen, q := Enqueue(Adjacent(adjacency, node), seenBefore, queue[1..]);
    open' := (open - {node}) + fresh';
  }

  /** One search: marks exactly the component of its start and counts it. */
  method Search(nodes: set<Node>, adjacency: Adjacency, start: Node, seen0: set<Node>)
    returns (seen: set<Node>, size: nat)
    requires Undirected(nodes, adjacency) && seen0 <= nodes && Closed(adjacency, seen0) && start in nodes - seen0
    ensures seen == seen0 + Component(nodes, adjacency, start)
    ensures seen0 !! Component(nodes, adjacency, start)
    ensures size == |Component(nodes, adjacency, start)|
  {
    var q := [start];
    seen := seen0 + {start};
    size := 0;
    ghost var done: set<Node> := {};
    ghost var open := {start};
    SearchStarts(nodes, adjacency, start, seen0);
    while q != []
      invariant Searching(nodes, adjacency, start, seen0, seen, q, done, open) && size == |done|
      decreases nodes - done
    {
      ghost var node := q[0];
      seen, q, open := Visit(nodes, adjacency, start, seen0, seen, q, done, open);
      size := size + 1;
      done := done + {node};
    }
    SearchDone(nodes, adjacency, start, seen0, seen, done, open);
  }

  lemma SearchStarts(nodes: set<Node>, adjacency: Adjacency, start: Node, seen0: set<Node>)
    requires start in nodes - seen0
    ensures Searching(nodes, adjacency, start, seen0, seen0 + {start}, [start], {}, {start})
  {
    ConnectedSelf(adjacency, start);
    assert {} + {start} == {start} == Elements([start]);
  }

  lemma SearchDone(nodes: set<Node>, adjacency: Adjacency, start: Node, seen0: set<Node>, seen: set<Node>,
        done: set<Node>, open: set<Node>)
    requires Searching(nodes, adjacency, start, seen0, seen, [], done, open)
    ensures done == Component(nodes, adjacency, start) && seen0 !! done && seen == seen0 + done
  {
    assert done + open == done;
    ClosedIsComponent(nodes, adjacency, start, done);
  }

  lemma QueueHead(q: seq<Node>)
    requires q != [] && |Elements(q)| == |q|
    ensures Elements(q[1..]) == Elements(q) - {q[0]} && |Elements(q[1..])| == |q| - 1
  {
    assert q == [q[0]] + q[1..];
    ElementsBound(q[1..]);
    assert Elements(q) == Elements(q[1..]) + {q[0]};
  }

  lemma {:induction false} ElementsBound(q: seq<Node>)
    ensures |Elements(q)| <= |q|
  {
    if q != [] {
      ElementsBound(q[1..]);
      assert Elements(q) == Elements(q[1..]) + {q[0]};
    }
  }

  // ----- the partition into components -----

  ghost function Union(parts: seq<set<Node>>): set<Node> {
    if parts == [] then {} else Union(parts[..|parts| - 1]) + parts[|parts| - 1]
  }

  ghost function TotalSize(parts: seq<set<Node>>): nat {
    if parts == [] then 0 else TotalSize(parts[..|parts| - 1]) + |parts[|parts| - 1]|
  }

  ghost predicate IsComponent(nodes: set<Node>, adjacency: Adjacency, part: set<Node>) {
    exists a :: a in nodes && a in part && part == Component(nodes, adjacency, a)
  }

  /** Pairwise disjoint connected classes. */
  ghost predicate AreComponents(nodes: set<Node>, adjacency: Adjacency, parts: seq<set<Node>>) {
    && (forall i | 0 <= i < |parts| :: IsComponent(nodes, adjacency, parts[i]))
    && (forall i, j | 0 <= i < j < |parts| :: parts[i] !! parts[j])
  }

  /** The greatest size of a class, 0 without classes. */
  ghost predicate IsMaxSize(parts: seq<set<Node>>, size: nat) {
    && (forall i | 0 <= i < |parts| :: |parts[i]| <= size)
    && (if parts == [] then size == 0 else exists i :: 0 <= i < |parts| && |parts[i]| == size)
  }

  lemma {:induction false} InUnion(parts: seq<set<Node>>, a: Node)
    ensures a in Union(parts) <==> exists i :: 0 <= i < |parts| && a in parts[i]
  {
    if parts != [] {
      var n := |parts| - 1;
      InUnion(parts[..n], a);
      if a in Union(parts[..n]) {
        var i :| 0 <= i < n && a in parts[..n][i];
        assert a in parts[i];
      }
      if i :| 0 <= i < |parts| && a in parts[i] && i < n { assert a in parts[..n][i]; }
    }
  }

  lemma AddComponent(nodes: set<Node>, adjacency: Adjacency, parts: seq<set<Node>>, part: set<Node>)
    requires AreComponents(nodes, adjacency, parts)
    requires IsComponent(nodes, adjacency, part) && part !! Union(parts)
    ensures AreComponents(nodes, adjacency, parts + [part])
  {
    var after := parts + [part];
    forall i | 0 <= i < |parts| ensures parts[i] !! part {
      forall a | a in parts[i] ensures a !in part { InUnion(parts, a); }
    }
    forall i | 0 <= i < |after| ensures IsComponent(nodes, adjacency, after[i]) {
      assert after[i] == if i < |parts| then parts[i] else part;
    }
    forall i, j | 0 <= i < j < |after| ensures after[i] !! after[j] {
      assert after[i] == parts[i] && after[j] == if j < |parts| then parts[j] else part;
    }
  }

  lemma AddSize(parts: seq<set<Node>>, largest: nat, part: set<Node>)
    requires IsMaxSize(parts, largest)
    ensures IsMaxSize(parts + [part], if |part| > largest then |part| else largest)
  {
    var after := parts + [part];
    assert forall i | 0 <= i < |parts| :: after[i] == parts[i];
    assert after[|parts|] == part;
  }

  lemma AddToUnion(parts: seq<set<Node>>, part: set<Node>)
    requires TotalSize(parts) == |Union(parts)| && part !! Union(parts)
    ensures Union(parts + [part]) == Union(parts) + part && TotalSize(parts + [part]) == |Union(parts + [part])|
  {
    assert (parts + [part])[..|parts|] == parts;
  }

  /** The components found so far, covering exactly the seen nodes. */
  ghost predicate Cover(nodes: set<Node>, adjacency: Adjacency, parts: seq<set<Node>>, seen: set<Node>, largest: nat) {
    && seen <= nodes && Closed(adjacency, seen)
    && AreComponents(nodes, adjacency, parts) && IsMaxSize(parts, largest)
    && Union(parts) == seen && TotalSize(parts) == |seen|
  }

  lemma CoverStep(nodes: set<Node>, adjacency: Adjacency, parts: seq<set<Node>>, seen: set<Node>, largest: nat,
        start: Node)
    requires Undirected(nodes, adjacency) && Cover(nodes, adjacency, parts, seen, largest) && start in nodes
    requires seen !! Component(nodes, adjacency, start)
    ensures var part := Component(nodes, adjacency, start);
            var larger := if |part| > largest then |part| else largest;
            start in part && Cover(nodes, adjacency, parts + [part], seen + part, larger)
  {
    var part := Component(nodes, adjacency, start);
    ComponentClosed(nodes, adjacency, start);
    StartInComponent(nodes, adjacency, start);
    ClosedUnion(adjacency, seen, part);
    AddComponent(nodes, adjacency, parts, part);
    AddSize(parts, largest, part);
    AddToUnion(parts, part);
  }

  method LargestComponentSize(nodes: set<Node>, adjacency: Adjacency)
    returns (largest: nat, ghost parts: seq<set<Node>>)
    requires Undirected(nodes, adjacency)
    ensures AreComponents(nodes, adjacency, parts) && Union(parts) == nodes && TotalSize(parts) == |nodes|
    ensures IsMaxSize(parts, largest)
    ensures IsLargest(nodes, adjacency, largest)
  {
    var seen: set<Node> := {};
    largest, parts := 0, [];
    var rest := nodes;
    while rest != {}
      invariant rest <= nodes && nodes - rest <= seen
      invariant Cover(nodes, adjacency, parts, seen, largest)
    {
      var start :| start in rest;
      rest := rest - {start};
      if start !in seen {
        ghost var seen0 := seen;
        var size: nat;
        seen, size := Search(nodes, adjacency, start, seen);
        CoverStep(nodes, adjacency, parts, seen0, largest, start);
        largest := if size > largest then size else largest;
        parts := parts + [Component(nodes, adjacency, start)];
      }
    }
    assert seen == nodes;
    PartsGiveLargest(nodes, adjacency, parts, largest);
  }

  lemma StartInComponent(nodes: set<Node>, adjacency: Adjacency, a: Node)
    requires a in nodes
    ensures a in Component(nodes, adjacency, a) && IsComponent(nodes, adjacency, Component(nodes, adjacency, a))
  {
    ConnectedSelf(adjacency, a);
  }

  lemma ClosedUnion(adjacency: Adjacency, s: set<Node>, t: set<Node>)
    requires Closed(adjacency, s) && Closed(adjacency, t)
    ensures Closed(adjacency, s + t)
  {
  }

  lemma ComponentClosed(nodes: set<Node>, adjacency: Adjacency, a: Node)
    requires Undirected(nodes, adjacency)
    ensures Closed(adjacency, Component(nodes, adjacency, a))
  {
    forall b, c | b in Component(nodes, adjacency, a) && c in Adjacent(adjacency, b)
      ensures c in Component(nodes, adjacency, a)
    {
      ConnectedStep(adjacency, a, b, c);
    }
  }

  /** The greatest size of a connected class over all nodes. */
  ghost predicate IsLargest(nodes: set<Node>, adjacency: Adjacency, size: nat) {
    && (forall a | a in nodes :: |Component(nodes, adjacency, a)| <= size)
    && (if nodes == {} then size == 0 else exists a :: a in nodes && |Component(nodes, adjacency, a)| == size)
  }

  lemma PartsGiveLargest(nodes: set<Node>, adjacency: Adjacency, parts: seq<set<Node>>, largest: nat)
    requires Undirected(nodes, adjacency) && AreComponents(nodes, adjacency, parts) && Union(parts) == nodes
               && IsMaxSize(parts, largest)
    ensures IsLargest(nodes, adjacency, largest)
  {
    forall a | a in nodes ensures |Component(nodes, adjacency, a)| <= largest {
      InUnion(parts, a);
      var i :| 0 <= i < |parts| && a in parts[i];
      assert IsComponent(nodes, adjacency, parts[i]);
      var b :| b in nodes && parts[i] == Component(nodes, adjacency, b);
      SameComponent(nodes, adjacency, b, a);
    }
    if parts != [] {
      var i :| 0 <= i < |parts| && |parts[i]| == largest;
      assert IsComponent(nodes, adjacency, parts[i]);
    }
  }

  // ----- the metrics -----

  datatype Metrics = Metrics(nodeCount: nat, edgeCount: nat, isolated: nat, lowDegree: nat, largest: nat,
        coverage: real)

  /** The adjacency the edges give. */
  ghost predicate AdjacencyOf(edges: seq<Edge>, adjacency: Adjacency) {
    forall n :: Adjacent(adjacency, n) == Neighbors(edges, n)
  }

  function AddNeighbor(adjacency: Adjacency, a: Node, b: Node): Adjacency {
    adjacency[a := Adjacent(adjacency, a) + {b}]
  }

  lemma EdgesUndirected(nodes: seq<Node>, edges: seq<Edge>, adjacency: Adjacency)
    requires AdjacencyOf(edges, adjacency)
    ensures Undirected(Nodes(nodes, edges), adjacency)
  {
    forall a, b ensures b in Adjacent(adjacency, a) <==> a in Adjacent(adjacency, b) {
      NeighborsAre(edges, a, b);
      NeighborsAre(edges, b, a);
    }
    forall a ensures Adjacent(adjacency, a) <= Nodes(nodes, edges) {
      forall b | b in Adjacent(adjacency, a) ensures b in Nodes(nodes, edges) { NeighborsAre(edges, a, b); }
    }
  }

  lemma NeighborsAre(edges: seq<Edge>, a: Node, b: Node)
    ensures b in Neighbors(edges, a) <==> (a, b) in edges || (b, a) in edges
  {
    if (a, b) in edges { assert (a, b).0 == a && (a, b).1 == b; }
    if (b, a) in edges { assert (b, a).1 == a && (b, a).0 == b; }
    if b in Neighbors(edges, a) {
      if e :| e in edges && e.0 == a && e.1 == b { assert e == (a, b); }
      if e :| e in edges && e.1 == a && e.0 == b { assert e == (b, a); }
    }
  }

  lemma NeighborsSnoc(edges: seq<Edge>, e: Edge, n: Node)
    ensures Neighbors(edges + [e], n) == Neighbors(edges, n) + (if e.0 == n then {e.1} else {})
              + (if e.1 == n then {e.0} else {})
  {
    forall b
      ensures b in Neighbors(edges + [e], n) <==>
                b in Neighbors(edges, n) + (if e.0 == n then {e.1} else {}) + (if e.1 == n then {e.0} else {})
    {
      NeighborsAre(edges + [e], n, b);
      NeighborsAre(edges, n, b);
      assert e == (e.0, e.1);
    }
  }

  method BuildGraph(nodes: seq<Node>, edges: seq<Edge>) returns (nodeSet: set<Node>, adjacency: Adjacency)
    ensures nodeSet == Nodes(nodes, edges) && AdjacencyOf(edges, adjacency)
  {
    nodeSet := Elements(nodes);
    adjacency := map[];
    for i := 0 to |edges|
      invariant nodeSet == Nodes(nodes, edges[..i]) && AdjacencyOf(edges[..i], adjacency)
    {
      var (a, b) := edges[i];
      assert edges[..i + 1] == edges[..i] + [edges[i]];
      AdjacencySnoc(edges[..i], edges[i], adjacency);
      NodesSnoc(nodes, edges[..i], edges[i]);
      nodeSet := nodeSet + {a, b};
      adjacency := AddNeighbor(AddNeighbor(adjacency, a, b), b, a);
    }
    assert edges[..|edges|] == edges;
  }

  lemma AdjacencySnoc(edges: seq<Edge>, e: Edge, adjacency: Adjacency)
    requires AdjacencyOf(edges, adjacency)
    ensures AdjacencyOf(edges + [e], AddNeighbor(AddNeighbor(adjacency, e.0, e.1), e.1, e.0))
  {
    forall n ensures Adjacent(AddNeighbor(AddNeighbor(adjacency, e.0, e.1), e.1, e.0), n) == Neighbors(edges + [e], n) {
      assert Adjacent(adjacency, n) == Neighbors(edges, n);
      NeighborsSnoc(edges, e, n);
    }
  }

  lemma NodesSnoc(nodes: seq<Node>, edges: seq<Edge>, e: Edge)
    ensures Nodes(nodes, edges + [e]) == Nodes(nodes, edges) + {e.0, e.1}
  {
    forall n ensures n in Nodes(nodes, edges + [e]) <==> n in Nodes(nodes, edges) + {e.0, e.1} {
      assert forall x :: x in edges + [e] <==> x in edges || x == e;
    }
  }

  /** The undirected adjacency of the edges over all nodes. */
  function EdgeAdjacency(nodes: seq<Node>, edges: seq<Edge>): Adjacency {
    map n | n in Nodes(nodes, edges) :: Neighbors(edges, n)
  }

  function IsolatedNodes(nodes: seq<Node>, edges: seq<Edge>): set<Node> {
    set n | n in Nodes(nodes, edges) && Neighbors(edges, n) == {}
  }

  function LowDegreeNodes(nodes: seq<Node>, edges: seq<Edge>): set<Node> {
    set n | n in Nodes(nodes, edges) && |Neighbors(edges, n)| <= 1
  }

  /**
   All metrics in terms of the edges alone: counts of nodes with no and with at most one neighbour,
   and the largest connected class.
   */
  method ComputeTopologyMetrics(nodes: seq<Node>, edges: seq<Edge>) returns (m: Metrics)
    ensures m.nodeCount == |Nodes(nodes, edges)| && m.edgeCount == |edges|
    ensures m.isolated == |IsolatedNodes(nodes, edges)| && m.lowDegree == |LowDegreeNodes(nodes, edges)|
    ensures IsLargest(Nodes(nodes, edges), EdgeAdjacency(nodes, edges), m.largest)
    ensures m.coverage == if m.nodeCount > 0 then m.largest as real / m.nodeCount as real else 0.0
  {
    var nodeSet, adjacency := BuildGraph(nodes, edges);
    EdgesUndirected(nodes, edges, adjacency);
    var isolated := set n | n in nodeSet && Adjacent(adjacency, n) == {};
    var low := set n | n in nodeSet && |Adjacent(adjacency, n)| <= 1;
    CountedNodes(nodes, edges, adjacency, isolated, low);
    assert |edges| > 0 ==> edges[0] in edges && edges[0].0 in nodeSet;
    if nodeSet == {} {
      assert isolated == {} && low == {};
      return Metrics(0, 0, 0, 0, 0, 0.0);
    }
    var largest, _ := LargestComponentSize(nodeSet, adjacency);
    AnyAdjacency(nodes, edges, adjacency, largest);
    return Metrics(|nodeSet|, |edges|, |isolated|, |low|, largest, largest as real / |nodeSet| as real);
  }

  /** A node is isolated if no edge touches it, and of low degree if its edges lead to at most one node. */
  lemma DegreesAre(nodes: seq<Node>, edges: seq<Edge>, n: Node)
    ensures n in IsolatedNodes(nodes, edges) <==>
              n in Nodes(nodes, edges) && forall a :: (n, a) !in edges && (a, n) !in edges
    ensures n in LowDegreeNodes(nodes, edges) <==>
              n in Nodes(nodes, edges)
              && forall a, b | ((n, a) in edges || (a, n) in edges) && ((n, b) in edges || (b, n) in edges) :: a == b
    ensures n in Nodes(nodes, edges) <==> n in nodes || exists a :: (n, a) in edges || (a, n) in edges
  {
    forall a ensures a in Neighbors(edges, n) <==> (n, a) in edges || (a, n) in edges { NeighborsAre(edges, n, a); }
    AtMostOne(Neighbors(edges, n));
    if e :| e in edges && (e.0 == n || e.1 == n) { assert e == (n, e.1) || e == (e.0, n); }
  }

  lemma AtMostOne(s: set<Node>)
    ensures |s| <= 1 <==> forall a, b | a in s && b in s :: a == b
  {
    if |s| >= 1 {
      var a :| a in s;
      if b :| b in s && b != a {
        assert {a, b} <= s && |s - {a, b}| == |s| - 2;
      } else {
        assert s == {a};
      }
    }
  }

  lemma CountedNodes(nodes: seq<Node>, edges: seq<Edge>, adjacency: Adjacency, isolated: set<Node>, low: set<Node>)
    requires AdjacencyOf(edges, adjacency)
    requires isolated == set n | n in Nodes(nodes, edges) && Adjacent(adjacency, n) == {}
    requires low == set n | n in Nodes(nodes, edges) && |Adjacent(adjacency, n)| <= 1
    ensures isolated == IsolatedNodes(nodes, edges) && low == LowDegreeNodes(nodes, edges)
  {
    forall n
      ensures (n in isolated <==> n in IsolatedNodes(nodes, edges)) && (n in low <==> n in LowDegreeNodes(nodes, edges))
    {
      assert Adjacent(adjacency, n) == Neighbors(edges, n);
    }
  }

  lemma AnyAdjacency(nodes: seq<Node>, edges: seq<Edge>, adjacency: Adjacency, size: nat)
    requires AdjacencyOf(edges, adjacency) && IsLargest(Nodes(nodes, edges), adjacency, size)
    ensures IsLargest(Nodes(nodes, edges), EdgeAdjacency(nodes, edges), size)
  {
    var other := EdgeAdjacency(nodes, edges);
    forall n ensures Adjacent(adjacency, n) == Adjacent(other, n) {
      assert Adjacent(adjacency, n) == Neighbors(edges, n);
      if n !in other {
        forall b ensures b !in Neighbors(edges, n) { NeighborsAre(edges, n, b); }
      }
    }
    SameAdjacency(Nodes(nodes, edges), adjacency, other, size);
  }

  lemma SameAdjacency(nodes: set<Node>, a: Adjacency, b: Adjacency, size: nat)
    requires forall n :: Adjacent(a, n) == Adjacent(b, n)
    requires IsLargest(nodes, a, size)
    ensures IsLargest(nodes, b, size)
  {
    forall x ensures Component(nodes, a, x) == Component(nodes, b, x) {
      forall p ensures IsPath(a, p) <==> IsPath(b, p) { }
    }
  }
}
