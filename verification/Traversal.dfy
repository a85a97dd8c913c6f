/** Breadth-first extraction of the subgraph around a seed entity. */
module Traversal {
  import opened Wrappers
  import opened KnowledgeGraph
  import opened BreadthFirst
  import opened StoredWalks
  import ShortestPath

  datatype GraphNode = GraphNode(entity: Entity, outgoing: seq<Edge>, incoming: seq<Edge>, depth: nat)

  datatype Subgraph = Subgraph(nodes: seq<GraphNode>, edges: seq<Edge>, entitiesVisited: nat)

  ghost predicate Returned(nodes: seq<GraphNode>, x: Id) {
    exists i :: 0 <= i < |nodes| && nodes[i].entity.id == x
  }

  /** Distinct loadable entities, at their true distances, nearest first, with their filtered edges. */
  ghost predicate NodesOk(v: View, seed: Id, max: nat, nodes: seq<GraphNode>) {
    && (forall i | 0 <= i < |nodes| :: NodeOk(v, seed, max, nodes[i]))
    && (forall i, j | 0 <= i < j < |nodes| :: nodes[i].entity.id != nodes[j].entity.id && nodes[i].depth <= nodes[j].depth)
  }

  ghost predicate NodeOk(v: View, seed: Id, max: nat, n: GraphNode) {
    var id := n.entity.id;
    && v.Resolves(id) && n.entity == v.g.entities[id]
    && IsDistance(v, seed, id, n.depth) && n.depth <= max
    && n.outgoing == v.Out(id) && n.incoming == v.In(id)
  }

  /** All edges of the nodes, in node order, outgoing before incoming. */
  function Gathered(nodes: seq<GraphNode>): seq<Edge> {
    if nodes == [] then []
    else
      var last := nodes[|nodes| - 1];
      Gathered(nodes[..|nodes| - 1]) + last.outgoing + last.incoming
  }

  /** The first edge of each id, in order. */
  function Deduplicated(edges: seq<Edge>): seq<Edge> {
    if edges == [] then []
    else
      var kept, last := Deduplicated(edges[..|edges| - 1]), edges[|edges| - 1];
      if HasId(kept, last.id) then kept else kept + [last]
  }

  predicate HasId(edges: seq<Edge>, id: Id) {
    exists i :: 0 <= i < |edges| && edges[i].id == id
  }

  /** Nothing is invented, no id is kept twice, and no id is lost. */
  lemma {:induction false} DeduplicatedIsExact(edges: seq<Edge>)
    ensures forall e | e in Deduplicated(edges) :: e in edges
    ensures forall i, j | 0 <= i < j < |Deduplicated(edges)| :: Deduplicated(edges)[i].id != Deduplicated(edges)[j].id
    ensures forall e | e in edges :: HasId(Deduplicated(edges), e.id)
  {
    if edges != [] {
      var init, last := edges[..|edges| - 1], edges[|edges| - 1];
      assert edges == init + [last];
      DeduplicatedIsExact(init);
      var kept, all := Deduplicated(init), Deduplicated(edges);
      assert !HasId(kept, last.id) ==> all[|kept|].id == last.id;
      forall e | e in edges ensures HasId(all, e.id) {
        if HasId(kept, e.id) {
          var i :| 0 <= i < |kept| && kept[i].id == e.id;
          assert all[i].id == e.id;
        } else {
          assert e == last;
        }
      }
    }
  }

  ghost predicate IsFirst(edges: seq<Edge>, i: nat) {
    i < |edges| && forall j | 0 <= j < i :: edges[j].id != edges[i].id
  }

  /** The kept edges are the first of their ids, in order. */
  lemma {:induction false} DeduplicatedKeepsFirst(edges: seq<Edge>) returns (at: seq<nat>)
    ensures |at| == |Deduplicated(edges)|
    ensures forall k | 0 <= k < |at| :: IsFirst(edges, at[k]) && Deduplicated(edges)[k] == edges[at[k]]
    ensures Increasing(at)
  {
    at := [];
    if edges != [] {
      var n := |edges| - 1;
      var init := edges[..n];
      at := DeduplicatedKeepsFirst(init);
      forall k | 0 <= k < |at| ensures IsFirst(edges, at[k]) {
        assert IsFirst(init, at[k]);
      }
      if !HasId(Deduplicated(init), edges[n].id) {
        NewIsFirst(edges);
        hide IsFirst, HasId;
        at := at + [n];
      }
      hide IsFirst, HasId;
    }
  }

  lemma NewIsFirst(edges: seq<Edge>)
    requires edges != [] && !HasId(Deduplicated(edges[..|edges| - 1]), edges[|edges| - 1].id)
    ensures IsFirst(edges, |edges| - 1)
  {
    var n := |edges| - 1;
    var init := edges[..n];
    DeduplicatedIsExact(init);
    hide HasId;
    forall j | 0 <= j < n ensures edges[j].id != edges[n].id {
      assert init[j] in init;
    }
  }

  /** `retain` with a set of the ids seen so far. */
  method Deduplicate(edges: seq<Edge>) returns (kept: seq<Edge>)
    ensures kept == Deduplicated(edges)
  {
    kept := [];
    var seen: set<Id> := {};
    for i := 0 to |edges|
      invariant kept == Deduplicated(edges[..i])
      invariant forall id :: id in seen <==> HasId(kept, id)
    {
      assert edges[..i + 1][..i] == edges[..i];
      if edges[i].id !in seen {
        SeenAfter(kept, edges[i]);
        seen := seen + {edges[i].id};
        kept := kept + [edges[i]];
      }
    }
    assert edges[..|edges|] == edges;
  }

  lemma SeenAfter(kept: seq<Edge>, e: Edge)
    ensures forall id :: HasId(kept + [e], id) <==> HasId(kept, id) || id == e.id
  {
    var longer := kept + [e];
    assert longer[|kept|] == e;
    forall id | HasId(kept, id) ensures HasId(longer, id) {
      var i :| 0 <= i < |kept| && kept[i].id == id;
      assert longer[i].id == id;
    }
  }

  /** Met ids are either waiting or done, and the done ones that load are exactly the returned nodes. */
  ghost predicate Extracts(v: View, seed: Id, max: nat, visited: set<Id>, queue: seq<Pending>, nodes: seq<GraphNode>,
                           depth: map<Id, nat>, low: nat) {
    && v.strict
    && visited == depth.Keys
    && Searching(v, seed, max, depth, Waiting(queue), low) && QueueOk(queue, depth, low)
    && NodesOk(v, seed, max, nodes)
    && (forall i | 0 <= i < |nodes| :: nodes[i].depth <= low)
    && (forall x {:trigger Returned(nodes, x)} :: Returned(nodes, x) <==> x in depth && x !in Waiting(queue) && v.Resolves(x))
  }

  /** What holds while the neighbours of cur are being queued. */
  ghost predicate Queueing(v: View, seed: Id, max: nat, cur: Id, d: nat, visited: set<Id>, queue: seq<Pending>, depth: map<Id, nat>) {
    && visited == depth.Keys
    && Searching(v, seed, max, depth, Waiting(queue) + {cur}, d) && QueueOk(queue, depth, d)
    && cur !in Waiting(queue) && cur in depth && depth[cur] == d && v.Resolves(cur) && v.strict
  }

  lemma MeetForExtraction(v: View, seed: Id, max: nat, cur: Id, d: nat, visited: set<Id>, queue: seq<Pending>, depth: map<Id, nat>,
                          e: Edge, y: Id)
    requires Queueing(v, seed, max, cur, d, visited, queue, depth) && d < max && y !in visited && v.Via(e, cur, y)
    ensures Queueing(v, seed, max, cur, d, visited + {y}, queue + [Pending(y, d + 1)], depth[y := d + 1])
  {
    Discover(v, seed, max, depth, Waiting(queue) + {cur}, d, cur, e, y);
    PushKeepsQueue(queue, depth, d, y);
    assert Waiting(queue + [Pending(y, d + 1)]) + {cur} == Waiting(queue) + {cur} + {y};
  }

  /** Newly met ids all go to the queue; nothing leaves it. */
  ghost predicate Grows(visited0: set<Id>, queue0: seq<Pending>, visited: set<Id>, queue: seq<Pending>) {
    && visited0 <= visited
    && Waiting(queue) == Waiting(queue0) + (visited - visited0)
    && |queue| - |queue0| == |visited| - |visited0| >= 0
  }

  method QueueNeighbors(v: View, seed: Id, max: nat, cur: Id, d: nat, edges: seq<Edge>, outward: bool,
                        visited0: set<Id>, queue0: seq<Pending>, ghost depth0: map<Id, nat>)
    returns (visited: set<Id>, queue: seq<Pending>, ghost depth: map<Id, nat>)
    requires Queueing(v, seed, max, cur, d, visited0, queue0, depth0) && d < max
    requires forall i | 0 <= i < |edges| :: v.Via(edges[i], cur, Far(edges[i], outward))
    ensures Queueing(v, seed, max, cur, d, visited, queue, depth)
    ensures Grows(visited0, queue0, visited, queue)
    ensures Fars(edges, outward) <= visited
  {
    hide Queueing;
    visited, queue, depth := visited0, queue0, depth0;
    for i := 0 to |edges|
      invariant Queueing(v, seed, max, cur, d, visited, queue, depth)
      invariant Grows(visited0, queue0, visited, queue)
      invariant Fars(edges[..i], outward) <= visited
    {
      assert edges[..i + 1][..i] == edges[..i];
      var neighbor := Far(edges[i], outward);
      if neighbor !in visited {
        MeetForExtraction(v, seed, max, cur, d, visited, queue, depth, edges[i], neighbor);
        PushGrows(visited0, queue0, visited, queue, neighbor, d + 1);
        visited := visited + {neighbor};
        queue := queue + [Pending(neighbor, d + 1)];
        depth := depth[neighbor := d + 1];
      }
    }
    assert edges[..|edges|] == edges;
  }

  lemma PushGrows(visited0: set<Id>, queue0: seq<Pending>, visited: set<Id>, queue: seq<Pending>, y: Id, d: nat)
    requires Grows(visited0, queue0, visited, queue) && y !in visited
    ensures Grows(visited0, queue0, visited + {y}, queue + [Pending(y, d)])
  {
    var longer := queue + [Pending(y, d)];
    assert longer[|queue|].id == y;
    forall x ensures x in Waiting(longer) <==> x in Waiting(queue) + {y} {
      if x in Waiting(queue) {
        var i :| 0 <= i < |queue| && queue[i].id == x;
        assert longer[i].id == x;
      }
    }
  }

  lemma GrowsTwice(v0: set<Id>, q0: seq<Pending>, v1: set<Id>, q1: seq<Pending>, v2: set<Id>, q2: seq<Pending>)
    requires Grows(v0, q0, v1, q1) && Grows(v1, q1, v2, q2)
    ensures Grows(v0, q0, v2, q2)
  {
  }

  lemma Close(v: View, seed: Id, max: nat, cur: Id, d: nat, visited: set<Id>, queue: seq<Pending>, depth: map<Id, nat>)
    requires Queueing(v, seed, max, cur, d, visited, queue, depth)
    requires d < max ==> Fars(v.Out(cur), true) <= visited && Fars(v.In(cur), false) <= visited
    ensures Searching(v, seed, max, depth, Waiting(queue), d)
  {
    if d < max {
      assert forall e | e in v.Out(cur) :: Far(e, true) in depth;
      assert forall e | e in v.In(cur) :: Far(e, false) in depth;
    }
    Finish(v, seed, max, depth, Waiting(queue) + {cur}, d, cur);
    assert Waiting(queue) + {cur} - {cur} == Waiting(queue);
  }

  /** The neighbours of cur, unless it already lies at the depth limit. */
  method QueueAll(v: View, seed: Id, max: nat, cur: Id, d: nat, visited0: set<Id>, queue0: seq<Pending>, ghost depth0: map<Id, nat>)
    returns (visited: set<Id>, queue: seq<Pending>, ghost depth: map<Id, nat>)
    requires Queueing(v, seed, max, cur, d, visited0, queue0, depth0)
    ensures Queueing(v, seed, max, cur, d, visited, queue, depth)
    ensures Searching(v, seed, max, depth, Waiting(queue), d)
    ensures Grows(visited0, queue0, visited, queue)
  {
    assert v.Expands(cur);
    hide Queueing, Searching;
    visited, queue, depth := visited0, queue0, depth0;
    if d < max {
      EdgesLead(v, cur);
      visited, queue, depth := QueueNeighbors(v, seed, max, cur, d, v.Out(cur), true, visited0, queue0, depth0);
      ghost var v1, q1 := visited, queue;
      visited, queue, depth := QueueNeighbors(v, seed, max, cur, d, v.In(cur), false, visited, queue, depth);
      GrowsTwice(visited0, queue0, v1, q1, visited, queue);
    }
    Close(v, seed, max, cur, d, visited, queue, depth);
  }

  /** Taking the next id off the queue: it is either skipped for good or about to be expanded. */
  lemma Take(v: View, seed: Id, max: nat, visited: set<Id>, queue: seq<Pending>, nodes: seq<GraphNode>, depth: map<Id, nat>, low: nat)
    requires queue != [] && Extracts(v, seed, max, visited, queue, nodes, depth, low)
    ensures var Pending(cur, d) := queue[0];
            if v.Resolves(cur) then Queueing(v, seed, max, cur, d, visited, queue[1..], depth)
            else Extracts(v, seed, max, visited, queue[1..], nodes, depth, d)
  {
    PopKeepsQueue(v, seed, max, depth, queue, low);
    var Pending(cur, d) := queue[0];
    assert Waiting(queue) == Waiting(queue[1..]) + {cur} && Waiting(queue) - {cur} == Waiting(queue[1..]);
    if !v.Resolves(cur) {
      Finish(v, seed, max, depth, Waiting(queue), d, cur);
    }
  }

  lemma ReturnedAfter(nodes: seq<GraphNode>, n: GraphNode)
    ensures forall x :: Returned(nodes + [n], x) <==> Returned(nodes, x) || x == n.entity.id
  {
    var longer := nodes + [n];
    assert longer[|nodes|] == n;
    forall x | Returned(nodes, x) ensures Returned(longer, x) {
      var i :| 0 <= i < |nodes| && nodes[i].entity.id == x;
      assert longer[i].entity.id == x;
    }
  }

  /** An expanded id becomes the next returned node. */
  lemma Return(v: View, seed: Id, max: nat, visited: set<Id>, queue: seq<Pending>, nodes: seq<GraphNode>, depth: map<Id, nat>, low: nat,
               visited': set<Id>, queue': seq<Pending>, depth': map<Id, nat>, n: GraphNode)
    requires queue != [] && Extracts(v, seed, max, visited, queue, nodes, depth, low)
    requires Pending(n.entity.id, n.depth) == queue[0] && NodeOk(v, seed, max, n)
    requires Queueing(v, seed, max, n.entity.id, n.depth, visited', queue', depth')
    requires Searching(v, seed, max, depth', Waiting(queue'), n.depth)
    requires Grows(visited, queue[1..], visited', queue')
    ensures Extracts(v, seed, max, visited', queue', nodes + [n], depth', n.depth)
  {
    hide Searching, NodesOk, NodeOk, Returned, Grows, Waiting, IsDistance;
    PopKeepsQueue(v, seed, max, depth, queue, low);
    NodesAfter(v, seed, max, nodes, low, n);
    ReturnedNow(v, nodes, n, visited, queue, visited', queue');
  }

  lemma NextNodeOk(v: View, seed: Id, max: nat, cur: Id, d: nat, visited: set<Id>, queue: seq<Pending>, depth: map<Id, nat>)
    requires Queueing(v, seed, max, cur, d, visited, queue, depth)
    ensures NodeOk(v, seed, max, GraphNode(v.g.entities[cur], v.Out(cur), v.In(cur), d))
  {
    assert IsDistance(v, seed, cur, depth[cur]);
  }

  lemma NodesAfter(v: View, seed: Id, max: nat, nodes: seq<GraphNode>, low: nat, n: GraphNode)
    requires NodesOk(v, seed, max, nodes) && NodeOk(v, seed, max, n) && !Returned(nodes, n.entity.id)
    requires low <= n.depth && forall i | 0 <= i < |nodes| :: nodes[i].depth <= low
    ensures NodesOk(v, seed, max, nodes + [n])
  {
    hide NodeOk;
    assert forall i | 0 <= i < |nodes| :: Returned(nodes, nodes[i].entity.id);
  }

  lemma ReturnedNow(v: View, nodes: seq<GraphNode>, n: GraphNode, visited: set<Id>, queue: seq<Pending>,
                    visited': set<Id>, queue': seq<Pending>)
    requires forall x {:trigger Returned(nodes, x)} :: Returned(nodes, x) <==> x in visited && x !in Waiting(queue) && v.Resolves(x)
    requires queue != [] && n.entity.id == queue[0].id && v.Resolves(queue[0].id)
    requires Waiting(queue) == {queue[0].id} + Waiting(queue[1..]) && queue[0].id !in Waiting(queue[1..]) && queue[0].id in visited
    requires Grows(visited, queue[1..], visited', queue')
    ensures forall x {:trigger Returned(nodes + [n], x)} ::
              Returned(nodes + [n], x) <==> x in visited' && x !in Waiting(queue') && v.Resolves(x)
  {
    ReturnedAfter(nodes, n);
  }

  /** Every loadable entity within the depth limit that is missing lies no nearer than any returned one. */
  ghost predicate NearestFirst(v: View, seed: Id, max: nat, maxNodes: nat, nodes: seq<GraphNode>) {
    forall x, d: nat | v.Resolves(x) && IsDistance(v, seed, x, d) && d <= max && !Returned(nodes, x) ::
      |nodes| == maxNodes && forall i | 0 <= i < |nodes| :: nodes[i].depth <= d
  }

  lemma Stop(v: View, seed: Id, max: nat, maxNodes: nat, visited: set<Id>, queue: seq<Pending>, nodes: seq<GraphNode>,
             depth: map<Id, nat>, low: nat)
    requires Extracts(v, seed, max, visited, queue, nodes, depth, low)
    requires queue == [] || |nodes| == maxNodes
    ensures NearestFirst(v, seed, max, maxNodes, nodes)
  {
    forall x, d: nat | v.Resolves(x) && IsDistance(v, seed, x, d) && d <= max && !Returned(nodes, x)
      ensures queue != [] && low <= d
    {
      if x in depth {
        assert IsDistance(v, seed, x, depth[x]);
        DistanceIsUnique(v, seed, x, depth[x], d);
        assert x in Waiting(queue);
      } else if y :| y in Waiting(queue) && depth[y] < d {
        var i :| 0 <= i < |queue| && queue[i].id == y;
      } else {
        Settled(v, seed, max, depth, Waiting(queue), low, x, d);
      }
    }
  }

  lemma FewVisited(v: View, seed: Id, max: nat, visited: set<Id>, queue: seq<Pending>, nodes: seq<GraphNode>, depth: map<Id, nat>, low: nat)
    requires Extracts(v, seed, max, visited, queue, nodes, depth, low)
    ensures |visited| <= |Universe(v, seed)|
  {
    SubsetIsSmaller(visited, Universe(v, seed));
  }

  lemma Start(v: View, seed: Id, max: nat)
    requires v.strict
    ensures Extracts(v, seed, max, {seed}, [Pending(seed, 0)], [], map[seed := 0], 0)
  {
    var queue := [Pending(seed, 0)];
    assert Waiting(queue) == {seed} by { assert queue[0].id == seed; }
    SearchStarts(v, seed, max);
  }

  lemma Outcome(v: View, seed: Id, max: nat, visited: set<Id>, queue: seq<Pending>, nodes: seq<GraphNode>, depth: map<Id, nat>, low: nat)
    requires Extracts(v, seed, max, visited, queue, nodes, depth, low)
    ensures NodesOk(v, seed, max, nodes)
  {
  }

  /** The ids met so far: only ids within the depth limit and, if the search was complete, all of them. */
  ghost predicate Met(v: View, seed: Id, max: nat, met: set<Id>, complete: bool) {
    && (forall x | x in met :: Within(v, seed, x, max))
    && (complete ==> forall x | Within(v, seed, x, max) :: x in met)
  }

  lemma AllMet(v: View, seed: Id, max: nat, visited: set<Id>, queue: seq<Pending>, nodes: seq<GraphNode>, depth: map<Id, nat>, low: nat,
               complete: bool)
    requires Extracts(v, seed, max, visited, queue, nodes, depth, low) && (complete ==> queue == [])
    ensures Met(v, seed, max, visited, complete)
  {
    forall x | x in visited ensures Within(v, seed, x, max) {
      assert IsDistance(v, seed, x, depth[x]) && depth[x] <= max;
    }
    if complete {
      forall x | Within(v, seed, x, max) ensures x in visited {
        var m: nat :| m <= max && Hops(v, seed, x, m);
        Settled(v, seed, max, depth, {}, low, x, m);
      }
    }
  }

  method TraverseBfs(g: Store, q: Query, seed: Id, maxDepth: nat, maxNodes: nat) returns (r: Subgraph)
    ensures var v := View(g, q, true);
            && NodesOk(v, seed, maxDepth, r.nodes)
            && |r.nodes| <= maxNodes
            && NearestFirst(v, seed, maxDepth, maxNodes, r.nodes)
            && r.edges == Deduplicated(Gathered(r.nodes))
            && AreNearestNodes(g, q.user, q.validOnly, seed, maxDepth, maxNodes, r.nodes)
            && AreTheirEdges(g, q.user, q.validOnly, r.nodes, r.edges)
            && exists met: set<Id> ::
                 && r.entitiesVisited == |met|
                 && Met(v, seed, maxDepth, met, |r.nodes| < maxNodes)
  {
    hide Extracts, NodesOk, NodeOk, NearestFirst, Queueing, Searching, Met, AreNearestNodes, AreTheirEdges;
    var v := View(g, q, true);
    var visited := {seed};
    var queue := [Pending(seed, 0)];
    var nodes: seq<GraphNode> := [];
    var allEdges: seq<Edge> := [];
    ghost var depth: map<Id, nat>, low: nat := map[seed := 0], 0;
    Start(v, seed, maxDepth);
    while queue != []
      invariant Extracts(v, seed, maxDepth, visited, queue, nodes, depth, low)
      invariant |nodes| <= maxNodes && allEdges == Gathered(nodes)
      decreases 2 * |Universe(v, seed)| - 2 * |visited| + |queue|
    {
      FewVisited(v, seed, maxDepth, visited, queue, nodes, depth, low);
      if |nodes| >= maxNodes {
        break;
      }
      Take(v, seed, maxDepth, visited, queue, nodes, depth, low);
      var Pending(cur, d) := queue[0];
      if cur !in g.entities || (q.user.Some? && g.entities[cur].user != q.user.value) {
        queue := queue[1..];
        low := d;
        continue;
      }
      var outgoing, incoming := v.Out(cur), v.In(cur);
      var visited', queue', depth' := QueueAll(v, seed, maxDepth, cur, d, visited, queue[1..], depth);
      var n := GraphNode(g.entities[cur], outgoing, incoming, d);
      NextNodeOk(v, seed, maxDepth, cur, d, visited', queue', depth');
      Return(v, seed, maxDepth, visited, queue, nodes, depth, low, visited', queue', depth', n);
      visited, queue, depth, low := visited', queue', depth', d;
      allEdges := allEdges + outgoing + incoming;
      nodes := nodes + [n];
      assert nodes[..|nodes| - 1] + [nodes[|nodes| - 1]] == nodes;
    }
    Stop(v, seed, maxDepth, maxNodes, visited, queue, nodes, depth, low);
    Outcome(v, seed, maxDepth, visited, queue, nodes, depth, low);
    AllMet(v, seed, maxDepth, visited, queue, nodes, depth, low, |nodes| < maxNodes);
    NodesAreNearest(v, seed, maxDepth, maxNodes, nodes);
    EdgesAreTheirs(v, seed, maxDepth, nodes);
    var kept := Deduplicate(allEdges);
    r := Subgraph(nodes, kept, |visited|);
  }

  // ---------------------------------------------------------------- the returned edges

  ghost predicate TouchesNode(nodes: seq<GraphNode>, e: Edge) {
    exists i :: 0 <= i < |nodes| && e.Touches(nodes[i].entity.id)
  }

  predicate HasOwnEdges(v: View, n: GraphNode) {
    n.outgoing == v.Out(n.entity.id) && n.incoming == v.In(n.entity.id)
  }

  lemma OwnEdgesAreIncident(v: View, n: GraphNode, e: Edge)
    requires HasOwnEdges(v, n)
    ensures e in n.outgoing || e in n.incoming <==> e in v.g.edges && v.q.Admits(e) && e.Touches(n.entity.id)
  {
  }

  lemma TouchesLonger(nodes: seq<GraphNode>, n: GraphNode, e: Edge)
    ensures TouchesNode(nodes + [n], e) <==> TouchesNode(nodes, e) || e.Touches(n.entity.id)
  {
    var longer := nodes + [n];
    assert longer[|nodes|] == n;
    if i :| 0 <= i < |nodes| && e.Touches(nodes[i].entity.id) {
      assert e.Touches(longer[i].entity.id);
    }
  }

  lemma {:induction false} GatheredAreIncident(v: View, nodes: seq<GraphNode>, e: Edge)
    requires forall i | 0 <= i < |nodes| :: HasOwnEdges(v, nodes[i])
    ensures e in Gathered(nodes) <==> e in v.g.edges && v.q.Admits(e) && TouchesNode(nodes, e)
  {
    hide HasOwnEdges, TouchesNode;
    if nodes == [] {
      NothingTouched(e);
    } else {
      var k := |nodes| - 1;
      GatheredAreIncident(v, nodes[..k], e);
      OwnEdgesAreIncident(v, nodes[k], e);
      TouchesLonger(nodes[..k], nodes[k], e);
      assert nodes[..k] + [nodes[k]] == nodes;
    }
  }

  lemma NothingTouched(e: Edge)
    ensures !TouchesNode([], e)
  {
  }

  lemma TouchesPlainly(nodes: seq<GraphNode>, e: Edge)
    ensures TouchesNode(nodes, e) <==>
            exists i :: 0 <= i < |nodes| && (e.source == nodes[i].entity.id || e.target == nodes[i].entity.id)
  {
  }

  /** The returned edges are, each once, exactly the admitted edges that touch a returned node. */
  lemma EdgesAreExactlyIncident(v: View, seed: Id, max: nat, nodes: seq<GraphNode>, e: Edge)
    requires NodesOk(v, seed, max, nodes) && UniqueIds(v.g.edges)
    ensures e in Deduplicated(Gathered(nodes)) <==>
            && e in v.g.edges && (v.q.user.Some? ==> e.user == v.q.user.value) && (v.q.validOnly ==> e.invalidAt.None?)
            && exists i :: 0 <= i < |nodes| && (e.source == nodes[i].entity.id || e.target == nodes[i].entity.id)
    ensures UniqueIds(Deduplicated(Gathered(nodes)))
  {
    TouchesPlainly(nodes, e);
    hide IsDistance, TouchesNode;
    var all := Gathered(nodes);
    var kept := Deduplicated(all);
    DeduplicatedIsExact(all);
    GatheredAreIncident(v, nodes, e);
    if e in all {
      var i :| 0 <= i < |kept| && kept[i].id == e.id;
      assert kept[i] in kept;
      GatheredAreIncident(v, nodes, kept[i]);
      SameIdSameEdge(v.g.edges, e, kept[i]);
    }
  }

  lemma SameIdSameEdge(edges: seq<Edge>, a: Edge, b: Edge)
    requires UniqueIds(edges) && a in edges && b in edges && a.id == b.id
    ensures a == b
  {
    var i :| 0 <= i < |edges| && edges[i] == a;
    var j :| 0 <= j < |edges| && edges[j] == b;
    assert i == j;
  }

  // ---------------------------------------------------------------- the answer, held against the stored graph

  /** A returned node: a stored entity of the user, at its distance from the seed, with exactly its edges that count. */
  ghost predicate IsStoredNode(g: StoreData, user: Option<Id>, validOnly: bool, seed: Id, max: nat, n: GraphNode) {
    && Loads(g, user, n.entity.id) && n.entity == g.entities[n.entity.id]
    && Nearest(g, user, validOnly, true, seed, n.entity.id, n.depth) && n.depth <= max
    && (forall e :: e in n.outgoing <==> Counts(g, user, validOnly, e) && e.source == n.entity.id)
    && (forall e :: e in n.incoming <==> Counts(g, user, validOnly, e) && e.target == n.entity.id)
  }

  /** The nearest entities, no more than maxNodes; one that is missing is no nearer, and only missing for that reason. */
  ghost predicate AreNearestNodes(g: StoreData, user: Option<Id>, validOnly: bool, seed: Id, max: nat, maxNodes: nat,
                                  nodes: seq<GraphNode>) {
    && |nodes| <= maxNodes
    && (forall i | 0 <= i < |nodes| :: IsStoredNode(g, user, validOnly, seed, max, nodes[i]))
    && (forall i, j | 0 <= i < j < |nodes| :: nodes[i].entity.id != nodes[j].entity.id && nodes[i].depth <= nodes[j].depth)
    && (forall x, d: nat | Loads(g, user, x) && Nearest(g, user, validOnly, true, seed, x, d) && d <= max ::
          || (exists i :: 0 <= i < |nodes| && nodes[i].entity.id == x)
          || (|nodes| == maxNodes && forall i | 0 <= i < |nodes| :: nodes[i].depth <= d))
  }

  /** The edges that count and touch a node, one for each id. */
  ghost predicate AreTheirEdges(g: StoreData, user: Option<Id>, validOnly: bool, nodes: seq<GraphNode>, edges: seq<Edge>) {
    && UniqueIds(edges)
    && (forall e | e in edges :: Counts(g, user, validOnly, e) && LiesAt(nodes, e))
    && (forall e | Counts(g, user, validOnly, e) && LiesAt(nodes, e) :: exists i :: 0 <= i < |edges| && edges[i].id == e.id)
  }

  ghost predicate LiesAt(nodes: seq<GraphNode>, e: Edge) {
    exists i :: 0 <= i < |nodes| && (e.source == nodes[i].entity.id || e.target == nodes[i].entity.id)
  }

  lemma OwnEdgesCount(v: View, a: Id, e: Edge)
    ensures e in v.Out(a) <==> Counts(v.g, v.q.user, v.q.validOnly, e) && e.source == a
    ensures e in v.In(a) <==> Counts(v.g, v.q.user, v.q.validOnly, e) && e.target == a
  {
  }

  lemma NodeIsStored(v: View, seed: Id, max: nat, n: GraphNode)
    requires NodeOk(v, seed, max, n) && v.strict
    ensures IsStoredNode(v.g, v.q.user, v.q.validOnly, seed, max, n)
  {
    hide IsDistance, Nearest, View.Out, View.In, Counts;
    DistancesAreNearest(v, seed, n.entity.id, n.depth);
    forall e {
      OwnEdgesCount(v, n.entity.id, e);
    }
  }

  lemma NodesAreNearest(v: View, seed: Id, max: nat, maxNodes: nat, nodes: seq<GraphNode>)
    requires v.strict && NodesOk(v, seed, max, nodes) && NearestFirst(v, seed, max, maxNodes, nodes) && |nodes| <= maxNodes
    ensures AreNearestNodes(v.g, v.q.user, v.q.validOnly, seed, max, maxNodes, nodes)
  {
    forall i | 0 <= i < |nodes| ensures IsStoredNode(v.g, v.q.user, v.q.validOnly, seed, max, nodes[i]) {
      NodeIsStored(v, seed, max, nodes[i]);
    }
    hide IsDistance, Nearest, NodeOk, IsStoredNode;
    forall x, d: nat | Loads(v.g, v.q.user, x) && Nearest(v.g, v.q.user, v.q.validOnly, true, seed, x, d) && d <= max
      ensures Returned(nodes, x) || (|nodes| == maxNodes && forall i | 0 <= i < |nodes| :: nodes[i].depth <= d)
    {
      DistancesAreNearest(v, seed, x, d);
    }
  }

  lemma EdgesAreTheirs(v: View, seed: Id, max: nat, nodes: seq<GraphNode>)
    requires NodesOk(v, seed, max, nodes)
    ensures AreTheirEdges(v.g, v.q.user, v.q.validOnly, nodes, Deduplicated(Gathered(nodes)))
  {
    var all := Gathered(nodes);
    DeduplicatedIsExact(all);
    forall e ensures e in all <==> Counts(v.g, v.q.user, v.q.validOnly, e) && LiesAt(nodes, e) {
      GatheredAreIncident(v, nodes, e);
      TouchesPlainly(nodes, e);
    }
    hide NodesOk, Gathered, Deduplicated, Counts, LiesAt;
  }

  // ---------------------------------------------------------------- the two searches agree

  /** Where extraction goes the path search can go as well. */
  lemma {:induction false} PathSearchGoesFurther(g: Store, q: Query, a: Id, b: Id, n: nat)
    requires Hops(View(g, q, true), a, b, n)
    ensures Hops(View(g, q, false), a, b, n)
    decreases n
  {
    var s, l := View(g, q, true), View(g, q, false);
    if n > 0 {
      var c :| Hops(s, a, c, n - 1) && s.Link(c, b);
      var e :| s.Via(e, c, b);
      PathSearchGoesFurther(g, q, a, c, n - 1);
      assert l.Via(e, c, b) && l.Link(c, b);
    }
  }

  /** If the ends of edges load, extraction can go along every shortest path. */
  lemma ExtractionFollows(g: Store, q: Query, a: Id, b: Id, legs: seq<ShortestPath.Leg>)
    requires ShortestPath.EndsLoad(View(g, q, false)) && a != b && ShortestPath.IsShortest(View(g, q, false), a, b, legs)
    ensures Hops(View(g, q, true), a, b, |legs| - 1)
  {
    var s, l := View(g, q, true), View(g, q, false);
    hide ShortestPath.EndsLoad, Hops;
    forall i | 0 < i < |legs| ensures legs[i].edge.Some? && s.Via(legs[i].edge.value, legs[i - 1].id, legs[i].id) {
      ShortestPath.LegsResolve(l, a, b, legs, i - 1);
      assert l.Via(legs[i].edge.value, legs[i - 1].id, legs[i].id);
    }
    ShortestPath.PathHops(s, a, b, legs);
  }

  lemma ShortestToItself(v: View, a: Id, legs: seq<ShortestPath.Leg>)
    requires ShortestPath.IsShortest(v, a, a, legs)
    ensures |legs| == 1 && legs[0].id == a
  {
    var stay := [legs[0]];
    assert ShortestPath.IsPath(v, a, a, stay);
    assert |legs| <= |stay|;
  }

  /** If the ends of edges load, a returned node's depth is the length of the path that the path search reports. */
  lemma DepthIsPathLength(g: Store, q: Query, seed: Id, max: nat, n: GraphNode, legs: seq<ShortestPath.Leg>)
    requires ShortestPath.EndsLoad(View(g, q, false)) && NodeOk(View(g, q, true), seed, max, n)
    requires ShortestPath.IsShortest(View(g, q, false), seed, n.entity.id, legs)
    ensures |ShortestPath.Resolve(View(g, q, false), legs)| == |legs| == n.depth + 1
  {
    hide Hops, ShortestPath.Resolve, ShortestPath.EndsLoad;
    var l, id := View(g, q, false), n.entity.id;
    ShortestPath.ShortestIsDistance(l, seed, id, legs);
    PathSearchGoesFurther(g, q, seed, id, n.depth);
    if seed == id {
      ShortestToItself(l, id, legs);
      ShortestPath.AllLegsResolve(l, legs);
      SeedIsAtZero(View(g, q, true), id, n.depth);
    } else {
      ExtractionFollows(g, q, seed, id, legs);
      ShortestPath.KeepsStepsIff(l);
    }
  }

  lemma SeedIsAtZero(v: View, a: Id, n: nat)
    requires IsDistance(v, a, a, n)
    ensures n == 0
  {
    assert Hops(v, a, a, 0);
  }
}
