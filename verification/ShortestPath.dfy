/** Breadth-first shortest path with parent links, and the reconstruction of the path it found. */
module ShortestPath {
  import opened Wrappers
  import opened KnowledgeGraph
  import opened StoredWalks
  import opened BreadthFirst

  datatype PathStep = PathStep(entity: Entity, edge: Option<Edge>, depth: nat)

  datatype Found = Found(steps: seq<PathStep>, entitiesVisited: nat, found: bool)

  /** How an id was first reached; both parts are missing for the source. */
  datatype Visit = Visit(parent: Option<Id>, edge: Option<Edge>)

  datatype Leg = Leg(id: Id, edge: Option<Edge>)

  /** Legs that start at a, end at b, and go along the recorded edges. */
  ghost predicate IsPath(v: View, a: Id, b: Id, legs: seq<Leg>) {
    && |legs| > 0
    && legs[0] == Leg(a, None)
    && legs[|legs| - 1].id == b
    && (forall i | 0 < i < |legs| :: legs[i].edge.Some? && v.Via(legs[i].edge.value, legs[i - 1].id, legs[i].id))
  }

  /** The number of hops of a path is a hop count of the view, and every hop count has a path. */
  lemma {:induction false} PathHops(v: View, a: Id, b: Id, legs: seq<Leg>)
    requires IsPath(v, a, b, legs)
    ensures Hops(v, a, b, |legs| - 1)
    decreases |legs|
  {
    if |legs| > 1 {
      var init := legs[..|legs| - 1];
      PathHops(v, a, init[|init| - 1].id, init);
      assert v.Link(init[|init| - 1].id, b);
    }
  }

  lemma {:induction false} HopsPath(v: View, a: Id, b: Id, n: nat) returns (legs: seq<Leg>)
    requires Hops(v, a, b, n)
    ensures IsPath(v, a, b, legs) && |legs| == n + 1
    decreases n
  {
    if n == 0 {
      legs := [Leg(a, None)];
    } else {
      var c :| Hops(v, a, c, n - 1) && v.Link(c, b);
      var e :| v.Via(e, c, b);
      var init := HopsPath(v, a, c, n - 1);
      legs := init + [Leg(b, Some(e))];
    }
  }

  ghost predicate IsShortest(v: View, a: Id, b: Id, legs: seq<Leg>) {
    IsPath(v, a, b, legs) && forall other | IsPath(v, a, b, other) :: |legs| <= |other|
  }

  lemma DistancePathIsShortest(v: View, a: Id, b: Id, legs: seq<Leg>)
    requires IsPath(v, a, b, legs) && IsDistance(v, a, b, |legs| - 1)
    ensures IsShortest(v, a, b, legs)
  {
    forall other | IsPath(v, a, b, other) ensures |legs| <= |other| {
      PathHops(v, a, b, other);
    }
  }

  /** The legs whose entity loads and belongs to the user, numbered by their place on the path. */
  function Resolve(v: View, legs: seq<Leg>): seq<PathStep> {
    if legs == [] then []
    else
      var i := |legs| - 1;
      Resolve(v, legs[..i]) +
      if v.Resolves(legs[i].id) then [PathStep(v.g.entities[legs[i].id], legs[i].edge, i)] else []
  }

  /** x was reached from its recorded parent, one hop closer to the source, along the recorded edge. */
  ghost predicate ParentOk(v: View, visited: map<Id, Visit>, depth: map<Id, nat>, x: Id)
    requires x in visited && x in depth
  {
    && visited[x].parent.Some? && visited[x].edge.Some?
    && visited[x].parent.value in depth
    && depth[x] == depth[visited[x].parent.value] + 1
    && v.Via(visited[x].edge.value, visited[x].parent.value, x)
  }

  ghost predicate ParentsOk(v: View, seed: Id, visited: map<Id, Visit>, depth: map<Id, nat>) {
    && visited.Keys == depth.Keys
    && seed in visited && visited[seed] == Visit(None, None) && depth[seed] == 0
    && (forall x {:trigger ParentOk(v, visited, depth, x)} | x in visited && x != seed :: ParentOk(v, visited, depth, x))
  }

  /** What holds while the neighbours of cur are being met. */
  ghost predicate Scanning(v: View, seed: Id, to: Id, max: nat, cur: Id, d: nat,
                           visited: map<Id, Visit>, queue: seq<Pending>, depth: map<Id, nat>) {
    && Searching(v, seed, max, depth, Waiting(queue) + {cur}, d)
    && QueueOk(queue, depth, d) && cur !in Waiting(queue)
    && cur in depth && depth[cur] == d < max && v.Expands(cur)
    && ParentsOk(v, seed, visited, depth)
    && seed != to
  }

  /** A newly met neighbour is recorded with its parent and waits at the end of the queue. */
  lemma Meet(v: View, seed: Id, to: Id, max: nat, cur: Id, d: nat, visited: map<Id, Visit>, queue: seq<Pending>,
             depth: map<Id, nat>, e: Edge, y: Id)
    requires Scanning(v, seed, to, max, cur, d, visited, queue, depth) && y !in visited && v.Via(e, cur, y)
    ensures Scanning(v, seed, to, max, cur, d, visited[y := Visit(Some(cur), Some(e))], queue + [Pending(y, d + 1)], depth[y := d + 1])
    ensures IsDistance(v, seed, y, d + 1)
  {
    Discover(v, seed, max, depth, Waiting(queue) + {cur}, d, cur, e, y);
    PushKeepsQueue(queue, depth, d, y);
    assert Waiting(queue + [Pending(y, d + 1)]) + {cur} == Waiting(queue) + {cur} + {y};
    ParentsAfterMeet(v, seed, visited, depth, cur, e, y);
  }

  lemma ParentsAfterMeet(v: View, seed: Id, visited: map<Id, Visit>, depth: map<Id, nat>, cur: Id, e: Edge, y: Id)
    requires ParentsOk(v, seed, visited, depth) && y !in visited && cur in depth && v.Via(e, cur, y)
    ensures ParentsOk(v, seed, visited[y := Visit(Some(cur), Some(e))], depth[y := depth[cur] + 1])
  {
    forall x | x in visited && x != seed
      ensures ParentOk(v, visited[y := Visit(Some(cur), Some(e))], depth[y := depth[cur] + 1], x)
    {
      assert ParentOk(v, visited, depth, x);
    }
  }

  /** What a successful scan leaves behind. */
  ghost predicate ReachedTarget(v: View, seed: Id, to: Id, max: nat, visited: map<Id, Visit>, depth: map<Id, nat>) {
    && ParentsOk(v, seed, visited, depth)
    && to in visited && IsDistance(v, seed, to, depth[to]) && depth[to] <= max
    && AllWithin(v, seed, max, visited)
  }

  ghost predicate AllWithin(v: View, seed: Id, max: nat, visited: map<Id, Visit>) {
    forall x | x in visited :: Within(v, seed, x, max)
  }

  lemma Reached(v: View, seed: Id, to: Id, max: nat, cur: Id, d: nat, visited: map<Id, Visit>, queue: seq<Pending>,
                depth: map<Id, nat>)
    requires Scanning(v, seed, to, max, cur, d, visited, queue, depth) && to in visited
    ensures ReachedTarget(v, seed, to, max, visited, depth)
  {
    forall x | x in visited ensures Within(v, seed, x, max) {
      assert IsDistance(v, seed, x, depth[x]) && depth[x] <= max;
    }
  }

  /** One of the two loops over the edges of cur. */
  method Scan(v: View, seed: Id, to: Id, max: nat, cur: Id, d: nat, edges: seq<Edge>, outward: bool,
              visited0: map<Id, Visit>, queue0: seq<Pending>, ghost depth0: map<Id, nat>)
    returns (visited: map<Id, Visit>, queue: seq<Pending>, found: bool, ghost depth: map<Id, nat>)
    requires Scanning(v, seed, to, max, cur, d, visited0, queue0, depth0) && to !in visited0
    requires forall i | 0 <= i < |edges| :: v.Via(edges[i], cur, Far(edges[i], outward))
    ensures visited0.Keys <= visited.Keys
    ensures found ==> ReachedTarget(v, seed, to, max, visited, depth)
    ensures !found ==> to !in visited && Scanning(v, seed, to, max, cur, d, visited, queue, depth)
    ensures !found ==> |queue| - |queue0| == |visited| - |visited0| >= 0
    ensures !found ==> Fars(edges, outward) <= visited.Keys
  {
    hide Scanning, ReachedTarget;
    visited, queue, found, depth := visited0, queue0, false, depth0;
    for i := 0 to |edges|
      invariant !found && to !in visited
      invariant visited0.Keys <= visited.Keys && |queue| - |queue0| == |visited| - |visited0| >= 0
      invariant Scanning(v, seed, to, max, cur, d, visited, queue, depth)
      invariant Fars(edges[..i], outward) <= visited.Keys
    {
      assert edges[..i + 1][..i] == edges[..i];
      var neighbor := Far(edges[i], outward);
      if neighbor !in visited {
        Meet(v, seed, to, max, cur, d, visited, queue, depth, edges[i], neighbor);
        visited := visited[neighbor := Visit(Some(cur), Some(edges[i]))];
        depth := depth[neighbor := d + 1];
        if neighbor == to {
          Reached(v, seed, to, max, cur, d, visited, queue + [Pending(neighbor, d + 1)], depth);
          found := true;
          break;
        }
        queue := queue + [Pending(neighbor, d + 1)];
      }
    }
    assert !found ==> edges[..|edges|] == edges;
  }

  /** One round of the search: the edges out of cur, then those into it. */
  method Expand(v: View, seed: Id, to: Id, max: nat, cur: Id, d: nat,
                visited0: map<Id, Visit>, queue0: seq<Pending>, ghost depth0: map<Id, nat>)
    returns (visited: map<Id, Visit>, queue: seq<Pending>, found: bool, ghost depth: map<Id, nat>)
    requires Scanning(v, seed, to, max, cur, d, visited0, queue0, depth0) && to !in visited0
    ensures visited0.Keys <= visited.Keys
    ensures !found ==> |queue| - |queue0| == |visited| - |visited0| >= 0
    ensures found ==> ReachedTarget(v, seed, to, max, visited, depth)
    ensures !found ==> Searches(v, seed, to, max, visited, queue, depth, d)
  {
    assert v.Expands(cur);
    hide Scanning, ReachedTarget, Searches;
    EdgesLead(v, cur);
    visited, queue, found, depth := Scan(v, seed, to, max, cur, d, v.Out(cur), true, visited0, queue0, depth0);
    if found { return; }
    visited, queue, found, depth := Scan(v, seed, to, max, cur, d, v.In(cur), false, visited, queue, depth);
    if found { return; }
    Close(v, seed, to, max, cur, d, visited, queue, depth);
  }

  /** Once all neighbours of cur have been met, the round is over. */
  lemma Close(v: View, seed: Id, to: Id, max: nat, cur: Id, d: nat, visited: map<Id, Visit>, queue: seq<Pending>, depth: map<Id, nat>)
    requires Scanning(v, seed, to, max, cur, d, visited, queue, depth) && to !in visited
    requires Fars(v.Out(cur), true) <= visited.Keys && Fars(v.In(cur), false) <= visited.Keys
    ensures Searches(v, seed, to, max, visited, queue, depth, d)
  {
    assert forall e | e in v.Out(cur) :: Far(e, true) in visited.Keys;
    assert forall e | e in v.In(cur) :: Far(e, false) in visited.Keys;
    Finish(v, seed, max, depth, Waiting(queue) + {cur}, d, cur);
    assert Waiting(queue) + {cur} - {cur} == Waiting(queue);
  }

  /** What holds between two rounds. */
  ghost predicate Searches(v: View, seed: Id, to: Id, max: nat, visited: map<Id, Visit>, queue: seq<Pending>,
                           depth: map<Id, nat>, low: nat) {
    && Searching(v, seed, max, depth, Waiting(queue), low) && QueueOk(queue, depth, low)
    && ParentsOk(v, seed, visited, depth) && to !in visited
  }

  lemma Pop(v: View, seed: Id, to: Id, max: nat, visited: map<Id, Visit>, queue: seq<Pending>, depth: map<Id, nat>, low: nat)
    requires queue != [] && seed != to && Searches(v, seed, to, max, visited, queue, depth, low)
    ensures var Pending(cur, d) := queue[0];
            if d < max && v.Expands(cur) then Scanning(v, seed, to, max, cur, d, visited, queue[1..], depth)
            else Searches(v, seed, to, max, visited, queue[1..], depth, d)
  {
    PopKeepsQueue(v, seed, max, depth, queue, low);
    var Pending(cur, d) := queue[0];
    assert Waiting(queue) == Waiting(queue[1..]) + {cur} && Waiting(queue) - {cur} == Waiting(queue[1..]);
    if !(d < max && v.Expands(cur)) {
      Finish(v, seed, max, depth, Waiting(queue), d, cur);
    }
  }

  lemma FewMet(v: View, seed: Id, to: Id, max: nat, visited: map<Id, Visit>, queue: seq<Pending>, depth: map<Id, nat>, low: nat)
    requires Searches(v, seed, to, max, visited, queue, depth, low)
    ensures |visited| <= |Universe(v, seed)|
  {
    SubsetIsSmaller(visited.Keys, Universe(v, seed));
  }

  /** Once the queue is empty, exactly the ids within reach have been met. */
  lemma Exhausted(v: View, seed: Id, to: Id, max: nat, visited: map<Id, Visit>, depth: map<Id, nat>, low: nat, x: Id)
    requires Searches(v, seed, to, max, visited, [], depth, low)
    ensures x in visited <==> Within(v, seed, x, max)
  {
    assert x in visited ==> IsDistance(v, seed, x, depth[x]) && depth[x] <= max;
    if m: nat :| m <= max && Hops(v, seed, x, m) {
      Settled(v, seed, max, depth, {}, low, x, m);
    }
  }

  /** The search loop. Every round meets a new id or shortens the queue. */
  method Search(v: View, seed: Id, to: Id, max: nat)
    returns (visited: map<Id, Visit>, found: bool, ghost depth: map<Id, nat>)
    requires seed != to && !v.strict
    ensures found ==> ReachedTarget(v, seed, to, max, visited, depth)
    ensures !found ==> to !in visited && forall x :: x in visited <==> Within(v, seed, x, max)
  {
    visited := map[seed := Visit(None, None)];
    var queue := [Pending(seed, 0)];
    found := false;
    depth := map[seed := 0];
    ghost var low: nat := 0;
    assert Waiting(queue) == {seed} by { assert queue[0].id == seed; }
    SearchStarts(v, seed, max);
    assert Searches(v, seed, to, max, visited, queue, depth, low);
    hide Searches, Scanning, ReachedTarget;
    while queue != []
      invariant Searches(v, seed, to, max, visited, queue, depth, low) && !found
      decreases 2 * |Universe(v, seed)| - 2 * |visited| + |queue|
    {
      FewMet(v, seed, to, max, visited, queue, depth, low);
      Pop(v, seed, to, max, visited, queue, depth, low);
      var Pending(cur, d) := queue[0];
      queue := queue[1..];
      low := d;
      if d >= max || !v.Expands(cur) {
        continue;
      }
      visited, queue, found, depth := Expand(v, seed, to, max, cur, d, visited, queue, depth);
      if found { return; }
    }
    assert queue == [];
    forall x ensures x in visited <==> Within(v, seed, x, max) {
      Exhausted(v, seed, to, max, visited, depth, low, x);
    }
  }

  function Reversed<T>(s: seq<T>): seq<T> {
    seq(|s|, i requires 0 <= i < |s| => s[|s| - 1 - i])
  }

  /** Follow parents from the target to the source; depths shrink, so the walk ends. */
  method WalkBack(v: View, seed: Id, to: Id, visited: map<Id, Visit>, ghost depth: map<Id, nat>) returns (legs: seq<Leg>)
    requires ParentsOk(v, seed, visited, depth) && to in visited
    ensures IsPath(v, seed, to, legs) && |legs| == depth[to] + 1
  {
    var back: seq<Leg> := [];
    var current := to;
    while current in visited
      invariant current in depth && |back| == depth[to] - depth[current]
      invariant if |back| == 0 then current == to else back[0].id == to
      invariant forall i | 0 <= i < |back| :: back[i].edge.Some?
      invariant |back| > 0 ==> v.Via(back[|back| - 1].edge.value, current, back[|back| - 1].id)
      invariant forall i | 0 < i < |back| :: v.Via(back[i - 1].edge.value, back[i].id, back[i - 1].id)
      decreases depth[current]
    {
      assert current != seed ==> ParentOk(v, visited, depth, current);
      back := back + [Leg(current, visited[current].edge)];
      match visited[current].parent {
        case Some(p) => current := p;
        case None => break;
      }
    }
    legs := Reversed(back);
  }

  method ResolveSteps(v: View, legs: seq<Leg>) returns (steps: seq<PathStep>)
    ensures steps == Resolve(v, legs)
  {
    steps := [];
    for i := 0 to |legs|
      invariant steps == Resolve(v, legs[..i])
    {
      assert legs[..i + 1][..i] == legs[..i];
      var id := legs[i].id;
      if id in v.g.entities {
        var entity := v.g.entities[id];
        if v.q.user.Some? && entity.user != v.q.user.value {
          continue;
        }
        steps := steps + [PathStep(entity, legs[i].edge, i)];
      }
    }
    assert legs[..|legs|] == legs;
  }

  /**
   What a found path reports: a walk that no walk is shorter than, the ids of which are listed in order as far as
   their entities load, each with its place and the edge that leads to it.
   */
  ghost predicate ReportsShortestWalk(g: StoreData, user: Option<Id>, validOnly: bool, from: Id, to: Id, max: nat, steps: seq<PathStep>) {
    exists ids, edges :: IsWalkFrom(g, user, validOnly, false, from, to, ids, edges) && |edges| <= max
                         && Nearest(g, user, validOnly, false, from, to, |edges|) && Lists(g, user, ids, edges, steps)
  }

  ghost predicate Lists(g: StoreData, user: Option<Id>, ids: seq<Id>, edges: seq<Edge>, steps: seq<PathStep>)
    requires |ids| == |edges| + 1
  {
    && (forall k | 0 <= k < |steps| :: IsPlace(g, user, ids, edges, steps[k]))
    && (forall j, k | 0 <= j < k < |steps| :: steps[j].depth < steps[k].depth)
    && (forall p | 0 <= p < |ids| && Loads(g, user, ids[p]) :: IsListed(steps, p))
  }

  /** The step is that of its place on the walk. */
  ghost predicate IsPlace(g: StoreData, user: Option<Id>, ids: seq<Id>, edges: seq<Edge>, step: PathStep)
    requires |ids| == |edges| + 1
  {
    var p := step.depth;
    && p < |ids| && Loads(g, user, ids[p]) && step.entity == g.entities[ids[p]]
    && step.edge == if p == 0 then None else Some(edges[p - 1])
  }

  ghost predicate IsListed(steps: seq<PathStep>, p: nat) {
    exists k :: 0 <= k < |steps| && steps[k].depth == p
  }

  function IdsOf(legs: seq<Leg>): seq<Id> {
    seq(|legs|, i requires 0 <= i < |legs| => legs[i].id)
  }

  function EdgesOf(legs: seq<Leg>): seq<Edge>
    requires |legs| > 0 && forall i | 0 < i < |legs| :: legs[i].edge.Some?
  {
    seq(|legs| - 1, i requires 0 <= i < |legs| - 1 => legs[i + 1].edge.value)
  }

  lemma OneIsListed(v: View, leg: Leg)
    requires leg.edge.None?
    ensures Lists(v.g, v.q.user, [leg.id], [], Resolve(v, [leg]))
  {
    assert [leg][..0] == [] && Resolve(v, []) == [];
    var steps := Resolve(v, [leg]);
    assert steps == if v.Resolves(leg.id) then [PathStep(v.g.entities[leg.id], None, 0)] else [];
    if Loads(v.g, v.q.user, leg.id) {
      assert steps[0].depth == 0 && IsListed(steps, 0);
    }
  }

  /** A resolved path lists the legs that load. */
  lemma {:induction false} ResolvedIsListed(v: View, legs: seq<Leg>)
    requires |legs| > 0 && legs[0].edge.None? && forall i | 0 < i < |legs| :: legs[i].edge.Some?
    ensures Lists(v.g, v.q.user, IdsOf(legs), EdgesOf(legs), Resolve(v, legs))
  {
    hide Lists;
    var k := |legs| - 1;
    if k > 0 {
      var init := legs[..k];
      ResolvedIsListed(v, init);
      assert IdsOf(init) == IdsOf(legs)[..k] && EdgesOf(init) == EdgesOf(legs)[..k - 1];
      ListsLonger(v.g, v.q.user, IdsOf(legs), EdgesOf(legs), Resolve(v, init), Resolve(v, legs));
    } else {
      assert legs == [legs[0]] && IdsOf(legs) == [legs[0].id] && EdgesOf(legs) == [];
      OneIsListed(v, legs[0]);
    }
  }

  lemma ListsLonger(g: StoreData, user: Option<Id>, ids: seq<Id>, edges: seq<Edge>, before: seq<PathStep>, steps: seq<PathStep>)
    requires |ids| == |edges| + 1 && |edges| > 0
    requires Lists(g, user, ids[..|edges|], edges[..|edges| - 1], before)
    requires var k := |edges|;
             steps == before + if Loads(g, user, ids[k]) then [PathStep(g.entities[ids[k]], Some(edges[k - 1]), k)] else []
    ensures Lists(g, user, ids, edges, steps)
  {
    hide Loads, IsListed;
    var k := |edges|;
    forall m | 0 <= m < |steps| ensures IsPlace(g, user, ids, edges, steps[m]) {
      if m < |before| { assert IsPlace(g, user, ids[..k], edges[..k - 1], before[m]); }
    }
    forall i, j | 0 <= i < j < |steps| ensures steps[i].depth < steps[j].depth {
      assert IsPlace(g, user, ids[..k], edges[..k - 1], before[i]);
    }
    hide IsPlace;
    forall p | 0 <= p < |ids| && Loads(g, user, ids[p]) ensures IsListed(steps, p) {
      ListedLonger(before, steps, p);
      if p < k { assert Loads(g, user, ids[..k][p]); }
    }
  }

  lemma ListedLonger(before: seq<PathStep>, steps: seq<PathStep>, p: nat)
    requires before <= steps
    ensures IsListed(before, p) ==> IsListed(steps, p)
    ensures |steps| > |before| && steps[|before|].depth == p ==> IsListed(steps, p)
  {
    if k :| 0 <= k < |before| && before[k].depth == p {
      assert steps[k].depth == p;
    }
  }

  lemma LegsAreAWalk(v: View, a: Id, b: Id, legs: seq<Leg>)
    requires IsPath(v, a, b, legs)
    ensures IsWalkFrom(v.g, v.q.user, v.q.validOnly, v.strict, a, b, IdsOf(legs), EdgesOf(legs))
  {
    forall i | 0 < i < |legs|
      ensures IsHop(v.g, v.q.user, v.q.validOnly, v.strict, legs[i].edge.value, legs[i - 1].id, legs[i].id)
    {
      ViaIsHop(v, legs[i].edge.value, legs[i - 1].id, legs[i].id);
    }
    hide IsHop, View.Via;
  }

  lemma ShortestIsReported(v: View, a: Id, b: Id, legs: seq<Leg>, max: nat)
    requires !v.strict && IsShortest(v, a, b, legs) && |legs| <= max + 1
    ensures ReportsShortestWalk(v.g, v.q.user, v.q.validOnly, a, b, max, Resolve(v, legs))
  {
    hide IsWalkFrom, Nearest, Lists, View.Via, Resolve;
    LegsAreAWalk(v, a, b, legs);
    ShortestIsDistance(v, a, b, legs);
    DistancesAreNearest(v, a, b, |legs| - 1);
    ResolvedIsListed(v, legs);
  }

  method FindShortestPath(g: Store, q: Query, from: Id, to: Id, maxDepth: nat) returns (r: Found)
    ensures var v := View(g, q, false);
            if from == to then
              && (r.found <==> from in g.entities && (q.user.Some? ==> g.entities[from].user == q.user.value))
              && r.steps == if r.found then [PathStep(g.entities[from], None, 0)] else []
            else
              && (r.found <==> ReachesWithin(g, q.user, q.validOnly, false, from, to, maxDepth))
              && (r.found ==> ReportsShortestWalk(g, q.user, q.validOnly, from, to, maxDepth, r.steps))
              && (r.found ==> exists legs :: IsShortest(v, from, to, legs) && |legs| <= maxDepth + 1 && r.steps == Resolve(v, legs))
              && (!r.found ==> r.steps == [])
              && (exists met: set<Id> ::
                    && r.entitiesVisited == |met|
                    && (forall x | x in met :: Within(v, from, x, maxDepth))
                    && (!r.found ==> forall x | Within(v, from, x, maxDepth) :: x in met))
  {
    var v := View(g, q, false);
    if from == to {
      if from !in g.entities || (q.user.Some? && g.entities[from].user != q.user.value) {
        return Found([], 0, false);
      }
      return Found([PathStep(g.entities[from], None, 0)], 1, true);
    }
    var visited, found, depth := Search(v, from, to, maxDepth);
    DistancesAreNearest(v, from, to, maxDepth);
    assert forall x | x in visited.Keys :: Within(v, from, x, maxDepth);
    if !found {
      assert forall x | Within(v, from, x, maxDepth) :: x in visited.Keys;
      return Found([], |visited.Keys|, false);
    }
    var legs := WalkBack(v, from, to, visited, depth);
    DistancePathIsShortest(v, from, to, legs);
    ShortestIsReported(v, from, to, legs, maxDepth);
    var steps := ResolveSteps(v, legs);
    r := Found(steps, |visited.Keys|, true);
  }

  // ---------------------------------------------------------------- when no step is lost

  lemma {:induction false} AllLegsResolve(v: View, legs: seq<Leg>)
    requires forall i | 0 <= i < |legs| :: v.Resolves(legs[i].id)
    ensures |Resolve(v, legs)| == |legs|
    ensures forall i | 0 <= i < |legs| :: v.Resolves(legs[i].id) && Resolve(v, legs)[i] == PathStep(v.g.entities[legs[i].id], legs[i].edge, i)
  {
    if legs != [] {
      AllLegsResolve(v, legs[..|legs| - 1]);
    }
  }

  lemma {:induction false} LostLegsShow(v: View, legs: seq<Leg>)
    ensures |Resolve(v, legs)| <= |legs|
    ensures |Resolve(v, legs)| == |legs| ==> forall i | 0 <= i < |legs| :: v.Resolves(legs[i].id)
  {
    if legs != [] {
      LostLegsShow(v, legs[..|legs| - 1]);
    }
  }

  /** Steps that lead from a to b, each recorded edge joining its two neighbours. */
  ghost predicate IsJourney(v: View, a: Id, b: Id, steps: seq<PathStep>) {
    && |steps| > 0
    && steps[0].entity.id == a && steps[0].edge.None? && steps[|steps| - 1].entity.id == b
    && (forall i | 0 <= i < |steps| :: steps[i].depth == i && v.Resolves(steps[i].entity.id))
    && (forall i | 0 < i < |steps| ::
          steps[i].edge.Some? && v.Via(steps[i].edge.value, steps[i - 1].entity.id, steps[i].entity.id))
  }

  /** Every admitted edge that a search can go along, self-loops aside, joins two ids that load. */
  ghost predicate EndsLoad(v: View) {
    forall e | e in v.g.edges && v.q.Admits(e) && e.source != e.target && (v.Expands(e.source) || v.Expands(e.target)) ::
      v.Resolves(e.source) && v.Resolves(e.target)
  }

  lemma IntegrityLoadsEnds(v: View)
    requires Integrity(v.g)
    ensures EndsLoad(v)
  {
  }

  /** A shortest path does not stay where it is. */
  lemma ShortestMovesOn(v: View, a: Id, b: Id, legs: seq<Leg>, i: nat)
    requires IsShortest(v, a, b, legs) && 0 < i < |legs|
    ensures legs[i - 1].id != legs[i].id
  {
    if legs[i - 1].id == legs[i].id {
      var shorter := legs[..i] + legs[i + 1..];
      forall k | 0 < k < |shorter|
        ensures shorter[k].edge.Some? && v.Via(shorter[k].edge.value, shorter[k - 1].id, shorter[k].id)
      {
        var m := if k < i then k else k + 1;
        assert shorter[k] == legs[m] && shorter[k - 1].id == legs[m - 1].id;
      }
      assert IsPath(v, a, b, shorter);
    }
  }

  lemma LegsResolve(v: View, a: Id, b: Id, legs: seq<Leg>, i: nat)
    requires EndsLoad(v) && a != b && IsShortest(v, a, b, legs) && i < |legs|
    ensures v.Resolves(legs[i].id)
  {
    var k := if i == 0 then 1 else i;
    ShortestMovesOn(v, a, b, legs, k);
    assert v.Via(legs[k].edge.value, legs[k - 1].id, legs[k].id);
  }

  /** No shortest path between two ids loses a step. */
  ghost predicate KeepsSteps(v: View) {
    forall a, b, legs: seq<Leg> | a != b && IsShortest(v, a, b, legs) :: |Resolve(v, legs)| == |legs|
  }

  /** No step is ever lost exactly if the edges that a search can go along join ids that load. */
  lemma KeepsStepsIff(v: View)
    ensures KeepsSteps(v) <==> EndsLoad(v)
  {
    if EndsLoad(v) {
      forall a, b, legs: seq<Leg> | a != b && IsShortest(v, a, b, legs) ensures |Resolve(v, legs)| == |legs| {
        forall i | 0 <= i < |legs| ensures v.Resolves(legs[i].id) {
          LegsResolve(v, a, b, legs, i);
        }
        AllLegsResolve(v, legs);
      }
    }
    if KeepsSteps(v) {
      forall e | e in v.g.edges && v.q.Admits(e) && e.source != e.target && (v.Expands(e.source) || v.Expands(e.target))
        ensures v.Resolves(e.source) && v.Resolves(e.target)
      {
        if v.Expands(e.source) {
          OneHop(v, e, e.source, e.target);
        } else {
          OneHop(v, e, e.target, e.source);
        }
      }
    }
  }

  lemma OneHop(v: View, e: Edge, a: Id, b: Id)
    requires KeepsSteps(v) && v.Via(e, a, b) && a != b
    ensures v.Resolves(a) && v.Resolves(b)
  {
    var legs := [Leg(a, None), Leg(b, Some(e))];
    assert IsShortest(v, a, b, legs);
    LostLegsShow(v, legs);
    assert v.Resolves(legs[0].id) && v.Resolves(legs[1].id);
  }

  /** If the ends of edges load, as integrity ensures, the reported steps are the whole shortest path. */
  lemma StepsAreTheShortestPath(v: View, a: Id, b: Id, legs: seq<Leg>)
    requires EndsLoad(v) && a != b && IsShortest(v, a, b, legs)
    ensures IsJourney(v, a, b, Resolve(v, legs)) && IsDistance(v, a, b, |Resolve(v, legs)| - 1)
  {
    forall i | 0 <= i < |legs| ensures v.Resolves(legs[i].id) {
      LegsResolve(v, a, b, legs, i);
    }
    AllLegsResolve(v, legs);
    ShortestIsDistance(v, a, b, legs);
  }

  lemma ShortestIsDistance(v: View, a: Id, b: Id, legs: seq<Leg>)
    requires IsShortest(v, a, b, legs)
    ensures IsDistance(v, a, b, |legs| - 1)
  {
    PathHops(v, a, b, legs);
    forall m: nat | m < |legs| - 1 ensures !Hops(v, a, b, m) {
      if Hops(v, a, b, m) {
        var shorter := HopsPath(v, a, b, m);
      }
    }
  }

  /** Without integrity a path can be found and yet lose steps: here both endpoints are unknown ids. */
  lemma DanglingEdgeLosesSteps(e: Edge)
    requires e.source != e.target && e.IsValid()
    ensures var v := View(StoreData(map[], [e]), Query(None, true), false);
            && Within(v, e.source, e.target, 1)
            && forall legs | IsPath(v, e.source, e.target, legs) :: Resolve(v, legs) == []
  {
    var v := View(StoreData(map[], [e]), Query(None, true), false);
    assert v.Via(e, e.source, e.target);
    assert v.Link(e.source, e.target);
    assert Hops(v, e.source, e.source, 0);
    assert Hops(v, e.source, e.target, 1);
    forall legs | IsPath(v, e.source, e.target, legs) ensures Resolve(v, legs) == [] {
      NothingResolves(v, legs);
    }
  }

  lemma {:induction false} NothingResolves(v: View, legs: seq<Leg>)
    requires v.g.entities == map[]
    ensures Resolve(v, legs) == []
  {
    if legs != [] {
      NothingResolves(v, legs[..|legs| - 1]);
    }
  }
}
