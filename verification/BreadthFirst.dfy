/** What a query sees of the graph, hop distance in that view, and the invariant of breadth-first search. */
module BreadthFirst {
  import opened Wrappers
  import opened KnowledgeGraph
  import opened StoredWalks

  /** `user` restricts to one user's entities and edges; `validOnly` to edges that are still valid. */
  datatype Query = Query(user: Option<Id>, validOnly: bool) {
    predicate Admits(e: Edge) {
      (user.None? || e.user == user.value) && (!validOnly || e.IsValid())
    }
  }

  /**
   The graph as one search walks it. Extraction (`strict`) goes on only from entities it can load;
   the path search goes on from any id except one that loads as another user's entity.
   */
  datatype View = View(g: Store, q: Query, strict: bool) {
    predicate Resolves(a: Id) {
      a in g.entities && (q.user.None? || g.entities[a].user == q.user.value)
    }

    predicate Expands(a: Id) {
      if strict then Resolves(a) else a !in g.entities || Resolves(a)
    }

    /** The search can go from a to b along e, in either direction of e. */
    ghost predicate Via(e: Edge, a: Id, b: Id) {
      Expands(a) && e in g.edges && q.Admits(e) && e.Joins(a, b)
    }

    ghost predicate Link(a: Id, b: Id) {
      exists e :: Via(e, a, b)
    }

    function Out(a: Id): seq<Edge> {
      Select(Outgoing(g, a), (e: Edge) => q.Admits(e))
    }

    function In(a: Id): seq<Edge> {
      Select(Incoming(g, a), (e: Edge) => q.Admits(e))
    }
  }

  /** b can be reached from a in exactly n hops. */
  ghost predicate Hops(v: View, a: Id, b: Id, n: nat)
    decreases n
  {
    if n == 0 then a == b else exists c :: Hops(v, a, c, n - 1) && v.Link(c, b)
  }

  ghost predicate IsDistance(v: View, a: Id, b: Id, n: nat) {
    Hops(v, a, b, n) && forall m: nat | m < n :: !Hops(v, a, b, m)
  }

  ghost predicate Within(v: View, a: Id, b: Id, n: nat) {
    exists m: nat :: m <= n && Hops(v, a, b, m)
  }

  lemma DistanceIsUnique(v: View, a: Id, b: Id, m: nat, n: nat)
    requires IsDistance(v, a, b, m) && IsDistance(v, a, b, n)
    ensures m == n
  {
  }

  lemma {:induction false} DistanceExists(v: View, a: Id, b: Id, n: nat) returns (d: nat)
    requires Hops(v, a, b, n)
    ensures d <= n && IsDistance(v, a, b, d)
  {
    if m: nat :| m < n && Hops(v, a, b, m) {
      d := DistanceExists(v, a, b, m);
    } else {
      d := n;
    }
  }

  // ---------------------------------------------------------------- what a view means

  lemma ViaIsHop(v: View, e: Edge, a: Id, b: Id)
    ensures v.Via(e, a, b) <==> IsHop(v.g, v.q.user, v.q.validOnly, v.strict, e, a, b)
  {
  }

  lemma {:induction false} WalkHasHops(v: View, a: Id, b: Id, ids: seq<Id>, edges: seq<Edge>)
    requires IsWalkFrom(v.g, v.q.user, v.q.validOnly, v.strict, a, b, ids, edges)
    ensures Hops(v, a, b, |edges|)
    decreases |edges|
  {
    if edges != [] {
      var k := |edges| - 1;
      hide IsHop, View.Via;
      WalkHasHops(v, a, ids[k], ids[..k + 1], edges[..k]);
      ViaIsHop(v, edges[k], ids[k], b);
      assert v.Link(ids[k], b);
    }
  }

  lemma {:induction false} HopsHaveWalk(v: View, a: Id, b: Id, n: nat) returns (ids: seq<Id>, edges: seq<Edge>)
    requires Hops(v, a, b, n)
    ensures IsWalkFrom(v.g, v.q.user, v.q.validOnly, v.strict, a, b, ids, edges) && |edges| == n
    decreases n
  {
    hide IsHop, View.Via;
    if n == 0 {
      ids, edges := [a], [];
    } else {
      var c :| Hops(v, a, c, n - 1) && v.Link(c, b);
      var e :| v.Via(e, c, b);
      ids, edges := HopsHaveWalk(v, a, c, n - 1);
      ViaIsHop(v, e, c, b);
      ids, edges := ids + [b], edges + [e];
    }
  }

  /** Hops of a view are walks in the stored graph. */
  lemma HopsAreWalks(v: View, a: Id, b: Id, n: nat)
    ensures Hops(v, a, b, n) <==> Reaches(v.g, v.q.user, v.q.validOnly, v.strict, a, b, n)
  {
    hide IsWalkFrom, Hops;
    if Hops(v, a, b, n) {
      var ids, edges := HopsHaveWalk(v, a, b, n);
    }
    if Reaches(v.g, v.q.user, v.q.validOnly, v.strict, a, b, n) {
      var ids, edges :| IsWalkFrom(v.g, v.q.user, v.q.validOnly, v.strict, a, b, ids, edges) && |edges| == n;
      WalkHasHops(v, a, b, ids, edges);
    }
  }

  lemma DistancesAreNearest(v: View, a: Id, b: Id, n: nat)
    ensures IsDistance(v, a, b, n) <==> Nearest(v.g, v.q.user, v.q.validOnly, v.strict, a, b, n)
    ensures Within(v, a, b, n) <==> ReachesWithin(v.g, v.q.user, v.q.validOnly, v.strict, a, b, n)
  {
    forall m: nat ensures Hops(v, a, b, m) <==> Reaches(v.g, v.q.user, v.q.validOnly, v.strict, a, b, m) {
      HopsAreWalks(v, a, b, m);
    }
    hide Hops, Reaches;
  }

  lemma {:induction false} SameLinksSameHops(v: View, w: View, a: Id, b: Id, n: nat)
    requires forall x, y :: v.Link(x, y) <==> w.Link(x, y)
    ensures Hops(v, a, b, n) <==> Hops(w, a, b, n)
    decreases n
  {
    hide View.Link;
    if n > 0 {
      if Hops(v, a, b, n) {
        var c :| Hops(v, a, c, n - 1) && v.Link(c, b);
        SameLinksSameHops(v, w, a, c, n - 1);
        assert w.Link(c, b);
      }
      if Hops(w, a, b, n) {
        var c :| Hops(w, a, c, n - 1) && w.Link(c, b);
        SameLinksSameHops(v, w, a, c, n - 1);
        assert v.Link(c, b);
      }
    }
  }

  /** The graph without its invalidated edges. */
  function WithoutInvalid(g: Store): Store {
    g.(edges := Select(g.edges, (e: Edge) => e.invalidAt.None?))
  }

  /** Searching for valid edges only is searching the graph without its invalidated edges. */
  lemma ValidOnlyIsDeletion(g: Store, user: Option<Id>, strict: bool, a: Id, b: Id, n: nat)
    ensures Hops(View(g, Query(user, true), strict), a, b, n) <==>
            Hops(View(WithoutInvalid(g), Query(user, false), strict), a, b, n)
  {
    var v, w := View(g, Query(user, true), strict), View(WithoutInvalid(g), Query(user, false), strict);
    forall x, y ensures v.Link(x, y) <==> w.Link(x, y) {
      forall e ensures v.Via(e, x, y) <==> w.Via(e, x, y) {
        ViaIsHop(v, e, x, y);
        ViaIsHop(w, e, x, y);
      }
      hide View.Via;
    }
    SameLinksSameHops(v, w, a, b, n);
  }

  /** The entities and the edges of one user. */
  function OfUser(g: Store, u: Id): Store {
    StoreData(map id | id in g.entities && g.entities[id].user == u :: g.entities[id], Select(g.edges, (e: Edge) => e.user == u))
  }

  /**
   Searching for one user is searching the part of the graph that is that user's. For the path search, which
   does not tell a deleted entity from an unknown id, this takes that the user's edges end at no other user's entity.
   */
  lemma OneUserIsDeletion(g: Store, u: Id, validOnly: bool, strict: bool, a: Id, b: Id, n: nat)
    requires strict || forall e | e in g.edges && e.user == u ::
               && (e.source in g.entities ==> g.entities[e.source].user == u)
               && (e.target in g.entities ==> g.entities[e.target].user == u)
    ensures Hops(View(g, Query(Some(u), validOnly), strict), a, b, n) <==>
            Hops(View(OfUser(g, u), Query(None, validOnly), strict), a, b, n)
  {
    var v, w := View(g, Query(Some(u), validOnly), strict), View(OfUser(g, u), Query(None, validOnly), strict);
    forall x, y ensures v.Link(x, y) <==> w.Link(x, y) {
      forall e ensures v.Via(e, x, y) <==> w.Via(e, x, y) {
        ViaIsHop(v, e, x, y);
        ViaIsHop(w, e, x, y);
      }
      hide View.Via;
    }
    SameLinksSameHops(v, w, a, b, n);
  }

  // ---------------------------------------------------------------- the search

  /** Every id that a search can meet. */
  function Universe(v: View, seed: Id): set<Id> {
    {seed} + (set e | e in v.g.edges :: e.source) + (set e | e in v.g.edges :: e.target)
  }

  lemma {:induction false} SubsetIsSmaller(a: set<Id>, b: set<Id>)
    requires a <= b
    ensures |a| <= |b|
  {
    if a != {} {
      var x :| x in a;
      SubsetIsSmaller(a - {x}, b - {x});
    }
  }

  /** The end of e that is looked at: its target when following it outward, otherwise its source. */
  function Far(e: Edge, outward: bool): Id {
    if outward then e.target else e.source
  }

  function Fars(edges: seq<Edge>, outward: bool): (r: set<Id>)
    ensures forall e | e in edges :: Far(e, outward) in r
  {
    if edges == [] then {}
    else
      var k := |edges| - 1;
      assert edges == edges[..k] + [edges[k]];
      Fars(edges[..k], outward) + {Far(edges[k], outward)}
  }

  /** The edges of an id that is expanded lead the search on. */
  lemma EdgesLead(v: View, cur: Id)
    requires v.Expands(cur)
    ensures forall i | 0 <= i < |v.Out(cur)| :: v.Via(v.Out(cur)[i], cur, Far(v.Out(cur)[i], true))
    ensures forall i | 0 <= i < |v.In(cur)| :: v.Via(v.In(cur)[i], cur, Far(v.In(cur)[i], false))
  {
    assert forall i | 0 <= i < |v.Out(cur)| :: v.Out(cur)[i] in v.Out(cur);
    assert forall i | 0 <= i < |v.In(cur)| :: v.In(cur)[i] in v.In(cur);
  }

  /**
   The state of a search: `depth` holds the ids met so far, `open` those not yet expanded.
   Depths are true distances, and closed ids have passed the search on to all their neighbours.
   */
  ghost predicate Searching(v: View, seed: Id, max: nat, depth: map<Id, nat>, open: set<Id>, low: nat) {
    && seed in depth
    && depth.Keys <= Universe(v, seed)
    && open <= depth.Keys
    && (forall x {:trigger IsDistance(v, seed, x, depth[x])} | x in depth :: IsDistance(v, seed, x, depth[x]))
    && (forall x {:trigger depth[x]} | x in depth :: depth[x] <= max && depth[x] <= low + 1)
    && (forall x {:trigger depth[x]} | x in open :: low <= depth[x])
    && (forall x {:trigger depth[x]} | x in depth && x !in open :: depth[x] <= low)
    && (forall x {:trigger PassedOn(v, max, depth, x)} | x in depth && x !in open :: PassedOn(v, max, depth, x))
  }

  ghost predicate PassedOn(v: View, max: nat, depth: map<Id, nat>, x: Id)
    requires x in depth
  {
    depth[x] < max ==> forall y | v.Link(x, y) :: y in depth && depth[y] <= depth[x] + 1
  }

  lemma SearchStarts(v: View, seed: Id, max: nat)
    ensures Searching(v, seed, max, map[seed := 0], {seed}, 0)
  {
    assert Hops(v, seed, seed, 0);
  }

  /** Whatever lies within the open layer has been met already. */
  lemma {:induction false} Settled(v: View, seed: Id, max: nat, depth: map<Id, nat>, open: set<Id>, low: nat, y: Id, m: nat)
    requires Searching(v, seed, max, depth, open, low)
    requires m <= max && forall x | x in open :: m <= depth[x]
    requires Hops(v, seed, y, m)
    ensures y in depth && depth[y] <= m
    decreases m
  {
    if m == 0 {
      assert Hops(v, seed, seed, 0) && IsDistance(v, seed, seed, depth[seed]);
    } else {
      var c :| Hops(v, seed, c, m - 1) && v.Link(c, y);
      Settled(v, seed, max, depth, open, low, c, m - 1);
      assert c !in open && PassedOn(v, max, depth, c);
    }
  }

  lemma UnmetIsOneFurther(v: View, seed: Id, max: nat, depth: map<Id, nat>, open: set<Id>, low: nat, cur: Id, e: Edge, y: Id)
    requires Searching(v, seed, max, depth, open, low)
    requires cur in open && depth[cur] == low < max && v.Via(e, cur, y) && y !in depth
    ensures IsDistance(v, seed, y, low + 1)
  {
    hide PassedOn, Universe;
    assert v.Link(cur, y) && IsDistance(v, seed, cur, depth[cur]);
    assert Hops(v, seed, y, low + 1);
    forall m: nat | m < low + 1 ensures !Hops(v, seed, y, m) {
      if Hops(v, seed, y, m) {
        Settled(v, seed, max, depth, open, low, y, m);
      }
    }
  }

  /** An unmet neighbour of an id in the lowest open layer lies exactly one hop further. */
  lemma Discover(v: View, seed: Id, max: nat, depth: map<Id, nat>, open: set<Id>, low: nat, cur: Id, e: Edge, y: Id)
    requires Searching(v, seed, max, depth, open, low)
    requires cur in open && depth[cur] == low < max && v.Via(e, cur, y) && y !in depth
    ensures Searching(v, seed, max, depth[y := low + 1], open + {y}, low)
    ensures IsDistance(v, seed, y, low + 1)
  {
    hide IsDistance, Hops;
    UnmetIsOneFurther(v, seed, max, depth, open, low, cur, e, y);
    var depth' := depth[y := low + 1];
    forall x | x in depth' && x !in open + {y} ensures PassedOn(v, max, depth', x) {
      assert PassedOn(v, max, depth, x);
    }
    forall x | x in depth' ensures IsDistance(v, seed, x, depth'[x]) {
      if x != y { assert IsDistance(v, seed, x, depth[x]); }
    }
    assert y in Universe(v, seed);
  }

  /** An id whose neighbours have all been met, or which is not expanded at all, can be closed. */
  lemma Finish(v: View, seed: Id, max: nat, depth: map<Id, nat>, open: set<Id>, low: nat, cur: Id)
    requires Searching(v, seed, max, depth, open, low)
    requires cur in open && depth[cur] == low
    requires depth[cur] < max && v.Expands(cur) ==>
               (forall e | e in v.Out(cur) :: e.target in depth) && (forall e | e in v.In(cur) :: e.source in depth)
    ensures Searching(v, seed, max, depth, open - {cur}, low)
  {
    if depth[cur] < max {
      forall y | v.Link(cur, y) ensures y in depth && depth[y] <= depth[cur] + 1 {
        var e :| v.Via(e, cur, y);
        assert e in v.Out(cur) || e in v.In(cur);
      }
    }
  }

  /** A queue entry: an id and the depth at which it was met. */
  datatype Pending = Pending(id: Id, depth: nat)

  /** The ids waiting in a queue. */
  function Waiting(queue: seq<Pending>): set<Id> {
    set i | 0 <= i < |queue| :: queue[i].id
  }

  /** The queue holds distinct ids in depth order, spanning at most two layers. */
  ghost predicate QueueOk(queue: seq<Pending>, depth: map<Id, nat>, low: nat) {
    && (forall i | 0 <= i < |queue| ::
          queue[i].id in depth && depth[queue[i].id] == queue[i].depth && low <= queue[i].depth <= low + 1)
    && (forall i, j | 0 <= i < j < |queue| :: queue[i].id != queue[j].id && queue[i].depth <= queue[j].depth)
  }

  lemma WaitingIsHeadAndRest(queue: seq<Pending>)
    requires queue != []
    ensures Waiting(queue) == {queue[0].id} + Waiting(queue[1..])
  {
    forall x ensures x in Waiting(queue) <==> x in {queue[0].id} + Waiting(queue[1..]) {
      if x in Waiting(queue) && x != queue[0].id {
        var i :| 0 <= i < |queue| && queue[i].id == x;
        assert queue[1..][i - 1].id == x;
      }
      if x in Waiting(queue[1..]) {
        var i :| 0 <= i < |queue| - 1 && queue[1..][i].id == x;
        assert queue[i + 1].id == x;
      }
    }
  }

  lemma PopKeepsQueue(v: View, seed: Id, max: nat, depth: map<Id, nat>, queue: seq<Pending>, low: nat)
    requires queue != [] && QueueOk(queue, depth, low) && Searching(v, seed, max, depth, Waiting(queue), low)
    ensures var Pending(cur, d) := queue[0];
            && QueueOk(queue[1..], depth, d)
            && cur !in Waiting(queue[1..])
            && Waiting(queue) == {cur} + Waiting(queue[1..])
            && Searching(v, seed, max, depth, Waiting(queue), d)
  {
    hide IsDistance, PassedOn, Universe;
    WaitingIsHeadAndRest(queue);
    var Pending(cur, d) := queue[0];
    forall x | x in Waiting(queue) ensures x in depth && d <= depth[x] {
      var i :| 0 <= i < |queue| && queue[i].id == x;
    }
  }

  lemma PushKeepsQueue(queue: seq<Pending>, depth: map<Id, nat>, low: nat, y: Id)
    requires QueueOk(queue, depth, low) && y !in depth
    ensures QueueOk(queue + [Pending(y, low + 1)], depth[y := low + 1], low)
    ensures Waiting(queue + [Pending(y, low + 1)]) == Waiting(queue) + {y}
  {
    var longer := queue + [Pending(y, low + 1)];
    assert longer[|queue|].id == y;
    forall x ensures x in Waiting(longer) <==> x in Waiting(queue) + {y} {
      if x in Waiting(queue) {
        var i :| 0 <= i < |queue| && queue[i].id == x;
        assert longer[i].id == x;
      }
    }
  }
}
