/**
 Community detection by label propagation. `entities` is any listing of the user's entities and
 `edges` any set of the user's valid edges; an edge may end at an entity that is not listed.
 Ties between equally frequent labels are broken arbitrarily.
 */
module Communities {
  import opened Wrappers
  import opened KnowledgeGraph

  type Labels = map<Id, Id>

  // ---------------------------------------------------------------- connectedness

  ghost predicate Adjacent(edges: seq<Edge>, a: Id, b: Id) {
    exists e :: e in edges && ((e.source == a && e.target == b) || (e.source == b && e.target == a))
  }

  /** A walk among listed entities along edges, in either direction. */
  ghost predicate IsWalk(entities: seq<Id>, edges: seq<Edge>, walk: seq<Id>) {
    && |walk| > 0
    && (forall i | 0 <= i < |walk| :: walk[i] in entities)
    && (forall i | 0 < i < |walk| :: Adjacent(edges, walk[i - 1], walk[i]))
  }

  ghost predicate Joined(entities: seq<Id>, edges: seq<Edge>, a: Id, b: Id, walk: seq<Id>) {
    IsWalk(entities, edges, walk) && walk[0] == a && walk[|walk| - 1] == b
  }

  ghost predicate Connected(entities: seq<Id>, edges: seq<Edge>, a: Id, b: Id) {
    exists walk :: Joined(entities, edges, a, b, walk)
  }

  lemma ConnectedIsReflexive(entities: seq<Id>, edges: seq<Edge>, a: Id)
    requires a in entities
    ensures Connected(entities, edges, a, a)
  {
    assert Joined(entities, edges, a, a, [a]);
  }

  lemma ConnectedByEdge(entities: seq<Id>, edges: seq<Edge>, a: Id, b: Id)
    requires a in entities && b in entities && Adjacent(edges, a, b)
    ensures Connected(entities, edges, a, b)
  {
    assert Joined(entities, edges, a, b, [a, b]);
  }

  lemma ConnectedIsTransitive(entities: seq<Id>, edges: seq<Edge>, a: Id, b: Id, c: Id)
    requires Connected(entities, edges, a, b) && Connected(entities, edges, b, c)
    ensures Connected(entities, edges, a, c)
  {
    var p :| Joined(entities, edges, a, b, p);
    var q :| Joined(entities, edges, b, c, q);
    assert Joined(entities, edges, a, c, p + q[1..]);
  }

  lemma ConnectedIsSymmetric(entities: seq<Id>, edges: seq<Edge>, a: Id, b: Id)
    requires Connected(entities, edges, a, b)
    ensures Connected(entities, edges, b, a)
  {
    var p :| Joined(entities, edges, a, b, p);
    var q := seq(|p|, i requires 0 <= i < |p| => p[|p| - 1 - i]);
    forall i | 0 < i < |q| ensures Adjacent(edges, q[i - 1], q[i]) {
      assert Adjacent(edges, p[|p| - 1 - i], p[|p| - i]);
    }
    assert Joined(entities, edges, b, a, q);
  }

  // ---------------------------------------------------------------- one update

  /** The other ends of x's edges, one per edge end, in edge order. */
  function Neighbors(edges: seq<Edge>, x: Id): seq<Id> {
    if edges == [] then []
    else
      var e := edges[|edges| - 1];
      Neighbors(edges[..|edges| - 1], x) +
      (if e.source == x then [e.target] else []) + (if e.target == x then [e.source] else [])
  }

  lemma {:induction false} NeighborsAreAdjacent(edges: seq<Edge>, x: Id, y: Id)
    ensures y in Neighbors(edges, x) <==> Adjacent(edges, x, y)
  {
    if edges != [] {
      var init, e := edges[..|edges| - 1], edges[|edges| - 1];
      NeighborsAreAdjacent(init, x, y);
      assert edges == init + [e];
      if e' :| e' in init && e'.Joins(x, y) { assert e' in edges; }
      if e.Joins(x, y) { assert e in edges; }
    }
  }

  /** How many of the neighbours that have a label carry label l. */
  function Tally(neighbors: seq<Id>, labels: Labels, l: Id): nat {
    if neighbors == [] then 0
    else
      var n := neighbors[|neighbors| - 1];
      Tally(neighbors[..|neighbors| - 1], labels, l) + if n in labels && labels[n] == l then 1 else 0
  }

  lemma {:induction false} TallyHasWitness(neighbors: seq<Id>, labels: Labels, l: Id)
    ensures Tally(neighbors, labels, l) > 0 <==> exists n :: n in neighbors && n in labels && labels[n] == l
  {
    if neighbors != [] {
      var k := |neighbors| - 1;
      TallyHasWitness(neighbors[..k], labels, l);
      assert neighbors == neighbors[..k] + [neighbors[k]];
      if Tally(neighbors, labels, l) > 0 {
        if n :| n in neighbors[..k] && n in labels && labels[n] == l {
          assert n in neighbors;
        } else {
          assert neighbors[k] in neighbors && neighbors[k] in labels && labels[neighbors[k]] == l;
        }
      }
      if n :| n in neighbors && n in labels && labels[n] == l {
        assert n in neighbors[..k] || n == neighbors[k];
      }
    }
  }

  /** e leads from x to an entity that carries label l. */
  predicate LeadsOut(e: Edge, labels: Labels, x: Id, l: Id) {
    e.source == x && e.target in labels && labels[e.target] == l
  }

  /** e leads to x from an entity that carries label l. */
  predicate LeadsIn(e: Edge, labels: Labels, x: Id, l: Id) {
    e.target == x && e.source in labels && labels[e.source] == l
  }

  /** Edges by their place in the list. */
  function Outward(edges: seq<Edge>, labels: Labels, x: Id, l: Id): set<nat> {
    set i: nat | i < |edges| && LeadsOut(edges[i], labels, x, l)
  }

  function Inward(edges: seq<Edge>, labels: Labels, x: Id, l: Id): set<nat> {
    set i: nat | i < |edges| && LeadsIn(edges[i], labels, x, l)
  }

  /** How many edges at x lead to an entity that carries label l; one from x to itself leads there twice. */
  function Ballots(edges: seq<Edge>, labels: Labels, x: Id, l: Id): nat {
    |Outward(edges, labels, x, l)| + |Inward(edges, labels, x, l)|
  }

  lemma TallyOfJoin(a: seq<Id>, x: Id, labels: Labels, l: Id)
    ensures Tally(a + [x], labels, l) == Tally(a, labels, l) + if x in labels && labels[x] == l then 1 else 0
  {
    assert (a + [x])[..|a|] == a;
  }

  /** A label's tally among the neighbours of x is the number of its ballots. */
  lemma {:induction false} TallyCountsBallots(edges: seq<Edge>, labels: Labels, x: Id, l: Id)
    ensures Tally(Neighbors(edges, x), labels, l) == Ballots(edges, labels, x, l)
  {
    hide Tally, Outward, Inward;
    if edges == [] {
      NoBallots(labels, x, l);
    } else {
      var k := |edges| - 1;
      var init, e := edges[..k], edges[k];
      assert edges == init + [e];
      TallyCountsBallots(init, labels, x, l);
      BallotsOfLonger(init, e, labels, x, l);
      var before := Neighbors(init, x);
      var first := if e.source == x then before + [e.target] else before;
      assert Neighbors(edges, x) == if e.target == x then first + [e.source] else first;
      hide Neighbors;
      TallyOfJoin(before, e.target, labels, l);
      TallyOfJoin(first, e.source, labels, l);
    }
  }

  lemma NoBallots(labels: Labels, x: Id, l: Id)
    ensures Tally(Neighbors([], x), labels, l) == 0 == Ballots([], labels, x, l)
  {
    assert Outward([], labels, x, l) == {} && Inward([], labels, x, l) == {};
  }

  lemma BallotsOfLonger(edges: seq<Edge>, e: Edge, labels: Labels, x: Id, l: Id)
    ensures |Outward(edges + [e], labels, x, l)| == |Outward(edges, labels, x, l)| + if LeadsOut(e, labels, x, l) then 1 else 0
    ensures |Inward(edges + [e], labels, x, l)| == |Inward(edges, labels, x, l)| + if LeadsIn(e, labels, x, l) then 1 else 0
  {
    OutwardOfLonger(edges, e, labels, x, l);
    InwardOfLonger(edges, e, labels, x, l);
    hide *;
  }

  lemma OutwardOfLonger(edges: seq<Edge>, e: Edge, labels: Labels, x: Id, l: Id)
    ensures |Outward(edges + [e], labels, x, l)| == |Outward(edges, labels, x, l)| + if LeadsOut(e, labels, x, l) then 1 else 0
  {
    hide LeadsOut;
    var before, after := Outward(edges, labels, x, l), Outward(edges + [e], labels, x, l);
    assert forall i: nat | i < |edges| :: (edges + [e])[i] == edges[i];
    if LeadsOut(e, labels, x, l) {
      assert after == before + {|edges|};
    } else {
      assert after == before;
    }
  }

  lemma InwardOfLonger(edges: seq<Edge>, e: Edge, labels: Labels, x: Id, l: Id)
    ensures |Inward(edges + [e], labels, x, l)| == |Inward(edges, labels, x, l)| + if LeadsIn(e, labels, x, l) then 1 else 0
  {
    hide LeadsIn;
    var before, after := Inward(edges, labels, x, l), Inward(edges + [e], labels, x, l);
    assert forall i: nat | i < |edges| :: (edges + [e])[i] == edges[i];
    if LeadsIn(e, labels, x, l) {
      assert after == before + {|edges|};
    } else {
      assert after == before;
    }
  }

  /** Of the labels that x's edges lead to, if any, that of x is among those they lead to most often. */
  ghost predicate IsMajority(edges: seq<Edge>, labels: Labels, x: Id)
    requires x in labels
  {
    || (forall m :: Ballots(edges, labels, x, m) == 0)
    || (&& Ballots(edges, labels, x, labels[x]) > 0
        && forall m :: Ballots(edges, labels, x, m) <= Ballots(edges, labels, x, labels[x]))
  }

  lemma BestIsMajority(edges: seq<Edge>, labels: Labels, x: Id)
    requires x in labels
    ensures NoneLabelled(edges, labels, x) || IsBest(edges, labels, x, labels[x]) <==> IsMajority(edges, labels, x)
  {
    hide Tally, Neighbors, Outward, Inward, Ballots;
    forall m ensures Tally(Neighbors(edges, x), labels, m) == Ballots(edges, labels, x, m) {
      TallyCountsBallots(edges, labels, x, m);
    }
  }

  /** l is carried by some labelled neighbour of x, and no label by more of them. */
  ghost predicate IsBest(edges: seq<Edge>, labels: Labels, x: Id, l: Id) {
    && Tally(Neighbors(edges, x), labels, l) > 0
    && (forall m :: Tally(Neighbors(edges, x), labels, m) <= Tally(Neighbors(edges, x), labels, l))
  }

  ghost predicate NoneLabelled(edges: seq<Edge>, labels: Labels, x: Id) {
    forall m :: Tally(Neighbors(edges, x), labels, m) == 0
  }

  /** Entity x takes a most frequent label of its neighbours, or keeps its own if they have none. */
  ghost predicate Updates(edges: seq<Edge>, before: Labels, x: Id, after: Labels) {
    if NoneLabelled(edges, before, x) then after == before
    else x in after && IsBest(edges, before, x, after[x]) && after == before[x := after[x]]
  }

  /** One pass: every entity in turn. */
  ghost predicate IsPass(entities: seq<Id>, edges: seq<Edge>, states: seq<Labels>) {
    && |states| == |entities| + 1
    && (forall i | 0 <= i < |entities| :: Updates(edges, states[i], entities[i], states[i + 1]))
  }

  ghost predicate Pass(entities: seq<Id>, edges: seq<Edge>, before: Labels, after: Labels) {
    exists states :: IsPass(entities, edges, states) && states[0] == before && states[|entities|] == after
  }

  function Identity(entities: seq<Id>): Labels {
    map x | x in entities :: x
  }

  /** Passes from the identity labelling; a run that ends early ends with a pass that changed nothing. */
  ghost predicate IsRun(entities: seq<Id>, edges: seq<Edge>, max: nat, passes: seq<Labels>) {
    && 0 < |passes| <= max + 1
    && passes[0] == Identity(entities)
    && (forall i | 0 < i < |passes| :: Pass(entities, edges, passes[i - 1], passes[i]))
    && (|passes| <= max ==> |passes| > 1 && passes[|passes| - 1] == passes[|passes| - 2])
  }

  // ---------------------------------------------------------------- safety

  /** Every listed entity is labelled with an entity of its own component. */
  ghost predicate Safe(entities: seq<Id>, edges: seq<Edge>, labels: Labels) {
    && (forall x :: x in labels <==> x in entities)
    && (forall x | x in labels :: Connected(entities, edges, x, labels[x]))
  }

  lemma UpdateIsSafe(entities: seq<Id>, edges: seq<Edge>, before: Labels, x: Id, after: Labels)
    requires Safe(entities, edges, before) && x in entities && Updates(edges, before, x, after)
    ensures Safe(entities, edges, after)
  {
    hide Connected, Adjacent;
    if !NoneLabelled(edges, before, x) {
      TallyHasWitness(Neighbors(edges, x), before, after[x]);
      var n :| n in Neighbors(edges, x) && n in before && before[n] == after[x];
      NeighborsAreAdjacent(edges, x, n);
      ConnectedByEdge(entities, edges, x, n);
      ConnectedIsTransitive(entities, edges, x, n, after[x]);
    }
  }

  lemma {:induction false} PassIsSafe(entities: seq<Id>, edges: seq<Edge>, states: seq<Labels>, i: nat)
    requires IsPass(entities, edges, states) && Safe(entities, edges, states[0]) && i <= |entities|
    ensures Safe(entities, edges, states[i])
  {
    hide Safe, Updates;
    if i > 0 {
      PassIsSafe(entities, edges, states, i - 1);
      assert Updates(edges, states[i - 1], entities[i - 1], states[i]);
      UpdateIsSafe(entities, edges, states[i - 1], entities[i - 1], states[i]);
    }
  }

  lemma IdentityIsSafe(entities: seq<Id>, edges: seq<Edge>)
    ensures Safe(entities, edges, Identity(entities))
  {
    hide Connected;
    forall x | x in entities ensures Connected(entities, edges, x, x) {
      ConnectedIsReflexive(entities, edges, x);
    }
  }

  /** After any number of passes, under any tie-breaking, labels stay within components. */
  lemma {:induction false} RunIsSafe(entities: seq<Id>, edges: seq<Edge>, max: nat, passes: seq<Labels>, i: nat)
    requires IsRun(entities, edges, max, passes) && i < |passes|
    ensures Safe(entities, edges, passes[i])
  {
    hide Safe, Updates;
    if i == 0 {
      IdentityIsSafe(entities, edges);
    } else {
      RunIsSafe(entities, edges, max, passes, i - 1);
      assert Pass(entities, edges, passes[i - 1], passes[i]);
      var states :| IsPass(entities, edges, states) && states[0] == passes[i - 1] && states[|entities|] == passes[i];
      PassIsSafe(entities, edges, states, |entities|);
    }
  }

  /** Disconnected entities never share a label. */
  lemma SharedLabelMeansConnected(entities: seq<Id>, edges: seq<Edge>, labels: Labels, a: Id, b: Id)
    requires Safe(entities, edges, labels) && a in labels && b in labels && labels[a] == labels[b]
    ensures Connected(entities, edges, a, b)
  {
    ConnectedIsSymmetric(entities, edges, b, labels[b]);
    ConnectedIsTransitive(entities, edges, a, labels[a], b);
  }

  /** An entity without listed neighbours keeps its own label. */
  lemma IsolatedKeepsItsLabel(entities: seq<Id>, edges: seq<Edge>, labels: Labels, x: Id)
    requires Safe(entities, edges, labels) && x in labels
    requires forall y | y in entities :: !Adjacent(edges, x, y)
    ensures labels[x] == x
  {
    var walk :| Joined(entities, edges, x, labels[x], walk);
    if |walk| > 1 {
      WalkStepsToANeighbor(entities, edges, walk);
    }
  }

  lemma WalkStepsToANeighbor(entities: seq<Id>, edges: seq<Edge>, walk: seq<Id>)
    requires IsWalk(entities, edges, walk) && |walk| > 1
    ensures walk[1] in entities && Adjacent(edges, walk[0], walk[1])
  {
  }

  // ---------------------------------------------------------------- stability

  /** A pass sets each entity's label only at its own turn. */
  lemma {:induction false} LabelStays(entities: seq<Id>, edges: seq<Edge>, states: seq<Labels>, k: nat, i: nat, j: nat)
    requires IsPass(entities, edges, states) && Distinct(entities) && k < |entities| && i <= j <= |entities|
    requires j <= k || k < i
    requires entities[k] in states[i]
    ensures entities[k] in states[j] && states[j][entities[k]] == states[i][entities[k]]
    decreases j
  {
    if i < j {
      LabelStays(entities, edges, states, k, i, j - 1);
      assert Updates(edges, states[j - 1], entities[j - 1], states[j]);
    }
  }

  lemma {:induction false} QuietPass(entities: seq<Id>, edges: seq<Edge>, states: seq<Labels>, i: nat)
    requires IsPass(entities, edges, states) && Distinct(entities) && i <= |entities|
    requires states[0] == states[|entities|] && forall x | x in entities :: x in states[0]
    ensures states[i] == states[0]
  {
    if i > 0 {
      QuietPass(entities, edges, states, i - 1);
      var x := entities[i - 1];
      assert Updates(edges, states[i - 1], x, states[i]);
      assert x in states[0];
      LabelStays(entities, edges, states, i - 1, i, |entities|);
      assert states[i] == states[i - 1];
    }
  }

  /** A labelling that a whole pass leaves alone gives each entity a most frequent neighbour label. */
  lemma UnchangedPassIsStable(entities: seq<Id>, edges: seq<Edge>, labels: Labels, x: Id)
    requires Distinct(entities) && Pass(entities, edges, labels, labels) && x in entities
    requires forall y | y in entities :: y in labels
    ensures IsMajority(edges, labels, x)
  {
    BestIsMajority(edges, labels, x);
    hide IsMajority;
    var states :| IsPass(entities, edges, states) && states[0] == labels && states[|entities|] == labels;
    var i :| 0 <= i < |entities| && entities[i] == x;
    QuietPass(entities, edges, states, i);
    QuietPass(entities, edges, states, i + 1);
    assert Updates(edges, states[i], entities[i], states[i + 1]);
  }

  // ---------------------------------------------------------------- the code

  function Pushed(adjacency: map<Id, seq<Id>>, x: Id, y: Id): map<Id, seq<Id>> {
    adjacency[x := (if x in adjacency then adjacency[x] else []) + [y]]
  }

  ghost predicate IsAdjacency(edges: seq<Edge>, adjacency: map<Id, seq<Id>>) {
    forall x :: Neighbors(edges, x) == if x in adjacency then adjacency[x] else []
  }

  lemma AdjacencyOfLonger(edges: seq<Edge>, e: Edge, adjacency: map<Id, seq<Id>>)
    requires IsAdjacency(edges, adjacency)
    ensures IsAdjacency(edges + [e], Pushed(Pushed(adjacency, e.source, e.target), e.target, e.source))
  {
    assert (edges + [e])[..|edges|] == edges;
  }

  method BuildAdjacency(edges: seq<Edge>) returns (adjacency: map<Id, seq<Id>>)
    ensures IsAdjacency(edges, adjacency)
  {
    hide Neighbors;
    assert IsAdjacency([], map[]) by { NoEdgesNoNeighbors(); }
    adjacency := map[];
    for i := 0 to |edges|
      invariant IsAdjacency(edges[..i], adjacency)
    {
      AdjacencyOfLonger(edges[..i], edges[i], adjacency);
      assert edges[..i] + [edges[i]] == edges[..i + 1];
      adjacency := Pushed(adjacency, edges[i].source, edges[i].target);
      adjacency := Pushed(adjacency, edges[i].target, edges[i].source);
    }
    assert edges[..|edges|] == edges;
  }

  lemma NoEdgesNoNeighbors()
    ensures IsAdjacency([], map[])
  {
  }

  method CountLabels(neighbors: seq<Id>, labels: Labels) returns (counts: map<Id, nat>)
    ensures forall l :: Tally(neighbors, labels, l) == if l in counts then counts[l] else 0
    ensures forall l | l in counts :: counts[l] > 0
  {
    counts := map[];
    for i := 0 to |neighbors|
      invariant forall l :: Tally(neighbors[..i], labels, l) == if l in counts then counts[l] else 0
      invariant forall l | l in counts :: counts[l] > 0
    {
      assert neighbors[..i + 1][..i] == neighbors[..i];
      if neighbors[i] in labels {
        var l := labels[neighbors[i]];
        counts := counts[l := (if l in counts then counts[l] else 0) + 1];
      }
    }
    assert neighbors[..|neighbors|] == neighbors;
  }

  /** Some key of greatest count; keys come in an arbitrary order. */
  method PickBest(counts: map<Id, nat>) returns (best: Id)
    requires counts != map[]
    ensures best in counts && forall l | l in counts :: counts[l] <= counts[best]
  {
    assert |counts.Keys| > 0;
    best :| best in counts.Keys;
    var todo := counts.Keys - {best};
    while todo != {}
      invariant todo <= counts.Keys && best in counts
      invariant forall l | l in counts && l !in todo :: counts[l] <= counts[best]
    {
      var l :| l in todo;
      if counts[l] >= counts[best] { best := l; }
      todo := todo - {l};
    }
  }

  method UpdateOne(edges: seq<Edge>, adjacency: map<Id, seq<Id>>, x: Id, labels0: Labels) returns (labels: Labels, changed: bool)
    requires IsAdjacency(edges, adjacency) && x in labels0
    ensures Updates(edges, labels0, x, labels)
    ensures changed <==> labels != labels0
  {
    labels, changed := labels0, false;
    assert Neighbors(edges, x) == if x in adjacency then adjacency[x] else [];
    if x !in adjacency { return; }
    var counts := CountLabels(adjacency[x], labels);
    if counts == map[] { return; }
    var best := PickBest(counts);
    assert Tally(Neighbors(edges, x), labels0, best) > 0;
    if best != labels[x] {
      labels := labels[x := best];
      changed := true;
      assert labels[x] != labels0[x];
    } else {
      assert labels0 == labels0[x := best];
    }
  }

  lemma {:induction false} UpdatesKeepKeys(edges: seq<Edge>, before: Labels, x: Id, after: Labels)
    requires Updates(edges, before, x, after) && x in before
    ensures after.Keys == before.Keys
  {
  }

  method OnePass(entities: seq<Id>, edges: seq<Edge>, adjacency: map<Id, seq<Id>>, labels0: Labels) returns (labels: Labels, changed: bool)
    requires IsAdjacency(edges, adjacency) && Distinct(entities) && forall x | x in entities :: x in labels0
    ensures Pass(entities, edges, labels0, labels) && labels.Keys == labels0.Keys
    ensures !changed ==> labels == labels0
  {
    hide IsAdjacency, Updates;
    labels, changed := labels0, false;
    ghost var states := [labels0];
    for i := 0 to |entities|
      invariant |states| == i + 1 && states[0] == labels0 && states[i] == labels && labels.Keys == labels0.Keys
      invariant forall j | 0 <= j < i :: Updates(edges, states[j], entities[j], states[j + 1])
      invariant !changed ==> labels == labels0
    {
      var changedHere;
      ghost var before := labels;
      labels, changedHere := UpdateOne(edges, adjacency, entities[i], labels);
      UpdatesKeepKeys(edges, before, entities[i], labels);
      changed := changed || changedHere;
      states := states + [labels];
    }
    assert IsPass(entities, edges, states);
  }

  /** `passes` is the history of labellings; the result is the last of them. */
  method DetectCommunities(entities: seq<Id>, edges: seq<Edge>, maxIterations: nat)
    returns (labels: Labels, ghost passes: seq<Labels>)
    requires Distinct(entities)
    ensures IsRun(entities, edges, maxIterations, passes) && labels == passes[|passes| - 1]
    ensures |passes| == maxIterations + 1 || (1 < |passes| <= maxIterations && passes[|passes| - 1] == passes[|passes| - 2])
    ensures forall x | x in entities :: x in passes[0] && passes[0][x] == x
    ensures Safe(entities, edges, labels)
    ensures |passes| > 1 && passes[|passes| - 1] == passes[|passes| - 2] ==>
              forall x | x in entities :: x in labels && IsMajority(edges, labels, x)
  {
    hide Pass, Safe, IsAdjacency, IsMajority;
    labels := Identity(entities);
    passes := [labels];
    var adjacency := BuildAdjacency(edges);
    var i := 0;
    while i < maxIterations
      invariant 0 <= i <= maxIterations && |passes| == i + 1
      invariant passes[0] == Identity(entities) && labels == passes[i] && labels.Keys == Identity(entities).Keys
      invariant forall j | 0 < j < |passes| :: Pass(entities, edges, passes[j - 1], passes[j])
    {
      var changed;
      labels, changed := OnePass(entities, edges, adjacency, labels);
      passes := passes + [labels];
      i := i + 1;
      if !changed {
        assert passes[i] == passes[i - 1];
        break;
      }
    }
    assert IsRun(entities, edges, maxIterations, passes);
    RunIsSafe(entities, edges, maxIterations, passes, |passes| - 1);
    if |passes| > 1 && passes[|passes| - 1] == passes[|passes| - 2] {
      assert Pass(entities, edges, labels, labels);
      forall x | x in entities ensures IsMajority(edges, labels, x) {
        UnchangedPassIsStable(entities, edges, labels, x);
      }
    }
  }
}
