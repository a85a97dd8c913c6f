/** Vector clocks, and the theorem that over every run they capture causality exactly. */
module VectorClocks {
  import opened NodeIds
  import opened Causality
  import opened Slots

  class VectorClock {
    var entries: Slots

    constructor ()
      ensures entries == map[]
    {
      entries := map[];
    }

    method Increment(n: NodeId) returns (count: nat)
      modifies this
      ensures entries == Bump(old(entries), n, 1)
      ensures count == Get(entries, n) == Get(old(entries), n) + 1
    {
      if n !in entries {
        entries := entries[n := 0];
      }
      entries := entries[n := entries[n] + 1];
      count := entries[n];
    }

    method Merge(other: VectorClock)
      modifies this
      ensures entries == Join(old(entries), old(other.entries))
    {
      entries := MergeInto(entries, other.entries);
    }

    method IsBeforeOrEqual(other: VectorClock) returns (r: bool)
      ensures r == Leq(entries, other.entries)
    {
      r := IsLeq(entries, other.entries);
    }

    method IsStrictlyBefore(other: VectorClock) returns (r: bool)
      ensures r == StrictlyBefore(entries, other.entries)
    {
      r := IsBeforeOrEqual(other);
      r := r && entries != other.entries;
    }

    method IsConcurrentWith(other: VectorClock) returns (r: bool)
      ensures r == Concurrent(entries, other.entries)
    {
      var here := IsBeforeOrEqual(other);
      var there := other.IsBeforeOrEqual(this);
      r := !here && !there;
    }
  }

  /** The code's strict order: point-wise at most, and not structurally equal. */
  predicate StrictlyBefore(a: Slots, b: Slots) {
    Leq(a, b) && a != b
  }

  predicate Concurrent(a: Slots, b: Slots) {
    !Leq(a, b) && !Leq(b, a)
  }

  predicate Positive(a: Slots) {
    forall n | n in a :: a[n] > 0
  }

  /** The strict order that is meant: no reading is larger, and some reading is smaller. */
  ghost predicate PointwiseBefore(a: Slots, b: Slots) {
    (forall n :: Get(a, n) <= Get(b, n)) && (exists n :: Get(a, n) < Get(b, n))
  }

  lemma LeqIsPointwise(a: Slots, b: Slots)
    ensures Leq(a, b) <==> forall n :: Get(a, n) <= Get(b, n)
  {
    if n :| n in a && a[n] > Get(b, n) {
      assert Get(a, n) > Get(b, n);
    }
  }

  /** The code orders two clocks as it should, exactly if they are the same or some reading tells them apart. */
  lemma OrderIsPointwiseIff(a: Slots, b: Slots)
    ensures (StrictlyBefore(a, b) <==> PointwiseBefore(a, b)) <==> (a == b || exists n :: Get(a, n) != Get(b, n))
  {
    LeqIsPointwise(a, b);
    if !Leq(a, b) {
      var n :| n in a && a[n] > Get(b, n);
      assert Get(a, n) != Get(b, n);
    }
  }

  /** Without zero slots, structural inequality agrees with point-wise inequality. */
  lemma StructuralOrderIsPointwise(a: Slots, b: Slots)
    requires Positive(a) && Positive(b)
    ensures StrictlyBefore(a, b) <==> PointwiseBefore(a, b)
  {
    OrderIsPointwiseIff(a, b);
    if forall n :: Get(a, n) == Get(b, n) {
      SameReadingsSameClock(a, b);
    }
  }

  function WithoutZeros(a: Slots): Slots {
    map n | n in a && a[n] > 0 :: a[n]
  }

  /** A clock is ordered as it should be against every clock without zero slots, exactly if it has none itself. */
  lemma PositiveIffOrdered(a: Slots)
    ensures Positive(a) <==> forall b | Positive(b) :: StrictlyBefore(a, b) <==> PointwiseBefore(a, b)
  {
    if Positive(a) {
      forall b | Positive(b) ensures StrictlyBefore(a, b) <==> PointwiseBefore(a, b) {
        StructuralOrderIsPointwise(a, b);
      }
    } else {
      var n :| n in a && a[n] == 0;
      var b := WithoutZeros(a);
      assert Positive(b) && n !in b && forall m :: Get(a, m) == Get(b, m);
      OrderIsPointwiseIff(a, b);
    }
  }

  lemma SameReadingsSameClock(a: Slots, b: Slots)
    requires Positive(a) && Positive(b)
    requires forall n :: Get(a, n) == Get(b, n)
    ensures a == b
  {
    forall n ensures n in a <==> n in b {
      assert Get(a, n) == Get(b, n);
    }
    SameSlots(a, b);
  }

  lemma ZeroSlotBreaksTheOrder(n: NodeId)
    ensures var a: Slots := map[]; var b: Slots := map[n := 0];
            StrictlyBefore(a, b) && StrictlyBefore(b, a) && forall m :: Get(a, m) == Get(b, m)
  {
    var b: Slots := map[n := 0];
    assert n in b;
  }

  /** Node n's vector clock after the first t events: a receive merges, and every event increments. */
  function ClockOf(es: Run, t: nat, n: NodeId): Slots
    requires t <= |es|
    decreases t
  {
    if t == 0 then map[]
    else
      var e := es[t - 1];
      var before := ClockOf(es, t - 1, n);
      if e.node != n then before
      else match e.heard
        case None => Bump(before, n, 1)
        case Some(k) => Bump(Join(before, ClockOf(es, k + 1, es[k].node)), n, 1)
  }

  function ClockAt(es: Run, i: nat): Slots
    requires i < |es|
  {
    ClockOf(es, i + 1, es[i].node)
  }

  lemma {:induction false} ReachableClocksArePositive(es: Run, t: nat, n: NodeId)
    requires t <= |es|
    ensures Positive(ClockOf(es, t, n))
    decreases t
  {
    if t > 0 {
      ReachableClocksArePositive(es, t - 1, n);
      var heard := es[t - 1].heard;
      if heard.Some? {
        ReachableClocksArePositive(es, heard.value + 1, es[heard.value].node);
      }
    }
  }

  lemma {:induction false} ClockOnlyGrows(es: Run, s: nat, t: nat, n: NodeId, m: NodeId)
    requires s <= t <= |es|
    ensures Get(ClockOf(es, s, n), m) <= Get(ClockOf(es, t, n), m)
    decreases t
  {
    if s < t {
      ClockOnlyGrows(es, s, t - 1, n, m);
    }
  }

  lemma {:induction false} ClockIsLastLocal(es: Run, t: nat, n: NodeId)
    requires t <= |es|
    ensures match LastLocal(es, t, n)
            case None => ClockOf(es, t, n) == map[]
            case Some(p) => ClockOf(es, t, n) == ClockAt(es, p)
  {
    if t > 0 {
      ClockIsLastLocal(es, t - 1, n);
    }
  }

  lemma DirectGrows(es: Run, i: nat, j: nat, m: NodeId)
    requires Direct(es, i, j)
    ensures Get(ClockAt(es, i), m) <= Get(ClockAt(es, j), m)
    ensures m == es[j].node && m == es[i].node ==> Get(ClockAt(es, i), m) < Get(ClockAt(es, j), m)
  {
    if es[i].node == es[j].node {
      ClockOnlyGrows(es, i + 1, j, es[j].node, m);
    }
  }

  lemma {:induction false} PastGrows(es: Run, i: nat, j: nat, m: NodeId)
    requires j < |es| && InPast(es, i, j)
    ensures Get(ClockAt(es, i), m) <= Get(ClockAt(es, j), m)
    decreases j
  {
    if i != j {
      if Direct(es, i, j) {
        DirectGrows(es, i, j, m);
      } else {
        var k: nat :| k < j && HappensBefore(es, i, k) && Direct(es, k, j);
        HappensBeforeIsEarlier(es, i, k);
        PastGrows(es, i, k, m);
        DirectGrows(es, k, j, m);
      }
    }
  }

  /** A foreign slot of event j's clock was copied from a direct predecessor of j. */
  lemma ForeignSlotIsInherited(es: Run, j: nat, m: NodeId) returns (p: nat)
    requires j < |es| && m != es[j].node && Get(ClockAt(es, j), m) > 0
    ensures Direct(es, p, j) && Get(ClockAt(es, p), m) == Get(ClockAt(es, j), m)
  {
    var n := es[j].node;
    ClockIsLastLocal(es, j, n);
    var before := ClockOf(es, j, n);
    if Get(before, m) == Get(ClockAt(es, j), m) {
      p := LastLocal(es, j, n).value;
    } else {
      p := es[j].heard.value;
    }
  }

  /** The slot of event i's own node decides whether i is in the causal past of j. */
  lemma {:induction false} OwnSlotDecidesPast(es: Run, i: nat, j: nat)
    requires i < |es| && j < |es|
    ensures Get(ClockAt(es, i), es[i].node) <= Get(ClockAt(es, j), es[i].node) <==> InPast(es, i, j)
    decreases j
  {
    var n := es[i].node;
    if InPast(es, i, j) {
      PastGrows(es, i, j, n);
    } else if n == es[j].node {
      assert j < i && Direct(es, j, i);
      DirectGrows(es, j, i, n);
    } else if Get(ClockAt(es, i), n) <= Get(ClockAt(es, j), n) {
      var p := ForeignSlotIsInherited(es, j, n);
      OwnSlotDecidesPast(es, i, p);
      PastIsTransitive(es, i, p, j);
    }
  }

  /** Event i happens before event j if and only if i's clock is strictly before j's. */
  lemma ClocksCaptureCausality(es: Run, i: nat, j: nat)
    requires i < |es| && j < |es|
    ensures HappensBefore(es, i, j) <==> StrictlyBefore(ClockAt(es, i), ClockAt(es, j))
    ensures Concurrent(ClockAt(es, i), ClockAt(es, j)) <==> !InPast(es, i, j) && !InPast(es, j, i)
  {
    LeqIsPast(es, i, j);
    LeqIsPast(es, j, i);
    if HappensBefore(es, i, j) {
      HappensBeforeIsEarlier(es, i, j);
      if InPast(es, j, i) { HappensBeforeIsEarlier(es, j, i); }
      assert !Leq(ClockAt(es, j), ClockAt(es, i));
      assert Leq(ClockAt(es, j), ClockAt(es, j));
    }
  }

  lemma LeqIsPast(es: Run, i: nat, j: nat)
    requires i < |es| && j < |es|
    ensures Leq(ClockAt(es, i), ClockAt(es, j)) <==> InPast(es, i, j)
  {
    OwnSlotDecidesPast(es, i, j);
    if InPast(es, i, j) {
      forall m | m in ClockAt(es, i) ensures ClockAt(es, i)[m] <= Get(ClockAt(es, j), m) {
        PastGrows(es, i, j, m);
      }
    } else {
      assert es[i].node in ClockAt(es, i);
    }
  }

  /** The events of node m in the causal past of event j, with j itself. */
  ghost function PastOf(es: Run, j: nat, m: NodeId): set<nat> {
    set k: nat | k < |es| && es[k].node == m && InPast(es, k, j)
  }

  /** The first t events of node m. */
  function EventsOf(es: Run, t: nat, m: NodeId): set<nat>
    requires t <= |es|
  {
    set k: nat | k < t && es[k].node == m
  }

  lemma {:induction false} OwnSlotCounts(es: Run, t: nat, n: NodeId)
    requires t <= |es|
    ensures Get(ClockOf(es, t, n), n) == |EventsOf(es, t, n)|
    decreases t
  {
    if t == 0 {
      assert EventsOf(es, 0, n) == {};
    } else {
      OwnSlotCounts(es, t - 1, n);
      if es[t - 1].node == n {
        assert EventsOf(es, t, n) == EventsOf(es, t - 1, n) + {t - 1};
        OwnSlotGrowsByOne(es, t - 1);
      } else {
        assert EventsOf(es, t, n) == EventsOf(es, t - 1, n);
      }
    }
  }

  /** Nobody has heard more of a node than the node itself knew. */
  lemma OwnSlotGrowsByOne(es: Run, j: nat)
    requires j < |es|
    ensures Get(ClockAt(es, j), es[j].node) == Get(ClockOf(es, j, es[j].node), es[j].node) + 1
  {
    var n := es[j].node;
    if es[j].heard.Some? {
      SlotIsAtMostOwn(es, es[j].heard.value, n, j);
    }
  }

  lemma {:induction false} SlotIsAtMostOwn(es: Run, i: nat, n: NodeId, t: nat)
    requires i < t <= |es|
    ensures Get(ClockAt(es, i), n) <= Get(ClockOf(es, t, n), n)
    decreases i
  {
    if es[i].node == n {
      ClockOnlyGrows(es, i + 1, t, n, n);
    } else if Get(ClockAt(es, i), n) > 0 {
      var p := ForeignSlotIsInherited(es, i, n);
      SlotIsAtMostOwn(es, p, n, t);
    }
  }

  /** A slot that is not zero is the own slot of some event in the past. */
  lemma {:induction false} SlotHasItsEvent(es: Run, j: nat, m: NodeId) returns (i: nat)
    requires j < |es| && Get(ClockAt(es, j), m) > 0
    ensures i < |es| && es[i].node == m && InPast(es, i, j) && Get(ClockAt(es, i), m) == Get(ClockAt(es, j), m)
    decreases j
  {
    if es[j].node == m {
      i := j;
    } else {
      var p := ForeignSlotIsInherited(es, j, m);
      i := SlotHasItsEvent(es, p, m);
      PastIsTransitive(es, i, p, j);
    }
  }

  /** A slot of an event's clock is the number of events of that node in its causal past. */
  lemma SlotCountsPast(es: Run, j: nat, m: NodeId)
    requires j < |es|
    ensures Get(ClockAt(es, j), m) == |PastOf(es, j, m)|
  {
    if Get(ClockAt(es, j), m) == 0 {
      forall k: nat | k < |es| && es[k].node == m ensures !InPast(es, k, j) {
        OwnSlotGrowsByOne(es, k);
        OwnSlotDecidesPast(es, k, j);
      }
      assert PastOf(es, j, m) == {};
    } else {
      var i := SlotHasItsEvent(es, j, m);
      OwnSlotCounts(es, i + 1, m);
      forall k: nat | k < |es| && es[k].node == m ensures InPast(es, k, j) <==> k <= i {
        OwnSlotDecidesPast(es, k, j);
        if k < i { DirectGrows(es, k, i, m); }
        if i < k { DirectGrows(es, i, k, m); }
      }
      assert PastOf(es, j, m) == EventsOf(es, i + 1, m);
    }
  }
}
