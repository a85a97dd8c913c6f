/** What hybrid clocks guarantee over whole runs, for any wall-clock readings. */
module HlcRuns {
  import opened Wrappers
  import opened NodeIds
  import opened HybridLogicalClock
  import opened Causality

  /** The clock of node n after the first t events: each of n's events calls `now` or `receive`. */
  function ClockOf(es: Run, t: nat, n: NodeId): Clock
    requires t <= |es|
    decreases t
  {
    if t == 0 then FRESH
    else
      var e := es[t - 1];
      var before := ClockOf(es, t - 1, n);
      if e.node != n then before
      else match e.heard
        case None => Tick(before, e.reading)
        case Some(k) => Absorb(before, Stamped(ClockOf(es, k + 1, es[k].node), es[k].node), e.reading)
  }

  function ClockAt(es: Run, i: nat): Clock
    requires i < |es|
  {
    ClockOf(es, i + 1, es[i].node)
  }

  /** The timestamp that event i obtained from its node's clock. */
  function Stamp(es: Run, i: nat): Timestamp
    requires i < |es|
  {
    Stamped(ClockAt(es, i), es[i].node)
  }

  lemma {:induction false} ClockOnlyAdvances(es: Run, s: nat, t: nat, n: NodeId)
    requires s <= t <= |es|
    ensures ClockOf(es, s, n).AtMost(ClockOf(es, t, n))
    decreases t
  {
    if s < t {
      ClockOnlyAdvances(es, s, t - 1, n);
    }
  }

  lemma DirectAdvances(es: Run, i: nat, j: nat)
    requires Direct(es, i, j)
    ensures ClockAt(es, i).Precedes(ClockAt(es, j))
  {
    if es[i].node == es[j].node {
      ClockOnlyAdvances(es, i + 1, j, es[j].node);
    }
  }

  lemma {:induction false} CausalityAdvances(es: Run, i: nat, j: nat)
    requires HappensBefore(es, i, j)
    ensures i < j < |es| && ClockAt(es, i).Precedes(ClockAt(es, j))
    decreases j
  {
    HappensBeforeIsEarlier(es, i, j);
    if Direct(es, i, j) {
      DirectAdvances(es, i, j);
    } else {
      var k: nat :| k < j && HappensBefore(es, i, k) && Direct(es, k, j);
      CausalityAdvances(es, i, k);
      DirectAdvances(es, k, j);
    }
  }

  /** Happens-before implies a smaller timestamp. */
  lemma HappensBeforeImpliesSmallerStamp(es: Run, i: nat, j: nat)
    requires HappensBefore(es, i, j)
    ensures i < j < |es| && Before(Stamp(es, i), Stamp(es, j))
  {
    CausalityAdvances(es, i, j);
  }

  /** No two events of a run, at the same node or at different ones, get the same timestamp. */
  lemma StampsAreUnique(es: Run, i: nat, j: nat)
    requires i < |es| && j < |es| && i != j
    ensures Stamp(es, i) != Stamp(es, j)
  {
    if es[i].node == es[j].node {
      var a, b := Min(i, j), Max(i, j);
      DirectAdvances(es, a, b);
    }
  }

  /** Before its first event a node's clock is fresh; later it is as its last event left it. */
  lemma {:induction false} ClockIsLastLocal(es: Run, t: nat, n: NodeId)
    requires t <= |es|
    ensures match LastLocal(es, t, n)
            case None => ClockOf(es, t, n) == FRESH
            case Some(p) => ClockOf(es, t, n) == ClockAt(es, p)
  {
    if t > 0 {
      ClockIsLastLocal(es, t - 1, n);
    }
  }

  /** Where event j's clock state can come from: a direct predecessor, or its own reading. */
  lemma WhereClockComesFrom(es: Run, j: nat) returns (before: Clock)
    requires j < |es|
    ensures before == FRESH || exists p: nat :: Direct(es, p, j) && before == ClockAt(es, p)
    ensures match es[j].heard
            case None => ClockAt(es, j) == Tick(before, es[j].reading)
            case Some(k) => Direct(es, k, j) && ClockAt(es, j) == Absorb(before, Stamp(es, k), es[j].reading)
  {
    before := ClockOf(es, j, es[j].node);
    ClockIsLastLocal(es, j, es[j].node);
    var last := LastLocal(es, j, es[j].node);
    if last.Some? {
      assert Direct(es, last.value, j);
    }
  }

  /** No reading in the causal past is above the wall part. */
  lemma WallCoversPast(es: Run, i: nat, j: nat)
    requires j < |es| && InPast(es, i, j)
    ensures es[i].reading <= Stamp(es, j).wallMs
  {
    var before := WhereClockComesFrom(es, i);
    if i != j {
      CausalityAdvances(es, i, j);
    }
  }

  /** The wall part is not invented: it is zero or was read at some event of the causal past. */
  lemma {:induction false} WallWasRead(es: Run, j: nat) returns (i: nat)
    requires j < |es|
    ensures InPast(es, i, j)
    ensures Stamp(es, j).wallMs == 0 || Stamp(es, j).wallMs == es[i].reading
    decreases j
  {
    i := j;
    var wall := Stamp(es, j).wallMs;
    var before := WhereClockComesFrom(es, j);
    if wall != 0 && wall != es[j].reading {
      var p: nat :| Direct(es, p, j) && ClockAt(es, p).wallMs == wall;
      assert Direct(es, p, j);
      i := WallWasRead(es, p);
      PastIsTransitive(es, i, p, j);
    }
  }

  /** The wall part is exactly the largest reading in the causal past. */
  lemma WallIsLargestReadingInPast(es: Run, j: nat)
    requires j < |es|
    ensures forall i: nat | InPast(es, i, j) :: es[i].reading <= Stamp(es, j).wallMs
    ensures Stamp(es, j).wallMs == 0 || exists i: nat :: InPast(es, i, j) && es[i].reading == Stamp(es, j).wallMs
  {
    forall i: nat | InPast(es, i, j) ensures es[i].reading <= Stamp(es, j).wallMs {
      WallCoversPast(es, i, j);
    }
    var i := WallWasRead(es, j);
  }

  /** A causal chain that ends at j and whose events all carry j's wall part. */
  ghost predicate IsSameWallChain(es: Run, chain: seq<nat>, j: nat)
    requires j < |es|
  {
    && IsChain(es, chain) && |chain| > 0 && chain[|chain| - 1] == j
    && forall m | 0 <= m < |chain| :: chain[m] < |es| && Stamp(es, chain[m]).wallMs == Stamp(es, j).wallMs
  }

  /** How long a chain the counter stands for: at wall time zero the clock does not start a new count. */
  function ChainLength(t: Timestamp): nat {
    if t.wallMs > 0 then t.counter + 1 else t.counter
  }

  /** Some direct predecessor of j has j's wall part and a counter one less, or j starts a count. */
  lemma WhereCounterComesFrom(es: Run, j: nat) returns (p: Option<nat>)
    requires j < |es|
    ensures p.Some? ==> Direct(es, p.value, j) && Stamp(es, p.value).wallMs == Stamp(es, j).wallMs
    ensures p.Some? ==> Stamp(es, j).counter == Stamp(es, p.value).counter + 1
    ensures p.None? ==> ChainLength(Stamp(es, j)) == 1
  {
    var before := WhereClockComesFrom(es, j);
    var c := ClockAt(es, j);
    p := None;
    if q: nat :| Direct(es, q, j) && ClockAt(es, q).wallMs == c.wallMs && c.counter == ClockAt(es, q).counter + 1 {
      p := Some(q);
    }
  }

  /** The counter's length is that of some causal chain at the same wall time. */
  lemma {:induction false} CounterIsAChain(es: Run, j: nat) returns (chain: seq<nat>)
    requires j < |es|
    ensures IsSameWallChain(es, chain, j) && |chain| == ChainLength(Stamp(es, j))
    decreases j
  {
    var p := WhereCounterComesFrom(es, j);
    hide Stamp;
    if p.Some? {
      var shorter := CounterIsAChain(es, p.value);
      chain := shorter + [j];
      assert HappensBefore(es, p.value, j);
    } else {
      chain := [j];
    }
  }

  lemma {:induction false} ChainsAreNoLonger(es: Run, chain: seq<nat>, j: nat)
    requires j < |es| && IsSameWallChain(es, chain, j)
    ensures |chain| <= ChainLength(Stamp(es, j))
    decreases |chain|
  {
    var m := |chain| - 1;
    if m == 0 {
      var before := WhereClockComesFrom(es, j);
    } else {
      var shorter := chain[..m];
      assert chain[m - 1] < |es| && IsSameWallChain(es, shorter, chain[m - 1]) by {
        assert shorter[m - 1] == chain[m - 1];
        hide Stamp;
      }
      ChainsAreNoLonger(es, shorter, chain[m - 1]);
      CausalityAdvances(es, chain[m - 1], j);
    }
  }

  /**
   The counter is exactly one less than the longest causal chain of events with the same wall part; for the
   wall part zero, which a clock shows before any reading, it is exactly that length.
   */
  lemma CounterIsLongestChain(es: Run, j: nat)
    requires j < |es|
    ensures var length := Stamp(es, j).counter + if Stamp(es, j).wallMs > 0 then 1 else 0;
            && (exists chain :: IsSameWallChain(es, chain, j) && |chain| == length)
            && (forall chain | IsSameWallChain(es, chain, j) :: |chain| <= length)
  {
    var chain := CounterIsAChain(es, j);
    forall other | IsSameWallChain(es, other, j) ensures |other| <= ChainLength(Stamp(es, j)) {
      ChainsAreNoLonger(es, other, j);
    }
  }

  /** In a run of fewer than 2^32 events the 32-bit counter never overflows. */
  lemma CounterFitsInU32(es: Run, j: nat)
    requires j < |es| < 0x1_0000_0000
    ensures Stamp(es, j).counter < 0x1_0000_0000
  {
    var chain := CounterIsAChain(es, j);
    ChainIsShort(es, chain);
  }
}
