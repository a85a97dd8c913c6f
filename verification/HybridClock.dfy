/**
 The hybrid logical clock of one node. The wall-clock reading taken by each call is an argument,
 so nothing is assumed about it: it may stall or go backwards.
 */
module HybridLogicalClock {
  import opened Wrappers
  import opened NodeIds

  datatype Timestamp = Timestamp(wallMs: nat, counter: nat, node: NodeId)

  datatype Ordering = Lt | Eq | Gt {
    function Then(next: Ordering): Ordering {
      if this == Eq then next else this
    }
  }

  function CmpNat(a: nat, b: nat): Ordering {
    if a < b then Lt else if a == b then Eq else Gt
  }

  function CmpNode(a: NodeId, b: NodeId): Ordering {
    if Less(a, b) then Lt else if a == b then Eq else Gt
  }

  /** The timestamp order: wall time, then counter, then node. */
  function Cmp(a: Timestamp, b: Timestamp): Ordering {
    CmpNat(a.wallMs, b.wallMs).Then(CmpNat(a.counter, b.counter)).Then(CmpNode(a.node, b.node))
  }

  predicate Before(a: Timestamp, b: Timestamp) {
    Cmp(a, b) == Lt
  }

  /** Two timestamps compare equal only when they are the same, so no tie is ever undecided. */
  lemma CmpIsTotalOrder(a: Timestamp, b: Timestamp)
    ensures Cmp(a, b) == Eq <==> a == b
    ensures Cmp(a, b) == Lt <==> Cmp(b, a) == Gt
  {
    LessIsStrictTotalOrder(a.node, b.node);
  }

  lemma CmpIsTransitive(a: Timestamp, b: Timestamp, c: Timestamp)
    requires Cmp(a, b) != Gt && Cmp(b, c) != Gt
    ensures Cmp(a, c) != Gt
    ensures Cmp(a, c) == Eq ==> a == b == c
  {
    CmpIsTotalOrder(a, b);
    CmpIsTotalOrder(b, c);
    CmpIsTotalOrder(a, c);
    if a.wallMs == b.wallMs == c.wallMs && a.counter == b.counter == c.counter && a != b && b != c {
      LessIsTransitive(a.node, b.node, c.node);
      LessIsStrictTotalOrder(a.node, c.node);
      if a.node == c.node { LessIsStrictTotalOrder(a.node, b.node); }
    }
  }

  /** Where the ids first differ: one ends there and is a proper prefix of the other, or its character is smaller. */
  predicate ComesFirst(a: NodeId, b: NodeId, k: nat) {
    && k <= |a| && k <= |b| && a[..k] == b[..k]
    && ((k == |a| && k < |b|) || (k < |a| && k < |b| && a[k] < b[k]))
  }

  /** The smaller timestamp has the smaller wall time, on a tie the smaller counter, on a tie the id that comes first. */
  lemma CmpIsLexicographic(a: Timestamp, b: Timestamp)
    ensures Cmp(a, b) == Lt <==>
            || a.wallMs < b.wallMs
            || (a.wallMs == b.wallMs && a.counter < b.counter)
            || (a.wallMs == b.wallMs && a.counter == b.counter && exists k :: ComesFirst(a.node, b.node, k))
  {
    if k :| ComesFirst(a.node, b.node, k) {
      FirstDifferenceDecides(a.node, b.node, k);
    }
    if Less(a.node, b.node) {
      var k := FirstDifference(a.node, b.node);
    }
  }

  lemma {:induction false} FirstDifference(a: NodeId, b: NodeId) returns (k: nat)
    requires Less(a, b)
    ensures ComesFirst(a, b, k)
  {
    k := 0;
    if |a| > 0 && a[0] == b[0] {
      k := FirstDifference(a[1..], b[1..]);
      assert a[..k + 1] == [a[0]] + a[1..][..k] && b[..k + 1] == [b[0]] + b[1..][..k];
      k := k + 1;
    }
  }

  /** The mutable part of a clock, as a value. */
  datatype Clock = Clock(wallMs: nat, counter: nat) {
    predicate Precedes(other: Clock) {
      wallMs < other.wallMs || (wallMs == other.wallMs && counter < other.counter)
    }

    predicate AtMost(other: Clock) {
      this == other || Precedes(other)
    }
  }

  const FRESH := Clock(0, 0)

  function Stamped(c: Clock, node: NodeId): Timestamp {
    Timestamp(c.wallMs, c.counter, node)
  }

  /** What `now` must leave in the clock: the later of the two wall times. */
  function Tick(c: Clock, reading: nat): (r: Clock)
    ensures c.Precedes(r)
  {
    var wall := Max(c.wallMs, reading);
    Clock(wall, if wall == c.wallMs then c.counter + 1 else 0)
  }

  /**
   What `receive` must leave in the clock: the latest of the three wall times, and a counter above
   that of every source that already showed that wall time.
   */
  function Absorb(c: Clock, remote: Timestamp, reading: nat): (r: Clock)
    ensures c.Precedes(r) && Clock(remote.wallMs, remote.counter).Precedes(r)
  {
    var wall := Max(Max(c.wallMs, remote.wallMs), reading);
    var local := if wall == c.wallMs then c.counter + 1 else 0;
    var heard := if wall == remote.wallMs then remote.counter + 1 else 0;
    Clock(wall, Max(local, heard))
  }

  class HybridClock {
    const nodeId: NodeId
    var lastWallMs: nat
    var counter: nat

    ghost function State(): Clock
      reads this
    {
      Clock(lastWallMs, counter)
    }

    constructor (nodeId: NodeId)
      ensures this.nodeId == nodeId && State() == FRESH
    {
      this.nodeId := nodeId;
      lastWallMs, counter := 0, 0;
    }

    method Now(reading: nat) returns (t: Timestamp)
      modifies this
      ensures State() == Tick(old(State()), reading)
      ensures t == Stamped(State(), nodeId)
      ensures Before(Stamped(old(State()), nodeId), t)
    {
      if reading > lastWallMs {
        lastWallMs := reading;
        counter := 0;
      } else {
        counter := counter + 1;
      }
      t := Timestamp(lastWallMs, counter, nodeId);
    }

    method Receive(remote: Timestamp, reading: nat) returns (t: Timestamp)
      modifies this
      ensures State() == Absorb(old(State()), remote, reading)
      ensures t == Stamped(State(), nodeId)
      ensures Before(remote, t) && Before(Stamped(old(State()), nodeId), t)
    {
      if reading > lastWallMs && reading > remote.wallMs {
        lastWallMs := reading;
        counter := 0;
      } else if remote.wallMs > lastWallMs {
        lastWallMs := remote.wallMs;
        counter := remote.counter + 1;
      } else if lastWallMs > remote.wallMs {
        counter := counter + 1;
      } else {
        counter := Max(counter, remote.counter) + 1;
      }
      t := Timestamp(lastWallMs, counter, nodeId);
    }
  }
}
