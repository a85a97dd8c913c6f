/** Per-node counters: the state shared by vector clocks, G-Counters and OR-Set sequence numbers. */
module Slots {
  import opened Wrappers
  import opened NodeIds

  type Slots = map<NodeId, nat>

  function Get(s: Slots, n: NodeId): nat {
    if n in s then s[n] else 0
  }

  function Bump(s: Slots, n: NodeId, amount: nat): Slots {
    s[n := Get(s, n) + amount]
  }

  /** Point-wise maximum. */
  function Join(a: Slots, b: Slots): (r: Slots)
    ensures r.Keys == a.Keys + b.Keys
    ensures forall n :: Get(r, n) == Max(Get(a, n), Get(b, n))
  {
    map n | n in a.Keys + b.Keys :: Max(Get(a, n), Get(b, n))
  }

  predicate Leq(a: Slots, b: Slots) {
    forall n | n in a :: a[n] <= Get(b, n)
  }

  lemma SameSlots(a: Slots, b: Slots)
    requires a.Keys == b.Keys && forall n | n in a :: Get(a, n) == Get(b, n)
    ensures a == b
  {
    forall n | n in a ensures a[n] == b[n] {
      assert Get(a, n) == Get(b, n);
    }
  }

  /** Merging is the least upper bound of the two sides. */
  lemma JoinIsLeastUpperBound(a: Slots, b: Slots, c: Slots)
    ensures Leq(a, Join(a, b)) && Leq(b, Join(a, b))
    ensures Leq(a, c) && Leq(b, c) ==> Leq(Join(a, b), c)
  {
    forall n | n in a ensures a[n] <= Get(Join(a, b), n) {
      assert Get(a, n) == a[n];
    }
    forall n | n in b ensures b[n] <= Get(Join(a, b), n) {
      assert Get(b, n) == b[n];
    }
  }

  /** So replicas may merge in any order, any grouping and any number of times. */
  lemma JoinIsSemilattice(a: Slots, b: Slots, c: Slots)
    ensures Join(a, b) == Join(b, a)
    ensures Join(Join(a, b), c) == Join(a, Join(b, c))
    ensures Join(a, a) == a
  {
    SameSlots(Join(a, b), Join(b, a));
    SameSlots(Join(a, a), a);
    JoinIsAssociative(a, b, c);
  }

  lemma JoinIsAssociative(a: Slots, b: Slots, c: Slots)
    ensures Join(Join(a, b), c) == Join(a, Join(b, c))
  {
    var l, r := Join(Join(a, b), c), Join(a, Join(b, c));
    assert l.Keys == a.Keys + b.Keys + c.Keys == r.Keys;
    SameSlots(l, r);
  }

  /** The loop behind every `merge`: visit the other side's slots in any order. */
  method MergeInto(mine: Slots, theirs: Slots) returns (merged: Slots)
    ensures merged == Join(mine, theirs)
  {
    merged := mine;
    var todo := theirs.Keys;
    while todo != {}
      invariant todo <= theirs.Keys
      invariant merged.Keys == mine.Keys + (theirs.Keys - todo)
      invariant forall n | n in merged ::
                  merged[n] == if n in todo then Get(mine, n) else Max(Get(mine, n), Get(theirs, n))
    {
      var n :| n in todo;
      var entry := Get(merged, n);
      merged := merged[n := Max(entry, theirs[n])];
      todo := todo - {n};
    }
    SameSlots(merged, Join(mine, theirs));
  }

  /** The loop behind `is_before_or_equal`: stop at the first slot that is ahead. */
  method IsLeq(a: Slots, b: Slots) returns (r: bool)
    ensures r == Leq(a, b)
  {
    var todo := a.Keys;
    while todo != {}
      invariant todo <= a.Keys
      invariant forall n | n in a && n !in todo :: a[n] <= Get(b, n)
    {
      var n :| n in todo;
      if a[n] > Get(b, n) {
        return false;
      }
      todo := todo - {n};
    }
    return true;
  }
}
