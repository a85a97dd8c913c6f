/** The replicated data types: last-writer-wins map and register, grow-only counter, observed-remove set. */
module Crdts {
  import opened Wrappers
  import opened NodeIds
  import opened HybridLogicalClock
  import opened Slots

  // ---------------------------------------------------------------- last writer wins

  /** One key's state; no value means a tombstone. */
  datatype Entry<+V> = Entry(value: Option<V>, timestamp: Timestamp)

  type Entries<K(==), V> = map<K, Entry<V>>

  /** Whether an entry already held under this key keeps its place against a stamp. */
  predicate Holds<K, V>(m: Entries<K, V>, k: K, t: Timestamp) {
    k in m && Cmp(m[k].timestamp, t) != Lt
  }

  function Offer<K, V>(m: Entries<K, V>, k: K, e: Entry<V>): Entries<K, V> {
    if Holds(m, k, e.timestamp) then m else m[k := e]
  }

  function MergeMaps<K, V>(mine: Entries<K, V>, theirs: Entries<K, V>): (r: Entries<K, V>)
    ensures r.Keys == mine.Keys + theirs.Keys
  {
    map k | k in mine.Keys + theirs.Keys ::
      if k in theirs && !Holds(mine, k, theirs[k].timestamp) then theirs[k] else mine[k]
  }

  /** Local entries win ties, so merging commutes exactly when equal stamps mean equal entries. */
  lemma MergeMapsCommutesIff<K, V>(a: Entries<K, V>, b: Entries<K, V>)
    ensures MergeMaps(a, b) == MergeMaps(b, a) <==>
            (forall k | k in a && k in b && a[k].timestamp == b[k].timestamp :: a[k] == b[k])
  {
    var ab, ba := MergeMaps(a, b), MergeMaps(b, a);
    forall k | k in a && k in b ensures ab[k] == ba[k] <==> (a[k].timestamp == b[k].timestamp ==> a[k] == b[k]) {
      CmpIsTotalOrder(a[k].timestamp, b[k].timestamp);
    }
    if forall k | k in a && k in b && a[k].timestamp == b[k].timestamp :: a[k] == b[k] {
      assert ab.Keys == ba.Keys;
      forall k | k in ab ensures ab[k] == ba[k] {
      }
    } else {
      var k :| k in a && k in b && a[k].timestamp == b[k].timestamp && a[k] != b[k];
      assert ab[k] != ba[k];
    }
  }

  class LWWMap<K(==), V> {
    var entries: Entries<K, V>

    constructor ()
      ensures entries == map[]
    {
      entries := map[];
    }

    method Set(key: K, value: V, timestamp: Timestamp) returns (applied: bool)
      modifies this
      ensures entries == Offer(old(entries), key, Entry(Some(value), timestamp))
      ensures applied <==> !Holds(old(entries), key, timestamp)
    {
      if key in entries && Cmp(entries[key].timestamp, timestamp) != Lt {
        return false;
      }
      entries := entries[key := Entry(Some(value), timestamp)];
      return true;
    }

    method Remove(key: K, timestamp: Timestamp) returns (applied: bool)
      modifies this
      ensures entries == Offer(old(entries), key, Entry(None, timestamp))
      ensures applied <==> !Holds(old(entries), key, timestamp)
    {
      if key in entries && Cmp(entries[key].timestamp, timestamp) != Lt {
        return false;
      }
      entries := entries[key := Entry(None, timestamp)];
      return true;
    }

    method Merge(other: LWWMap<K, V>)
      modifies this
      ensures entries == MergeMaps(old(entries), old(other.entries))
    {
      var mine, theirs := entries, other.entries;
      var todo := theirs.Keys;
      while todo != {}
        invariant todo <= theirs.Keys
        invariant entries.Keys == mine.Keys + (theirs.Keys - todo)
        invariant forall k | k in entries ::
                    entries[k] == if k in todo then mine[k] else MergeMaps(mine, theirs)[k]
      {
        var k :| k in todo;
        if k in entries && Cmp(entries[k].timestamp, theirs[k].timestamp) != Lt {
          // the local entry wins
        } else {
          entries := entries[k := theirs[k]];
        }
        todo := todo - {k};
      }
      assert entries == MergeMaps(mine, theirs);
    }
  }

  datatype Register<+T> = Register(value: T, timestamp: Timestamp)

  /** The later of the two; on a tie the first. */
  function Later<T>(a: Register<T>, b: Register<T>): Register<T> {
    if Cmp(b.timestamp, a.timestamp) == Gt then b else a
  }

  class LWWRegister<T> {
    var value: T
    var timestamp: Timestamp

    function Contents(): Register<T>
      reads this
    {
      Register(value, timestamp)
    }

    constructor (value: T, timestamp: Timestamp)
      ensures this.value == value && this.timestamp == timestamp
    {
      this.value, this.timestamp := value, timestamp;
    }

    /** The later stamp stays, with its value; on a tie the register keeps what it had. */
    method Set(value: T, timestamp: Timestamp) returns (applied: bool)
      modifies this
      ensures applied <==> Before(old(this.timestamp), timestamp)
      ensures Contents() == Later(old(Contents()), Register(value, timestamp))
      ensures !Before(this.timestamp, timestamp) && !Before(this.timestamp, old(this.timestamp))
    {
      CmpIsTotalOrder(timestamp, this.timestamp);
      CmpIsTotalOrder(timestamp, timestamp);
      CmpIsTotalOrder(this.timestamp, this.timestamp);
      if Cmp(timestamp, this.timestamp) == Gt {
        this.value, this.timestamp := value, timestamp;
        return true;
      }
      return false;
    }

    method Merge(other: LWWRegister<T>)
      modifies this
      ensures Contents() == Later(old(Contents()), old(other.Contents()))
      ensures !Before(timestamp, old(timestamp)) && !Before(timestamp, old(other.timestamp))
    {
      var _ := Set(other.value, other.timestamp);
    }
  }

  // ---------------------------------------------------------------- grow-only counter

  /** The sum of all slots. */
  ghost function Sum(s: Slots): nat
    decreases |s|
  {
    if s == map[] then 0
    else
      assert |s.Keys| > 0;
      var n :| n in s;
      assert (s - {n}).Keys == s.Keys - {n};
      s[n] + Sum(s - {n})
  }

  /** The sum does not depend on the order in which slots are visited. */
  lemma {:induction false} SumSplits(s: Slots, n: NodeId)
    requires n in s
    ensures |s - {n}| < |s|
    ensures Sum(s) == s[n] + Sum(s - {n})
    decreases |s|
  {
    assert (s - {n}).Keys == s.Keys - {n};
    var m :| m in s && Sum(s) == s[m] + Sum(s - {m});
    if m != n {
      assert (s - {m}).Keys == s.Keys - {m};
      SumSplits(s - {m}, n);
      SumSplits(s - {n}, m);
      assert s - {m} - {n} == s - {n} - {m};
    }
  }

  lemma SumOfBump(s: Slots, n: NodeId, amount: nat)
    ensures Sum(Bump(s, n, amount)) == Sum(s) + amount
  {
    var t := Bump(s, n, amount);
    SumSplits(t, n);
    if n in s {
      SumSplits(s, n);
      assert t - {n} == s - {n};
    } else {
      assert t - {n} == s;
    }
  }

  /** Slots that hold zero do not matter to the sum. */
  lemma {:induction false} SumOfZeroes(s: Slots)
    requires forall n :: Get(s, n) == 0
    ensures Sum(s) == 0
    decreases |s|
  {
    if s != map[] {
      assert |s.Keys| > 0;
      var n :| n in s;
      assert Get(s, n) == 0;
      SumSplits(s, n);
      forall m ensures Get(s - {n}, m) == 0 {
        assert Get(s, m) == 0;
      }
      SumOfZeroes(s - {n});
    }
  }

  lemma {:induction false} SumDependsOnReadings(a: Slots, b: Slots)
    requires forall n :: Get(a, n) == Get(b, n)
    ensures Sum(a) == Sum(b)
    decreases |a|
  {
    if a == map[] {
      forall n ensures Get(b, n) == 0 {
        assert Get(a, n) == Get(b, n);
      }
      SumOfZeroes(b);
    } else {
      assert |a.Keys| > 0;
      var n :| n in a;
      SumSplits(a, n);
      var b' := if n in b then b - {n} else b;
      if n in b { SumSplits(b, n); }
      assert Get(a, n) == Get(b, n);
      forall m ensures Get(a - {n}, m) == Get(b', m) {
        assert Get(a, m) == Get(b, m);
      }
      SumDependsOnReadings(a - {n}, b');
    }
  }

  class GCounter {
    var counts: Slots

    constructor ()
      ensures counts == map[]
    {
      counts := map[];
    }

    method IncrementBy(n: NodeId, amount: nat)
      modifies this
      ensures counts == Bump(old(counts), n, amount)
      ensures Sum(counts) == Sum(old(counts)) + amount
    {
      SumOfBump(counts, n, amount);
      if n !in counts {
        counts := counts[n := 0];
      }
      counts := counts[n := counts[n] + amount];
      assert counts == Bump(old(counts), n, amount);
    }

    method Value() returns (total: nat)
      ensures total == Sum(counts)
    {
      total := 0;
      var rest := counts;
      while rest != map[]
        invariant total + Sum(rest) == Sum(counts)
        decreases |rest|
      {
        assert |rest.Keys| > 0;
        var n :| n in rest.Keys;
        SumSplits(rest, n);
        total := total + rest[n];
        rest := rest - {n};
      }
    }

    method Merge(other: GCounter)
      modifies this
      ensures counts == Join(old(counts), old(other.counts))
    {
      counts := MergeInto(counts, other.counts);
    }
  }

  // ---------------------------------------------------------------- observed-remove set

  datatype AddTag = AddTag(node: NodeId, seq_: nat)

  type Members<T(==)> = map<T, set<AddTag>>

  function Tags<T>(m: Members<T>, x: T): set<AddTag> {
    if x in m then m[x] else {}
  }

  predicate Contains<T>(m: Members<T>, x: T) {
    Tags(m, x) != {}
  }

  function Union<T(!new)>(a: Members<T>, b: Members<T>): (r: Members<T>)
    ensures r.Keys == a.Keys + b.Keys
    ensures forall x :: Tags(r, x) == Tags(a, x) + Tags(b, x)
  {
    map x | x in a.Keys + b.Keys :: Tags(a, x) + Tags(b, x)
  }

  lemma SameMembers<T>(a: Members<T>, b: Members<T>)
    requires a.Keys == b.Keys && forall x | x in a :: Tags(a, x) == Tags(b, x)
    ensures a == b
  {
    forall x | x in a ensures a[x] == b[x] {
      assert Tags(a, x) == Tags(b, x);
    }
  }

  /** Sets also merge in any order, any grouping and any number of times. */
  lemma UnionIsSemilattice<T(!new)>(a: Members<T>, b: Members<T>, c: Members<T>)
    ensures Union(a, b) == Union(b, a)
    ensures Union(a, a) == a
    ensures Union(Union(a, b), c) == Union(a, Union(b, c))
  {
    SameMembers(Union(a, b), Union(b, a));
    SameMembers(Union(a, a), a);
    UnionIsAssociative(a, b, c);
  }

  lemma UnionIsAssociative<T(!new)>(a: Members<T>, b: Members<T>, c: Members<T>)
    ensures Union(Union(a, b), c) == Union(a, Union(b, c))
  {
    var l, r := Union(Union(a, b), c), Union(a, Union(b, c));
    assert l.Keys == a.Keys + b.Keys + c.Keys == r.Keys;
    forall x | x in l ensures Tags(l, x) == Tags(r, x) {
      UnionIsAssociativeAt(a, b, c, x);
    }
    SameMembers(l, r);
  }

  lemma UnionIsAssociativeAt<T(!new)>(a: Members<T>, b: Members<T>, c: Members<T>, x: T)
    ensures Tags(Union(Union(a, b), c), x) == Tags(Union(a, Union(b, c)), x)
  {
    assert Tags(Union(Union(a, b), c), x) == Tags(a, x) + Tags(b, x) + Tags(c, x);
  }

  /**
   A removal survives a merge exactly when the other side does not hold the element: there are no
   tombstones, so an older state that still holds it brings it back.
   */
  lemma RemovalSurvivesIff<T(!new)>(m: Members<T>, other: Members<T>, x: T)
    ensures !Contains(Union(m - {x}, other), x) <==> !Contains(other, x)
  {
    assert Tags(m - {x}, x) == {};
  }

  class ORSet<T(==, !new)> {
    var elements: Members<T>
    var seqCounters: Slots

    constructor ()
      ensures elements == map[] && seqCounters == map[]
    {
      elements, seqCounters := map[], map[];
    }

    method Add(element: T, n: NodeId) returns (tag: AddTag)
      modifies this
      ensures seqCounters == Bump(old(seqCounters), n, 1)
      ensures tag == AddTag(n, Get(seqCounters, n))
      ensures elements == Union(old(elements), map[element := {tag}])
    {
      if n !in seqCounters {
        seqCounters := seqCounters[n := 0];
      }
      seqCounters := seqCounters[n := seqCounters[n] + 1];
      tag := AddTag(n, seqCounters[n]);
      elements := elements[element := Tags(elements, element) + {tag}];
      SameMembers(elements, Union(old(elements), map[element := {tag}]));
    }

    method Remove(element: T) returns (present: bool)
      modifies this
      ensures elements == old(elements) - {element} && seqCounters == old(seqCounters)
      ensures present <==> element in old(elements)
    {
      present := element in elements;
      elements := elements - {element};
    }

    method Merge(other: ORSet<T>)
      modifies this
      ensures elements == Union(old(elements), old(other.elements))
      ensures seqCounters == Join(old(seqCounters), old(other.seqCounters))
    {
      var mine, theirs := elements, other.elements;
      var todo := theirs.Keys;
      while todo != {}
        invariant todo <= theirs.Keys
        invariant seqCounters == old(seqCounters) && other.seqCounters == old(other.seqCounters)
        invariant elements.Keys == mine.Keys + (theirs.Keys - todo)
        invariant forall x | x in elements ::
                    elements[x] == if x in todo then Tags(mine, x) else Tags(mine, x) + Tags(theirs, x)
      {
        var x :| x in todo;
        elements := elements[x := Tags(elements, x) + theirs[x]];
        todo := todo - {x};
      }
      SameMembers(elements, Union(mine, theirs));
      seqCounters := MergeInto(seqCounters, other.seqCounters);
    }
  }
}
