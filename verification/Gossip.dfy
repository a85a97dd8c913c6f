/**
 Every run of any number of nodes that change their replicas locally and gossip whole states.

 `log` records each change once, in the order the changes happened, and every copy of a replica
 carries the set of log positions that have reached it. That set is only ever extended by the
 change made locally or joined with the set of a delivered copy; the replicated data itself is only
 ever changed by the operations of the data types. The theorems relate the two.

 A sent copy stays in `net` and may be delivered to any node, any number of times, in any order, or never.
 */
module Gossip {
  import opened Wrappers
  import opened NodeIds
  import opened HybridLogicalClock
  import opened Slots
  import opened Crdts

  type Key(==, !new)
  type Value(!new)
  type Elem(==, !new)

  datatype Change =
    | Write(node: NodeId, key: Key, entry: Entry<Value>)
    | Count(node: NodeId, amount: nat)
    | Insert(node: NodeId, elem: Elem, tag: AddTag)

  datatype Replica = Replica(
    clock: Clock,
    fields: Entries<Key, Value>,
    counts: Slots,
    members: Members<Elem>,
    seqs: Slots,
    known: set<nat>)

  datatype State = State(log: seq<Change>, nodes: map<NodeId, Replica>, net: seq<Replica>) {
    function At(n: NodeId): Replica {
      if n in nodes then nodes[n] else NEW_REPLICA
    }

    ghost predicate IsCopy(r: Replica) {
      r == NEW_REPLICA || r in nodes.Values || r in net
    }

    function Put(n: NodeId, r: Replica): State {
      this.(nodes := nodes[n := r])
    }
  }

  const NEW_REPLICA := Replica(FRESH, map[], map[], map[], map[], {})
  const INITIAL := State([], map[], [])

  datatype Step =
    | SetKey(n: NodeId, key: Key, value: Value, reading: nat)
    | RemoveKey(n: NodeId, key: Key, reading: nat)
    | HearClock(n: NodeId, remote: Timestamp, reading: nat)
    | Increment(n: NodeId, amount: nat)
    | AddElem(n: NodeId, elem: Elem)
    | RemoveElem(n: NodeId, elem: Elem)
    | Send(n: NodeId)
    | Deliver(n: NodeId, message: nat)

  /** A write is stamped by the node's own clock. */
  function StampedWrite(s: State, n: NodeId, key: Key, value: Option<Value>, reading: nat): State {
    var r := s.At(n);
    var clock := Tick(r.clock, reading);
    var entry := Entry(value, Stamped(clock, n));
    s.(log := s.log + [Write(n, key, entry)])
     .Put(n, r.(clock := clock, fields := Offer(r.fields, key, entry), known := r.known + {|s.log|}))
  }

  function CountUp(s: State, n: NodeId, amount: nat): State {
    var r := s.At(n);
    s.(log := s.log + [Count(n, amount)])
     .Put(n, r.(counts := Bump(r.counts, n, amount), known := r.known + {|s.log|}))
  }

  function TaggedAdd(s: State, n: NodeId, elem: Elem): State {
    var r := s.At(n);
    var seqs := Bump(r.seqs, n, 1);
    var tag := AddTag(n, Get(seqs, n));
    s.(log := s.log + [Insert(n, elem, tag)])
     .Put(n, r.(seqs := seqs, members := Union(r.members, map[elem := {tag}]), known := r.known + {|s.log|}))
  }

  function Merged(mine: Replica, theirs: Replica): Replica {
    Replica(mine.clock,
            MergeMaps(mine.fields, theirs.fields),
            Join(mine.counts, theirs.counts),
            Union(mine.members, theirs.members),
            Join(mine.seqs, theirs.seqs),
            mine.known + theirs.known)
  }

  function Next(s: State, step: Step): State {
    match step
    case SetKey(n, key, value, reading) => StampedWrite(s, n, key, Some(value), reading)
    case RemoveKey(n, key, reading) => StampedWrite(s, n, key, None, reading)
    case HearClock(n, remote, reading) => s.Put(n, s.At(n).(clock := Absorb(s.At(n).clock, remote, reading)))
    case Increment(n, amount) => CountUp(s, n, amount)
    case AddElem(n, elem) => TaggedAdd(s, n, elem)
    case RemoveElem(n, elem) => s.Put(n, s.At(n).(members := s.At(n).members - {elem}))
    case Send(n) => s.(net := s.net + [s.At(n)])
    case Deliver(n, i) => if i < |s.net| then s.Put(n, Merged(s.At(n), s.net[i])) else s
  }

  function Exec(steps: seq<Step>): State {
    if steps == [] then INITIAL
    else Next(Exec(steps[..|steps| - 1]), steps[|steps| - 1])
  }

  // ---------------------------------------------------------------- totals over known changes

  datatype Weight = Amounts | Inserts

  function WeightOf(c: Change, w: Weight): nat {
    if c.Count? && w == Amounts then c.amount
    else if c.Insert? && w == Inserts then 1
    else 0
  }

  /** The weight of node n's changes among the known ones below position t. */
  function Total(log: seq<Change>, t: nat, known: set<nat>, n: NodeId, w: Weight): nat
    requires t <= |log|
  {
    if t == 0 then 0
    else
      Total(log, t - 1, known, n, w) +
      if t - 1 in known && log[t - 1].node == n then WeightOf(log[t - 1], w) else 0
  }

  ghost predicate SubsetOf(log: seq<Change>, t: nat, a: set<nat>, b: set<nat>, n: NodeId)
    requires t <= |log|
  {
    forall i: nat | i < t && log[i].node == n && i in a :: i in b
  }

  lemma {:induction false} TotalIsMonotone(log: seq<Change>, t: nat, a: set<nat>, b: set<nat>, n: NodeId, w: Weight)
    requires t <= |log| && SubsetOf(log, t, a, b, n)
    ensures Total(log, t, a, n, w) <= Total(log, t, b, n, w)
    ensures SubsetOf(log, t, b, a, n) ==> Total(log, t, a, n, w) == Total(log, t, b, n, w)
  {
    if t > 0 {
      TotalIsMonotone(log, t - 1, a, b, n, w);
    }
  }

  lemma {:induction false} TotalOfPrefix(log: seq<Change>, longer: seq<Change>, t: nat, known: set<nat>, n: NodeId, w: Weight)
    requires t <= |log| && log <= longer
    ensures Total(longer, t, known, n, w) == Total(log, t, known, n, w)
  {
    if t > 0 {
      TotalOfPrefix(log, longer, t - 1, known, n, w);
    }
  }

  /** A node's changes reach every copy in the order they were made. */
  ghost predicate PrefixClosed(log: seq<Change>, known: set<nat>) {
    forall i: nat, j: nat | i < j < |log| && j in known && log[i].node == log[j].node :: i in known
  }

  /** Of two copies, one knows all that the other knows about node n: their join counts nothing twice. */
  lemma TotalOfJoin(log: seq<Change>, a: set<nat>, b: set<nat>, n: NodeId, w: Weight)
    requires PrefixClosed(log, a) && PrefixClosed(log, b)
    ensures Total(log, |log|, a + b, n, w) == Max(Total(log, |log|, a, n, w), Total(log, |log|, b, n, w))
  {
    var t := |log|;
    if SubsetOf(log, t, a, b, n) {
      TotalIsMonotone(log, t, a, b, n, w);
      TotalIsMonotone(log, t, b, a + b, n, w);
    } else {
      assert SubsetOf(log, t, b, a, n);
      TotalIsMonotone(log, t, b, a, n, w);
      TotalIsMonotone(log, t, a, a + b, n, w);
    }
  }

  // ---------------------------------------------------------------- what every copy satisfies

  ghost predicate Knows(log: seq<Change>, known: set<nat>, c: Change) {
    exists i: nat :: i < |log| && i in known && log[i] == c
  }

  /** Every entry is one of the known writes of its key. */
  ghost predicate EntriesKnown(log: seq<Change>, fields: Entries<Key, Value>, known: set<nat>) {
    forall k | k in fields :: exists n :: Knows(log, known, Write(n, k, fields[k]))
  }

  /** No known write of a key has a later stamp than the key's entry. */
  ghost predicate NoneLater(log: seq<Change>, fields: Entries<Key, Value>, known: set<nat>) {
    forall i: nat | i < |log| && i in known && log[i].Write? ::
      log[i].key in fields && Cmp(log[i].entry.timestamp, fields[log[i].key].timestamp) != Gt
  }

  /** Each entry is the latest of the known writes of its key. */
  ghost predicate HoldsLatest(log: seq<Change>, fields: Entries<Key, Value>, known: set<nat>) {
    EntriesKnown(log, fields, known) && NoneLater(log, fields, known)
  }

  ghost predicate TagsAreKnown(log: seq<Change>, members: Members<Elem>, known: set<nat>) {
    forall x, tag | tag in Tags(members, x) :: Knows(log, known, Insert(tag.node, x, tag))
  }

  ghost predicate CountsExactly(log: seq<Change>, slots: Slots, known: set<nat>, w: Weight) {
    forall n :: Get(slots, n) == Total(log, |log|, known, n, w)
  }

  ghost predicate Good(log: seq<Change>, r: Replica) {
    && (forall i | i in r.known :: i < |log|)
    && PrefixClosed(log, r.known)
    && HoldsLatest(log, r.fields, r.known)
    && CountsExactly(log, r.counts, r.known, Amounts)
    && CountsExactly(log, r.seqs, r.known, Inserts)
    && TagsAreKnown(log, r.members, r.known)
  }

  ghost predicate KnowsOwn(s: State, n: NodeId) {
    forall i: nat | i < |s.log| && s.log[i].node == n :: i in s.At(n).known
  }

  function StampClock(t: Timestamp): Clock {
    Clock(t.wallMs, t.counter)
  }

  ghost predicate Own(c: Change) {
    (c.Write? ==> c.entry.timestamp.node == c.node) && (c.Insert? ==> c.tag.node == c.node)
  }

  /** A node's writes carry growing stamps, and its insertions growing sequence numbers. */
  ghost predicate Ordered(a: Change, b: Change) {
    && (a.Write? && b.Write? && a.node == b.node ==>
          StampClock(a.entry.timestamp).Precedes(StampClock(b.entry.timestamp)))
    && (a.Insert? && b.Insert? && a.node == b.node ==> a.tag.seq_ < b.tag.seq_)
  }

  /** What a node has issued so far stays within its clock and its own sequence counter. */
  ghost predicate Issued(s: State, c: Change) {
    && (c.Write? ==> StampClock(c.entry.timestamp).AtMost(s.At(c.node).clock))
    && (c.Insert? ==> c.tag.seq_ <= Get(s.At(c.node).seqs, c.node))
  }

  ghost predicate LogGood(s: State) {
    && (forall i | 0 <= i < |s.log| :: Own(s.log[i]) && Issued(s, s.log[i]))
    && (forall i, j | 0 <= i < j < |s.log| :: Ordered(s.log[i], s.log[j]))
  }

  ghost predicate Inv(s: State) {
    && (forall r | s.IsCopy(r) :: Good(s.log, r))
    && (forall n :: KnowsOwn(s, n))
    && LogGood(s)
  }

  // ---------------------------------------------------------------- every step keeps it

  lemma CopiesAfterPut(s: State, n: NodeId, r: Replica, c: Replica)
    ensures s.Put(n, r).IsCopy(c) ==> c == r || s.IsCopy(c)
    ensures s.IsCopy(s.At(n))
  {
    if n in s.nodes { assert s.nodes[n] in s.nodes.Values; }
    var s' := s.Put(n, r);
    if c in s'.nodes.Values {
      var m :| m in s'.nodes && s'.nodes[m] == c;
      if m != n { assert s.nodes[m] in s.nodes.Values; }
    }
  }

  lemma KnowsInLonger(log: seq<Change>, longer: seq<Change>, known: set<nat>, c: Change)
    requires log <= longer && Knows(log, known, c)
    ensures forall more: set<nat> | known <= more :: Knows(longer, more, c)
  {
    var i: nat :| i < |log| && i in known && log[i] == c;
    assert longer[i] == c;
  }

  /** Growing the log disturbs no copy that has not yet heard of the new change. */
  lemma GoodInLonger(log: seq<Change>, c: Change, r: Replica)
    requires Good(log, r)
    ensures Good(log + [c], r)
  {
    var longer := log + [c];
    forall k | k in r.fields ensures exists n :: Knows(longer, r.known, Write(n, k, r.fields[k])) {
      var n :| Knows(log, r.known, Write(n, k, r.fields[k]));
      KnowsInLonger(log, longer, r.known, Write(n, k, r.fields[k]));
      assert Knows(longer, r.known, Write(n, k, r.fields[k]));
    }
    forall x, tag | tag in Tags(r.members, x) ensures Knows(longer, r.known, Insert(tag.node, x, tag)) {
      KnowsInLonger(log, longer, r.known, Insert(tag.node, x, tag));
    }
    forall n, w ensures Total(longer, |longer|, r.known, n, w) == Total(log, |log|, r.known, n, w) {
      TotalOfPrefix(log, longer, |log|, r.known, n, w);
    }
  }

  /** Learning of the newest change adds its weight, and only its weight. */
  lemma TotalAfterChange(log: seq<Change>, c: Change, known: set<nat>, n: NodeId, w: Weight)
    requires forall i | i in known :: i < |log|
    ensures var longer := log + [c];
            Total(longer, |longer|, known + {|log|}, n, w) ==
            Total(log, |log|, known, n, w) + if c.node == n then WeightOf(c, w) else 0
  {
    var longer := log + [c];
    TotalOfPrefix(log, longer, |log|, known + {|log|}, n, w);
    TotalIsMonotone(log, |log|, known, known + {|log|}, n, w);
  }

  lemma CountsAfterChange(log: seq<Change>, c: Change, slots: Slots, known: set<nat>, w: Weight)
    requires forall i | i in known :: i < |log|
    requires CountsExactly(log, slots, known, w)
    ensures WeightOf(c, w) == 0 ==> CountsExactly(log + [c], slots, known + {|log|}, w)
    ensures CountsExactly(log + [c], Bump(slots, c.node, WeightOf(c, w)), known + {|log|}, w)
  {
    forall n ensures Total(log + [c], |log + [c]|, known + {|log|}, n, w) ==
                     Get(slots, n) + if c.node == n then WeightOf(c, w) else 0 {
      TotalAfterChange(log, c, known, n, w);
    }
  }

  lemma LatestAfterChange(log: seq<Change>, c: Change, fields: Entries<Key, Value>, known: set<nat>)
    requires HoldsLatest(log, fields, known) && forall i | i in known :: i < |log|
    ensures HoldsLatest(log + [c], if c.Write? then Offer(fields, c.key, c.entry) else fields, known + {|log|})
  {
    var longer, more := log + [c], known + {|log|};
    var fields' := if c.Write? then Offer(fields, c.key, c.entry) else fields;
    assert Knows(longer, more, c) by { assert longer[|log|] == c; }
    forall k | k in fields' ensures exists n :: Knows(longer, more, Write(n, k, fields'[k])) {
      if k in fields && fields'[k] == fields[k] {
        var n :| Knows(log, known, Write(n, k, fields[k]));
        KnowsInLonger(log, longer, known, Write(n, k, fields[k]));
        assert Knows(longer, more, Write(n, k, fields'[k]));
      } else {
        assert Knows(longer, more, Write(c.node, k, fields'[k]));
      }
    }
    forall i: nat | i < |longer| && i in more && longer[i].Write?
      ensures longer[i].key in fields' && Cmp(longer[i].entry.timestamp, fields'[longer[i].key].timestamp) != Gt
    {
      if c.Write? {
        CmpIsTotalOrder(c.entry.timestamp, c.entry.timestamp);
        if c.key in fields { CmpIsTotalOrder(c.entry.timestamp, fields[c.key].timestamp); }
        if i < |log| && c.key == log[i].key && !Holds(fields, c.key, c.entry.timestamp) {
          CmpIsTransitive(log[i].entry.timestamp, fields[c.key].timestamp, c.entry.timestamp);
        }
      }
    }
  }

  lemma TagsAfterChange(log: seq<Change>, c: Change, members: Members<Elem>, known: set<nat>)
    requires TagsAreKnown(log, members, known)
    requires c.Insert? ==> c.tag.node == c.node
    ensures TagsAreKnown(log + [c], if c.Insert? then Union(members, map[c.elem := {c.tag}]) else members, known + {|log|})
  {
    var longer, more := log + [c], known + {|log|};
    var members' := if c.Insert? then Union(members, map[c.elem := {c.tag}]) else members;
    assert Knows(longer, more, c) by { assert longer[|log|] == c; }
    forall x, tag | tag in Tags(members', x) ensures Knows(longer, more, Insert(tag.node, x, tag)) {
      if tag in Tags(members, x) {
        KnowsInLonger(log, longer, known, Insert(tag.node, x, tag));
      } else {
        assert c == Insert(tag.node, x, tag);
      }
    }
  }

  /** The replica of the node that makes a change. */
  ghost predicate Applies(r: Replica, r': Replica, c: Change, at: nat) {
    && r'.fields == (if c.Write? then Offer(r.fields, c.key, c.entry) else r.fields)
    && r'.counts == (if c.Count? then Bump(r.counts, c.node, c.amount) else r.counts)
    && r'.seqs == (if c.Insert? then Bump(r.seqs, c.node, 1) else r.seqs)
    && r'.members == (if c.Insert? then Union(r.members, map[c.elem := {c.tag}]) else r.members)
    && r'.known == r.known + {at}
  }

  lemma GoodAfterChange(s: State, c: Change, r': Replica)
    requires Inv(s) && Own(c) && Applies(s.At(c.node), r', c, |s.log|)
    ensures Good(s.log + [c], r')
  {
    var r, longer := s.At(c.node), s.log + [c];
    CopiesAfterPut(s, c.node, r, r);
    LatestAfterChange(s.log, c, r.fields, r.known);
    CountsAfterChange(s.log, c, r.counts, r.known, Amounts);
    CountsAfterChange(s.log, c, r.seqs, r.known, Inserts);
    TagsAfterChange(s.log, c, r.members, r.known);
    assert KnowsOwn(s, c.node);
    ClosedAfterChange(s, c, r.known);
    hide PrefixClosed, KnowsOwn, LogGood, HoldsLatest, CountsExactly, TagsAreKnown;
  }

  /** The newest change comes after everything its node made before, all of which that node knows. */
  lemma ClosedAfterChange(s: State, c: Change, known: set<nat>)
    requires PrefixClosed(s.log, known) && known == s.At(c.node).known && KnowsOwn(s, c.node)
    ensures PrefixClosed(s.log + [c], known + {|s.log|})
  {
  }

  /** The new change is stamped, or tagged, above all its node issued before. */
  ghost predicate Advances(r: Replica, r': Replica, c: Change) {
    && r.clock.AtMost(r'.clock)
    && (c.Write? ==> r.clock.Precedes(r'.clock) && StampClock(c.entry.timestamp) == r'.clock)
    && (c.Insert? ==> c.tag.seq_ == Get(r'.seqs, c.node))
  }

  lemma LogAfterChange(s: State, c: Change, r': Replica)
    requires LogGood(s) && Own(c) && Applies(s.At(c.node), r', c, |s.log|) && Advances(s.At(c.node), r', c)
    ensures LogGood(s.(log := s.log + [c]).Put(c.node, r'))
  {
    var s' := s.(log := s.log + [c]).Put(c.node, r');
    forall i | 0 <= i < |s.log| ensures Issued(s', s.log[i]) && Ordered(s.log[i], c) {
      assert Issued(s, s.log[i]);
    }
  }

  lemma KnowsOwnAfterChange(s: State, c: Change, r': Replica, n: NodeId)
    requires KnowsOwn(s, n) && Applies(s.At(c.node), r', c, |s.log|)
    ensures KnowsOwn(s.(log := s.log + [c]).Put(c.node, r'), n)
  {
  }

  lemma ChangeKeepsInv(s: State, c: Change, r': Replica)
    requires Inv(s) && Own(c) && Applies(s.At(c.node), r', c, |s.log|) && Advances(s.At(c.node), r', c)
    ensures Inv(s.(log := s.log + [c]).Put(c.node, r'))
  {
    hide Good, LogGood, KnowsOwn, Own, Applies, Advances;
    var s' := s.(log := s.log + [c]).Put(c.node, r');
    GoodAfterChange(s, c, r');
    LogAfterChange(s, c, r');
    forall r | s'.IsCopy(r) ensures Good(s'.log, r) {
      CopiesAfterPut(s.(log := s'.log), c.node, r', r);
      if r != r' {
        assert s.IsCopy(r);
        GoodInLonger(s.log, c, r);
      }
    }
    forall n ensures KnowsOwn(s', n) {
      KnowsOwnAfterChange(s, c, r', n);
    }
  }

  lemma PutKeepsInv(s: State, n: NodeId, r': Replica)
    requires Inv(s) && Good(s.log, r')
    requires s.At(n).known <= r'.known && s.At(n).clock.AtMost(r'.clock) && Get(s.At(n).seqs, n) <= Get(r'.seqs, n)
    ensures Inv(s.Put(n, r'))
  {
    var s' := s.Put(n, r');
    forall r | s'.IsCopy(r) ensures Good(s'.log, r) {
      CopiesAfterPut(s, n, r', r);
    }
    forall m ensures KnowsOwn(s', m) {
      assert KnowsOwn(s, m);
    }
  }

  lemma MergedEntriesKnown(log: seq<Change>, a: Replica, b: Replica)
    requires EntriesKnown(log, a.fields, a.known) && EntriesKnown(log, b.fields, b.known)
    ensures EntriesKnown(log, MergeMaps(a.fields, b.fields), a.known + b.known)
  {
    hide Cmp, Knows;
    var fields, known := MergeMaps(a.fields, b.fields), a.known + b.known;
    forall k | k in fields ensures exists n :: Knows(log, known, Write(n, k, fields[k])) {
      if k in a.fields && fields[k] == a.fields[k] {
        var n :| Knows(log, a.known, Write(n, k, a.fields[k]));
        KnowsInLonger(log, log, a.known, Write(n, k, a.fields[k]));
        assert Knows(log, known, Write(n, k, fields[k]));
      } else {
        var n :| Knows(log, b.known, Write(n, k, b.fields[k]));
        KnowsInLonger(log, log, b.known, Write(n, k, b.fields[k]));
        assert Knows(log, known, Write(n, k, fields[k]));
      }
    }
  }

  lemma MergedNoneLater(log: seq<Change>, a: Replica, b: Replica)
    requires NoneLater(log, a.fields, a.known) && NoneLater(log, b.fields, b.known)
    ensures NoneLater(log, MergeMaps(a.fields, b.fields), a.known + b.known)
  {
    hide Cmp;
    var fields, known := MergeMaps(a.fields, b.fields), a.known + b.known;
    forall i: nat | i < |log| && i in known && log[i].Write?
      ensures log[i].key in fields && Cmp(log[i].entry.timestamp, fields[log[i].key].timestamp) != Gt
    {
      var k, t := log[i].key, log[i].entry.timestamp;
      if k in a.fields && k in b.fields {
        var ta, tb := a.fields[k].timestamp, b.fields[k].timestamp;
        CmpIsTotalOrder(ta, tb);
        if i in a.known && Cmp(ta, tb) == Lt { CmpIsTransitive(t, ta, tb); }
        if i in b.known && Cmp(ta, tb) != Lt { CmpIsTransitive(t, tb, ta); }
      }
    }
  }

  lemma MergedIsGood(log: seq<Change>, a: Replica, b: Replica)
    requires Good(log, a) && Good(log, b)
    ensures Good(log, Merged(a, b))
  {
    var r := Merged(a, b);
    MergedEntriesKnown(log, a, b);
    MergedNoneLater(log, a, b);
    forall n, w: Weight
      ensures Total(log, |log|, r.known, n, w) == Max(Total(log, |log|, a.known, n, w), Total(log, |log|, b.known, n, w))
    {
      TotalOfJoin(log, a.known, b.known, n, w);
    }
    forall x, tag | tag in Tags(r.members, x) ensures Knows(log, r.known, Insert(tag.node, x, tag)) {
      if tag in Tags(a.members, x) {
        KnowsInLonger(log, log, a.known, Insert(tag.node, x, tag));
      } else {
        KnowsInLonger(log, log, b.known, Insert(tag.node, x, tag));
      }
    }
  }

  lemma WriteKeepsInv(s: State, n: NodeId, key: Key, value: Option<Value>, reading: nat)
    requires Inv(s)
    ensures Inv(StampedWrite(s, n, key, value, reading))
  {
    hide Inv;
    var s' := StampedWrite(s, n, key, value, reading);
    ChangeKeepsInv(s, s'.log[|s.log|], s'.At(n));
  }

  lemma CountKeepsInv(s: State, n: NodeId, amount: nat)
    requires Inv(s)
    ensures Inv(CountUp(s, n, amount))
  {
    hide Inv;
    var s' := CountUp(s, n, amount);
    ChangeKeepsInv(s, s'.log[|s.log|], s'.At(n));
  }

  lemma AddKeepsInv(s: State, n: NodeId, elem: Elem)
    requires Inv(s)
    ensures Inv(TaggedAdd(s, n, elem))
  {
    hide Inv;
    var s' := TaggedAdd(s, n, elem);
    ChangeKeepsInv(s, s'.log[|s.log|], s'.At(n));
  }

  lemma OwnCopyIsGood(s: State, n: NodeId)
    requires Inv(s)
    ensures Good(s.log, s.At(n))
  {
    hide Good;
    CopiesAfterPut(s, n, s.At(n), s.At(n));
  }

  lemma HearKeepsInv(s: State, n: NodeId, remote: Timestamp, reading: nat)
    requires Inv(s)
    ensures Inv(Next(s, HearClock(n, remote, reading)))
  {
    hide Inv;
    OwnCopyIsGood(s, n);
    PutKeepsInv(s, n, Next(s, HearClock(n, remote, reading)).At(n));
  }

  lemma RemoveElemKeepsInv(s: State, n: NodeId, elem: Elem)
    requires Inv(s)
    ensures Inv(Next(s, RemoveElem(n, elem)))
  {
    hide Inv, PrefixClosed, HoldsLatest, CountsExactly;
    OwnCopyIsGood(s, n);
    var r' := Next(s, RemoveElem(n, elem)).At(n);
    assert forall x :: Tags(r'.members, x) <= Tags(s.At(n).members, x);
    PutKeepsInv(s, n, r');
  }

  lemma SendKeepsInv(s: State, n: NodeId)
    requires Inv(s)
    ensures Inv(Next(s, Send(n)))
  {
    hide Good, Own, Ordered;
    var s' := Next(s, Send(n));
    OwnCopyIsGood(s, n);
    assert forall c | s'.IsCopy(c) :: c == s.At(n) || s.IsCopy(c);
    assert forall m :: KnowsOwn(s, m) ==> KnowsOwn(s', m);
  }

  lemma DeliverKeepsInv(s: State, n: NodeId, i: nat)
    requires Inv(s) && i < |s.net|
    ensures Inv(s.Put(n, Merged(s.At(n), s.net[i])))
  {
    hide Good, KnowsOwn, LogGood;
    OwnCopyIsGood(s, n);
    assert s.IsCopy(s.net[i]);
    MergedIsGood(s.log, s.At(n), s.net[i]);
    hide Inv;
    PutKeepsInv(s, n, Merged(s.At(n), s.net[i]));
  }

  lemma NextKeepsInv(s: State, step: Step)
    requires Inv(s)
    ensures Inv(Next(s, step))
  {
    hide Inv;
    match step
    case SetKey(n, key, value, reading) => WriteKeepsInv(s, n, key, Some(value), reading);
    case RemoveKey(n, key, reading) => WriteKeepsInv(s, n, key, None, reading);
    case HearClock(n, remote, reading) => HearKeepsInv(s, n, remote, reading);
    case Increment(n, amount) => CountKeepsInv(s, n, amount);
    case AddElem(n, elem) => AddKeepsInv(s, n, elem);
    case RemoveElem(n, elem) => RemoveElemKeepsInv(s, n, elem);
    case Send(n) => SendKeepsInv(s, n);
    case Deliver(n, i) =>
      if i < |s.net| {
        DeliverKeepsInv(s, n, i);
      }
  }

  lemma InitialIsGood()
    ensures Inv(INITIAL)
  {
  }

  lemma {:induction false} EveryRunIsGood(steps: seq<Step>)
    ensures Inv(Exec(steps))
  {
    if steps == [] {
      InitialIsGood();
    } else {
      hide Inv;
      EveryRunIsGood(steps[..|steps| - 1]);
      NextKeepsInv(Exec(steps[..|steps| - 1]), steps[|steps| - 1]);
    }
  }

  // ---------------------------------------------------------------- the theorems

  /** Over a whole run no two writes carry the same stamp, and no two insertions the same tag. */
  lemma StampsAndTagsAreUnique(steps: seq<Step>, i: nat, j: nat)
    requires i < j < |Exec(steps).log|
    ensures var a, b := Exec(steps).log[i], Exec(steps).log[j];
            && (a.Write? && b.Write? ==> a.entry.timestamp != b.entry.timestamp)
            && (a.Insert? && b.Insert? ==> a.tag != b.tag)
  {
    EveryRunIsGood(steps);
    var log := Exec(steps).log;
    assert Ordered(log[i], log[j]) && Own(log[i]) && Own(log[j]);
  }

  /** Each key's entry, tombstones included, is the known write with the greatest stamp. */
  lemma EntryIsLatestKnownWrite(steps: seq<Step>, r: Replica)
    requires Exec(steps).IsCopy(r)
    ensures HoldsLatest(Exec(steps).log, r.fields, r.known)
  {
    EveryRunIsGood(steps);
  }

  ghost predicate SameWrites(log: seq<Change>, a: set<nat>, b: set<nat>, key: Key) {
    forall i: nat | i < |log| && log[i].Write? && log[i].key == key :: i in a <==> i in b
  }

  ghost predicate DistinctStamps(log: seq<Change>) {
    forall i, j | 0 <= i < j < |log| && log[i].Write? && log[j].Write? ::
      log[i].entry.timestamp != log[j].entry.timestamp
  }

  lemma StampsAreDistinct(steps: seq<Step>)
    ensures DistinctStamps(Exec(steps).log)
  {
    var log := Exec(steps).log;
    forall i, j | 0 <= i < j < |log| && log[i].Write? && log[j].Write?
      ensures log[i].entry.timestamp != log[j].entry.timestamp
    {
      StampsAndTagsAreUnique(steps, i, j);
    }
  }

  /** With distinct stamps, an entry's stamp determines the whole entry. */
  lemma StampDeterminesEntry(log: seq<Change>, a: Replica, b: Replica, k: Key)
    requires DistinctStamps(log)
    requires HoldsLatest(log, a.fields, a.known) && HoldsLatest(log, b.fields, b.known)
    requires k in a.fields && k in b.fields && a.fields[k].timestamp == b.fields[k].timestamp
    ensures a.fields[k] == b.fields[k]
  {
    hide NoneLater;
    var m :| Knows(log, a.known, Write(m, k, a.fields[k]));
    var i: nat :| i < |log| && i in a.known && log[i] == Write(m, k, a.fields[k]);
    var n :| Knows(log, b.known, Write(n, k, b.fields[k]));
    var j: nat :| j < |log| && j in b.known && log[j] == Write(n, k, b.fields[k]);
    assert i == j;
  }

  /** The stamp held for a key is at most the one held by any copy that knows the same writes of that key. */
  lemma LatestIsMonotone(log: seq<Change>, a: Replica, b: Replica, k: Key)
    requires HoldsLatest(log, a.fields, a.known) && HoldsLatest(log, b.fields, b.known)
    requires SameWrites(log, a.known, b.known, k) && k in a.fields
    ensures k in b.fields && Cmp(a.fields[k].timestamp, b.fields[k].timestamp) != Gt
  {
    var m :| Knows(log, a.known, Write(m, k, a.fields[k]));
    var i: nat :| i < |log| && i in a.known && log[i] == Write(m, k, a.fields[k]);
  }

  /** Copies that have received the same writes of a key agree on it. */
  lemma SameWritesSameEntry(steps: seq<Step>, a: Replica, b: Replica, k: Key)
    requires Exec(steps).IsCopy(a) && Exec(steps).IsCopy(b)
    requires SameWrites(Exec(steps).log, a.known, b.known, k)
    ensures k in a.fields <==> k in b.fields
    ensures k in a.fields ==> a.fields[k] == b.fields[k]
  {
    EntryIsLatestKnownWrite(steps, a);
    EntryIsLatestKnownWrite(steps, b);
    StampsAreDistinct(steps);
    hide HoldsLatest, DistinctStamps, Exec;
    var log := Exec(steps).log;
    if k in a.fields { LatestIsMonotone(log, a, b, k); }
    if k in b.fields { LatestIsMonotone(log, b, a, k); }
    if k in a.fields {
      CmpIsTotalOrder(a.fields[k].timestamp, b.fields[k].timestamp);
      StampDeterminesEntry(log, a, b, k);
    }
  }

  /** Strong eventual consistency: copies that have received the same writes hold equal maps. */
  lemma SameWritesSameMap(steps: seq<Step>, a: Replica, b: Replica)
    requires Exec(steps).IsCopy(a) && Exec(steps).IsCopy(b)
    requires forall k :: SameWrites(Exec(steps).log, a.known, b.known, k)
    ensures a.fields == b.fields
  {
    hide Exec, SameWrites;
    forall k ensures (k in a.fields <==> k in b.fields) && (k in a.fields ==> a.fields[k] == b.fields[k]) {
      SameWritesSameEntry(steps, a, b, k);
    }
  }

  // ---------------------------------------------------------------- registers

  /** A key that is only ever set is a last-writer-wins register, missing until it is first set or received. */
  function RegisterOf(r: Replica, key: Key): Option<Register<Value>> {
    if key in r.fields && r.fields[key].value.Some? then Some(Register(r.fields[key].value.value, r.fields[key].timestamp))
    else None
  }

  function LaterOf(a: Option<Register<Value>>, b: Option<Register<Value>>): Option<Register<Value>> {
    if a.None? then b else if b.None? then a else Some(Later(a.value, b.value))
  }

  ghost predicate NeverRemoves(steps: seq<Step>, key: Key) {
    forall i | 0 <= i < |steps| :: !(steps[i].RemoveKey? && steps[i].key == key)
  }

  ghost predicate NoTombstones(log: seq<Change>, key: Key) {
    forall i | 0 <= i < |log| && log[i].Write? && log[i].key == key :: log[i].entry.value.Some?
  }

  lemma {:induction false} NeverRemovedNoTombstones(steps: seq<Step>, key: Key)
    requires NeverRemoves(steps, key)
    ensures NoTombstones(Exec(steps).log, key)
  {
    if steps != [] {
      NeverRemovedNoTombstones(steps[..|steps| - 1], key);
    }
  }

  lemma EntriesAreValues(steps: seq<Step>, r: Replica, key: Key)
    requires NeverRemoves(steps, key) && Exec(steps).IsCopy(r)
    ensures key in r.fields ==> r.fields[key].value.Some?
  {
    NeverRemovedNoTombstones(steps, key);
    EntryIsLatestKnownWrite(steps, r);
    hide Exec;
    if key in r.fields {
      var n :| Knows(Exec(steps).log, r.known, Write(n, key, r.fields[key]));
    }
  }

  /** In every run, setting and receiving do to such a key what they do to a register. */
  lemma KeyIsRegister(steps: seq<Step>, step: Step, key: Key)
    requires NeverRemoves(steps, key) && !(step.RemoveKey? && step.key == key)
    ensures var s, n := Exec(steps), step.n;
            var before, after := RegisterOf(s.At(n), key), RegisterOf(Next(s, step).At(n), key);
            match step
            case SetKey(_, k, value, reading) =>
              var set_ := Some(Register(value, Stamped(Tick(s.At(n).clock, reading), n)));
              after == if k == key then LaterOf(before, set_) else before
            case Deliver(_, i) => after == if i < |s.net| then LaterOf(before, RegisterOf(s.net[i], key)) else before
            case _ => after == before
  {
    var s, n := Exec(steps), step.n;
    assert s.IsCopy(s.At(n)) by { CopiesAfterPut(s, n, s.At(n), s.At(n)); }
    EntriesAreValues(steps, s.At(n), key);
    hide Exec, Later, LaterOf, MergeMaps, Offer, Bump;
    if step.SetKey? {
      RegisterAfterOffer(s.At(n), step.key, step.value, Stamped(Tick(s.At(n).clock, step.reading), n), key);
    }
    if step.RemoveKey? {
      OtherKeyKeepsRegister(s.At(n).fields, step.key, Entry(None, Stamped(Tick(s.At(n).clock, step.reading), n)), key);
    }
    if step.Deliver? && step.message < |s.net| {
      EntriesAreValues(steps, s.net[step.message], key);
      RegisterAfterMerge(s.At(n), s.net[step.message], key);
    }
  }

  lemma OtherKeyKeepsRegister(fields: Entries<Key, Value>, k: Key, e: Entry<Value>, key: Key)
    requires k != key
    ensures key in fields <==> key in Offer(fields, k, e)
    ensures key in fields ==> Offer(fields, k, e)[key] == fields[key]
  {
  }

  lemma RegisterAfterOffer(r: Replica, k: Key, value: Value, t: Timestamp, key: Key)
    requires key in r.fields ==> r.fields[key].value.Some?
    ensures RegisterOf(r.(fields := Offer(r.fields, k, Entry(Some(value), t))), key) ==
            if k == key then LaterOf(RegisterOf(r, key), Some(Register(value, t))) else RegisterOf(r, key)
  {
    if key in r.fields {
      CmpIsTotalOrder(r.fields[key].timestamp, t);
    }
  }

  lemma RegisterAfterMerge(a: Replica, b: Replica, key: Key)
    requires key in a.fields ==> a.fields[key].value.Some?
    requires key in b.fields ==> b.fields[key].value.Some?
    ensures RegisterOf(Merged(a, b), key) == LaterOf(RegisterOf(a, key), RegisterOf(b, key))
  {
    if key in a.fields && key in b.fields {
      CmpIsTotalOrder(a.fields[key].timestamp, b.fields[key].timestamp);
    }
  }

  /** In every run a register holds the value set with the greatest stamp among those that reached it. */
  lemma RegisterIsLatestKnownSet(steps: seq<Step>, r: Replica, key: Key)
    requires NeverRemoves(steps, key) && Exec(steps).IsCopy(r)
    ensures var log, register := Exec(steps).log, RegisterOf(r, key);
            && (register.Some? ==>
                  exists n :: Knows(log, r.known, Write(n, key, Entry(Some(register.value.value), register.value.timestamp))))
            && (forall i: nat | i < |log| && i in r.known && log[i].Write? && log[i].key == key ::
                  register.Some? && Cmp(log[i].entry.timestamp, register.value.timestamp) != Gt)
  {
    EntriesAreValues(steps, r, key);
    EntryIsLatestKnownWrite(steps, r);
    hide Exec;
    if key in r.fields {
      var n :| Knows(Exec(steps).log, r.known, Write(n, key, r.fields[key]));
      assert r.fields[key] == Entry(Some(RegisterOf(r, key).value.value), RegisterOf(r, key).value.timestamp);
    }
  }

  /** So registers that have received the same sets are equal, values included. */
  lemma SameSetsSameRegister(steps: seq<Step>, a: Replica, b: Replica, key: Key)
    requires NeverRemoves(steps, key) && Exec(steps).IsCopy(a) && Exec(steps).IsCopy(b)
    requires SameWrites(Exec(steps).log, a.known, b.known, key)
    ensures RegisterOf(a, key) == RegisterOf(b, key)
  {
    SameWritesSameEntry(steps, a, b, key);
  }

  /** Merging any two copies commutes, although on equal stamps the local entry stays. */
  lemma MergeCommutesInEveryRun(steps: seq<Step>, a: Replica, b: Replica)
    requires Exec(steps).IsCopy(a) && Exec(steps).IsCopy(b)
    ensures MergeMaps(a.fields, b.fields) == MergeMaps(b.fields, a.fields)
  {
    EveryRunIsGood(steps);
    StampsAreDistinct(steps);
    forall k | k in a.fields && k in b.fields && a.fields[k].timestamp == b.fields[k].timestamp
      ensures a.fields[k] == b.fields[k]
    {
      StampDeterminesEntry(Exec(steps).log, a, b, k);
    }
    MergeMapsCommutesIff(a.fields, b.fields);
  }

  /** Owner dominance: no copy ever holds a larger slot for n than n's own replica. */
  lemma OwnerDominates(steps: seq<Step>, r: Replica, n: NodeId)
    requires Exec(steps).IsCopy(r)
    ensures var own := Exec(steps).At(n);
            Get(r.counts, n) <= Get(own.counts, n) && Get(r.seqs, n) <= Get(own.seqs, n)
  {
    EveryRunIsGood(steps);
    var s := Exec(steps);
    var own := s.At(n);
    CopiesAfterPut(s, n, own, own);
    assert KnowsOwn(s, n);
    TotalIsMonotone(s.log, |s.log|, r.known, own.known, n, Amounts);
    TotalIsMonotone(s.log, |s.log|, r.known, own.known, n, Inserts);
  }

  /** Every step logs what it does. */
  lemma StepIsLogged(s: State, step: Step)
    ensures var log, k := Next(s, step).log, |s.log|;
            match step
            case SetKey(n, key, value, _) =>
              && |log| == k + 1 && log[..k] == s.log && log[k].Write? && log[k].node == n
              && log[k].key == key && log[k].entry.value == Some(value) && log[k].entry.timestamp.node == n
            case RemoveKey(n, key, _) =>
              && |log| == k + 1 && log[..k] == s.log && log[k].Write? && log[k].node == n
              && log[k].key == key && log[k].entry.value == None && log[k].entry.timestamp.node == n
            case Increment(n, amount) => log == s.log + [Count(n, amount)]
            case AddElem(n, x) =>
              && |log| == k + 1 && log[..k] == s.log && log[k].Insert? && log[k].node == n
              && log[k].elem == x && log[k].tag.node == n
            case _ => log == s.log
  {
  }

  /** What a step makes reach the node it happens at; other nodes stay as they are, and only sending adds a message. */
  lemma StepReaches(s: State, step: Step)
    ensures var t, n := Next(s, step), step.n;
            && (forall m | m != n :: t.At(m) == s.At(m))
            && t.net == (if step.Send? then s.net + [s.At(n)] else s.net)
            && match step
               case SetKey(_, _, _, reading) =>
                 t.At(n).known == s.At(n).known + {|s.log|} && t.At(n).clock == Tick(s.At(n).clock, reading)
               case RemoveKey(_, _, reading) =>
                 t.At(n).known == s.At(n).known + {|s.log|} && t.At(n).clock == Tick(s.At(n).clock, reading)
               case HearClock(_, remote, reading) => t.At(n) == s.At(n).(clock := Absorb(s.At(n).clock, remote, reading))
               case Increment(_, _) => t.At(n).known == s.At(n).known + {|s.log|}
               case AddElem(_, _) => t.At(n).known == s.At(n).known + {|s.log|}
               case RemoveElem(_, x) =>
                 !Contains(t.At(n).members, x) && forall y | y != x :: Tags(t.At(n).members, y) == Tags(s.At(n).members, y)
               case Send(_) => t.At(n) == s.At(n)
               case Deliver(_, i) => t.At(n).known == if i < |s.net| then s.At(n).known + s.net[i].known else s.At(n).known
  {
  }

  /** The sum of the amounts that the steps of a run add. */
  function Added(steps: seq<Step>): nat {
    if steps == [] then 0
    else
      var k := |steps| - 1;
      Added(steps[..k]) + if steps[k].Increment? then steps[k].amount else 0
  }

  lemma {:induction false} IssuedIsAdded(steps: seq<Step>)
    ensures AllIssued(Exec(steps).log, |Exec(steps).log|) == Added(steps)
  {
    if steps != [] {
      var s, step := Exec(steps[..|steps| - 1]), steps[|steps| - 1];
      IssuedIsAdded(steps[..|steps| - 1]);
      StepIsLogged(s, step);
      hide Next, Exec;
      var log := Next(s, step).log;
      AllIssuedOfPrefix(s.log, log, |s.log|);
    }
  }

  lemma {:induction false} AllIssuedOfPrefix(log: seq<Change>, longer: seq<Change>, t: nat)
    requires t <= |log| && log <= longer
    ensures AllIssued(longer, t) == AllIssued(log, t)
  {
    if t > 0 { AllIssuedOfPrefix(log, longer, t - 1); }
  }

  predicate IsInsertOf(c: Change, n: NodeId) {
    c.Insert? && c.node == n
  }

  /** The insertions of node n among the first t changes. */
  function InsertsOf(log: seq<Change>, t: nat, n: NodeId): set<nat>
    requires t <= |log|
  {
    set i: nat | i < t && IsInsertOf(log[i], n)
  }

  lemma InsertsOfNext(log: seq<Change>, t: nat, n: NodeId)
    requires 0 < t <= |log|
    ensures |InsertsOf(log, t, n)| == |InsertsOf(log, t - 1, n)| + if IsInsertOf(log[t - 1], n) then 1 else 0
  {
    hide IsInsertOf;
    if IsInsertOf(log[t - 1], n) {
      assert InsertsOf(log, t, n) == InsertsOf(log, t - 1, n) + {t - 1};
    } else {
      assert InsertsOf(log, t, n) == InsertsOf(log, t - 1, n);
    }
  }

  lemma InsertsOfPrefix(log: seq<Change>, longer: seq<Change>, t: nat, n: NodeId)
    requires log <= longer && t <= |log|
    ensures InsertsOf(longer, t, n) == InsertsOf(log, t, n)
  {
    hide IsInsertOf;
  }

  lemma {:induction false} TotalCountsInserts(log: seq<Change>, t: nat, known: set<nat>, n: NodeId)
    requires t <= |log| && forall i: nat | i < t && log[i].node == n :: i in known
    ensures Total(log, t, known, n, Inserts) == |InsertsOf(log, t, n)|
  {
    hide InsertsOf;
    if t == 0 {
      NoInserts(log, n);
    } else {
      TotalCountsInserts(log, t - 1, known, n);
      InsertsOfNext(log, t, n);
    }
  }

  lemma NoInserts(log: seq<Change>, n: NodeId)
    ensures InsertsOf(log, 0, n) == {}
  {
  }

  lemma OwnSeqCounts(s: State, n: NodeId)
    requires Inv(s)
    ensures Get(s.At(n).seqs, n) == |InsertsOf(s.log, |s.log|, n)|
  {
    OwnCopyIsGood(s, n);
    assert KnowsOwn(s, n);
    hide Inv, HoldsLatest, TagsAreKnown, PrefixClosed, InsertsOf;
    TotalCountsInserts(s.log, |s.log|, s.At(n).known, n);
  }

  /** A node's k-th insertion carries the node's tag k. */
  ghost predicate TagsCount(log: seq<Change>) {
    forall i: nat | i < |log| && log[i].Insert? :: log[i].tag == AddTag(log[i].node, |InsertsOf(log, i + 1, log[i].node)|)
  }

  lemma TagsStillCount(log: seq<Change>, c: Change)
    requires TagsCount(log) && (c.Insert? ==> c.tag == AddTag(c.node, |InsertsOf(log, |log|, c.node)| + 1))
    ensures TagsCount(log + [c])
  {
    hide InsertsOf;
    var longer := log + [c];
    forall i: nat | i < |longer| && longer[i].Insert?
      ensures longer[i].tag == AddTag(longer[i].node, |InsertsOf(longer, i + 1, longer[i].node)|)
    {
      if i < |log| {
        InsertsOfPrefix(log, longer, i + 1, longer[i].node);
      } else {
        InsertsOfPrefix(log, longer, i, c.node);
        InsertsOfNext(longer, i + 1, c.node);
      }
    }
  }

  lemma NextKeepsTags(s: State, step: Step)
    requires Inv(s) && TagsCount(s.log)
    ensures TagsCount(Next(s, step).log)
  {
    var log := Next(s, step).log;
    OwnSeqCounts(s, step.n);
    hide Inv, TagsCount, InsertsOf;
    if log != s.log {
      assert log == s.log + [log[|s.log|]];
      TagsStillCount(s.log, log[|s.log|]);
    }
  }

  /** In every run a node's k-th insertion carries the node's tag k. */
  lemma {:induction false} TagsCountInserts(steps: seq<Step>)
    ensures TagsCount(Exec(steps).log)
  {
    if steps != [] {
      EveryRunIsGood(steps[..|steps| - 1]);
      TagsCountInserts(steps[..|steps| - 1]);
      hide Inv, TagsCount;
      NextKeepsTags(Exec(steps[..|steps| - 1]), steps[|steps| - 1]);
    }
  }

  /** The sum of the known increments below position t, whoever made them. */
  function Issuances(log: seq<Change>, t: nat, known: set<nat>): nat
    requires t <= |log|
  {
    if t == 0 then 0
    else Issuances(log, t - 1, known) + if t - 1 in known then WeightOf(log[t - 1], Amounts) else 0
  }

  function SlotsOf(log: seq<Change>, t: nat, known: set<nat>): Slots
    requires t <= |log|
  {
    if t == 0 then map[]
    else if t - 1 in known then Bump(SlotsOf(log, t - 1, known), log[t - 1].node, WeightOf(log[t - 1], Amounts))
    else SlotsOf(log, t - 1, known)
  }

  lemma {:induction false} SlotsAddUp(log: seq<Change>, t: nat, known: set<nat>)
    requires t <= |log|
    ensures Sum(SlotsOf(log, t, known)) == Issuances(log, t, known)
    ensures forall n :: Get(SlotsOf(log, t, known), n) == Total(log, t, known, n, Amounts)
  {
    if t > 0 {
      SlotsAddUp(log, t - 1, known);
      SumOfBump(SlotsOf(log, t - 1, known), log[t - 1].node, WeightOf(log[t - 1], Amounts));
    }
  }

  /** The sum of all increments ever issued below position t. */
  function AllIssued(log: seq<Change>, t: nat): nat
    requires t <= |log|
  {
    if t == 0 then 0 else AllIssued(log, t - 1) + WeightOf(log[t - 1], Amounts)
  }

  lemma {:induction false} IssuancesAreBounded(log: seq<Change>, t: nat, known: set<nat>)
    requires t <= |log|
    ensures Issuances(log, t, known) <= AllIssued(log, t)
    ensures (forall i: nat | i < t && log[i].Count? :: i in known) ==> Issuances(log, t, known) == AllIssued(log, t)
  {
    if t > 0 {
      IssuancesAreBounded(log, t - 1, known);
    }
  }

  /** A counter's value is the sum of the increments that reached it: none is lost, none counted twice. */
  lemma CounterIsExact(steps: seq<Step>, r: Replica)
    requires Exec(steps).IsCopy(r)
    ensures var log := Exec(steps).log;
            Sum(r.counts) == Issuances(log, |log|, r.known)
  {
    EveryRunIsGood(steps);
    var log := Exec(steps).log;
    SlotsAddUp(log, |log|, r.known);
    SumDependsOnReadings(r.counts, SlotsOf(log, |log|, r.known));
  }

  /** So no copy over-counts, and one that has received every increment shows the total ever issued. */
  lemma CounterNeverOvercounts(steps: seq<Step>, r: Replica)
    requires Exec(steps).IsCopy(r)
    ensures var log := Exec(steps).log;
            && Sum(r.counts) <= Added(steps)
            && ((forall i: nat | i < |log| && log[i].Count? :: i in r.known) ==> Sum(r.counts) == Added(steps))
  {
    IssuedIsAdded(steps);
    CounterIsExact(steps, r);
    IssuancesAreBounded(Exec(steps).log, |Exec(steps).log|, r.known);
  }

  /** The set holds every insertion of x that reached it. */
  ghost predicate HoldsInserts(log: seq<Change>, r: Replica, x: Elem) {
    forall i: nat | i < |log| && i in r.known && log[i].Insert? && log[i].elem == x :: log[i].tag in Tags(r.members, x)
  }

  ghost predicate AllHoldInserts(s: State, x: Elem) {
    forall r | s.IsCopy(r) :: HoldsInserts(s.log, r, x)
  }

  lemma NextKeepsInserts(s: State, step: Step, x: Elem)
    requires Inv(s) && !(step.RemoveElem? && step.elem == x) && AllHoldInserts(s, x)
    ensures AllHoldInserts(Next(s, step), x)
  {
    var n, s' := step.n, Next(s, step);
    CopiesAfterPut(s, n, s.At(n), s.At(n));
    forall r | s'.IsCopy(r) ensures HoldsInserts(s'.log, r, x) {
      CopiesAfterPut(s.(log := s'.log, net := s'.net), n, s'.At(n), r);
      if s.IsCopy(r) {
        assert Good(s.log, r) && HoldsInserts(s.log, r, x);
      } else {
        assert r == s'.At(n);
        InsertsAfterStep(s, step, x);
      }
    }
  }

  lemma InsertsAfterStep(s: State, step: Step, x: Elem)
    requires Inv(s) && !(step.RemoveElem? && step.elem == x) && AllHoldInserts(s, x)
    ensures HoldsInserts(Next(s, step).log, Next(s, step).At(step.n), x)
  {
    var n := step.n;
    var r := s.At(n);
    CopiesAfterPut(s, n, r, r);
    OwnCopyIsGood(s, n);
    hide Inv, Good, Offer, Bump, Join, MergeMaps, Tick, Absorb;
    assert HoldsInserts(s.log, r, x);
    if step.Deliver? && step.message < |s.net| {
      assert s.IsCopy(s.net[step.message]);
      assert HoldsInserts(s.log, s.net[step.message], x);
    }
  }

  lemma {:induction false} InsertsAreHeld(steps: seq<Step>, x: Elem)
    requires forall i | 0 <= i < |steps| :: !(steps[i].RemoveElem? && steps[i].elem == x)
    ensures AllHoldInserts(Exec(steps), x)
  {
    if steps != [] {
      var init := steps[..|steps| - 1];
      EveryRunIsGood(init);
      InsertsAreHeld(init, x);
      hide Inv, AllHoldInserts;
      NextKeepsInserts(Exec(init), steps[|steps| - 1], x);
    }
  }

  /** In a run that never removes x, a set holds exactly the insertions of x that reached it. */
  lemma MembersAreTheKnownInserts(steps: seq<Step>, r: Replica, x: Elem)
    requires forall i | 0 <= i < |steps| :: !(steps[i].RemoveElem? && steps[i].elem == x)
    requires Exec(steps).IsCopy(r)
    ensures forall tag :: tag in Tags(r.members, x) <==> Knows(Exec(steps).log, r.known, Insert(tag.node, x, tag))
  {
    EveryRunIsGood(steps);
    InsertsAreHeld(steps, x);
    hide Exec;
    var log := Exec(steps).log;
    assert Good(log, r) && HoldsInserts(log, r, x);
    forall tag: AddTag | Knows(log, r.known, Insert(tag.node, x, tag)) ensures tag in Tags(r.members, x) {
      var i: nat :| i < |log| && i in r.known && log[i] == Insert(tag.node, x, tag);
    }
  }

  /** A removal survives the next delivery exactly if the delivered copy does not hold the element. */
  lemma RemovalSurvivesDeliveryIff(s: State, n: NodeId, x: Elem, i: nat)
    requires i < |s.net|
    ensures !Contains(Next(Next(s, RemoveElem(n, x)), Deliver(n, i)).At(n).members, x) <==> !Contains(s.net[i].members, x)
  {
    RemovalSurvivesIff(s.At(n).members, s.net[i].members, x);
  }

  /** This step gives x to node n: n adds it, or hears a copy that holds it. */
  predicate GivesElem(s: State, step: Step, n: NodeId, x: Elem) {
    match step
    case AddElem(m, y) => m == n && y == x
    case Deliver(m, i) => m == n && i < |s.net| && Contains(s.net[i].members, x)
    case _ => false
  }

  lemma NextHoldsIff(s: State, step: Step, n: NodeId, x: Elem)
    requires step != RemoveElem(n, x)
    ensures Contains(Next(s, step).At(n).members, x) <==> Contains(s.At(n).members, x) || GivesElem(s, step, n, x)
  {
    hide Offer, MergeMaps, Join, Tick, Absorb;
    if step.AddElem? && step.n == n && step.elem == x {
      var seqs := Bump(s.At(n).seqs, n, 1);
      assert AddTag(n, Get(seqs, n)) in Tags(Next(s, step).At(n).members, x);
    }
  }

  /** Some step after the first |start| gave x to node n. */
  ghost predicate IsGiven(start: seq<Step>, later: seq<Step>, n: NodeId, x: Elem) {
    exists k :: 0 <= k < |later| && GivesElem(Exec(start + later[..k]), later[k], n, x)
  }

  lemma IsGivenLonger(start: seq<Step>, later: seq<Step>, step: Step, n: NodeId, x: Elem)
    ensures IsGiven(start, later + [step], n, x) <==> IsGiven(start, later, n, x) || GivesElem(Exec(start + later), step, n, x)
  {
    hide Exec, GivesElem;
    var longer := later + [step];
    assert longer[|later|] == step && longer[..|later|] == later;
    assert forall k | 0 <= k < |later| :: longer[..k] == later[..k] && longer[k] == later[k];
    if IsGiven(start, later, n, x) {
      var k :| 0 <= k < |later| && GivesElem(Exec(start + later[..k]), later[k], n, x);
      assert GivesElem(Exec(start + longer[..k]), longer[k], n, x);
    }
    if GivesElem(Exec(start + later), step, n, x) {
      assert GivesElem(Exec(start + longer[..|later|]), longer[|later|], n, x);
    }
  }

  lemma NothingGiven(start: seq<Step>, n: NodeId, x: Elem)
    ensures !IsGiven(start, [], n, x)
  {
  }

  /**
   Once node n lacks x, and as long as it does not remove it again, n holds x exactly if it was given x in the
   meantime: by its own insertion, or by a delivered copy that held it.
   */
  lemma {:induction false} RemovalSurvivesRunIff(start: seq<Step>, later: seq<Step>, n: NodeId, x: Elem)
    requires !Contains(Exec(start).At(n).members, x) && RemoveElem(n, x) !in later
    ensures Contains(Exec(start + later).At(n).members, x) <==> IsGiven(start, later, n, x)
  {
    hide Exec, Next, GivesElem, Contains, IsGiven;
    if later == [] {
      assert start + later == start;
      NothingGiven(start, n, x);
    } else {
      var init, step := later[..|later| - 1], later[|later| - 1];
      assert later == init + [step];
      assert (start + later)[..|start + later| - 1] == start + init && (start + later)[|start + later| - 1] == step;
      ExecOf(start + later);
      RemovalSurvivesRunIff(start, init, n, x);
      NextHoldsIff(Exec(start + init), step, n, x);
      IsGivenLonger(start, init, step, n, x);
    }
  }

  /** A node that removes an element and then hears its own earlier state holds the element again. */
  lemma OwnEchoBringsBack(n: NodeId, x: Elem)
    ensures !Contains(Exec([AddElem(n, x), Send(n), RemoveElem(n, x)]).At(n).members, x)
    ensures Contains(Exec([AddElem(n, x), Send(n), RemoveElem(n, x), Deliver(n, 0)]).At(n).members, x)
  {
    var a, b, c, d: Step := AddElem(n, x), Send(n), RemoveElem(n, x), Deliver(n, 0);
    FirstSteps(a, b, c, d);
    hide Exec;
    var s := Next(Next(INITIAL, a), b);
    assert AddTag(n, 1) in Tags(s.net[0].members, x);
    RemovalSurvivesDeliveryIff(s, n, x, 0);
    assert !Contains(Next(s, c).At(n).members, x);
  }

  lemma FirstSteps(a: Step, b: Step, c: Step, d: Step)
    ensures Exec([a, b, c]) == Next(Next(Next(INITIAL, a), b), c)
    ensures Exec([a, b, c, d]) == Next(Exec([a, b, c]), d)
  {
    hide Next;
    assert [a, b, c, d][..3] == [a, b, c] && [a, b, c][..2] == [a, b] && [a, b][..1] == [a] && [a][..0] == [];
    ExecOf([a, b, c, d]);
    ExecOf([a, b, c]);
    ExecOf([a, b]);
    ExecOf([a]);
  }

  lemma ExecOf(steps: seq<Step>)
    requires steps != []
    ensures Exec(steps) == Next(Exec(steps[..|steps| - 1]), steps[|steps| - 1])
    ensures |steps| == 1 ==> Exec(steps) == Next(INITIAL, steps[0])
  {
  }
}
