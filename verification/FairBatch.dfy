/** The ingest worker's choice of the next batch: round-robin over users, best episodes of each user first. */
module FairBatch {
  import opened Wrappers

  type UserId = nat

  /** An episode as the scheduler sees it; its arrival order is its position in the pending list. */
  datatype Episode = Episode(user: UserId, priority: nat)

  // ---------------------------------------------------------------- the order within one user

  /** Higher priority first, earlier arrival first among equals. */
  predicate Ahead(pending: seq<Episode>, i: nat, j: nat)
    requires i < |pending| && j < |pending|
  {
    pending[i].priority > pending[j].priority || (pending[i].priority == pending[j].priority && i < j)
  }

  predicate InRange(pending: seq<Episode>, q: seq<nat>) {
    forall k | 0 <= k < |q| :: q[k] < |pending|
  }

  predicate Ordered(pending: seq<Episode>, q: seq<nat>)
    requires InRange(pending, q)
  {
    forall a, b | 0 <= a < b < |q| :: Ahead(pending, q[a], q[b])
  }

  /** x takes its place in an ordered queue. */
  function Insert(pending: seq<Episode>, q: seq<nat>, x: nat): seq<nat>
    requires x < |pending| && InRange(pending, q)
  {
    if q == [] then [x]
    else if Ahead(pending, x, q[0]) then [x] + q
    else [q[0]] + Insert(pending, q[1..], x)
  }

  lemma {:induction false} InsertKeepsMembers(pending: seq<Episode>, q: seq<nat>, x: nat, i: nat)
    requires x < |pending| && InRange(pending, q)
    ensures i in Insert(pending, q, x) <==> i in q || i == x
  {
    if q != [] {
      assert q == [q[0]] + q[1..];
      InsertKeepsMembers(pending, q[1..], x, i);
    }
  }

  lemma InsertKeepsRange(pending: seq<Episode>, q: seq<nat>, x: nat)
    requires x < |pending| && InRange(pending, q)
    ensures InRange(pending, Insert(pending, q, x))
  {
    var r := Insert(pending, q, x);
    forall k | 0 <= k < |r| ensures r[k] < |pending| {
      InsertKeepsMembers(pending, q, x, r[k]);
    }
  }

  lemma {:induction false} InsertKeepsOrder(pending: seq<Episode>, q: seq<nat>, x: nat)
    requires x < |pending| && InRange(pending, q) && Ordered(pending, q) && x !in q
    ensures InRange(pending, Insert(pending, q, x)) && Ordered(pending, Insert(pending, q, x))
  {
    InsertKeepsRange(pending, q, x);
    if q != [] {
      if Ahead(pending, x, q[0]) {
        assert forall b | 0 < b < |q| :: Ahead(pending, q[0], q[b]);
      } else {
        InsertKeepsOrder(pending, q[1..], x);
        var rest := Insert(pending, q[1..], x);
        forall k | 0 <= k < |rest| ensures Ahead(pending, q[0], rest[k]) {
          InsertKeepsMembers(pending, q[1..], x, rest[k]);
          if rest[k] != x {
            var m :| 0 <= m < |q| - 1 && q[1..][m] == rest[k];
            assert q[m + 1] == rest[k];
          }
        }
      }
    }
  }

  /** All of user u's episodes among the first n, in the order in which they are to be taken. */
  function Queue(pending: seq<Episode>, n: nat, u: UserId): (r: seq<nat>)
    requires n <= |pending|
    ensures InRange(pending, r)
  {
    if n == 0 then []
    else
      var before := Queue(pending, n - 1, u);
      if pending[n - 1].user != u then before
      else
        InsertKeepsRange(pending, before, n - 1);
        Insert(pending, before, n - 1)
  }

  lemma {:induction false} QueueHoldsExactly(pending: seq<Episode>, n: nat, u: UserId, i: nat)
    requires n <= |pending|
    ensures i in Queue(pending, n, u) <==> i < n && pending[i].user == u
  {
    if n > 0 {
      QueueHoldsExactly(pending, n - 1, u, i);
      if pending[n - 1].user == u {
        InsertKeepsMembers(pending, Queue(pending, n - 1, u), n - 1, i);
      }
    }
  }

  lemma {:induction false} QueueIsOrdered(pending: seq<Episode>, n: nat, u: UserId)
    requires n <= |pending|
    ensures Ordered(pending, Queue(pending, n, u))
    ensures var q := Queue(pending, n, u);
            forall a, b | 0 <= a < b < |q| ::
              || pending[q[a]].priority > pending[q[b]].priority
              || (pending[q[a]].priority == pending[q[b]].priority && q[a] < q[b])
  {
    if n > 0 {
      QueueIsOrdered(pending, n - 1, u);
      QueueHoldsExactly(pending, n - 1, u, n - 1);
      if pending[n - 1].user == u {
        InsertKeepsOrder(pending, Queue(pending, n - 1, u), n - 1);
      }
    }
  }

  /** The users of the first n episodes, in order of first arrival. */
  function Users(pending: seq<Episode>, n: nat): seq<UserId>
    requires n <= |pending|
  {
    if n == 0 then []
    else
      var before := Users(pending, n - 1);
      if pending[n - 1].user in before then before else before + [pending[n - 1].user]
  }

  lemma {:induction false} UsersAreDistinct(pending: seq<Episode>, n: nat)
    requires n <= |pending|
    ensures forall a, b | 0 <= a < b < |Users(pending, n)| :: Users(pending, n)[a] != Users(pending, n)[b]
  {
    if n > 0 { UsersAreDistinct(pending, n - 1); }
  }

  lemma {:induction false} UsersHoldAll(pending: seq<Episode>, n: nat, i: nat)
    requires i < n <= |pending|
    ensures pending[i].user in Users(pending, n)
  {
    if i < n - 1 { UsersHoldAll(pending, n - 1, i); }
  }

  // ---------------------------------------------------------------- what a batch is

  /** The positions of a batch that belong to user u, in batch order. */
  function OfUser(pending: seq<Episode>, batch: seq<nat>, u: UserId): seq<nat>
    requires InRange(pending, batch)
  {
    if batch == [] then []
    else
      var k := |batch| - 1;
      OfUser(pending, batch[..k], u) + if pending[batch[k]].user == u then [batch[k]] else []
  }

  lemma OfUserOfLonger(pending: seq<Episode>, batch: seq<nat>, x: nat, u: UserId)
    requires InRange(pending, batch) && x < |pending|
    ensures OfUser(pending, batch + [x], u) == OfUser(pending, batch, u) + if pending[x].user == u then [x] else []
  {
    assert (batch + [x])[..|batch|] == batch;
  }

  lemma {:induction false} OfUserHasAll(pending: seq<Episode>, batch: seq<nat>, x: nat)
    requires InRange(pending, batch) && x in batch
    ensures x in OfUser(pending, batch, pending[x].user)
  {
    var k := |batch| - 1;
    if batch[k] != x {
      assert batch == batch[..k] + [batch[k]];
      OfUserHasAll(pending, batch[..k], x);
    }
  }

  lemma {:induction false} OfUserIsFromBatch(pending: seq<Episode>, batch: seq<nat>, u: UserId, x: nat)
    requires InRange(pending, batch) && x in OfUser(pending, batch, u)
    ensures x in batch && pending[x].user == u
  {
    var k := |batch| - 1;
    if x in OfUser(pending, batch[..k], u) {
      OfUserIsFromBatch(pending, batch[..k], u, x);
    }
  }

  /** r full rounds, and one more for the first p users, stopping where a user's queue ran out. */
  ghost predicate Dealt(pending: seq<Episode>, batch: seq<nat>, r: nat, p: nat) {
    && InRange(pending, batch)
    && (forall j | 0 <= j < |Users(pending, |pending|)| ::
          var u := Users(pending, |pending|)[j];
          OfUser(pending, batch, u) == Dealing(Queue(pending, |pending|, u), r, j < p))
  }

  function Share(q: seq<nat>, r: nat, extra: bool): (t: nat)
    ensures t <= |q|
  {
    Min(|q|, r + if extra then 1 else 0)
  }

  function Dealing(q: seq<nat>, r: nat, extra: bool): seq<nat> {
    q[..Share(q, r, extra)]
  }

  function Taken(pending: seq<Episode>, batch: seq<nat>, u: UserId): nat
    requires InRange(pending, batch)
  {
    |OfUser(pending, batch, u)|
  }

  /**
   Each user's part is a prefix of that user's order. While a user still waits, nobody got more than
   one episode beyond that user's share, and later arrivals got no more than it.
   */
  ghost predicate IsFair(pending: seq<Episode>, batch: seq<nat>) {
    && InRange(pending, batch)
    && (forall u :: OfUser(pending, batch, u) <= Queue(pending, |pending|, u))
    && (forall u, w | Taken(pending, batch, u) < |Queue(pending, |pending|, u)| ::
          Taken(pending, batch, w) <= Taken(pending, batch, u) + 1)
    && var order := Users(pending, |pending|);
       forall i, j | 0 <= i < j < |order| && Taken(pending, batch, order[i]) < |Queue(pending, |pending|, order[i])| ::
         Taken(pending, batch, order[j]) <= Taken(pending, batch, order[i])
  }

  lemma StrangersHaveNothing(pending: seq<Episode>, batch: seq<nat>, u: UserId)
    requires InRange(pending, batch) && u !in Users(pending, |pending|)
    ensures OfUser(pending, batch, u) == [] == Queue(pending, |pending|, u)
  {
    NoneYet(pending, |pending|, u);
    var part := OfUser(pending, batch, u);
    if part != [] {
      assert part[0] in part;
      OfUserIsFromBatch(pending, batch, u, part[0]);
      UsersHoldAll(pending, |pending|, part[0]);
    }
  }

  lemma DealtIsFair(pending: seq<Episode>, batch: seq<nat>, r: nat, p: nat)
    requires Dealt(pending, batch, r, p)
    ensures IsFair(pending, batch)
  {
    var order := Users(pending, |pending|);
    forall u ensures u in order ==> exists j :: 0 <= j < |order| && order[j] == u {
    }
    forall u ensures OfUser(pending, batch, u) <= Queue(pending, |pending|, u) {
      if u !in order { StrangersHaveNothing(pending, batch, u); }
    }
    forall u, w | Taken(pending, batch, u) < |Queue(pending, |pending|, u)|
      ensures Taken(pending, batch, w) <= Taken(pending, batch, u) + 1
    {
      if u !in order { StrangersHaveNothing(pending, batch, u); }
      if w !in order { StrangersHaveNothing(pending, batch, w); }
    }
  }

  // ---------------------------------------------------------------- sizes

  lemma {:induction false} DistinctPositionsFit(batch: seq<nat>, n: nat)
    requires Distinct(batch) && forall k | 0 <= k < |batch| :: batch[k] < n
    ensures |batch| <= n
    ensures (forall i: nat | i < n :: i in batch) ==> |batch| == n
    decreases n
  {
    if batch == [] {
      assert 0 !in batch;
      return;
    }
    assert batch[0] < n;
    if k :| 0 <= k < |batch| && batch[k] == n - 1 {
      var rest := batch[..k] + batch[k + 1..];
      assert forall i | 0 <= i < |rest| :: rest[i] == if i < k then batch[i] else batch[i + 1];
      DistinctPositionsFit(rest, n - 1);
      if forall i: nat | i < n :: i in batch {
        forall i: nat | i < n - 1 ensures i in rest {
          assert i in batch;
          var m :| 0 <= m < |batch| && batch[m] == i;
          assert rest[if m < k then m else m - 1] == i;
        }
      }
    } else {
      DistinctPositionsFit(batch, n - 1);
      assert n - 1 !in batch;
    }
  }

  // ---------------------------------------------------------------- the code

  /** After n episodes: one sorted queue for each user seen, users listed in order of first arrival. */
  ghost predicate Grouped(pending: seq<Episode>, n: nat, queues: map<UserId, seq<nat>>, order: seq<UserId>)
    requires n <= |pending|
  {
    && order == Users(pending, n)
    && (forall u :: u in queues <==> u in order)
    && (forall u | u in queues :: queues[u] == Queue(pending, n, u))
  }

  /** Group positions by user, remember the users in order of first arrival, and keep each group sorted. */
  method Group(pending: seq<Episode>) returns (queues: map<UserId, seq<nat>>, order: seq<UserId>)
    ensures Grouped(pending, |pending|, queues, order)
    ensures IsGrouping(pending, queues, order)
  {
    hide Grouped, Insert, InRange;
    queues, order := map[], [];
    NothingGrouped(pending);
    for i := 0 to |pending|
      invariant Grouped(pending, i, queues, order)
    {
      GroupNext(pending, i, queues, order);
      ghost var before := queues;
      var u := pending[i].user;
      if u !in queues {
        order := order + [u];
        queues := queues[u := []];
      }
      queues := queues[u := Insert(pending, queues[u], i)];
      assert queues == before[u := queues[u]];
    }
    GroupedPlainly(pending, queues, order);
  }

  /**
   Each queue holds exactly its user's episodes, higher priority first and earlier arrival first among equals; the users
   are those with an episode, each once, in the order in which their first episodes arrived.
   */
  ghost predicate IsGrouping(pending: seq<Episode>, queues: map<UserId, seq<nat>>, order: seq<UserId>) {
    && (forall u :: u in queues <==> u in order)
    && (forall u | u in queues :: HoldsExactly(pending, queues[u], u) && DescendsPlainly(pending, queues[u]))
    && IsArrivalOrder(pending, order)
  }

  ghost predicate HoldsExactly(pending: seq<Episode>, q: seq<nat>, u: UserId) {
    forall i: nat :: i in q <==> i < |pending| && pending[i].user == u
  }

  ghost predicate HasEpisode(pending: seq<Episode>, u: UserId) {
    exists b :: 0 <= b < |pending| && pending[b].user == u
  }

  ghost predicate IsArrivalOrder(pending: seq<Episode>, order: seq<UserId>) {
    && (forall u :: u in order <==> HasEpisode(pending, u))
    && Distinct(order)
    && (forall i, j | 0 <= i < |order| && 0 <= j < |order| && ArrivedFirst(pending, order[i], order[j]) :: i < j)
  }

  ghost predicate DescendsPlainly(pending: seq<Episode>, q: seq<nat>) {
    forall a, b | 0 <= a < b < |q| ::
      && q[a] < |pending| && q[b] < |pending|
      && (|| pending[q[a]].priority > pending[q[b]].priority
          || (pending[q[a]].priority == pending[q[b]].priority && q[a] < q[b]))
  }

  lemma QueueDescends(pending: seq<Episode>, u: UserId)
    ensures var q := Queue(pending, |pending|, u); HoldsExactly(pending, q, u) && DescendsPlainly(pending, q)
  {
    QueueIsOrdered(pending, |pending|, u);
    hide Queue;
    forall i: nat ensures i in Queue(pending, |pending|, u) <==> i < |pending| && pending[i].user == u {
      QueueHoldsExactly(pending, |pending|, u, i);
    }
  }

  lemma UsersAreInArrivalOrder(pending: seq<Episode>)
    ensures IsArrivalOrder(pending, Users(pending, |pending|))
  {
    hide Users;
    var order := Users(pending, |pending|);
    forall u ensures u in order <==> HasEpisode(pending, u) {
      if u in order { UserHasArrived(pending, |pending|, u); }
      if b: nat :| b < |pending| && pending[b].user == u { UsersHoldAll(pending, |pending|, b); }
    }
    UsersAreDistinct(pending, |pending|);
    forall i, j | 0 <= i < |order| && 0 <= j < |order| && ArrivedFirst(pending, order[i], order[j]) ensures i < j {
      var b: nat :| b < |pending| && pending[b].user == order[i] && forall c | 0 <= c <= b :: pending[c].user != order[j];
      var k := UsersByArrival(pending, |pending|, order[i], order[j], b);
    }
  }

  lemma GroupedPlainly(pending: seq<Episode>, queues: map<UserId, seq<nat>>, order: seq<UserId>)
    requires Grouped(pending, |pending|, queues, order)
    ensures IsGrouping(pending, queues, order)
  {
    hide Queue, Users, HoldsExactly, DescendsPlainly, IsArrivalOrder;
    forall u | u in queues ensures HoldsExactly(pending, queues[u], u) && DescendsPlainly(pending, queues[u]) {
      QueueDescends(pending, u);
    }
    UsersAreInArrivalOrder(pending);
  }

  lemma NothingGrouped(pending: seq<Episode>)
    ensures Grouped(pending, 0, map[], [])
  {
  }

  lemma GroupNext(pending: seq<Episode>, i: nat, queues: map<UserId, seq<nat>>, order: seq<UserId>)
    requires i < |pending| && Grouped(pending, i, queues, order)
    ensures var u := pending[i].user;
            var q := if u in queues then queues[u] else [];
            && InRange(pending, q)
            && Grouped(pending, i + 1, queues[u := Insert(pending, q, i)], if u in queues then order else order + [u])
  {
    hide Insert;
    if pending[i].user !in queues {
      NoneYet(pending, i, pending[i].user);
    }
  }

  lemma NoneYet(pending: seq<Episode>, n: nat, u: UserId)
    requires n <= |pending| && u !in Users(pending, n)
    ensures Queue(pending, n, u) == []
  {
    var q := Queue(pending, n, u);
    forall i: nat ensures i !in q {
      QueueHoldsExactly(pending, n, u, i);
      if i < n { UsersHoldAll(pending, n, i); }
    }
  }

  /** The state of the round-robin: what was dealt so far, and what is left in each queue. */
  ghost predicate Deals(pending: seq<Episode>, batch: seq<nat>, queues: map<UserId, seq<nat>>, r: nat, p: nat) {
    && Dealt(pending, batch, r, p) && Distinct(batch)
    && (forall j | 0 <= j < |Users(pending, |pending|)| ::
          var u := Users(pending, |pending|)[j];
          var q := Queue(pending, |pending|, u);
          u in queues && queues[u] == q[Share(q, r, j < p)..])
  }

  lemma Skip(pending: seq<Episode>, batch: seq<nat>, queues: map<UserId, seq<nat>>, r: nat, p: nat)
    requires Deals(pending, batch, queues, r, p) && p < |Users(pending, |pending|)|
    requires queues[Users(pending, |pending|)[p]] == []
    ensures Deals(pending, batch, queues, r, p + 1)
  {
    var order := Users(pending, |pending|);
    forall j | 0 <= j < |order|
      ensures var q := Queue(pending, |pending|, order[j]); Share(q, r, j < p + 1) == Share(q, r, j < p)
    {
    }
  }

  lemma Pop(pending: seq<Episode>, batch: seq<nat>, queues: map<UserId, seq<nat>>, r: nat, p: nat)
    requires Deals(pending, batch, queues, r, p) && p < |Users(pending, |pending|)|
    requires queues[Users(pending, |pending|)[p]] != []
    ensures var u := Users(pending, |pending|)[p];
            Deals(pending, batch + [queues[u][0]], queues[u := queues[u][1..]], r, p + 1)
  {
    hide Users, Queue, OfUser;
    var order := Users(pending, |pending|);
    var u := order[p];
    var q := Queue(pending, |pending|, u);
    var x := queues[u][0];
    assert x == q[r] && q[r] in q;
    QueueHoldsExactly(pending, |pending|, u, x);
    HeadIsNew(pending, batch, u, r);
    UsersAreDistinct(pending, |pending|);
    forall j | 0 <= j < |order|
      ensures OfUser(pending, batch + [x], order[j]) == Dealing(Queue(pending, |pending|, order[j]), r, j < p + 1)
    {
      OfUserOfLonger(pending, batch, x, order[j]);
    }
  }

  lemma HeadIsNew(pending: seq<Episode>, batch: seq<nat>, u: UserId, r: nat)
    requires InRange(pending, batch) && r < |Queue(pending, |pending|, u)|
    requires OfUser(pending, batch, u) == Queue(pending, |pending|, u)[..r]
    ensures Queue(pending, |pending|, u)[r] !in batch
  {
    var q := Queue(pending, |pending|, u);
    QueueIsOrdered(pending, |pending|, u);
    assert q[r] in q;
    QueueHoldsExactly(pending, |pending|, u, q[r]);
    if q[r] in batch {
      OfUserHasAll(pending, batch, q[r]);
    }
  }

  // ---------------------------------------------------------------- the batch, held against the pending list

  /** Of one user's episodes the batch takes those of higher priority first, and earlier arrivals among equals. */
  ghost predicate IsBestFirst(pending: seq<Episode>, batch: seq<nat>) {
    forall i, b: nat | 0 <= i < |batch| && batch[i] < |pending| && b < |pending| && b !in batch[..i + 1]
                       && pending[b].user == pending[batch[i]].user ::
      || pending[batch[i]].priority > pending[b].priority
      || (pending[batch[i]].priority == pending[b].priority && batch[i] < b)
  }

  /** Where the batch holds episodes of user u. */
  ghost function PlacesOf(pending: seq<Episode>, batch: seq<nat>, u: UserId): set<nat> {
    set k: nat | k < |batch| && batch[k] < |pending| && pending[batch[k]].user == u
  }

  /** How many episodes of user u the batch holds. */
  ghost function CountOf(pending: seq<Episode>, batch: seq<nat>, u: UserId): nat {
    |PlacesOf(pending, batch, u)|
  }

  /** Some episode of u is pending that the batch does not hold. */
  ghost predicate StillWaits(pending: seq<Episode>, batch: seq<nat>, u: UserId) {
    exists b: nat :: b < |pending| && pending[b].user == u && b !in batch
  }

  /** u has an episode that is pending before any of w. */
  ghost predicate ArrivedFirst(pending: seq<Episode>, u: UserId, w: UserId) {
    exists b: nat :: b < |pending| && pending[b].user == u && forall c | 0 <= c <= b :: pending[c].user != w
  }

  /** While u waits, nobody got more than one episode more than u, and nobody who arrived later got more than u. */
  ghost predicate SharesFairly(pending: seq<Episode>, batch: seq<nat>) {
    forall u, w | StillWaits(pending, batch, u) ::
      && CountOf(pending, batch, w) <= CountOf(pending, batch, u) + 1
      && (ArrivedFirst(pending, u, w) ==> CountOf(pending, batch, w) <= CountOf(pending, batch, u))
  }

  lemma {:induction false} TakenIsCount(pending: seq<Episode>, batch: seq<nat>, u: UserId)
    requires InRange(pending, batch)
    ensures Taken(pending, batch, u) == CountOf(pending, batch, u)
  {
    if batch == [] {
      assert PlacesOf(pending, batch, u) == {};
    } else {
      var n := |batch| - 1;
      TakenIsCount(pending, batch[..n], u);
      PlacesOfLonger(pending, batch, u);
      hide PlacesOf;
    }
  }

  lemma PlacesOfLonger(pending: seq<Episode>, batch: seq<nat>, u: UserId)
    requires InRange(pending, batch) && batch != []
    ensures var n := |batch| - 1;
            |PlacesOf(pending, batch, u)| == |PlacesOf(pending, batch[..n], u)| + if pending[batch[n]].user == u then 1 else 0
  {
    var n := |batch| - 1;
    assert PlacesOf(pending, batch, u) == PlacesOf(pending, batch[..n], u) + if pending[batch[n]].user == u then {n} else {};
  }

  /** An episode in the batch stands in its user's part, after those of the user that are in the batch before it. */
  lemma {:induction false} PlaceInPart(pending: seq<Episode>, batch: seq<nat>, i: nat) returns (k: nat)
    requires InRange(pending, batch) && i < |batch|
    ensures var part := OfUser(pending, batch, pending[batch[i]].user);
            && k < |part| && part[k] == batch[i]
            && forall m | 0 <= m < k :: part[m] in batch[..i]
  {
    var n := |batch| - 1;
    var u := pending[batch[i]].user;
    var init := batch[..n];
    if i == n {
      k := |OfUser(pending, init, u)|;
      forall m | 0 <= m < k ensures OfUser(pending, init, u)[m] in init {
        OfUserIsFromBatch(pending, init, u, OfUser(pending, init, u)[m]);
      }
    } else {
      k := PlaceInPart(pending, init, i);
      assert init[..i] == batch[..i];
    }
  }

  lemma FairIsBestFirst(pending: seq<Episode>, batch: seq<nat>)
    requires IsFair(pending, batch)
    ensures IsBestFirst(pending, batch)
  {
    forall i, b: nat | 0 <= i < |batch| && b < |pending| && b !in batch[..i + 1] && pending[b].user == pending[batch[i]].user
      ensures Ahead(pending, batch[i], b)
    {
      var u := pending[b].user;
      var q, part := Queue(pending, |pending|, u), OfUser(pending, batch, u);
      var k := PlaceInPart(pending, batch, i);
      QueueHoldsExactly(pending, |pending|, u, b);
      QueueIsOrdered(pending, |pending|, u);
      hide Queue, OfUser, Users, Taken;
      assert part <= q;
      var m :| 0 <= m < |q| && q[m] == b;
      assert batch[i] == q[k];
      assert batch[..i + 1] == batch[..i] + [batch[i]];
      assert m > k;
    }
  }

  lemma {:induction false} UsersByArrival(pending: seq<Episode>, n: nat, u: UserId, w: UserId, b: nat) returns (i: nat)
    requires b < n <= |pending| && pending[b].user == u && forall c | 0 <= c <= b :: pending[c].user != w
    ensures i < |Users(pending, n)| && Users(pending, n)[i] == u
    ensures forall j | 0 <= j < |Users(pending, n)| && Users(pending, n)[j] == w :: i < j
  {
    if n == b + 1 {
      UsersHoldAll(pending, n, b);
      var k :| 0 <= k < |Users(pending, n)| && Users(pending, n)[k] == u;
      i := k;
      forall j | 0 <= j < |Users(pending, n)| ensures Users(pending, n)[j] != w {
        UserHasArrived(pending, n, Users(pending, n)[j]);
      }
    } else {
      i := UsersByArrival(pending, n - 1, u, w, b);
    }
  }

  lemma {:induction false} UserHasArrived(pending: seq<Episode>, n: nat, u: UserId)
    requires n <= |pending| && u in Users(pending, n)
    ensures exists b :: 0 <= b < n && pending[b].user == u
  {
    if u in Users(pending, n - 1) {
      UserHasArrived(pending, n - 1, u);
    } else {
      assert pending[n - 1].user == u;
    }
  }

  lemma WaitingIsUntaken(pending: seq<Episode>, batch: seq<nat>, u: UserId)
    requires IsFair(pending, batch) && StillWaits(pending, batch, u)
    ensures Taken(pending, batch, u) < |Queue(pending, |pending|, u)|
  {
    var b: nat :| b < |pending| && pending[b].user == u && b !in batch;
    QueueHoldsExactly(pending, |pending|, u, b);
    var q, part := Queue(pending, |pending|, u), OfUser(pending, batch, u);
    if |part| == |q| {
      assert part == q;
      OfUserIsFromBatch(pending, batch, u, b);
    }
  }

  lemma FairSharesFairly(pending: seq<Episode>, batch: seq<nat>)
    requires IsFair(pending, batch)
    ensures SharesFairly(pending, batch)
  {
    hide Queue, OfUser, Users, CountOf;
    forall u, w | StillWaits(pending, batch, u)
      ensures CountOf(pending, batch, w) <= CountOf(pending, batch, u) + 1
      ensures ArrivedFirst(pending, u, w) ==> CountOf(pending, batch, w) <= CountOf(pending, batch, u)
    {
      WaitingIsUntaken(pending, batch, u);
      TakenIsCount(pending, batch, u);
      TakenIsCount(pending, batch, w);
      if ArrivedFirst(pending, u, w) {
        LaterGotNoMore(pending, batch, u, w);
      }
    }
  }

  lemma LaterGotNoMore(pending: seq<Episode>, batch: seq<nat>, u: UserId, w: UserId)
    requires IsFair(pending, batch) && ArrivedFirst(pending, u, w)
    requires Taken(pending, batch, u) < |Queue(pending, |pending|, u)|
    ensures Taken(pending, batch, w) <= Taken(pending, batch, u)
  {
    hide Queue, OfUser, Users;
    var order := Users(pending, |pending|);
    var b: nat :| b < |pending| && pending[b].user == u && forall c | 0 <= c <= b :: pending[c].user != w;
    var i := UsersByArrival(pending, |pending|, u, w, b);
    if j :| 0 <= j < |order| && order[j] == w {
      assert i < j;
    } else {
      StrangersHaveNothing(pending, batch, w);
    }
  }

  lemma NothingDealt(pending: seq<Episode>, queues: map<UserId, seq<nat>>, order: seq<UserId>)
    requires Grouped(pending, |pending|, queues, order)
    ensures Deals(pending, [], queues, 0, 0)
  {
  }

  lemma NextRound(pending: seq<Episode>, batch: seq<nat>, queues: map<UserId, seq<nat>>, r: nat)
    requires Deals(pending, batch, queues, r, |Users(pending, |pending|)|)
    ensures Deals(pending, batch, queues, r + 1, 0)
  {
  }

  /** Once every queue is empty, every pending episode has been taken. */
  lemma Exhausted(pending: seq<Episode>, batch: seq<nat>, queues: map<UserId, seq<nat>>, r: nat, p: nat)
    requires Deals(pending, batch, queues, r, p)
    requires forall j | 0 <= j < |Users(pending, |pending|)| :: queues[Users(pending, |pending|)[j]] == []
    ensures |batch| == |pending|
  {
    var order := Users(pending, |pending|);
    forall i: nat | i < |pending| ensures i in batch {
      var u := pending[i].user;
      UsersHoldAll(pending, |pending|, i);
      QueueHoldsExactly(pending, |pending|, u, i);
      var j :| 0 <= j < |order| && order[j] == u;
      assert i in Queue(pending, |pending|, u) && queues[order[j]] == [];
      OfUserIsFromBatch(pending, batch, u, i);
    }
    DistinctPositionsFit(batch, |pending|);
  }

  lemma Result(pending: seq<Episode>, batch: seq<nat>, queues: map<UserId, seq<nat>>, r: nat, p: nat)
    requires Deals(pending, batch, queues, r, p)
    ensures InRange(pending, batch) && Distinct(batch) && IsFair(pending, batch) && |batch| <= |pending|
  {
    DealtIsFair(pending, batch, r, p);
    DistinctPositionsFit(batch, |pending|);
  }

  /** One round over the users, cut short when the batch is full. */
  method Round(pending: seq<Episode>, batchSize: nat, order: seq<UserId>, batch0: seq<nat>, queues0: map<UserId, seq<nat>>, ghost r: nat)
    returns (batch: seq<nat>, queues: map<UserId, seq<nat>>, progressed: bool, ghost p: nat)
    requires order == Users(pending, |pending|) && forall u | u in order :: u in queues0
    requires Deals(pending, batch0, queues0, r, 0) && |batch0| < batchSize
    ensures Deals(pending, batch, queues, r, p) && forall u | u in order :: u in queues
    ensures |batch0| <= |batch| <= batchSize && p <= |order| && (p < |order| ==> |batch| == batchSize)
    ensures progressed ==> |batch0| < |batch|
    ensures !progressed ==> p == |order| && forall j | 0 <= j < |order| :: queues[order[j]] == []
  {
    hide Deals;
    batch, queues, progressed, p := batch0, queues0, false, 0;
    for k := 0 to |order|
      invariant p == k && Deals(pending, batch, queues, r, k)
      invariant |batch0| <= |batch| <= batchSize && (progressed <==> |batch0| < |batch|)
      invariant forall u | u in order :: u in queues
      invariant !progressed ==> forall j | 0 <= j < k :: queues[order[j]] == []
    {
      if |batch| >= batchSize {
        break;
      }
      var u := order[k];
      if queues[u] != [] {
        Pop(pending, batch, queues, r, k);
        batch := batch + [queues[u][0]];
        queues := queues[u := queues[u][1..]];
        progressed := true;
      } else {
        Skip(pending, batch, queues, r, k);
      }
      p := k + 1;
    }
  }

  /** The selected positions of the pending list, in the order of selection. */
  method SelectBatch(pending: seq<Episode>, batchSize: nat) returns (batch: seq<nat>)
    ensures InRange(pending, batch) && Distinct(batch)
    ensures |batch| == Min(batchSize, |pending|)
    ensures IsFair(pending, batch)
    ensures IsBestFirst(pending, batch) && SharesFairly(pending, batch)
  {
    hide IsGrouping, Deals, IsFair, Distinct, InRange, IsBestFirst, SharesFairly;
    var queues, order := Group(pending);
    batch := [];
    ghost var r: nat, p: nat := 0, 0;
    NothingDealt(pending, queues, order);
    while |batch| < batchSize
      invariant Deals(pending, batch, queues, r, p) && |batch| <= batchSize
      invariant |batch| < batchSize ==> p == 0
      invariant forall u | u in order :: u in queues
    {
      var progressed;
      batch, queues, progressed, p := Round(pending, batchSize, order, batch, queues, r);
      if p == |order| {
        NextRound(pending, batch, queues, r);
        r, p := r + 1, 0;
      }
      if !progressed {
        Exhausted(pending, batch, queues, r, p);
        break;
      }
    }
    Result(pending, batch, queues, r, p);
    FairIsBestFirst(pending, batch);
    FairSharesFairly(pending, batch);
  }
}
