/**
 Runs of a set of nodes, seen as the causal history of their events. An event happens at one node;
 it either is local or has heard the stamp of an earlier event of any node. Nothing bounds how
 often, how late or in what order a stamp is heard, and a stamp may never be heard at all.
 */
module Causality {
  import opened Wrappers
  import opened NodeIds

  datatype Event = Event(node: NodeId, heard: Option<nat>, reading: nat)

  type Run = es: seq<Event> | HearsOnlyThePast(es) witness []

  predicate HearsOnlyThePast(es: seq<Event>) {
    forall i | 0 <= i < |es| && es[i].heard.Some? :: es[i].heard.value < i
  }

  /** i is an earlier event of the same node as j, or the event whose stamp j heard. */
  ghost predicate Direct(es: Run, i: nat, j: nat) {
    && i < j < |es|
    && (es[i].node == es[j].node || es[j].heard == Some(i))
  }

  /** Lamport's happens-before: the transitive closure of Direct. */
  ghost predicate HappensBefore(es: Run, i: nat, j: nat)
    decreases j
  {
    Direct(es, i, j) || exists k: nat | k < j :: HappensBefore(es, i, k) && Direct(es, k, j)
  }

  /** The causal past of j, with j itself. */
  ghost predicate InPast(es: Run, i: nat, j: nat) {
    i < |es| && (i == j || HappensBefore(es, i, j))
  }

  lemma {:induction false} HappensBeforeIsEarlier(es: Run, i: nat, j: nat)
    requires HappensBefore(es, i, j)
    ensures i < j < |es|
    decreases j
  {
    if !Direct(es, i, j) {
      var k: nat :| k < j && HappensBefore(es, i, k) && Direct(es, k, j);
      HappensBeforeIsEarlier(es, i, k);
    }
  }

  lemma {:induction false} PastIsTransitive(es: Run, i: nat, j: nat, k: nat)
    requires InPast(es, i, j) && InPast(es, j, k)
    ensures InPast(es, i, k)
    decreases k
  {
    if i != j && j != k && !Direct(es, j, k) {
      var m: nat :| m < k && HappensBefore(es, j, m) && Direct(es, m, k);
      PastIsTransitive(es, i, j, m);
      HappensBeforeIsEarlier(es, i, j);
      HappensBeforeIsEarlier(es, j, m);
    }
  }

  /** The last event of node n among the first t events. */
  function LastLocal(es: Run, t: nat, n: NodeId): (r: Option<nat>)
    requires t <= |es|
    ensures r.Some? ==> r.value < t && es[r.value].node == n
    ensures forall i | 0 <= i < t && es[i].node == n :: r.Some? && i <= r.value
  {
    if t == 0 then None
    else if es[t - 1].node == n then Some(t - 1)
    else LastLocal(es, t - 1, n)
  }

  /** A causal chain: each event happens before the next. */
  ghost predicate IsChain(es: Run, chain: seq<nat>) {
    forall m | 0 < m < |chain| :: HappensBefore(es, chain[m - 1], chain[m])
  }

  /** A chain ending at event j has at most j + 1 events. */
  lemma {:induction false} ChainIsShort(es: Run, chain: seq<nat>)
    requires IsChain(es, chain) && |chain| > 0
    ensures |chain| <= chain[|chain| - 1] + 1
  {
    var m := |chain| - 1;
    if m > 0 {
      HappensBeforeIsEarlier(es, chain[m - 1], chain[m]);
      ChainIsShort(es, chain[..m]);
    }
  }
}
