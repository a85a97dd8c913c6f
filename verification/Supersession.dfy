/**
 How the ingest worker writes one episode after another into the knowledge graph: entities are
 deduplicated by name ignoring case, and a new fact supersedes the valid fact it replaces.

 Any call of the pipeline that can fail may fail. If the pipeline minds, the episode is abandoned where
 it stands: a limited `Budget` is the number of such calls that succeed before one fails. If it does not
 mind, it goes on as `Ignored` says. A retry is just another episode.
 */
module Supersession {
  import opened Wrappers
  import opened KnowledgeGraph

  datatype Relation = Relation(sourceName: string, targetName: string, name: string, fact: string)

  datatype Extraction = Extraction(entities: seq<string>, relations: seq<Relation>)

  /**
   How the calls go whose failure is ignored while a relationship is stored: whether the source's outgoing
   edges can be read, for which edges the target's name cannot, and which edges are not updated although they should be.
   */
  datatype Ignored = Ignored(readable: bool, unnamed: set<Id>, unwritten: set<Id>) {
    predicate Clean() {
      readable && unnamed == {} && unwritten == {}
    }
  }

  datatype Budget = Unlimited | Limited(calls: nat) {
    predicate Allows(n: nat) {
      Unlimited? || n <= calls
    }

    function Less(n: nat): Budget
      requires Allows(n)
    {
      if Unlimited? then Unlimited else Limited(calls - n)
    }
  }

  /** `ignored` has an outcome for each relationship. */
  datatype Job = Job(user: Id, episode: Id, now: nat, extraction: Extraction, budget: Budget, ignored: nat -> Ignored)

  /** Lower-casing, and whether the store lists invalid edges among the conflicting ones: in memory it does, in Redis not. */
  datatype Env = Env(lower: string -> string, listsInvalid: bool)

  // ---------------------------------------------------------------- what every state satisfies

  /** Names are unique per user, ignoring case. */
  ghost predicate UniqueNames(env: Env, g: Store) {
    forall a, b | a in g.entities && b in g.entities && a != b && g.entities[a].user == g.entities[b].user ::
      env.lower(g.entities[a].name) != env.lower(g.entities[b].name)
  }

  predicate SameSlot(a: Edge, b: Edge) {
    a.user == b.user && a.source == b.source && a.relation == b.relation
  }

  /** At most one edge is valid per user, source and relation. */
  ghost predicate SingleValued(edges: seq<Edge>) {
    forall i, j | 0 <= i < j < |edges| && edges[i].IsValid() && edges[j].IsValid() :: !SameSlot(edges[i], edges[j])
  }

  ghost predicate Sound(env: Env, g: Store) {
    UniqueNames(env, g) && UniqueIds(g.edges) && Integrity(g)
  }

  /**
   b is a later state of the same stored fact: it may have been invalidated, never revived or rewritten.
   If the store lists only valid edges as conflicting, who invalidated it and when stays as well.
   */
  predicate SameFact(env: Env, a: Edge, b: Edge) {
    && a.id == b.id && a.user == b.user && a.source == b.source && a.target == b.target
    && a.relation == b.relation && a.fact == b.fact
    && (b.IsValid() ==> a.IsValid())
    && (!env.listsInvalid && !a.IsValid() ==> b == a)
  }

  /** Entities and edges are only added; a stored edge keeps its place and its content. */
  ghost predicate Evolves(env: Env, g: Store, h: Store) {
    && (forall id | id in g.entities :: id in h.entities && h.entities[id] == g.entities[id])
    && |g.edges| <= |h.edges|
    && (forall i | 0 <= i < |g.edges| :: SameFact(env, g.edges[i], h.edges[i]))
  }

  lemma EvolvesIsTransitive(env: Env, f: Store, g: Store, h: Store)
    requires Evolves(env, f, g) && Evolves(env, g, h)
    ensures Evolves(env, f, h)
  {
    forall i | 0 <= i < |f.edges| ensures SameFact(env, f.edges[i], h.edges[i]) {
      assert SameFact(env, f.edges[i], g.edges[i]) && SameFact(env, g.edges[i], h.edges[i]);
    }
  }

  lemma EvolvesFromItself(env: Env, g: Store)
    ensures Evolves(env, g, g)
  {
  }

  /** Every recorded state is sound, and each grew out of the one before. */
  ghost predicate GoodHistory(env: Env, history: seq<Store>) {
    && |history| > 0
    && (forall i | 0 <= i < |history| :: Sound(env, history[i]))
    && (forall i | 0 < i < |history| :: Evolves(env, history[i - 1], history[i]))
  }

  /** Over a whole run, a state contains everything any earlier state contained. */
  lemma {:induction false} HistoryOnlyGrows(env: Env, history: seq<Store>, i: nat, j: nat)
    requires GoodHistory(env, history) && i <= j < |history|
    ensures Evolves(env, history[i], history[j])
    decreases j
  {
    hide Evolves, Sound;
    if i < j {
      HistoryOnlyGrows(env, history, i, j - 1);
      EvolvesIsTransitive(env, history[i], history[j - 1], history[j]);
    } else {
      EvolvesFromItself(env, history[i]);
    }
  }

  // ---------------------------------------------------------------- one relationship

  /** What is asked for: a fact of a user, found in an episode, stored at some time under these circumstances. */
  datatype Request = Request(user: Id, episode: Id, now: nat, relation: Relation, ignored: Ignored)

  predicate InSlot(e: Edge, user: Id, src: Id, relation: string) {
    e.user == user && e.source == src && e.relation == relation
  }

  /** The store's conflicting edges: same user, source, target and relation. */
  predicate IsConflict(env: Env, q: Request, src: Id, tgt: Id, e: Edge) {
    InSlot(e, q.user, src, q.relation.name) && e.target == tgt && (env.listsInvalid || e.IsValid())
  }

  /** A valid edge of the same source and relation that leads elsewhere. */
  predicate IsOtherBelief(q: Request, src: Id, tgt: Id, e: Edge) {
    InSlot(e, q.user, src, q.relation.name) && e.IsValid() && e.target != tgt
  }

  /** The name of an edge's target as the worker reads it, empty if the entity is missing or the call fails. */
  function NameRead(g: Store, q: Request, e: Edge): string {
    if e.target in g.entities && e.id !in q.ignored.unnamed then g.entities[e.target].name else ""
  }

  predicate LooksDifferent(env: Env, g: Store, q: Request, e: Edge) {
    env.lower(q.relation.targetName) != env.lower(NameRead(g, q, e))
  }

  /** Another belief that is seen, told apart by the name of its target, and updated. */
  predicate IsSuperseded(env: Env, g: Store, q: Request, src: Id, tgt: Id, e: Edge) {
    && q.ignored.readable && IsOtherBelief(q, src, tgt, e)
    && LooksDifferent(env, g, q, e) && e.id !in q.ignored.unwritten
  }

  function Invalidated(e: Edge, episode: Id, now: nat): Edge {
    e.(invalidAt := Some(now), invalidatedBy := Some(episode))
  }

  function InvalidateWhere(edges: seq<Edge>, hit: Edge -> bool, q: Request): seq<Edge> {
    seq(|edges|, i requires 0 <= i < |edges| => if hit(edges[i]) then Invalidated(edges[i], q.episode, q.now) else edges[i])
  }

  function AfterConflicts(env: Env, g: Store, q: Request, src: Id, tgt: Id): Store {
    g.(edges := InvalidateWhere(g.edges, (e: Edge) => IsConflict(env, q, src, tgt, e), q))
  }

  function AfterRetire(env: Env, g: Store, q: Request, src: Id, tgt: Id): Store {
    var g1 := AfterConflicts(env, g, q, src, tgt);
    g1.(edges := InvalidateWhere(g1.edges, (e: Edge) => IsSuperseded(env, g1, q, src, tgt, e), q))
  }

  function NewEdge(id: Id, q: Request, src: Id, tgt: Id): Edge {
    Edge(id, q.user, src, tgt, q.relation.name, q.relation.fact, None, None)
  }

  /** One stored fact: the graph in front of it, the new edge's id and ends, and what was asked for. */
  datatype Stored = Stored(before: Store, id: Id, src: Id, tgt: Id, request: Request)

  function After(env: Env, s: Stored): Store {
    var g := AfterRetire(env, s.before, s.request, s.src, s.tgt);
    g.(edges := g.edges + [NewEdge(s.id, s.request, s.src, s.tgt)])
  }

  ghost predicate SlotFree(g: Store, user: Id, src: Id, relation: string) {
    forall i | 0 <= i < |g.edges| && g.edges[i].IsValid() :: !InSlot(g.edges[i], user, src, relation)
  }

  predicate IsNamed(env: Env, g: Store, user: Id, key: string, id: Id) {
    id in g.entities && g.entities[id].user == user && env.lower(g.entities[id].name) == key
  }

  /** src and tgt are the user's entities that the request names. */
  predicate Names(env: Env, g: Store, q: Request, src: Id, tgt: Id) {
    && IsNamed(env, g, q.user, env.lower(q.relation.sourceName), src)
    && IsNamed(env, g, q.user, env.lower(q.relation.targetName), tgt)
  }

  /** The newest edge states the fact, is valid, and is the only valid edge of its user, source and relation. */
  ghost predicate IsNewestFact(g: Store, s: Stored) {
    && |g.edges| > 0
    && var e, r := g.edges[|g.edges| - 1], s.request.relation;
       && e.id == s.id && e.user == s.request.user && e.source == s.src && e.target == s.tgt
       && e.relation == r.name && e.fact == r.fact && e.invalidAt.None?
       && forall i | 0 <= i < |g.edges| - 1 && g.edges[i].invalidAt.None? ::
            !(g.edges[i].user == e.user && g.edges[i].source == e.source && g.edges[i].relation == e.relation)
  }

  /** An ignored failure keeps this belief from being superseded. */
  predicate IsOverlooked(env: Env, q: Request, e: Edge) {
    || !q.ignored.readable
    || e.id in q.ignored.unwritten
    || (e.id in q.ignored.unnamed && env.lower(q.relation.targetName) == env.lower(""))
  }

  /** Some other belief was valid when the fact was stored, and was overlooked. */
  predicate Misses(env: Env, s: Stored) {
    exists i | 0 <= i < |s.before.edges| ::
      IsOtherBelief(s.request, s.src, s.tgt, s.before.edges[i]) && IsOverlooked(env, s.request, s.before.edges[i])
  }

  /** Two different targets of one user have different names, so a target whose name is read is always told apart. */
  lemma TargetsAreTellable(env: Env, g: Store, q: Request, src: Id, tgt: Id, e: Edge)
    requires Sound(env, g) && e in g.edges && Names(env, g, q, src, tgt) && IsOtherBelief(q, src, tgt, e)
    ensures LooksDifferent(env, g, q, e) <==> !(e.id in q.ignored.unnamed && env.lower(q.relation.targetName) == env.lower(""))
  {
  }

  /** Conflicts and superseded beliefs are invalidated, each once, and no other edge changes. */
  lemma RetiredEdge(env: Env, g: Store, q: Request, src: Id, tgt: Id, i: nat)
    requires i < |g.edges|
    ensures var h, e := AfterRetire(env, g, q, src, tgt), g.edges[i];
            && |h.edges| == |g.edges| && h.entities == g.entities
            && h.edges[i] == if IsConflict(env, q, src, tgt, e) || IsSuperseded(env, g, q, src, tgt, e)
                             then Invalidated(e, q.episode, q.now) else e
  {
    var g1, h := AfterConflicts(env, g, q, src, tgt), AfterRetire(env, g, q, src, tgt);
    var e := g1.edges[i];
    assert e == if IsConflict(env, q, src, tgt, g.edges[i]) then Invalidated(g.edges[i], q.episode, q.now) else g.edges[i];
    assert h.edges[i] == if IsSuperseded(env, g1, q, src, tgt, e) then Invalidated(e, q.episode, q.now) else e;
    assert NameRead(g1, q, e) == NameRead(g, q, e);
  }

  /** An edge of the slot is valid after the retirements exactly if it was an overlooked other belief. */
  lemma StillValidIff(env: Env, g: Store, q: Request, src: Id, tgt: Id, i: nat)
    requires Sound(env, g) && Names(env, g, q, src, tgt) && i < |g.edges| && InSlot(g.edges[i], q.user, src, q.relation.name)
    ensures AfterRetire(env, g, q, src, tgt).edges[i].IsValid() <==> IsOtherBelief(q, src, tgt, g.edges[i]) && IsOverlooked(env, q, g.edges[i])
  {
    RetiredEdge(env, g, q, src, tgt, i);
    hide AfterRetire;
    if IsOtherBelief(q, src, tgt, g.edges[i]) {
      TargetsAreTellable(env, g, q, src, tgt, g.edges[i]);
    }
  }

  lemma RetireKeepsSlots(env: Env, g: Store, q: Request, src: Id, tgt: Id)
    ensures var h := AfterRetire(env, g, q, src, tgt);
            && |h.edges| == |g.edges| && h.entities == g.entities
            && forall i | 0 <= i < |g.edges| :: SameSlot(h.edges[i], g.edges[i]) && (h.edges[i].IsValid() ==> h.edges[i] == g.edges[i])
  {
    forall i | 0 <= i < |g.edges|
      ensures var h := AfterRetire(env, g, q, src, tgt);
              SameSlot(h.edges[i], g.edges[i]) && (h.edges[i].IsValid() ==> h.edges[i] == g.edges[i])
    {
      RetiredEdge(env, g, q, src, tgt, i);
    }
  }

  /** The slot of the new fact is free in time exactly if nothing is overlooked. */
  lemma SlotIsFreeIff(env: Env, s: Stored)
    requires Sound(env, s.before) && Names(env, s.before, s.request, s.src, s.tgt)
    ensures SlotFree(AfterRetire(env, s.before, s.request, s.src, s.tgt), s.request.user, s.src, s.request.relation.name) <==> !Misses(env, s)
  {
    var q, g := s.request, s.before;
    var h := AfterRetire(env, g, q, s.src, s.tgt);
    RetireKeepsSlots(env, g, q, s.src, s.tgt);
    hide AfterRetire, IsOverlooked, Sound, Names;
    forall i | 0 <= i < |g.edges| && InSlot(g.edges[i], q.user, s.src, q.relation.name)
      ensures h.edges[i].IsValid() <==> IsOtherBelief(q, s.src, s.tgt, g.edges[i]) && IsOverlooked(env, q, g.edges[i])
    {
      StillValidIff(env, g, q, s.src, s.tgt, i);
    }
  }

  /** Storing a fact keeps the graph single-valued exactly if its slot was freed before. */
  lemma StoringIsSafeIff(g: Store, e: Edge)
    requires SingleValued(g.edges) && e.IsValid()
    ensures SingleValued(g.edges + [e]) <==> SlotFree(g, e.user, e.source, e.relation)
  {
    if SingleValued(g.edges + [e]) {
      StoringOntoOccupied(g, e);
    }
  }

  lemma StoringOntoOccupied(g: Store, e: Edge)
    requires e.IsValid() && SingleValued(g.edges + [e])
    ensures SlotFree(g, e.user, e.source, e.relation)
  {
    var edges := g.edges + [e];
    assert edges[|g.edges|] == e;
    forall i | 0 <= i < |g.edges| && g.edges[i].IsValid() ensures !InSlot(g.edges[i], e.user, e.source, e.relation) {
      assert edges[i] == g.edges[i] && !SameSlot(edges[i], edges[|g.edges|]);
    }
  }

  /**
   The stored fact becomes the newest and only valid one of its slot, and the graph stays single-valued, exactly if
   no ignored failure makes the worker overlook another belief.
   */
  lemma StoredIsNewestIff(env: Env, s: Stored)
    requires Sound(env, s.before) && Names(env, s.before, s.request, s.src, s.tgt)
    ensures IsNewestFact(After(env, s), s) <==> !Misses(env, s)
    ensures Misses(env, s) ==> !SingleValued(After(env, s).edges)
    ensures SingleValued(s.before.edges) ==> (SingleValued(After(env, s).edges) <==> !Misses(env, s))
  {
    var g, e := AfterRetire(env, s.before, s.request, s.src, s.tgt), NewEdge(s.id, s.request, s.src, s.tgt);
    var h := After(env, s);
    assert h.edges == g.edges + [e];
    hide AfterRetire, After, Misses, Sound, Names, SingleValued, SlotFree, IsNewestFact;
    SlotIsFreeIff(env, s);
    NewestIffFree(g, h, s);
    if SingleValued(h.edges) {
      StoringOntoOccupied(g, e);
    }
    if SingleValued(s.before.edges) {
      RetireKeepsSingle(env, s.before, s.request, s.src, s.tgt);
      StoringIsSafeIff(g, e);
    }
  }

  /** e states relationship r of this user, between entities of the user that bear its names. */
  ghost predicate IsFactOf(env: Env, g: StoreData, e: Edge, user: Id, r: Relation) {
    && e.user == user && e.relation == r.name && e.fact == r.fact
    && e.source in g.entities && g.entities[e.source].user == user
    && env.lower(g.entities[e.source].name) == env.lower(r.sourceName)
    && e.target in g.entities && g.entities[e.target].user == user
    && env.lower(g.entities[e.target].name) == env.lower(r.targetName)
  }

  /** Of the edges in the slot of the new fact f, this one is invalidated: a conflict, or a belief that is not overlooked. */
  ghost predicate MustGo(env: Env, q: Request, f: Edge, e: Edge) {
    && e.user == f.user && e.source == f.source && e.relation == f.relation
    && if e.target == f.target then env.listsInvalid || e.invalidAt.None?
       else && e.invalidAt.None? && q.ignored.readable && e.id !in q.ignored.unwritten
            && (e.id in q.ignored.unnamed ==> env.lower(q.relation.targetName) != env.lower(""))
  }

  /** h is g after one fact was stored: a valid edge is added, what must go is invalidated, and nothing else changes. */
  ghost predicate StoresFact(env: Env, g: StoreData, h: StoreData, q: Request) {
    && h.entities == g.entities && |h.edges| == |g.edges| + 1
    && var f := h.edges[|g.edges|];
       && IsFactOf(env, g, f, q.user, q.relation) && f.invalidAt.None? && f.invalidatedBy.None?
       && forall i | 0 <= i < |g.edges| ::
            h.edges[i] == if MustGo(env, q, f, g.edges[i])
                          then g.edges[i].(invalidAt := Some(q.now), invalidatedBy := Some(q.episode)) else g.edges[i]
  }

  lemma StoredPlainly(env: Env, s: Stored)
    requires Sound(env, s.before) && Names(env, s.before, s.request, s.src, s.tgt)
    ensures StoresFact(env, s.before, After(env, s), s.request)
  {
    var g, q, h := s.before, s.request, After(env, s);
    var retired := AfterRetire(env, g, q, s.src, s.tgt);
    RetireKeepsSlots(env, g, q, s.src, s.tgt);
    assert h.edges == retired.edges + [NewEdge(s.id, q, s.src, s.tgt)];
    var f := h.edges[|g.edges|];
    forall i | 0 <= i < |g.edges|
      ensures h.edges[i] == if MustGo(env, q, f, g.edges[i]) then Invalidated(g.edges[i], q.episode, q.now) else g.edges[i]
    {
      RetiredEdge(env, g, q, s.src, s.tgt, i);
      MustGoIff(env, s, f, g.edges[i]);
      hide AfterRetire, MustGo, IsConflict, IsSuperseded, Sound, Names;
    }
    hide AfterRetire, MustGo, Sound;
  }

  lemma MustGoIff(env: Env, s: Stored, f: Edge, e: Edge)
    requires Sound(env, s.before) && Names(env, s.before, s.request, s.src, s.tgt) && e in s.before.edges
    requires f == NewEdge(s.id, s.request, s.src, s.tgt)
    ensures MustGo(env, s.request, f, e) <==>
            IsConflict(env, s.request, s.src, s.tgt, e) || IsSuperseded(env, s.before, s.request, s.src, s.tgt, e)
  {
    if IsOtherBelief(s.request, s.src, s.tgt, e) {
      TargetsAreTellable(env, s.before, s.request, s.src, s.tgt, e);
    }
    hide Sound, Names, LooksDifferent;
  }

  lemma NewestIffFree(g: Store, h: Store, s: Stored)
    requires h.edges == g.edges + [NewEdge(s.id, s.request, s.src, s.tgt)]
    ensures IsNewestFact(h, s) <==> SlotFree(g, s.request.user, s.src, s.request.relation.name)
  {
    assert forall i | 0 <= i < |g.edges| :: h.edges[i] == g.edges[i];
  }

  lemma RetireKeepsSingle(env: Env, g: Store, q: Request, src: Id, tgt: Id)
    requires SingleValued(g.edges)
    ensures SingleValued(AfterRetire(env, g, q, src, tgt).edges)
  {
    RetireKeepsSlots(env, g, q, src, tgt);
    hide AfterRetire;
  }

  /** A user moves from b to c. If the old belief is overlooked, for whatever reason, both stay valid. */
  lemma OverlookedBeliefStaysValid(env: Env, a: string, b: string, c: string, name: string, ignored: Ignored)
    requires env.lower(a) != env.lower(b) && env.lower(b) != env.lower(c) && env.lower(a) != env.lower(c)
    requires !ignored.readable || 3 in ignored.unwritten || (3 in ignored.unnamed && env.lower(c) == env.lower(""))
    ensures var belief := Edge(3, 0, 0, 1, name, "", None, None);
            var before: Store := StoreData(map[0 := Entity(0, 0, a), 1 := Entity(1, 0, b), 2 := Entity(2, 0, c)], [belief]);
            var s := Stored(before, 4, 0, 2, Request(0, 0, 0, Relation(a, c, name, ""), ignored));
            && Sound(env, before) && SingleValued(before.edges) && Names(env, before, s.request, 0, 2)
            && Misses(env, s) && !SingleValued(After(env, s).edges)
  {
    var belief := Edge(3, 0, 0, 1, name, "", None, None);
    var before: Store := StoreData(map[0 := Entity(0, 0, a), 1 := Entity(1, 0, b), 2 := Entity(2, 0, c)], [belief]);
    var s := Stored(before, 4, 0, 2, Request(0, 0, 0, Relation(a, c, name, ""), ignored));
    assert before.edges[0] == belief && IsOtherBelief(s.request, 0, 2, belief) && IsOverlooked(env, s.request, belief);
    StoredIsNewestIff(env, s);
  }

  /** Storing a fact leaves alone who invalidated an edge and when. */
  ghost predicate KeepsStamps(env: Env, s: Stored) {
    forall i | 0 <= i < |s.before.edges| && !s.before.edges[i].IsValid() :: After(env, s).edges[i] == s.before.edges[i]
  }

  /** Whenever a fact is stored invalidations stay as they are, exactly if the store lists only valid edges as conflicting. */
  lemma StampsAreKeptIff(env: Env)
    ensures (forall s: Stored | Sound(env, s.before) :: KeepsStamps(env, s)) <==> !env.listsInvalid
  {
    if env.listsInvalid {
      var r, e := Relation("", "", "", ""), Edge(1, 0, 0, 0, "", "", Some(0), Some(0));
      var before: Store := StoreData(map[0 := Entity(0, 0, "")], [e]);
      var s := Stored(before, 2, 0, 0, Request(0, 1, 1, r, Ignored(true, {}, {})));
      RetiredEdge(env, before, s.request, 0, 0, 0);
      assert Sound(env, before) && !before.edges[0].IsValid() && After(env, s).edges[0] != before.edges[0];
      assert !KeepsStamps(env, s);
    } else {
      forall s: Stored | Sound(env, s.before) ensures KeepsStamps(env, s) {
        forall i | 0 <= i < |s.before.edges| && !s.before.edges[i].IsValid() ensures After(env, s).edges[i] == s.before.edges[i] {
          RetiredEdge(env, s.before, s.request, s.src, s.tgt, i);
        }
      }
    }
  }

  // ---------------------------------------------------------------- what a run leaves behind

  ghost predicate AllSingleValued(history: seq<Store>) {
    forall i | 0 <= i < |history| :: SingleValued(history[i].edges)
  }

  ghost predicate NoneMissed(env: Env, stores: seq<Stored>) {
    forall k | 0 <= k < |stores| :: !Misses(env, stores[k])
  }

  /** A stored fact belongs to the entities that were named, and the states around it are on record. */
  ghost predicate IsOnRecord(env: Env, history: seq<Store>, s: Stored) {
    Names(env, s.before, s.request, s.src, s.tgt) && s.before in history && After(env, s) in history
  }

  /** The run was single-valued at every point exactly if no stored fact overlooked another belief. */
  ghost predicate GoodLog(env: Env, history: seq<Store>, stores: seq<Stored>) {
    && (AllSingleValued(history) <==> NoneMissed(env, stores))
    && forall k | 0 <= k < |stores| :: IsOnRecord(env, history, stores[k])
  }

  /** Every edge of the graph, in turn, is that of a stored fact. */
  ghost predicate EdgesAreStored(g: StoreData, stores: seq<Stored>) {
    && |g.edges| == |stores|
    && forall k | 0 <= k < |stores| :: IsEdgeOf(g.edges[k], stores[k])
  }

  predicate IsEdgeOf(e: Edge, s: Stored) {
    && e.id == s.id && e.user == s.request.user && e.source == s.src && e.target == s.tgt
    && e.relation == s.request.relation.name && e.fact == s.request.relation.fact
  }

  lemma StoredAfterEntity(g: StoreData, h: StoreData, stores: seq<Stored>)
    requires EdgesAreStored(g, stores) && h.edges == g.edges
    ensures EdgesAreStored(h, stores)
  {
  }

  lemma AsManyAsStored(g: StoreData, stores: seq<Stored>)
    requires EdgesAreStored(g, stores)
    ensures |g.edges| == |stores|
  {
  }

  lemma StoredAfterUpdate(env: Env, g: Store, stores: seq<Stored>, i: nat, e: Edge)
    requires EdgesAreStored(g, stores) && i < |g.edges| && SameFact(env, g.edges[i], e)
    ensures EdgesAreStored(g.(edges := g.edges[i := e]), stores)
  {
  }

  lemma StoredAfterStore(g: Store, stores: seq<Stored>, s: Stored)
    requires EdgesAreStored(g, stores)
    ensures EdgesAreStored(g.(edges := g.edges + [NewEdge(s.id, s.request, s.src, s.tgt)]), stores + [s])
  {
  }

  lemma RecordGrows(env: Env, history: seq<Store>, g: Store, stores: seq<Stored>)
    requires forall k | 0 <= k < |stores| :: IsOnRecord(env, history, stores[k])
    ensures forall k | 0 <= k < |stores| :: IsOnRecord(env, history + [g], stores[k])
  {
    hide After, Names;
  }

  lemma OneMoreState(history: seq<Store>, g: Store)
    ensures AllSingleValued(history + [g]) <==> AllSingleValued(history) && SingleValued(g.edges)
  {
    hide SingleValued;
    var longer := history + [g];
    assert longer[|history|] == g && forall i | 0 <= i < |history| :: longer[i] == history[i];
  }

  lemma OneMoreStored(env: Env, stores: seq<Stored>, s: Stored)
    ensures NoneMissed(env, stores + [s]) <==> NoneMissed(env, stores) && !Misses(env, s)
  {
    hide Misses;
    var more := stores + [s];
    assert more[|stores|] == s && forall k | 0 <= k < |stores| :: more[k] == stores[k];
  }

  lemma LogAfterWrite(env: Env, history: seq<Store>, stores: seq<Stored>, g: Store)
    requires GoodLog(env, history, stores) && |history| > 0
    requires SingleValued(history[|history| - 1].edges) ==> SingleValued(g.edges)
    ensures GoodLog(env, history + [g], stores)
  {
    hide SingleValued, NoneMissed, IsOnRecord;
    RecordGrows(env, history, g, stores);
    OneMoreState(history, g);
  }

  lemma LogAfterStore(env: Env, history: seq<Store>, stores: seq<Stored>, s: Stored)
    requires GoodLog(env, history, stores)
    requires Sound(env, s.before) && Names(env, s.before, s.request, s.src, s.tgt) && s.before in history
    ensures GoodLog(env, history + [After(env, s)], stores + [s])
  {
    hide SingleValued, Misses, After, Sound, Names, NoneMissed;
    var g := After(env, s);
    StoredIsNewestIff(env, s);
    OneMoreState(history, g);
    OneMoreStored(env, stores, s);
    assert AllSingleValued(history) ==> SingleValued(s.before.edges);
    RecordGrows(env, history, g, stores);
    assert IsOnRecord(env, history + [g], s);
    hide IsOnRecord, AllSingleValued;
  }

  // ---------------------------------------------------------------- single writes

  lemma NewEntityIsSound(env: Env, g: Store, h: Store, id: Id, user: Id, name: string)
    requires Sound(env, g) && id !in g.entities
    requires h == g.(entities := g.entities[id := Entity(id, user, name)])
    requires forall a | a in g.entities && g.entities[a].user == user :: env.lower(g.entities[a].name) != env.lower(name)
    ensures Sound(env, h) && Evolves(env, g, h)
  {
  }

  lemma InvalidationIsSound(env: Env, g: Store, i: nat, e: Edge)
    requires Sound(env, g) && i < |g.edges| && SameFact(env, g.edges[i], e) && !e.IsValid()
    ensures var h := g.(edges := g.edges[i := e]);
            Sound(env, h) && Evolves(env, g, h) && (SingleValued(g.edges) ==> SingleValued(h.edges))
  {
    var edges := g.edges[i := e];
    forall x | x in edges ensures x.source in g.entities && g.entities[x.source].user == x.user &&
                                  x.target in g.entities && g.entities[x.target].user == x.user {
      var k :| 0 <= k < |edges| && edges[k] == x;
      assert g.edges[k] in g.edges;
    }
  }

  lemma NewEdgeIsSound(env: Env, g: Store, e: Edge)
    requires Sound(env, g) && forall i | 0 <= i < |g.edges| :: g.edges[i].id != e.id
    requires e.source in g.entities && g.entities[e.source].user == e.user
    requires e.target in g.entities && g.entities[e.target].user == e.user
    ensures Sound(env, g.(edges := g.edges + [e])) && Evolves(env, g, g.(edges := g.edges + [e]))
  {
  }

  lemma LongerHistory(env: Env, history: seq<Store>, g: Store)
    requires GoodHistory(env, history) && Sound(env, g) && Evolves(env, history[|history| - 1], g)
    ensures GoodHistory(env, history + [g])
  {
    hide Sound, Evolves;
  }

  lemma SoundOnRecord(env: Env, history: seq<Store>, g: Store)
    requires GoodHistory(env, history) && g in history
    ensures Sound(env, g)
  {
    hide Sound, Evolves;
  }

  method FindEdge(edges: seq<Edge>, id: Id, ghost i: nat) returns (k: nat)
    requires UniqueIds(edges) && i < |edges| && edges[i].id == id
    ensures k == i
  {
    k := 0;
    while edges[k].id != id
      invariant k <= i
      decreases i - k
    {
      k := k + 1;
    }
  }

  /** While a list is worked off: of the edges to be hit, those on the list so far have been invalidated. */
  ghost predicate HitUpTo(g: Store, h: Store, hit: Edge -> bool, q: Request, list: seq<Edge>, k: nat)
    requires k <= |list|
  {
    && h.entities == g.entities && |h.edges| == |g.edges|
    && forall i | 0 <= i < |g.edges| ::
         h.edges[i] == if hit(g.edges[i]) && g.edges[i] in list[..k] then Invalidated(g.edges[i], q.episode, q.now) else g.edges[i]
  }

  /** list[k] is either skipped or invalidated where it is stored. */
  lemma HitNext(env: Env, g: Store, h: Store, hit: Edge -> bool, q: Request, list: seq<Edge>, k: nat, i: nat)
    requires k < |list| && HitUpTo(g, h, hit, q, list, k) && UniqueIds(g.edges)
    requires i < |g.edges| && g.edges[i] == list[k] && (env.listsInvalid || list[k].IsValid())
    ensures !hit(list[k]) ==> HitUpTo(g, h, hit, q, list, k + 1)
    ensures var e := Invalidated(list[k], q.episode, q.now);
            hit(list[k]) ==> SameFact(env, h.edges[i], e) && HitUpTo(g, h.(edges := h.edges[i := e]), hit, q, list, k + 1)
  {
    assert list[..k + 1] == list[..k] + [list[k]];
    assert forall j | 0 <= j < |g.edges| && j != i :: g.edges[j].id != list[k].id;
  }

  /** Edges outside the slot are untouched; those inside are untouched or invalidated by this request. */
  ghost predicate OnlySlotRetired(g: Store, h: Store, q: Request, src: Id) {
    && h.entities == g.entities && |g.edges| <= |h.edges|
    && forall i | 0 <= i < |g.edges| ::
         h.edges[i] == g.edges[i] ||
         (InSlot(g.edges[i], q.user, src, q.relation.name) && h.edges[i] == Invalidated(g.edges[i], q.episode, q.now))
  }

  lemma HitsInSlot(f: Store, g: Store, h: Store, hit: Edge -> bool, q: Request, src: Id, list: seq<Edge>, k: nat)
    requires k <= |list| && OnlySlotRetired(f, g, q, src) && HitUpTo(g, h, hit, q, list, k)
    requires forall i | 0 <= i < |g.edges| && hit(g.edges[i]) :: InSlot(g.edges[i], q.user, src, q.relation.name)
    ensures OnlySlotRetired(f, h, q, src)
  {
  }

  lemma AllHit(g: Store, h: Store, hit: Edge -> bool, q: Request, list: seq<Edge>)
    requires HitUpTo(g, h, hit, q, list, |list|) && forall e | e in g.edges && hit(e) :: e in list
    ensures h == g.(edges := InvalidateWhere(g.edges, hit, q))
  {
    assert list[..|list|] == list;
    assert h.edges == InvalidateWhere(g.edges, hit, q);
  }

  // ---------------------------------------------------------------- the lists that the worker goes through

  function Conflicts(env: Env, g: Store, q: Request, src: Id, tgt: Id): seq<Edge> {
    Select(g.edges, (e: Edge) => IsConflict(env, q, src, tgt, e))
  }

  /** The other beliefs that look different, as far as they can be read. */
  function Beliefs(env: Env, g: Store, q: Request, src: Id, tgt: Id): seq<Edge> {
    if !q.ignored.readable then []
    else
      var beliefs := Select(Outgoing(g, src), (e: Edge) => IsOtherBelief(q, src, tgt, e));
      Select(beliefs, (e: Edge) => LooksDifferent(env, g, q, e))
  }

  lemma ConflictsExactly(env: Env, g: Store, q: Request, src: Id, tgt: Id)
    ensures forall e :: e in Conflicts(env, g, q, src, tgt) <==> e in g.edges && IsConflict(env, q, src, tgt, e)
  {
  }

  lemma BeliefsExactly(env: Env, g: Store, q: Request, src: Id, tgt: Id)
    ensures forall e :: e in Beliefs(env, g, q, src, tgt) <==>
                        && e in g.edges && q.ignored.readable
                        && IsOtherBelief(q, src, tgt, e) && LooksDifferent(env, g, q, e)
  {
  }

  /** Retiring the conflicts, wherever it stops. */
  lemma ConflictsRetired(env: Env, g: Store, h: Store, q: Request, src: Id, tgt: Id, done: nat)
    requires done <= |Conflicts(env, g, q, src, tgt)|
    requires HitUpTo(g, h, (e: Edge) => IsConflict(env, q, src, tgt, e), q, Conflicts(env, g, q, src, tgt), done)
    ensures OnlySlotRetired(g, h, q, src)
    ensures done == |Conflicts(env, g, q, src, tgt)| ==> h == AfterConflicts(env, g, q, src, tgt)
  {
    ConflictsExactly(env, g, q, src, tgt);
    hide Conflicts;
    var hit := (e: Edge) => IsConflict(env, q, src, tgt, e);
    HitsInSlot(g, g, h, hit, q, src, Conflicts(env, g, q, src, tgt), done);
    if done == |Conflicts(env, g, q, src, tgt)| {
      AllHit(g, h, hit, q, Conflicts(env, g, q, src, tgt));
    }
  }

  lemma BeliefsRetired(env: Env, g: Store, g1: Store, h: Store, q: Request, src: Id, tgt: Id)
    requires g1 == AfterConflicts(env, g, q, src, tgt) && OnlySlotRetired(g, g1, q, src)
    requires var list := Beliefs(env, g1, q, src, tgt);
             HitUpTo(g1, h, (e: Edge) => IsSuperseded(env, g1, q, src, tgt, e), q, list, |list|)
    ensures h == AfterRetire(env, g, q, src, tgt) && OnlySlotRetired(g, h, q, src)
  {
    BeliefsExactly(env, g1, q, src, tgt);
    hide Beliefs, AfterConflicts;
    var hit := (e: Edge) => IsSuperseded(env, g1, q, src, tgt, e);
    var list := Beliefs(env, g1, q, src, tgt);
    HitsInSlot(g, g1, h, hit, q, src, list, |list|);
    AllHit(g1, h, hit, q, list);
  }

  // ---------------------------------------------------------------- what an episode asks for

  function Keys(env: Env, names: seq<string>): set<string> {
    set name | name in names :: env.lower(name)
  }

  /** Both names of the relationship were extracted as entities. */
  predicate IsBetween(env: Env, keys: set<string>, r: Relation) {
    env.lower(r.sourceName) in keys && env.lower(r.targetName) in keys
  }

  function RequestAt(job: Job, k: nat): Request
    requires k < |job.extraction.relations|
  {
    Request(job.user, job.episode, job.now, job.extraction.relations[k], job.ignored(k))
  }

  /** The requests for the first k relationships, leaving out those whose names were not extracted. */
  function Requests(env: Env, job: Job, k: nat): seq<Request>
    requires k <= |job.extraction.relations|
  {
    if k == 0 then []
    else
      Requests(env, job, k - 1) +
      if IsBetween(env, Keys(env, job.extraction.entities), job.extraction.relations[k - 1]) then [RequestAt(job, k - 1)] else []
  }

  function Asked(stores: seq<Stored>): seq<Request> {
    seq(|stores|, i requires 0 <= i < |stores| => stores[i].request)
  }

  /** The facts stored beyond `before` are those of the first k relationships, in order. */
  ghost predicate HasStored(env: Env, before: seq<Stored>, stores: seq<Stored>, job: Job, k: nat)
    requires k <= |job.extraction.relations|
  {
    before <= stores && Asked(stores[|before|..]) == Requests(env, job, k)
  }

  lemma HasStoredNext(env: Env, before: seq<Stored>, stores: seq<Stored>, job: Job, k: nat, s: Stored)
    requires k < |job.extraction.relations| && HasStored(env, before, stores, job, k)
    requires s.request == RequestAt(job, k)
    ensures if IsBetween(env, Keys(env, job.extraction.entities), job.extraction.relations[k])
            then HasStored(env, before, stores + [s], job, k + 1) else HasStored(env, before, stores, job, k + 1)
  {
    assert (stores + [s])[|before|..] == stores[|before|..] + [s];
    assert Asked(stores[|before|..] + [s]) == Asked(stores[|before|..]) + [s.request];
  }

  lemma {:induction false} RequestsComeFromRelations(env: Env, job: Job, k: nat, q: Request) returns (m: nat)
    requires k <= |job.extraction.relations| && q in Requests(env, job, k)
    ensures m < k && q == RequestAt(job, m)
  {
    m := k - 1;
    if q in Requests(env, job, m) {
      m := RequestsComeFromRelations(env, job, m, q);
    }
  }

  /** No ignored call fails while the job is processed. */
  ghost predicate IsClean(job: Job) {
    forall m :: job.ignored(m).Clean()
  }

  /** Facts stored by clean jobs overlook nothing. */
  lemma CleanJobsMissNothing(env: Env, before: seq<Stored>, stores: seq<Stored>, job: Job, k: nat)
    requires k <= |job.extraction.relations| && HasStored(env, before, stores, job, k)
    requires IsClean(job) && NoneMissed(env, before)
    ensures NoneMissed(env, stores)
  {
    forall i | 0 <= i < |stores| ensures !Misses(env, stores[i]) {
      if i < |before| {
        assert stores[i] == before[i];
      } else {
        var rest := stores[|before|..];
        assert rest[i - |before|] == stores[i] && Asked(rest)[i - |before|] == stores[i].request;
        var m := RequestsComeFromRelations(env, job, k, stores[i].request);
        assert job.ignored(m).Clean();
      }
    }
  }

  /** Each resolved name leads to one of the user's entities of that name. */
  ghost predicate Resolves(env: Env, g: Store, user: Id, ids: map<string, Id>) {
    forall key | key in ids :: IsNamed(env, g, user, key, ids[key])
  }

  // ---------------------------------------------------------------- the worker

  class Worker {
    const env: Env
    var graph: Store
    var nextId: Id
    ghost var history: seq<Store>
    ghost var stores: seq<Stored>

    ghost predicate Valid()
      reads this
    {
      && GoodHistory(env, history)
      && GoodLog(env, history, stores)
      && |history| > 0 && history[|history| - 1] == graph
      && EdgesAreStored(graph, stores)
      && (forall id | id in graph.entities :: id < nextId)
      && (forall i | 0 <= i < |graph.edges| :: graph.edges[i].id < nextId)
    }

    constructor (env: Env)
      ensures Valid() && graph == StoreData(map[], []) && this.env == env && history == [graph] && stores == []
    {
      this.env := env;
      graph := StoreData(map[], []);
      nextId := 0;
      history := [StoreData(map[], [])];
      stores := [];
    }

    /** Valid, with nothing taken off the record. */
    ghost predicate Recorded(before: seq<Store>, storesBefore: seq<Stored>)
      reads this
    {
      Valid() && before <= history && storesBefore <= stores
    }

    method CreateEntity(user: Id, name: string) returns (id: Id)
      requires Valid()
      requires forall a | a in graph.entities && graph.entities[a].user == user ::
                 env.lower(graph.entities[a].name) != env.lower(name)
      modifies this
      ensures Recorded(old(history), old(stores)) && stores == old(stores)
      ensures id !in old(graph.entities)
      ensures graph == old(graph).(entities := old(graph).entities[id := Entity(id, user, name)])
    {
      hide GoodLog, GoodHistory, Sound, Evolves, EdgesAreStored;
      id := nextId;
      nextId := nextId + 1;
      ghost var before := graph;
      assert before in history;
      SoundOnRecord(env, history, before);
      graph := graph.(entities := graph.entities[id := Entity(id, user, name)]);
      NewEntityIsSound(env, before, graph, id, user, name);
      StoredAfterEntity(before, graph, stores);
      LongerHistory(env, history, graph);
      LogAfterWrite(env, history, stores, graph);
      history := history + [graph];
    }

    /** The store replaces the edge that has this id; i is its place. */
    method UpdateEdge(e: Edge, ghost i: nat)
      requires Valid() && !e.IsValid()
      requires i < |graph.edges| && SameFact(env, graph.edges[i], e)
      modifies this
      ensures Recorded(old(history), old(stores)) && stores == old(stores)
      ensures graph == old(graph).(edges := old(graph).edges[i := e])
    {
      hide GoodLog, GoodHistory, Evolves, SingleValued, UniqueNames, Integrity, EdgesAreStored;
      assert |history| > 0 && graph in history;
      SoundOnRecord(env, history, graph);
      var k := FindEdge(graph.edges, e.id, i);
      InvalidationIsSound(env, graph, k, e);
      StoredAfterUpdate(env, graph, stores, k, e);
      ghost var next := graph.(edges := graph.edges[k := e]);
      LongerHistory(env, history, next);
      LogAfterWrite(env, history, stores, next);
      graph := graph.(edges := graph.edges[k := e]);
      history := history + [graph];
    }

    /** Store the fact; `before` is the graph as it was before anything was retired for it. */
    method CreateEdge(q: Request, src: Id, tgt: Id, ghost before: Store) returns (id: Id)
      requires Valid() && before in history && Names(env, before, q, src, tgt)
      requires graph == AfterRetire(env, before, q, src, tgt)
      modifies this
      ensures Recorded(old(history), old(stores))
      ensures graph == old(graph).(edges := old(graph).edges + [NewEdge(id, q, src, tgt)])
      ensures stores == old(stores) + [Stored(before, id, src, tgt, q)]
    {
      hide AfterRetire, GoodLog, GoodHistory, Sound, Evolves, SameSlot, EdgesAreStored;
      RetireKeepsSlots(env, before, q, src, tgt);
      assert graph.entities == before.entities && graph in history;
      SoundOnRecord(env, history, before);
      SoundOnRecord(env, history, graph);
      id := nextId;
      nextId := nextId + 1;
      ghost var s := Stored(before, id, src, tgt, q);
      NewEdgeIsSound(env, graph, NewEdge(id, q, src, tgt));
      StoredAfterStore(graph, stores, s);
      ghost var next := graph.(edges := graph.edges + [NewEdge(id, q, src, tgt)]);
      assert next == After(env, s);
      LongerHistory(env, history, next);
      LogAfterStore(env, history, stores, s);
      graph := graph.(edges := graph.edges + [NewEdge(id, q, src, tgt)]);
      history := history + [graph];
      stores := stores + [s];
    }

    /**
     Invalidate the listed edges one by one, skipping those that `unwritten` says cannot be updated.
     If a call fails that matters, the rest stay as they are.
     */
    method InvalidateEach(list: seq<Edge>, unwritten: set<Id>, q: Request, ghost hit: Edge -> bool, budget0: Budget)
      returns (ok: bool, budget: Budget, ghost done: nat)
      requires Valid() && forall c | c in list :: c in graph.edges && (env.listsInvalid || c.IsValid())
      requires forall e | e in list :: hit(e) <==> e.id !in unwritten
      modifies this
      ensures Recorded(old(history), old(stores)) && stores == old(stores)
      ensures done <= |list| && HitUpTo(old(graph), graph, hit, q, list, done) && (ok ==> done == |list|)
      ensures budget0.Unlimited? ==> ok && budget.Unlimited?
    {
      hide GoodLog, GoodHistory, UniqueNames, Integrity, EdgesAreStored;
      SoundOnRecord(env, history, graph);
      ok, budget, done := true, budget0, 0;
      ghost var start := graph;
      for k := 0 to |list|
        invariant Recorded(old(history), old(stores)) && stores == old(stores) && done == k
        invariant budget0.Unlimited? ==> budget.Unlimited?
        invariant HitUpTo(start, graph, hit, q, list, k)
      {
        if !budget.Allows(1) {
          ok := false;
          return;
        }
        budget := budget.Less(1);
        var c := list[k];
        assert c in list;
        ghost var i :| 0 <= i < |start.edges| && start.edges[i] == c;
        HitNext(env, start, graph, hit, q, list, k, i);
        done := k + 1;
        if c.id !in unwritten {
          UpdateEdge(Invalidated(c, q.episode, q.now), i);
        }
      }
    }

    /** Step 3 for one name: a look-up, then either an update or a creation and two calls about its embedding. */
    method ResolveName(user: Id, name: string, budget0: Budget) returns (ok: bool, id: Id, budget: Budget)
      requires Valid()
      modifies this
      ensures Recorded(old(history), old(stores)) && stores == old(stores) && graph.edges == old(graph).edges
      ensures graph.entities == old(graph).entities ||
              (id !in old(graph).entities && graph.entities == old(graph).entities[id := Entity(id, user, name)])
      ensures ok ==> IsNamed(env, graph, user, env.lower(name), id)
      ensures budget0.Unlimited? ==> ok && budget.Unlimited?
    {
      hide GoodHistory, GoodLog, EdgesAreStored;
      ok, id, budget := false, 0, budget0;
      if !budget.Allows(2) { return; }
      budget := budget.Less(2);
      if e :| e in graph.entities.Keys && graph.entities[e].user == user && env.lower(graph.entities[e].name) == env.lower(name) {
        return true, e, budget;
      }
      id := CreateEntity(user, name);
      if !budget.Allows(2) { return; }
      return true, id, budget.Less(2);
    }

    /** Step 3: find or create an entity for each extracted name. */
    method ResolveEntities(user: Id, names: seq<string>, budget0: Budget)
      returns (ok: bool, ids: map<string, Id>, budget: Budget)
      requires Valid()
      modifies this
      ensures Recorded(old(history), old(stores)) && stores == old(stores) && graph.edges == old(graph).edges
      ensures Resolves(env, graph, user, ids)
      ensures ok ==> ids.Keys == Keys(env, names)
      ensures budget0.Unlimited? ==> ok && budget.Unlimited?
    {
      hide GoodHistory, GoodLog, EdgesAreStored;
      ok, ids, budget := true, map[], budget0;
      for k := 0 to |names|
        invariant Recorded(old(history), old(stores)) && stores == old(stores) && graph.edges == old(graph).edges
        invariant Resolves(env, graph, user, ids)
        invariant ids.Keys == Keys(env, names[..k])
        invariant ok && (budget0.Unlimited? ==> budget.Unlimited?)
      {
        assert names[..k + 1] == names[..k] + [names[k]];
        var id: Id;
        ok, id, budget := ResolveName(user, names[k], budget);
        if !ok { return; }
        ids := ids[env.lower(names[k]) := id];
      }
      assert names[..|names|] == names;
    }

    /**
     Step 4 for one relationship, before it is stored: invalidate the conflicting edges, then the
     other beliefs whose target has a different name.
     */
    method Retire(q: Request, src: Id, tgt: Id, budget0: Budget) returns (ok: bool, budget: Budget)
      requires Valid()
      modifies this
      ensures Recorded(old(history), old(stores)) && stores == old(stores)
      ensures |graph.edges| == |old(graph).edges| && OnlySlotRetired(old(graph), graph, q, src)
      ensures ok ==> graph == AfterRetire(env, old(graph), q, src, tgt)
      ensures budget0.Unlimited? ==> ok && budget.Unlimited?
    {
      hide EdgesAreStored, GoodHistory, GoodLog, Conflicts, Beliefs, AfterConflicts, AfterRetire, OnlySlotRetired, LooksDifferent;
      ghost var done, g0 := 0, graph;
      ghost var conflict := (e: Edge) => IsConflict(env, q, src, tgt, e);
      ConflictsExactly(env, g0, q, src, tgt);
      ok, budget, done := InvalidateEach(Conflicts(env, graph, q, src, tgt), {}, q, conflict, budget0);
      ConflictsRetired(env, g0, graph, q, src, tgt, done);
      if !ok { return; }
      var g1 := graph;
      ghost var superseded := (e: Edge) => IsSuperseded(env, g1, q, src, tgt, e);
      BeliefsExactly(env, g1, q, src, tgt);
      var _, _, done1 := InvalidateEach(Beliefs(env, g1, q, src, tgt), q.ignored.unwritten, q, superseded, Unlimited);
      BeliefsRetired(env, g0, g1, graph, q, src, tgt);
    }

    /** Step 4 for one relationship. An edge is stored or not; only what comes after it can still fail. */
    method Relate(q: Request, src: Id, tgt: Id, budget0: Budget) returns (ok: bool, budget: Budget, ghost s: Stored)
      requires Valid() && Names(env, graph, q, src, tgt)
      modifies this
      ensures Recorded(old(history), old(stores)) && OnlySlotRetired(old(graph), graph, q, src)
      ensures s.before == old(graph) && s.src == src && s.tgt == tgt && s.request == q
      ensures if stores == old(stores) then !ok && |graph.edges| == |old(graph).edges|
              else stores == old(stores) + [s] && graph == After(env, s)
      ensures budget0.Unlimited? ==> ok && budget.Unlimited?
    {
      hide EdgesAreStored, GoodHistory, GoodLog, AfterRetire, Names;
      ok, budget, s := false, budget0, Stored(graph, 0, src, tgt, q);
      if !budget.Allows(1) { return; }
      var retired;
      assert graph in history;
      retired, budget := Retire(q, src, tgt, budget.Less(1));
      if !retired || !budget.Allows(1) { return; }
      var id := CreateEdge(q, src, tgt, s.before);
      s := s.(id := id);
      if !budget.Allows(3) { return; }
      ok, budget := true, budget.Less(3);
    }

    /** Step 4 for the k-th relationship; one whose names were not extracted is skipped. */
    method RelateNamed(job: Job, k: nat, ids: map<string, Id>, budget0: Budget, ghost before: seq<Stored>)
      returns (ok: bool, budget: Budget, ghost done: nat)
      requires Valid() && k < |job.extraction.relations| && HasStored(env, before, stores, job, k)
      requires Resolves(env, graph, job.user, ids) && ids.Keys == Keys(env, job.extraction.entities)
      modifies this
      ensures Recorded(old(history), old(stores)) && Resolves(env, graph, job.user, ids)
      ensures done <= |job.extraction.relations| && HasStored(env, before, stores, job, done)
      ensures ok ==> done == k + 1
      ensures budget0.Unlimited? ==> ok && budget.Unlimited?
    {
      hide EdgesAreStored, GoodHistory, GoodLog, HasStored, After;
      ok, budget, done := true, budget0, k + 1;
      var q := RequestAt(job, k);
      var source, target := env.lower(q.relation.sourceName), env.lower(q.relation.targetName);
      ghost var stores0 := stores;
      if source !in ids || target !in ids {
        HasStoredNext(env, before, stores, job, k, Stored(graph, 0, 0, 0, q));
        return;
      }
      ghost var s;
      ok, budget, s := Relate(q, ids[source], ids[target], budget);
      HasStoredNext(env, before, stores0, job, k, s);
      done := if stores == stores0 then k else k + 1;
    }

    /**
     Process one episode's extraction. The facts it stores are those of its relationships between extracted
     names, in order, up to where it is abandoned. It completes if no call fails that matters.
     */
    method ProcessEpisode(job: Job) returns (completed: bool, ghost done: nat)
      requires Valid()
      modifies this
      ensures Recorded(old(history), old(stores))
      ensures done <= |job.extraction.relations| && HasStored(env, old(stores), stores, job, done)
      ensures StoredInTurn(env, job, done, history, old(graph), graph)
      ensures completed ==> done == |job.extraction.relations|
      ensures job.budget.Unlimited? ==> completed
    {
      hide EdgesAreStored, GoodHistory, GoodLog, HasStored, StoredInTurn;
      AsManyAsStored(graph, stores);
      ghost var before := stores;
      done := 0;
      NothingStoredYet(env, stores, job);
      var ok, ids, budget := ResolveEntities(job.user, job.extraction.entities, job.budget);
      if !ok {
        TurnsOut(env, job, 0, history, before, stores, old(graph), graph);
        return false, 0;
      }
      for k := 0 to |job.extraction.relations|
        invariant Recorded(old(history), old(stores)) && Resolves(env, graph, job.user, ids)
        invariant done == k && HasStored(env, old(stores), stores, job, k)
        invariant job.budget.Unlimited? ==> budget.Unlimited?
      {
        ok, budget, done := RelateNamed(job, k, ids, budget, old(stores));
        if !ok {
          TurnsOut(env, job, done, history, before, stores, old(graph), graph);
          return false, done;
        }
      }
      TurnsOut(env, job, done, history, before, stores, old(graph), graph);
      return true, done;
    }

    /**
     Any sequence of episodes, abandoned and retried ones included. At every point at most one edge is valid per
     user, source and relation, exactly if no stored fact overlooked another belief; clean episodes never do.
     */
    method ProcessAll(jobs: seq<Job>)
      requires Valid()
      modifies this
      ensures Recorded(old(history), old(stores)) && Evolves(env, old(graph), graph)
      ensures AllSingleValued(history) <==> NoneMissed(env, stores)
      ensures AllSingleValued(old(history)) && (forall k | 0 <= k < |jobs| :: IsClean(jobs[k])) ==> AllSingleValued(history)
    {
      hide EdgesAreStored, GoodHistory, GoodLog, HasStored, StoredInTurn, NoneMissed, AllSingleValued, IsClean, Evolves;
      LogSays(env, history, stores);
      for k := 0 to |jobs|
        invariant Recorded(old(history), old(stores))
        invariant NoneMissed(env, old(stores)) && (forall m | 0 <= m < k :: IsClean(jobs[m])) ==> NoneMissed(env, stores)
      {
        ghost var before := stores;
        var _, done := ProcessEpisode(jobs[k]);
        if IsClean(jobs[k]) && NoneMissed(env, before) {
          CleanJobsMissNothing(env, before, stores, jobs[k], done);
        }
      }
      LogSays(env, history, stores);
      HistoryOnlyGrows(env, history, |old(history)| - 1, |history| - 1);
    }
  }

  /** Both names of the k-th relationship were extracted, ignoring case. */
  ghost predicate WasExtracted(env: Env, x: Extraction, k: nat) {
    && k < |x.relations|
    && (exists a :: a in x.entities && env.lower(a) == env.lower(x.relations[k].sourceName))
    && (exists b :: b in x.entities && env.lower(b) == env.lower(x.relations[k].targetName))
  }

  /** Some recorded state was followed by the one in which this relationship had just been stored. */
  ghost predicate WasStored(env: Env, history: seq<Store>, job: Job, k: nat)
    requires k < |job.extraction.relations|
  {
    exists g, h :: g in history && h in history
                   && StoresFact(env, g, h, Request(job.user, job.episode, job.now, job.extraction.relations[k], job.ignored(k)))
  }

  /** `at` lists the relationships before `done` whose names were extracted, in order. */
  ghost predicate ListsExtracted(env: Env, job: Job, done: nat, at: seq<nat>) {
    && Increasing(at)
    && (forall m: nat :: m in at <==> m < done && WasExtracted(env, job.extraction, m))
  }

  /**
   What an episode that got past its first `done` relationships leaves behind: those whose names were extracted, in
   order, are the edges added to the graph, and each was stored as a valid edge.
   */
  ghost predicate StoredInTurn(env: Env, job: Job, done: nat, history: seq<Store>, g: StoreData, h: StoreData) {
    exists at: seq<nat> :: ListsExtracted(env, job, done, at) && |h.edges| == |g.edges| + |at| && AreFacts(env, job, history, g, h, at)
  }

  ghost predicate AreFacts(env: Env, job: Job, history: seq<Store>, g: StoreData, h: StoreData, at: seq<nat>)
    requires |h.edges| == |g.edges| + |at|
  {
    forall j | 0 <= j < |at| ::
      && at[j] < |job.extraction.relations| && WasStored(env, history, job, at[j])
      && IsFactOf(env, h, h.edges[|g.edges| + j], job.user, job.extraction.relations[at[j]])
  }

  lemma {:induction false} RequestsAreListed(env: Env, job: Job, done: nat) returns (at: seq<nat>)
    requires done <= |job.extraction.relations|
    ensures ListsExtracted(env, job, done, at) && |at| == |Requests(env, job, done)|
    ensures forall j | 0 <= j < |at| :: at[j] < |job.extraction.relations| && Requests(env, job, done)[j] == RequestAt(job, at[j])
  {
    at := [];
    if done > 0 {
      var k := done - 1;
      at := RequestsAreListed(env, job, k);
      BetweenIsExtracted(env, job.extraction, k);
      hide WasExtracted, IsBetween, Keys;
      if WasExtracted(env, job.extraction, k) {
        hide Increasing;
        IncreasingLonger(at, k);
        at := at + [k];
      }
    }
  }

  lemma BetweenIsExtracted(env: Env, x: Extraction, k: nat)
    requires k < |x.relations|
    ensures IsBetween(env, Keys(env, x.entities), x.relations[k]) <==> WasExtracted(env, x, k)
  {
  }

  lemma TurnsOut(env: Env, job: Job, done: nat, history: seq<Store>, before: seq<Stored>, stores: seq<Stored>, g: Store, h: Store)
    requires done <= |job.extraction.relations| && HasStored(env, before, stores, job, done)
    requires GoodHistory(env, history) && GoodLog(env, history, stores) && history[|history| - 1] == h
    requires |g.edges| == |before| && EdgesAreStored(h, stores)
    ensures StoredInTurn(env, job, done, history, g, h)
  {
    hide ListsExtracted, GoodLog, GoodHistory, EdgesAreStored, IsEdgeOf, IsOnRecord, WasStored, IsFactOf;
    var at := RequestsAreListed(env, job, done);
    NewsAreRequests(env, before, stores, job, done);
    hide HasStored;
    AsManyAsStored(h, stores);
    forall j | 0 <= j < |at|
      ensures WasStored(env, history, job, at[j])
      ensures IsFactOf(env, h, h.edges[|g.edges| + j], job.user, job.extraction.relations[at[j]])
    {
      var s := stores[|before| + j];
      assert s.request == RequestAt(job, at[j]);
      NewIsOnRecord(env, history, stores, h, |before| + j);
      StoredOnRecord(env, history, s, job, at[j]);
      FactOnRecord(env, history, h, h.edges[|g.edges| + j], s);
    }
  }

  lemma NewsAreRequests(env: Env, before: seq<Stored>, stores: seq<Stored>, job: Job, k: nat)
    requires k <= |job.extraction.relations| && HasStored(env, before, stores, job, k)
    ensures |stores| == |before| + |Requests(env, job, k)|
    ensures forall j | 0 <= j < |Requests(env, job, k)| :: stores[|before| + j].request == Requests(env, job, k)[j]
  {
    var news := stores[|before|..];
    assert |Asked(news)| == |news|;
    hide Requests;
    forall j | 0 <= j < |news| ensures stores[|before| + j].request == Requests(env, job, k)[j] {
      assert Asked(news)[j] == news[j].request;
    }
  }

  lemma NewIsOnRecord(env: Env, history: seq<Store>, stores: seq<Stored>, h: Store, k: nat)
    requires GoodLog(env, history, stores) && EdgesAreStored(h, stores) && k < |stores|
    ensures IsOnRecord(env, history, stores[k]) && k < |h.edges| && IsEdgeOf(h.edges[k], stores[k])
  {
    hide IsOnRecord, IsEdgeOf, AllSingleValued, NoneMissed;
  }

  lemma StoredOnRecord(env: Env, history: seq<Store>, s: Stored, job: Job, k: nat)
    requires GoodHistory(env, history) && IsOnRecord(env, history, s)
    requires k < |job.extraction.relations| && s.request == RequestAt(job, k)
    ensures WasStored(env, history, job, k)
  {
    hide GoodHistory, After, StoresFact;
    SoundOnRecord(env, history, s.before);
    StoredPlainly(env, s);
  }

  /** The entities of a stored fact keep their names. */
  lemma FactOnRecord(env: Env, history: seq<Store>, h: Store, e: Edge, s: Stored)
    requires GoodHistory(env, history) && IsOnRecord(env, history, s) && history[|history| - 1] == h && IsEdgeOf(e, s)
    ensures IsFactOf(env, h, e, s.request.user, s.request.relation)
  {
    var i :| 0 <= i < |history| && history[i] == s.before;
    HistoryOnlyGrows(env, history, i, |history| - 1);
    hide GoodHistory, After;
  }

  lemma NothingStoredYet(env: Env, stores: seq<Stored>, job: Job)
    ensures HasStored(env, stores, stores, job, 0)
  {
  }

  lemma LogSays(env: Env, history: seq<Store>, stores: seq<Stored>)
    requires GoodLog(env, history, stores)
    ensures AllSingleValued(history) <==> NoneMissed(env, stores)
  {
  }
}
