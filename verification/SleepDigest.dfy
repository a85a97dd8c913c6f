/**
 The idle-time work of the ingest worker: when a user has been quiet long enough, generate and
 persist a digest once, and re-rank once, until the user becomes active again.
 Times are in milliseconds on a monotonic clock and come from outside.
 */
module SleepDigest {
  import opened Wrappers

  type UserId = nat
  type Digest = string

  const MIN_IDLE_SECONDS := 30
  const EVICTION_MS := 86400 * 1000

  datatype Event = Active(user: UserId) | Saved(user: UserId)

  /** What generating and persisting a digest for a user comes to. */
  datatype Outcome = GenerationFails | SaveFails(digest: Digest) | Saves(digest: Digest)

  function Elapsed(since: nat, now: nat): nat {
    if now > since then now - since else 0
  }

  // ---------------------------------------------------------------- properties of the event log

  /** The latest event of u in the log is a saved digest. */
  ghost predicate Fresh(log: seq<Event>, u: UserId) {
    exists i :: 0 <= i < |log| && log[i] == Saved(u) && forall k | i < k < |log| :: log[k] != Active(u)
  }

  /** Between two saved digests of a user there is activity of that user. */
  ghost predicate OncePerIdleSpell(log: seq<Event>) {
    forall i, j | 0 <= i < j < |log| && log[i].Saved? && log[j] == log[i] :: BecomesActive(log, i, j, log[i].user)
  }

  ghost predicate BecomesActive(log: seq<Event>, i: int, j: int, u: UserId) {
    exists k :: 0 <= i < k < j <= |log| && log[k] == Active(u)
  }

  lemma FreshAfter(log: seq<Event>, e: Event, u: UserId)
    ensures Fresh(log + [e], u) <==> e == Saved(u) || (Fresh(log, u) && e != Active(u))
  {
    var longer := log + [e];
    assert longer[|log|] == e;
    if Fresh(log, u) && e != Active(u) {
      var i :| 0 <= i < |log| && log[i] == Saved(u) && forall k | i < k < |log| :: log[k] != Active(u);
      assert longer[i] == Saved(u);
    }
    if Fresh(longer, u) && e != Saved(u) {
      var i :| 0 <= i < |longer| && longer[i] == Saved(u) && forall k | i < k < |longer| :: longer[k] != Active(u);
      assert log[i] == Saved(u);
      forall k | i < k < |log| ensures log[k] != Active(u) {
        assert longer[k] == log[k];
      }
    }
  }

  lemma BecomesActiveLater(log: seq<Event>, e: Event, i: int, j: int, u: UserId)
    requires BecomesActive(log, i, j, u)
    ensures BecomesActive(log + [e], i, j, u)
  {
    var k :| 0 <= i < k < j <= |log| && log[k] == Active(u);
    assert (log + [e])[k] == Active(u);
  }

  /** A digest may be saved whenever the user's latest event is not already a saved digest. */
  lemma StillOncePerIdleSpell(log: seq<Event>, e: Event)
    requires OncePerIdleSpell(log) && (e.Saved? ==> !Fresh(log, e.user))
    ensures OncePerIdleSpell(log + [e])
  {
    var longer := log + [e];
    forall i, j | 0 <= i < j < |longer| && longer[i].Saved? && longer[j] == longer[i]
      ensures BecomesActive(longer, i, j, longer[i].user)
    {
      var u := longer[i].user;
      if j < |log| {
        assert log[i] == longer[i] && log[j] == longer[j];
        BecomesActiveLater(log, e, i, j, u);
      } else {
        assert log[i] == Saved(u);
        var k :| i < k < |log| && log[k] == Active(u);
        assert longer[k] == Active(u);
      }
    }
  }

  /** The users of the activity events, in order. */
  ghost function Actives(log: seq<Event>): seq<UserId> {
    if log == [] then []
    else
      var k := |log| - 1;
      Actives(log[..k]) + if log[k].Active? then [log[k].user] else []
  }

  lemma ActivesAfter(log: seq<Event>, e: Event)
    ensures Actives(log + [e]) == Actives(log) + if e.Active? then [e.user] else []
  {
    assert (log + [e])[..|log|] == log;
  }

  // ---------------------------------------------------------------- the worker

  class SleepWorker {
    const idleWindowSeconds: nat
    const caching: bool
    var activity: map<UserId, nat>
    var digestDone: set<UserId>
    var rerankDone: set<UserId>
    var cache: map<UserId, Digest>
    var persisted: map<UserId, Digest>
    ghost var log: seq<Event>

    constructor (idleWindowSeconds: nat, caching: bool)
      ensures Valid() && log == [] && activity == map[] && persisted == map[] && cache == map[]
      ensures digestDone == {} && rerankDone == {}
      ensures this.idleWindowSeconds == idleWindowSeconds && this.caching == caching
    {
      this.idleWindowSeconds, this.caching := idleWindowSeconds, caching;
      activity, digestDone, rerankDone, cache, persisted, log := map[], {}, {}, map[], map[], [];
    }

    function Current(): Record
      reads this
    {
      Record(activity, digestDone, rerankDone, persisted)
    }

    function Threshold(): nat {
      Max(idleWindowSeconds, MIN_IDLE_SECONDS) * 1000
    }

    /** A user marked as generated has a persisted digest; the cache never differs from what is persisted. */
    ghost predicate Valid()
      reads this
    {
      && (forall u | u in digestDone :: u in persisted)
      && (forall u | u in cache :: u in persisted && cache[u] == persisted[u])
      && (!caching ==> cache == map[])
      && OncePerIdleSpell(log)
      && (forall u | Fresh(log, u) :: u in digestDone || u !in activity)
    }

    predicate IsIdle(u: UserId, now: nat)
      reads this
    {
      u in activity && Elapsed(activity[u], now) >= Threshold()
    }

    /** The idle users that are not marked, each judged at its own instant. */
    function Idle(now: UserId -> nat, marked: set<UserId>): set<UserId>
      reads this
    {
      Due(Threshold(), activity, now, marked)
    }

    method RecordUserActivity(u: UserId, now: nat)
      requires Valid()
      modifies this
      ensures Valid()
      ensures activity == old(activity)[u := now]
      ensures digestDone == old(digestDone) - {u} && rerankDone == old(rerankDone) - {u}
      ensures cache == old(cache) && persisted == old(persisted)
      ensures log == old(log) + [Active(u)]
    {
      StillOncePerIdleSpell(log, Active(u));
      forall w ensures Fresh(log + [Active(u)], w) <==> Fresh(log, w) && w != u {
        FreshAfter(log, Active(u), w);
      }
      activity := activity[u := now];
      digestDone := digestDone - {u};
      rerankDone := rerankDone - {u};
      log := log + [Active(u)];
    }

    /** Persist first; only then fill the cache and mark the user. A failure changes nothing. */
    method Attempt(u: UserId, outcome: Outcome)
      requires Valid() && !Fresh(log, u)
      modifies this`digestDone, this`cache, this`persisted, this`log
      ensures Valid()
      ensures if outcome.Saves? then
                && digestDone == old(digestDone) + {u}
                && persisted == old(persisted)[u := outcome.digest]
                && cache == (if caching then old(cache)[u := outcome.digest] else old(cache))
                && log == old(log) + [Saved(u)]
              else
                digestDone == old(digestDone) && persisted == old(persisted) && cache == old(cache) && log == old(log)
      ensures forall w :: Fresh(log, w) <==> Fresh(old(log), w) || (w == u && outcome.Saves?)
      ensures Actives(log) == Actives(old(log))
    {
      hide Fresh, OncePerIdleSpell, Actives;
      match outcome {
        case GenerationFails =>
        case SaveFails(_) =>
        case Saves(digest) =>
          StillOncePerIdleSpell(log, Saved(u));
          ActivesAfter(log, Saved(u));
          forall w ensures Fresh(log + [Saved(u)], w) <==> Fresh(log, w) || w == u {
            FreshAfter(log, Saved(u), w);
          }
          persisted := persisted[u := digest];
          if caching {
            cache := cache[u := digest];
          }
          digestDone := digestDone + {u};
          log := log + [Saved(u)];
      }
    }

    /** Digests for the users that were due; a user that was evicted meanwhile is served as well. */
    method GenerateDigests(due: set<UserId>, outcomes: map<UserId, Outcome>)
      requires Valid() && due <= outcomes.Keys
      requires forall u | u in due :: !Fresh(log, u)
      modifies this`digestDone, this`cache, this`persisted, this`log
      ensures Valid()
      ensures digestDone == old(digestDone) + Savers(due, outcomes)
      ensures persisted == old(persisted) + Digests(due, outcomes)
      ensures cache == if caching then old(cache) + Digests(due, outcomes) else old(cache)
      ensures forall u :: Fresh(log, u) <==> Fresh(old(log), u) || u in Savers(due, outcomes)
      ensures Actives(log) == Actives(old(log))
    {
      hide Fresh, OncePerIdleSpell, Savers, Digests;
      Nothing(outcomes);
      var todo := due;
      assert due - todo == {};
      while todo != {}
        invariant Valid() && todo <= due && Actives(log) == Actives(old(log))
        invariant digestDone == old(digestDone) + Savers(due - todo, outcomes)
        invariant persisted == old(persisted) + Digests(due - todo, outcomes)
        invariant cache == if caching then old(cache) + Digests(due - todo, outcomes) else old(cache)
        invariant forall u :: Fresh(log, u) <==> Fresh(old(log), u) || u in Savers(due - todo, outcomes)
      {
        var u :| u in todo;
        OneMore(due - todo, outcomes, u);
        OneMoreDigest(old(persisted), due - todo, outcomes, u);
        OneMoreDigest(old(cache), due - todo, outcomes, u);
        assert due - (todo - {u}) == (due - todo) + {u};
        todo := todo - {u};
        Attempt(u, outcomes[u]);
      }
      assert due - {} == due;
    }

    /**
     One check of all tracked users: each is judged at its instant `scan`, and evicted or not at its
     instant `evict`. `reranks` are the users whose re-ranking succeeds.
     */
    method Consolidate(scan: UserId -> nat, evict: UserId -> nat, outcomes: map<UserId, Outcome>, reranks: set<UserId>)
      requires Valid() && activity.Keys <= outcomes.Keys
      modifies this
      ensures Valid()
      ensures activity == map u | u in old(activity) && Elapsed(old(activity)[u], evict(u)) < EVICTION_MS :: old(activity)[u]
      ensures var due := old(Idle(scan, digestDone));
              && digestDone == old(digestDone) * activity.Keys + Savers(due, outcomes)
              && persisted == old(persisted) + Digests(due, outcomes)
              && cache == (if caching then old(cache) + Digests(due, outcomes) else old(cache))
              && (forall u :: Fresh(log, u) <==> Fresh(old(log), u) || u in Savers(due, outcomes))
              // a user whose digest failed and who is still tracked is due again at any later check
              && (forall u, later | u in due && !outcomes[u].Saves? && u in activity && later >= scan(u) ::
                    IsIdle(u, later) && u !in digestDone)
      ensures Actives(log) == Actives(old(log))
      ensures rerankDone == old(rerankDone) * activity.Keys +
                (set u | u in old(Idle(scan, rerankDone)) && u in reranks)
      ensures IsPlainCheck(idleWindowSeconds, scan, evict, outcomes, reranks, old(Current()), Current())
    {
      hide Fresh, OncePerIdleSpell, IsPlainCheck, Digests;
      ghost var before := Current();
      var due := Idle(scan, digestDone);
      var unranked := Idle(scan, rerankDone);
      Evict(evict);
      GenerateDigests(due, outcomes);
      rerankDone := rerankDone + (set u | u in unranked && u in reranks);
      CheckIsPlain(Threshold(), idleWindowSeconds, scan, evict, outcomes, reranks, before, Current());
    }

    /** Forget users without activity for a day, and their marks. */
    method Evict(now: UserId -> nat)
      requires Valid()
      modifies this`activity, this`digestDone, this`rerankDone
      ensures Valid()
      ensures activity == map u | u in old(activity) && Elapsed(old(activity)[u], now(u)) < EVICTION_MS :: old(activity)[u]
      ensures digestDone == old(digestDone) * activity.Keys
      ensures rerankDone == old(rerankDone) * activity.Keys
    {
      activity := map u | u in activity && Elapsed(activity[u], now(u)) < EVICTION_MS :: activity[u];
      digestDone := set u | u in digestDone && u in activity;
      rerankDone := set u | u in rerankDone && u in activity;
    }

    /** Any run of the worker loop from this state; the log records exactly the activity it was told of. */
    method Run(commands: seq<Command>)
      requires Valid()
      requires forall i | 0 <= i < |commands| && commands[i].Check? :: forall u :: u in commands[i].outcomes
      modifies this
      ensures Valid()
      ensures Actives(log) == Actives(old(log)) + Actors(commands)
    {
      for i := 0 to |commands|
        invariant Valid()
        invariant Actives(log) == Actives(old(log)) + Actors(commands[..i])
      {
        assert commands[..i + 1][..i] == commands[..i];
        match commands[i] {
          case Act(u, now) =>
            ActivesAfter(log, Active(u));
            RecordUserActivity(u, now);
          case Check(scan, evict, outcomes, reranks) =>
            Consolidate(scan, evict, map u | u in activity :: outcomes[u], reranks);
        }
      }
      assert commands[..|commands|] == commands;
    }
  }

  datatype Record = Record(activity: map<UserId, nat>, digestDone: set<UserId>, rerankDone: set<UserId>, persisted: map<UserId, Digest>)

  /** In plain milliseconds: u has been quiet for the idle window, and for 30 seconds. */
  predicate IsQuiet(windowSeconds: nat, activity: map<UserId, nat>, u: UserId, now: nat) {
    u in activity && now >= activity[u] + 30000 && now >= activity[u] + 1000 * windowSeconds
  }

  /**
   What one check does to each tracked user. Only who has been quiet and is not marked gets a digest or is re-ranked,
   and does unless that fails. Nobody active within 24 hours is forgotten, and nobody else is remembered.
   */
  ghost predicate IsPlainCheck(windowSeconds: nat, scan: UserId -> nat, evict: UserId -> nat, outcomes: map<UserId, Outcome>,
                               reranks: set<UserId>, before: Record, after: Record)
    requires before.activity.Keys <= outcomes.Keys
  {
    && (forall u | u in before.activity :: u in after.activity <==> evict(u) < before.activity[u] + 86400000)
    && (forall u | u in before.activity && IsQuiet(windowSeconds, before.activity, u, scan(u)) ::
          && (u !in before.digestDone && outcomes[u].Saves? ==>
                u in after.digestDone && u in after.persisted && after.persisted[u] == outcomes[u].digest)
          && (u !in before.rerankDone && u in reranks ==> u in after.rerankDone))
    && (forall u | !IsQuiet(windowSeconds, before.activity, u, scan(u)) :: Untouched(before, after, u))
  }

  /** u got no digest and was not re-ranked. */
  predicate Untouched(before: Record, after: Record, u: UserId) {
    && (u in after.digestDone ==> u in before.digestDone) && (u in after.rerankDone ==> u in before.rerankDone)
    && (u in after.persisted <==> u in before.persisted) && (u in after.persisted ==> after.persisted[u] == before.persisted[u])
  }

  /** The users that a check finds due. */
  function Due(threshold: nat, activity: map<UserId, nat>, scan: UserId -> nat, marked: set<UserId>): set<UserId> {
    set u | u in activity && Elapsed(activity[u], scan(u)) >= threshold && u !in marked
  }

  lemma CheckIsPlain(threshold: nat, windowSeconds: nat, scan: UserId -> nat, evict: UserId -> nat, outcomes: map<UserId, Outcome>,
                     reranks: set<UserId>, before: Record, after: Record)
    requires before.activity.Keys <= outcomes.Keys && threshold == Max(windowSeconds, MIN_IDLE_SECONDS) * 1000
    requires after.activity == map u | u in before.activity && Elapsed(before.activity[u], evict(u)) < EVICTION_MS :: before.activity[u]
    requires var due := Due(threshold, before.activity, scan, before.digestDone);
             && after.digestDone == before.digestDone * after.activity.Keys + Savers(due, outcomes)
             && after.persisted == before.persisted + Digests(due, outcomes)
    requires var unranked := Due(threshold, before.activity, scan, before.rerankDone);
             after.rerankDone == before.rerankDone * after.activity.Keys + (set u | u in unranked && u in reranks)
    ensures IsPlainCheck(windowSeconds, scan, evict, outcomes, reranks, before, after)
  {
  }

  datatype Command =
    | Act(user: UserId, now: nat)
    | Check(scan: UserId -> nat, evict: UserId -> nat, outcomes: imap<UserId, Outcome>, reranks: set<UserId>)

  ghost function Actors(commands: seq<Command>): seq<UserId> {
    if commands == [] then []
    else
      var k := |commands| - 1;
      Actors(commands[..k]) + if commands[k].Act? then [commands[k].user] else []
  }

  function Savers(due: set<UserId>, outcomes: map<UserId, Outcome>): set<UserId> {
    set u | u in due && u in outcomes && outcomes[u].Saves?
  }

  function Digests(due: set<UserId>, outcomes: map<UserId, Outcome>): map<UserId, Digest> {
    map u | u in Savers(due, outcomes) :: outcomes[u].digest
  }

  lemma Nothing(outcomes: map<UserId, Outcome>)
    ensures Savers({}, outcomes) == {} && Digests({}, outcomes) == map[]
  {
  }

  lemma OneMore(done: set<UserId>, outcomes: map<UserId, Outcome>, u: UserId)
    requires u in outcomes && u !in done
    ensures u !in Savers(done, outcomes)
    ensures Savers(done + {u}, outcomes) == if outcomes[u].Saves? then Savers(done, outcomes) + {u} else Savers(done, outcomes)
  {
  }

  lemma OneMoreDigest(m: map<UserId, Digest>, done: set<UserId>, outcomes: map<UserId, Outcome>, u: UserId)
    requires u in outcomes && u !in done
    ensures m + Digests(done + {u}, outcomes) ==
            if outcomes[u].Saves? then (m + Digests(done, outcomes))[u := outcomes[u].digest] else m + Digests(done, outcomes)
  {
    OneMore(done, outcomes, u);
  }
}
