/**
 Walks in the stored graph, said with nothing but what is stored. Both searches are held against them.

 `user` restricts a walk to one user's edges and entities, `validOnly` to edges that are not invalidated.
 Extraction (`strict`) goes on only from entities that are stored.
 */
module StoredWalks {
  import opened Wrappers
  import opened KnowledgeGraph

  ghost predicate Counts(g: StoreData, user: Option<Id>, validOnly: bool, e: Edge) {
    && e in g.edges
    && (user.Some? ==> e.user == user.value)
    && (validOnly ==> e.invalidAt.None?)
  }

  /** The entity is stored and of the user. */
  ghost predicate Loads(g: StoreData, user: Option<Id>, a: Id) {
    a in g.entities && (user.Some? ==> g.entities[a].user == user.value)
  }

  /** A walk may go from a to b along e, in either direction of e. */
  ghost predicate IsHop(g: StoreData, user: Option<Id>, validOnly: bool, strict: bool, e: Edge, a: Id, b: Id) {
    && Counts(g, user, validOnly, e)
    && ((e.source == a && e.target == b) || (e.source == b && e.target == a))
    && (strict ==> a in g.entities)
    && (user.Some? && a in g.entities ==> g.entities[a].user == user.value)
  }

  ghost predicate IsWalk(g: StoreData, user: Option<Id>, validOnly: bool, strict: bool, ids: seq<Id>, edges: seq<Edge>) {
    && |ids| == |edges| + 1
    && forall i | 0 <= i < |edges| :: IsHop(g, user, validOnly, strict, edges[i], ids[i], ids[i + 1])
  }

  ghost predicate IsWalkFrom(g: StoreData, user: Option<Id>, validOnly: bool, strict: bool, a: Id, b: Id,
                             ids: seq<Id>, edges: seq<Edge>) {
    IsWalk(g, user, validOnly, strict, ids, edges) && ids[0] == a && ids[|edges|] == b
  }

  /** A walk of n edges leads from a to b. */
  ghost predicate Reaches(g: StoreData, user: Option<Id>, validOnly: bool, strict: bool, a: Id, b: Id, n: nat) {
    exists ids, edges :: IsWalkFrom(g, user, validOnly, strict, a, b, ids, edges) && |edges| == n
  }

  ghost predicate ReachesWithin(g: StoreData, user: Option<Id>, validOnly: bool, strict: bool, a: Id, b: Id, max: nat) {
    exists n: nat :: n <= max && Reaches(g, user, validOnly, strict, a, b, n)
  }

  /** The shortest walk from a to b has n edges. */
  ghost predicate Nearest(g: StoreData, user: Option<Id>, validOnly: bool, strict: bool, a: Id, b: Id, n: nat) {
    Reaches(g, user, validOnly, strict, a, b, n) && forall m: nat | m < n :: !Reaches(g, user, validOnly, strict, a, b, m)
  }
}
