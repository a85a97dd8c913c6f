/** The stored knowledge graph: entities by id, and edges (facts) that are invalidated but never deleted. */
module KnowledgeGraph {
  import opened Wrappers

  type Id = nat

  datatype Entity = Entity(id: Id, user: Id, name: string)

  datatype Edge = Edge(
    id: Id, user: Id, source: Id, target: Id, relation: string, fact: string,
    invalidAt: Option<nat>, invalidatedBy: Option<Id>)
  {
    predicate IsValid() {
      invalidAt.None?
    }

    predicate Joins(a: Id, b: Id) {
      (source == a && target == b) || (target == a && source == b)
    }

    predicate Touches(a: Id) {
      source == a || target == a
    }
  }

  datatype StoreData = StoreData(entities: map<Id, Entity>, edges: seq<Edge>)

  /** Entities are stored under their own id. */
  type Store = g: StoreData | forall id | id in g.entities :: g.entities[id].id == id
    witness StoreData(map[], [])

  /** Edge endpoints resolve, and a user's edges link that user's entities. */
  ghost predicate Integrity(g: Store) {
    forall e | e in g.edges ::
      && e.source in g.entities && g.entities[e.source].user == e.user
      && e.target in g.entities && g.entities[e.target].user == e.user
  }

  ghost predicate UniqueIds(edges: seq<Edge>) {
    forall i, j | 0 <= i < j < |edges| :: edges[i].id != edges[j].id
  }

  /** The elements of s that satisfy keep, in order. */
  function Select<T(!new)>(s: seq<T>, keep: T -> bool): (r: seq<T>)
    ensures forall x :: x in r <==> x in s && keep(x)
  {
    if s == [] then []
    else
      assert s == s[..|s| - 1] + [s[|s| - 1]];
      Select(s[..|s| - 1], keep) + if keep(s[|s| - 1]) then [s[|s| - 1]] else []
  }

  lemma SelectOfLonger<T(!new)>(s: seq<T>, x: T, keep: T -> bool)
    ensures Select(s + [x], keep) == Select(s, keep) + if keep(x) then [x] else []
  {
    assert (s + [x])[..|s|] == s;
  }

  /** It picks from each part of s in turn. */
  lemma {:induction false} SelectOfJoin<T(!new)>(a: seq<T>, b: seq<T>, keep: T -> bool)
    ensures Select(a + b, keep) == Select(a, keep) + Select(b, keep)
    decreases |b|
  {
    hide Select;
    if b == [] {
      assert a + b == a;
      SelectOfNone(keep);
    } else {
      var init, x := b[..|b| - 1], b[|b| - 1];
      SelectOfJoin(a, init, keep);
      assert (a + init) + [x] == a + b && init + [x] == b;
      SelectOfLonger(a + init, x, keep);
      SelectOfLonger(init, x, keep);
    }
  }

  lemma SelectOfNone<T(!new)>(keep: T -> bool)
    ensures Select([], keep) == []
  {
  }

  lemma SelectOfOne<T(!new)>(x: T, keep: T -> bool)
    ensures Select([x], keep) == if keep(x) then [x] else []
  {
    assert [x][..0] == [] && Select([], keep) == [];
  }

  function Outgoing(g: Store, id: Id): seq<Edge> {
    Select(g.edges, (e: Edge) => e.source == id)
  }

  function Incoming(g: Store, id: Id): seq<Edge> {
    Select(g.edges, (e: Edge) => e.target == id)
  }
}
