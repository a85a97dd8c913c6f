/**
 The bucketed digest that two nodes exchange to find out where they differ.
 The hash (hex-encoded SHA-256) is a parameter; where a result depends on it having no collisions,
 the lemma says so.
 */
module Merkle {
  import opened Wrappers
  import NodeIds

  type Hasher = string -> string

  datatype Item = Item(key: string, hash: string)

  datatype Node = Node(prefix: char, hash: string, count: nat)

  datatype Digest = Digest(rootHash: string, totalItems: nat, nodes: seq<Node>)

  function PrefixOf(x: Item): char {
    if x.key == "" then '?' else x.key[0]
  }

  /** The bytes fed to the hasher for a list of hashes. */
  function Flat(hashes: seq<string>): string {
    if hashes == [] then "" else Flat(hashes[..|hashes| - 1]) + hashes[|hashes| - 1]
  }

  function Hashes(items: seq<Item>): seq<string> {
    seq(|items|, i requires 0 <= i < |items| => items[i].hash)
  }

  function ItemPrefixes(items: seq<Item>): seq<char> {
    seq(|items|, i requires 0 <= i < |items| => PrefixOf(items[i]))
  }

  /** The hashes of one bucket, in item order. */
  function Bucket(items: seq<Item>, p: char): seq<string> {
    if items == [] then []
    else
      var last := items[|items| - 1];
      Bucket(items[..|items| - 1], p) + if PrefixOf(last) == p then [last.hash] else []
  }

  function Root(h: Hasher, items: seq<Item>): string {
    if items == [] then h("empty") else h(Flat(Hashes(items)))
  }

  predicate Ascending(ps: seq<char>) {
    forall i, j | 0 <= i < j < |ps| :: ps[i] < ps[j]
  }

  function Prefixes(nodes: seq<Node>): seq<char> {
    seq(|nodes|, i requires 0 <= i < |nodes| => nodes[i].prefix)
  }

  /** One node per non-empty bucket, in prefix order, with the bucket's hash and size. */
  ghost predicate Summarizes(h: Hasher, items: seq<Item>, nodes: seq<Node>) {
    && Ascending(Prefixes(nodes))
    && (forall i | 0 <= i < |nodes| ::
          var b := Bucket(items, nodes[i].prefix);
          b != [] && nodes[i].hash == h(Flat(b)) && nodes[i].count == |b|)
    && (forall p | Bucket(items, p) != [] :: p in Prefixes(nodes))
  }

  ghost predicate IsDigest(h: Hasher, items: seq<Item>, d: Digest) {
    && d.rootHash == Root(h, items)
    && d.totalItems == |items|
    && Summarizes(h, items, d.nodes)
  }

  datatype Filled = Filled(hashes: seq<string>, count: nat)

  /** The map holds exactly the non-empty buckets, each with its size. */
  ghost predicate Fills(items: seq<Item>, buckets: map<char, Filled>) {
    forall p :: if p in buckets then buckets[p] == Filled(Bucket(items, p), |Bucket(items, p)|) && Bucket(items, p) != []
                else Bucket(items, p) == []
  }

  lemma BucketOfLonger(items: seq<Item>, x: Item, p: char)
    ensures Bucket(items + [x], p) == Bucket(items, p) + if PrefixOf(x) == p then [x.hash] else []
  {
    assert (items + [x])[..|items|] == items;
  }

  function PutInBucket(buckets: map<char, Filled>, x: Item): map<char, Filled> {
    var p := PrefixOf(x);
    var b := if p in buckets then buckets[p] else Filled([], 0);
    buckets[p := Filled(b.hashes + [x.hash], b.count + 1)]
  }

  lemma PutFills(items: seq<Item>, x: Item, buckets: map<char, Filled>)
    requires Fills(items, buckets)
    ensures Fills(items + [x], PutInBucket(buckets, x))
  {
    forall p ensures Bucket(items + [x], p) == Bucket(items, p) + if PrefixOf(x) == p then [x.hash] else [] {
      BucketOfLonger(items, x, p);
    }
  }

  method FillBuckets(items: seq<Item>) returns (buckets: map<char, Filled>)
    ensures Fills(items, buckets)
  {
    hide Fills;
    assert Fills([], map[]) by { EmptyFills(); }
    buckets := map[];
    for i := 0 to |items|
      invariant Fills(items[..i], buckets)
    {
      PutFills(items[..i], items[i], buckets);
      assert items[..i] + [items[i]] == items[..i + 1];
      buckets := PutInBucket(buckets, items[i]);
    }
    assert items[..|items|] == items;
  }

  lemma EmptyFills()
    ensures Fills([], map[])
  {
  }

  /** A sorted map hands out its keys in ascending order. */
  method SortedKeys(keys: set<char>) returns (ps: seq<char>)
    ensures Ascending(ps)
    ensures forall p :: p in ps <==> p in keys
  {
    ps := [];
    var todo := keys;
    while todo != {}
      invariant todo <= keys
      invariant Ascending(ps)
      invariant forall p :: p in ps <==> p in keys - todo
      invariant forall p, q | p in ps && q in todo :: p < q
    {
      var least := Least(todo);
      assert forall i | 0 <= i < |ps| :: ps[i] in ps;
      ps := ps + [least];
      todo := todo - {least};
    }
  }

  method Least(keys: set<char>) returns (p: char)
    requires keys != {}
    ensures p in keys && forall q | q in keys :: p <= q
  {
    p :| p in keys;
    var todo := keys - {p};
    while todo != {}
      invariant todo <= keys && p in keys
      invariant forall q | q in keys && q !in todo :: p <= q
    {
      var q :| q in todo;
      if q < p { p := q; }
      todo := todo - {q};
    }
  }

  method Concatenate(hashes: seq<string>) returns (bytes: string)
    ensures bytes == Flat(hashes)
  {
    bytes := "";
    for k := 0 to |hashes|
      invariant bytes == Flat(hashes[..k])
    {
      assert hashes[..k + 1][..k] == hashes[..k];
      bytes := bytes + hashes[k];
    }
    assert hashes[..|hashes|] == hashes;
  }

  method Summarize(h: Hasher, items: seq<Item>) returns (nodes: seq<Node>)
    ensures Summarizes(h, items, nodes)
  {
    var buckets := FillBuckets(items);
    var ps := SortedKeys(buckets.Keys);
    nodes := [];
    for i := 0 to |ps|
      invariant Prefixes(nodes) == ps[..i]
      invariant forall j | 0 <= j < |nodes| ::
                  var b := Bucket(items, nodes[j].prefix);
                  b != [] && nodes[j].hash == h(Flat(b)) && nodes[j].count == |b|
    {
      assert ps[i] in ps;
      var bytes := Concatenate(buckets[ps[i]].hashes);
      nodes := nodes + [Node(ps[i], h(bytes), buckets[ps[i]].count)];
    }
    assert Prefixes(nodes) == ps;
  }

  method FromItems(h: Hasher, items: seq<Item>) returns (d: Digest)
    ensures IsDigest(h, items, d)
  {
    if items == [] {
      return Digest(h("empty"), 0, []);
    }
    var leaves := Concatenate(Hashes(items));
    var nodes := Summarize(h, items);
    d := Digest(h(leaves), |items|, nodes);
  }

  /** The hash recorded for a prefix; a later node of the same prefix would replace an earlier one. */
  function Lookup(nodes: seq<Node>, p: char): Option<string> {
    if nodes == [] then None
    else
      var last := nodes[|nodes| - 1];
      if last.prefix == p then Some(last.hash) else Lookup(nodes[..|nodes| - 1], p)
  }

  ghost predicate IsDiff(a: Digest, b: Digest, diff: seq<char>) {
    if a.rootHash == b.rootHash then diff == []
    else Ascending(diff) && forall p :: p in diff <==> Lookup(a.nodes, p) != Lookup(b.nodes, p)
  }

  method HashByPrefix(nodes: seq<Node>) returns (m: map<char, string>)
    ensures forall p :: Lookup(nodes, p) == if p in m then Some(m[p]) else None
  {
    m := map[];
    for i := 0 to |nodes|
      invariant forall p :: Lookup(nodes[..i], p) == if p in m then Some(m[p]) else None
    {
      assert nodes[..i + 1][..i] == nodes[..i];
      m := m[nodes[i].prefix := nodes[i].hash];
    }
    assert nodes[..|nodes|] == nodes;
  }

  method DiffPrefixes(a: Digest, b: Digest) returns (diff: seq<char>)
    ensures IsDiff(a, b, diff)
  {
    if a.rootHash == b.rootHash {
      return [];
    }
    var mine := HashByPrefix(a.nodes);
    var theirs := HashByPrefix(b.nodes);
    var diffs: set<char> := {};
    var todo := mine.Keys + theirs.Keys;
    while todo != {}
      invariant todo <= mine.Keys + theirs.Keys
      invariant forall p :: p in diffs <==> p !in todo && Lookup(a.nodes, p) != Lookup(b.nodes, p)
    {
      var p :| p in todo;
      if (p in mine) != (p in theirs) || (p in mine && p in theirs && mine[p] != theirs[p]) {
        diffs := diffs + {p};
      }
      todo := todo - {p};
    }
    diff := SortedKeys(diffs);
  }

  // ---------------------------------------------------------------- what a digest guarantees

  ghost predicate Injective(h: Hasher) {
    forall s, t :: h(s) == h(t) ==> s == t
  }

  predicate AllOfLength(hashes: seq<string>, length: nat) {
    forall i | 0 <= i < |hashes| :: |hashes[i]| == length
  }

  predicate SortedByPrefix(items: seq<Item>) {
    forall i, j | 0 <= i < j < |items| :: PrefixOf(items[i]) <= PrefixOf(items[j])
  }

  /** The sum of |Bucket| over a list of prefixes. */
  function BucketTotal(items: seq<Item>, ps: seq<char>): nat {
    if ps == [] then 0 else |Bucket(items, ps[0])| + BucketTotal(items, ps[1..])
  }

  lemma {:induction false} BucketTotalOfLonger(items: seq<Item>, ps: seq<char>)
    requires items != [] && Ascending(ps)
    ensures BucketTotal(items, ps) ==
            BucketTotal(items[..|items| - 1], ps) + if PrefixOf(items[|items| - 1]) in ps then 1 else 0
  {
    if ps != [] {
      BucketTotalOfLonger(items, ps[1..]);
      var p := PrefixOf(items[|items| - 1]);
      assert p in ps <==> p == ps[0] || p in ps[1..];
    }
  }

  lemma {:induction false} EveryItemIsInItsBucket(items: seq<Item>, ps: seq<char>)
    requires Ascending(ps) && forall i | 0 <= i < |items| :: PrefixOf(items[i]) in ps
    ensures BucketTotal(items, ps) == |items|
  {
    if items == [] {
      EmptyBuckets(ps);
    } else {
      EveryItemIsInItsBucket(items[..|items| - 1], ps);
      BucketTotalOfLonger(items, ps);
    }
  }

  lemma {:induction false} EmptyBuckets(ps: seq<char>)
    ensures BucketTotal([], ps) == 0
  {
    if ps != [] { EmptyBuckets(ps[1..]); }
  }

  function CountTotal(nodes: seq<Node>): nat {
    if nodes == [] then 0 else nodes[0].count + CountTotal(nodes[1..])
  }

  lemma {:induction false} CountTotalIsBucketTotal(items: seq<Item>, nodes: seq<Node>)
    requires forall i | 0 <= i < |nodes| :: nodes[i].count == |Bucket(items, nodes[i].prefix)|
    ensures CountTotal(nodes) == BucketTotal(items, Prefixes(nodes))
  {
    if nodes != [] {
      CountTotalIsBucketTotal(items, nodes[1..]);
      assert Prefixes(nodes)[1..] == Prefixes(nodes[1..]);
    }
  }

  /** x is in bucket p exactly if an item of prefix p holds it. */
  lemma {:induction false} BucketOfItem(items: seq<Item>, i: nat)
    requires i < |items|
    ensures items[i].hash in Bucket(items, PrefixOf(items[i]))
  {
    if i < |items| - 1 {
      BucketOfItem(items[..|items| - 1], i);
    }
  }

  lemma {:induction false} BucketHasItem(items: seq<Item>, p: char) returns (i: nat)
    requires Bucket(items, p) != []
    ensures i < |items| && PrefixOf(items[i]) == p
  {
    i := |items| - 1;
    if PrefixOf(items[i]) != p {
      i := BucketHasItem(items[..i], p);
    }
  }

  /** Bucket counts sum to the number of items. */
  lemma CountsSumToTotal(h: Hasher, items: seq<Item>, d: Digest)
    requires IsDigest(h, items, d)
    ensures CountTotal(d.nodes) == d.totalItems == |items|
  {
    forall i | 0 <= i < |items| ensures PrefixOf(items[i]) in Prefixes(d.nodes) {
      BucketOfItem(items, i);
    }
    EveryItemIsInItsBucket(items, Prefixes(d.nodes));
    CountTotalIsBucketTotal(items, d.nodes);
  }

  /** Hashes of one length can be told apart again after concatenation. */
  lemma {:induction false} FlatIsInjective(a: seq<string>, b: seq<string>, length: nat)
    requires length > 0 && AllOfLength(a, length) && AllOfLength(b, length) && Flat(a) == Flat(b)
    ensures a == b
  {
    if a != [] && b != [] {
      var a', b' := a[..|a| - 1], b[..|b| - 1];
      var x, y := a[|a| - 1], b[|b| - 1];
      var f := Flat(a);
      assert f == Flat(a') + x && f == Flat(b') + y;
      assert Flat(a') == f[..|f| - length] == Flat(b');
      assert x == f[|f| - length..] == y;
      FlatIsInjective(a', b', length);
      assert a == a' + [x] && b == b' + [y];
    }
  }

  lemma {:induction false} FlatLength(a: seq<string>, length: nat)
    requires AllOfLength(a, length)
    ensures |a| <= 2 ==> |Flat(a)| == if |a| == 0 then 0 else if |a| == 1 then length else 2 * length
    ensures |a| >= 3 ==> |Flat(a)| >= 3 * length
  {
    if a != [] {
      FlatLength(a[..|a| - 1], length);
    }
  }

  /** No list of such hashes concatenates to the text that is hashed for an empty list. */
  lemma NotTheEmptyMarker(a: seq<string>, length: nat)
    requires AllOfLength(a, length) && length >= 2 && length != 5
    ensures Flat(a) != "empty"
  {
    FlatLength(a, length);
  }

  /** With hashes of length one or five the empty list's root can be forged, with any hash function. */
  lemma ShortHashesForgeEmpty(h: Hasher)
    ensures Root(h, [Item("k", "empty")]) == Root(h, [])
    ensures Root(h, [Item("a", "e"), Item("b", "m"), Item("c", "p"), Item("d", "t"), Item("e", "y")]) == Root(h, [])
  {
    FlatOfLonger([], "empty");
    assert [] + ["empty"] == ["empty"] == Hashes([Item("k", "empty")]);
    assert Flat(["empty"]) == "empty";
    var five := [Item("a", "e"), Item("b", "m"), Item("c", "p"), Item("d", "t"), Item("e", "y")];
    FlatOfLonger([], "e");
    FlatOfLonger(["e"], "m");
    FlatOfLonger(["e", "m"], "p");
    FlatOfLonger(["e", "m", "p"], "t");
    FlatOfLonger(["e", "m", "p", "t"], "y");
    assert [] + ["e"] == ["e"] && ["e"] + ["m"] == ["e", "m"] && ["e", "m"] + ["p"] == ["e", "m", "p"];
    assert ["e", "m", "p"] + ["t"] == ["e", "m", "p", "t"];
    assert ["e", "m", "p", "t"] + ["y"] == Hashes(five);
    assert Flat(Hashes(five)) == "empty";
  }

  lemma FlatOfLonger(hashes: seq<string>, last: string)
    ensures Flat(hashes + [last]) == Flat(hashes) + last
  {
    assert (hashes + [last])[..|hashes|] == hashes;
  }

  /** Concatenation takes the hashes in order. */
  lemma {:induction false} FlatOfJoin(a: seq<string>, b: seq<string>)
    ensures Flat(a + b) == Flat(a) + Flat(b)
    decreases |b|
  {
    if b == [] {
      assert a + b == a;
    } else {
      var init, last := b[..|b| - 1], b[|b| - 1];
      FlatOfJoin(a, init);
      FlatOfLonger(a + init, last);
      FlatOfLonger(init, last);
      assert a + b == (a + init) + [last] && b == init + [last];
      assert (Flat(a) + Flat(init)) + last == Flat(a) + (Flat(init) + last);
    }
  }

  /** The root of no items, of one, and of two. */
  lemma RootOfFew(h: Hasher, x: Item, y: Item)
    ensures Root(h, []) == h("empty") && Root(h, [x]) == h(x.hash) && Root(h, [x, y]) == h(x.hash + y.hash)
  {
    assert Hashes([x]) == [] + [x.hash] && Hashes([x, y]) == [x.hash] + [y.hash];
    FlatOfLonger([], x.hash);
    FlatOfLonger([x.hash], y.hash);
    assert Flat([]) + x.hash == x.hash && [] + [x.hash] == [x.hash];
  }

  /** The items whose key starts with p, those without a key lying under '?'. */
  predicate LiesUnder(x: Item, p: char) {
    if x.key == "" then p == '?' else x.key[0] == p
  }

  /** `at` lists the items under p in order, and these are their hashes. */
  ghost predicate ListsItems(items: seq<Item>, p: char, at: seq<nat>, hashes: seq<string>) {
    && Increasing(at) && |at| == |hashes|
    && (forall i: nat :: i in at <==> i < |items| && LiesUnder(items[i], p))
    && (forall k | 0 <= k < |at| :: at[k] < |items| && hashes[k] == items[at[k]].hash)
  }

  lemma ListsOneMore(items: seq<Item>, x: Item, p: char, at: seq<nat>, hashes: seq<string>)
    requires ListsItems(items, p, at, hashes)
    ensures if LiesUnder(x, p) then ListsItems(items + [x], p, at + [|items|], hashes + [x.hash])
            else ListsItems(items + [x], p, at, hashes)
  {
    hide LiesUnder;
    if LiesUnder(x, p) {
      hide Increasing;
      IncreasingLonger(at, |items|);
    }
  }

  /** A bucket holds the hashes of exactly the items under its prefix, in order. */
  lemma {:induction false} BucketHoldsItsItems(items: seq<Item>, p: char) returns (at: seq<nat>)
    ensures ListsItems(items, p, at, Bucket(items, p))
  {
    at := [];
    if items != [] {
      var n := |items| - 1;
      at := BucketHoldsItsItems(items[..n], p);
      ListsOneMore(items[..n], items[n], p, at, Bucket(items[..n], p));
      hide ListsItems;
      assert items[..n] + [items[n]] == items;
      if LiesUnder(items[n], p) {
        at := at + [n];
      }
    }
  }

  ghost predicate Usable(h: Hasher, items: seq<Item>, length: nat) {
    Injective(h) && length >= 2 && length != 5 && AllOfLength(Hashes(items), length)
  }

  /** Equal roots mean equal hash sequences. Keys do not enter the root. */
  lemma RootsAgreeIff(h: Hasher, xs: seq<Item>, ys: seq<Item>, length: nat)
    requires Usable(h, xs, length) && Usable(h, ys, length)
    ensures Root(h, xs) == Root(h, ys) <==> Hashes(xs) == Hashes(ys)
  {
    NotTheEmptyMarker(Hashes(xs), length);
    NotTheEmptyMarker(Hashes(ys), length);
    assert |Hashes(xs)| == |xs| && |Hashes(ys)| == |ys|;
    if xs != [] && ys != [] && Root(h, xs) == Root(h, ys) {
      assert Flat(Hashes(xs)) == Flat(Hashes(ys));
      FlatIsInjective(Hashes(xs), Hashes(ys), length);
    }
  }

  /** Over all lists whose hashes have this length, equal roots mean equal hash sequences. */
  ghost predicate RootsDecide(h: Hasher, length: nat) {
    forall xs: seq<Item>, ys: seq<Item> | AllOfLength(Hashes(xs), length) && AllOfLength(Hashes(ys), length) ::
      Root(h, xs) == Root(h, ys) <==> Hashes(xs) == Hashes(ys)
  }

  /** With hashes of length zero the number of items does not show in the root, with any hash function. */
  lemma EmptyHashesHideItems(h: Hasher)
    ensures Root(h, [Item("a", "")]) == Root(h, [Item("a", ""), Item("b", "")])
  {
    FlatOfLonger([], "");
    FlatOfLonger([""], "");
    assert [] + [""] == [""] == Hashes([Item("a", "")]);
    assert [""] + [""] == Hashes([Item("a", ""), Item("b", "")]);
  }

  /** A hash length is safe exactly if it is at least two and not five. */
  lemma RootsDecideIff(h: Hasher, length: nat)
    requires Injective(h)
    ensures RootsDecide(h, length) <==> length >= 2 && length != 5
  {
    if length >= 2 && length != 5 {
      forall xs: seq<Item>, ys: seq<Item> | AllOfLength(Hashes(xs), length) && AllOfLength(Hashes(ys), length)
        ensures Root(h, xs) == Root(h, ys) <==> Hashes(xs) == Hashes(ys)
      {
        RootsAgreeIff(h, xs, ys, length);
      }
    } else {
      var xs, ys := UnsafeLists(h, length);
      assert !(Root(h, xs) == Root(h, ys) <==> Hashes(xs) == Hashes(ys));
    }
  }

  lemma UnsafeLists(h: Hasher, length: nat) returns (xs: seq<Item>, ys: seq<Item>)
    requires length < 2 || length == 5
    ensures AllOfLength(Hashes(xs), length) && AllOfLength(Hashes(ys), length)
    ensures Root(h, xs) == Root(h, ys) && Hashes(xs) != Hashes(ys)
  {
    EmptyHashesHideItems(h);
    ShortHashesForgeEmpty(h);
    hide Root;
    if length == 0 {
      xs, ys := [Item("a", "")], [Item("a", ""), Item("b", "")];
    } else if length == 1 {
      xs, ys := [Item("a", "e"), Item("b", "m"), Item("c", "p"), Item("d", "t"), Item("e", "y")], [];
    } else {
      xs, ys := [Item("k", "empty")], [];
    }
    assert |Hashes(xs)| == |xs| && |Hashes(ys)| == |ys|;
  }

  lemma {:induction false} BucketLengths(items: seq<Item>, p: char, length: nat)
    requires AllOfLength(Hashes(items), length)
    ensures AllOfLength(Bucket(items, p), length)
  {
    if items != [] {
      var init, last := items[..|items| - 1], items[|items| - 1];
      assert Hashes(init) == Hashes(items)[..|items| - 1];
      assert Hashes(items)[|items| - 1] == last.hash;
      BucketLengths(init, p, length);
    }
  }

  lemma {:induction false} LookupIsBucketHash(nodes: seq<Node>, p: char)
    requires Ascending(Prefixes(nodes))
    ensures Lookup(nodes, p).None? <==> p !in Prefixes(nodes)
    ensures forall i | 0 <= i < |nodes| && nodes[i].prefix == p :: Lookup(nodes, p) == Some(nodes[i].hash)
  {
    if nodes != [] {
      var init := nodes[..|nodes| - 1];
      assert Prefixes(init) == Prefixes(nodes)[..|nodes| - 1];
      assert Prefixes(nodes) == Prefixes(init) + [nodes[|nodes| - 1].prefix];
      LookupIsBucketHash(init, p);
      forall i | 0 <= i < |nodes| && nodes[i].prefix == p ensures Lookup(nodes, p) == Some(nodes[i].hash) {
        if i < |nodes| - 1 {
          assert Prefixes(nodes)[i] < Prefixes(nodes)[|nodes| - 1];
          assert init[i] == nodes[i];
        }
      }
    }
  }

  lemma LookupOfDigest(h: Hasher, items: seq<Item>, d: Digest, p: char)
    requires IsDigest(h, items, d)
    ensures Lookup(d.nodes, p) == if Bucket(items, p) == [] then None else Some(h(Flat(Bucket(items, p))))
  {
    LookupIsBucketHash(d.nodes, p);
    if p in Prefixes(d.nodes) {
      var i :| 0 <= i < |d.nodes| && Prefixes(d.nodes)[i] == p;
      assert d.nodes[i].prefix == p;
    }
  }

  /** Two digests disagree on a prefix exactly when the bucket's hash sequences differ. */
  lemma DigestsDifferIff(h: Hasher, xs: seq<Item>, ys: seq<Item>, a: Digest, b: Digest, length: nat, p: char)
    requires Usable(h, xs, length) && Usable(h, ys, length) && IsDigest(h, xs, a) && IsDigest(h, ys, b)
    ensures Lookup(a.nodes, p) != Lookup(b.nodes, p) <==> Bucket(xs, p) != Bucket(ys, p)
  {
    LookupOfDigest(h, xs, a, p);
    LookupOfDigest(h, ys, b, p);
    BucketLengths(xs, p, length);
    BucketLengths(ys, p, length);
    if Flat(Bucket(xs, p)) == Flat(Bucket(ys, p)) {
      FlatIsInjective(Bucket(xs, p), Bucket(ys, p), length);
    }
  }

  lemma {:induction false} LastBucketElement(items: seq<Item>, other: seq<Item>)
    requires items != [] && SortedByPrefix(items) && SortedByPrefix(other)
    requires forall p :: Bucket(items, p) == Bucket(other, p)
    ensures other != [] && PrefixOf(other[|other| - 1]) == PrefixOf(items[|items| - 1])
    ensures other[|other| - 1].hash == items[|items| - 1].hash
  {
    var p := PrefixOf(items[|items| - 1]);
    assert Bucket(other, p) != [];
    var i := BucketHasItem(other, p);
    var q := PrefixOf(other[|other| - 1]);
    assert Bucket(items, q) == Bucket(other, q) != [];
    var j := BucketHasItem(items, q);
    assert p == q;
    var b := Bucket(items, p);
    assert b[|b| - 1] == items[|items| - 1].hash;
    assert Bucket(other, p)[|b| - 1] == other[|other| - 1].hash;
  }

  /** Items grouped in prefix order are determined, as far as hashes and prefixes go, by their buckets. */
  lemma {:induction false} BucketsDetermineItems(xs: seq<Item>, ys: seq<Item>)
    requires SortedByPrefix(xs) && SortedByPrefix(ys)
    requires forall p :: Bucket(xs, p) == Bucket(ys, p)
    ensures Hashes(xs) == Hashes(ys) && ItemPrefixes(xs) == ItemPrefixes(ys)
  {
    if xs == [] {
      if ys != [] { BucketOfItem(ys, 0); }
    } else {
      LastBucketElement(xs, ys);
      var xs', ys' := xs[..|xs| - 1], ys[..|ys| - 1];
      forall p ensures Bucket(xs', p) == Bucket(ys', p) {
        DropLast(xs, p);
        DropLast(ys, p);
      }
      BucketsDetermineItems(xs', ys');
      ItemsOfLonger(xs);
      ItemsOfLonger(ys);
    }
  }

  lemma ItemsOfLonger(items: seq<Item>)
    requires items != []
    ensures var init, last := items[..|items| - 1], items[|items| - 1];
            Hashes(items) == Hashes(init) + [last.hash] && ItemPrefixes(items) == ItemPrefixes(init) + [PrefixOf(last)]
  {
  }

  lemma {:induction false} ItemsDetermineBuckets(xs: seq<Item>, ys: seq<Item>, p: char)
    requires Hashes(xs) == Hashes(ys) && ItemPrefixes(xs) == ItemPrefixes(ys)
    ensures Bucket(xs, p) == Bucket(ys, p)
  {
    assert |Hashes(xs)| == |xs| && |Hashes(ys)| == |ys|;
    if xs != [] {
      var k := |xs| - 1;
      assert Hashes(xs)[k] == Hashes(ys)[k] && ItemPrefixes(xs)[k] == ItemPrefixes(ys)[k];
      assert Hashes(xs[..k]) == Hashes(xs)[..k] && Hashes(ys[..k]) == Hashes(ys)[..k];
      assert ItemPrefixes(xs[..k]) == ItemPrefixes(xs)[..k] && ItemPrefixes(ys[..k]) == ItemPrefixes(ys)[..k];
      ItemsDetermineBuckets(xs[..k], ys[..k], p);
    }
  }

  lemma DropLast(items: seq<Item>, p: char)
    requires items != []
    ensures var b := Bucket(items, p);
            Bucket(items[..|items| - 1], p) ==
            if PrefixOf(items[|items| - 1]) == p && |b| > 0 then b[..|b| - 1] else b
  {
  }

  ghost predicate SameBuckets(xs: seq<Item>, ys: seq<Item>) {
    forall p :: Bucket(xs, p) == Bucket(ys, p)
  }

  /** The diff lists exactly the prefixes whose hash sequences differ, a missing bucket counting as an empty sequence. */
  ghost predicate NamesTheDifferences(xs: seq<Item>, ys: seq<Item>, diff: seq<char>) {
    Ascending(diff) && forall p :: p in diff <==> Bucket(xs, p) != Bucket(ys, p)
  }

  /** The diff of usable lists in any order: nothing if the hash sequences agree, otherwise the differing prefixes. */
  lemma DiffOfLists(h: Hasher, xs: seq<Item>, ys: seq<Item>, a: Digest, b: Digest, diff: seq<char>, length: nat)
    requires Usable(h, xs, length) && Usable(h, ys, length)
    requires IsDigest(h, xs, a) && IsDigest(h, ys, b) && IsDiff(a, b, diff)
    ensures a.rootHash == b.rootHash <==> Hashes(xs) == Hashes(ys)
    ensures if Hashes(xs) == Hashes(ys) then diff == [] else NamesTheDifferences(xs, ys, diff)
  {
    RootsAgreeIff(h, xs, ys, length);
    forall p ensures Lookup(a.nodes, p) != Lookup(b.nodes, p) <==> Bucket(xs, p) != Bucket(ys, p) {
      DigestsDifferIff(h, xs, ys, a, b, length, p);
    }
  }

  /** For lists in any order: the diff names the differences exactly if the hash sequences differ or no bucket does. */
  lemma DiffNamesTheDifferencesIff(h: Hasher, xs: seq<Item>, ys: seq<Item>, a: Digest, b: Digest, diff: seq<char>, length: nat)
    requires Usable(h, xs, length) && Usable(h, ys, length)
    requires IsDigest(h, xs, a) && IsDigest(h, ys, b) && IsDiff(a, b, diff)
    ensures NamesTheDifferences(xs, ys, diff) <==> Hashes(xs) != Hashes(ys) || SameBuckets(xs, ys)
  {
    DiffOfLists(h, xs, ys, a, b, diff, length);
    assert NamesTheDifferences(xs, ys, []) <==> SameBuckets(xs, ys) by {
      assert forall p: char :: p !in [];
    }
  }

  /** For lists in any order: an empty diff means equal roots exactly if equal buckets mean equal hash sequences. */
  lemma EmptyDiffMeansEqualRootsIff(h: Hasher, xs: seq<Item>, ys: seq<Item>, a: Digest, b: Digest, diff: seq<char>, length: nat)
    requires Usable(h, xs, length) && Usable(h, ys, length)
    requires IsDigest(h, xs, a) && IsDigest(h, ys, b) && IsDiff(a, b, diff)
    ensures (diff == [] <==> a.rootHash == b.rootHash) <==> (Hashes(xs) == Hashes(ys) || !SameBuckets(xs, ys))
  {
    DiffOfLists(h, xs, ys, a, b, diff, length);
    if Hashes(xs) != Hashes(ys) {
      if diff == [] {
        assert forall p: char :: p !in diff;
      } else {
        assert diff[0] in diff;
      }
    }
  }

  /**
   For lists grouped by prefix: the diff is empty exactly when the roots are equal, which is when the hash sequences are;
   and it names the differences exactly if the hash sequences differ or the items lie under the same prefixes in turn.
   */
  lemma DiffIsExact(h: Hasher, xs: seq<Item>, ys: seq<Item>, a: Digest, b: Digest, diff: seq<char>, length: nat)
    requires Usable(h, xs, length) && Usable(h, ys, length)
    requires SortedByPrefix(xs) && SortedByPrefix(ys)
    requires IsDigest(h, xs, a) && IsDigest(h, ys, b) && IsDiff(a, b, diff)
    ensures diff == [] <==> a.rootHash == b.rootHash
    ensures diff == [] <==> Hashes(xs) == Hashes(ys)
    ensures NamesTheDifferences(xs, ys, diff) <==> Hashes(xs) != Hashes(ys) || ItemPrefixes(xs) == ItemPrefixes(ys)
  {
    hide Usable, IsDigest, IsDiff;
    DiffOfLists(h, xs, ys, a, b, diff, length);
    DiffNamesTheDifferencesIff(h, xs, ys, a, b, diff, length);
    EmptyDiffMeansEqualRootsIff(h, xs, ys, a, b, diff, length);
    if SameBuckets(xs, ys) {
      BucketsDetermineItems(xs, ys);
    }
    if Hashes(xs) == Hashes(ys) && ItemPrefixes(xs) == ItemPrefixes(ys) {
      forall p ensures Bucket(xs, p) == Bucket(ys, p) {
        ItemsDetermineBuckets(xs, ys, p);
      }
    }
  }

  /** Keys do not enter the root: an item moved to another bucket goes unnoticed, with any hash function. */
  lemma MovedKeyGoesUnnoticed(h: Hasher, x: string, a: Digest, b: Digest, diff: seq<char>)
    requires IsDigest(h, [Item("a", x)], a) && IsDigest(h, [Item("b", x)], b) && IsDiff(a, b, diff)
    ensures diff == [] && Bucket([Item("a", x)], 'a') != Bucket([Item("b", x)], 'a')
  {
    assert Hashes([Item("a", x)]) == [x] == Hashes([Item("b", x)]);
  }

  /** Sorting by non-empty key is enough to group the items. */
  lemma SortedKeysAreGrouped(items: seq<Item>)
    requires forall i | 0 <= i < |items| :: items[i].key != ""
    requires forall i, j | 0 <= i < j < |items| :: items[i].key == items[j].key || NodeIds.Less(items[i].key, items[j].key)
    ensures SortedByPrefix(items)
  {
  }

  /** Without that order the roots can differ while no prefix does. */
  lemma UngroupedItemsHideADifference(h: Hasher, x: string, y: string, z: string)
    requires Injective(h) && |x| == |y| == |z| && x != y && y != z && x != z
    ensures var xs := [Item("a1", x), Item("b1", y), Item("a2", z)];
            var ys := [Item("a1", x), Item("a2", z), Item("b1", y)];
            Root(h, xs) != Root(h, ys) && forall p :: Bucket(xs, p) == Bucket(ys, p)
  {
    var xs := [Item("a1", x), Item("b1", y), Item("a2", z)];
    var ys := [Item("a1", x), Item("a2", z), Item("b1", y)];
    assert Hashes(xs) == [x, y, z] && Hashes(ys) == [x, z, y];
    if Flat([x, y, z]) == Flat([x, z, y]) {
      if |x| > 0 {
        FlatIsInjective([x, y, z], [x, z, y], |x|);
      }
    }
    assert xs[..2] == [xs[0], xs[1]] && xs[..2][..1] == [xs[0]];
    assert ys[..2] == [ys[0], ys[1]] && ys[..2][..1] == [ys[0]];
    assert [xs[0]][..0] == [];
  }
}
