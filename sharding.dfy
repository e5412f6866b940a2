/**
 Routing of keys to shards, and the abstract view of a sequence of shards as
 one map. Everything here is pure: the class in module Concurrent keeps its
 shards in an array and states its contracts in terms of these definitions.
 */
module Sharding {

  /** The fixed number of shards of every map. */
  const ShardNum: nat := 10

  /** The unsigned 32-bit result of a key's Hash() method. */
  newtype uint32 = x: int | 0 <= x < 0x1_0000_0000

  /** The shard a key belongs to: its hash modulo the shard count. It depends
      on nothing but the key's hash, so the same key always reaches the same
      shard. */
  function GetShardIndex<K(!new)>(hash: K -> uint32, k: K): (i: nat)
    ensures i < ShardNum
    ensures (hash(k) as int - i) % ShardNum == 0
  {
    (hash(k) % ShardNum as uint32) as nat
  }

  /** Routing invariant: every key held by shard i is routed to shard i. */
  ghost predicate Routed<K(!new), W>(hash: K -> uint32, s: seq<map<K, W>>)
  {
    forall i, k :: 0 <= i < |s| && k in s[i] ==> GetShardIndex(hash, k) == i
  }

  /** The first n shards of a routed sequence are routed. */
  lemma RoutedPrefix<K(!new), W>(hash: K -> uint32, s: seq<map<K, W>>, n: nat)
    requires Routed(hash, s) && n <= |s|
    ensures Routed(hash, s[..n])
  {
    forall i, k | 0 <= i < n && k in s[..n][i] ensures GetShardIndex(hash, k) == i {
      assert s[..n][i] == s[i];
    }
  }

  /** The entries of m whose keys are routed to shard j. */
  function Slice<K(!new), W>(hash: K -> uint32, m: map<K, W>, j: nat): map<K, W>
  {
    map k | k in m && GetShardIndex(hash, k) == j :: m[k]
  }

  /** The shards merged into one map in index order, later shards overriding
      earlier ones, as the loop that collects all items does. */
  ghost function Union<K(!new), W>(s: seq<map<K, W>>): map<K, W>
  {
    if s == [] then map[] else Union(s[..|s| - 1]) + s[|s| - 1]
  }

  /** The sum of the shard sizes. */
  function TotalLen<K(!new), W>(s: seq<map<K, W>>): nat
  {
    if s == [] then 0 else TotalLen(s[..|s| - 1]) + |s[|s| - 1]|
  }

  /** The entries of m whose keys are in ks. */
  function Restrict<K(!new), W>(m: map<K, W>, ks: set<K>): map<K, W>
  {
    map k | k in m && k in ks :: m[k]
  }

  /** The values of m counted with multiplicity: one occurrence per key. */
  ghost function ValueBag<K(!new), W>(m: map<K, W>): (b: multiset<W>)
    ensures |b| == |m|
    decreases |m|
  {
    if m == map[] then multiset{}
    else
      var k := Pick(m);
      var rest := m - {k};
      assert rest.Keys == m.Keys - {k};
      ValueBag(rest) + multiset{m[k]}
  }

  /** Some key of a non-empty map. */
  ghost function Pick<K(!new), W>(m: map<K, W>): (k: K)
    requires m != map[]
    ensures k in m
  {
    assert exists k :: k in m by {
      assert m.Keys != {};
    }
    var k :| k in m; k
  }

  /** The bag of values holds exactly the values of the map. */
  lemma {:induction false} ValueBagMembers<K(!new), W>(m: map<K, W>, v: W)
    ensures v in ValueBag(m) <==> v in m.Values
    decreases |m|
  {
    if m != map[] {
      var k := Pick(m);
      var rest := m - {k};
      assert rest.Keys == m.Keys - {k};
      ValueBagRemove(m, k);
      ValueBagMembers(rest, v);
      assert m.Values == rest.Values + {m[k]} by {
        forall w | w in m.Values ensures w in rest.Values + {m[k]} {
          var k' :| k' in m && m[k'] == w;
          if k' != k { assert rest[k'] == w; }
        }
      }
    }
  }

  /** Under the routing invariant the merge order does not matter: a key is
      in the union exactly when its own shard holds it, with that shard's
      value. */
  lemma {:induction false} UnionAt<K(!new), W>(hash: K -> uint32, s: seq<map<K, W>>, k: K)
    requires Routed(hash, s)
    ensures k in Union(s) <==> GetShardIndex(hash, k) < |s| && k in s[GetShardIndex(hash, k)]
    ensures k in Union(s) ==> Union(s)[k] == s[GetShardIndex(hash, k)][k]
  {
    if s != [] {
      var p := s[..|s| - 1];
      RoutedPrefix(hash, s, |s| - 1);
      UnionAt(hash, p, k);
      var i := GetShardIndex(hash, k);
      if i < |p| {
        assert s[i] == p[i];
      }
    }
  }

  /** Routed shards are pairwise key-disjoint. */
  lemma ShardsDisjoint<K(!new), W>(hash: K -> uint32, s: seq<map<K, W>>, i: nat, j: nat)
    requires Routed(hash, s) && i < |s| && j < |s| && i != j
    ensures s[i].Keys !! s[j].Keys
  {
    forall k | k in s[i] ensures k !in s[j] {
      assert GetShardIndex(hash, k) == i;
    }
  }

  /** Under the routing invariant each shard is exactly the part of the
      union routed to it, so the union determines the shards. */
  lemma ShardIsSlice<K(!new), W>(hash: K -> uint32, s: seq<map<K, W>>, j: nat)
    requires Routed(hash, s) && j < |s|
    ensures s[j] == Slice(hash, Union(s), j)
  {
    forall k ensures k in s[j] <==> k in Slice(hash, Union(s), j) {
      UnionAt(hash, s, k);
    }
    forall k | k in s[j] ensures s[j][k] == Union(s)[k] {
      UnionAt(hash, s, k);
    }
  }

  /** Since the shards are key-disjoint, the number of distinct keys is the
      sum of the shard sizes. */
  lemma {:induction false} UnionSize<K(!new), W>(hash: K -> uint32, s: seq<map<K, W>>)
    requires Routed(hash, s)
    ensures |Union(s)| == TotalLen(s)
  {
    if s != [] {
      var p, last := s[..|s| - 1], s[|s| - 1];
      RoutedPrefix(hash, s, |s| - 1);
      UnionSize(hash, p);
      assert Union(p).Keys !! last.Keys by {
        forall k | k in last ensures k !in Union(p) {
          UnionAt(hash, p, k);
        }
      }
      assert Union(s).Keys == Union(p).Keys + last.Keys;
      assert |Union(s).Keys| == |Union(p).Keys| + |last.Keys|;
    }
  }

  /** Adding one new key adds its value once to the bag of values. */
  lemma {:induction false} ValueBagAdd<K(!new), W>(m: map<K, W>, k: K, v: W)
    requires k !in m
    ensures ValueBag(m[k := v]) == ValueBag(m) + multiset{v}
  {
    var mk := m[k := v];
    assert mk - {k} == m;
    ValueBagRemove(mk, k);
  }

  /** The bag of values does not depend on which key is taken out first. */
  lemma {:induction false} ValueBagRemove<K(!new), W>(m: map<K, W>, k: K)
    requires k in m
    ensures ValueBag(m) == ValueBag(m - {k}) + multiset{m[k]}
    decreases |m|
  {
    var j := Pick(m);
    if j != k {
      var mj, mk := m - {j}, m - {k};
      var rest := mj - {k};
      assert |mj| < |m| && |mk| < |m| by {
        assert mj.Keys == m.Keys - {j};
        assert mk.Keys == m.Keys - {k};
      }
      assert rest == mk - {j};
      ValueBagRemove(mj, k);
      ValueBagRemove(mk, j);
      calc {
        ValueBag(m);
        ValueBag(mj) + multiset{m[j]};
        ValueBag(rest) + multiset{m[k]} + multiset{m[j]};
        ValueBag(mk) + multiset{m[k]};
      }
    }
  }

  /** All shards empty: the union is empty. */
  lemma {:induction false} UnionOfEmpty<K(!new), W>(hash: K -> uint32, s: seq<map<K, W>>)
    requires forall i :: 0 <= i < |s| ==> s[i] == map[]
    ensures Routed(hash, s) && Union(s) == map[] && TotalLen(s) == 0
  {
    if s != [] {
      UnionOfEmpty(hash, s[..|s| - 1]);
    }
  }

  /** Writing k -> v into k's own shard writes k -> v into the union, and
      keeps every key routed. */
  lemma UnionSet<K(!new), W>(hash: K -> uint32, s: seq<map<K, W>>, k: K, v: W)
    requires Routed(hash, s) && GetShardIndex(hash, k) < |s|
    ensures var i := GetShardIndex(hash, k);
      var t := s[i := s[i][k := v]];
      Routed(hash, t) && Union(t) == Union(s)[k := v]
  {
    var i := GetShardIndex(hash, k);
    var t := s[i := s[i][k := v]];
    var u := Union(s)[k := v];
    assert Routed(hash, t);
    forall k' ensures (k' in Union(t) <==> k' in u) && (k' in Union(t) ==> Union(t)[k'] == u[k']) {
      UnionAt(hash, s, k');
      UnionAt(hash, t, k');
    }
  }

  /** Removing k from its own shard removes k from the union, and keeps every
      key routed. */
  lemma UnionRemove<K(!new), W>(hash: K -> uint32, s: seq<map<K, W>>, k: K)
    requires Routed(hash, s) && GetShardIndex(hash, k) < |s|
    ensures var i := GetShardIndex(hash, k);
      var t := s[i := s[i] - {k}];
      Routed(hash, t) && Union(t) == Union(s) - {k}
  {
    var i := GetShardIndex(hash, k);
    var t := s[i := s[i] - {k}];
    var u := Union(s) - {k};
    assert Routed(hash, t);
    forall k' ensures (k' in Union(t) <==> k' in u) && (k' in Union(t) ==> Union(t)[k'] == u[k']) {
      UnionAt(hash, s, k');
      UnionAt(hash, t, k');
    }
  }

  /** Adding a new element to a set adds it once to the set's multiset. */
  lemma AddToSetBag<K(!new)>(ks: set<K>, k: K)
    requires k !in ks
    ensures multiset(ks + {k}) == multiset(ks) + multiset{k}
  {
  }

  /** Under the routing invariant, shard n shares no key with the union of
      the shards before it. */
  lemma NextShardIsNew<K(!new), W>(hash: K -> uint32, s: seq<map<K, W>>, n: nat)
    requires Routed(hash, s) && n < |s|
    ensures Union(s[..n]).Keys !! s[n].Keys
  {
    RoutedPrefix(hash, s, n);
    forall k | k in s[n] ensures k !in Union(s[..n]) {
      UnionAt(hash, s[..n], k);
    }
  }

  /** Copying one more entry of m over a base map. */
  lemma RestrictAdd<K(!new), W>(base: map<K, W>, m: map<K, W>, done: set<K>, k: K)
    requires k in m
    ensures (base + Restrict(m, done))[k := m[k]] == base + Restrict(m, done + {k})
  {
  }

  /** One more key of a shard collected: it is added once to the bag. */
  lemma CollectKey<K(!new)>(seen: set<K>, shard: set<K>, rest: set<K>, k: K)
    requires seen !! shard && rest <= shard && k in rest
    ensures multiset(seen + (shard - (rest - {k}))) == multiset(seen + (shard - rest)) + multiset{k}
  {
    assert seen + (shard - (rest - {k})) == seen + (shard - rest) + {k};
    AddToSetBag(seen + (shard - rest), k);
  }

  /** One more entry of a shard collected: its value is added once to the bag. */
  lemma CollectValue<K(!new), W>(seen: map<K, W>, shard: map<K, W>, rest: set<K>, k: K)
    requires seen.Keys !! shard.Keys && rest <= shard.Keys && k in rest
    ensures ValueBag(seen + Restrict(shard, shard.Keys - (rest - {k})))
         == ValueBag(seen + Restrict(shard, shard.Keys - rest)) + multiset{shard[k]}
  {
    assert shard.Keys - (rest - {k}) == (shard.Keys - rest) + {k};
    RestrictAdd(seen, shard, shard.Keys - rest, k);
    ValueBagAdd(seen + Restrict(shard, shard.Keys - rest), k, shard[k]);
  }

  /** The union of one more shard. */
  lemma UnionPrefix<K(!new), W>(s: seq<map<K, W>>, n: nat)
    requires n < |s|
    ensures Union(s[..n + 1]) == Union(s[..n]) + s[n]
  {
    assert s[..n + 1][..n] == s[..n];
  }

  /** A loop over a key set has collected all of it once none is left.
      Kept as a lemma so that the loops' proofs stay small. */
  lemma NothingLeft<K>(keys: set<K>, rest: set<K>)
    requires rest == {}
    ensures keys - rest == keys
  {
  }

  /** All keys of shard n collected after those of the shards before it. */
  lemma CollectedShardKeys<K(!new), W>(s: seq<map<K, W>>, n: nat, bag: multiset<K>)
    requires n < |s|
    requires bag == multiset(Union(s[..n]).Keys + s[n].Keys)
    ensures bag == multiset(Union(s[..n + 1]).Keys)
  {
    UnionPrefix(s, n);
  }

  /** All entries of shard n collected after those of the shards before it. */
  lemma CollectedShard<K(!new), W>(s: seq<map<K, W>>, n: nat)
    requires n < |s|
    ensures Union(s[..n]) + Restrict(s[n], s[n].Keys) == Union(s[..n + 1])
  {
    assert Restrict(s[n], s[n].Keys) == s[n];
    UnionPrefix(s, n);
  }

  /** Nothing of a shard collected yet. Kept as a lemma so that the loops'
      proofs stay small. */
  lemma CollectedNothing<K(!new), W>(seen: map<K, W>, shard: map<K, W>)
    ensures seen + Restrict(shard, shard.Keys - shard.Keys) == seen
  {
    assert Restrict(shard, shard.Keys - shard.Keys) == map[];
  }
}
