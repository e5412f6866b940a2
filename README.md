# Sharded map, modelled in Dafny

The Go package `concurrent` is built around one type, `Map`: a hash map split
into `ShardNum` = 10 shards. Each shard is an `innerMap`, a Go map guarded by
its own read/write lock. Keys implement the interface `HashKey`, and a key goes
to shard `k.Hash() % ShardNum`. Single-key operations (`Set`, `Get`,
`Delete`, `Has`, `PutIfAbsent`) touch only that shard. Whole-map operations
(`Len`, `Items`, `Keys`, `Values`, `Clear`, `IsEmpty`) visit the shards one
after another, in index order. `Update` instead ranges over the batch it is
given, in the batch's iteration order, and sets each key in that key's own
shard.

This project models that type sequentially, without the locks.

- `sharding.dfy`, module `Sharding`:
  - `ShardNum`, the `uint32` hash type and `GetShardIndex`;
  - `Routed`, the routing invariant: every key held by shard `i` has index `i`;
  - `Union`, the shards merged in index order (what `Items` builds);
  - `TotalLen`, the sum of the shard sizes (what `Len` computes);
  - `ValueBag`, the values of a map counted once per key;
  - the lemmas that connect these.
- `concurrent.dfy`, module `Concurrent`:
  - class `Map`, with `const shards: array<map<K, Option<V>>>` of length 10;
  - the key hash, as a `const hash: K -> uint32`;
  - a ghost `contents`, the whole map seen as one map.
  - `Valid()` ties these together: 10 shards, every key routed to its shard,
    and `contents == Union(shards[..])`.
  - Every mutating method preserves `Valid()`. It states the new `contents`
    in terms of the old one. It also states which shards it leaves untouched.
- `scenarios.dfy`, module `MapScenarios`: the assertions of `map_test.go`,
  replayed on the model. The keys are `uint32` ids that hash to themselves, as
  the tests' `NodeId` does.

Go stores `interface{}` values, and `nil` is one of them. The model stores
`Option<V>`, where `None` is `nil`. `Get` of a missing key returns `None`, just
as `map.go` returns the zero value `nil` (map.go:59). So a missing key and a
stored `nil` read back the same, and only `Has` tells them apart (map.go:76).
`MapScenarios.StoredNil` shows this.

Where `map.go` loops with `range` over a Go map (`Items`, `Keys`, `Values`,
`Update`), the model loops `while rest != {}` and picks an arbitrary remaining
key with `:|`. Go leaves iteration order unspecified. `Get`, `Has` and
`IsEmpty` are functions: sequentially they only read.

`IsEmpty` is `cm.Len() == 0` in Go. A Dafny function cannot call a method, so
the model's `IsEmpty` uses `TotalLen`. `TotalLen` is the sum that the `Len`
method is proved to compute, and `UnionSize` proves that it equals `|contents|`.

## Model

| member | source | states |
|---|---|---|
| `Sharding.GetShardIndex` | map.go:11-13 | The index is in [0, 10) and is congruent to the hash modulo 10. So it is fixed by the key's hash alone: the same key always reaches the same shard. |
| `Sharding.ShardsDisjoint` | map.go:11-13 | Under routing, two different shards never share a key. |
| `Sharding.ShardIsSlice` | map.go:19-24 | Under routing, each shard is exactly the part of the whole map whose keys route to it. So the abstract map determines every shard. |
| `Sharding.UnionAt` | map.go:81-92 | Merging the shards in index order loses nothing. A key is in the merge iff its own shard holds it, and it keeps that shard's value. |
| `Sharding.NextShardIsNew` | map.go:83-89 | Shard n shares no key with the merge of the shards before it, so copying it in overwrites nothing. |
| `Sharding.UnionSize` | map.go:38-47 | The number of distinct keys equals the sum of the shard sizes. |
| `Sharding.UnionSet` | map.go:49-54 | Writing k -> v into k's shard keeps routing and writes k -> v into the whole map. |
| `Sharding.UnionRemove` | map.go:64-71 | Deleting k from k's shard keeps routing and removes exactly k from the whole map. |
| `Sharding.UnionOfEmpty` | map.go:29-33 | Empty shards are routed, their merge is the empty map, and their total size is 0. |
| `Sharding.ValueBag` | map.go:119-129 | The bag of a map's values has one element per key. |
| `Sharding.ValueBagMembers` | map.go:119-129 | A value is in the bag iff some key maps to it. |
| `Sharding.ValueBagRemove` | map.go:122-124 | The bag does not depend on the order the keys are visited in. Taking out any key takes out its value once. |
| `Sharding.ValueBagAdd` | map.go:122-124 | Adding a new key adds its value to the bag exactly once. |
| `Concurrent.Map.NewMap` | map.go:26-36 | Makes 10 shards, all empty. The invariant holds, the whole map is empty and `IsEmpty()` holds. |
| `Concurrent.Map.Len` | map.go:38-47 | The loop's sum of shard sizes equals the number of distinct keys in the whole map. |
| `Concurrent.Map.Set` | map.go:49-54 | Keeps the invariant. The whole map becomes old[k := v], and afterwards `Get(k) == v` and `Has(k)`. Every shard other than k's is unchanged. |
| `Concurrent.Map.Get` | map.go:56-62 | Returns the value stored for k, or nil (`None`) when k is absent. |
| `Concurrent.Map.Delete` | map.go:64-71 | Returns the old value of k, or nil if k was absent. Keeps the invariant and removes exactly k, so afterwards `!Has(k)`. Every other shard is unchanged. |
| `Concurrent.Map.Has` | map.go:73-79 | True iff k has an entry, even when the stored value is nil. |
| `Concurrent.Map.Items` | map.go:81-92 | The shard-by-shard copy equals the whole map. |
| `Concurrent.Map.PutIfAbsent` | map.go:94-105 | Inserts iff k was absent. If it inserts, returns (v, true) and the map becomes old[k := v]. If not, returns (stored value, false) and changes no shard. Every shard other than k's is unchanged. |
| `Concurrent.Map.Keys` | map.go:107-117 | Each key of the whole map appears exactly once: the multiset of results equals the key set, so the length equals `Len()`. |
| `Concurrent.Map.Values` | map.go:119-129 | One value per entry: the multiset of results equals `ValueBag(contents)`, so the length equals `Len()`. |
| `Concurrent.Map.Clear` | map.go:131-137 | Keeps the invariant and empties every shard, so `IsEmpty()` holds afterwards. |
| `Concurrent.Map.Update` | map.go:139-146 | Keeps the invariant. The whole map becomes old overridden by m. A shard that no key of m routes to is unchanged. |
| `Concurrent.Map.IsEmpty` | map.go:148-150 | True iff the whole map has no entries. |
| `MapScenarios.Creation` | map_test.go:6-16 | A new map has length 0. |
| `MapScenarios.SetThenGet` | map_test.go:24-37 | After `Set(3, 4)`, `Get(3)` is 4. |
| `MapScenarios.PutIfAbsentTwice` | map_test.go:39-61 | After `Set(3, 4)`, `PutIfAbsent(3, 5)` returns (4, false) and `PutIfAbsent(4, 5)` returns (5, true). |
| `MapScenarios.KeysAndValuesOfTwo` | map_test.go:63-79 | After setting two distinct keys, `Keys()` and `Values()` each have length 2. |
| `MapScenarios.StoredNil` | map.go:56-79 | A stored nil and a missing key both read back as nil. `Has` is true only for the stored one. |

## Left out

- Locking: the per-shard `sync.RWMutex` and every `Lock`/`RLock` pair are not
  modelled. The model is sequential.
- Races: `Delete` (map.go:66-69) and `Clear` (map.go:133-135) change a shard
  while holding only the read lock. Under concurrent use these are data races.
  A sequential model cannot observe them, so they are noted here and not
  modelled.
- Cross-shard consistency: under concurrent writers, `Len`, `Items`, `Keys`,
  `Values` and `Update` can see different shards at different moments. This
  exists only under concurrency.
- Iteration order: `Keys` and `Values` are specified by multisets and not by
  order, because Go's map iteration order is unspecified.
- Hashing: the body of `HashKey.Hash()` belongs to the caller. The model takes
  it as a total function `K -> uint32`, passed to `NewMap` and fixed for the
  map's life. `getShardIndex` returns a `uint32` in Go; here it returns a `nat`
  below 10.
- Keys are value types (`K(==, !new)`). The model does not cover Go keys that
  are pointers, or dynamic key types whose comparison panics.
- `K` stands for non-nil keys. In Go, `getShardIndex` calls `Hash()` on a
  nil `HashKey` and panics (map.go:12). So every single-key method panics on
  a nil key (map.go:50, 57, 65, 74, 95). `Update` panics on a batch that
  contains one (map.go:141), possibly after it has written other keys.
- Every key is assumed equal to itself. A float key holding NaN is not: in Go
  each `Set` of it (map.go:52) adds a new entry, which counts in `Len` and
  which `Get`, `Has` and `Delete` never find. The model's `Set` instead
  promises `contents == old(contents)[k := v]` and `Has(k)`.
- Only a `Map` built by `NewMap` is modelled: 10 non-nil shards, never
  resliced or reordered. This is what `Valid()` states. `Map` is an exported
  slice (map.go:24), so Go callers can hold other values. On the zero value or
  a shorter slice, the whole-map methods panic with an index out of range
  (map.go:41, 84, 109, 121, 133). A single-key method, or `Update`, panics
  only when a key is routed past the end of the slice (map.go:51, 58, 66, 75,
  96, 142). On `make(Map, 10)` they dereference a nil shard. With shards
  swapped, keys are routed to the wrong shard and `Get`/`Has` miss them
  (map.go:57-59).
- `Keys` and `Values` return Go's `nil` slice for an empty map. The model
  returns the empty sequence, and the two have the same length.
- `map_test.go` calls `New()`, and its `NodeId` defines `hash()` in lower case,
  so the test file does not compile against `map.go`. The scenarios use
  `NewMap` and a `NodeHash` function instead.
- `Update`: the model's loop body calls `Set`. Go repeats `Set`'s statements
  inline, and the two do the same thing.
