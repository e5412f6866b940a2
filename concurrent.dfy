/**
 A map split into ShardNum shards, each holding the entries whose keys hash
 to it. The model is sequential: the per-shard read/write locks are left out.
 */
module Concurrent {
  import opened Sharding

  /** A stored value of Go type interface{}; None stands for nil. */
  datatype Option<T> = None | Some(value: T)

  class Map<K(==, !new), V> {
    /** The keys' Hash() method. */
    const hash: K -> uint32
    /** The shards; shard i holds the keys with GetShardIndex(hash, k) == i. */
    const shards: array<map<K, Option<V>>>
    /** The abstract view: the whole map as one map. */
    ghost var contents: map<K, Option<V>>

    /** Object invariant: the right number of shards, every key in the shard
        it is routed to, and the abstract view equal to their union. */
    ghost predicate Valid()
      reads this, shards
    {
      && shards.Length == ShardNum
      && Routed(hash, shards[..])
      && contents == Union(shards[..])
    }

    /** A map of ShardNum empty shards. */
    constructor NewMap(hash: K -> uint32)
      ensures Valid() && fresh(shards)
      ensures this.hash == hash
      ensures contents == map[]
      ensures forall i :: 0 <= i < ShardNum ==> shards[i] == map[]
      ensures IsEmpty()
    {
      var cm := new map<K, Option<V>>[ShardNum];
      for i := 0 to ShardNum
        invariant forall j :: 0 <= j < i ==> cm[j] == map[]
      {
        cm[i] := map[];
      }
      this.hash := hash;
      shards := cm;
      contents := map[];
      new;
      UnionOfEmpty(hash, shards[..]);
    }

    /** The number of entries: the shard sizes summed in index order. */
    method Len() returns (l: nat)
      requires Valid()
      ensures l == |contents|
    {
      l := 0;
      for i := 0 to ShardNum
        invariant l == TotalLen(shards[..i])
      {
        assert shards[..i + 1][..i] == shards[..i];
        l := l + |shards[i]|;
      }
      assert shards[..ShardNum] == shards[..];
      UnionSize(hash, shards[..]);
    }

    /** Inserts or overwrites the entry of k, in k's shard only. */
    method Set(k: K, v: Option<V>)
      requires Valid()
      modifies this, shards
      ensures Valid()
      ensures contents == old(contents)[k := v]
      ensures Get(k) == v && Has(k)
      ensures forall j :: 0 <= j < ShardNum && j != GetShardIndex(hash, k) ==> shards[j] == old(shards[j])
    {
      var i := GetShardIndex(hash, k);
      UnionSet(hash, shards[..], k, v);
      shards[i] := shards[i][k := v];
      contents := contents[k := v];
      assert shards[..] == old(shards[..])[i := old(shards[i])[k := v]];
    }

    /** The value stored for k, or nil when k is absent: a stored nil and a
        missing key give the same answer. */
    function Get(k: K): (r: Option<V>)
      reads this, shards
      requires Valid()
      ensures k in contents ==> r == contents[k]
      ensures k !in contents ==> r == None
    {
      var i := GetShardIndex(hash, k);
      UnionAt(hash, shards[..], k);
      if k in shards[i] then shards[i][k] else None
    }

    /** Removes k from its shard and returns what was stored (nil if k was
        absent). */
    method Delete(k: K) returns (r: Option<V>)
      requires Valid()
      modifies this, shards
      ensures Valid()
      ensures r == if k in old(contents) then old(contents)[k] else None
      ensures contents == old(contents) - {k}
      ensures !Has(k)
      ensures forall j :: 0 <= j < ShardNum && j != GetShardIndex(hash, k) ==> shards[j] == old(shards[j])
    {
      var i := GetShardIndex(hash, k);
      UnionAt(hash, shards[..], k);
      UnionRemove(hash, shards[..], k);
      r := if k in shards[i] then shards[i][k] else None;
      shards[i] := shards[i] - {k};
      contents := contents - {k};
      assert shards[..] == old(shards[..])[i := old(shards[i]) - {k}];
    }

    /** Whether k has an entry, nil or not. */
    function Has(k: K): (r: bool)
      reads this, shards
      requires Valid()
      ensures r <==> k in contents
    {
      var i := GetShardIndex(hash, k);
      UnionAt(hash, shards[..], k);
      k in shards[i]
    }

    /** A copy of all entries, shard by shard. */
    method Items() returns (m: map<K, Option<V>>)
      requires Valid()
      ensures m == contents
    {
      m := map[];
      for i := 0 to ShardNum
        invariant m == Union(shards[..i])
      {
        var shard := shards[i];
        ghost var seen := Union(shards[..i]);
        var rest := shard.Keys;
        CollectedNothing(seen, shard);
        while rest != {}
          invariant rest <= shard.Keys
          invariant m == seen + Restrict(shard, shard.Keys - rest)
          decreases rest
        {
          var k :| k in rest;
          assert shard.Keys - (rest - {k}) == (shard.Keys - rest) + {k};
          RestrictAdd(seen, shard, shard.Keys - rest, k);
          m := m[k := shard[k]];
          rest := rest - {k};
        }
        NothingLeft(shard.Keys, rest);
        CollectedShard(shards[..], i);
      }
      assert shards[..ShardNum] == shards[..];
    }

    /** Inserts k -> v unless k already has an entry; reports the value now
        stored and whether it was inserted. */
    method PutIfAbsent(k: K, v: Option<V>) returns (r: Option<V>, inserted: bool)
      requires Valid()
      modifies this, shards
      ensures Valid()
      ensures inserted <==> k !in old(contents)
      ensures inserted ==> r == v && contents == old(contents)[k := v]
      ensures !inserted ==> r == old(contents)[k] && contents == old(contents)
      ensures !inserted ==> shards[..] == old(shards[..])
      ensures forall j :: 0 <= j < ShardNum && j != GetShardIndex(hash, k) ==> shards[j] == old(shards[j])
    {
      var i := GetShardIndex(hash, k);
      UnionAt(hash, shards[..], k);
      if k in shards[i] {
        r, inserted := shards[i][k], false;
      } else {
        UnionSet(hash, shards[..], k, v);
        shards[i] := shards[i][k := v];
        contents := contents[k := v];
        assert shards[..] == old(shards[..])[i := old(shards[i])[k := v]];
        r, inserted := v, true;
      }
    }

    /** All keys, shard by shard, each exactly once; the order within a shard
        is unspecified. */
    method Keys() returns (keys: seq<K>)
      requires Valid()
      ensures multiset(keys) == multiset(contents.Keys)
      ensures |keys| == |contents|
    {
      keys := [];
      for i := 0 to ShardNum
        invariant multiset(keys) == multiset(Union(shards[..i]).Keys)
      {
        var shard := shards[i];
        ghost var seen := Union(shards[..i]).Keys;
        assert seen !! shard.Keys by {
          NextShardIsNew(hash, shards[..], i);
        }
        var rest := shard.Keys;
        while rest != {}
          invariant rest <= shard.Keys
          invariant multiset(keys) == multiset(seen + (shard.Keys - rest))
          decreases rest
        {
          var k :| k in rest;
          CollectKey(seen, shard.Keys, rest, k);
          keys := keys + [k];
          rest := rest - {k};
        }
        NothingLeft(shard.Keys, rest);
        CollectedShardKeys(shards[..], i, multiset(keys));
      }
      assert shards[..ShardNum] == shards[..];
      assert |multiset(keys)| == |keys|;
    }

    /** All values, shard by shard, one per entry (so a value stored under
        several keys appears several times); the order is unspecified. */
    method Values() returns (values: seq<Option<V>>)
      requires Valid()
      ensures multiset(values) == ValueBag(contents)
      ensures |values| == |contents|
    {
      values := [];
      for i := 0 to ShardNum
        invariant multiset(values) == ValueBag(Union(shards[..i]))
      {
        var shard := shards[i];
        ghost var seen := Union(shards[..i]);
        assert seen.Keys !! shard.Keys by {
          NextShardIsNew(hash, shards[..], i);
        }
        var rest := shard.Keys;
        CollectedNothing(seen, shard);
        while rest != {}
          invariant rest <= shard.Keys
          invariant multiset(values) == ValueBag(seen + Restrict(shard, shard.Keys - rest))
          decreases rest
        {
          var k :| k in rest;
          CollectValue(seen, shard, rest, k);
          values := values + [shard[k]];
          rest := rest - {k};
        }
        NothingLeft(shard.Keys, rest);
        CollectedShard(shards[..], i);
      }
      assert shards[..ShardNum] == shards[..];
      assert |multiset(values)| == |values|;
    }

    /** Empties every shard. */
    method Clear()
      requires Valid()
      modifies this, shards
      ensures Valid()
      ensures contents == map[]
      ensures forall i :: 0 <= i < ShardNum ==> shards[i] == map[]
      ensures IsEmpty()
    {
      for i := 0 to ShardNum
        invariant forall j :: 0 <= j < i ==> shards[j] == map[]
      {
        shards[i] := map[];
      }
      contents := map[];
      UnionOfEmpty(hash, shards[..]);
    }

    /** Sets every entry of m, key by key, each in its own shard (the loop
        body is exactly Set). */
    method Update(m: map<K, Option<V>>)
      requires Valid()
      modifies this, shards
      ensures Valid()
      ensures contents == old(contents) + m
      ensures forall j :: 0 <= j < ShardNum && Slice(hash, m, j) == map[] ==> shards[j] == old(shards[j])
    {
      var rest := m.Keys;
      while rest != {}
        invariant Valid()
        invariant rest <= m.Keys
        invariant contents == old(contents) + Restrict(m, m.Keys - rest)
        invariant forall j :: 0 <= j < ShardNum && Slice(hash, m, j) == map[] ==> shards[j] == old(shards[j])
        decreases rest
      {
        var k :| k in rest;
        assert Slice(hash, m, GetShardIndex(hash, k)) != map[] by {
          assert k in Slice(hash, m, GetShardIndex(hash, k));
        }
        assert old(contents) + Restrict(m, m.Keys - (rest - {k})) == contents[k := m[k]] by {
          assert m.Keys - (rest - {k}) == (m.Keys - rest) + {k};
          RestrictAdd(old(contents), m, m.Keys - rest, k);
        }
        Set(k, m[k]);
        rest := rest - {k};
      }
    }

    /** Whether the map has no entries, that is, whether Len() is zero. */
    function IsEmpty(): (r: bool)
      reads this, shards
      requires Valid()
      ensures r <==> contents == map[]
    {
      UnionSize(hash, shards[..]);
      TotalLen(shards[..]) == 0
    }
  }
}
