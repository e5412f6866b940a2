/**
 The assertions of the package's tests, replayed on the model with keys that
 hash to themselves (the tests' NodeId type).
 */
module MapScenarios {
  import opened Sharding
  import opened Concurrent

  /** NodeId's hash: the id itself. */
  function NodeHash(id: uint32): uint32 { id }

  /** A new map has length zero. */
  method Creation() returns (n: nat)
    ensures n == 0
  {
    var m := new Map<uint32, int>.NewMap(NodeHash);
    n := m.Len();
  }

  /** Get returns the value just set. */
  method SetThenGet() returns (v: Option<int>)
    ensures v == Some(4)
  {
    var m := new Map<uint32, int>.NewMap(NodeHash);
    m.Set(3, Some(4));
    v := m.Get(3);
  }

  /** PutIfAbsent on a present key reports the stored value and inserts
      nothing; on an absent key it inserts. */
  method PutIfAbsentTwice() returns (prev1: Option<int>, ok1: bool, prev2: Option<int>, ok2: bool)
    ensures prev1 == Some(4) && !ok1
    ensures prev2 == Some(5) && ok2
  {
    var m := new Map<uint32, int>.NewMap(NodeHash);
    m.Set(3, Some(4));
    prev1, ok1 := m.PutIfAbsent(3, Some(5));
    prev2, ok2 := m.PutIfAbsent(4, Some(5));
  }

  /** Two distinct keys give two keys and two values. */
  method KeysAndValuesOfTwo() returns (keys: seq<uint32>, values: seq<Option<int>>)
    ensures |keys| == 2 && |values| == 2
  {
    var m := new Map<uint32, int>.NewMap(NodeHash);
    m.Set(3, Some(4));
    m.Set(4, Some(5));
    assert m.contents.Keys == {3, 4};
    keys := m.Keys();
    values := m.Values();
  }

  /** A stored nil and a missing key both read back as nil; only Has tells
      them apart. */
  method StoredNil() returns (stored: Option<int>, storedHas: bool, missing: Option<int>, missingHas: bool)
    ensures stored == None && missing == None
    ensures storedHas && !missingHas
  {
    var m := new Map<uint32, int>.NewMap(NodeHash);
    m.Set(3, None);
    stored, storedHas := m.Get(3), m.Has(3);
    missing, missingHas := m.Get(4), m.Has(4);
  }
}
