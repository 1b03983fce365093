/** `ConcurrentMap<int, double>` of `concurrent_map.h`, with its sequential
    meaning: a fixed number of shards, each an ordinary map, where a key
    lives in shard `key % N`.  The mutex of each shard and the lock held by
    an `Access` are left out; `Access` is split into reading the slot
    (default-inserting it) and writing through the reference it returns.
    The only instantiation the server uses has `double` values, modelled as
    `real` with default value `0.0`.
 */
module Sharded {

  /** 2^64: `static_cast<uint64_t>` reduces a key modulo this. */
  const Word64: int := 0x1_0000_0000_0000_0000

  /** The shard of `key` among `n` shards.  `operator[]` casts the key to
      `uint64_t` before `% parts_.size()`; `Remove` computes `key %
      parts_.size()`, where the usual arithmetic conversions also turn the
      key into a 64-bit unsigned value, so both pick the same shard. */
  function ShardOf(key: int, n: nat): (i: nat)
    requires n > 0
    ensures i < n
  {
    (key % Word64) % n
  }

  /** For a key that fits the unsigned range the shard is plain `key % n`. */
  lemma ShardOfNonNegative(key: int, n: nat)
    requires n > 0 && 0 <= key < Word64
    ensures ShardOf(key, n) == key % n
  {
  }

  datatype ConcurrentMap = ConcurrentMap(parts: seq<map<int, real>>)

  /** Every key sits in the shard `ShardOf` names for it. */
  ghost predicate WellSharded(cm: ConcurrentMap) {
    forall i, k :: 0 <= i < |cm.parts| && k in cm.parts[i] ==> i == ShardOf(k, |cm.parts|)
  }

  /** The constructor: `part_count` empty shards. */
  function New(partCount: nat): (cm: ConcurrentMap)
    ensures |cm.parts| == partCount
    ensures WellSharded(cm)
    ensures BuildOrdinaryMap(cm) == map[]
  {
    var cm := ConcurrentMap(seq(partCount, _ => map[]));
    assert forall k :: k !in BuildOrdinaryMap(cm);
    cm
  }

  /** The loop of `BuildOrdinaryMap` over the shards: `insert` keeps a key
      that is already in the result, so an earlier shard wins. */
  function Merge(parts: seq<map<int, real>>): (r: map<int, real>)
    ensures forall k :: k in r <==> exists i :: 0 <= i < |parts| && k in parts[i]
  {
    if parts == [] then map[]
    else
      var acc := Merge(parts[..|parts| - 1]);
      assert forall i :: 0 <= i < |parts| - 1 ==> parts[..|parts| - 1][i] == parts[i];
      parts[|parts| - 1] + acc
  }

  /** A key found in exactly one shard carries that shard's value. */
  lemma {:induction false} MergeUnique(parts: seq<map<int, real>>, i: nat, k: int)
    requires i < |parts| && k in parts[i]
    requires forall j :: 0 <= j < |parts| && j != i ==> k !in parts[j]
    ensures k in Merge(parts) && Merge(parts)[k] == parts[i][k]
  {
    var n := |parts| - 1;
    var front := parts[..n];
    var acc := Merge(front);
    assert Merge(parts) == parts[n] + acc;
    if i < n {
      assert front[i] == parts[i];
      assert forall j :: 0 <= j < |front| && j != i ==> k !in front[j];
      MergeUnique(front, i, k);
    } else {
      assert forall j :: 0 <= j < |front| ==> k !in front[j];
      assert k !in acc;
    }
  }

  /** `BuildOrdinaryMap`: the union of the shards. */
  function BuildOrdinaryMap(cm: ConcurrentMap): (r: map<int, real>)
    ensures forall k :: k in r <==> exists i :: 0 <= i < |cm.parts| && k in cm.parts[i]
    ensures WellSharded(cm) ==> forall k :: k in r ==>
      |cm.parts| > 0 && k in cm.parts[ShardOf(k, |cm.parts|)] && r[k] == cm.parts[ShardOf(k, |cm.parts|)][k]
  {
    MergeSharded(cm);
    Merge(cm.parts)
  }

  lemma MergeSharded(cm: ConcurrentMap)
    ensures WellSharded(cm) ==> forall k :: k in Merge(cm.parts) ==>
      |cm.parts| > 0 && k in cm.parts[ShardOf(k, |cm.parts|)] && Merge(cm.parts)[k] == cm.parts[ShardOf(k, |cm.parts|)][k]
  {
    if WellSharded(cm) {
      forall k | k in Merge(cm.parts)
        ensures |cm.parts| > 0 && k in cm.parts[ShardOf(k, |cm.parts|)]
        ensures Merge(cm.parts)[k] == cm.parts[ShardOf(k, |cm.parts|)][k]
      {
        var i :| 0 <= i < |cm.parts| && k in cm.parts[i];
        assert forall j :: 0 <= j < |cm.parts| && k in cm.parts[j] ==> j == ShardOf(k, |cm.parts|);
        MergeUnique(cm.parts, i, k);
      }
    }
  }

  /** A key is in the merged map exactly when it is in its own shard, with
      that shard's value. */
  lemma Lookup(cm: ConcurrentMap, k: int)
    requires WellSharded(cm) && |cm.parts| > 0
    ensures k in BuildOrdinaryMap(cm) <==> k in cm.parts[ShardOf(k, |cm.parts|)]
    ensures k in BuildOrdinaryMap(cm) ==> BuildOrdinaryMap(cm)[k] == cm.parts[ShardOf(k, |cm.parts|)][k]
  {
  }

  /** In a well-sharded map no key is in two shards, so the union built by
      `BuildOrdinaryMap` is disjoint. */
  lemma ShardsDisjoint(cm: ConcurrentMap, i: nat, j: nat)
    requires WellSharded(cm)
    requires i < |cm.parts| && j < |cm.parts| && i != j
    ensures cm.parts[i].Keys !! cm.parts[j].Keys
  {
    assert forall k :: k in cm.parts[i] ==> i == ShardOf(k, |cm.parts|);
    assert forall k :: k in cm.parts[j] ==> j == ShardOf(k, |cm.parts|);
    assert forall k :: k in cm.parts[i].Keys ==> k !in cm.parts[j].Keys;
  }

  /** Writing `v` at `key` in its own shard (`ref_to_value = v`). */
  function Store(cm: ConcurrentMap, key: int, v: real): (r: ConcurrentMap)
    requires |cm.parts| > 0
    ensures |r.parts| == |cm.parts|
    ensures WellSharded(cm) ==> WellSharded(r)
    ensures WellSharded(cm) ==> BuildOrdinaryMap(r) == BuildOrdinaryMap(cm)[key := v]
  {
    var i := ShardOf(key, |cm.parts|);
    var r := ConcurrentMap(cm.parts[i := cm.parts[i][key := v]]);
    StoreContents(cm, key, v, r);
    r
  }

  lemma StoreContents(cm: ConcurrentMap, key: int, v: real, r: ConcurrentMap)
    requires |cm.parts| > 0
    requires r.parts == cm.parts[ShardOf(key, |cm.parts|) := cm.parts[ShardOf(key, |cm.parts|)][key := v]]
    ensures WellSharded(cm) ==> WellSharded(r)
    ensures WellSharded(cm) ==> BuildOrdinaryMap(r) == BuildOrdinaryMap(cm)[key := v]
  {
    if WellSharded(cm) {
      StoreKeepsSharding(cm, key, v, r);
      var m := BuildOrdinaryMap(cm);
      var m' := BuildOrdinaryMap(r);
      forall k
        ensures k in m' <==> k in m[key := v]
        ensures k in m' ==> m'[k] == m[key := v][k]
      {
        Lookup(cm, k);
        Lookup(r, k);
      }
      assert m' == m[key := v];
    }
  }

  lemma StoreKeepsSharding(cm: ConcurrentMap, key: int, v: real, r: ConcurrentMap)
    requires |cm.parts| > 0 && WellSharded(cm)
    requires r.parts == cm.parts[ShardOf(key, |cm.parts|) := cm.parts[ShardOf(key, |cm.parts|)][key := v]]
    ensures WellSharded(r)
  {
    var n := |cm.parts|;
    forall i, k | 0 <= i < n && k in r.parts[i]
      ensures i == ShardOf(k, n)
    {
      if k != key {
        assert k in cm.parts[i];
      }
    }
  }

  /** A slot reached through `operator[]`: the map after the access and the
      value the returned reference sees. */
  datatype Slot = Slot(after: ConcurrentMap, value: real)

  /** `operator[]`: `part.map[key]` default-inserts `0.0` when `key` is
      absent.  Needs at least one shard (`% 0` is undefined). */
  function Access(cm: ConcurrentMap, key: int): (s: Slot)
    requires |cm.parts| > 0
    ensures |s.after.parts| == |cm.parts|
    ensures WellSharded(cm) ==> WellSharded(s.after)
    ensures WellSharded(cm) ==> ReadSlot(BuildOrdinaryMap(cm), BuildOrdinaryMap(s.after), key, s.value)
  {
    var v := SlotValue(cm, key);
    AccessContents(cm, key);
    Slot(Store(cm, key, v), v)
  }

  /** What `operator[]` does to the merged map: a present key is read as
      is; an absent one reads `0.0` and is inserted with that value. */
  predicate ReadSlot(before: map<int, real>, read: map<int, real>, key: int, v: real) {
    && (key in before ==> v == before[key] && read == before)
    && (key !in before ==> v == 0.0 && read == before[key := 0.0])
  }

  /** The value `operator[]` finds in the key's shard, 0 when absent. */
  function SlotValue(cm: ConcurrentMap, key: int): real
    requires |cm.parts| > 0
  {
    var part := cm.parts[ShardOf(key, |cm.parts|)];
    if key in part then part[key] else 0.0
  }

  lemma AccessContents(cm: ConcurrentMap, key: int)
    requires |cm.parts| > 0
    ensures WellSharded(cm) ==>
      var m := BuildOrdinaryMap(cm);
      var part := cm.parts[ShardOf(key, |cm.parts|)];
      && (key in m <==> key in part)
      && (key in m ==> m[key] == part[key] && m[key := part[key]] == m)
  {
    if WellSharded(cm) {
      Lookup(cm, key);
    }
  }

  /** `document_to_relevance[key].ref_to_value += delta`: read the slot
      through `operator[]`, then write the sum through the reference. */
  function AddTo(cm: ConcurrentMap, key: int, delta: real): (r: ConcurrentMap)
    requires |cm.parts| > 0
    ensures |r.parts| == |cm.parts|
    ensures WellSharded(cm) ==> WellSharded(r)
    ensures WellSharded(cm) ==>
      var m := BuildOrdinaryMap(cm);
      BuildOrdinaryMap(r) == m[key := (if key in m then m[key] else 0.0) + delta]
  {
    var s := Access(cm, key);
    var r := Store(s.after, key, s.value + delta);
    AddToContents(cm, key, delta, s, r);
    r
  }

  lemma AddToContents(cm: ConcurrentMap, key: int, delta: real, s: Slot, r: ConcurrentMap)
    requires |cm.parts| > 0
    requires s == Access(cm, key) && r == Store(s.after, key, s.value + delta)
    ensures WellSharded(cm) ==>
      var m := BuildOrdinaryMap(cm);
      BuildOrdinaryMap(r) == m[key := (if key in m then m[key] else 0.0) + delta]
  {
    if WellSharded(cm) {
      ReadThenWrite(BuildOrdinaryMap(cm), BuildOrdinaryMap(s.after), BuildOrdinaryMap(r), key, s.value, delta);
    }
  }

  /** Reading a slot with default insertion and then writing `v + delta`
      leaves the same map as adding `delta` to the slot's old value. */
  lemma ReadThenWrite(before: map<int, real>, read: map<int, real>, after: map<int, real>, key: int, v: real, delta: real)
    requires ReadSlot(before, read, key, v)
    requires after == read[key := v + delta]
    ensures after == before[key := (if key in before then before[key] else 0.0) + delta]
  {
    if key !in before {
      assert read[key := v + delta] == before[key := v + delta];
    }
  }

  /** `Remove`: erase `key` from its shard; nothing else changes. */
  function Remove(cm: ConcurrentMap, key: int): (r: ConcurrentMap)
    requires |cm.parts| > 0
    ensures |r.parts| == |cm.parts|
    ensures WellSharded(cm) ==> WellSharded(r)
    ensures WellSharded(cm) ==> BuildOrdinaryMap(r) == BuildOrdinaryMap(cm) - {key}
    ensures WellSharded(cm) && key !in BuildOrdinaryMap(cm) ==> r == cm
  {
    var i := ShardOf(key, |cm.parts|);
    var r := ConcurrentMap(cm.parts[i := cm.parts[i] - {key}]);
    RemoveContents(cm, key, r);
    r
  }

  lemma RemoveContents(cm: ConcurrentMap, key: int, r: ConcurrentMap)
    requires |cm.parts| > 0
    requires r.parts == cm.parts[ShardOf(key, |cm.parts|) := cm.parts[ShardOf(key, |cm.parts|)] - {key}]
    ensures WellSharded(cm) ==> WellSharded(r)
    ensures WellSharded(cm) ==> BuildOrdinaryMap(r) == BuildOrdinaryMap(cm) - {key}
    ensures WellSharded(cm) && key !in BuildOrdinaryMap(cm) ==> r == cm
  {
    if WellSharded(cm) {
      RemoveKeepsSharding(cm, key, r);
      RemoveMerged(cm, key, r);
      if key !in BuildOrdinaryMap(cm) {
        var i := ShardOf(key, |cm.parts|);
        Lookup(cm, key);
        assert cm.parts[i] - {key} == cm.parts[i];
        assert r.parts == cm.parts;
      }
    }
  }

  lemma RemoveKeepsSharding(cm: ConcurrentMap, key: int, r: ConcurrentMap)
    requires |cm.parts| > 0 && WellSharded(cm)
    requires r.parts == cm.parts[ShardOf(key, |cm.parts|) := cm.parts[ShardOf(key, |cm.parts|)] - {key}]
    ensures WellSharded(r)
  {
    var n := |cm.parts|;
    forall j, k | 0 <= j < n && k in r.parts[j]
      ensures j == ShardOf(k, n)
    {
      assert k in cm.parts[j];
    }
  }

  lemma RemoveMerged(cm: ConcurrentMap, key: int, r: ConcurrentMap)
    requires |cm.parts| > 0 && WellSharded(cm) && WellSharded(r)
    requires r.parts == cm.parts[ShardOf(key, |cm.parts|) := cm.parts[ShardOf(key, |cm.parts|)] - {key}]
    ensures BuildOrdinaryMap(r) == BuildOrdinaryMap(cm) - {key}
  {
    var m := BuildOrdinaryMap(cm);
    var m' := BuildOrdinaryMap(r);
    forall k
      ensures k in m' <==> k in m && k != key
      ensures k in m' ==> m'[k] == m[k]
    {
      RemovedAt(cm, key, r, k);
    }
    SameAsRemoved(m', m, key);
  }

  lemma SameAsRemoved(a: map<int, real>, b: map<int, real>, key: int)
    requires forall k :: k in a <==> k in b && k != key
    requires forall k :: k in a ==> a[k] == b[k]
    ensures a == b - {key}
  {
    var c := b - {key};
    forall k
      ensures k in a <==> k in c
      ensures k in a ==> a[k] == c[k]
    {
      assert k in a <==> k in b && k != key;
    }
  }

  lemma RemovedAt(cm: ConcurrentMap, key: int, r: ConcurrentMap, k: int)
    requires |cm.parts| > 0 && WellSharded(cm) && WellSharded(r)
    requires r.parts == cm.parts[ShardOf(key, |cm.parts|) := cm.parts[ShardOf(key, |cm.parts|)] - {key}]
    ensures k in BuildOrdinaryMap(r) <==> k in BuildOrdinaryMap(cm) && k != key
    ensures k in BuildOrdinaryMap(r) ==> BuildOrdinaryMap(r)[k] == BuildOrdinaryMap(cm)[k]
  {
    Lookup(cm, k);
    Lookup(r, k);
    var n := |cm.parts|;
    if ShardOf(k, n) == ShardOf(key, n) {
      assert r.parts[ShardOf(k, n)] == cm.parts[ShardOf(k, n)] - {key};
    } else {
      assert r.parts[ShardOf(k, n)] == cm.parts[ShardOf(k, n)];
    }
  }
}
