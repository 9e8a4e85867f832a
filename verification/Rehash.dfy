/** The kick-out rehash of kh_resize, on sequences.  While it runs, the entries are in three places:
    still live under the old flags, already placed under the new flags, and (inside the kick-out
    loop) the one entry being carried. */
module Rehash {
  import opened Probing
  import opened Flags
  import opened Buckets

  /** A moment of the rehash: the bucket statuses and key locations under the old and the new flags,
      over one array of keys and one of values. */
  datatype Stage<K, V> = Stage(stOld: seq<Status>, stNew: seq<Status>, keys: seq<K>, vals: seq<V>,
                               locOld: map<K, nat>, locNew: map<K, nat>)

  /** The old part and the new part together hold exactly the entries of m, minus those of `carried`. */
  ghost predicate Split<K, V>(s: Stage<K, V>, hash: K -> Hash, m: map<K, V>, carried: set<K>) {
    match s
    case Stage(stOld, stNew, keys, vals, locOld, locNew) =>
      && Holds(stOld, keys, vals, locOld, m)
      && Holds(stNew, keys, vals, locNew, m)
      && IsCapacity(|stNew|)
      && AllReach(stNew, locNew, hash)
      && Deleted !in stNew
      && locOld.Keys !! locNew.Keys
      && carried !! locOld.Keys
      && carried !! locNew.Keys
      && m.Keys == locOld.Keys + locNew.Keys + carried
      && |m| < |stNew|
  }

  lemma SplitSizes<K, V>(s: Stage<K, V>, hash: K -> Hash, m: map<K, V>, carried: set<K>)
    requires Split(s, hash, m, carried)
    ensures |m| == |s.locOld| + |s.locNew| + |carried|
    ensures |Occupied(s.stNew)| == |s.locNew|
    ensures exists i: nat :: i < |s.stNew| && s.stNew[i].Empty?
  {
    assert |m.Keys| == |s.locOld.Keys + s.locNew.Keys| + |carried|;
    assert |s.locOld.Keys + s.locNew.Keys| == |s.locOld.Keys| + |s.locNew.Keys|;
    RoomLeft(s.stNew, s.keys, s.locNew);
  }

  /** The entry of old live bucket j is lifted out of the table. */
  ghost function Lifted<K, V>(s: Stage<K, V>, j: nat): Stage<K, V>
    requires j < |s.stOld| && j < |s.keys|
  {
    s.(stOld := s.stOld[j := Deleted], locOld := s.locOld - {s.keys[j]})
  }

  /** Key k and value v are written into bucket i, which the new flags call live from now on. */
  ghost function Written<K, V>(s: Stage<K, V>, i: nat, k: K, v: V): Stage<K, V>
    requires i < |s.stNew| && i < |s.keys| && i < |s.vals|
  {
    s.(stNew := s.stNew[i := Live], keys := s.keys[i := k], vals := s.vals[i := v], locNew := s.locNew[k := i])
  }

  /** The key sets after an entry is lifted out. */
  lemma LiftedKeys<K, V>(locOld: map<K, nat>, locNew: map<K, nat>, m: map<K, V>, k: K)
    requires locOld.Keys !! locNew.Keys && k in locOld && m.Keys == locOld.Keys + locNew.Keys
    ensures (locOld - {k}).Keys !! locNew.Keys && k !in locNew
    ensures m.Keys == (locOld - {k}).Keys + locNew.Keys + {k}
    ensures |locOld - {k}| == |locOld| - 1
  {
    assert locOld.Keys == (locOld - {k}).Keys + {k};
  }

  lemma LiftedLive<K, V>(s: Stage<K, V>, j: nat)
    requires j < |s.stOld| && j < |s.keys|
    ensures LiveSet(Lifted(s, j).stOld) == LiveSet(s.stOld) - {j}
  {
  }

  lemma PickUp<K, V>(s: Stage<K, V>, hash: K -> Hash, m: map<K, V>, j: nat)
    requires Split(s, hash, m, {}) && j < |s.stOld| && s.stOld[j].Live?
    ensures Split(Lifted(s, j), hash, m, {s.keys[j]})
    ensures s.keys[j] in m && s.vals[j] == m[s.keys[j]]
    ensures |Lifted(s, j).locOld| == |s.locOld| - 1
  {
    RemoveBucket(s.stOld, s.keys, s.vals, s.locOld, m, j);
    LiftedKeys(s.locOld, s.locNew, m, s.keys[j]);
  }

  /** Bucket i can take the carried key k: it is empty under the new flags and on k's walk. */
  ghost predicate Vacant<K, V>(s: Stage<K, V>, h: nat, i: nat) {
    IsCapacity(|s.stNew|) && i < |s.stNew| && s.stNew[i].Empty? && Reaches(s.stNew, h, i)
  }

  /** The key sets after the carried key k is placed. */
  lemma PutDownKeys<K, V>(locOld: map<K, nat>, locNew: map<K, nat>, m: map<K, V>, i: nat, k: K)
    requires locOld.Keys !! locNew.Keys && k !in locOld && k !in locNew
    requires m.Keys == locOld.Keys + locNew.Keys + {k}
    ensures locOld.Keys !! locNew[k := i].Keys
    ensures m.Keys == locOld.Keys + locNew[k := i].Keys + {}
  {
    assert locNew[k := i].Keys == locNew.Keys + {k};
  }

  /** Placing the carried entry in a bucket that the old table does not use. */
  lemma PutDown<K, V>(s: Stage<K, V>, hash: K -> Hash, m: map<K, V>, i: nat, k: K, v: V)
    requires Split(s, hash, m, {k}) && m[k] == v && Vacant(s, hash(k), i)
    requires i >= |s.stOld| || !s.stOld[i].Live?
    ensures Split(Written(s, i, k, v), hash, m, {})
  {
    OverwriteBucket(s.stOld, s.keys, s.vals, s.locOld, m, i, k, v);
    InsertBucket(s.stNew, s.keys, s.vals, s.locNew, m, i, k, v);
    InsertReach(s.stNew, s.locNew, hash, i, k);
    NoTombstone(s.stNew, i);
    PutDownKeys(s.locOld, s.locNew, m, i, k);
  }

  lemma NoTombstone(st: seq<Status>, i: nat)
    requires i < |st| && Deleted !in st
    ensures Deleted !in st[i := Live]
  {
  }

  /** The key sets after a kick-out: k is new, k' is carried. */
  lemma KickOutKeys<K, V>(locOld: map<K, nat>, locNew: map<K, nat>, m: map<K, V>, i: nat, k: K, k': K)
    requires locOld.Keys !! locNew.Keys && k !in locOld && k !in locNew && k' in locOld
    requires m.Keys == locOld.Keys + locNew.Keys + {k}
    ensures (locOld - {k'}).Keys !! locNew[k := i].Keys
    ensures k' !in locOld - {k'} && k' !in locNew[k := i]
    ensures m.Keys == (locOld - {k'}).Keys + locNew[k := i].Keys + {k'}
    ensures |locOld - {k'}| == |locOld| - 1
  {
    assert locOld.Keys == (locOld - {k'}).Keys + {k'};
  }

  /** Placing the carried entry on top of an old live one, and carrying that one on. */
  lemma KickOut<K, V>(s: Stage<K, V>, hash: K -> Hash, m: map<K, V>, i: nat, k: K, v: V)
    requires Split(s, hash, m, {k}) && m[k] == v && Vacant(s, hash(k), i)
    requires i < |s.stOld| && s.stOld[i].Live?
    ensures Split(Written(Lifted(s, i), i, k, v), hash, m, {s.keys[i]})
    ensures s.keys[i] in m && s.vals[i] == m[s.keys[i]]
    ensures |Lifted(s, i).locOld| == |s.locOld| - 1
  {
    var t := Lifted(s, i);
    RemoveBucket(s.stOld, s.keys, s.vals, s.locOld, m, i);
    OverwriteBucket(t.stOld, s.keys, s.vals, t.locOld, m, i, k, v);
    InsertBucket(s.stNew, s.keys, s.vals, s.locNew, m, i, k, v);
    InsertReach(s.stNew, s.locNew, hash, i, k);
    NoTombstone(s.stNew, i);
    KickOutKeys(s.locOld, s.locNew, m, i, k, s.keys[i]);
  }

  /** Nothing left under the old flags and nothing carried: the new table holds exactly m. */
  lemma Finished<K, V>(s: Stage<K, V>, hash: K -> Hash, m: map<K, V>)
    requires Split(s, hash, m, {}) && Live !in s.stOld
    ensures TableOk(s.stNew, s.keys, s.locNew, hash)
    ensures Entries(s.locNew, s.vals) == m
    ensures |Occupied(s.stNew)| == |s.locNew| == |m|
  {
    assert forall k :: k !in s.locOld;
    SplitSizes(s, hash, m, {});
    assert |s.locOld| == 0;
  }

  /** Before the first move everything is under the old flags. */
  lemma Started<K, V>(s: Stage<K, V>, hash: K -> Hash)
    requires Placed(s.stOld, s.keys, s.locOld) && |s.stOld| <= |s.vals|
    requires IsCapacity(|s.stNew|) && s.stNew == AllEmpty(|s.stNew|) && s.locNew == map[]
    requires |s.stNew| <= |s.keys| && |s.stNew| <= |s.vals| && |s.locOld| < |s.stNew|
    ensures Split(s, hash, Entries(s.locOld, s.vals), {})
  {
    var m := Entries(s.locOld, s.vals);
    assert m.Keys == s.locOld.Keys;
  }
}
