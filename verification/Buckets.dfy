/** The open-addressing table as plain sequences: a status and a key per bucket, and the map `loc`
    from each stored key to its bucket.  The class KHash keeps its arrays in step with these. */
module Buckets {
  import opened Basics
  import opened Probing
  import opened Flags

  type Hash = h: nat | h < WORD

  /** The walk of hash h meets no empty bucket before bucket i. */
  ghost predicate Reaches(st: seq<Status>, h: nat, i: nat)
    requires IsCapacity(|st|) && i < |st|
  {
    forall t: nat :: t < StepTo(h, i, |st|) ==> !st[Probe(h, t, |st|)].Empty?
  }

  /** The live buckets and `loc` are each other's inverse; in particular no key is stored twice. */
  ghost predicate Placed<K>(st: seq<Status>, keys: seq<K>, loc: map<K, nat>) {
    && |st| <= |keys|
    && (forall k {:trigger k in loc} :: k in loc ==> loc[k] < |st| && st[loc[k]].Live? && keys[loc[k]] == k)
    && (forall i: nat {:trigger st[i]} :: i < |st| && st[i].Live? ==> keys[i] in loc && loc[keys[i]] == i)
  }

  ghost predicate AllReach<K>(st: seq<Status>, loc: map<K, nat>, hash: K -> Hash)
    requires IsCapacity(|st|)
  {
    forall k {:trigger k in loc} :: k in loc ==> loc[k] < |st| && Reaches(st, hash(k), loc[k])
  }

  ghost predicate TableOk<K>(st: seq<Status>, keys: seq<K>, loc: map<K, nat>, hash: K -> Hash) {
    IsCapacity(|st|) && Placed(st, keys, loc) && AllReach(st, loc, hash)
  }

  ghost function LiveSet(st: seq<Status>): set<nat> {
    set i: nat | i < |st| && st[i].Live?
  }

  ghost function Occupied(st: seq<Status>): set<nat> {
    set i: nat | i < |st| && !st[i].Empty?
  }

  // ---------------------------------------------------------------------------
  // Counting

  lemma {:induction false} BijectionSize<K>(s: set<nat>, keys: seq<K>, loc: map<K, nat>)
    requires forall i :: i in s ==> i < |keys| && keys[i] in loc && loc[keys[i]] == i
    requires forall k :: k in loc ==> loc[k] in s && keys[loc[k]] == k
    ensures |s| == |loc|
    decreases s
  {
    if s == {} {
      assert forall k :: k !in loc;
    } else {
      var i :| i in s;
      var loc' := loc - {keys[i]};
      assert loc.Keys == loc'.Keys + {keys[i]};
      BijectionSize(s - {i}, keys, loc');
    }
  }

  /** The number of live buckets is the number of stored keys. */
  lemma LiveCount<K>(st: seq<Status>, keys: seq<K>, loc: map<K, nat>)
    requires Placed(st, keys, loc)
    ensures |LiveSet(st)| == |loc|
  {
    BijectionSize(LiveSet(st), keys, loc);
  }

  lemma OccupiedBounds(st: seq<Status>)
    ensures |LiveSet(st)| <= |Occupied(st)| <= |st|
    ensures |Occupied(st)| < |st| ==> exists i: nat :: i < |st| && st[i].Empty?
  {
    SubsetSize(LiveSet(st), Occupied(st));
    SubsetSize(Occupied(st), Below(|st|));
    if forall i: nat :: i < |st| ==> !st[i].Empty? {
      assert Occupied(st) == Below(|st|);
    }
  }

  lemma TombstoneCount(st: seq<Status>, x: nat)
    requires x < |st| && st[x].Deleted?
    ensures |LiveSet(st)| < |Occupied(st)|
  {
    SubsetSize(LiveSet(st), Occupied(st) - {x});
  }

  /** A table without tombstones that stores fewer keys than it has buckets has an empty bucket. */
  lemma RoomLeft<K>(st: seq<Status>, keys: seq<K>, loc: map<K, nat>)
    requires Placed(st, keys, loc) && Deleted !in st
    ensures |Occupied(st)| == |loc|
    ensures |loc| < |st| ==> exists i: nat :: i < |st| && st[i].Empty?
  {
    LiveCount(st, keys, loc);
    assert Occupied(st) == LiveSet(st);
    OccupiedBounds(st);
  }

  lemma OccupiedUpdate(st: seq<Status>, i: nat, stat: Status)
    requires i < |st| && !stat.Empty?
    ensures |Occupied(st[i := stat])| == |Occupied(st)| + (if st[i].Empty? then 1 else 0)
  {
    assert Occupied(st[i := stat]) == Occupied(st) + {i};
  }

  lemma NoneLive(st: seq<Status>)
    requires LiveSet(st) !! Below(|st|)
    ensures Live !in st
  {
    forall i: nat | i < |st|
      ensures st[i] != Live
    {
      assert i in Below(|st|) && i !in LiveSet(st);
    }
  }

  // ---------------------------------------------------------------------------
  // Searching

  ghost predicate Matches<K>(st: seq<Status>, keys: seq<K>, i: nat, k: K)
    requires i < |st| <= |keys|
  {
    st[i].Live? && keys[i] == k
  }

  /** A walk that has met no match and stands on an empty bucket proves the key absent. */
  lemma MissAtEmpty<K>(st: seq<Status>, keys: seq<K>, loc: map<K, nat>, hash: K -> Hash, k: K, s: nat)
    requires TableOk(st, keys, loc, hash)
    requires forall t: nat :: t < s ==> !Matches(st, keys, Probe(hash(k), t, |st|), k)
    requires st[Probe(hash(k), s, |st|)].Empty?
    ensures k !in loc
  {
    if k in loc {
      var t := StepTo(hash(k), loc[k], |st|);
      assert Matches(st, keys, Probe(hash(k), t, |st|), k);
    }
  }

  /** So does a walk that has met no match in n probes. */
  lemma MissEverywhere<K>(st: seq<Status>, keys: seq<K>, loc: map<K, nat>, hash: K -> Hash, k: K, s: nat)
    requires TableOk(st, keys, loc, hash) && s >= |st|
    requires forall t: nat :: t < s ==> !Matches(st, keys, Probe(hash(k), t, |st|), k)
    ensures k !in loc
  {
    if k in loc {
      var t := StepTo(hash(k), loc[k], |st|);
      assert Matches(st, keys, Probe(hash(k), t, |st|), k);
    }
  }

  // ---------------------------------------------------------------------------
  // Changing one bucket

  /** The table stores part of the map m, values included. */
  ghost predicate Holds<K, V>(st: seq<Status>, keys: seq<K>, vals: seq<V>, loc: map<K, nat>, m: map<K, V>) {
    && Placed(st, keys, loc)
    && |st| <= |vals|
    && forall k {:trigger k in loc} :: k in loc ==> k in m && vals[loc[k]] == m[k]
  }

  lemma RemoveBucket<K, V>(st: seq<Status>, keys: seq<K>, vals: seq<V>, loc: map<K, nat>, m: map<K, V>, i: nat)
    requires Holds(st, keys, vals, loc, m) && i < |st| && st[i].Live?
    ensures Holds(st[i := Deleted], keys, vals, loc - {keys[i]}, m)
  {
  }

  lemma OverwriteBucket<K, V>(st: seq<Status>, keys: seq<K>, vals: seq<V>, loc: map<K, nat>, m: map<K, V>,
                              i: nat, k: K, v: V)
    requires Holds(st, keys, vals, loc, m) && i < |keys| && i < |vals|
    requires i >= |st| || !st[i].Live?
    ensures Holds(st, keys[i := k], vals[i := v], loc, m)
  {
  }

  lemma InsertBucket<K, V>(st: seq<Status>, keys: seq<K>, vals: seq<V>, loc: map<K, nat>, m: map<K, V>,
                           i: nat, k: K, v: V)
    requires Holds(st, keys, vals, loc, m) && i < |st| && !st[i].Live?
    requires k !in loc && k in m && m[k] == v
    ensures Holds(st[i := Live], keys[i := k], vals[i := v], loc[k := i], m)
  {
  }

  /** Filling buckets never breaks a probe path. */
  lemma ReachesMore(st: seq<Status>, st': seq<Status>, h: nat, i: nat)
    requires IsCapacity(|st|) && |st'| == |st| && i < |st| && Reaches(st, h, i)
    requires forall j: nat :: j < |st| && st'[j].Empty? ==> st[j].Empty?
    ensures Reaches(st', h, i)
  {
  }

  lemma AllReachMore<K>(st: seq<Status>, st': seq<Status>, loc: map<K, nat>, hash: K -> Hash)
    requires IsCapacity(|st|) && |st'| == |st| && AllReach(st, loc, hash)
    requires forall j: nat :: j < |st| && st'[j].Empty? ==> st[j].Empty?
    ensures AllReach(st', loc, hash)
  {
    forall k | k in loc
      ensures Reaches(st', hash(k), loc[k])
    {
      ReachesMore(st, st', hash(k), loc[k]);
    }
  }

  lemma InsertReach<K>(st: seq<Status>, loc: map<K, nat>, hash: K -> Hash, i: nat, k: K)
    requires IsCapacity(|st|) && AllReach(st, loc, hash) && i < |st| && Reaches(st, hash(k), i)
    ensures AllReach(st[i := Live], loc[k := i], hash)
  {
    AllReachMore(st, st[i := Live], loc, hash);
    ReachesMore(st, st[i := Live], hash(k), i);
  }

  /** A walk that has met no empty bucket reaches everything it has seen, and where it stands. */
  lemma WalkReaches(st: seq<Status>, h: nat, s: nat, steps: nat)
    requires IsCapacity(|st|) && s <= steps
    requires forall t: nat :: t < steps ==> !st[Probe(h, t, |st|)].Empty?
    ensures StepTo(h, Probe(h, s, |st|), |st|) <= s
    ensures Reaches(st, h, Probe(h, s, |st|))
  {
    if s < |st| {
      StepToProbe(h, s, |st|);
    }
  }

  // ---------------------------------------------------------------------------
  // Choosing the bucket for a key

  /** Bucket x is where kh_put may leave key k: its own bucket if it is stored, otherwise a free
      bucket its walk reaches, and an empty one only if the walk passes no tombstone. */
  ghost predicate SlotFor<K>(st: seq<Status>, loc: map<K, nat>, h: nat, k: K, x: nat)
    requires IsCapacity(|st|)
  {
    && x < |st|
    && (k in loc ==> x == loc[k])
    && (k !in loc ==>
          && !st[x].Live?
          && Reaches(st, h, x)
          && (st[x].Empty? ==> forall t: nat :: t < StepTo(h, x, |st|) ==> st[Probe(h, t, |st|)].Live?))
  }

  /** The first `step` probes met neither an empty bucket nor the key; `site` is the last tombstone
      among them, or n if there was none. */
  ghost predicate Walked<K>(st: seq<Status>, keys: seq<K>, h: nat, k: K, step: nat, site: nat, siteStep: nat)
    requires IsCapacity(|st|) && |st| <= |keys|
  {
    && (forall t: nat :: t < step ==>
          !st[Probe(h, t, |st|)].Empty? && !Matches(st, keys, Probe(h, t, |st|), k))
    && (site == |st| ==> forall t: nat :: t < step ==> st[Probe(h, t, |st|)].Live?)
    && (site != |st| ==> siteStep < step && site == Probe(h, siteStep, |st|) && st[site].Deleted?)
    && (site != |st| ==> forall t: nat :: siteStep < t < step ==> !st[Probe(h, t, |st|)].Deleted?)
  }

  /** Tombstone x is met at step s of the walk, and is the last one before step e, at which the walk ends: at an
      empty bucket, the first it meets, or back home after 2n - 1 steps. */
  ghost predicate LastTombstone(st: seq<Status>, h: nat, x: nat, s: nat, e: nat)
    requires IsCapacity(|st|)
  {
    && s < e <= 2 * |st| - 1 && x == Probe(h, s, |st|) && st[x].Deleted?
    && (forall t: nat :: s < t < e ==> !st[Probe(h, t, |st|)].Deleted?)
    && (forall t: nat :: t < e ==> !st[Probe(h, t, |st|)].Empty?)
    && (e == 2 * |st| - 1 || st[Probe(h, e, |st|)].Empty?)
  }

  /** A tombstone is reused only if it is that one. */
  ghost predicate ReusesLast<K>(st: seq<Status>, loc: map<K, nat>, h: nat, k: K, x: nat)
    requires IsCapacity(|st|) && x < |st|
  {
    k !in loc && st[x].Deleted? ==> exists s: nat, e: nat :: LastTombstone(st, h, x, s, e)
  }

  lemma SlotAtEmpty<K>(st: seq<Status>, keys: seq<K>, loc: map<K, nat>, hash: K -> Hash, k: K,
                       step: nat, site: nat, siteStep: nat)
    requires TableOk(st, keys, loc, hash) && Walked(st, keys, hash(k), k, step, site, siteStep)
    requires st[Probe(hash(k), step, |st|)].Empty? && step < 2 * |st|
    ensures var x := if site != |st| then site else Probe(hash(k), step, |st|);
      SlotFor(st, loc, hash(k), k, x) && ReusesLast(st, loc, hash(k), k, x)
  {
    MissAtEmpty(st, keys, loc, hash, k, step);
    if site != |st| {
      assert LastTombstone(st, hash(k), site, siteStep, step);
      WalkReaches(st, hash(k), siteStep, step);
    } else {
      WalkReaches(st, hash(k), step, step);
    }
  }

  lemma SlotAtMatch<K>(st: seq<Status>, keys: seq<K>, loc: map<K, nat>, hash: K -> Hash, k: K, x: nat)
    requires TableOk(st, keys, loc, hash) && x < |st| && Matches(st, keys, x, k)
    ensures SlotFor(st, loc, hash(k), k, x) && ReusesLast(st, loc, hash(k), k, x)
  {
  }

  /** Coming back to the start without a match: if any bucket is free it was a tombstone. */
  lemma SlotAtLast<K>(st: seq<Status>, keys: seq<K>, loc: map<K, nat>, hash: K -> Hash, k: K,
                      step: nat, site: nat, siteStep: nat)
    requires TableOk(st, keys, loc, hash) && Walked(st, keys, hash(k), k, step, site, siteStep)
    requires step == 2 * |st| - 1 && exists i: nat :: i < |st| && !st[i].Live?
    ensures site != |st| && SlotFor(st, loc, hash(k), k, site) && ReusesLast(st, loc, hash(k), k, site)
  {
    MissEverywhere(st, keys, loc, hash, k, step);
    var i: nat :| i < |st| && !st[i].Live?;
    assert !st[Probe(hash(k), StepTo(hash(k), i, |st|), |st|)].Live?;
    WalkReaches(st, hash(k), siteStep, step);
    assert LastTombstone(st, hash(k), site, siteStep, step);
  }

  // ---------------------------------------------------------------------------
  // The entries

  /** The entries of the table: each stored key with the value in its bucket. */
  ghost function Entries<K, V>(loc: map<K, nat>, vals: seq<V>): map<K, V>
    requires forall k :: k in loc ==> loc[k] < |vals|
  {
    map k | k in loc :: vals[loc[k]]
  }

  lemma DeleteEntry<K, V>(st: seq<Status>, keys: seq<K>, vals: seq<V>, loc: map<K, nat>, hash: K -> Hash, i: nat)
    requires TableOk(st, keys, loc, hash) && |st| <= |vals| && i < |st| && st[i].Live?
    ensures TableOk(st[i := Deleted], keys, loc - {keys[i]}, hash)
    ensures |loc - {keys[i]}| == |loc| - 1
    ensures |Occupied(st[i := Deleted])| == |Occupied(st)|
    ensures Entries(loc - {keys[i]}, vals) == Entries(loc, vals) - {keys[i]}
  {
    var loc' := loc - {keys[i]};
    OccupiedUpdate(st, i, Deleted);
    AllReachMore(st, st[i := Deleted], loc, hash);
    assert loc.Keys == loc'.Keys + {keys[i]};
  }

  lemma InsertPlaced<K>(st: seq<Status>, keys: seq<K>, loc: map<K, nat>, i: nat, k: K)
    requires Placed(st, keys, loc) && k !in loc && i < |st| && !st[i].Live?
    ensures Placed(st[i := Live], keys[i := k], loc[k := i])
  {
  }

  lemma EntriesInsert<K, V>(loc: map<K, nat>, vals: seq<V>, i: nat, k: K)
    requires k !in loc && i < |vals| && forall j :: j in loc ==> loc[j] < |vals|
    ensures |loc[k := i]| == |loc| + 1
    ensures Entries(loc[k := i], vals) == Entries(loc, vals)[k := vals[i]]
  {
    assert loc[k := i].Keys == loc.Keys + {k};
  }

  lemma InsertEntry<K, V>(st: seq<Status>, keys: seq<K>, vals: seq<V>, loc: map<K, nat>, hash: K -> Hash,
                          i: nat, k: K)
    requires TableOk(st, keys, loc, hash) && |st| <= |vals| && k !in loc
    requires i < |st| && !st[i].Live? && Reaches(st, hash(k), i)
    ensures TableOk(st[i := Live], keys[i := k], loc[k := i], hash)
    ensures |loc[k := i]| == |loc| + 1
    ensures |Occupied(st[i := Live])| == |Occupied(st)| + (if st[i].Empty? then 1 else 0)
    ensures Entries(loc[k := i], vals) == Entries(loc, vals)[k := vals[i]]
  {
    InsertPlaced(st, keys, loc, i, k);
    InsertReach(st, loc, hash, i, k);
    OccupiedUpdate(st, i, Live);
    EntriesInsert(loc, vals, i, k);
  }
}
