/** The khash.h hash table: flag words, keys and values in three arrays that are rehashed in place.
    Whatever the hash function, it behaves as a finite map. */
module KHash {
  import opened Bits
  import opened Basics
  import opened Probing
  import opened Flags
  import opened Capacity
  import opened Buckets
  import opened Rehash

  /** Which of the allocations made by one kh_resize succeed, in program order. */
  datatype Allocator = Allocator(flags: bool, keys: bool, vals: bool, shrinkKeys: bool, shrinkVals: bool)

  /** `realloc` to n elements: the common prefix is kept. */
  method Realloc<T(0)>(a: array<T>, n: nat) returns (b: array<T>)
    ensures fresh(b) && b.Length == n
    ensures forall i: nat :: i < n && i < a.Length ==> b[i] == a[i]
  {
    b := new T[n];
    var i: nat := 0;
    while i < n && i < a.Length
      invariant i <= n
      invariant forall j: nat :: j < i && j < a.Length ==> b[j] == a[j]
    {
      b[i] := a[i];
      i := i + 1;
    }
  }

  /** Exchange bucket i of the two arrays with the given key and value. */
  method Exchange<K, V>(keys: array<K>, vals: array<V>, i: nat, k: K, v: V) returns (k': K, v': V)
    requires i < keys.Length && i < vals.Length && keys as object != vals
    modifies keys, vals
    ensures keys[..] == old(keys[..])[i := k] && vals[..] == old(vals[..])[i := v]
    ensures k' == old(keys[i]) && v' == old(vals[i])
  {
    k', keys[i] := keys[i], k;
    v', vals[i] := vals[i], v;
  }

  class KHash<K(==, 0), V(0)> {
    const hash: K -> Hash

    var nBuckets: nat
    var size: nat
    var nOccupied: nat
    var upperBound: nat
    var flags: array<Word>
    var keys: array<K>
    var vals: array<V>

    /** What the flag words mean, and where each stored key lives. */
    ghost var st: seq<Status>
    ghost var loc: map<K, nat>

    ghost predicate Separate()
      reads this
    {
      flags as object != keys && flags as object != vals && keys as object != vals
    }

    /** The table is whole, whatever its load. */
    ghost predicate Sound()
      reads this, flags, keys, vals
    {
      && Separate()
      && |st| == nBuckets
      && size == |loc|
      && nOccupied == |Occupied(st)|
      && nBuckets <= vals.Length
      && Placed(st, keys[..], loc)
      && Represents(flags[..], st)
      && (if nBuckets == 0 then upperBound == 0 && flags.Length == 0 && loc == map[]
          else
            && 4 <= nBuckets
            && TableOk(st, keys[..], loc, hash)
            && flags.Length == FSize(nBuckets)
            && upperBound == ComputeSize(nBuckets) < nBuckets)
    }

    /** The load is within its limit as well, so that there is always an empty bucket. */
    ghost predicate Valid()
      reads this, flags, keys, vals
    {
      Sound() && nOccupied <= upperBound
    }

    ghost function Contents(): map<K, V>
      requires Sound()
      reads this, flags, keys, vals
    {
      Entries(loc, vals[..])
    }

    /** kh_init: everything zero, no arrays yet. */
    constructor (hash: K -> Hash)
      ensures Valid() && Contents() == map[] && this.hash == hash
      ensures fresh(flags) && fresh(keys) && fresh(vals)
    {
      this.hash := hash;
      nBuckets, size, nOccupied, upperBound := 0, 0, 0, 0;
      flags := new Word[0];
      keys := new K[0];
      vals := new V[0];
      st, loc := [], map[];
      new;
      assert Occupied(st) == {};
    }

    /** kh_clear: forget every entry, keep the arrays. */
    method Clear()
      requires Valid()
      modifies this, flags
      ensures Valid() && Contents() == map[]
      ensures flags == old(flags) && keys == old(keys) && vals == old(vals) && nBuckets == old(nBuckets)
      ensures nBuckets > 0 ==> nOccupied == 0
    {
      if flags.Length != 0 {
        ghost var n := nBuckets;
        FillEmpty(flags, n);
        st, loc := AllEmpty(n), map[];
        size, nOccupied := 0, 0;
        assert Occupied(st) == {};
      }
    }

    /** The condition of both probe loops: bucket i is neither empty nor the key's. */
    method Passes(i: nat, key: K) returns (pass: bool, deleted: bool)
      requires i < nBuckets == |st| <= keys.Length && Represents(flags[..], st)
      ensures deleted <==> st[i].Deleted?
      ensures pass <==> !st[i].Empty? && !Matches(st, keys[..], i, key)
    {
      var empty := IsEmpty(flags, st, i);
      deleted := IsDel(flags, st, i);
      pass := !empty && (deleted || keys[i] != key);
    }

    /** The search of kh_get. */
    method Lookup(key: K) returns (x: nat)
      requires |st| == nBuckets && Represents(flags[..], st)
      requires TableOk(st, keys[..], loc, hash)
      ensures x == if key in loc then loc[key] else nBuckets
    {
      var h := hash(key);
      var step := 0;
      var i := BitAnd(h, nBuckets - 1);
      HomeIsProbe(h, nBuckets);
      var last := i;
      var pass, deleted := Passes(i, key);
      while pass
        invariant step < 2 * nBuckets - 1 && i == Probe(h, step, nBuckets)
        invariant pass <==> !st[i].Empty? && !Matches(st, keys[..], i, key)
        invariant forall t: nat :: t < step ==> !Matches(st, keys[..], Probe(h, t, nBuckets), key)
        decreases 2 * nBuckets - step
      {
        NextProbeIsProbe(h, step, nBuckets);
        step := step + 1;
        i := NextProbe(i, step, nBuckets);
        FirstReturn(h, step, nBuckets);
        if i == last {
          MissEverywhere(st, keys[..], loc, hash, key, step);
          return nBuckets;
        }
        pass, deleted := Passes(i, key);
      }
      if st[i].Empty? {
        MissAtEmpty(st, keys[..], loc, hash, key, step);
      }
      var either := IsEither(flags, st, i);
      return if either then nBuckets else i;
    }

    /** kh_get: the bucket of the key, or n_buckets when it is absent. */
    method Get(key: K) returns (x: nat)
      requires Sound()
      ensures key in Contents() ==> x < nBuckets && Holding(x) && keys[x] == key && Contents()[key] == vals[x]
      ensures key !in Contents() ==> x == nBuckets
    {
      if nBuckets == 0 {
        return 0;
      }
      x := Lookup(key);
    }

    /** The search of kh_put: the bucket of the key, or the bucket to put it in. */
    method FindSlot(key: K) returns (x: nat)
      requires |st| == nBuckets && Represents(flags[..], st)
      requires TableOk(st, keys[..], loc, hash)
      requires exists i: nat :: i < nBuckets && !st[i].Live?
      ensures SlotFor(st, loc, hash(key), key, x) && ReusesLast(st, loc, hash(key), key, x)
    {
      var h := hash(key);
      x := nBuckets;
      var i := BitAnd(h, nBuckets - 1);
      HomeIsProbe(h, nBuckets);
      var empty := IsEmpty(flags, st, i);
      if empty {
        x := i;
        SlotAtEmpty(st, keys[..], loc, hash, key, 0, nBuckets, 0);
      } else {
        x := WalkToSlot(key, h, i);
      }
    }

    /** The loop of kh_put and the choice between the tombstone it saw and where it stopped. */
    method WalkToSlot(key: K, h: Hash, home: nat) returns (x: nat)
      requires |st| == nBuckets && Represents(flags[..], st)
      requires TableOk(st, keys[..], loc, hash)
      requires exists i: nat :: i < nBuckets && !st[i].Live?
      requires h == hash(key) && home == Probe(h, 0, nBuckets)
      ensures SlotFor(st, loc, h, key, x) && ReusesLast(st, loc, h, key, x)
    {
      var step := 0;
      x := nBuckets;
      var site := nBuckets;
      ghost var siteStep := 0;
      var i := home;
      var last := home;
      var pass, deleted := Passes(i, key);
      while pass
        invariant step < 2 * nBuckets - 1 && x == nBuckets && i == Probe(h, step, nBuckets)
        invariant deleted <==> st[i].Deleted?
        invariant pass <==> !st[i].Empty? && !Matches(st, keys[..], i, key)
        invariant Walked(st, keys[..], h, key, step, site, siteStep)
        decreases 2 * nBuckets - step
      {
        if deleted {
          site, siteStep := i, step;
        }
        NextProbeIsProbe(h, step, nBuckets);
        step := step + 1;
        i := NextProbe(i, step, nBuckets);
        FirstReturn(h, step, nBuckets);
        if i == last {
          SlotAtLast(st, keys[..], loc, hash, key, step, site, siteStep);
          x := site;
          break;
        }
        pass, deleted := Passes(i, key);
      }
      if x == nBuckets {
        var empty := IsEmpty(flags, st, i);
        if empty {
          SlotAtEmpty(st, keys[..], loc, hash, key, step, site, siteStep);
        } else {
          SlotAtMatch(st, keys[..], loc, hash, key, i);
        }
        if empty && site != nBuckets {
          x := site;
        } else {
          x := i;
        }
      }
    }

    /** Bucket x holds an entry. */
    ghost predicate Holding(x: nat)
      reads this, keys
    {
      x < keys.Length && keys[x] in loc && loc[keys[x]] == x
    }

    /** kh_del: drop the entry in bucket x, if x is a bucket and holds one.  A number past the buckets must
        not lead past the flag words; within them it reads as an empty bucket. */
    method Del(x: nat)
      requires Sound() && (x <= nBuckets || x / 16 < flags.Length)
      modifies this, flags
      ensures Sound() && (old(Valid()) ==> Valid())
      ensures flags == old(flags) && keys == old(keys) && vals == old(vals) && nBuckets == old(nBuckets)
      ensures loc == if old(Holding(x)) then old(loc) - {keys[x]} else old(loc)
      ensures Contents() == if old(Holding(x)) then old(Contents()) - {keys[x]} else old(Contents())
    {
      if x == nBuckets {
        return;
      }
      var either := IsEither(flags, st, x);
      if either {
        return;
      }
      DeleteEntry(st, keys[..], vals[..], loc, hash, x);
      SetIsDelTrue(flags, st, x);
      size := size - 1;
      st, loc := st[x := Deleted], loc - {keys[x]};
    }

    /** `kh_val(h, x) = v` for a bucket that holds an entry. */
    method SetVal(x: nat, v: V)
      requires Sound() && Holding(x)
      modifies vals
      ensures Sound() && (Valid() <==> old(Valid())) && Contents() == old(Contents())[keys[x] := v]
    {
      vals[x] := v;
    }

    /** The part of kh_put after the search: write the key if its bucket does not hold it yet. */
    method WriteSlot(key: K, x: nat) returns (ret: int)
      requires Sound() && nBuckets > 0
      requires SlotFor(st, loc, hash(key), key, x)
      modifies this, flags, keys
      ensures Sound() && upperBound == old(upperBound)
      ensures flags == old(flags) && keys == old(keys) && vals == old(vals) && nBuckets == old(nBuckets)
      ensures x < nBuckets && Holding(x) && keys[x] == key
      ensures ret == if key in old(loc) then 0 else if old(st)[x].Empty? then 1 else 2
      ensures Contents() == if key in old(loc) then old(Contents()) else old(Contents())[key := vals[x]]
      ensures nOccupied == old(nOccupied) + (if ret == 1 then 1 else 0)
      ensures ret == 2 ==> old(size) < old(nOccupied)
    {
      var empty := IsEmpty(flags, st, x);
      var deleted := IsDel(flags, st, x);
      if empty {
        WriteEmpty(key, x);
        ret := 1;
      } else if deleted {
        WriteDeleted(key, x);
        ret := 2;
      } else {
        ret := 0;
      }
    }

    method WriteEmpty(key: K, x: nat)
      requires Sound() && x < nBuckets && st[x].Empty?
      requires key !in loc && Reaches(st, hash(key), x)
      modifies this, flags, keys
      ensures Sound() && upperBound == old(upperBound)
      ensures flags == old(flags) && keys == old(keys) && vals == old(vals) && nBuckets == old(nBuckets)
      ensures Holding(x) && keys[x] == key && Contents() == old(Contents())[key := vals[x]]
      ensures nOccupied == old(nOccupied) + 1
    {
      InsertEntry(st, keys[..], vals[..], loc, hash, x, key);
      keys[x] := key;
      SetIsBothFalse(flags, st, x);
      size, nOccupied := size + 1, nOccupied + 1;
      st, loc := st[x := Live], loc[key := x];
    }

    method WriteDeleted(key: K, x: nat)
      requires Sound() && x < nBuckets && st[x].Deleted?
      requires key !in loc && Reaches(st, hash(key), x)
      modifies this, flags, keys
      ensures Sound() && upperBound == old(upperBound)
      ensures flags == old(flags) && keys == old(keys) && vals == old(vals) && nBuckets == old(nBuckets)
      ensures Holding(x) && keys[x] == key && Contents() == old(Contents())[key := vals[x]]
      ensures nOccupied == old(nOccupied) && old(size) < old(nOccupied)
    {
      LiveCount(st, keys[..], loc);
      TombstoneCount(st, x);
      InsertEntry(st, keys[..], vals[..], loc, hash, x, key);
      keys[x] := key;
      SetIsBothFalse(flags, st, x);
      size := size + 1;
      st, loc := st[x := Live], loc[key := x];
    }

    // -------------------------------------------------------------------------
    // kh_resize

    /** The arrays are at stage s of the rehash: old flags, new flags, shared keys and values. */
    ghost predicate Shows(s: Stage<K, V>, newFlags: array<Word>)
      reads this, flags, keys, vals, newFlags
    {
      && Separate()
      && newFlags as object != keys && newFlags as object != vals && newFlags != flags
      && |s.stOld| == nBuckets
      && Represents(flags[..], s.stOld)
      && Represents(newFlags[..], s.stNew)
      && keys[..] == s.keys
      && vals[..] == s.vals
    }

    /** The search of the rehash: no test for coming round, so it needs an empty bucket to stop. */
    method FindEmpty(newFlags: array<Word>, ghost stNew: seq<Status>, h: Hash, n: nat) returns (i: nat)
      requires Represents(newFlags[..], stNew) && |stNew| == n && IsCapacity(n)
      requires exists e: nat :: e < n && stNew[e].Empty?
      ensures i < n && stNew[i].Empty? && Reaches(stNew, h, i)
    {
      ghost var e: nat :| e < n && stNew[e].Empty?;
      var step := 0;
      i := BitAnd(h, n - 1);
      HomeIsProbe(h, n);
      while true
        invariant i == Probe(h, step, n) && step <= StepTo(h, e, n)
        invariant forall t: nat :: t < step ==> !stNew[Probe(h, t, n)].Empty?
        decreases StepTo(h, e, n) - step
      {
        var empty := IsEmpty(newFlags, stNew, i);
        if empty {
          break;
        }
        NextProbeIsProbe(h, step, n);
        step := step + 1;
        i := NextProbe(i, step, n);
      }
      WalkReaches(stNew, h, step, step);
    }

    /** Place the carried entry on an old live bucket and lift out what was there. */
    method SwapWith(i: nat, key: K, val: V, newFlags: array<Word>, ghost s: Stage<K, V>) returns (key': K, val': V)
      requires Shows(s, newFlags)
      requires i < |s.stNew| <= keys.Length && |s.stNew| <= vals.Length && s.stNew[i].Empty?
      requires i < nBuckets && s.stOld[i].Live?
      modifies flags, keys, vals, newFlags
      ensures Shows(Written(Lifted(s, i), i, key, val), newFlags)
      ensures key' == s.keys[i] && val' == s.vals[i]
    {
      SetIsEmptyFalse(newFlags, s.stNew, i);
      SetIsDelTrue(flags, s.stOld, i);
      key', val' := Exchange(keys, vals, i, key, val);
    }

    /** Place the carried entry on a bucket that no old entry lives in. */
    method Settle(i: nat, key: K, val: V, newFlags: array<Word>, ghost s: Stage<K, V>)
      requires Shows(s, newFlags)
      requires i < |s.stNew| <= keys.Length && |s.stNew| <= vals.Length && s.stNew[i].Empty?
      modifies keys, vals, newFlags
      ensures Shows(Written(s, i, key, val), newFlags)
    {
      SetIsEmptyFalse(newFlags, s.stNew, i);
      var _, _ := Exchange(keys, vals, i, key, val);
    }

    /** One round of the kick-out loop: place the carried entry, perhaps lifting out another. */
    method PlaceCarried(key: K, val: V, newFlags: array<Word>, n: nat, ghost s: Stage<K, V>, ghost m: map<K, V>)
      returns (kicked: bool, key': K, val': V, ghost s': Stage<K, V>)
      requires Shows(s, newFlags) && Split(s, hash, m, {key}) && |s.stNew| == n && m[key] == val
      modifies flags, keys, vals, newFlags
      ensures Shows(s', newFlags) && Split(s', hash, m, if kicked then {key'} else {}) && |s'.stNew| == n
      ensures kicked ==> key' in m && m[key'] == val' && |s'.locOld| == |s.locOld| - 1
      ensures LiveSet(s'.stOld) <= LiveSet(s.stOld)
    {
      SplitSizes(s, hash, m, {key});
      var i := FindEmpty(newFlags, s.stNew, hash(key), n);
      kicked := i < nBuckets;
      if kicked {
        var either := IsEither(flags, s.stOld, i);
        kicked := !either;
      }
      key', val' := key, val;
      if kicked {
        KickOut(s, hash, m, i, key, val);
        LiftedLive(s, i);
        key', val' := SwapWith(i, key, val, newFlags, s);
        s' := Written(Lifted(s, i), i, key, val);
      } else {
        PutDown(s, hash, m, i, key, val);
        Settle(i, key, val, newFlags, s);
        s' := Written(s, i, key, val);
      }
    }

    /** Take the entry out of old bucket j. */
    method LiftOut(j: nat, newFlags: array<Word>, ghost s: Stage<K, V>, ghost m: map<K, V>) returns (key: K, val: V)
      requires Shows(s, newFlags) && Split(s, hash, m, {})
      requires j < nBuckets && s.stOld[j].Live?
      modifies flags
      ensures Shows(Lifted(s, j), newFlags) && Split(Lifted(s, j), hash, m, {key})
      ensures key in m && m[key] == val
    {
      PickUp(s, hash, m, j);
      key, val := keys[j], vals[j];
      SetIsDelTrue(flags, s.stOld, j);
    }

    /** Move the entry of old bucket j to its new place, and every entry that displaces. */
    method MoveEntry(j: nat, newFlags: array<Word>, n: nat, ghost s: Stage<K, V>, ghost m: map<K, V>)
      returns (ghost s': Stage<K, V>)
      requires Shows(s, newFlags) && Split(s, hash, m, {}) && |s.stNew| == n
      requires j < nBuckets && s.stOld[j].Live?
      modifies flags, keys, vals, newFlags
      ensures Shows(s', newFlags) && Split(s', hash, m, {}) && |s'.stNew| == n
      ensures LiveSet(s'.stOld) <= LiveSet(s.stOld) - {j}
    {
      LiftedLive(s, j);
      var key, val := LiftOut(j, newFlags, s, m);
      s' := Lifted(s, j);
      var carrying := true;
      while carrying
        invariant Shows(s', newFlags) && Split(s', hash, m, if carrying then {key} else {}) && |s'.stNew| == n
        invariant carrying ==> key in m && m[key] == val
        invariant LiveSet(s'.stOld) <= LiveSet(s.stOld) - {j}
        decreases carrying, |s'.locOld|
      {
        carrying, key, val, s' := PlaceCarried(key, val, newFlags, n, s', m);
      }
    }

    /** One turn of the rehash loop: old bucket j is not live afterwards. */
    method MoveIfLive(j: nat, newFlags: array<Word>, n: nat, ghost s: Stage<K, V>, ghost m: map<K, V>)
      returns (ghost s': Stage<K, V>)
      requires Shows(s, newFlags) && Split(s, hash, m, {}) && |s.stNew| == n && j < nBuckets
      modifies flags, keys, vals, newFlags
      ensures Shows(s', newFlags) && Split(s', hash, m, {}) && |s'.stNew| == n
      ensures LiveSet(s'.stOld) <= LiveSet(s.stOld) - {j}
    {
      s' := s;
      var either := IsEither(flags, s.stOld, j);
      if !either {
        s' := MoveEntry(j, newFlags, n, s, m);
      }
    }

    /** The whole rehash loop: afterwards the new flags hold every entry and the old ones none. */
    method MoveAll(newFlags: array<Word>, n: nat, ghost s: Stage<K, V>, ghost m: map<K, V>)
      returns (ghost s': Stage<K, V>)
      requires Shows(s, newFlags) && Split(s, hash, m, {}) && |s.stNew| == n
      modifies flags, keys, vals, newFlags
      ensures Shows(s', newFlags) && Split(s', hash, m, {}) && |s'.stNew| == n
      ensures LiveSet(s'.stOld) !! Below(nBuckets)
    {
      s' := s;
      var j: nat := 0;
      while j != nBuckets
        invariant j <= nBuckets
        invariant Shows(s', newFlags) && Split(s', hash, m, {}) && |s'.stNew| == n
        invariant LiveSet(s'.stOld) !! Below(j)
      {
        ghost var live := LiveSet(s'.stOld);
        s' := MoveIfLive(j, newFlags, n, s', m);
        BelowMore(LiveSet(s'.stOld), live, j);
        j := j + 1;
      }
    }

    /** A resize to capacity n rehashes: the entries fit under its load limit. */
    ghost predicate Rehashes(n: nat)
      reads this
    {
      size < ComputeSize(n)
    }

    /** One of the allocations such a resize makes before it touches the table fails. */
    ghost predicate Starved(n: nat, alloc: Allocator)
      reads this
    {
      !alloc.flags || (nBuckets < n && (!alloc.keys || !alloc.vals))
    }

    /** The array of the old keys or values is given back in part, and that realloc fails. */
    ghost predicate ShrinkFails(n: nat, alloc: Allocator)
      reads this
    {
      nBuckets > n && (!alloc.shrinkKeys || !alloc.shrinkVals)
    }

    /** Every array is the one it was or a new one. */
    twostate predicate OwnArrays()
      reads this
    {
      && (flags == old(flags) || fresh(flags))
      && (keys == old(keys) || fresh(keys))
      && (vals == old(vals) || fresh(vals))
    }

    /** The growing reallocs: the key array is replaced even if the value array then cannot be. */
    method Grow(n: nat, alloc: Allocator) returns (ok: bool)
      requires Valid() && nBuckets < n
      modifies this`keys, this`vals
      ensures Valid() && OwnArrays() && Contents() == old(Contents())
      ensures ok <==> alloc.keys && alloc.vals
      ensures ok ==> n <= keys.Length && n <= vals.Length
    {
      if !alloc.keys {
        return false;
      }
      keys := Realloc(keys, n);
      if !alloc.vals {
        return false;
      }
      vals := Realloc(vals, n);
      return true;
    }

    /** Everything kh_resize allocates before it rehashes. */
    method Prepare(n: nat, alloc: Allocator) returns (ok: bool, newFlags: array<Word>)
      requires Valid() && FSize(n) * 16 >= n
      modifies this`keys, this`vals
      ensures Valid() && OwnArrays() && Contents() == old(Contents())
      ensures ok <==> !Starved(n, alloc)
      ensures ok ==> fresh(newFlags) && newFlags as object != keys && newFlags as object != vals
      ensures ok ==> newFlags.Length == FSize(n) && Represents(newFlags[..], AllEmpty(n))
      ensures ok ==> n <= keys.Length && n <= vals.Length
    {
      if !alloc.flags {
        return false, flags;
      }
      newFlags := new Word[FSize(n)];
      FillEmpty(newFlags, n);
      ok := true;
      if nBuckets < n {
        ok := Grow(n, alloc);
      }
    }

    /** The rehash of a table at its first stage ends with exactly its entries under the new flags. */
    method RehashFrom(newFlags: array<Word>, n: nat, ghost s: Stage<K, V>) returns (ghost s': Stage<K, V>)
      requires Shows(s, newFlags) && Placed(s.stOld, s.keys, s.locOld) && |s.stOld| <= |s.vals|
      requires IsCapacity(n) && s.stNew == AllEmpty(n) && s.locNew == map[]
      requires n <= keys.Length && n <= vals.Length && |s.locOld| < n
      modifies flags, keys, vals, newFlags
      ensures Shows(s', newFlags) && |s'.stNew| == n
      ensures TableOk(s'.stNew, s'.keys, s'.locNew, hash)
      ensures Entries(s'.locNew, s'.vals) == Entries(s.locOld, s.vals)
      ensures |Occupied(s'.stNew)| == |s'.locNew| == |s.locOld|
    {
      ghost var m := Entries(s.locOld, s.vals);
      assert m.Keys == s.locOld.Keys;
      assert |m.Keys| == |s.locOld.Keys|;
      Started(s, hash);
      s' := MoveAll(newFlags, n, s, m);
      NoneLive(s'.stOld);
      Finished(s', hash, m);
    }

    /** The rehash, once the memory is there, and the switch to the new flags. */
    method RehashInto(newFlags: array<Word>, n: nat)
      requires Shows(Stage(st, AllEmpty(n), keys[..], vals[..], loc, map[]), newFlags)
      requires Placed(st, keys[..], loc) && nBuckets <= vals.Length && size == |loc|
      requires n <= keys.Length && n <= vals.Length && newFlags.Length == FSize(n)
      requires IsCapacity(n) && 4 <= n && size < ComputeSize(n) < n
      modifies this, flags, keys, vals, newFlags
      ensures Valid() && Contents() == Entries(old(loc), old(vals[..]))
      ensures nBuckets == n && nOccupied == size == old(size)
      ensures flags == newFlags && keys == old(keys) && vals == old(vals)
    {
      ghost var s := Stage(st, AllEmpty(n), keys[..], vals[..], loc, map[]);
      s := RehashFrom(newFlags, n, s);
      flags := newFlags;
      nBuckets := n;
      nOccupied := size;
      upperBound := ComputeSize(n);
      st, loc := s.stNew, s.locNew;
    }

    /** kh_resize once the requested size is rounded to capacity n. */
    method ResizeTo(n: nat, alloc: Allocator) returns (r: int)
      requires Valid() && IsCapacity(n) && 4 <= n && ComputeSize(n) < n && FSize(n) * 16 >= n
      modifies this, flags, keys, vals
      ensures OwnArrays()
      ensures r == if old(Rehashes(n) && Starved(n, alloc)) then -1 else 0
      ensures nBuckets == if old(Rehashes(n) && !Starved(n, alloc)) then n else old(nBuckets)
      ensures size == old(size)
      ensures nOccupied == if old(Rehashes(n) && !Starved(n, alloc)) then size else old(nOccupied)
      ensures Valid() <==> !old(Rehashes(n) && !Starved(n, alloc) && ShrinkFails(n, alloc))
      ensures Valid() ==> Contents() == old(Contents())
    {
      if size >= ComputeSize(n) {
        return 0;
      }
      var ok, newFlags := Prepare(n, alloc);
      if !ok {
        return -1;
      }
      var was := nBuckets;
      RehashInto(newFlags, n);
      ShrinkFrom(was, alloc);
      return 0;
    }

    /** kh_resize.  The table keeps its entries in every case but one: the two allocations that give
        memory back are not checked by the code, and a failure there loses the array. */
    method Resize(newN: nat, alloc: Allocator) returns (r: int)
      requires Valid() && newN < WORD
      modifies this, flags, keys, vals
      ensures OwnArrays()
      ensures r == if old(Rehashes(Target(newN)) && Starved(Target(newN), alloc)) then -1 else 0
      ensures nBuckets ==
        if old(Rehashes(Target(newN)) && !Starved(Target(newN), alloc)) then Target(newN) else old(nBuckets)
      ensures size == old(size)
      ensures nOccupied == if old(Rehashes(Target(newN)) && !Starved(Target(newN), alloc)) then size else old(nOccupied)
      ensures Valid() <==>
        !old(Rehashes(Target(newN)) && !Starved(Target(newN), alloc) && ShrinkFails(Target(newN), alloc))
      ensures Valid() ==> Contents() == old(Contents())
    {
      var n := KRoundUp32(newN);
      if n < 4 {
        n := 4;
      }
      TargetCapacity(newN);
      r := ResizeTo(n, alloc);
    }

    /** The shrinking reallocs, results unchecked: a failure loses the array. */
    method ShrinkFrom(was: nat, alloc: Allocator)
      requires Valid() && 4 <= nBuckets
      modifies this`keys, this`vals
      ensures OwnArrays()
      ensures Valid() <==> was <= nBuckets || (alloc.shrinkKeys && alloc.shrinkVals)
      ensures Valid() ==> Contents() == old(Contents())
    {
      if was > nBuckets {
        if alloc.shrinkKeys {
          keys := Realloc(keys, nBuckets);
        } else {
          keys := new K[0];
        }
        if alloc.shrinkVals {
          vals := Realloc(vals, nBuckets);
        } else {
          vals := new V[0];
        }
      }
    }

    // -------------------------------------------------------------------------
    // kh_put

    /** The capacity kh_put asks for when the load limit is reached. */
    function Wanted(): nat
      reads this
    {
      Target(Request(nBuckets, size))
    }

    /** kh_put can make room: it is below the limit, or the size it asks for takes the entries. */
    ghost predicate HasRoom()
      reads this
    {
      nOccupied < upperBound || Rehashes(Wanted())
    }

    lemma SizeBounds()
      requires Valid()
      ensures size <= nOccupied
    {
      LiveCount(st, keys[..], loc);
      OccupiedBounds(st);
    }

    /** kh_put can make room exactly if it is below the load limit or LeavesRoom says so; it never asks for
        fewer buckets than there are. */
    lemma RoomIff()
      requires Valid()
      ensures HasRoom() <==> nOccupied < upperBound || LeavesRoom(nBuckets, size)
      ensures Wanted() >= nBuckets
    {
      SizeBounds();
      var n, live := nBuckets, size;
      if n == 0 {
        FirstTable();
        DoubleFits(0);
      } else {
        assert IsCapacity(n) && live <= ComputeSize(n);
        RoomExactly(n, live);
      }
    }

    /** The resize at the head of kh_put.  Where there is no room it does nothing, and succeeds. */
    method MakeRoom(alloc: Allocator) returns (r: int)
      requires Valid()
      modifies this, flags, keys, vals
      ensures OwnArrays()
      ensures Valid() && Contents() == old(Contents())
      ensures r == if old(nOccupied >= upperBound && HasRoom() && Starved(Wanted(), alloc)) then -1 else 0
      ensures r == 0 ==> 0 < nBuckets && (nOccupied < upperBound <==> old(HasRoom()))
      ensures nBuckets == if r == 0 && old(nOccupied >= upperBound && HasRoom()) then old(Wanted()) else old(nBuckets)
      ensures nOccupied == if r == 0 && old(nOccupied >= upperBound && HasRoom()) then size else old(nOccupied)
      ensures size == old(size)
    {
      r := 0;
      if nOccupied >= upperBound {
        RoomIff();
        TargetCapacity(Request(nBuckets, size));
        if nBuckets > size * 2 % WORD {
          r := Resize(nBuckets - 1, alloc);
        } else {
          r := Resize(nBuckets + 1, alloc);
        }
      }
    }

    /** kh_put: the bucket that holds the key from now on, and how it came by it: 0 the key was there,
        1 it took an empty bucket, 2 it took a deleted one, -1 there was no memory.  The table passes its
        load limit exactly if there was no room and an empty bucket was taken. */
    method Put(key: K, alloc: Allocator) returns (x: nat, ret: int)
      requires Valid()
      modifies this, flags, keys, vals
      ensures OwnArrays()
      ensures Sound() && (Valid() <==> old(HasRoom()) || ret != 1)
      ensures ret == -1 <==> old(nOccupied >= upperBound && HasRoom() && Starved(Wanted(), alloc))
      ensures ret == -1 ==> x == nBuckets == old(nBuckets) && Contents() == old(Contents())
      ensures ret != -1 ==> x < nBuckets && Holding(x) && keys[x] == key
      ensures ret != -1 ==>
        Contents() == if key in old(Contents()) then old(Contents()) else old(Contents())[key := vals[x]]
      ensures ret == 0 <==> ret != -1 && key in old(Contents())
      ensures ret in {-1, 0, 1, 2}
      ensures nBuckets ==
        if ret != -1 && old(nOccupied >= upperBound && HasRoom()) then old(Wanted()) else old(nBuckets)
      // Only an empty bucket counts towards the load; a resized table has no deleted ones.
      ensures ret == 1 || ret == 2 ==>
        nOccupied == (if old(nOccupied >= upperBound && HasRoom()) then old(size) else old(nOccupied))
          + (if ret == 1 then 1 else 0)
      ensures ret == 2 ==> old(nOccupied < upperBound || !HasRoom())
    {
      var r := MakeRoom(alloc);
      if r < 0 {
        return nBuckets, -1;
      }
      OccupiedBounds(st);
      x := FindSlot(key);
      ret := WriteSlot(key, x);
    }
  }
}
