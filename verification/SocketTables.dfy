/** How the PicoServer uses its khash tables: the look-up-then-act patterns that module PicoClient
    takes as steps on maps, and the one place where they differ. */
module SocketTables {
  import opened Bits
  import opened Probing
  import opened Flags
  import opened Capacity
  import opened Buckets
  import opened Rehash
  import opened KHash
  import opened PicoClient

  /** kh_put followed by an assignment to kh_val of the same bucket. */
  method Store<K(==, 0), V(0)>(t: KHash<K, V>, key: K, v: V, alloc: Allocator) returns (ret: int)
    requires t.Valid()
    modifies t, t.flags, t.keys, t.vals
    ensures t.Sound() && (t.Valid() <==> old(t.HasRoom()) || ret != 1)
    ensures t.Contents() == if ret == -1 then old(t.Contents()) else old(t.Contents())[key := v]
    ensures ret == -1 <==> old(t.nOccupied >= t.upperBound && t.HasRoom() && t.Starved(t.Wanted(), alloc))
    ensures ret == 0 <==> ret != -1 && key in old(t.Contents())
    ensures t.OwnArrays()
    ensures t.nBuckets ==
      old(if ret != -1 && t.nOccupied >= t.upperBound && t.HasRoom() then t.Wanted() else t.nBuckets)
  {
    var x;
    x, ret := t.Put(key, alloc);
    if ret == -1 {
      return;
    }
    t.SetVal(x, v);
    assert t.Contents() == old(t.Contents())[key := v];
  }

  /** kh_get followed by kh_del of the bucket it found, as in client_delete_socket. */
  method Remove<K(==, 0), V(0)>(t: KHash<K, V>, key: K) returns (found: bool)
    requires t.Valid()
    modifies t, t.flags
    ensures t.Valid() && t.Contents() == old(t.Contents()) - {key}
    ensures t.OwnArrays() && t.nBuckets == old(t.nBuckets)
    ensures found <==> key in old(t.Contents())
  {
    var x := t.Get(key);
    found := x != t.nBuckets;
    if found {
      t.Del(x);
    }
  }

  /** The bucket every key is in. */
  ghost function Layout<V(0)>(t: KHash<nat, V>): (layout: map<nat, nat>)
    requires t.Sound()
    reads t, t.flags, t.keys, t.vals
    ensures layout.Keys == t.Contents().Keys && Injective(layout)
    ensures forall k :: k in layout ==> layout[k] < t.nBuckets
  {
    t.loc
  }

  /** The removal of a reused address's old descriptor, which hands kh_del the descriptor where a bucket
      number is expected: it removes whatever key sits in the bucket of that number.  A descriptor past
      the buckets must not lead past the flag words. */
  method RemoveByNumber<V(0)>(t: KHash<nat, V>, fd: nat) returns (found: bool)
    requires t.Sound() && (fd <= t.nBuckets || fd / 16 < t.flags.Length)
    modifies t, t.flags
    ensures t.Sound() && (old(t.Valid()) ==> t.Valid())
    ensures found <==> fd in old(t.Contents())
    ensures t.Contents() == if found then Vacated(old(t.Contents()), old(Layout(t)), fd) else old(t.Contents())
    ensures t.nBuckets == old(t.nBuckets)
  {
    var x := t.Get(fd);
    found := x != t.nBuckets;
    if found {
      t.Del(fd);
    }
  }

  /** What happens to a client's socket table when a new descriptor is put and the stack has reused the
      address of an old one.  Beyond the flag words kh_del reads what does not belong to it; the model
      stops before. */
  method Replace<V(0)>(t: KHash<nat, V>, id: nat, v: V, oldFd: nat, alloc: Allocator)
    returns (ret: int, inside: bool, ghost layout: map<nat, nat>)
    requires t.Valid() && oldFd in t.Contents() && id !in t.Contents()
    modifies t, t.flags, t.keys, t.vals
    ensures t.Sound() && (old(t.HasRoom()) ==> t.Valid())
    ensures ret == -1 <==> old(t.nOccupied >= t.upperBound && t.HasRoom() && t.Starved(t.Wanted(), alloc))
    ensures ret == -1 ==> t.Contents() == old(t.Contents())
    // The layout is that after the put, which may have rehashed the table.
    ensures Injective(layout) && forall k :: k in layout ==> layout[k] < t.nBuckets
    ensures ret != -1 ==> layout.Keys == old(t.Contents()).Keys + {id}
    ensures inside <==> ret != -1 && (oldFd <= t.nBuckets || oldFd / 16 < FSize(t.nBuckets))
    ensures ret != -1 && !inside ==> t.Contents() == old(t.Contents())[id := v]
    ensures inside ==> t.Contents() == Vacated(old(t.Contents())[id := v], layout, oldFd)
    // It removes the old descriptor, and nothing else, exactly if that sits in the bucket of its own number.
    ensures inside ==> (t.Contents() == old(t.Contents())[id := v] - {oldFd} <==> layout[oldFd] == oldFd)
  {
    ret := Store(t, id, v, alloc);
    layout, inside := Layout(t), false;
    if ret != -1 && (oldFd <= t.nBuckets || oldFd / 16 < t.flags.Length) {
      VacatedIff(t.Contents(), layout, oldFd);
      inside := RemoveByNumber(t, oldFd);
    }
  }

  // ---------------------------------------------------------------------------
  // Two runs of descriptors 1, 2, 3, ... that lose track of a socket

  /** A table of four buckets that holds descriptor 11 in bucket 0 and 3 in bucket 3, bucket 2 having been
      used and freed: it is at its load limit, and the next kh_put doubles it. */
  ghost function BeforeGrowth<V>(keys: seq<nat>, vals: seq<V>): Stage<nat, V> {
    Stage([Live, Empty, Deleted, Live], AllEmpty(8), keys, vals, map[11 := 0, 3 := 3], map[])
  }

  /** The doubling lifts 11 out of bucket 0, puts it in the new bucket 3, and so kicks out 3, which settles
      in bucket 4. */
  ghost function Kicked<V>(keys: seq<nat>, vals: seq<V>): Stage<nat, V>
    requires |keys| == |vals| == 8 && keys[0] == 11 && keys[3] == 3
  {
    Written(Lifted(Lifted(BeforeGrowth(keys, vals), 0), 3), 3, 11, vals[0])
  }

  ghost function AfterGrowth<V>(keys: seq<nat>, vals: seq<V>): Stage<nat, V>
    requires |keys| == |vals| == 8 && keys[0] == 11 && keys[3] == 3
  {
    Written(Kicked(keys, vals), 4, 3, vals[3])
  }

  /** These are the steps of the rehash: every entry goes to the first bucket of its walk that is empty
      under the new flags. */
  lemma KickOutSteps<V>(keys: seq<nat>, vals: seq<V>)
    requires |keys| == |vals| == 8 && keys[0] == 11 && keys[3] == 3
    ensures Request(4, 2) == 5 && Target(5) == 8
    ensures Probe(11, 0, 8) == 3 && BeforeGrowth(keys, vals).stNew[3].Empty? && BeforeGrowth(keys, vals).stOld[3].Live?
    ensures Probe(3, 0, 8) == 3 && Kicked(keys, vals).stNew[3].Live?
    ensures Probe(3, 1, 8) == 4 && Kicked(keys, vals).stNew[4].Empty?
  {
    assert Pow2(2) == 4 && Pow2(3) == 8;
    TargetNear(2);
    assert Triangle(1) == 1;
  }

  /** Then descriptor 12 takes the address that 3 had, and kh_del is given 3: the socket 11 is lost, and 3
      stays filed although its record is freed. */
  lemma OtherKeyRemoved<V>(keys: seq<nat>, vals: seq<V>, hash: nat -> Hash)
    requires |keys| == |vals| == 8 && keys[0] == 11 && keys[3] == 3
    requires hash(3) == 3 && hash(11) == 11 && hash(12) == 12
    ensures var s := BeforeGrowth(keys, vals); TableOk(s.stOld, keys, s.locOld, hash)
    ensures var s := AfterGrowth(keys, vals);
      && TableOk(s.stNew[5 := Live], s.keys[5 := 12], s.locNew[12 := 5], hash)
      && var after := Vacated(Entries(s.locNew[12 := 5], s.vals), s.locNew[12 := 5], 3);
         11 !in after && 3 in after
  {
    Walks();
    var s := AfterGrowth(keys, vals);
    var st, loc := s.stNew[5 := Live], s.locNew[12 := 5];
    assert s.keys[3] == 11 && s.keys[4] == 3 && loc == map[11 := 3, 3 := 4, 12 := 5];
    assert st[3] == st[4] == st[5] == Live;
    assert Reaches(st, 11, 3) && Reaches(st, 3, 4) && Reaches(st, 12, 5);
  }

  lemma Walks()
    ensures IsCapacity(4) && StepTo(11, 0, 4) == 1 && Probe(11, 0, 4) == 3 && StepTo(3, 3, 4) == 0
    ensures IsCapacity(8) && StepTo(11, 3, 8) == 0 && StepTo(3, 4, 8) == 1 && Probe(3, 0, 8) == 3
    ensures StepTo(12, 5, 8) == 1 && Probe(12, 0, 8) == 4
  {
    Pow2Values();
    assert Pow2(2) == 4 && Pow2(3) == 8;
    assert Triangle(1) == 1;
    assert Probe(11, 1, 4) == 0 && Probe(3, 0, 4) == 3;
    StepToProbe(11, 1, 4);
    StepToProbe(3, 0, 4);
    assert Probe(11, 0, 8) == 3 && Probe(3, 1, 8) == 4 && Probe(12, 1, 8) == 5;
    StepToProbe(11, 0, 8);
    StepToProbe(3, 1, 8);
    StepToProbe(12, 1, 8);
  }

  /** Descriptors 1, 2 and 3 are opened and closed, 4 and 5 opened, and 6 is opened on the address of 5:
      the table still has four buckets, kh_del is given 5, and nothing is removed. */
  lemma NothingRemoved<V>(keys: seq<nat>, vals: seq<V>, hash: nat -> Hash)
    requires |keys| == |vals| == 4 && keys[..3] == [4, 5, 6]
    requires hash(4) == 4 && hash(5) == 5 && hash(6) == 6
    ensures var loc := map[4 := 0, 5 := 1, 6 := 2];
      && TableOk([Live, Live, Live, Empty], keys, loc, hash)
      && 5 / 16 < FSize(4) && Vacated(Entries(loc, vals), loc, 5) == Entries(loc, vals)
  {
    Home(4);
    Home(5);
    Home(6);
    assert keys[0] == keys[..3][0] && keys[1] == keys[..3][1] && keys[2] == keys[..3][2];
  }

  lemma Home(h: nat)
    requires 4 <= h < 8
    ensures IsCapacity(4) && StepTo(h, h - 4, 4) == 0
  {
    assert Pow2(2) == 4;
    assert Probe(h, 0, 4) == h - 4;
    StepToProbe(h, 0, 4);
  }
}
