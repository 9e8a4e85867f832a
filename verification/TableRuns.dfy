/** Any run of operations on a khash table is the same run on a mathematical map. */
module TableRuns {
  import opened Basics
  import opened Bits
  import opened Capacity
  import opened KHash
  import opened SocketTables

  /** One operation, with the outcome of the allocations it may make. */
  datatype Op<K, V> =
    | Store(key: K, value: V, alloc: Allocator)
    | Remove(key: K)
    | Clear
    | Resize(newN: nat, alloc: Allocator)
  {
    /** The requested capacity is a 32-bit number, and giving memory back works: the code relies on that
        without checking. */
    predicate Sensible() {
      Resize? ==> newN < WORD && alloc.shrinkKeys && alloc.shrinkVals
    }

    /** It allocates, and some allocation fails. */
    predicate MayFail() {
      (Store? || Resize?) && !(alloc.flags && alloc.keys && alloc.vals)
    }
  }

  /** What the operation does to a map, if it has the memory it needs. */
  ghost function Apply<K, V>(m: map<K, V>, op: Op<K, V>, ok: bool): map<K, V> {
    match op
    case Store(key, value, _) => if ok then m[key := value] else m
    case Remove(key) => m - {key}
    case Clear => map[]
    case Resize(_, _) => m
  }

  ghost function After<K, V>(m: map<K, V>, ops: seq<Op<K, V>>, oks: seq<bool>): map<K, V>
    requires |oks| == |ops|
  {
    if ops == [] then m
    else Apply(After(m, ops[..|ops| - 1], oks[..|ops| - 1]), ops[|ops| - 1], oks[|ops| - 1])
  }

  lemma AfterOne<K, V>(m: map<K, V>, ops: seq<Op<K, V>>, oks: seq<bool>, ok: bool)
    requires |oks| < |ops|
    ensures After(m, ops[..|oks| + 1], oks + [ok]) == Apply(After(m, ops[..|oks|], oks), ops[|oks|], ok)
  {
    var n := |oks|;
    assert ops[..n + 1][..n] == ops[..n] && (oks + [ok])[..n] == oks;
  }

  /** `size` is the number of entries. */
  lemma SizeIsCount<K(0), V(0)>(t: KHash<K, V>)
    requires t.Valid()
    ensures |t.Contents()| == t.size
  {
    assert t.Contents().Keys == t.loc.Keys;
    assert |t.Contents().Keys| == |t.loc.Keys|;
  }

  /** A store would find the table at its load limit and be left without room. */
  predicate Full<K(0), V(0)>(t: KHash<K, V>)
    reads t
  {
    t.nOccupied >= t.upperBound && !LeavesRoom(t.nBuckets, t.size)
  }

  /** That takes more than ten million entries. */
  lemma FullHolds<K(0), V(0)>(t: KHash<K, V>)
    requires t.Valid() && Full(t)
    ensures t.nBuckets >= 0x800_0000 && |t.Contents()| >= 10737418
  {
    SizeIsCount(t);
    var m := Exponent(t.nBuckets);
    var _ := CapacityCases(m);
    ComputeSizeLarge();
  }

  method StoreStep<K(==, 0), V(0)>(t: KHash<K, V>, key: K, value: V, alloc: Allocator) returns (ok: bool)
    requires t.Valid() && !Full(t)
    modifies t, t.flags, t.keys, t.vals
    ensures t.Valid() && t.OwnArrays()
    ensures t.Contents() == Apply(old(t.Contents()), Store(key, value, alloc), ok)
    ensures !ok ==> !(alloc.flags && alloc.keys && alloc.vals)
  {
    t.RoomIff();
    var ret := SocketTables.Store(t, key, value, alloc);
    ok := ret != -1;
  }

  method Step<K(==, 0), V(0)>(t: KHash<K, V>, op: Op<K, V>) returns (ok: bool)
    requires t.Valid() && op.Sensible() && (op.Store? ==> !Full(t))
    modifies t, t.flags, t.keys, t.vals
    ensures t.Valid() && t.OwnArrays() && t.Contents() == Apply(old(t.Contents()), op, ok)
    ensures !ok ==> op.MayFail()
  {
    match op {
      case Store(key, value, alloc) =>
        ok := StoreStep(t, key, value, alloc);
      case Remove(key) =>
        var _ := SocketTables.Remove(t, key);
        ok := true;
      case Clear =>
        t.Clear();
        ok := true;
      case Resize(newN, alloc) =>
        var r := t.Resize(newN, alloc);
        ok := r == 0;
    }
  }

  /** Any sequence of operations on any table, whatever its hash function and whichever allocations fail:
      the table then holds what the same operations make of a map, less those that were refused; an
      operation is refused only for want of memory; and the run ends early only before a store into a
      table that is full, which takes 2^27 buckets and more than ten million entries. */
  method Run<K(==, 0), V(0)>(t: KHash<K, V>, ops: seq<Op<K, V>>) returns (oks: seq<bool>)
    requires t.Valid() && forall i :: 0 <= i < |ops| ==> ops[i].Sensible()
    modifies t, t.flags, t.keys, t.vals
    ensures t.Valid() && |oks| <= |ops|
    ensures t.Contents() == After(old(t.Contents()), ops[..|oks|], oks)
    ensures |oks| < |ops| ==> ops[|oks|].Store? && Full(t) && t.nBuckets >= 0x800_0000 && |t.Contents()| >= 10737418
    ensures forall i :: 0 <= i < |oks| && !oks[i] ==> ops[i].MayFail()
  {
    oks := [];
    assert After(t.Contents(), ops[..0], oks) == t.Contents();
    hide After, Full, KHash.Contents;
    while |oks| < |ops|
      invariant |oks| <= |ops| && t.Valid() && t.OwnArrays()
      invariant t.Contents() == After(old(t.Contents()), ops[..|oks|], oks)
      invariant forall i :: 0 <= i < |oks| && !oks[i] ==> ops[i].MayFail()
    {
      var op := ops[|oks|];
      if op.Store? && Full(t) {
        FullHolds(t);
        return;
      }
      var ok := Step(t, op);
      AfterOne(old(t.Contents()), ops, oks, ok);
      oks := oks + [ok];
    }
  }
}
