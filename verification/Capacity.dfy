/** The sizes of a khash table: the capacity kh_resize settles on, the one kh_put asks for when the load
    limit is reached, and when that leaves room for one more entry. */
module Capacity {
  import opened Bits
  import opened Basics
  import opened Probing
  import opened Flags

  const MAX_CAPACITY: nat := 0x8000_0000

  /** The capacity kh_resize settles on for a request of n buckets. */
  function Target(n: nat): nat {
    if RoundUp32(n) < 4 then 4 else RoundUp32(n)
  }

  lemma TargetCapacity(n: nat)
    requires n < WORD
    ensures IsCapacity(Target(n)) && Target(n) >= 4
    ensures 0 < ComputeSize(Target(n)) < Target(n)
    ensures FSize(Target(n)) * 16 >= Target(n)
  {
    Pow2Values();
    var m := RoundUpLeast(n);
    if RoundUp32(n) < 4 {
      m := 2;
    } else if m < 2 {
      Pow2Mono(m, 2);
    }
    ComputeSizeBelow(m);
    FSizeCovers(m);
  }

  /** One less than a capacity rounds to that capacity, one more to the next. */
  lemma TargetNear(m: nat)
    requires 2 <= m <= 31
    ensures Target(Pow2(m) - 1) == Pow2(m)
    ensures m < 31 ==> Target(Pow2(m) + 1) == Pow2(m + 1) == 2 * Pow2(m)
  {
    var n := CapacityCases(m);
    RoundUpIs(n - 1, m);
    if m < 31 {
      var _ := CapacityCases(m + 1);
      RoundUpIs(n + 1, m + 1);
    }
  }

  lemma FirstTable()
    ensures Target(1) == 4 && ComputeSize(4) == 3
  {
    var m := RoundUpLeast(1);
    assert Pow2(0) >= 1;
  }

  // ---------------------------------------------------------------------------
  // What kh_put asks for

  /** With `size` live entries in n buckets: the present capacity, to clear out deleted entries, when
      fewer than half the buckets are live, otherwise the next one. */
  function Request(n: nat, size: nat): nat {
    if n > size * 2 % WORD then n - 1 else n + 1
  }

  lemma DoubleFits(size: nat)
    requires size < 0x8000_0000
    ensures size * 2 % WORD == size * 2
  {}

  lemma RequestIs(m: nat, size: nat)
    requires 2 <= m <= 31 && size < Pow2(m)
    ensures 2 * size < Pow2(m) ==> Target(Request(Pow2(m), size)) == Pow2(m)
    ensures m < 31 && 2 * size >= Pow2(m) ==> Target(Request(Pow2(m), size)) == 2 * Pow2(m)
  {
    var _ := CapacityCases(m);
    DoubleFits(size);
    TargetNear(m);
  }

  /** The capacity asked for has a load limit above the entries of a table of n buckets at its own limit:
      always up to 2^26 buckets; at 2^27, where doubling lowers the limit, only if it does not double or
      the entries fit under the lower one; beyond that unless the entries alone reach the limit. */
  predicate LeavesRoom(n: nat, size: nat) {
    if n <= 0x400_0000 then true
    else if n == 0x800_0000 then 2 * size < n || size < ComputeSize(0x1000_0000)
    else size < ComputeSize(n)
  }

  /** The capacity asked for is never less than the present one, and whether it leaves room depends on
      the number of buckets and of live entries only. */
  lemma RoomExactly(n: nat, size: nat)
    requires IsCapacity(n) && 4 <= n && size <= ComputeSize(n)
    ensures Target(Request(n, size)) >= n
    ensures size < ComputeSize(Target(Request(n, size))) <==> LeavesRoom(n, size)
  {
    var m := Exponent(n);
    ComputeSizeBelow(m);
    RequestIs(m, size);
    if m <= 26 {
      ComputeSizeDoubles(m);
    } else {
      LargeTables(m, size);
    }
  }

  lemma Exponent(n: nat) returns (m: nat)
    requires IsCapacity(n) && 4 <= n
    ensures 2 <= m <= 31 && n == Pow2(m) && (n <= 0x400_0000 <==> m <= 26)
  {
    m :| m <= 31 && n == Pow2(m);
    assert Pow2(2) == 4;
    Pow2Exponent(2, m);
    var _ := CapacityCases(m);
  }

  lemma LargeTables(m: nat, size: nat)
    requires 27 <= m <= 31 && size <= ComputeSize(Pow2(m))
    ensures 2 * size < Pow2(m) ==> (LeavesRoom(Pow2(m), size) <==> size < ComputeSize(Pow2(m)))
    ensures m == 27 && 2 * size >= Pow2(m) ==>
      (LeavesRoom(Pow2(m), size) <==> size < ComputeSize(2 * Pow2(m)))
    ensures m > 27 ==> 2 * size < Pow2(m)
  {
    var _ := CapacityCases(m);
    ComputeSizeLarge();
  }

  /** Two tables that are refused room: 2^28 buckets with as many live entries as the wrapped limit
      allows, and 2^27 buckets, within their own limit, that would be doubled. */
  lemma RefusedRoom()
    ensures ComputeSize(0x1000_0000) == 72477573 < ComputeSize(0x800_0000)
    ensures Target(Request(0x1000_0000, 72477573)) == 0x1000_0000
    ensures Target(Request(0x800_0000, 72477573)) == 0x1000_0000
    ensures !LeavesRoom(0x1000_0000, 72477573) && !LeavesRoom(0x800_0000, 72477573)
  {
    Pow2Values();
    ComputeSizeLarge();
    RequestIs(28, 72477573);
    RequestIs(27, 72477573);
  }
}
