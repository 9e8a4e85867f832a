/** Powers of two, the bitwise operators on unsigned machine words, and the
    integer macros of khash.h.  Words are naturals; every place where the C code
    truncates a result to 32 or 64 bits says so with a remainder. */
module Bits {
  import opened Basics

  const DWORD: nat := 0x1_0000_0000_0000_0000

  function Pow2(m: nat): (p: nat)
    ensures p >= 1
  {
    if m == 0 then 1 else 2 * Pow2(m - 1)
  }

  function BitAnd(x: nat, y: nat): nat {
    if x == 0 || y == 0 then 0 else 2 * BitAnd(x / 2, y / 2) + (x % 2) * (y % 2)
  }

  function BitOr(x: nat, y: nat): nat
    decreases x + y
  {
    if x == 0 then y
    else if y == 0 then x
    else 2 * BitOr(x / 2, y / 2) + (if x % 2 == 1 || y % 2 == 1 then 1 else 0)
  }

  /** `x >> k`. */
  function Shr(x: nat, k: nat): nat
    decreases k
  {
    if k == 0 then x else Shr(x / 2, k - 1)
  }

  // ---------------------------------------------------------------------------
  // Powers of two

  lemma {:induction false} Pow2Add(a: nat, b: nat)
    ensures Pow2(a + b) == Pow2(a) * Pow2(b)
  {
    if a > 0 {
      Pow2Add(a - 1, b);
    }
  }

  lemma {:induction false} Pow2Mono(a: nat, b: nat)
    requires a < b
    ensures Pow2(a) < Pow2(b)
  {
    if a + 1 < b {
      Pow2Mono(a, b - 1);
    }
  }

  /** The values the proofs about 32-bit sizes need. */
  lemma Pow2Values()
    ensures Pow2(2) == 4 && Pow2(8) == 256 && Pow2(26) == 0x400_0000 && Pow2(27) == 0x800_0000
    ensures Pow2(28) == 0x1000_0000 && Pow2(29) == 0x2000_0000 && Pow2(30) == 0x4000_0000
    ensures Pow2(31) == 0x8000_0000 && Pow2(32) == WORD
  {
    assert Pow2(8) == 256;
    Pow2Add(8, 8);
    assert Pow2(16) == 0x1_0000;
    Pow2Add(16, 8);
    assert Pow2(24) == 0x100_0000;
    assert Pow2(26) == 4 * Pow2(24);
    assert Pow2(28) == 4 * Pow2(26);
    assert Pow2(30) == 4 * Pow2(28);
    assert Pow2(32) == 4 * Pow2(30);
  }

  // ---------------------------------------------------------------------------
  // Masking and remainders

  lemma MultipleNotSmall(d: int, n: nat)
    requires n > 0
    ensures d == 0 || d * n >= n || -(d * n) >= n
  {
  }

  /** Quotient and remainder are determined by their defining equation. */
  lemma DivModUnique(x: nat, n: nat, q: nat, r: nat)
    requires n > 0 && r < n && x == q * n + r
    ensures x / n == q && x % n == r
  {
    var d := x / n - q;
    assert d * n == r - x % n by {
      assert x == (x / n) * n + x % n;
      assert d * n == (x / n) * n - q * n;
    }
    MultipleNotSmall(d, n);
  }

  /** Dividing by 2n is halving and then dividing by n. */
  lemma DivModDouble(x: nat, n: nat)
    requires n > 0
    ensures x / (2 * n) == (x / 2) / n
    ensures x % (2 * n) == 2 * ((x / 2) % n) + x % 2
  {
    var q, r := (x / 2) / n, (x / 2) % n;
    assert x / 2 == q * n + r;
    assert 2 * (q * n) == q * (2 * n);
    DivModUnique(x, 2 * n, q, 2 * r + x % 2);
  }

  /** Adding a multiple of n keeps the remainder. */
  lemma SameRemainder(x: nat, y: nat, n: nat, d: nat)
    requires n > 0 && x == y + d * n
    ensures x % n == y % n
  {
    var q, r := y / n, y % n;
    assert y == q * n + r;
    assert x == (d + q) * n + r;
    DivModUnique(x, n, d + q, r);
  }

  lemma AddThenMod(x: nat, d: nat, n: nat)
    requires n > 0
    ensures (x % n + d) % n == (x + d) % n
  {
    var q, r := x / n, x % n;
    assert x == q * n + r;
    SameRemainder(x + d, r + d, n, q);
  }

  lemma AndOdd(x: nat, h: nat)
    requires h > 0
    ensures BitAnd(x, 2 * h - 1) == 2 * BitAnd(x / 2, h - 1) + x % 2
  {
    var y := 2 * h - 1;
    assert y / 2 == h - 1 && y % 2 == 1;
    if x > 0 {
      assert BitAnd(x, y) == 2 * BitAnd(x / 2, y / 2) + (x % 2) * (y % 2);
    }
  }

  /** `x & (n - 1)` is `x mod n` when n is a power of two. */
  lemma {:induction false} AndMask(x: nat, m: nat)
    ensures BitAnd(x, Pow2(m) - 1) == x % Pow2(m)
  {
    if m > 0 {
      var h := Pow2(m - 1);
      calc {
        BitAnd(x, Pow2(m) - 1);
        { AndOdd(x, h); }
        2 * BitAnd(x / 2, h - 1) + x % 2;
        { AndMask(x / 2, m - 1); }
        2 * ((x / 2) % h) + x % 2;
        { DivModDouble(x, h); }
        x % (2 * h);
      }
    }
  }

  /** Truncating to a multiple of n before taking the remainder changes nothing. */
  lemma ModOfMod(x: nat, n: nat, k: nat)
    requires n > 0 && k > 0
    ensures k * n > 0 && (x % (k * n)) % n == x % n
  {
    MultipleNotSmall(k, n);
    var p := k * n;
    Divided(x, p);
    Regrouped(x / p, k, n);
    SameRemainder(x, x % p, n, (x / p) * k);
  }

  lemma Divided(x: nat, p: nat)
    requires p > 0
    ensures x == (x / p) * p + x % p
  {}

  lemma Regrouped(q: nat, k: nat, n: nat)
    ensures q * (k * n) == (q * k) * n
  {}

  /** Truncating to 32 bits before masking changes nothing for a table of at most 2^32 buckets. */
  lemma WrapHarmless(x: nat, m: nat)
    requires m <= 32
    ensures (x % WORD) % Pow2(m) == x % Pow2(m)
  {
    Pow2Values();
    Pow2Add(32 - m, m);
    ModOfMod(x, Pow2(m), Pow2(32 - m));
  }

  // ---------------------------------------------------------------------------
  // kroundup32

  /** The smallest all-ones number that is at least x. */
  function Fill(x: nat): (f: nat)
    ensures f >= x
  {
    if x == 0 then 0 else 2 * Fill(x / 2) + 1
  }

  /** The bitwise or of x, x >> 1, ..., x >> (w - 1). */
  function Smear(x: nat, w: nat): nat {
    if w == 0 then 0 else BitOr(x, Smear(x / 2, w - 1))
  }

  lemma {:induction false} OrAssoc(x: nat, y: nat, z: nat)
    ensures BitOr(BitOr(x, y), z) == BitOr(x, BitOr(y, z))
    decreases x + y + z
  {
    if x > 0 && y > 0 && z > 0 {
      OrAssoc(x / 2, y / 2, z / 2);
      OrParts(x, y);
      OrParts(y, z);
      OrParts(BitOr(x, y), z);
      OrParts(x, BitOr(y, z));
    }
  }

  /** The upper bits and the last bit of an or. */
  lemma OrParts(x: nat, y: nat)
    ensures BitOr(x, y) / 2 == BitOr(x / 2, y / 2)
    ensures BitOr(x, y) % 2 == if x % 2 == 1 || y % 2 == 1 then 1 else 0
  {}

  lemma {:induction false} SmearHalf(x: nat, w: nat)
    ensures Smear(x, w) / 2 == Smear(x / 2, w)
  {
    if w > 0 {
      SmearHalf(x / 2, w - 1);
      OrParts(x, Smear(x / 2, w - 1));
    }
  }

  lemma {:induction false} SmearShift(x: nat, w: nat, k: nat)
    ensures Shr(Smear(x, w), k) == Smear(Shr(x, k), w)
    decreases k
  {
    if k > 0 {
      SmearHalf(x, w);
      SmearShift(x / 2, w, k - 1);
    }
  }

  /** Doubling the smeared width: one step `x |= x >> a` of the macro. */
  lemma {:induction false} SmearSplit(x: nat, a: nat, b: nat)
    ensures Smear(x, a + b) == BitOr(Smear(x, a), Smear(Shr(x, a), b))
    decreases a
  {
    if a > 0 {
      var h, rest := x / 2, Smear(Shr(x, a), b);
      calc {
        Smear(x, a + b);
        BitOr(x, Smear(h, a - 1 + b));
        { SmearSplit(h, a - 1, b); }
        BitOr(x, BitOr(Smear(h, a - 1), rest));
        { OrAssoc(x, Smear(h, a - 1), rest); }
        BitOr(Smear(x, a), rest);
      }
    }
  }

  lemma SmearDouble(x: nat, w: nat)
    ensures BitOr(Smear(x, w), Shr(Smear(x, w), w)) == Smear(x, 2 * w)
  {
    SmearShift(x, w, w);
    SmearSplit(x, w, w);
  }

  lemma OrOdd(x: nat, f: nat)
    requires x > 0
    ensures BitOr(x, 2 * f + 1) == 2 * BitOr(x / 2, f) + 1
  {
    assert (2 * f + 1) / 2 == f;
  }

  lemma {:induction false} OrFill(x: nat)
    requires x > 0
    ensures BitOr(x, Fill(x / 2)) == Fill(x)
  {
    var h := x / 2;
    if h > 0 {
      calc {
        BitOr(x, Fill(h));
        { assert Fill(h) == 2 * Fill(h / 2) + 1; OrOdd(x, Fill(h / 2)); }
        2 * BitOr(h, Fill(h / 2)) + 1;
        { OrFill(h); }
        2 * Fill(h) + 1;
        Fill(x);
      }
    }
  }

  lemma {:induction false} SmearIsFill(x: nat, w: nat)
    requires x < Pow2(w)
    ensures Smear(x, w) == Fill(x)
  {
    if w > 0 {
      SmearIsFill(x / 2, w - 1);
      if x > 0 {
        OrFill(x);
      } else {
        assert Fill(0) == 0;
      }
    }
  }

  lemma {:induction false} FillIsPow2(x: nat) returns (m: nat)
    ensures Fill(x) + 1 == Pow2(m)
    ensures forall k: nat :: Pow2(k) > x ==> k >= m
  {
    if x == 0 {
      m := 0;
    } else {
      var h := FillIsPow2(x / 2);
      m := h + 1;
      forall k: nat | Pow2(k) > x
        ensures k >= m
      {
        assert k > 0;
        assert Pow2(k - 1) > x / 2;
      }
    }
  }

  /** `--x` and `++x` on a 32-bit word. */
  function Decrement32(x: nat): (y: nat)
    requires x < WORD
    ensures y == if x == 0 then WORD - 1 else x - 1
  {
    (x + WORD - 1) % WORD
  }

  function Increment32(x: nat): (y: nat)
    requires x < WORD
    ensures y == if x == WORD - 1 then 0 else x + 1
  {
    (x + 1) % WORD
  }

  /** Five or-and-shift steps fill a 32-bit word. */
  lemma SmearSteps(x0: nat, x1: nat, x2: nat, x3: nat, x4: nat, x5: nat)
    requires x0 < WORD
    requires x1 == BitOr(x0, Shr(x0, 1)) && x2 == BitOr(x1, Shr(x1, 2)) && x3 == BitOr(x2, Shr(x2, 4))
    requires x4 == BitOr(x3, Shr(x3, 8)) && x5 == BitOr(x4, Shr(x4, 16))
    ensures x5 == Fill(x0)
  {
    Pow2Values();
    assert Smear(x0, 1) == x0;
    SmearDouble(x0, 1);
    SmearDouble(x0, 2);
    SmearDouble(x0, 4);
    SmearDouble(x0, 8);
    SmearDouble(x0, 16);
    SmearIsFill(x0, 32);
  }

  /** Filling a word y gives one less than the least power of two above y. */
  lemma FillBounds(y: nat) returns (m: nat)
    requires y < WORD
    ensures Fill(y) + 1 == Pow2(m) && forall k: nat :: Pow2(k) > y ==> k >= m
    ensures if y < 0x8000_0000 then m <= 31 && Fill(y) < 0x8000_0000 else Fill(y) + 1 == WORD
  {
    Pow2Values();
    m := FillIsPow2(y);
    if y < 0x8000_0000 {
      assert Pow2(31) > y;
      Pow2Mono(m, 32);
      if m < 31 {
        Pow2Mono(m, 31);
      }
    } else {
      assert Pow2(32) > y;
      if m < 31 {
        Pow2Mono(m, 31);
      }
    }
  }

  /** What `kroundup32` computes; RoundUpLeast says what that is. */
  function RoundUp32(x: nat): nat {
    if x == 0 || x > 0x8000_0000 then 0 else Fill(x - 1) + 1
  }

  /** The macro `kroundup32`, a 32-bit word in and out. */
  method KRoundUp32(x: nat) returns (r: nat)
    requires x < WORD
    ensures r == RoundUp32(x)
  {
    r := Decrement32(x);
    ghost var x0 := r;
    r := BitOr(r, Shr(r, 1));
    ghost var x1 := r;
    r := BitOr(r, Shr(r, 2));
    ghost var x2 := r;
    r := BitOr(r, Shr(r, 4));
    ghost var x3 := r;
    r := BitOr(r, Shr(r, 8));
    ghost var x4 := r;
    r := BitOr(r, Shr(r, 16));
    SmearSteps(x0, x1, x2, x3, x4, r);
    ghost var m := FillBounds(x0);
    r := Increment32(r);
  }

  /** It is the least power of two that is at least x, for x in 1..2^31; outside that range the
      32-bit result is 0. */
  lemma RoundUpLeast(x: nat) returns (m: nat)
    requires x < WORD
    ensures 1 <= x <= 0x8000_0000 ==>
      && m <= 31 && RoundUp32(x) == Pow2(m) && Pow2(m) >= x
      && forall k: nat :: Pow2(k) >= x ==> k >= m
    ensures x == 0 || x > 0x8000_0000 ==> RoundUp32(x) == 0
  {
    m := FillBounds(Decrement32(x));
  }

  /** A power of two that is at least x, and whose half is not, is the one x is rounded up to. */
  lemma RoundUpIs(x: nat, m: nat)
    requires 1 <= x <= 0x8000_0000 && x <= Pow2(m) && (m > 0 ==> Pow2(m - 1) < x)
    ensures RoundUp32(x) == Pow2(m)
  {
    var d := RoundUpLeast(x);
    if d + 1 < m {
      Pow2Mono(d, m - 1);
    }
  }

  // ---------------------------------------------------------------------------
  // DIV_100 and COMPUTE_SIZE: 64-bit unsigned arithmetic

  const RECIPROCAL: nat := 1374389535
  const TWO_TO_37: nat := 0x20_0000_0000

  function Div100(x: nat): nat {
    (x * RECIPROCAL % DWORD) / TWO_TO_37
  }

  function ComputeSize(n: nat): nat {
    Div100((n * 77 + 50) % DWORD)
  }

  /** The multiply-and-shift division is exact as long as 28x stays below 2^37. */
  lemma Div100Exact(x: nat)
    requires 28 * x < TWO_TO_37
    ensures Div100(x) == x / 100
  {
    var q, r := x / 100, x % 100;
    assert x * RECIPROCAL == q * TWO_TO_37 + (28 * q + r * RECIPROCAL);
    DivModUnique(x * RECIPROCAL, TWO_TO_37, q, 28 * q + r * RECIPROCAL);
  }

  lemma ComputeSizeSmall(n: nat)
    requires n <= 0x200_0000
    ensures ComputeSize(n) == (77 * n + 50) / 100
  {
    Div100Exact(77 * n + 50);
  }

  lemma ComputeSizeLarge()
    ensures ComputeSize(0x400_0000) == 51673825 && ComputeSize(0x800_0000) == 103347651
    ensures ComputeSize(0x1000_0000) == 72477573 && ComputeSize(0x2000_0000) == 10737418
    ensures ComputeSize(0x4000_0000) == 21474837 && ComputeSize(0x8000_0000) == 42949673
  {
  }

  /** For the power-of-two capacities a 32-bit table can have, the load limit is
      floor(0.77 n + 0.5) exactly up to 2^27 buckets: beyond that the 64-bit product wraps. */
  lemma ComputeSizeExact(m: nat)
    requires 2 <= m <= 31
    ensures ComputeSize(Pow2(m)) == (77 * Pow2(m) + 50) / 100 <==> m <= 27
  {
    var n := CapacityCases(m);
    ComputeSizeLarge();
    if m <= 25 {
      ComputeSizeSmall(n);
    }
  }

  lemma CapacityCases(m: nat) returns (n: nat)
    requires 2 <= m <= 31
    ensures n == Pow2(m) && n >= 4
    ensures m <= 25 ==> n <= 0x200_0000
    ensures m == 26 ==> n == 0x400_0000
    ensures m == 27 ==> n == 0x800_0000
    ensures m == 28 ==> n == 0x1000_0000
    ensures m == 29 ==> n == 0x2000_0000
    ensures m == 30 ==> n == 0x4000_0000
    ensures m == 31 ==> n == 0x8000_0000
  {
    n := Pow2(m);
    Pow2Values();
    if m > 2 {
      Pow2Mono(2, m);
    }
    if m < 26 {
      Pow2Mono(m, 26);
      assert Pow2(26) == 2 * Pow2(25);
      if m < 25 {
        Pow2Mono(m, 25);
      }
    }
  }

  lemma {:induction false} Pow2Exponent(m: nat, k: nat)
    requires Pow2(m) <= Pow2(k)
    ensures m <= k
  {
    if k < m {
      Pow2Mono(k, m);
    }
  }

  /** The load limit always leaves at least one bucket empty, wrapped product or not; up to
      2^27 buckets it is more than half of them. */
  lemma ComputeSizeBelow(m: nat)
    requires 2 <= m <= 31
    ensures 0 < ComputeSize(Pow2(m)) < Pow2(m)
    ensures m <= 27 ==> 2 * ComputeSize(Pow2(m)) > Pow2(m)
  {
    var n := CapacityCases(m);
    ComputeSizeLarge();
    if m <= 25 {
      ComputeSizeSmall(n);
    }
  }

  /** Up to 2^26 buckets, doubling raises the load limit. */
  lemma ComputeSizeDoubles(m: nat)
    requires 2 <= m <= 26
    ensures ComputeSize(Pow2(m)) < ComputeSize(2 * Pow2(m))
  {
    var n := CapacityCases(m);
    if m < 25 {
      var n' := CapacityCases(m + 1);
      ComputeSizeSmall(n);
      ComputeSizeSmall(n');
    } else if m == 25 {
      Pow2Values();
      assert n == 0x200_0000;
      ComputeSizeSmall(n);
      ComputeSizeLarge();
    } else {
      ComputeSizeLarge();
    }
  }
}
