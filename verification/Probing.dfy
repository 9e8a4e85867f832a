/** The probe sequence of khash.h: steps of 1, 2, 3, ... from the home bucket, in a table whose
    size is a power of two.  The first n probes visit every bucket exactly once, and the walk is
    back at its first bucket only after 2n - 1 steps. */
module Probing {
  import opened Bits
  import opened Basics

  ghost predicate IsCapacity(n: nat) {
    exists m: nat :: m <= 31 && n == Pow2(m)
  }

  /** The sum 1 + 2 + ... + s. */
  function Triangle(s: nat): nat {
    if s == 0 then 0 else Triangle(s - 1) + s
  }

  /** The bucket visited after s steps by a key whose hash is h. */
  function Probe(h: nat, s: nat, n: nat): (i: nat)
    requires n > 0
    ensures i < n
  {
    (h + Triangle(s)) % n
  }

  /** One step of the C loop, with its 32-bit addition and its mask. */
  function NextProbe(i: nat, step: nat, n: nat): nat
    requires n > 0
  {
    BitAnd((i + step) % WORD, n - 1)
  }

  lemma NextProbeIsProbe(h: nat, s: nat, n: nat)
    requires IsCapacity(n)
    ensures NextProbe(Probe(h, s, n), s + 1, n) == Probe(h, s + 1, n)
  {
    StepMasked(Probe(h, s, n), s + 1, n);
    AddThenMod(h + Triangle(s), s + 1, n);
  }

  /** The wrapped, masked sum is the plain remainder. */
  lemma StepMasked(i: nat, step: nat, n: nat)
    requires IsCapacity(n)
    ensures NextProbe(i, step, n) == (i + step) % n
  {
    var m: nat :| m <= 31 && n == Pow2(m);
    AndMask((i + step) % WORD, m);
    WrapHarmless(i + step, m);
  }

  lemma HomeIsProbe(h: nat, n: nat)
    requires IsCapacity(n)
    ensures BitAnd(h, n - 1) == Probe(h, 0, n)
  {
    var m: nat :| m <= 31 && n == Pow2(m);
    AndMask(h, m);
  }

  // ---------------------------------------------------------------------------
  // Divisibility by a power of two

  predicate DivPow2(x: nat, k: nat)
    decreases k
  {
    k == 0 || (x % 2 == 0 && DivPow2(x / 2, k - 1))
  }

  lemma {:induction false} MultipleIsDiv(q: nat, k: nat)
    ensures DivPow2(q * Pow2(k), k)
    decreases k
  {
    if k > 0 {
      MultipleIsDiv(q, k - 1);
      var x := q * Pow2(k - 1);
      assert q * Pow2(k) == 2 * x;
      assert DivPow2(2 * x, k);
    }
  }

  lemma {:induction false} DivBelowIsZero(x: nat, k: nat)
    requires DivPow2(x, k) && 0 < x
    ensures x >= Pow2(k)
    decreases k
  {
    if k > 0 {
      DivBelowIsZero(x / 2, k - 1);
    }
  }

  /** An odd factor contributes nothing to divisibility by a power of two. */
  lemma {:induction false} OddFactor(x: nat, y: nat, k: nat)
    requires x % 2 == 1 && DivPow2(x * y, k)
    ensures DivPow2(y, k)
    decreases k
  {
    if k > 0 {
      EvenFactor(x, y);
      OddFactor(x, y / 2, k - 1);
    }
  }

  lemma EvenFactor(x: nat, y: nat)
    requires x % 2 == 1 && (x * y) % 2 == 0
    ensures y % 2 == 0 && (x * y) / 2 == x * (y / 2)
  {
    var p, z, b := x / 2, y / 2, y % 2;
    assert x * y == 2 * (p * y) + y by {
      assert x == 2 * p + 1;
      assert (2 * p + 1) * y == 2 * (p * y) + y;
    }
    if b == 0 {
      assert x * y == 2 * (x * z) by {
        assert y == 2 * z;
        assert x * (2 * z) == 2 * (x * z);
      }
    }
  }

  lemma {:induction false} TriangleDouble(s: nat)
    ensures 2 * Triangle(s) == s * (s + 1)
  {
    if s > 0 {
      TriangleDouble(s - 1);
    }
  }

  lemma {:induction false} TriangleMono(a: nat, b: nat)
    requires a <= b
    ensures Triangle(a) <= Triangle(b)
  {
    if a < b {
      TriangleMono(a, b - 1);
    }
  }

  /** Equal remainders: the difference is a multiple of n. */
  lemma EqualRemainders(x: nat, y: nat, n: nat) returns (q: nat)
    requires n > 0 && x <= y && x % n == y % n
    ensures y - x == q * n
  {
    var d := y / n - x / n;
    assert d * n == y - x by {
      assert x == (x / n) * n + x % n;
      assert y == (y / n) * n + y % n;
      assert d * n == (y / n) * n - (x / n) * n;
    }
    assert d >= 0 by {
      MultipleNotSmall(d, n);
    }
    q := d;
  }

  lemma TriangleDifference(a: nat, b: nat)
    requires a <= b
    ensures Triangle(a) <= Triangle(b)
    ensures (b - a) * (a + b + 1) == 2 * (Triangle(b) - Triangle(a))
  {
    TriangleMono(a, b);
    TriangleDouble(a);
    TriangleDouble(b);
    DifferenceOfProducts(a, b);
  }

  /** Two steps that land on the same bucket differ by a multiple of n. */
  lemma SameBucket(h: nat, a: nat, b: nat, m: nat)
    requires a <= b && Probe(h, a, Pow2(m)) == Probe(h, b, Pow2(m))
    ensures DivPow2((b - a) * (a + b + 1), m + 1)
  {
    TriangleDifference(a, b);
    var n := Pow2(m);
    var q := EqualRemainders(h + Triangle(a), h + Triangle(b), n);
    DoubleMultiple(q, n);
    MultipleIsDiv(q, m + 1);
  }

  lemma DoubleMultiple(q: nat, n: nat)
    ensures 2 * (q * n) == q * (2 * n)
  {
  }

  lemma DifferenceOfProducts(a: nat, b: nat)
    requires a <= b
    ensures b * (b + 1) - a * (a + 1) == (b - a) * (a + b + 1)
  {
  }

  /** Divisibility of the product goes to whichever of the two factors is even. */
  lemma FactorBound(a: nat, b: nat, m: nat)
    requires a < b && DivPow2((b - a) * (a + b + 1), m + 1)
    ensures b - a >= Pow2(m + 1) || a + b + 1 >= Pow2(m + 1)
  {
    if (b - a) % 2 == 1 {
      OddFactor(b - a, a + b + 1, m + 1);
      DivBelowIsZero(a + b + 1, m + 1);
    } else {
      assert (b - a) * (a + b + 1) == (a + b + 1) * (b - a);
      OddFactor(a + b + 1, b - a, m + 1);
      DivBelowIsZero(b - a, m + 1);
    }
  }

  /** The first n probes are pairwise different. */
  lemma ProbesDistinct(h: nat, a: nat, b: nat, n: nat)
    requires IsCapacity(n) && a < b < n
    ensures Probe(h, a, n) != Probe(h, b, n)
  {
    var m: nat :| m <= 31 && n == Pow2(m);
    if Probe(h, a, n) == Probe(h, b, n) {
      SameBucket(h, a, b, m);
      FactorBound(a, b, m);
    }
  }

  /** Between its start and step 2n - 1 the walk never comes back to its home bucket, and at
      step 2n - 1 it does. */
  lemma FirstReturn(h: nat, s: nat, n: nat)
    requires IsCapacity(n) && 0 < s <= 2 * n - 1
    ensures Probe(h, s, n) == Probe(h, 0, n) <==> s == 2 * n - 1
  {
    if s == 2 * n - 1 {
      BackAtEnd(h, n);
    } else if Probe(h, s, n) == Probe(h, 0, n) {
      var m: nat :| m <= 31 && n == Pow2(m);
      SameBucket(h, 0, s, m);
      FactorBound(0, s, m);
    }
  }

  /** The 2n - 1 steps add up to a multiple of n. */
  lemma BackAtEnd(h: nat, n: nat)
    requires n > 0
    ensures Probe(h, 2 * n - 1, n) == Probe(h, 0, n)
  {
    var s := 2 * n - 1;
    TriangleDouble(s);
    assert s * (2 * n) == 2 * (s * n);
    SameRemainder(h + Triangle(s), h, n, s);
  }

  // ---------------------------------------------------------------------------
  // Every bucket is visited

  lemma BelowMore(a: set<nat>, b: set<nat>, j: nat)
    requires b !! Below(j) && a <= b - {j}
    ensures a !! Below(j + 1)
  {
  }

  /** The buckets seen by the first k probes. */
  ghost function Visited(h: nat, k: nat, n: nat): set<nat>
    requires n > 0
  {
    set s: nat | s < k :: Probe(h, s, n)
  }

  lemma VisitedMore(h: nat, k: nat, n: nat)
    requires n > 0
    ensures Visited(h, k + 1, n) == Visited(h, k, n) + {Probe(h, k, n)}
  {}

  lemma {:induction false} VisitedSize(h: nat, k: nat, n: nat)
    requires IsCapacity(n) && k <= n
    ensures |Visited(h, k, n)| == k
  {
    if k == 0 {
      assert Visited(h, 0, n) == {};
    } else {
      VisitedSize(h, k - 1, n);
      var p := Probe(h, k - 1, n);
      VisitedMore(h, k - 1, n);
      forall s: nat | s < k - 1
        ensures Probe(h, s, n) != p
      {
        ProbesDistinct(h, s, k - 1, n);
      }
    }
  }

  lemma FullSubset(a: set<nat>, b: set<nat>)
    requires a <= b && |a| == |b|
    ensures a == b
  {
    if x :| x in b && x !in a {
      assert |b - {x}| == |b| - 1;
      assert a <= b - {x};
      SubsetSize(a, b - {x});
    }
  }

  /** Every bucket is met within the first n probes: by pigeonhole, n different probes fill a
      table of n buckets. */
  lemma EveryBucketProbed(h: nat, i: nat, n: nat)
    requires IsCapacity(n) && i < n
    ensures exists s: nat :: s < n && Probe(h, s, n) == i
  {
    VisitedSize(h, n, n);
    FullSubset(Visited(h, n, n), Below(n));
    assert i in Visited(h, n, n);
  }

  /** The step at which the walk of hash h meets bucket i. */
  ghost function StepTo(h: nat, i: nat, n: nat): (s: nat)
    requires IsCapacity(n) && i < n
    ensures s < n && Probe(h, s, n) == i
  {
    EveryBucketProbed(h, i, n);
    var s: nat :| s < n && Probe(h, s, n) == i;
    s
  }

  lemma StepToProbe(h: nat, s: nat, n: nat)
    requires IsCapacity(n) && s < n
    ensures StepTo(h, Probe(h, s, n), n) == s
  {
    var t := StepTo(h, Probe(h, s, n), n);
    if t < s {
      ProbesDistinct(h, t, s, n);
    } else if s < t {
      ProbesDistinct(h, s, t, n);
    }
  }
}
