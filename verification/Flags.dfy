/** The packed bucket flags of khash.h: sixteen buckets to a 32-bit word, two bits each.
    Bit 1 of a pair says "empty", bit 0 says "deleted"; a pair is never 3. */
module Flags {
  import opened Bits

  datatype Status = Empty | Deleted | Live

  /** A flag word, and the bit position of one of its sixteen pairs. */
  type Word = bv32

  /** `(i & 0xf) << 1` for a bucket number i, as a word. */
  function Shift(i: nat): (s: Word)
    ensures s <= 30 && s & 1 == 0
  {
    var r := i % 16;
    if r == 0 then 0 else if r == 1 then 2 else if r == 2 then 4 else if r == 3 then 6
    else if r == 4 then 8 else if r == 5 then 10 else if r == 6 then 12 else if r == 7 then 14
    else if r == 8 then 16 else if r == 9 then 18 else if r == 10 then 20 else if r == 11 then 22
    else if r == 12 then 24 else if r == 13 then 26 else if r == 14 then 28 else 30
  }

  lemma ShiftInjective(i: nat, j: nat)
    ensures Shift(i) == Shift(j) <==> i % 16 == j % 16
  {
  }

  function Pair(w: Word, s: Word): Word
    requires s <= 30
  {
    (w >> s) & 3
  }

  /** What a pair of flag bits means; 3 does not occur. */
  ghost predicate Means(p: Word, st: Status) {
    match st
    case Live => p == 0
    case Deleted => p == 1
    case Empty => p == 2
  }

  /** `__ac_fsize`: the number of words for m buckets. */
  function FSize(m: nat): nat {
    if m < 16 then 1 else m / 16
  }

  /** Bucket i of the words has the given status. */
  ghost predicate BucketIs(words: seq<Word>, i: nat, st: Status)
  {
    i / 16 < |words| && Means(Pair(words[i / 16], Shift(i)), st)
  }

  /** The status of bucket i; the pairs of the last word that no bucket uses are never written after
      the words were filled, and stay empty. */
  ghost function StatusAt(st: seq<Status>, i: nat): Status {
    if i < |st| then st[i] else Empty
  }

  /** The words hold exactly the statuses st. */
  ghost predicate Represents(words: seq<Word>, st: seq<Status>) {
    && |words| * 16 >= |st|
    && forall i: nat {:trigger BucketIs(words, i, StatusAt(st, i))} ::
         i / 16 < |words| ==> BucketIs(words, i, StatusAt(st, i))
  }

  // ---------------------------------------------------------------------------
  // Word arithmetic

  lemma SetBits(w: Word, s: Word, t: Word)
    requires s <= 30 && t <= 30 && s & 1 == 0 && t & 1 == 0 && s != t
    ensures Pair(w & !(3 << s), t) == Pair(w, t)
    ensures Pair(w & !(2 << s), t) == Pair(w, t)
    ensures Pair(w | (1 << s), t) == Pair(w, t)
  {
  }

  lemma SetOwnBits(w: Word, s: Word)
    requires s <= 30 && s & 1 == 0
    ensures Pair(w & !(3 << s), s) == 0
    ensures Pair(w, s) == 2 ==> Pair(w & !(2 << s), s) == 0
    ensures Pair(w, s) == 0 ==> Pair(w | (1 << s), s) == 1
  {
  }

  lemma TestBits(w: Word, s: Word)
    requires s <= 30
    ensures (w >> s) & 2 == Pair(w, s) & 2
    ensures (w >> s) & 1 == Pair(w, s) & 1
    ensures Pair(0xaaaa_aaaa, s) == (if s & 1 == 0 then 2 else 1)
  {
  }

  lemma FSizeCovers(m: nat)
    ensures FSize(Pow2(m)) * 16 >= Pow2(m)
  {
    if m >= 4 {
      var q := Pow2(m - 4);
      Pow2Add(4, m - 4);
      assert Pow2(4) == 16;
      assert Pow2(m) == 16 * q;
      DivModUnique(Pow2(m), 16, q, 0);
    }
  }

  /** Changing one pair of one word changes that bucket only. */
  lemma SetRepresents(words: seq<Word>, st: seq<Status>, i: nat, w: Word, stat: Status)
    requires Represents(words, st) && i < |st|
    requires Means(Pair(w, Shift(i)), stat)
    requires forall t: Word :: t <= 30 && t & 1 == 0 && t != Shift(i) ==> Pair(w, t) == Pair(words[i / 16], t)
    ensures Represents(words[i / 16 := w], st[i := stat])
  {
    var words', st' := words[i / 16 := w], st[i := stat];
    forall j: nat {:trigger BucketIs(words', j, StatusAt(st', j))} | j / 16 < |words'|
      ensures BucketIs(words', j, StatusAt(st', j))
    {
      ShiftInjective(i, j);
      if j != i {
        assert BucketIs(words, j, StatusAt(st, j)) && StatusAt(st', j) == StatusAt(st, j);
        assert Pair(words'[j / 16], Shift(j)) == Pair(words[j / 16], Shift(j));
      }
    }
  }

  // ---------------------------------------------------------------------------
  // The flag macros

  method IsEmpty(flags: array<Word>, ghost st: seq<Status>, i: nat) returns (b: bool)
    requires Represents(flags[..], st) && i < |st|
    ensures b <==> st[i].Empty?
  {
    assert BucketIs(flags[..], i, StatusAt(st, i));
    TestBits(flags[i / 16], Shift(i));
    b := (flags[i / 16] >> Shift(i)) & 2 != 0;
  }

  method IsDel(flags: array<Word>, ghost st: seq<Status>, i: nat) returns (b: bool)
    requires Represents(flags[..], st) && i < |st|
    ensures b <==> st[i].Deleted?
  {
    assert BucketIs(flags[..], i, StatusAt(st, i));
    TestBits(flags[i / 16], Shift(i));
    b := (flags[i / 16] >> Shift(i)) & 1 != 0;
  }

  method IsEither(flags: array<Word>, ghost st: seq<Status>, i: nat) returns (b: bool)
    requires Represents(flags[..], st) && i / 16 < flags.Length
    ensures b <==> !StatusAt(st, i).Live?
  {
    assert BucketIs(flags[..], i, StatusAt(st, i));
    b := (flags[i / 16] >> Shift(i)) & 3 != 0;
  }

  /** Mark a live bucket deleted. */
  method SetIsDelTrue(flags: array<Word>, ghost st: seq<Status>, i: nat)
    requires Represents(flags[..], st) && i < |st| && st[i].Live?
    modifies flags
    ensures Represents(flags[..], st[i := Deleted])
  {
    assert BucketIs(flags[..], i, StatusAt(st, i));
    var s := Shift(i);
    ghost var w := flags[i / 16];
    ghost var before := flags[..];
    flags[i / 16] := flags[i / 16] | (1 << s);
    SetOwnBits(w, s);
    forall t: Word | t <= 30 && t & 1 == 0 && t != s
      ensures Pair(w | (1 << s), t) == Pair(w, t)
    {
      SetBits(w, s, t);
    }
    SetRepresents(before, st, i, w | (1 << s), Deleted);
    assert flags[..] == before[i / 16 := w | (1 << s)];
  }

  /** Mark an empty bucket live. */
  method SetIsEmptyFalse(flags: array<Word>, ghost st: seq<Status>, i: nat)
    requires Represents(flags[..], st) && i < |st| && st[i].Empty?
    modifies flags
    ensures Represents(flags[..], st[i := Live])
  {
    assert BucketIs(flags[..], i, StatusAt(st, i));
    var s := Shift(i);
    ghost var w := flags[i / 16];
    ghost var before := flags[..];
    flags[i / 16] := flags[i / 16] & !(2 << s);
    SetOwnBits(w, s);
    forall t: Word | t <= 30 && t & 1 == 0 && t != s
      ensures Pair(w & !(2 << s), t) == Pair(w, t)
    {
      SetBits(w, s, t);
    }
    SetRepresents(before, st, i, w & !(2 << s), Live);
    assert flags[..] == before[i / 16 := w & !(2 << s)];
  }

  /** Mark a bucket live whatever it was. */
  method SetIsBothFalse(flags: array<Word>, ghost st: seq<Status>, i: nat)
    requires Represents(flags[..], st) && i < |st|
    modifies flags
    ensures Represents(flags[..], st[i := Live])
  {
    assert BucketIs(flags[..], i, StatusAt(st, i));
    var s := Shift(i);
    ghost var w := flags[i / 16];
    ghost var before := flags[..];
    flags[i / 16] := flags[i / 16] & !(3 << s);
    SetOwnBits(w, s);
    forall t: Word | t <= 30 && t & 1 == 0 && t != s
      ensures Pair(w & !(3 << s), t) == Pair(w, t)
    {
      SetBits(w, s, t);
    }
    SetRepresents(before, st, i, w & !(3 << s), Live);
    assert flags[..] == before[i / 16 := w & !(3 << s)];
  }

  ghost function AllEmpty(n: nat): seq<Status> {
    seq(n, _ => Empty)
  }

  /** `memset(flags, 0xaa, ...)`: every bucket becomes empty. */
  method FillEmpty(flags: array<Word>, ghost n: nat)
    requires flags.Length * 16 >= n
    modifies flags
    ensures Represents(flags[..], AllEmpty(n))
  {
    for k := 0 to flags.Length
      invariant forall j :: 0 <= j < k ==> flags[j] == 0xaaaa_aaaa
    {
      flags[k] := 0xaaaa_aaaa;
    }
    ghost var words, st := flags[..], AllEmpty(n);
    forall i: nat {:trigger BucketIs(words, i, StatusAt(st, i))} | i / 16 < |words|
      ensures BucketIs(words, i, StatusAt(st, i))
    {
      TestBits(words[i / 16], Shift(i));
    }
  }
}
