/** What the output side of the serial server does to the bytes of its streams, as functions on
    sequences: cutting off lines, cutting off a prefix common to all streams, and the record of
    what was printed for whom. */
module SerialLines {
  import opened Basics

  const CR: Byte := 13
  const LF: Byte := 10

  predicate IsEol(c: Byte) {
    c == CR || c == LF
  }

  /** is_newline: CR LF or LF CR. */
  predicate IsNewline(c0: Byte, c1: Byte) {
    (c0 == CR && c1 == LF) || (c0 == LF && c1 == CR)
  }

  ghost predicate EndsInNewline(s: seq<Byte>) {
    |s| >= 2 && IsNewline(s[|s| - 2], s[|s| - 1])
  }

  /** CR is 13 and LF is 10. */
  lemma NewlineBytes(s: seq<Byte>)
    ensures EndsInNewline(s) <==> |s| >= 2 && (s[|s| - 2..] == [13, 10] || s[|s| - 2..] == [10, 13])
  {
    assert |s| >= 2 ==> s[|s| - 2..] == [s[|s| - 2], s[|s| - 1]];
  }

  ghost predicate NoEol(s: seq<Byte>) {
    forall i :: 0 <= i < |s| ==> !IsEol(s[i])
  }

  /** The position of the first c in s, or |s|: what memchr finds. */
  function IndexOf(s: seq<Byte>, c: Byte): (i: nat)
    ensures i <= |s| && (i < |s| ==> s[i] == c)
    ensures forall j :: 0 <= j < i ==> s[j] != c
  {
    if s == [] || s[0] == c then 0 else 1 + IndexOf(s[1..], c)
  }

  /** The byte at p is the first CR of s (13), or the first LF (10) if there is no CR at all. */
  ghost predicate EndsLineAt(s: seq<Byte>, p: int) {
    0 <= p < |s| &&
      ((s[p] == 13 && forall i :: 0 <= i < p ==> s[i] != 13)
       || (s[p] == 10 && (forall i :: 0 <= i < |s| ==> s[i] != 13) && forall i :: 0 <= i < p ==> s[i] != 10))
  }

  /** The first n bytes of s are its first line: the text up to such a byte, and one more CR or LF exactly if
      that is the next byte; nothing exactly if s has neither. */
  ghost predicate FirstLine(s: seq<Byte>, n: nat) {
    && n <= |s|
    && (n == 0 <==> forall i :: 0 <= i < |s| ==> s[i] != 13 && s[i] != 10)
    && (n > 0 ==> exists p ::
          EndsLineAt(s, p) && n == if p + 1 < |s| && (s[p + 1] == 13 || s[p + 1] == 10) then p + 2 else p + 1)
  }

  /** A buffer has one first line. */
  lemma FirstLineUnique(s: seq<Byte>, m: nat, n: nat)
    requires FirstLine(s, m) && FirstLine(s, n)
    ensures m == n
  {
    if m > 0 && n > 0 {
      var p :| EndsLineAt(s, p) && m == if p + 1 < |s| && (s[p + 1] == 13 || s[p + 1] == 10) then p + 2 else p + 1;
      var q :| EndsLineAt(s, q) && n == if q + 1 < |s| && (s[q + 1] == 13 || s[q + 1] == 10) then q + 2 else q + 1;
      assert p == q;
    }
  }

  /** How much flush_buffer_line takes off the front of a buffer: up to the first CR, or up to the
      first LF if there is no CR, and one more end-of-line byte if it follows at once. */
  function LineLength(s: seq<Byte>): (n: nat)
    ensures n <= |s|
    ensures n == 0 <==> NoEol(s)
    ensures n > 0 ==> IsEol(s[n - 1])
  {
    var cr := IndexOf(s, CR);
    var p := if cr < |s| then cr else IndexOf(s, LF);
    if p == |s| then 0
    else if p + 1 < |s| && IsEol(s[p + 1]) then p + 2
    else p + 1
  }

  lemma LineIsFirst(s: seq<Byte>)
    ensures FirstLine(s, LineLength(s))
  {
    var cr := IndexOf(s, CR);
    var p := if cr < |s| then cr else IndexOf(s, LF);
    assert p < |s| ==> EndsLineAt(s, p);
  }

  /** What is left of a buffer once no line can be taken off it any more. */
  function Rest(s: seq<Byte>): seq<Byte>
    decreases |s|
  {
    if LineLength(s) == 0 then s else Rest(s[LineLength(s)..])
  }

  /** It is the part after the last end-of-line byte. */
  lemma {:induction false} RestIsUnfinishedLine(s: seq<Byte>)
    ensures NoEol(Rest(s)) && EndsAs(s, Rest(s))
    decreases |s|
  {
    var n := LineLength(s);
    if n > 0 {
      var t := s[n..];
      RestIsUnfinishedLine(t);
      EndsAsMore(s, n, Rest(t));
      assert Rest(s) == Rest(t);
    } else {
      assert s[|s| - |s|..] == s;
    }
  }

  /** rest is how s ends, and nothing or an end-of-line byte comes before it. */
  ghost predicate EndsAs(s: seq<Byte>, rest: seq<Byte>) {
    var before := |s| - |rest|;
    before >= 0 && rest == s[before..] && (before > 0 ==> IsEol(s[before - 1]))
  }

  lemma EndsAsMore(s: seq<Byte>, n: nat, rest: seq<Byte>)
    requires 0 < n <= |s| && IsEol(s[n - 1]) && EndsAs(s[n..], rest)
    ensures EndsAs(s, rest)
  {
    var before := |s[n..]| - |rest|;
    assert s[n..][before..] == s[n + before..];
    assert before > 0 ==> s[n..][before - 1] == s[n + before - 1];
  }

  /** The two sets of buffers differ only in how many of their lines are still there. */
  ghost predicate SameRest(held: seq<seq<Byte>>, held': seq<seq<Byte>>) {
    |held'| == |held| && forall b: nat :: b < |held| ==> Rest(held'[b]) == Rest(held[b])
  }

  ghost predicate NoLines(held: seq<seq<Byte>>) {
    forall b: nat :: b < |held| ==> LineLength(held[b]) == 0
  }

  /** Every buffer without its lines. */
  ghost function Rests(held: seq<seq<Byte>>): (r: seq<seq<Byte>>)
    ensures |r| == |held|
  {
    seq(|held|, b requires 0 <= b < |held| => Rest(held[b]))
  }

  lemma NoLinesLeft(held: seq<seq<Byte>>, held': seq<seq<Byte>>)
    requires SameRest(held, held') && NoLines(held')
    ensures held' == Rests(held)
  {
    forall b: nat | b < |held|
      ensures held'[b] == Rest(held[b])
    {
      assert Rest(held'[b]) == held'[b];
    }
  }

  lemma SameRests(held: seq<seq<Byte>>, held': seq<seq<Byte>>)
    requires SameRest(held, held')
    ensures Rests(held') == Rests(held)
  {
  }

  function Total(held: seq<seq<Byte>>): nat {
    if held == [] then 0 else Total(held[..|held| - 1]) + |held[|held| - 1]|
  }

  lemma {:induction false} TotalUpdate(held: seq<seq<Byte>>, b: nat, s: seq<Byte>)
    requires b < |held|
    ensures Total(held[b := s]) == Total(held) - |held[b]| + |s|
  {
    var n := |held| - 1;
    if b == n {
      assert held[b := s][..n] == held[..n];
    } else {
      assert held[b := s][..n] == held[..n][b := s];
      TotalUpdate(held[..n], b, s);
    }
  }

  /** Taking one line off one buffer. */
  lemma LineTaken(held: seq<seq<Byte>>, b: nat)
    requires b < |held| && LineLength(held[b]) > 0
    ensures SameRest(held, held[b := held[b][LineLength(held[b])..]])
    ensures Total(held[b := held[b][LineLength(held[b])..]]) < Total(held)
  {
    TotalUpdate(held, b, held[b][LineLength(held[b])..]);
  }

  // ---------------------------------------------------------------------------
  // The output record

  /** One uninterrupted piece of output and the streams it was printed for. */
  datatype Chunk = Chunk(streams: set<nat>, bytes: seq<Byte>)

  /** Everything printed, in order. */
  ghost function Console(log: seq<Chunk>): seq<Byte> {
    if log == [] then [] else Console(log[..|log| - 1]) + log[|log| - 1].bytes
  }

  /** Everything printed for stream b, in order. */
  ghost function PrintedFor(log: seq<Chunk>, b: nat): seq<Byte> {
    if log == [] then []
    else
      var last := log[|log| - 1];
      PrintedFor(log[..|log| - 1], b) + (if b in last.streams then last.bytes else [])
  }

  lemma LogMore(log: seq<Chunk>, chunk: Chunk, b: nat)
    ensures Console(log + [chunk]) == Console(log) + chunk.bytes
    ensures PrintedFor(log + [chunk], b) == PrintedFor(log, b) + (if b in chunk.streams then chunk.bytes else [])
  {
    assert (log + [chunk])[..|log|] == log;
  }

  /** The account kept of the output: what was printed, what is still held for each stream, and
      what each stream has written. */
  datatype Ledger = Ledger(log: seq<Chunk>, held: seq<seq<Byte>>, written: seq<seq<Byte>>) {

    /** Nothing is lost or added: what was printed for a stream and what is still held for it make
        up what the stream has written. */
    ghost predicate Balanced() {
      match this
      case Ledger(log, held, written) =>
        && |held| == |written|
        && forall b: nat :: b < |held| ==> PrintedFor(log, b) + held[b] == written[b]
    }

    /** Stream b writes a byte. */
    ghost function Write(b: nat, c: Byte): Ledger
      requires b < |held| && |held| == |written|
    {
      this.(held := held[b := held[b] + [c]], written := written[b := written[b] + [c]])
    }

    /** The first n bytes held for stream b are printed. */
    ghost function Print(b: nat, n: nat): Ledger
      requires b < |held| && n <= |held[b]|
    {
      if n == 0 then this
      else this.(log := log + [Chunk({b}, held[b][..n])], held := held[b := held[b][n..]])
    }
  }

  lemma WriteBalanced(l: Ledger, b: nat, c: Byte)
    requires l.Balanced() && b < |l.held|
    ensures |l.held| == |l.written| && l.Write(b, c).Balanced()
  {
    assert PrintedFor(l.log, b) + (l.held[b] + [c]) == PrintedFor(l.log, b) + l.held[b] + [c];
  }

  lemma PrintBalanced(l: Ledger, b: nat, n: nat)
    requires l.Balanced() && b < |l.held| && n <= |l.held[b]|
    ensures l.Print(b, n).Balanced()
    ensures Console(l.Print(b, n).log) == Console(l.log) + l.held[b][..n]
  {
    if n > 0 {
      var l', front := l.Print(b, n), l.held[b][..n];
      LogMore(l.log, Chunk({b}, front), b);
      assert l.held[b] == front + l.held[b][n..];
      forall i: nat | i < |l.held|
        ensures PrintedFor(l'.log, i) + l'.held[i] == l.written[i]
      {
        LogMore(l.log, Chunk({b}, front), i);
        if i == b {
          assert PrintedFor(l.log, b) + front + l.held[b][n..] == PrintedFor(l.log, b) + l.held[b];
        } else {
          assert PrintedFor(l.log, i) + [] == PrintedFor(l.log, i);
        }
      }
    }
  }

  /** Printing all that is held for a stream. */
  lemma PrintAll(l: Ledger, b: nat)
    requires b < |l.held|
    ensures l.Print(b, |l.held[b]|).held == l.held[b := []]
    ensures l.Print(b, |l.held[b]|).written == l.written
    ensures l.Print(b, |l.held[b]|).log == l.log + (if |l.held[b]| == 0 then [] else [Chunk({b}, l.held[b])])
  {
    assert l.held[b][..|l.held[b]|] == l.held[b];
    assert l.held[b][|l.held[b]|..] == [];
  }

  // ---------------------------------------------------------------------------
  // Coalescing

  /** The streams that hold something. */
  ghost function Busy(held: seq<seq<Byte>>): set<nat> {
    set b: nat | b < |held| && held[b] != []
  }

  /** The least length of a non-empty buffer among the first n, 0 if they are all empty. */
  function MinUpTo(held: seq<seq<Byte>>, n: nat): nat
    requires n <= |held|
  {
    if n == 0 then 0
    else
      var m := MinUpTo(held, n - 1);
      if held[n - 1] != [] && (m == 0 || |held[n - 1]| < m) then |held[n - 1]| else m
  }

  /** The first non-empty buffer among the first n, n if they are all empty. */
  function FirstBusy(held: seq<seq<Byte>>, n: nat): (f: nat)
    requires n <= |held|
    ensures f <= n && (f < n ==> held[f] != []) && forall b :: 0 <= b < f ==> held[b] == []
  {
    if n == 0 then 0
    else
      var f := FirstBusy(held, n - 1);
      if f < n - 1 then f else if held[n - 1] != [] then n - 1 else n
  }

  /** Buffer b agrees with the first non-empty one on the length compared when the scan reaches b. */
  ghost predicate AgreesAt(held: seq<seq<Byte>>, b: nat)
    requires b < |held|
  {
    held[b] != [] ==>
      var f, m := FirstBusy(held, b + 1), MinUpTo(held, b + 1);
      m <= |held[f]| && m <= |held[b]| && held[f][..m] == held[b][..m]
  }

  lemma {:induction false} MinBounds(held: seq<seq<Byte>>, n: nat, b: nat)
    requires b < n <= |held| && held[b] != []
    ensures 0 < MinUpTo(held, n) <= |held[b]|
    ensures MinUpTo(held, n) <= MinUpTo(held, b + 1)
    ensures FirstBusy(held, n) == FirstBusy(held, b + 1) <= b
  {
    if b < n - 1 {
      MinBounds(held, n - 1, b);
    }
  }

  /** One step of the scan, at a busy buffer b. */
  lemma ScanStep(held: seq<seq<Byte>>, b: nat)
    requires b < |held| && held[b] != []
    ensures var f, m := FirstBusy(held, b + 1), MinUpTo(held, b + 1);
      && f <= b && 0 < m <= |held[f]| && m <= |held[b]|
      && (AgreesAt(held, b) <==> held[f][..m] == held[b][..m])
  {
    MinBounds(held, b + 1, b);
    FirstBounds(held, b + 1);
  }

  lemma FirstBounds(held: seq<seq<Byte>>, n: nat)
    requires n <= |held| && FirstBusy(held, n) < n
    ensures 0 < MinUpTo(held, n) <= |held[FirstBusy(held, n)]|
  {
    MinBounds(held, n, FirstBusy(held, n));
  }

  /** The scan found no difference: every non-empty buffer starts with the same `MinUpTo` bytes. */
  lemma CommonPrefix(held: seq<seq<Byte>>, b: nat)
    requires forall i: nat :: i < |held| ==> AgreesAt(held, i)
    requires b < |held| && held[b] != []
    ensures FirstBusy(held, |held|) < |held|
    ensures 0 < MinUpTo(held, |held|) <= |held[b]| && MinUpTo(held, |held|) <= |held[FirstBusy(held, |held|)]|
    ensures held[FirstBusy(held, |held|)][..MinUpTo(held, |held|)] == held[b][..MinUpTo(held, |held|)]
  {
    MinBounds(held, |held|, b);
    FirstBounds(held, |held|);
    var f, m, l := FirstBusy(held, |held|), MinUpTo(held, b + 1), MinUpTo(held, |held|);
    assert AgreesAt(held, b);
    assert held[f][..m][..l] == held[f][..l];
    assert held[b][..m][..l] == held[b][..l];
  }

  /** The scan has passed the first i streams: `busy` are the non-empty ones, `length` the least
      length among them, and no difference was found. */
  ghost predicate Scanned(held: seq<seq<Byte>>, i: nat, busy: seq<nat>, length: nat)
    requires i <= |held|
  {
    && length == MinUpTo(held, i)
    && (forall b: nat :: b < i ==> AgreesAt(held, b))
    && (forall b: nat :: b in busy <==> b < i && held[b] != [])
    && (forall j, k :: 0 <= j < k < |busy| ==> busy[j] < busy[k])
    && FirstBusy(held, i) == if busy == [] then i else busy[0]
  }

  lemma ScanIdle(held: seq<seq<Byte>>, i: nat, busy: seq<nat>, length: nat)
    requires i < |held| && Scanned(held, i, busy, length) && held[i] == []
    ensures Scanned(held, i + 1, busy, length)
  {
  }

  lemma ScanBusy(held: seq<seq<Byte>>, i: nat, busy: seq<nat>, length: nat)
    requires i < |held| && Scanned(held, i, busy, length) && held[i] != []
    ensures var busy', length' :=
      busy + [i], if length == 0 || length > |held[i]| then |held[i]| else length;
      && length' <= |held[busy'[0]]| && length' <= |held[i]|
      && busy'[0] < |held|
      && (busy == [] ==> AgreesAt(held, i))
      && (AgreesAt(held, i) <==> held[busy'[0]][..length'] == held[i][..length'])
      && (AgreesAt(held, i) ==> Scanned(held, i + 1, busy', length'))
  {
    ScanStep(held, i);
    var busy' := busy + [i];
    assert FirstBusy(held, i + 1) == busy'[0] by {
      if busy != [] {
        assert busy[0] in busy;
      }
    }
    forall j, k | 0 <= j < k < |busy'|
      ensures busy'[j] < busy'[k]
    {
      assert busy'[j] in busy;
    }
  }

  /** The streams below i, other than `keep`, have been emptied. */
  ghost predicate EmptiedBelow(held: seq<seq<Byte>>, held': seq<seq<Byte>>, keep: int, i: nat) {
    && |held'| == |held|
    && forall b: nat :: b < |held| ==> held'[b] == if b == keep || b >= i then held[b] else []
  }

  lemma EmptyNext(held: seq<seq<Byte>>, held': seq<seq<Byte>>, keep: int, i: nat)
    requires EmptiedBelow(held, held', keep, i) && i < |held|
    ensures EmptiedBelow(held, if i == keep then held' else held'[i := []], keep, i + 1)
  {
  }

  lemma PrefixAgrees(s: seq<Byte>, t: seq<Byte>, m: nat)
    requires (s <= t || t <= s) && m <= |s| && m <= |t|
    ensures s[..m] == t[..m]
  {}

  /** A difference found by the scan is a real one: neither buffer is a prefix of the other. */
  lemma DifferenceIsReal(held: seq<seq<Byte>>, b: nat)
    requires b < |held| && !AgreesAt(held, b)
    ensures var f := FirstBusy(held, b + 1); f < b && !(held[f] <= held[b]) && !(held[b] <= held[f])
  {
    MinBounds(held, b + 1, b);
    FirstBounds(held, b + 1);
    var f, m := FirstBusy(held, b + 1), MinUpTo(held, b + 1);
    if held[f] <= held[b] || held[b] <= held[f] {
      PrefixAgrees(held[f], held[b], m);
    }
  }

  /** Every buffer without its first n bytes; the empty ones stay empty. */
  function DropAll(held: seq<seq<Byte>>, n: nat): (r: seq<seq<Byte>>)
    requires forall b :: 0 <= b < |held| ==> held[b] == [] || n <= |held[b]|
    ensures |r| == |held|
    ensures forall b :: 0 <= b < |held| ==> r[b] == if held[b] == [] then [] else held[b][n..]
  {
    seq(|held|, b requires 0 <= b < |held| => if held[b] == [] then [] else held[b][n..])
  }

  /** The common prefix is printed once, for all busy streams. */
  ghost function Coalesced(l: Ledger, common: seq<Byte>): Ledger
    requires forall b :: 0 <= b < |l.held| ==> l.held[b] == [] || common <= l.held[b]
  {
    l.(log := l.log + [Chunk(Busy(l.held), common)], held := DropAll(l.held, |common|))
  }

  lemma CoalesceBalanced(l: Ledger, common: seq<Byte>)
    requires l.Balanced()
    requires forall b :: 0 <= b < |l.held| ==> l.held[b] == [] || common <= l.held[b]
    ensures Coalesced(l, common).Balanced()
    ensures Console(Coalesced(l, common).log) == Console(l.log) + common
  {
    LogMore(l.log, Chunk(Busy(l.held), common), 0);
    var l' := Coalesced(l, common);
    forall b: nat | b < |l.held|
      ensures PrintedFor(l'.log, b) + l'.held[b] == l.written[b]
    {
      CoalesceStream(l, common, b);
    }
  }

  lemma CoalesceStream(l: Ledger, common: seq<Byte>, b: nat)
    requires l.Balanced() && b < |l.held|
    requires forall b :: 0 <= b < |l.held| ==> l.held[b] == [] || common <= l.held[b]
    ensures var l' := Coalesced(l, common); PrintedFor(l'.log, b) + l'.held[b] == l.written[b]
  {
    LogMore(l.log, Chunk(Busy(l.held), common), b);
    var rest := DropAll(l.held, |common|)[b];
    if l.held[b] == [] {
      assert PrintedFor(l.log, b) + [] + rest == PrintedFor(l.log, b) + l.held[b];
    } else {
      assert l.held[b] == common + rest;
      assert PrintedFor(l.log, b) + common + rest == PrintedFor(l.log, b) + l.held[b];
    }
  }

  ghost predicate Alike(held: seq<seq<Byte>>) {
    forall b: nat :: b < |held| ==> AgreesAt(held, b)
  }

  ghost predicate TwoBusy(held: seq<seq<Byte>>) {
    exists a: nat, b: nat :: a < b < |held| && held[a] != [] && held[b] != []
  }

  lemma ScannedTwo(held: seq<seq<Byte>>, busy: seq<nat>, length: nat)
    requires Scanned(held, |held|, busy, length)
    ensures Alike(held)
    ensures TwoBusy(held) <==> |busy| > 1
  {
    if |busy| > 1 {
      assert busy[0] in busy && busy[1] in busy;
    }
    if TwoBusy(held) {
      var a: nat, b: nat :| a < b < |held| && held[a] != [] && held[b] != [];
      assert a in busy && b in busy;
    }
  }

  /** The bytes every busy buffer starts with. */
  ghost function Common(held: seq<seq<Byte>>): seq<Byte>
    requires Alike(held)
  {
    var f := FirstBusy(held, |held|);
    if f == |held| then []
    else
      FirstBounds(held, |held|);
      held[f][..MinUpTo(held, |held|)]
  }

  lemma CommonIsPrefix(held: seq<seq<Byte>>)
    requires Alike(held)
    ensures forall b :: 0 <= b < |held| ==> held[b] == [] || Common(held) <= held[b]
    ensures (exists b :: 0 <= b < |held| && held[b] != []) ==> |Common(held)| == MinUpTo(held, |held|) > 0
  {
    forall b: nat | b < |held| && held[b] != []
      ensures Common(held) <= held[b] && |Common(held)| == MinUpTo(held, |held|) > 0
    {
      CommonPrefix(held, b);
    }
  }

  /** The first k of the busy streams have lost their first n bytes. */
  ghost predicate DroppedSome(held: seq<seq<Byte>>, held': seq<seq<Byte>>, busy: seq<nat>, k: nat, n: nat)
    requires k <= |busy|
  {
    && |held'| == |held|
    && forall b: nat :: b < |held| ==>
         if b in busy[..k] then n <= |held[b]| && held'[b] == held[b][n..] else held'[b] == held[b]
  }

  lemma DropNext(held: seq<seq<Byte>>, held': seq<seq<Byte>>, busy: seq<nat>, k: nat, n: nat, length: nat)
    requires Scanned(held, |held|, busy, length) && k < |busy| && DroppedSome(held, held', busy, k, n)
    requires forall b: nat :: b < |held| && held[b] != [] ==> n <= |held[b]|
    ensures var b := busy[k]; b < |held| && held'[b] == held[b] && n <= |held'[b]|
    ensures DroppedSome(held, held'[busy[k] := held'[busy[k]][n..]], busy, k + 1, n)
  {
    var b := busy[k];
    assert b in busy;
    assert b !in busy[..k];
    assert busy[..k + 1] == busy[..k] + [b];
  }

  lemma DroppedAll(held: seq<seq<Byte>>, held': seq<seq<Byte>>, busy: seq<nat>, n: nat, length: nat)
    requires Scanned(held, |held|, busy, length) && DroppedSome(held, held', busy, |busy|, n)
    requires forall b: nat :: b < |held| && held[b] != [] ==> n <= |held[b]|
    ensures held' == DropAll(held, n)
  {
    assert busy[..|busy|] == busy;
  }

  /** Coalescing happens: multi-client input is on and several busy streams all start alike. */
  ghost predicate Coalesces(held: seq<seq<Byte>>, multi: bool) {
    multi && Alike(held) && TwoBusy(held)
  }

  /** The account after stream b has written c and coalescing has had its chance. */
  ghost function AfterWrite(l: Ledger, b: nat, c: Byte, multi: bool): Ledger
    requires b < |l.held| == |l.written|
  {
    var w := l.Write(b, c);
    if Coalesces(w.held, multi) then
      CommonIsPrefix(w.held);
      Coalesced(w, Common(w.held))
    else w
  }

  lemma AfterWriteLength(l: Ledger, b: nat, c: Byte, multi: bool)
    requires b < |l.held| == |l.written|
    ensures var l' := AfterWrite(l, b, c, multi);
      && |l'.held| == |l.held| && l'.written == l.Write(b, c).written
      && |l'.held[b]| <= |l.held[b]| + 1
      && (|l'.held[b]| == |l.held[b]| + 1 <==> !Coalesces(l.Write(b, c).held, multi))
  {
    var w := l.Write(b, c);
    if Coalesces(w.held, multi) {
      CommonIsPrefix(w.held);
      assert w.held[b] != [];
    }
  }

  /** The rest of a buffer is all of it exactly when it holds no end-of-line byte. */
  lemma RestLength(s: seq<Byte>)
    ensures |Rest(s)| <= |s|
    ensures |Rest(s)| == |s| <==> NoEol(s)
    ensures NoEol(s) ==> Rest(s) == s
  {
    RestIsUnfinishedLine(s);
  }
}
