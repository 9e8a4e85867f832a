/** What flushing does to everything the output side of the serial server keeps: its account, which streams it
    has marked as buffered, and the stream it printed last. */
module SerialScreen {
  import opened Basics
  import opened SerialLines

  const STREAMS: nat := 24
  const CAPACITY: nat := 4096

  /** `marked` are the streams with their bit in output_buffer_bitmask, `last` is last_out and `done` is
      done_output. */
  datatype Screen = Screen(ledger: Ledger, marked: set<nat>, last: int, done: bool)

  // ---------------------------------------------------------------------------
  // What is printed, in which order

  /** The first n bytes of stream b are printed. */
  ghost function Show(s: Screen, b: nat, n: nat): (t: Screen)
    requires b < |s.ledger.held| && n <= |s.ledger.held[b]|
    ensures |t.ledger.held| == |s.ledger.held|
  {
    if n == 0 then s
    else
      s.(ledger := s.ledger.Print(b, n),
         marked := if n == |s.ledger.held[b]| then s.marked - {b} else s.marked,
         last := b)
  }

  /** One line of stream b. */
  ghost function LineOff(s: Screen, b: nat): (t: Screen)
    requires b < |s.ledger.held|
    ensures |t.ledger.held| == |s.ledger.held|
  {
    Show(s, b, LineLength(s.ledger.held[b]))
  }

  /** All of stream b. */
  ghost function WholeOff(s: Screen, b: nat): (t: Screen)
    requires b < |s.ledger.held|
    ensures |t.ledger.held| == |s.ledger.held|
  {
    if s.ledger.held[b] == [] then s else Show(s, b, |s.ledger.held[b]|).(done := true)
  }

  /** One line of each of the first i streams, in this order. */
  ghost function Round(s: Screen, i: nat): (t: Screen)
    requires i <= |s.ledger.held|
    ensures |t.ledger.held| == |s.ledger.held|
  {
    if i == 0 then s else LineOff(Round(s, i - 1), i - 1)
  }

  /** Rounds over all streams, until there are no lines left. */
  ghost function LinesOff(s: Screen): (t: Screen)
    ensures |t.ledger.held| == |s.ledger.held|
    decreases Total(s.ledger.held)
  {
    var n := |s.ledger.held|;
    RoundFlushes(s, n);
    assert NoLinesBelow(s.ledger.held, n) <==> NoLines(s.ledger.held);
    if NoLines(s.ledger.held) then s else LinesOff(Round(s, n))
  }

  /** All of each of the first i streams but `keep`, in this order. */
  ghost function WholesOff(s: Screen, keep: int, i: nat): (t: Screen)
    requires i <= |s.ledger.held|
    ensures |t.ledger.held| == |s.ledger.held|
  {
    if i == 0 then s
    else if i - 1 == keep then WholesOff(s, keep, i - 1)
    else WholeOff(WholesOff(s, keep, i - 1), i - 1)
  }

  /** The stream printed last finishes a line; then all lines of all streams; then, if stream b is still
      full, all other streams. */
  ghost function MadeRoom(s: Screen, b: nat): (t: Screen)
    requires b < |s.ledger.held| && -1 <= s.last < |s.ledger.held|
    ensures |t.ledger.held| == |s.ledger.held|
  {
    var lines := LinesOff(if s.last == -1 then s else LineOff(s, s.last));
    if |lines.ledger.held[b]| == CAPACITY then WholesOff(lines, b, |s.ledger.held|) else lines
  }

  // ---------------------------------------------------------------------------
  // What every flush keeps

  /** The streams that held something and no longer do. */
  ghost function Emptied(held: seq<seq<Byte>>, held': seq<seq<Byte>>): set<nat>
    requires |held'| == |held|
  {
    set b: nat | b < |held| && held[b] != [] && held'[b] == []
  }

  /** What was printed since is `log'` after `log`; the stream printed last is the one of its last piece. */
  ghost predicate LastShown(log: seq<Chunk>, log': seq<Chunk>, last: int, last': int) {
    && log <= log'
    && if |log'| == |log| then last' == last else last' >= 0 && log'[|log'| - 1].streams == {last' as nat}
  }

  /** Only printing has happened: nothing was written, what is still held is how it ended before, exactly the
      streams that were emptied have lost their mark, and the stream printed last is known as such. */
  ghost predicate Flushes(s: Screen, t: Screen) {
    && |t.ledger.held| == |s.ledger.held| && t.ledger.written == s.ledger.written
    && (forall b: nat :: b < |s.ledger.held| ==> IsTail(s.ledger.held[b], t.ledger.held[b]))
    && t.marked == s.marked - Emptied(s.ledger.held, t.ledger.held)
    && LastShown(s.ledger.log, t.ledger.log, s.last, t.last)
  }

  ghost predicate IsTail(s: seq<Byte>, t: seq<Byte>) {
    |t| <= |s| && t == s[|s| - |t|..]
  }

  lemma FlushesTwice(s: Screen, t: Screen, u: Screen)
    requires Flushes(s, t) && Flushes(t, u)
    ensures Flushes(s, u)
  {
    forall b: nat | b < |s.ledger.held|
      ensures IsTail(s.ledger.held[b], u.ledger.held[b])
    {
      assert IsTail(s.ledger.held[b], t.ledger.held[b]) && IsTail(t.ledger.held[b], u.ledger.held[b]);
    }
    assert Emptied(s.ledger.held, u.ledger.held) ==
      Emptied(s.ledger.held, t.ledger.held) + Emptied(t.ledger.held, u.ledger.held);
  }

  lemma FlushesNone(s: Screen)
    ensures Flushes(s, s)
  {
    assert forall b: nat :: b < |s.ledger.held| ==> s.ledger.held[b] == s.ledger.held[b][0..];
  }

  lemma ShowFlushes(s: Screen, b: nat, n: nat)
    requires b < |s.ledger.held| && n <= |s.ledger.held[b]|
    ensures Flushes(s, Show(s, b, n))
  {
    FlushesNone(s);
    if n > 0 {
      var t := Show(s, b, n);
      assert Emptied(s.ledger.held, t.ledger.held) == if n == |s.ledger.held[b]| then {b} else {};
    }
  }

  /** A round takes the first line off each of its streams that has one, and off nothing else. */
  lemma {:induction false} RoundHeld(s: Screen, i: nat)
    requires i <= |s.ledger.held|
    ensures forall b: nat :: b < |s.ledger.held| ==>
      Round(s, i).ledger.held[b] ==
        if b < i then s.ledger.held[b][LineLength(s.ledger.held[b])..] else s.ledger.held[b]
  {
    hide LineLength;
    if i > 0 {
      RoundHeld(s, i - 1);
    }
  }

  /** One line off, if there is one. */
  lemma LineOffFlushes(s: Screen, b: nat)
    requires b < |s.ledger.held|
    ensures Flushes(s, LineOff(s, b)) && LineOff(s, b).done == s.done
    ensures SameRest(s.ledger.held, LineOff(s, b).ledger.held)
    ensures if LineLength(s.ledger.held[b]) == 0 then LineOff(s, b) == s
            else Total(LineOff(s, b).ledger.held) < Total(s.ledger.held)
  {
    ShowFlushes(s, b, LineLength(s.ledger.held[b]));
    if LineLength(s.ledger.held[b]) > 0 {
      LineTaken(s.ledger.held, b);
    }
  }

  ghost predicate NoLinesBelow(held: seq<seq<Byte>>, i: nat)
    requires i <= |held|
  {
    forall b: nat :: b < i ==> LineLength(held[b]) == 0
  }

  lemma NoneBelow(held: seq<seq<Byte>>, i: nat)
    requires 0 < i <= |held|
    ensures NoLinesBelow(held, i) <==> NoLinesBelow(held, i - 1) && LineLength(held[i - 1]) == 0
  {}

  /** What a round has done once it is past the first i streams. */
  ghost predicate RoundDone(s: Screen, t: Screen, i: nat)
    requires i <= |s.ledger.held|
  {
    && Flushes(s, t) && t.done == s.done && SameRest(s.ledger.held, t.ledger.held)
    && if NoLinesBelow(s.ledger.held, i) then t == s else Total(t.ledger.held) < Total(s.ledger.held)
  }

  lemma RoundNone(s: Screen)
    ensures RoundDone(s, s, 0)
  {
    FlushesNone(s);
  }

  lemma RoundStep(s: Screen, r: Screen, i: nat)
    requires i < |s.ledger.held| && RoundDone(s, r, i) && r.ledger.held[i] == s.ledger.held[i]
    ensures RoundDone(s, LineOff(r, i), i + 1)
  {
    hide Flushes, LineOff, LineLength, Total, Rest;
    LineOffFlushes(r, i);
    FlushesTwice(s, r, LineOff(r, i));
    NoneBelow(s.ledger.held, i + 1);
  }

  /** What was printed is the first line of stream b, byte for byte, if it has one; then b was printed last, and
      it is unmarked exactly if that was all of it. */
  ghost predicate OneLine(s: Screen, t: Screen, b: nat)
    requires b < |s.ledger.held| == |t.ledger.held|
  {
    var had, has := s.ledger.held[b], t.ledger.held[b];
    var n := |had| - |has|;
    && 0 <= n && FirstLine(had, n)
    && t.ledger == s.ledger.Print(b, n)
    && t.last == (if n > 0 then b else s.last)
    && t.marked == (if n > 0 && has == [] then s.marked - {b} else s.marked)
    && t.done == s.done
  }

  lemma LineShown(s: Screen, b: nat)
    requires b < |s.ledger.held|
    ensures OneLine(s, LineOff(s, b), b)
    ensures |LineOff(s, b).ledger.held[b]| == |s.ledger.held[b]| - LineLength(s.ledger.held[b])
  {
    LineIsFirst(s.ledger.held[b]);
  }

  /** A round that finds a line prints something, and one that finds none changes nothing. */
  lemma {:induction false} RoundFlushes(s: Screen, i: nat)
    requires i <= |s.ledger.held|
    ensures RoundDone(s, Round(s, i), i)
  {
    hide RoundDone, LineOff;
    if i == 0 {
      RoundNone(s);
    } else {
      RoundFlushes(s, i - 1);
      RoundHeld(s, i - 1);
      RoundStep(s, Round(s, i - 1), i - 1);
    }
  }

  /** All lines are gone and nothing else is. */
  lemma {:induction false} LinesOffFlushes(s: Screen)
    ensures Flushes(s, LinesOff(s)) && LinesOff(s).done == s.done
    ensures LinesOff(s).ledger.held == Rests(s.ledger.held) && NoLines(LinesOff(s).ledger.held)
    ensures NoLines(s.ledger.held) ==> LinesOff(s) == s
    decreases Total(s.ledger.held)
  {
    var r := Round(s, |s.ledger.held|);
    RoundFlushes(s, |s.ledger.held|);
    if NoLines(s.ledger.held) {
      FlushesNone(s);
      NoLinesLeft(s.ledger.held, s.ledger.held);
    } else {
      assert !NoLinesBelow(s.ledger.held, |s.ledger.held|);
      LinesOffFlushes(r);
      FlushesTwice(s, r, LinesOff(s));
      SameRests(s.ledger.held, r.ledger.held);
    }
  }

  lemma WholeOffFlushes(s: Screen, b: nat)
    requires b < |s.ledger.held|
    ensures Flushes(s, WholeOff(s, b)) && WholeOff(s, b).ledger.held == s.ledger.held[b := []]
    ensures WholeOff(s, b).done <==> s.done || WholeOff(s, b).ledger.log != s.ledger.log
    ensures s.ledger.log <= WholeOff(s, b).ledger.log
  {
    if s.ledger.held[b] == [] {
      FlushesNone(s);
    } else {
      ShowFlushes(s, b, |s.ledger.held[b]|);
      PrintAll(s.ledger, b);
    }
  }

  /** What printing whole streams has done once it is past the first i: all of them but `keep` are empty, and
      `done` is set exactly if that printed anything. */
  ghost predicate WholesDone(s: Screen, t: Screen, keep: int, i: nat) {
    && Flushes(s, t) && EmptiedBelow(s.ledger.held, t.ledger.held, keep, i)
    && (t.done <==> s.done || t.ledger.log != s.ledger.log) && s.ledger.log <= t.ledger.log
  }

  lemma WholesNone(s: Screen, keep: int)
    ensures WholesDone(s, s, keep, 0)
  {
    FlushesNone(s);
  }

  lemma WholesStep(s: Screen, r: Screen, keep: int, i: nat)
    requires i < |s.ledger.held| && WholesDone(s, r, keep, i)
    ensures WholesDone(s, if i == keep then r else WholeOff(r, i), keep, i + 1)
  {
    EmptyNext(s.ledger.held, r.ledger.held, keep, i);
    if i != keep {
      hide Flushes, WholeOff, EmptiedBelow;
      WholeOffFlushes(r, i);
      FlushesTwice(s, r, WholeOff(r, i));
    }
  }

  lemma {:induction false} WholesOffFlushes(s: Screen, keep: int, i: nat)
    requires i <= |s.ledger.held|
    ensures WholesDone(s, WholesOff(s, keep, i), keep, i)
  {
    hide WholesDone, WholeOff;
    if i == 0 {
      WholesNone(s, keep);
    } else {
      WholesOffFlushes(s, keep, i - 1);
      WholesStep(s, WholesOff(s, keep, i - 1), keep, i - 1);
    }
  }

  /** Where there were lines they are gone, and if that has not helped everything of the others is. */
  lemma MadeRoomFlushes(s: Screen, b: nat)
    requires b < |s.ledger.held| && -1 <= s.last < |s.ledger.held|
    ensures Flushes(s, MadeRoom(s, b))
    ensures var rests, held := Rests(s.ledger.held), MadeRoom(s, b).ledger.held;
      if |rests[b]| == CAPACITY then EmptiedBelow(rests, held, b, |rests|) else held == rests
  {
    var first := if s.last == -1 then s else LineOff(s, s.last);
    if s.last != -1 {
      LineOffFlushes(s, s.last);
    } else {
      FlushesNone(s);
    }
    assert SameRest(s.ledger.held, first.ledger.held);
    SameRests(s.ledger.held, first.ledger.held);
    LinesOffFlushes(first);
    FlushesTwice(s, first, LinesOff(first));
    if |LinesOff(first).ledger.held[b]| == CAPACITY {
      WholesOffFlushes(LinesOff(first), b, |s.ledger.held|);
      FlushesTwice(s, LinesOff(first), MadeRoom(s, b));
    }
  }

  /** The streams below 16 that hold something are marked, and no other stream above is. */
  ghost predicate Marks(held: seq<seq<Byte>>, marked: set<nat>) {
    && (forall b :: b in marked ==> b < 16)
    && forall b: nat :: b < |held| && b < 16 && held[b] != [] ==> b in marked
  }

  lemma MarksKept(s: Screen, t: Screen)
    requires Flushes(s, t) && Marks(s.ledger.held, s.marked)
    ensures Marks(t.ledger.held, t.marked)
  {
    forall b: nat | b < |s.ledger.held| && t.ledger.held[b] != []
      ensures s.ledger.held[b] != []
    {
      assert IsTail(s.ledger.held[b], t.ledger.held[b]);
    }
  }

  /** Coalescing keeps the marks right as well. */
  lemma CoalescedMarks(l: Ledger, common: seq<Byte>, marked: set<nat>)
    requires forall b :: 0 <= b < |l.held| ==> l.held[b] == [] || common <= l.held[b]
    requires Marks(l.held, marked)
    ensures var held := Coalesced(l, common).held; |held| == |l.held| && Marks(held, marked - Emptied(l.held, held))
  {}

  /** One more busy stream has lost its first n bytes. */
  lemma EmptiedNext(held: seq<seq<Byte>>, held': seq<seq<Byte>>, b: nat, n: nat)
    requires b < |held| == |held'| && held[b] != [] && held'[b] == held[b] && n <= |held[b]|
    ensures Emptied(held, held'[b := held[b][n..]]) ==
      Emptied(held, held') + if |held[b]| == n then {b} else {}
  {}

  // ---------------------------------------------------------------------------
  // One byte written

  /** All complete lines have been printed, and if that left stream b full, everything of the other streams;
      exactly the streams that were emptied are no longer marked, and b counts as printed last. */
  ghost predicate Overflowed(s: Screen, t: Screen, b: nat)
    requires b < |s.ledger.held|
  {
    && t.ledger.written == s.ledger.written && |t.ledger.held| == |s.ledger.held|
    && (if |Rests(s.ledger.held)[b]| == CAPACITY
        then EmptiedBelow(Rests(s.ledger.held), t.ledger.held, b, |s.ledger.held|)
        else t.ledger.held == Rests(s.ledger.held))
    && t.marked == s.marked - Emptied(s.ledger.held, t.ledger.held) && t.last == b
  }

  lemma RoomMade(s: Screen, b: nat)
    requires b < |s.ledger.held| && -1 <= s.last < |s.ledger.held|
    ensures Overflowed(s, MadeRoom(s, b).(last := b), b)
    ensures Marks(s.ledger.held, s.marked) ==> Marks(MadeRoom(s, b).ledger.held, MadeRoom(s, b).marked)
  {
    MadeRoomFlushes(s, b);
    if Marks(s.ledger.held, s.marked) {
      MarksKept(s, MadeRoom(s, b));
    }
  }

  /** The second half of internal_putchar: make room, or flush early, or leave it buffered. */
  ghost function Settled(s: Screen, b: nat, flush: bool): Screen
    requires b < |s.ledger.held| && -1 <= s.last < |s.ledger.held|
  {
    if |s.ledger.held[b]| == CAPACITY then MadeRoom(s, b).(last := b)
    else if flush then WholeOff(s, b)
    else s.(marked := s.marked + if b < 16 then {b} else {})
  }

  /** What internal_putchar leaves when several streams, all starting alike, were coalesced: the bytes they have
      in common are printed; the emptied streams are unmarked, and then the one that wrote is marked. */
  ghost predicate AfterCoalescing(s: Screen, t: Screen, b: nat, c: Byte)
    requires b < |s.ledger.held| == |s.ledger.written|
  {
    var w := s.ledger.Write(b, c);
    && Alike(w.held) && TwoBusy(w.held) && |t.ledger.held| == |w.held|
    && (forall x :: 0 <= x < |w.held| ==> w.held[x] == [] || Common(w.held) <= w.held[x])
    && t.ledger == Coalesced(w, Common(w.held)) && t.last == -1 && t.done == s.done
    && t.marked == s.marked - Emptied(w.held, t.ledger.held) + if b < 16 then {b} else {}
  }

  /** What it leaves otherwise: the stream's buffer is full, or it is flushed at once, or the byte is only
      buffered and the stream marked. */
  ghost predicate AfterByte(s: Screen, t: Screen, b: nat, c: Byte, early: bool)
    requires b < |s.ledger.held| == |s.ledger.written|
  {
    var w := s.ledger.Write(b, c);
    if |w.held[b]| == CAPACITY then Overflowed(s.(ledger := w), t, b)
    else if early then
      && t.ledger == w.Print(b, |w.held[b]|) && t.ledger.held == w.held[b := []]
      && t.marked == s.marked - {b} && t.last == b && t.done
    else t == s.(ledger := w, marked := s.marked + if b < 16 then {b} else {})
  }

  /** The byte has been written and nothing coalesced. */
  lemma ByteSettled(s: Screen, b: nat, c: Byte, flush: bool)
    requires b < |s.ledger.held| == |s.ledger.written| && -1 <= s.last < |s.ledger.held|
    requires |s.ledger.held[b]| < CAPACITY && Marks(s.ledger.held, s.marked)
    ensures var t := Settled(s.(ledger := s.ledger.Write(b, c)), b, flush);
      && AfterByte(s, t, b, c, flush) && Marks(t.ledger.held, t.marked)
      && t.ledger.written == s.ledger.Write(b, c).written
      && |t.ledger.held| == |s.ledger.held| && |t.ledger.held[b]| <= CAPACITY
      && (|t.ledger.held[b]| == CAPACITY <==> |s.ledger.held[b]| == CAPACITY - 1 && NoEol(s.ledger.held[b] + [c]))
      && (|s.ledger.held[b]| == CAPACITY - 1 ==> t == MadeRoom(s.(ledger := s.ledger.Write(b, c)), b).(last := b))
  {
    var w := s.(ledger := s.ledger.Write(b, c));
    RestLength(w.ledger.held[b]);
    if |w.ledger.held[b]| == CAPACITY {
      MadeRoomFlushes(w, b);
      RoomMade(w, b);
    } else if flush {
      WholeOffFlushes(w, b);
    }
  }

  /** Something was coalesced, and the stream is marked whether or not it still holds anything. */
  lemma CoalescedSettled(s: Screen, r: Screen, b: nat, c: Byte)
    requires b < |s.ledger.held| == |s.ledger.written| && b < |r.ledger.held|
    requires |s.ledger.held[b]| < CAPACITY && Marks(s.ledger.held, s.marked)
    requires AfterCoalescing(s, r.(marked := r.marked + if b < 16 then {b} else {}), b, c)
    requires r.marked == s.marked - Emptied(s.ledger.Write(b, c).held, r.ledger.held) && r.last == -1
    ensures var t := Settled(r, b, false);
      && AfterCoalescing(s, t, b, c) && Marks(t.ledger.held, t.marked)
      && t.ledger.written == s.ledger.Write(b, c).written
      && |t.ledger.held| == |s.ledger.held| && |t.ledger.held[b]| < CAPACITY
  {
    var w := s.ledger.Write(b, c);
    CommonIsPrefix(w.held);
    assert w.held[b] != [];
    assert |r.ledger.held[b]| < |w.held[b]|;
  }
}
