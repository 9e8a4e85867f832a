/** The output side of the serial server: a 4096-byte buffer per stream, flushed by lines, by whole
    buffers, or by a prefix that all of them share. */
module SerialOutput {
  import opened Basics
  import opened SerialLines
  import opened SerialScreen

  const MAX_CLIENTS: nat := 12

  class Output {
    const buffers: seq<array<Byte>>
    var used: seq<nat>
    var bitmask: set<nat>
    var lastOut: int
    var doneOutput: bool
    var hasData: bool
    /** Everything sent to the serial port. */
    var console: seq<Byte>
    ghost var ledger: Ledger

    /** The buffers hold exactly `held`. */
    ghost predicate Shows(held: seq<seq<Byte>>)
      reads this, buffers
    {
      && |buffers| == STREAMS && |used| == STREAMS && |held| == STREAMS
      && (forall b: nat :: b < STREAMS ==> buffers[b].Length == CAPACITY && used[b] <= CAPACITY)
      && (forall a: nat, b: nat :: a < b < STREAMS ==> buffers[a] != buffers[b])
      && (forall b: nat :: b < STREAMS ==> buffers[b][..used[b]] == held[b])
    }

    /** The buffers hold what was written and not yet printed, and the console what was printed. */
    ghost predicate Coherent()
      reads this, buffers
    {
      Shows(ledger.held) && ledger.Balanced() && console == Console(ledger.log) && -1 <= lastOut < STREAMS
    }

    /** Besides, every stream below 16 that holds something is in the bitmask. */
    ghost predicate Valid()
      reads this, buffers
    {
      Coherent() && Marks(ledger.held, bitmask)
    }

    ghost function Now(): Screen
      reads this
    {
      Screen(ledger, bitmask, lastOut, doneOutput)
    }

    constructor ()
      ensures Valid() && fresh(buffers)
      ensures forall b: nat :: b < STREAMS ==> ledger.held[b] == [] && ledger.written[b] == []
      ensures ledger.log == [] && bitmask == {} && lastOut == -1 && !doneOutput && !hasData
    {
      var bufs: seq<array<Byte>> := [];
      while |bufs| < STREAMS
        invariant |bufs| <= STREAMS
        invariant forall b: nat :: b < |bufs| ==> fresh(bufs[b]) && bufs[b].Length == CAPACITY
        invariant forall a: nat, b: nat :: a < b < |bufs| ==> bufs[a] != bufs[b]
      {
        var buf := new Byte[CAPACITY];
        bufs := bufs + [buf];
      }
      buffers := bufs;
      used := seq(STREAMS, _ => 0);
      bitmask, lastOut, doneOutput, hasData, console := {}, -1, false, false, [];
      ledger := Ledger([], seq(STREAMS, _ => []), seq(STREAMS, _ => []));
    }

    /** The printing loops: the first n bytes of buffer b go to the serial port. */
    method PrintFront(b: nat, n: nat)
      requires |buffers| == |used| == STREAMS && b < STREAMS && n <= used[b] <= buffers[b].Length
      modifies this`console
      ensures console == old(console) + buffers[b][..n]
    {
      var i := 0;
      while i < n
        invariant i <= n && console == old(console) + buffers[b][..i]
      {
        console := console + [buffers[b][i]];
        i := i + 1;
        assert buffers[b][..i] == buffers[b][..i - 1] + [buffers[b][i - 1]];
      }
    }

    /** The shifting loops: drop the first n bytes of buffer b. */
    method DropFront(b: nat, n: nat, ghost held: seq<seq<Byte>>)
      requires Shows(held) && b < STREAMS && n <= used[b]
      modifies this`used, this`bitmask, buffers[b]
      ensures Shows(held[b := held[b][n..]])
      ensures bitmask == if |held[b]| == n then old(bitmask) - {b} else old(bitmask)
    {
      var buffer, end := buffers[b], used[b];
      assert buffer[..end] == held[b];
      var i := n;
      while i < end
        invariant n <= i <= end
        invariant forall j: nat :: n <= j < i ==> buffer[j - n] == old(buffer[j])
        invariant forall j: nat :: i <= j < end ==> buffer[j] == old(buffer[j])
        invariant used == old(used) && bitmask == old(bitmask)
      {
        buffer[i - n] := buffer[i];
        i := i + 1;
      }
      used := used[b := end - n];
      if used[b] == 0 {
        bitmask := bitmask - {b};
      }
      assert buffer[..end - n] == held[b][n..];
    }

    /** Buffer b is forgotten. */
    method Empty(b: nat, ghost held: seq<seq<Byte>>)
      requires Shows(held) && b < STREAMS
      modifies this`used, this`bitmask
      ensures Shows(held[b := held[b][|held[b]|..]])
      ensures bitmask == old(bitmask) - {b}
    {
      used := used[b := 0];
      bitmask := bitmask - {b};
      assert buffers[b][..0] == held[b][|held[b]|..];
    }

    /** Switch to the colour of stream b. */
    method Select(b: nat)
      modifies this`lastOut
      ensures lastOut == b
    {
      if b != lastOut {
        lastOut := b;
      }
    }

    /** Print the first n bytes of buffer b in its colour and drop them. */
    method PrintLine(b: nat, n: nat)
      requires Coherent() && b < STREAMS && 0 < n <= |ledger.held[b]|
      modifies this`console, this`ledger, this`lastOut, this`used, this`bitmask, buffers[b]
      ensures Coherent() && Now() == Show(old(Now()), b, n)
    {
      ghost var l := ledger;
      PrintBalanced(l, b, n);
      Select(b);
      assert buffers[b][..n] == l.held[b][..n];
      PrintFront(b, n);
      DropFront(b, n, l.held);
      ledger := l.Print(b, n);
    }

    method TakeLine(b: nat) returns (flushed: bool)
      requires Coherent() && b < STREAMS
      modifies this`console, this`ledger, this`lastOut, this`used, this`bitmask, buffers[b]
      ensures Coherent() && Now() == LineOff(old(Now()), b)
      ensures flushed <==> LineLength(old(ledger).held[b]) > 0
    {
      var length := LineLength(buffers[b][..used[b]]);
      flushed := length != 0;
      if flushed {
        PrintLine(b, length);
      }
    }

    /** flush_buffer_line: print one line of buffer b, if it holds one. */
    method FlushBufferLine(b: nat) returns (flushed: bool)
      requires Coherent() && b < STREAMS
      modifies this`console, this`ledger, this`lastOut, this`used, this`bitmask, buffers[b]
      ensures Coherent() && (old(Valid()) ==> Valid())
      ensures Now() == LineOff(old(Now()), b)
      ensures |ledger.held| == STREAMS && OneLine(old(Now()), Now(), b)
      ensures flushed <==> |ledger.held[b]| < |old(ledger).held[b]|
    {
      LineShown(Now(), b);
      LineOffFlushes(Now(), b);
      hide OneLine, Flushes, LineOff, Marks;
      flushed := TakeLine(b);
      KeepsMarks();
    }

    /** Flushing unmarks only what it empties. */
    twostate lemma KeepsMarks()
      requires Coherent() && Flushes(old(Now()), Now())
      ensures old(Valid()) ==> Valid()
    {
      if old(Valid()) {
        MarksKept(old(Now()), Now());
      }
    }

    /** Print all of buffer b, which is not empty, in its colour and empty it. */
    method PrintWhole(b: nat)
      requires Coherent() && b < STREAMS && |ledger.held[b]| > 0
      modifies this`console, this`ledger, this`lastOut, this`used, this`bitmask, this`doneOutput
      ensures Coherent() && ledger == old(ledger).Print(b, |old(ledger).held[b]|)
      ensures lastOut == b && bitmask == old(bitmask) - {b} && doneOutput
      ensures Now() == WholeOff(old(Now()), b)
    {
      Select(b);
      PrintFront(b, used[b]);
      doneOutput := true;
      PrintBalanced(ledger, b, |ledger.held[b]|);
      assert buffers[b][..used[b]] == ledger.held[b][..|ledger.held[b]|];
      Empty(b, ledger.held);
      ledger := ledger.Print(b, |ledger.held[b]|);
    }

    /** flush_buffer: print all of buffer b. */
    method FlushBuffer(b: nat)
      requires Coherent() && b < STREAMS
      modifies this`console, this`ledger, this`lastOut, this`used, this`bitmask, this`doneOutput
      ensures Coherent() && ledger.written == old(ledger).written && ledger.held == old(ledger).held[b := []]
      ensures ledger.log ==
        old(ledger).log + (if |old(ledger).held[b]| == 0 then [] else [Chunk({b}, old(ledger).held[b])])
      ensures |old(ledger).held[b]| == 0 ==> ledger == old(ledger)
      ensures |old(ledger).held[b]| == 0 ==>
        lastOut == old(lastOut) && doneOutput == old(doneOutput) && bitmask == old(bitmask)
      ensures |old(ledger).held[b]| > 0 ==> lastOut == b && doneOutput && bitmask == old(bitmask) - {b}
      ensures Now() == WholeOff(old(Now()), b) && (old(Valid()) ==> Valid())
    {
      PrintAll(ledger, b);
      WholeOffFlushes(Now(), b);
      if used[b] != 0 {
        PrintWhole(b);
      }
      KeepsMarks();
    }

    /** One round over all streams of both flushing loops. */
    method FlushRound() returns (flushed: bool)
      requires Coherent()
      modifies this`console, this`ledger, this`lastOut, this`used, this`bitmask, buffers
      ensures Coherent() && Now() == Round(old(Now()), STREAMS)
      ensures flushed <==> !NoLines(old(ledger).held)
    {
      flushed := false;
      for i := 0 to STREAMS
        invariant Coherent() && Now() == Round(old(Now()), i)
        invariant flushed <==> !NoLinesBelow(old(ledger).held, i)
      {
        RoundHeld(old(Now()), i);
        NoneBelow(old(ledger).held, i + 1);
        var took := FlushBufferLine(i);
        flushed := flushed || took;
      }
    }

    /** Both flushing loops: take lines off all streams, round by round, until a round finds none. */
    method FlushLines() returns (flushed: bool)
      requires Coherent()
      modifies this`console, this`ledger, this`lastOut, this`used, this`bitmask, buffers
      ensures Coherent() && (old(Valid()) ==> Valid())
      ensures Now() == LinesOff(old(Now())) && Flushes(old(Now()), Now())
      ensures ledger.held == Rests(old(ledger).held) && NoLines(ledger.held)
      ensures bitmask == old(bitmask) - Emptied(old(ledger).held, ledger.held)
      ensures flushed <==> !NoLines(old(ledger).held)
      ensures !flushed ==> Now() == old(Now())
    {
      LinesOffFlushes(Now());
      flushed := false;
      var done := false;
      while !done
        invariant Coherent() && LinesOff(Now()) == LinesOff(old(Now()))
        invariant if flushed then !NoLines(old(ledger).held) else Now() == old(Now())
        invariant done ==> NoLines(ledger.held)
        decreases !done, Total(ledger.held)
      {
        RoundFlushes(Now(), STREAMS);
        assert NoLinesBelow(ledger.held, STREAMS) <==> NoLines(ledger.held);
        var took := FlushRound();
        flushed := flushed || took;
        done := !took;
      }
      LinesOffFlushes(Now());
      KeepsMarks();
    }

    /** flush_buffer on every stream but `keep`. */
    method FlushAllBut(keep: int)
      requires Coherent()
      modifies this`console, this`ledger, this`lastOut, this`used, this`bitmask, this`doneOutput
      ensures Coherent() && (old(Valid()) ==> Valid())
      ensures Now() == WholesOff(old(Now()), keep, STREAMS) && Flushes(old(Now()), Now())
      ensures EmptiedBelow(old(ledger).held, ledger.held, keep, STREAMS)
      ensures bitmask == old(bitmask) - Emptied(old(ledger).held, ledger.held)
      ensures doneOutput <==> old(doneOutput) || ledger.log != old(ledger).log
    {
      for i := 0 to STREAMS
        invariant Coherent() && Now() == WholesOff(old(Now()), keep, i)
      {
        if i != keep {
          FlushBuffer(i);
        }
      }
      WholesOffFlushes(old(Now()), keep, STREAMS);
      KeepsMarks();
    }

    // -------------------------------------------------------------------------
    // Coalescing

    /** The memcmp of the scan. */
    method SameFront(a: nat, b: nat, n: nat) returns (same: bool)
      requires Coherent() && a < STREAMS && b < STREAMS && n <= |ledger.held[a]| && n <= |ledger.held[b]|
      ensures same <==> ledger.held[a][..n] == ledger.held[b][..n]
    {
      assert buffers[a][..n] == ledger.held[a][..n] && buffers[b][..n] == ledger.held[b][..n];
      same := buffers[a][..n] == buffers[b][..n];
    }

    /** One turn of the scan, at a busy stream. */
    method ScanOne(i: nat, busy: seq<nat>, length: nat) returns (same: bool, busy': seq<nat>, length': nat)
      requires Coherent() && i < STREAMS && ledger.held[i] != [] && Scanned(ledger.held, i, busy, length)
      ensures same <==> AgreesAt(ledger.held, i)
      ensures same ==> Scanned(ledger.held, i + 1, busy', length')
    {
      ScanBusy(ledger.held, i, busy, length);
      busy' := busy + [i];
      length' := if length == 0 || length > used[i] then used[i] else length;
      same := true;
      if |busy'| > 1 {
        same := SameFront(busy'[0], i, length');
      }
    }

    /** The scan of try_coalesce_output: which streams are busy, the least length among them, and
        whether any differs from the first. */
    method ScanStreams() returns (same: bool, busy: seq<nat>, length: nat)
      requires Coherent()
      ensures same ==> Scanned(ledger.held, STREAMS, busy, length)
      ensures !same ==> exists b: nat :: b < STREAMS && !AgreesAt(ledger.held, b)
    {
      length := 0;
      busy := [];
      for i := 0 to STREAMS
        invariant Scanned(ledger.held, i, busy, length)
      {
        if used[i] > 0 {
          var front;
          front, busy, length := ScanOne(i, busy, length);
          if !front {
            return false, busy, length;
          }
        } else {
          ScanIdle(ledger.held, i, busy, length);
        }
      }
      same := true;
    }

    /** Drop the first n bytes of every busy buffer. */
    method DropBusy(busy: seq<nat>, n: nat, ghost held0: seq<seq<Byte>>)
      requires Shows(held0) && Scanned(held0, STREAMS, busy, n)
      requires forall b: nat :: b < STREAMS && held0[b] != [] ==> n <= |held0[b]|
      modifies this`used, this`bitmask, buffers
      ensures Shows(DropAll(held0, n)) && bitmask == old(bitmask) - Emptied(held0, DropAll(held0, n))
    {
      ghost var held := held0;
      for k := 0 to |busy|
        invariant Shows(held) && DroppedSome(held0, held, busy, k, n)
        invariant bitmask == old(bitmask) - Emptied(held0, held)
      {
        DropNext(held0, held, busy, k, n, n);
        assert busy[k] in busy;
        EmptiedNext(held0, held, busy[k], n);
        DropFront(busy[k], n, held);
        held := held[busy[k] := held[busy[k]][n..]];
      }
      DroppedAll(held0, held, busy, n, n);
    }

    /** Print the bytes all busy streams start with, once and without a colour, and drop them. */
    method PrintCommon(busy: seq<nat>, length: nat)
      requires Coherent() && Scanned(ledger.held, STREAMS, busy, length) && busy != [] && Alike(ledger.held)
      modifies this`console, this`ledger, this`lastOut, this`used, this`bitmask, this`hasData, buffers
      ensures Coherent() && lastOut == -1
      ensures forall b :: 0 <= b < STREAMS ==>
        old(ledger).held[b] == [] || Common(old(ledger).held) <= old(ledger).held[b]
      ensures Common(old(ledger).held) != [] && ledger == Coalesced(old(ledger), Common(old(ledger).held))
      ensures bitmask == old(bitmask) - Emptied(old(ledger).held, ledger.held)
    {
      CommonIsPrefix(ledger.held);
      ghost var common := Common(ledger.held);
      var first := busy[0];
      assert first in busy;
      assert |common| == length;
      assert buffers[first][..length] == common;
      PrintFront(first, length);
      CoalesceBalanced(ledger, common);
      lastOut := -1;
      DropBusy(busy, length, ledger.held);
      ledger, hasData := Coalesced(ledger, common), hasData || bitmask != {};
    }

    /** try_coalesce_output: -1 when two streams differ, 0 when a common prefix was printed for all
        busy streams at once, 1 when at most one stream is busy. */
    method TryCoalesceOutput() returns (status: int)
      requires Coherent()
      modifies this`console, this`ledger, this`lastOut, this`used, this`bitmask, this`hasData, buffers
      ensures Coherent() && (old(Valid()) ==> Valid())
      ensures status == if !Alike(old(ledger).held) then -1 else if TwoBusy(old(ledger).held) then 0 else 1
      ensures status != 0 ==> ledger == old(ledger) && lastOut == old(lastOut) && bitmask == old(bitmask)
      ensures status == 0 ==>
        && (forall b :: 0 <= b < STREAMS ==>
              old(ledger).held[b] == [] || Common(old(ledger).held) <= old(ledger).held[b])
        && Common(old(ledger).held) != []
        && ledger == Coalesced(old(ledger), Common(old(ledger).held))
        && lastOut == -1 && bitmask == old(bitmask) - Emptied(old(ledger).held, ledger.held)
    {
      var same, busy, length := ScanStreams();
      if !same {
        return -1;
      }
      ScannedTwo(ledger.held, busy, length);
      if |busy| <= 1 {
        return 1;
      }
      PrintCommon(busy, length);
      if old(Valid()) {
        CoalescedMarks(old(ledger), Common(old(ledger).held), old(bitmask));
      }
      return 0;
    }

    // -------------------------------------------------------------------------
    // Writing, and the timer

    /** Add a byte to buffer b. */
    method Append(b: nat, c: Byte)
      requires Coherent() && b < STREAMS && |ledger.held[b]| < CAPACITY
      modifies this`used, this`ledger, buffers[b]
      ensures Coherent() && ledger == old(ledger).Write(b, c)
    {
      var index := used[b];
      WriteBalanced(ledger, b, c);
      assert buffers[b][..index] == ledger.held[b];
      buffers[b][index] := c;
      used := used[b := index + 1];
      assert buffers[b][..index + 1] == ledger.held[b] + [c];
      ledger := ledger.Write(b, c);
    }

    /** Before anything else is flushed, the stream printed last gets to finish a line. */
    method FinishLastLine()
      requires Coherent()
      modifies this`console, this`ledger, this`lastOut, this`used, this`bitmask, buffers
      ensures Coherent()
      ensures Now() == if old(lastOut) == -1 then old(Now()) else LineOff(old(Now()), old(lastOut))
    {
      if lastOut != -1 {
        var _ := FlushBufferLine(lastOut);
      }
    }

    method MakeRoom(b: nat)
      requires Coherent() && b < STREAMS
      modifies this`console, this`ledger, this`lastOut, this`used, this`bitmask, this`doneOutput, buffers
      ensures Coherent() && Now() == MadeRoom(old(Now()), b)
    {
      FinishLastLine();
      var _ := FlushLines();
      assert used[b] == |ledger.held[b]|;
      if used[b] == CAPACITY {
        FlushAllBut(b);
      }
    }

    /** Buffer b is full: print every line of every stream; if that frees nothing in b, print all the
        other streams. */
    method Overflow(b: nat)
      requires Coherent() && b < STREAMS
      modifies this`console, this`ledger, this`lastOut, this`used, this`bitmask, this`doneOutput, buffers
      ensures Coherent() && (old(Valid()) ==> Valid())
      ensures Now() == MadeRoom(old(Now()), b).(last := b)
      ensures Overflowed(old(Now()), Now(), b)
    {
      RoomMade(Now(), b);
      hide Overflowed, Marks, MadeRoom;
      MakeRoom(b);
      Select(b);
    }

    /** The test of internal_putchar on the byte at `index` of buffer b and the one before it. */
    method NewlineAt(b: nat, index: nat) returns (newline: bool)
      requires Coherent() && b < STREAMS && index + 1 == |ledger.held[b]|
      ensures newline <==> EndsInNewline(ledger.held[b])
    {
      assert buffers[b][..used[b]] == ledger.held[b];
      newline := index >= 1 && IsNewline(buffers[b][index - 1], buffers[b][index]);
    }

    /** The first half of internal_putchar: add the byte and let coalescing have its chance. */
    method WriteByte(b: nat, c: Byte, multi: bool) returns (status: int)
      requires Coherent() && b < STREAMS && |ledger.held[b]| < CAPACITY
      modifies this`console, this`ledger, this`lastOut, this`used, this`bitmask, this`hasData, buffers
      ensures Coherent() && ledger == AfterWrite(old(ledger), b, c, multi)
      ensures status == if !multi || !Alike(old(ledger).Write(b, c).held) then -1
                        else if TwoBusy(old(ledger).Write(b, c).held) then 0 else 1
      ensures status != 0 ==> lastOut == old(lastOut) && bitmask == old(bitmask)
      ensures doneOutput == old(doneOutput) && |old(ledger).Write(b, c).held| == |ledger.held|
      ensures status == 0 ==>
        && lastOut == -1 && bitmask == old(bitmask) - Emptied(old(ledger).Write(b, c).held, ledger.held)
        && AfterCoalescing(old(Now()), Now().(marked := bitmask + if b < 16 then {b} else {}), b, c)
    {
      hide Alike, TwoBusy, Common, Emptied, Marks, Coalesced;
      Append(b, c);
      status := -1;
      if multi {
        status := TryCoalesceOutput();
      }
    }

    /** The second half of internal_putchar: make room, or flush early, or leave it buffered. */
    method Settle(b: nat, flush: bool)
      requires Coherent() && b < STREAMS
      modifies this, buffers
      ensures Coherent() && hasData
      ensures Now() == Settled(old(Now()), b, flush)
    {
      hasData := true;
      if used[b] == CAPACITY {
        Overflow(b);
      } else if flush {
        FlushBuffer(b);
      } else if b < 16 {
        bitmask := bitmask + {b};
      }
    }

    /** The early flush of internal_putchar: the stream now ends in CR LF (13, 10) or LF CR, or it was the last
        one printed and nothing is buffered; but not while coalescing may still succeed. */
    ghost predicate FlushesEarly(b: nat, c: Byte, multi: bool)
      requires b < STREAMS == |ledger.held| == |ledger.written|
      reads this
    {
      var now := ledger.held[b] + [c];
      && (multi ==> !Alike(ledger.Write(b, c).held))
      && ((|now| >= 2 && (now[|now| - 2..] == [13, 10] || now[|now| - 2..] == [10, 13]))
          || (lastOut == b && bitmask == {}))
    }

    /** internal_putchar, for a stream whose buffer is not full.  The byte joins what the stream has
        written; where everything goes is said branch by branch.  The buffer is full afterwards, and so cannot
        take another byte, exactly when it holds 4096 bytes without an end of line. */
    method InternalPutchar(b: nat, c: int, activeClient: int)
      requires Valid() && b < STREAMS && |ledger.held[b]| < CAPACITY
      modifies this, buffers
      ensures Valid() && hasData
      ensures ledger.written == old(ledger).written[b := old(ledger).written[b] + [c % 256]]
      ensures |ledger.held| == STREAMS && |ledger.held[b]| <= CAPACITY
      ensures if Coalesces(old(ledger).Write(b, c % 256).held, activeClient == -1)
              then AfterCoalescing(old(Now()), Now(), b, c % 256)
              else AfterByte(old(Now()), Now(), b, c % 256, old(FlushesEarly(b, c % 256, activeClient == -1)))
      // A full buffer is made room in line by line, the stream printed last first.
      ensures |old(ledger).held[b]| == CAPACITY - 1
              && !Coalesces(old(ledger).Write(b, c % 256).held, activeClient == -1) ==>
        Now() == MadeRoom(old(Now()).(ledger := old(ledger).Write(b, c % 256)), b).(last := b)
      ensures |ledger.held[b]| == CAPACITY <==>
        && |old(ledger).held[b]| == CAPACITY - 1
        && NoEol(old(ledger).held[b] + [c % 256])
        && !Coalesces(old(ledger).Write(b, c % 256).held, activeClient == -1)
    {
      var byte: Byte := c % 256;
      var index := used[b];
      NewlineBytes(ledger.held[b] + [byte]);
      hide AfterByte, AfterCoalescing, Marks, Settled, Alike, TwoBusy, Common, Emptied, NoEol, MadeRoom, EndsInNewline;
      ghost var was, early := Now(), FlushesEarly(b, byte, activeClient == -1);
      AfterWriteLength(ledger, b, byte, activeClient == -1);
      var status := WriteByte(b, byte, activeClient == -1);
      var flush := false;
      if status == -1 {
        var newline := NewlineAt(b, index);
        flush := newline || (lastOut == b && bitmask == {});
      }
      ghost var s := Now();
      Settle(b, flush);
      if status == 0 {
        CoalescedSettled(was, s, b, byte);
      } else {
        ByteSettled(was, b, byte, flush);
      }
    }
    /** timer_callback: after a pause in the output, print the complete lines; if there were none,
        print everything. */
    method TimerCallback()
      requires Valid()
      modifies this`console, this`ledger, this`lastOut, this`used, this`bitmask, this`doneOutput, buffers
      ensures Valid() && ledger.written == old(ledger).written
      ensures Now() == if old(doneOutput) then old(Now()).(done := false)
                       else if !hasData then old(Now())
                       else if NoLines(old(ledger).held) then WholesOff(old(Now()), -1, STREAMS)
                       else LinesOff(old(Now()))
      ensures |ledger.held| == |old(ledger).held| && bitmask == old(bitmask) - Emptied(old(ledger).held, ledger.held)
      ensures LastShown(old(ledger).log, ledger.log, old(lastOut), lastOut)
      ensures old(doneOutput) || !hasData ==> ledger == old(ledger) && !doneOutput
      ensures !old(doneOutput) && hasData && !NoLines(old(ledger).held) ==>
        ledger.held == Rests(old(ledger).held) && NoLines(ledger.held) && !doneOutput
      ensures !old(doneOutput) && hasData && NoLines(old(ledger).held) ==>
        EmptiedBelow(old(ledger).held, ledger.held, -1, STREAMS)
    {
      FlushesNone(Now());
      hide Emptied, LastShown, LinesOff, WholesOff, Rests, NoLines, Marks, EmptiedBelow, IsTail;
      if doneOutput {
        doneOutput := false;
      } else if hasData {
        var flushed := FlushLines();
        if !flushed {
          FlushAllBut(-1);
        }
      }
    }

    /** Three ticks without output in between print everything that is buffered. */
    method ThreeQuietTicks()
      requires Valid() && hasData
      modifies this`console, this`ledger, this`lastOut, this`used, this`bitmask, this`doneOutput, buffers
      ensures Valid() && ledger.written == old(ledger).written
      ensures forall b: nat :: b < STREAMS ==> ledger.held[b] == []
      ensures forall b: nat :: b < STREAMS ==> PrintedFor(ledger.log, b) == ledger.written[b]
    {
      hide LinesOff, WholesOff, Marks, LastShown, Emptied;
      TimerCallback();
      TimerCallback();
      TimerCallback();
      assert forall b: nat :: b < STREAMS ==> PrintedFor(ledger.log, b) + [] == PrintedFor(ledger.log, b);
    }
  }

  lemma NextByte(text: seq<Byte>, n: nat)
    requires n < |text| && NoEol(text)
    ensures text[..n + 1] == text[..n] + [text[n]]
    ensures NoEol(text[..n + 1]) && !EndsInNewline(text[..n + 1])
  {
    assert |text[..n + 1]| >= 2 ==> !IsEol(text[..n + 1][n]);
  }

  /** One more byte of such a text is buffered. */
  method NextBuffered(output: Output, b: nat, text: seq<Byte>, n: nat)
    requires output.Valid() && b < STREAMS && n < |text| == CAPACITY && NoEol(text)
    requires output.ledger.held[b] == text[..n] && output.lastOut == -1
    modifies output, output.buffers
    ensures output.Valid() && output.ledger.held[b] == text[..n + 1]
    ensures n + 1 < CAPACITY ==> output.lastOut == -1
  {
    NextByte(text, n);
    ghost var l := output.ledger;
    assert l.Write(b, text[n]).held[b] == text[..n + 1];
    output.InternalPutchar(b, text[n], 0);
  }

  /** A text of 4096 bytes without an end of line, written to any stream of a server that has printed nothing,
      fills the buffer of that stream, so that there is no room for another byte. */
  method FullBuffer(b: nat, text: seq<Byte>) returns (output: Output)
    requires b < STREAMS && |text| == CAPACITY && NoEol(text)
    ensures output.Valid() && output.ledger.held[b] == text && |output.ledger.held[b]| == CAPACITY
  {
    output := new Output();
    var n := 0;
    while n < CAPACITY
      invariant n <= CAPACITY && output.Valid() && fresh(output) && fresh(output.buffers)
      invariant output.ledger.held[b] == text[..n] && (n < CAPACITY ==> output.lastOut == -1)
    {
      NextBuffered(output, b, text, n);
      n := n + 1;
    }
    assert text[..n] == text;
  }
}
