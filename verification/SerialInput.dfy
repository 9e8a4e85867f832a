/** The input side of the serial server: a four-state machine that hands bytes to the selected
    clients and takes commands after an '@' at the start of a line. */
module SerialInput {
  import opened Basics
  import opened SerialLines

  const MAX_CLIENTS: nat := 12
  const ESCAPE: Byte := 64
  const CTRL_C: Byte := 3
  const CTRL_Z: Byte := 26
  const DIGIT_0: Byte := 48

  /** The machine's variables, and every byte offered to each getchar client so far. */
  datatype State = State(machine: nat, active: int, multi: set<nat>, debug: nat, offered: seq<seq<Byte>>) {

    /** The clients that get the next plain byte. */
    ghost function Targets(): set<nat> {
      if active >= 0 then {active} else if active == -1 then set i | i in multi && i < 2 * MAX_CLIENTS else {}
    }

    ghost function Offer(c: Byte): State {
      this.(offered := OfferTo(offered, Targets(), [c]))
    }

    /** Every selection names a client that exists, if any does, and the machine is in one of its four
        states. */
    ghost predicate Ok() {
      && |offered| <= MAX_CLIENTS
      && 0 <= machine <= 3
      && -1 <= active && (offered == [] || active < |offered|)
      && forall i :: i in multi ==> i < |offered|
    }
  }

  /** Each client in `targets` is offered `bytes`. */
  ghost function OfferTo(offered: seq<seq<Byte>>, targets: set<nat>, bytes: seq<Byte>): (r: seq<seq<Byte>>)
    ensures |r| == |offered|
    ensures forall i: nat :: i < |offered| ==> r[i] == if i in targets then offered[i] + bytes else offered[i]
  {
    seq(|offered|, i requires 0 <= i < |offered| => if i in targets then offered[i] + bytes else offered[i])
  }

  predicate EndsLine(c: Byte) {
    c == CR || c == LF || c == CTRL_C || c == CTRL_Z
  }

  /** The digits name clients, as far as there are any. */
  predicate NamesClient(c: Byte, clients: nat) {
    DIGIT_0 <= c && c < DIGIT_0 + clients
  }

  /** What handle_char does with one byte; without getchar clients, nothing. */
  ghost function Step(s: State, c: Byte): State {
    if s.offered == [] then s
    else if s.machine == 0 then
      s.(machine := if EndsLine(c) then 1 else 0).Offer(c)
    else if s.machine == 1 then
      if EndsLine(c) then s.Offer(c)
      else if c == ESCAPE then s.(machine := 2)
      else s.(machine := 0).Offer(c)
    else if s.machine == 2 then
      if c == ESCAPE then s.(machine := 0).Offer(c)
      else if c == 'm' as int then s.(machine := 3, multi := {}, active := -1)
      else if c == 'd' as int then s.(debug := (s.debug + 1) % 3, machine := 1)
      else if NamesClient(c, |s.offered|) then s.(machine := 1, active := (c - DIGIT_0) as int)
      else s.(machine := 1)
    else if s.machine == 3 then
      if NamesClient(c, |s.offered|) then s.(multi := s.multi + {c - DIGIT_0})
      else if c == 'm' as int || c == 'M' as int || c == CR || c == LF then s.(machine := 1)
      else s
    else s
  }

  /** The byte goes to the selected clients: it is neither a command, nor the '@' (64) that begins one. */
  ghost predicate Gives(s: State, c: Byte) {
    s.machine == 0 || (s.machine == 1 && c != 64) || (s.machine == 2 && c == 64)
  }

  /** The effect of one byte, state by state; 13, 10, 3 and 26 end a line, 64 is '@', 48 is '0', 'm' is 109, 'M' is
      77 and 'd' is 100. */
  ghost predicate Handled(s: State, c: Byte, t: State) {
    var n := |s.offered|;
    && t.offered == (if Gives(s, c) then OfferTo(s.offered, s.Targets(), [c]) else s.offered)
    && (t.active == if s.machine == 2 && c == 109 then -1
                    else if s.machine == 2 && 48 <= c < 48 + n then c - 48 else s.active)
    && (t.multi == if s.machine == 2 && c == 109 then {}
                   else if s.machine == 3 && 48 <= c < 48 + n then s.multi + {c - 48} else s.multi)
    && (t.debug == if s.machine == 2 && c == 100 then (s.debug + 1) % 3 else s.debug)
    && (s.machine <= 1 ==>
          t.machine == if c in {13, 10, 3, 26} then 1 else if s.machine == 1 && c == 64 then 2 else 0)
    && (s.machine == 2 ==> t.machine == if c == 64 then 0 else if c == 109 then 3 else 1)
    && (s.machine == 3 ==> t.machine == if c in {109, 77, 13, 10} then 1 else 3)
  }

  lemma CommandBegun(s: State, t: State)
    requires s.machine == 1 && Handled(s, 64, t)
    ensures t == s.(machine := 2)
  {}

  lemma DebugStepped(s: State, t: State)
    requires s.machine == 2 && |s.offered| <= MAX_CLIENTS && Handled(s, 100, t)
    ensures t == s.(machine := 1, debug := (s.debug + 1) % 3)
  {}

  lemma StepHandled(s: State, c: Byte)
    requires 0 < |s.offered| <= MAX_CLIENTS
    ensures Handled(s, c, Step(s, c))
  {}

  lemma StepOffers(s: State, c: Byte)
    ensures Step(s, c).offered == if Gives(s, c) then OfferTo(s.offered, s.Targets(), [c]) else s.offered
  {}

  ghost function Run(s: State, bytes: seq<Byte>): State
    decreases |bytes|
  {
    if bytes == [] then s else Run(Step(s, bytes[0]), bytes[1..])
  }

  /** No input takes the machine out of its four states or selects a client that does not exist. */
  lemma {:induction false} RunOk(s: State, bytes: seq<Byte>)
    requires s.Ok()
    ensures Run(s, bytes).Ok() && |Run(s, bytes).offered| == |s.offered|
    decreases |bytes|
  {
    if bytes != [] {
      RunOk(Step(s, bytes[0]), bytes[1..]);
    }
  }

  /** Doubling every '@' at the start of a line. */
  function Escape(bytes: seq<Byte>, lineStart: bool): seq<Byte> {
    if bytes == [] then []
    else
      (if lineStart && bytes[0] == ESCAPE then [ESCAPE, ESCAPE] else [bytes[0]])
      + Escape(bytes[1..], EndsLine(bytes[0]))
  }

  lemma RunCons(s: State, c: Byte, rest: seq<Byte>)
    ensures Run(s, [c] + rest) == Run(Step(s, c), rest)
  {
    assert ([c] + rest)[1..] == rest;
  }

  lemma OfferNothing(offered: seq<seq<Byte>>, targets: set<nat>)
    ensures OfferTo(offered, targets, []) == offered
  {
    assert forall i: nat :: i < |offered| ==> offered[i] + [] == offered[i];
  }

  lemma OfferTwice(offered: seq<seq<Byte>>, targets: set<nat>, c: Byte, rest: seq<Byte>)
    ensures OfferTo(OfferTo(offered, targets, [c]), targets, rest) == OfferTo(offered, targets, [c] + rest)
  {
    var once := OfferTo(offered, targets, [c]);
    var twice, both := OfferTo(once, targets, rest), OfferTo(offered, targets, [c] + rest);
    forall i: nat | i < |offered|
      ensures twice[i] == both[i]
    {
      assert offered[i] + [c] + rest == offered[i] + ([c] + rest);
    }
    assert twice == both;
  }

  lemma {:induction false} NoClients(s: State, bytes: seq<Byte>)
    ensures s.offered == [] || bytes == [] ==> Run(s, bytes) == s
    decreases |bytes|
  {
    if s.offered == [] && bytes != [] {
      NoClients(s, bytes[1..]);
    }
  }

  /** The round trip: an escaped text arrives unchanged at every selected client and at no other, and
      leaves the selection as it was. */
  lemma {:induction false} EscapedTextArrives(s: State, bytes: seq<Byte>, lineStart: bool)
    requires s.machine == if lineStart then 1 else 0
    ensures Run(s, Escape(bytes, lineStart)).machine <= 1
    ensures Run(s, Escape(bytes, lineStart)) ==
      s.(machine := Run(s, Escape(bytes, lineStart)).machine, offered := OfferTo(s.offered, s.Targets(), bytes))
    decreases |bytes|
  {
    if bytes == [] || s.offered == [] {
      NoClients(s, Escape(bytes, lineStart));
      OfferNothing(s.offered, s.Targets());
    } else {
      var c, rest := bytes[0], bytes[1..];
      var tail := Escape(rest, EndsLine(c));
      var next := s.(machine := if EndsLine(c) then 1 else 0).Offer(c);
      if lineStart && c == ESCAPE {
        assert [ESCAPE, ESCAPE] + tail == [ESCAPE] + ([ESCAPE] + tail);
        RunCons(s, ESCAPE, [ESCAPE] + tail);
        RunCons(s.(machine := 2), ESCAPE, tail);
      } else {
        RunCons(s, c, tail);
      }
      assert Run(s, Escape(bytes, lineStart)) == Run(next, tail);
      EscapedTextArrives(next, rest, EndsLine(c));
      OfferTwice(s.offered, s.Targets(), c, rest);
      assert bytes == [c] + rest;
    }
  }

  /** One byte in is at most one byte out for each client. */
  lemma {:induction false} AtMostOnePerByte(s: State, bytes: seq<Byte>, i: nat)
    requires i < |s.offered|
    ensures |Run(s, bytes).offered| == |s.offered|
    ensures |Run(s, bytes).offered[i]| <= |s.offered[i]| + |bytes|
    decreases |bytes|
  {
    if bytes != [] {
      AtMostOnePerByte(Step(s, bytes[0]), bytes[1..], i);
    }
  }

  /** A text reaches its client without escaping exactly when it has no '@' at the start of a line. */
  lemma {:induction false} PlainTextArrives(s: State, bytes: seq<Byte>, lineStart: bool)
    requires s.machine == (if lineStart then 1 else 0) && 0 <= s.active < |s.offered|
    ensures |Run(s, bytes).offered| == |s.offered|
    ensures Run(s, bytes).offered[s.active] == s.offered[s.active] + bytes <==> Escape(bytes, lineStart) == bytes
    decreases |bytes|
  {
    AtMostOnePerByte(s, bytes, s.active);
    if bytes == [] {
    } else if lineStart && bytes[0] == ESCAPE {
      AtMostOnePerByte(Step(s, ESCAPE), bytes[1..], s.active);
      EscapeLonger(bytes[1..], EndsLine(bytes[0]));
    } else {
      var c, rest := bytes[0], bytes[1..];
      var next := s.(machine := if EndsLine(c) then 1 else 0).Offer(c);
      assert Run(s, bytes) == Run(next, rest);
      PlainTextArrives(next, rest, EndsLine(c));
      var got, had := Run(next, rest).offered[s.active], s.offered[s.active];
      assert had + bytes == had + [c] + rest;
      assert Escape(bytes, lineStart) == [c] + Escape(rest, EndsLine(c));
      assert bytes == [c] + rest;
      SameTail(c, Escape(rest, EndsLine(c)), rest);
    }
  }

  lemma SameTail(c: Byte, a: seq<Byte>, b: seq<Byte>)
    ensures [c] + a == [c] + b <==> a == b
  {
    assert ([c] + a)[1..] == a && ([c] + b)[1..] == b;
  }

  lemma {:induction false} EscapeLonger(bytes: seq<Byte>, lineStart: bool)
    ensures |Escape(bytes, lineStart)| >= |bytes|
    decreases |bytes|
  {
    if bytes != [] {
      EscapeLonger(bytes[1..], EndsLine(bytes[0]));
    }
  }

  // ---------------------------------------------------------------------------
  // The code

  const RING: nat := 4088

  /** A getchar client's buffer: the server writes at the tail, the client reads at the head. */
  class Ring {
    const buf: array<Byte>
    var head: nat
    var tail: nat

    ghost predicate Valid()
      reads this
    {
      buf.Length == RING && head < RING && tail < RING
    }

    /** The bytes the client has not read yet, oldest first. */
    ghost function Contents(): (s: seq<Byte>)
      requires Valid()
      reads this, buf
      ensures |s| < RING
    {
      if head <= tail then buf[head..tail] else buf[head..] + buf[..tail]
    }

    constructor ()
      ensures Valid() && fresh(buf) && Contents() == []
    {
      buf := new Byte[RING];
      head, tail := 0, 0;
    }

    /** internal_raw_putchar: append the byte, or drop it when the ring is full. */
    method RawPutchar(c: Byte)
      requires Valid()
      modifies this`tail, buf
      ensures Valid()
      ensures Contents() == if |old(Contents())| == RING - 1 then old(Contents()) else old(Contents()) + [c]
    {
      var nextTail := (tail + 1) % RING;
      if nextTail == head {
        return;
      }
      ghost var was := Contents();
      buf[tail] := c;
      tail := nextTail;
      assert Contents() == was + [c];
    }
  }

  /** What a ring holds after the byte was offered to it. */
  ghost function Accepted(was: seq<Byte>, c: Byte): seq<Byte> {
    if |was| == RING - 1 then was else was + [c]
  }

  /** What a ring holds after the bytes were: as many of them as it has room for. */
  ghost function Filled(was: seq<Byte>, bytes: seq<Byte>): seq<Byte>
    requires |was| < RING
  {
    was + if |was| + |bytes| < RING then bytes else bytes[..RING - 1 - |was|]
  }

  lemma FilledMore(was: seq<Byte>, bytes: seq<Byte>, c: Byte)
    requires |was| < RING
    ensures Accepted(Filled(was, bytes), c) == Filled(was, bytes + [c])
    ensures Filled(was, []) == was
  {
    var room := RING - 1 - |was|;
    if |bytes| < room {
      assert was + bytes + [c] == was + (bytes + [c]);
    } else {
      assert (bytes + [c])[..room] == bytes[..room];
    }
  }

  /** The digit of client k is among the bytes. */
  ghost predicate Digit(k: nat, bytes: seq<Byte>) {
    exists i :: 0 <= i < |bytes| && bytes[i] == 48 + k
  }

  /** Of n clients, those whose digits are among the bytes. */
  ghost predicate Chosen(selected: set<nat>, bytes: seq<Byte>, n: nat) {
    forall k: nat :: k in selected <==> k < n && Digit(k, bytes)
  }

  lemma ChosenMore(selected: set<nat>, bytes: seq<Byte>, c: Byte, n: nat)
    requires Chosen(selected, bytes, n)
    ensures Chosen(if 48 <= c < 48 + n then selected + {c - 48} else selected, bytes + [c], n)
  {
    forall k: nat
      ensures Digit(k, bytes + [c]) <==> Digit(k, bytes) || c == 48 + k
    {
      if Digit(k, bytes) {
        var i :| 0 <= i < |bytes| && bytes[i] == 48 + k;
        assert (bytes + [c])[i] == 48 + k;
      }
      assert (bytes + [c])[|bytes|] == c;
    }
  }

  class Input {
    const rings: seq<Ring>
    var statemachine: nat
    var activeClient: int
    var activeMulticlients: set<nat>
    var debug: nat
    ghost var offered: seq<seq<Byte>>

    ghost predicate Valid()
      reads this, rings
    {
      && |offered| == |rings|
      && View().Ok()
      && RingsOk()
    }

    ghost predicate RingsOk()
      reads rings
    {
      && (forall i: nat :: i < |rings| ==> rings[i].Valid())
      && (forall i: nat, j: nat :: i < j < |rings| ==> rings[i] != rings[j] && rings[i].buf != rings[j].buf)
    }

    ghost function View(): State
      reads this
    {
      State(statemachine, activeClient, activeMulticlients, debug, offered)
    }

    /** All the clients' buffers. */
    ghost function Buffers(): set<object> {
      set i: nat | i < |rings| :: rings[i].buf
    }

    constructor (clients: nat)
      requires clients <= MAX_CLIENTS
      ensures Valid() && View() == State(1, 0, {}, 0, seq(clients, _ => []))
      ensures |rings| == clients && forall i: nat :: i < clients ==> rings[i].Contents() == []
    {
      var rs: seq<Ring> := [];
      while |rs| < clients
        invariant |rs| <= clients
        invariant forall i: nat :: i < |rs| ==>
          fresh(rs[i]) && fresh(rs[i].buf) && rs[i].Valid() && rs[i].Contents() == []
        invariant forall i: nat, j: nat :: i < j < |rs| ==> rs[i] != rs[j] && rs[i].buf != rs[j].buf
      {
        var r := new Ring();
        rs := rs + [r];
      }
      rings := rs;
      statemachine, activeClient, activeMulticlients, debug := 1, 0, {}, 0;
      offered := seq(clients, _ => []);
    }

    /** One client's ring is offered the byte; the others do not change. */
    method PutOne(k: nat, c: Byte)
      requires RingsOk() && k < |rings|
      modifies rings[k], rings[k].buf
      ensures RingsOk()
      ensures forall i: nat :: i < |rings| ==>
        rings[i].Contents() == if i == k then Accepted(old(rings[i].Contents()), c) else old(rings[i].Contents())
    {
      rings[k].RawPutchar(c);
      forall i: nat | i < |rings| && i != k
        ensures rings[i].Valid() && rings[i].Contents() == old(rings[i].Contents())
      {
      }
    }

    /** The rings selected among the first k have been offered the byte. */
    twostate predicate OfferedBelow(selected: set<nat>, k: nat, c: Byte)
      requires old(RingsOk()) && RingsOk()
      reads rings, Buffers()
    {
      forall i: nat :: i < |rings| ==>
        rings[i].Contents() ==
          if i in selected && i < k then Accepted(old(rings[i].Contents()), c) else old(rings[i].Contents())
    }

    /** The loop over the clients of multi-client input. */
    method PutMany(selected: set<nat>, c: Byte)
      requires RingsOk() && forall i :: i in selected ==> i < |rings|
      modifies rings, Buffers()
      ensures RingsOk() && OfferedBelow(selected, 2 * MAX_CLIENTS, c)
    {
      for k := 0 to 2 * MAX_CLIENTS
        invariant RingsOk() && OfferedBelow(selected, k, c)
      {
        label Before:
        if k in selected {
          PutOne(k, c);
        }
        assert forall i: nat :: i < |rings| && i != k ==> rings[i].Contents() == old@Before(rings[i].Contents());
      }
    }

    /** give_client_char: the byte goes into the ring of each selected client, once. */
    method GiveClientChar(c: Byte)
      requires Valid() && rings != []
      modifies this`offered, rings, Buffers()
      ensures Valid() && View() == old(View()).Offer(c)
      ensures forall i: nat :: i < |rings| ==>
        rings[i].Contents() ==
          if i in View().Targets() then Accepted(old(rings[i].Contents()), c) else old(rings[i].Contents())
    {
      offered := OfferTo(offered, View().Targets(), [c]);
      if activeClient >= 0 {
        PutOne(activeClient, c);
      } else if activeClient == -1 {
        PutMany(activeMulticlients, c);
      }
    }

    /** handle_char. */
    method HandleChar(c: Byte)
      requires Valid()
      modifies this, rings, Buffers()
      ensures Valid() && View() == Step(old(View()), c)
      ensures if |rings| == 0 then View() == old(View()) else Handled(old(View()), c, View())
      ensures forall i: nat :: i < |rings| ==>
        rings[i].Contents() ==
          if old(Gives(View(), c) && i in View().Targets()) then Accepted(old(rings[i].Contents()), c)
          else old(rings[i].Contents())
    {
      if |rings| == 0 {
        return;
      }
      StepHandled(View(), c);
      if statemachine == 0 {
        if EndsLine(c) {
          statemachine := 1;
        }
        GiveClientChar(c);
      } else if statemachine == 1 {
        if EndsLine(c) {
          GiveClientChar(c);
        } else if c == ESCAPE {
          statemachine := 2;
        } else {
          statemachine := 0;
          GiveClientChar(c);
        }
      } else if statemachine == 2 {
        if c == ESCAPE {
          statemachine := 0;
          GiveClientChar(c);
        } else {
          Command(c);
        }
      } else if statemachine == 3 {
        if NamesClient(c, |rings|) {
          activeMulticlients := activeMulticlients + {c - DIGIT_0};
        } else if c == 'm' as int || c == 'M' as int || c == CR || c == LF {
          statemachine := 1;
        }
      }
    }

    /** The commands after an '@'; 's' and '?' only print, and so does anything unknown. */
    method Command(c: Byte)
      requires Valid() && rings != [] && statemachine == 2 && c != ESCAPE
      modifies this`statemachine, this`activeClient, this`activeMulticlients, this`debug
      ensures Valid() && View() == Step(old(View()), c)
    {
      if c == 'm' as int {
        statemachine := 3;
        activeMulticlients := {};
        activeClient := -1;
      } else if c == 'd' as int {
        debug := (debug + 1) % 3;
        statemachine := 1;
      } else if c == 's' as int || c == '?' as int {
        statemachine := 1;
      } else {
        statemachine := 1;
        if NamesClient(c, |rings|) {
          activeClient := c - DIGIT_0;
        }
      }
    }

    /** What every client has in its ring. */
    ghost function Held(): (h: seq<seq<Byte>>)
      requires RingsOk()
      reads rings, Buffers()
      ensures |h| == |rings| && forall i: nat :: i < |h| ==> h[i] == rings[i].Contents()
    {
      seq(|rings|, i requires 0 <= i < |rings| && RingsOk() reads rings, Buffers() => rings[i].Contents())
    }

    /** Since the rings held `was` and the clients had been offered `had`, every ring has taken, as far as it
        had room, what its client was offered. */
    ghost predicate Delivered(was: seq<seq<Byte>>, had: seq<seq<Byte>>)
      requires |offered| == |rings| && RingsOk()
      reads this, rings, Buffers()
    {
      |was| == |had| == |rings| && forall i: nat :: i < |rings| ==> DeliveredTo(i, was[i], had[i])
    }

    ghost predicate DeliveredTo(i: nat, was: seq<Byte>, had: seq<Byte>)
      requires i < |rings| == |offered| && RingsOk()
      reads this, rings, Buffers()
    {
      && |was| < RING && |had| <= |offered[i]| && offered[i][..|had|] == had
      && rings[i].Contents() == Filled(was, offered[i][|had|..])
    }

    twostate lemma OneMore(i: nat, new c: Byte, new was: seq<Byte>, new had: seq<Byte>)
      requires old(Valid()) && Valid() && i < |rings| && old(DeliveredTo(i, was, had))
      requires if old(Gives(View(), c) && i in View().Targets())
        then offered[i] == old(offered[i]) + [c] && rings[i].Contents() == Accepted(old(rings[i].Contents()), c)
        else offered[i] == old(offered[i]) && rings[i].Contents() == old(rings[i].Contents())
      ensures DeliveredTo(i, was, had)
    {
      ghost var more := old(offered[i])[|had|..];
      FilledMore(was, more, c);
      assert (old(offered[i]) + [c])[|had|..] == more + [c];
    }

    /** handle_char, and what it adds to what was delivered before. */
    method HandleNext(c: Byte, ghost was: seq<seq<Byte>>, ghost had: seq<seq<Byte>>)
      requires Valid() && Delivered(was, had)
      modifies this, rings, Buffers()
      ensures Valid() && View() == Step(old(View()), c) && Delivered(was, had)
    {
      StepOffers(View(), c);
      HandleChar(c);
      forall i: nat | i < |rings|
        ensures DeliveredTo(i, was[i], had[i])
      {
        OneMore(i, c, was[i], had[i]);
      }
    }

    /** A whole escaped text, byte by byte from the start of a line, arrives as it was: in the ring of every
        selected client, up to where that is full, and nowhere else. */
    method HandleEscaped(bytes: seq<Byte>)
      requires Valid() && statemachine == 1
      modifies this, rings, Buffers()
      ensures Valid() && activeClient == old(activeClient) && activeMulticlients == old(activeMulticlients)
      ensures forall i: nat :: i < |rings| ==>
        rings[i].Contents() ==
          if i in old(View()).Targets() then Filled(old(rings[i].Contents()), bytes) else old(rings[i].Contents())
    {
      var text := Escape(bytes, true);
      ghost var start, was := View(), Held();
      EscapedTextArrives(start, bytes, true);
      var k := 0;
      while k < |text|
        invariant k <= |text| && Valid() && Delivered(was, start.offered)
        invariant Run(View(), text[k..]) == Run(start, text)
      {
        RunCons(View(), text[k], text[k + 1..]);
        assert text[k..] == [text[k]] + text[k + 1..];
        HandleNext(text[k], was, start.offered);
        k := k + 1;
      }
      assert text[k..] == [];
      Arrived(start, was, bytes);
    }

    lemma Arrived(start: State, was: seq<seq<Byte>>, bytes: seq<Byte>)
      requires Valid() && |start.offered| == |rings| && Delivered(was, start.offered)
      requires offered == OfferTo(start.offered, start.Targets(), bytes)
      ensures forall i: nat :: i < |rings| ==>
        rings[i].Contents() == if i in start.Targets() then Filled(was[i], bytes) else was[i]
    {
      forall i: nat | i < |rings|
        ensures rings[i].Contents() == if i in start.Targets() then Filled(was[i], bytes) else was[i]
      {
        assert DeliveredTo(i, was[i], start.offered[i]);
        FilledMore(was[i], [], 0);
        assert (start.offered[i] + bytes)[|start.offered[i]|..] == bytes;
      }
    }

    // -------------------------------------------------------------------------
    // Commands, from the start of a line

    /** No ring has changed, nor what has been offered to anyone. */
    twostate predicate Silent()
      requires old(Valid()) && Valid()
      reads this, rings, Buffers()
    {
      offered == old(offered) && forall i: nat :: i < |rings| ==> rings[i].Contents() == old(rings[i].Contents())
    }

    /** '@' and the digit of a client: that client and no other gets what is typed from now on. */
    method SelectClient(k: nat)
      requires Valid() && statemachine == 1 && k < |rings|
      modifies this, rings, Buffers()
      ensures Valid() && Silent() && statemachine == 1 && activeClient == k
      ensures activeMulticlients == old(activeMulticlients) && debug == old(debug)
    {
      hide Step, Ring.Contents, Accepted, State.Targets;
      HandleChar(64);
      HandleChar(48 + k);
    }

    /** Text typed after that is in the ring of client k, as far as there is room, and in no other ring. */
    method SelectAndType(k: nat, text: seq<Byte>)
      requires Valid() && statemachine == 1 && k < |rings|
      modifies this, rings, Buffers()
      ensures Valid() && activeClient == k
      ensures forall i: nat :: i < |rings| ==>
        rings[i].Contents() == if i == k then Filled(old(rings[i].Contents()), text) else old(rings[i].Contents())
    {
      SelectClient(k);
      HandleEscaped(text);
    }

    /** One of those bytes. */
    method ChooseNext(c: Byte, ghost before: seq<Byte>)
      requires Valid() && statemachine == 3 && rings != [] && c !in {109, 77, 13, 10}
      requires Chosen(activeMulticlients, before, |rings|)
      modifies this, rings, Buffers()
      ensures Valid() && Silent() && statemachine == 3
      ensures activeClient == old(activeClient) && debug == old(debug)
      ensures Chosen(activeMulticlients, before + [c], |rings|)
    {
      hide Step, Ring.Contents, Accepted, State.Targets;
      ChosenMore(activeMulticlients, before, c, |rings|);
      HandleChar(c);
    }

    /** '@', 'm', any bytes that do not end the choice, and one of 'm', 'M', CR, LF: exactly the clients whose
        digits are among those bytes are selected, and nobody selected before is unless chosen again. */
    method SelectMany(bytes: seq<Byte>, last: Byte)
      requires Valid() && statemachine == 1 && rings != []
      requires (forall i :: 0 <= i < |bytes| ==> bytes[i] !in {109, 77, 13, 10}) && last in {109, 77, 13, 10}
      modifies this, rings, Buffers()
      ensures Valid() && Silent() && statemachine == 1 && activeClient == -1 && debug == old(debug)
      ensures Chosen(activeMulticlients, bytes, |rings|)
    {
      hide Step, Ring.Contents, Accepted, State.Targets;
      HandleChar(64);
      HandleChar(109);
      var n := 0;
      while n < |bytes|
        invariant n <= |bytes| && Valid() && Silent() && statemachine == 3 && activeClient == -1 && debug == old(debug)
        invariant Chosen(activeMulticlients, bytes[..n], |rings|)
      {
        assert bytes[..n + 1] == bytes[..n] + [bytes[n]];
        ChooseNext(bytes[n], bytes[..n]);
        n := n + 1;
      }
      assert bytes[..n] == bytes;
      HandleChar(last);
    }

    /** Text typed after that is in the rings of those clients and in no other. */
    method SelectManyAndType(bytes: seq<Byte>, last: Byte, text: seq<Byte>)
      requires Valid() && statemachine == 1 && rings != []
      requires (forall i :: 0 <= i < |bytes| ==> bytes[i] !in {109, 77, 13, 10}) && last in {109, 77, 13, 10}
      modifies this, rings, Buffers()
      ensures Valid() && activeClient == -1
      ensures forall i: nat :: i < |rings| ==>
        rings[i].Contents() ==
          if Digit(i, bytes) then Filled(old(rings[i].Contents()), text) else old(rings[i].Contents())
    {
      SelectMany(bytes, last);
      HandleEscaped(text);
    }

    /** '@' 'd' goes to the next of three debug levels. */
    method NextDebugLevel()
      requires Valid() && statemachine == 1 && rings != []
      modifies this, rings, Buffers()
      ensures Valid() && Silent() && statemachine == 1 && debug == (old(debug) + 1) % 3
      ensures activeClient == old(activeClient) && activeMulticlients == old(activeMulticlients)
    {
      hide Step, Handled, Ring.Contents, Accepted, State.Targets;
      ghost var s := View();
      HandleChar(64);
      ghost var u := View();
      CommandBegun(s, u);
      HandleChar(100);
      DebugStepped(u, View());
    }

    /** '@' and anything that is no command of those and no client's digit, 's' (115) and '?' (63) included: nothing
        is selected, and the next byte is at the start of a line again. */
    method OtherCommand(c: Byte)
      requires Valid() && statemachine == 1 && rings != []
      requires c !in {64, 109, 100} && !(48 <= c < 48 + |rings|)
      modifies this, rings, Buffers()
      ensures Valid() && Silent() && statemachine == 1 && debug == old(debug)
      ensures activeClient == old(activeClient) && activeMulticlients == old(activeMulticlients)
    {
      hide Step, Ring.Contents, Accepted, State.Targets;
      HandleChar(64);
      HandleChar(c);
    }
  }
}
