/** Any run of the asynchronous transport, from its start: what the client submitted, what came back, and
    what crossed over to the stack. */
module TransportRuns {
  import opened Basics
  import opened Channels
  import opened PendingQueue
  import opened AsyncTransport
  import opened AsyncServer
  import opened Transport

  /** What may happen next.  The stack's answers within an event are arbitrary. */
  datatype Event =
    | Submit(dir: Direction, fd: int, buf: seq<Byte>, handle: nat)
    | Ring
    | Callback(fd: int, readable: bool, writable: bool)
    | SetAsync(fd: int, enabled: bool, calloc: bool)
    | Open(fd: int, protocol: Protocol)
    | Close(fd: int)
    | Notify
  {
    /** The client keeps to the lengths it was told, and a new socket's descriptor is not in use. */
    predicate Sensible(sockets: map<int, Protocol>) {
      match this
      case Submit(_, _, buf, _) => 0 < |buf| <= MAX_LEN
      case Open(fd, _) => fd !in sockets
      case _ => true
    }
  }

  /** Which sockets there are, and which of them are set up for asynchronous use. */
  datatype Setup = Setup(sockets: map<int, Protocol>, async: set<int>) {
    ghost function Next(e: Event): Setup {
      match e
      case Open(fd, protocol) => this.(sockets := sockets[fd := protocol])
      case Close(fd) => Setup(sockets - {fd}, async - {fd})
      case SetAsync(fd, enabled, calloc) =>
        if fd !in sockets || (enabled && !calloc) then this
        else if enabled then this.(async := async + {fd})
        else this.(async := async - {fd})
      case _ => this
    }

    /** What the messages answered in an event may have coming. */
    ghost function Setting(e: Event, dir: Direction): Channels.Setting {
      Channels.Setting(dir, async, if dir == Tx then map[] else sockets, e.Ring? || e.Callback?,
        if e.Close? || (e.SetAsync? && !e.enabled) then {e.fd} else {})
    }

    /** In the event the socket is not torn down, and it is asynchronous if rings are served. */
    ghost predicate Serves(e: Event, fd: int) {
      && (e.Ring? || e.Callback? ==> fd in async)
      && !(e.Close? && e.fd == fd) && !(e.SetAsync? && !e.enabled && e.fd == fd)
    }
  }

  ghost function SetupAfter(events: seq<Event>): Setup {
    if events == [] then Setup(map[], {})
    else SetupAfter(events[..|events| - 1]).Next(events[|events| - 1])
  }

  /** The socket was never torn down, and asynchronous whenever rings were served. */
  ghost predicate Steady(events: seq<Event>, fd: int) {
    events != [] ==>
      var before := events[..|events| - 1];
      Steady(before, fd) && SetupAfter(before).Serves(events[|events| - 1], fd)
  }

  /** An end that a steady socket's messages may come to: they are refused by the stack, or complete as the
      protocol has it. */
  ghost predicate Deserved(d: Done, dir: Direction, protocol: Option<Protocol>) {
    match d.how
    case Failed(cause) => cause == Refused
    case Whole => dir == Rx ==> protocol == Some(Tcp)
    case Datagram(_) => dir == Rx && protocol == Some(Udp)
  }

  ghost function ProtocolOf(setup: Setup, fd: int): Option<Protocol> {
    if fd in setup.sockets then Some(setup.sockets[fd]) else None
  }

  ghost predicate AllDeserved(used: seq<Tag<Done>>, dir: Direction, events: seq<Event>) {
    forall i :: 0 <= i < |used| && Steady(events, used[i].fd) ==>
      Deserved(used[i].what, dir, ProtocolOf(SetupAfter(events), used[i].fd))
  }

  /** One more event on a steady socket. */
  lemma DeservedStill(d: Tag<Done>, dir: Direction, events: seq<Event>, e: Event)
    requires e.Sensible(SetupAfter(events).sockets) && Steady(events + [e], d.fd)
    requires
      || (Steady(events, d.fd) ==> Deserved(d.what, dir, ProtocolOf(SetupAfter(events), d.fd)))
      || SetupAfter(events).Setting(e, dir).Fair(d)
    ensures Deserved(d.what, dir, ProtocolOf(SetupAfter(events + [e]), d.fd))
  {
    assert (events + [e])[..|events|] == events;
  }

  lemma DeservedMore(was: seq<Tag<Done>>, used: seq<Tag<Done>>, dir: Direction, events: seq<Event>, e: Event)
    requires AllDeserved(was, dir, events) && SetupAfter(events).Setting(e, dir).FairSince(was, used)
    requires e.Sensible(SetupAfter(events).sockets)
    ensures AllDeserved(used, dir, events + [e])
  {
    forall i | 0 <= i < |used| && Steady(events + [e], used[i].fd)
      ensures Deserved(used[i].what, dir, ProtocolOf(SetupAfter(events + [e]), used[i].fd))
    {
      if i < |was| {
        assert used[i] == used[..|was|][i];
      }
      DeservedStill(used[i], dir, events, e);
    }
  }

  /** What is on its way was there before or is new, and so are the queues. */
  twostate predicate Renewed(half: Half)
    reads half
  {
    && (forall m :: m in half.msgs ==> m in old(half.msgs) || fresh(m))
    && (forall q :: q in half.queues.Values ==> q in old(half.queues.Values) || fresh(q))
  }

  /** What one event adds to the log of a ring. */
  ghost function Added(e: Event, dir: Direction): seq<Tag<Given>> {
    match e
    case Submit(d, fd, buf, handle) => if d == dir then [Tag(fd, Given(handle, buf))] else []
    case _ => []
  }

  /** What the client offered on one ring, in order. */
  ghost function Submitted(events: seq<Event>, dir: Direction): seq<Tag<Given>> {
    if events == [] then []
    else Submitted(events[..|events| - 1], dir) + Added(events[|events| - 1], dir)
  }

  ghost function Look(t: Transport): Setup
    reads t`sockets, t.tx`queues
  {
    Setup(t.sockets, t.tx.queues.Keys)
  }

  /** The event is answered as it may be, the client finds in each message what became of it, and the sockets
      are as they should be. */
  twostate predicate Proper(t: Transport, new e: Event)
    reads t`sockets, t.tx`queues, t.tx`account, t.rx`account, t.tx`returned, t.rx`returned
    reads t.tx.returned`place, t.tx.returned`doneLen, t.tx.returned`buf
    reads t.rx.returned`place, t.rx.returned`doneLen, t.rx.returned`buf
  {
    && t.tx.Told() && t.rx.Told()
    && Fairly(t.tx, old(Look(t)).Setting(e, Tx)) && Fairly(t.rx, old(Look(t)).Setting(e, Rx))
    && Look(t) == old(Look(t)).Next(e)
  }

  method StepSubmit(t: Transport, e: Event)
    requires t.Valid() && e.Submit? && 0 < |e.buf| <= MAX_LEN
    modifies t.tx, t.rx
    ensures t.Valid() && Renewed(t.tx) && Renewed(t.rx) && Proper(t, e)
    ensures t.tx.submitted == old(t.tx.submitted) + Added(e, Tx) && t.rx.submitted == old(t.rx.submitted) + Added(e, Rx)
  {
    FairNone(Look(t).Setting(e, Tx), t.tx.account.used);
    FairNone(Look(t).Setting(e, Rx), t.rx.account.used);
    hide Half.Sound, Half.Even, Account.Settled, Channels.Setting.FairSince, Half.ToldSince;
    var msg := new Msg();
    t.Submit(e.dir, msg, e.fd, e.buf, e.handle);
  }

  /** Nothing was submitted, and no queue or message is there that was not, but for new queues. */
  twostate predicate Quiet(half: Half)
    reads half
  {
    Kept(half) && forall q :: q in half.queues.Values ==> q in old(half.queues.Values) || fresh(q)
  }

  method StepServe(t: Transport, e: Event)
    requires t.Valid() && (e.Ring? || e.Callback?)
    modifies t.tx, t.rx, t.tx.queues.Values, t.rx.queues.Values, t.tx.msgs, t.rx.msgs
    ensures t.Valid() && Quiet(t.tx) && Quiet(t.rx) && Proper(t, e)
  {
    assert Look(t).Setting(e, Tx) == Serving(t.tx, map[], true);
    assert Look(t).Setting(e, Rx) == Serving(t.rx, t.sockets, true);
    hide Half.Sound, Half.Even, Account.Settled, Channels.Setting.FairSince;
    if e.Ring? {
      t.RingIrq();
    } else {
      var _ := t.SocketCb(e.fd, e.readable, e.writable);
    }
  }

  lemma ValuesFrom<K, V>(m: map<K, V>, was: map<K, V>)
    requires forall k :: k in m ==> k in was && m[k] == was[k]
    ensures forall v :: v in m.Values ==> v in was.Values
  {
    forall v | v in m.Values
      ensures v in was.Values
    {
      var k := KeyOf(m, v);
      assert was[k] in was.Values;
    }
  }

  /** Messages given up in a teardown had that coming. */
  lemma GivenUpFair(s: Channels.Setting, was: seq<Tag<Done>>, used: seq<Tag<Done>>, fd: int)
    requires |was| <= |used| && used[..|was|] == was && GivenUp(used, |was|, fd)
    requires fd in s.closing || used == was
    ensures s.FairSince(was, used)
  {}

  method StepClose(t: Transport, e: Event)
    requires t.Valid() && e.Close?
    modifies t, t.tx, t.rx, t.tx.queues.Values, t.rx.queues.Values, t.tx.msgs, t.rx.msgs
    ensures t.Valid() && Quiet(t.tx) && Quiet(t.rx) && Proper(t, e)
  {
    hide Half.Sound, Half.Even, Account.Settled, Channels.Setting.FairSince, GivenUp;
    var _ := t.Close(e.fd);
    ValuesFrom(t.tx.queues, old(t.tx.queues));
    ValuesFrom(t.rx.queues, old(t.rx.queues));
    GivenUpFair(old(Look(t)).Setting(e, Tx), old(t.tx.account).used, t.tx.account.used, e.fd);
    GivenUpFair(old(Look(t)).Setting(e, Rx), old(t.rx.account).used, t.rx.account.used, e.fd);
  }

  twostate lemma ValuesNew(half: Half)
    requires forall f :: f in half.queues ==>
      (f in old(half.queues) && half.queues[f] == old(half.queues[f])) || fresh(half.queues[f])
    ensures forall q :: q in half.queues.Values ==> q in old(half.queues.Values) || fresh(q)
  {
    forall q | q in half.queues.Values
      ensures q in old(half.queues.Values) || fresh(q)
    {
      var f := KeyOf(half.queues, q);
      assert f in old(half.queues) ==> old(half.queues[f]) in old(half.queues.Values);
    }
  }

  method StepSetAsync(t: Transport, e: Event)
    requires t.Valid() && e.SetAsync?
    modifies t.tx, t.rx, t.tx.queues.Values, t.rx.queues.Values, t.tx.msgs, t.rx.msgs
    ensures t.Valid() && Quiet(t.tx) && Quiet(t.rx) && Proper(t, e)
  {
    hide Half.Sound, Half.Even, Account.Settled, Channels.Setting.FairSince, GivenUp;
    var _ := t.SetAsync(e.fd, e.enabled, e.calloc);
    ValuesNew(t.tx);
    ValuesNew(t.rx);
    GivenUpFair(old(Look(t)).Setting(e, Tx), old(t.tx.account).used, t.tx.account.used, e.fd);
    GivenUpFair(old(Look(t)).Setting(e, Rx), old(t.rx.account).used, t.rx.account.used, e.fd);
  }

  method StepOther(t: Transport, e: Event)
    requires t.Valid() && ((e.Open? && e.fd !in t.sockets) || e.Notify?)
    modifies t, t.tx, t.rx
    ensures t.Valid() && Quiet(t.tx) && Quiet(t.rx) && Proper(t, e)
  {
    FairNone(Look(t).Setting(e, Tx), t.tx.account.used);
    FairNone(Look(t).Setting(e, Rx), t.rx.account.used);
    t.tx.ToldNow();
    t.rx.ToldNow();
    hide Half.Sound, Half.Even, Account.Settled, Channels.Setting.FairSince, Half.ToldSince;
    match e {
      case Open(fd, protocol) =>
        t.Open(fd, protocol);
      case Notify =>
        t.NotifyClient();
    }
    t.tx.ToldKept(old(t.tx.SoFar()));
    t.rx.ToldKept(old(t.rx.SoFar()));
  }

  /** Everything that belongs to the transport. */
  ghost function Footprint(t: Transport): set<object>
    reads t, t.tx, t.rx
  {
    var queues: set<object> := t.tx.queues.Values + t.rx.queues.Values;
    var msgs: set<object> := t.tx.msgs + t.rx.msgs;
    {t, t.tx, t.rx} + queues + msgs
  }

  twostate lemma FootprintGrows(t: Transport)
    requires Renewed(t.tx) && Renewed(t.rx)
    ensures fresh(Footprint(t) - old(Footprint(t)))
  {}

  method Step(t: Transport, e: Event)
    requires t.Valid() && e.Sensible(t.sockets)
    modifies Footprint(t)
    ensures Proper(t, e)
    ensures t.Valid() && fresh(Footprint(t) - old(Footprint(t)))
    ensures t.tx.submitted == old(t.tx.submitted) + Added(e, Tx) && t.rx.submitted == old(t.rx.submitted) + Added(e, Rx)
  {
    hide Transport.Valid, Proper;
    if e.Submit? {
      StepSubmit(t, e);
    } else if e.Ring? || e.Callback? {
      StepServe(t, e);
    } else if e.Close? {
      StepClose(t, e);
    } else if e.SetAsync? {
      StepSetAsync(t, e);
    } else {
      StepOther(t, e);
    }
    FootprintGrows(t);
  }

  lemma SubmittedMore(events: seq<Event>, n: nat, dir: Direction)
    requires n < |events|
    ensures Submitted(events[..n + 1], dir) == Submitted(events[..n], dir) + Added(events[n], dir)
  {
    assert events[..n + 1][..n] == events[..n];
  }

  // ---------------------------------------------------------------------------
  // What becomes of the submissions

  lemma {:induction false} ForConcat<T>(a: seq<Tag<T>>, b: seq<Tag<T>>, fd: int)
    ensures For(a + b, fd) == For(a, fd) + For(b, fd)
    decreases |b|
  {
    if b == [] {
      assert a + b == a;
    } else {
      var n := |b| - 1;
      ForConcat(a, b[..n], fd);
      assert (a + b)[..|a + b| - 1] == a + b[..n];
    }
  }

  /** What waits on a socket, as it was submitted. */
  ghost function Awaiting(half: Half, fd: int): (g: seq<Given>)
    reads half`queues, half.queues.Values
    ensures fd !in half.queues ==> g == []
  {
    if fd !in half.queues then [] else
      var items := half.queues[fd].items;
      seq(|items|, i requires 0 <= i < |items| => items[i].given)
  }

  /** Of what was submitted for a socket, in order: first what has come back, then what waits in the
      socket's queue, then what is still on the ring.  The bytes that crossed over are those of the
      messages that came back, and then those begun of the first that waits.  How each message ended is
      what the stack answered to it, and what it answered altogether is what it answered to the messages
      that came back and to the first that waits; so as many were refused as it answered -1. */
  ghost predicate Accounted(half: Half, fd: int, submitted: seq<Tag<Given>>)
    reads half, half.queues.Values,
      if fd in half.queues && half.queues[fd].head != null then {half.queues[fd].head} else {}
  {
    var ended := For(half.account.used, fd);
    && For(submitted, fd) == Givens(ended) + Awaiting(half, fd) + For(half.offers, fd)
    && half.OnWire(fd) == BytesOf(ended) + (if fd in half.queues then half.queues[fd].Begun() else [])
    && (forall d :: d in ended ==> DoneOk(d))
    && (half.dir == Tx ==> forall d :: d in ended ==>
          d.data <= d.given.body && (d.how.Failed? || d.data == d.given.body))
    && half.HeardOn(fd) == AnswersOf(ended) + AnswersAwaiting(half, fd)
    && GivenBack(ended) == Refusals(half.HeardOn(fd))
  }

  ghost function AnswersAwaiting(half: Half, fd: int): seq<int>
    reads half`queues, half.queues.Values
  {
    if fd in half.queues && half.queues[fd].items != [] then half.queues[fd].items[0].answers else []
  }

  lemma SubmissionsAccounted(half: Half, fd: int)
    requires half.Valid() && half.Logged()
    ensures For(half.submitted, fd) == Givens(For(half.account.used, fd)) + Awaiting(half, fd) + For(half.offers, fd)
  {
    assert half.account.SocketOk(fd);
    ForConcat(half.account.taken, half.offers, fd);
    var c := half.account.On(fd);
    assert c.queue == if fd in half.queues then half.queues[fd].items else [];
    assert c.Taken() == Givens(c.finished) + Awaiting(half, fd);
  }

  lemma AnswersAccounted(half: Half, fd: int)
    requires half.Valid()
    ensures half.HeardOn(fd) == AnswersOf(For(half.account.used, fd)) + AnswersAwaiting(half, fd)
  {
    assert half.account.SocketOk(fd);
    var c := half.account.On(fd);
    assert c.queue == if fd in half.queues then half.queues[fd].items else [];
    assert half.HeardOn(fd) == c.Heard();
  }

  lemma AllAccounted(half: Half, fd: int)
    requires half.Valid() && half.Logged()
    ensures Accounted(half, fd, half.submitted)
  {
    Stream(half, fd);
    SubmissionsAccounted(half, fd);
    AnswersAccounted(half, fd);
  }

  lemma BothAccounted(t: Transport)
    requires t.Valid()
    ensures forall fd :: Accounted(t.tx, fd, t.tx.submitted) && Accounted(t.rx, fd, t.rx.submitted)
  {
    forall fd
      ensures Accounted(t.tx, fd, t.tx.submitted) && Accounted(t.rx, fd, t.rx.submitted)
    {
      AllAccounted(t.tx, fd);
      AllAccounted(t.rx, fd);
    }
  }

  /** Every message on the used ring tells the client what became of it; the buffer of one that was received
      into begins with the bytes the stack gave for it, however long ago it came back. */
  ghost predicate AllTold(half: Half)
    reads half`account, half`returned, half.returned`place, half.returned`doneLen, half.returned`buf
  {
    |half.returned| == |half.account.used| && forall i: nat :: i < |half.returned| ==> half.Tells(i)
  }

  twostate lemma StillTold(half: Half)
    requires old(AllTold(half)) && half.Told()
    ensures AllTold(half)
  {
    forall i: nat | i < |half.returned|
      ensures half.Tells(i)
    {
      if i < |old(half.returned)| {
        assert old(half.Tells(i)) && half.returned[i] == half.returned[..|old(half.returned)|][i];
        assert half.returned[i] in old(half.SoFar()).notes;
        assert half.account.used[i] == half.account.used[..|old(half.account).used|][i];
      }
    }
  }

  /** The client has submitted what these events say, the sockets are set up as they say, and every message
      that was answered had that coming. */
  ghost predicate Follows(t: Transport, events: seq<Event>)
    reads t`sockets, t.tx`submitted, t.rx`submitted, t.tx`queues, t.tx`account, t.rx`account
    reads t.tx`returned, t.tx.returned`place, t.tx.returned`doneLen, t.tx.returned`buf
    reads t.rx`returned, t.rx.returned`place, t.rx.returned`doneLen, t.rx.returned`buf
  {
    && AllTold(t.tx) && AllTold(t.rx)
    && t.tx.submitted == Submitted(events, Tx) && t.rx.submitted == Submitted(events, Rx)
    && Look(t) == SetupAfter(events)
    && AllDeserved(t.tx.account.used, Tx, events) && AllDeserved(t.rx.account.used, Rx, events)
  }

  method StepNth(t: Transport, events: seq<Event>, n: nat)
    requires t.Valid() && n < |events| && events[n].Sensible(t.sockets) && Follows(t, events[..n])
    modifies Footprint(t)
    ensures t.Valid() && fresh(Footprint(t) - old(Footprint(t))) && Follows(t, events[..n + 1])
  {
    hide Half.Valid, Account.Settled, Channels.Setting.FairSince, AllDeserved, AllTold, Half.ToldSince;
    SubmittedMore(events, n, Tx);
    SubmittedMore(events, n, Rx);
    ghost var e := events[n];
    assert events[..n + 1] == events[..n] + [e] && events[..n + 1][..n] == events[..n];
    Step(t, events[n]);
    StillTold(t.tx);
    StillTold(t.rx);
    DeservedMore(old(t.tx.account).used, t.tx.account.used, Tx, events[..n], e);
    DeservedMore(old(t.rx.account).used, t.rx.account.used, Rx, events[..n], e);
  }

  method Begin() returns (t: Transport)
    ensures t.Valid() && fresh(Footprint(t)) && fresh(t) && Follows(t, [])
  {
    t := new Transport();
  }

  /** A run of events, from the start, up to one that is not sensible: the client or the stack would not
      bring that about. */
  method Proceed(events: seq<Event>) returns (t: Transport, n: nat)
    ensures fresh(t) && t.Valid() && n <= |events|
    ensures n < |events| ==> !events[n].Sensible(t.sockets)
    ensures Follows(t, events[..n])
  {
    hide Transport.Valid, Follows, Event.Sensible;
    t := Begin();
    n := 0;
    assert events[..0] == [];
    ghost var own := Footprint(t);
    while n < |events| && events[n].Sensible(t.sockets)
      invariant n <= |events| && t.Valid() && Follows(t, events[..n])
      invariant fresh(own) && own == Footprint(t)
    {
      StepNth(t, events, n);
      own := Footprint(t);
      n := n + 1;
    }
  }

  /** Every message of the socket that came back was refused by the stack, or is complete. */
  ghost predicate Served(half: Half, fd: int, protocol: Option<Protocol>)
    reads half`account
  {
    forall d :: d in For(half.account.used, fd) ==> Deserved(d, half.dir, protocol)
  }

  lemma {:induction false} InFor(used: seq<Tag<Done>>, fd: int, d: Done) returns (i: nat)
    requires d in For(used, fd)
    ensures i < |used| && used[i] == Tag(fd, d)
  {
    var n := |used| - 1;
    if used[n] == Tag(fd, d) {
      i := n;
    } else {
      i := InFor(used[..n], fd, d);
    }
  }

  lemma SteadyServed(half: Half, fd: int, events: seq<Event>)
    requires AllDeserved(half.account.used, half.dir, events) && Steady(events, fd)
    ensures Served(half, fd, ProtocolOf(SetupAfter(events), fd))
  {
    forall d | d in For(half.account.used, fd)
      ensures Deserved(d, half.dir, ProtocolOf(SetupAfter(events), fd))
    {
      var i := InFor(half.account.used, fd, d);
    }
  }

  /** A steady socket that the stack has never refused anything loses no message: whatever came back of what
      was to be sent was sent whole. */
  lemma NothingFails(half: Half, fd: int, submitted: seq<Tag<Given>>, protocol: Option<Protocol>)
    requires Accounted(half, fd, submitted) && Served(half, fd, protocol) && -1 !in half.HeardOn(fd)
    ensures forall d :: d in For(half.account.used, fd) ==> !d.how.Failed?
    ensures half.dir == Tx ==> forall d :: d in For(half.account.used, fd) ==> d.data == d.given.body
  {
    NeverRefused(half.HeardOn(fd));
    NoneGivenBack(For(half.account.used, fd));
  }

  lemma {:induction false} NeverRefused(answers: seq<int>)
    requires -1 !in answers
    ensures Refusals(answers) == 0
  {
    if answers != [] {
      NeverRefused(answers[..|answers| - 1]);
    }
  }

  /** After any run of sensible events everything the client submitted is accounted for, on every socket
      and in both directions; every message that came back says how it ended and holds its bytes; and on a
      socket that was never torn down, and asynchronous whenever rings were served, every message that came
      back was refused by the stack, or is complete. */
  method Run(events: seq<Event>) returns (t: Transport, n: nat)
    ensures t.Valid() && n <= |events| && (n < |events| ==> !events[n].Sensible(t.sockets))
    ensures forall fd ::
      Accounted(t.tx, fd, Submitted(events[..n], Tx)) && Accounted(t.rx, fd, Submitted(events[..n], Rx))
    ensures AllTold(t.tx) && AllTold(t.rx)
    ensures forall fd :: Steady(events[..n], fd) ==>
      var protocol := ProtocolOf(SetupAfter(events[..n]), fd);
      && Served(t.tx, fd, protocol) && Served(t.rx, fd, protocol)
      && (-1 !in t.tx.HeardOn(fd) ==> forall d :: d in For(t.tx.account.used, fd) ==> d.data == d.given.body)
  {
    t, n := Proceed(events);
    BothAccounted(t);
    SteadySockets(t, events[..n]);
  }

  lemma SteadySockets(t: Transport, events: seq<Event>)
    requires t.Valid() && Follows(t, events)
    requires forall fd :: Accounted(t.tx, fd, t.tx.submitted) && Accounted(t.rx, fd, t.rx.submitted)
    ensures forall fd :: Steady(events, fd) ==>
      var protocol := ProtocolOf(SetupAfter(events), fd);
      && Served(t.tx, fd, protocol) && Served(t.rx, fd, protocol)
      && (-1 !in t.tx.HeardOn(fd) ==> forall d :: d in For(t.tx.account.used, fd) ==> d.data == d.given.body)
  {
    forall fd | Steady(events, fd)
      ensures var protocol := ProtocolOf(SetupAfter(events), fd);
        && Served(t.tx, fd, protocol) && Served(t.rx, fd, protocol)
        && (-1 !in t.tx.HeardOn(fd) ==> forall d :: d in For(t.tx.account.used, fd) ==> d.data == d.given.body)
    {
      SteadyServed(t.tx, fd, events);
      SteadyServed(t.rx, fd, events);
      if -1 !in t.tx.HeardOn(fd) {
        NothingFails(t.tx, fd, t.tx.submitted, ProtocolOf(SetupAfter(events), fd));
      }
    }
  }
}
