/** One direction of the asynchronous socket transport as values: per socket, the messages that are
    finished and those still pending, with the bytes that have gone through for each of them. */
module Channels {
  import opened Basics

  datatype Direction = Tx | Rx

  /** A message as it was taken from the available ring: its ring handle and the contents of its
      buffer at that time. */
  datatype Given = Given(handle: nat, body: seq<Byte>)

  /** Why a message was given up: the stack answered -1, its socket is not set up for asynchronous use, or
      the socket was torn down. */
  datatype Cause = Refused | NoQueue | Closed

  /** How a message came to an end: given up, complete, or as one datagram, which may have been waited
      for in the queue. */
  datatype How = Failed(cause: Cause) | Whole | Datagram(waited: bool)

  /** A finished message, the length its handle was put on the used ring with, and what the stack has
      answered to it. */
  datatype Done = Done(given: Given, data: seq<Byte>, how: How, reported: nat, answers: seq<int>)

  /** A pending message, the bytes of it that are through, and what the stack has answered to it. */
  datatype Item = Item(given: Given, data: seq<Byte>, answers: seq<int>) {
    ghost function More(bytes: seq<Byte>, heard: seq<int>): Item {
      Item(given, data + bytes, answers + heard)
    }

    ghost function Ended(e: Ending): Done {
      Done(given, data + e.data, e.how, e.reported, answers + e.heard)
    }
  }

  /** The last step of a message: the bytes that still go through and the stack's answer then, if it was
      asked; how the message ends, and the length its handle is put on the used ring with. */
  datatype Ending = Ending(data: seq<Byte>, heard: seq<int>, how: How, reported: nat) {
    ghost function Of(given: Given): Done {
      Done(given, data, how, reported, heard)
    }
  }

  /** The end of a message the stack refuses, of one whose socket has no queue, and of one whose socket is
      torn down. */
  const REFUSED: Ending := Ending([], [-1], Failed(Refused), 0)
  const UNSERVED: Ending := Ending([], [], Failed(NoQueue), 0)
  const CLOSED: Ending := Ending([], [], Failed(Closed), 0)

  /** The bytes the answers stand for. */
  ghost function Sum(answers: seq<int>): int {
    if answers == [] then 0
    else
      var last := answers[|answers| - 1];
      Sum(answers[..|answers| - 1]) + if last < 0 then 0 else last
  }

  /** The stack took or gave something, or nothing yet, but has not refused. */
  ghost predicate Willing(answers: seq<int>) {
    forall i :: 0 <= i < |answers| ==> answers[i] >= 0
  }

  /** The answers to a message up to its last one, which is the given number. */
  ghost predicate EndsIn(answers: seq<int>, last: int) {
    answers != [] && answers[|answers| - 1] == last && Willing(answers[..|answers| - 1])
  }

  /** How a message ended is what the stack answered to it, and what the length on the used ring says: a
      message is given up as refused exactly on -1, and without any answer if its socket has no queue; it is
      whole once the answers add up to all of it, and a datagram at the first answer that is not 0.  The
      length is 0 for a message that was given up, all of it for one that is whole; for a datagram the bytes
      received, but all of the buffer if it was waited for. */
  ghost predicate DoneOk(d: Done) {
    && Sum(d.answers) == |d.data|
    && match d.how
       case Failed(Refused) => d.reported == 0 && EndsIn(d.answers, -1)
       case Failed(NoQueue) => d.reported == 0 && d.answers == []
       case Failed(Closed) => d.reported == 0 && Willing(d.answers)
       case Whole =>
         && |d.data| == |d.given.body| == d.reported
         && d.answers != [] && var last := d.answers[|d.answers| - 1]; last > 0 && EndsIn(d.answers, last)
       case Datagram(waited) =>
         && 0 < |d.data| <= |d.given.body| && d.reported == (if waited then |d.given.body| else |d.data|)
         && EndsIn(d.answers, |d.data|) && (!waited ==> |d.answers| == 1)
  }

  ghost predicate PendingOk(item: Item) {
    Willing(item.answers) && Sum(item.answers) == |item.data| <= |item.given.body|
  }

  ghost function BytesOf(finished: seq<Done>): seq<Byte> {
    if finished == [] then []
    else BytesOf(finished[..|finished| - 1]) + finished[|finished| - 1].data
  }

  ghost function AnswersOf(finished: seq<Done>): seq<int> {
    if finished == [] then []
    else AnswersOf(finished[..|finished| - 1]) + finished[|finished| - 1].answers
  }

  ghost function Givens(finished: seq<Done>): (g: seq<Given>)
    ensures |g| == |finished| && forall i :: 0 <= i < |g| ==> g[i] == finished[i].given
  {
    seq(|finished|, i requires 0 <= i < |finished| => finished[i].given)
  }

  /** What has happened on one socket: its finished and its pending messages, in ring order. */
  datatype Channel = Channel(finished: seq<Done>, queue: seq<Item>) {

    /** The bytes that went through: all those of the finished messages, then the front of the first
        pending one. */
    ghost function Through(): seq<Byte> {
      BytesOf(finished) + if queue == [] then [] else queue[0].data
    }

    /** What the stack has answered, in order. */
    ghost function Heard(): seq<int> {
      AnswersOf(finished) + if queue == [] then [] else queue[0].answers
    }

    /** The messages taken, in order. */
    ghost function Taken(): (t: seq<Given>)
      ensures |t| == |finished| + |queue|
    {
      Givens(finished) +
      seq(|queue|, i requires 0 <= i < |queue| => queue[i].given)
    }

    /** Only the first pending message has been begun, none has overflowed, and every finished one was
        reported as it should be. */
    ghost predicate Ok() {
      match this
      case Channel(finished, queue) =>
        && (forall i :: 0 <= i < |finished| ==> DoneOk(finished[i]))
        && (forall i :: 0 <= i < |queue| ==> PendingOk(queue[i]))
        && (forall i :: 0 < i < |queue| ==> queue[i].data == [] && queue[i].answers == [])
    }

    /** The first pending message has been offered to the stack; only when receiving may it wait untried,
        behind one that was just refused. */
    ghost predicate Tried(dir: Direction) {
      queue != [] ==>
        || queue[0].answers != []
        || (dir == Rx && finished != [] && finished[|finished| - 1].how == Failed(Refused))
    }

    /** No bytes of a pending message are through. */
    ghost predicate Unbegun() {
      queue != [] ==> queue[0].data == []
    }

    /** When sending: the bytes that went through are the front of what was to be sent, and all of it
        for every message that was not given up. */
    ghost predicate Sent() {
      match this
      case Channel(finished, queue) =>
        && (forall i :: 0 <= i < |finished| ==> finished[i].data <= finished[i].given.body)
        && (forall i :: 0 <= i < |finished| ==>
            finished[i].how.Failed? || finished[i].data == finished[i].given.body)
        && (forall i :: 0 <= i < |queue| ==> queue[i].data <= queue[i].given.body)
    }

    /** A message joins the end of the queue. */
    ghost function Joined(given: Given): Channel {
      this.(queue := queue + [Item(given, [], [])])
    }

    /** The stack answers, and more bytes of the first pending message go through. */
    ghost function Moved(bytes: seq<Byte>, heard: seq<int>): Channel
      requires queue != []
    {
      this.(queue := queue[0 := queue[0].More(bytes, heard)])
    }

    /** The first pending message is finished, after some more of it went through. */
    ghost function Left(e: Ending): Channel
      requires queue != []
    {
      this.(finished := finished + [queue[0].Ended(e)], queue := queue[1..])
    }
  }

  const EMPTY: Channel := Channel([], [])

  lemma JoinedOk(c: Channel, given: Given)
    requires c.Ok()
    ensures c.Joined(given).Ok() && c.Joined(given).Through() == c.Through() && c.Joined(given).Heard() == c.Heard()
    ensures c.Joined(given).Taken() == c.Taken() + [given]
    ensures c.Sent() ==> c.Joined(given).Sent()
  {}

  /** What the stack answers once: a number of bytes, which then go through, or -1. */
  ghost predicate Answer(bytes: seq<Byte>, heard: seq<int>) {
    |heard| == 1 && heard[0] == if bytes == [] && heard[0] < 0 then -1 else |bytes|
  }

  lemma SumMore(answers: seq<int>, heard: seq<int>)
    requires |heard| == 1
    ensures Sum(answers + heard) == Sum(answers) + if heard[0] < 0 then 0 else heard[0]
    ensures Willing(answers) ==> EndsIn(answers + heard, heard[0]) && (heard[0] >= 0 ==> Willing(answers + heard))
  {
    assert (answers + heard)[..|answers|] == answers;
  }

  lemma MovedOk(c: Channel, bytes: seq<Byte>, heard: seq<int>)
    requires c.Ok() && c.queue != [] && |c.queue[0].data| + |bytes| <= |c.queue[0].given.body|
    requires Answer(bytes, heard) && heard[0] >= 0
    ensures c.Moved(bytes, heard).Ok() && c.Moved(bytes, heard).Through() == c.Through() + bytes
    ensures c.Moved(bytes, heard).Heard() == c.Heard() + heard
    ensures c.Moved(bytes, heard).Taken() == c.Taken()
    ensures c.Sent() && c.queue[0].data + bytes <= c.queue[0].given.body ==> c.Moved(bytes, heard).Sent()
  {
    SumMore(c.queue[0].answers, heard);
    assert BytesOf(c.finished) + (c.queue[0].data + bytes) == BytesOf(c.finished) + c.queue[0].data + bytes;
    assert AnswersOf(c.finished) + (c.queue[0].answers + heard) == AnswersOf(c.finished) + c.queue[0].answers + heard;
  }

  lemma LeftOk(c: Channel, e: Ending)
    requires c.Ok() && c.queue != [] && DoneOk(c.queue[0].Ended(e))
    ensures var d := c.Left(e);
            && d.Ok() && d.Through() == c.Through() + e.data && d.Heard() == c.Heard() + e.heard
            && d.Taken() == c.Taken()
            && (c.Sent() && !e.how.Datagram? && c.queue[0].data + e.data <= c.queue[0].given.body ==> d.Sent())
  {
    var c' := c.Left(e);
    var f := c'.finished;
    assert f[..|f| - 1] == c.finished;
    assert c'.queue != [] ==> c'.queue[0].data == [] && c'.queue[0].answers == [];
    assert BytesOf(f) == BytesOf(c.finished) + (c.queue[0].data + e.data);
    assert AnswersOf(f) == AnswersOf(c.finished) + (c.queue[0].answers + e.heard);
    assert BytesOf(f) + [] == BytesOf(f) && AnswersOf(f) + [] == AnswersOf(f);
  }

  // ---------------------------------------------------------------------------
  // Both rings

  /** Something that was taken from the available ring or put on the used ring, and the socket it was
      for. */
  datatype Tag<T> = Tag(fd: int, what: T)

  /** What there is for one socket, in order. */
  ghost function For<T>(tags: seq<Tag<T>>, fd: int): seq<T> {
    if tags == [] then []
    else
      var last := tags[|tags| - 1];
      For(tags[..|tags| - 1], fd) + if last.fd == fd then [last.what] else []
  }

  lemma ForMore<T>(tags: seq<Tag<T>>, tag: Tag<T>)
    ensures For(tags + [tag], tag.fd) == For(tags, tag.fd) + [tag.what]
    ensures forall fd :: fd != tag.fd ==> For(tags + [tag], fd) == For(tags, fd)
  {
    assert (tags + [tag])[..|tags|] == tags;
  }

  ghost function ChannelOf(chans: map<int, Channel>, fd: int): Channel {
    if fd in chans then chans[fd] else EMPTY
  }

  /** The account of one direction: every message taken for a socket was first-in-first-out either
      finished and put on the used ring, once, or is still in that socket's queue. */
  datatype Account = Account(dir: Direction, chans: map<int, Channel>, taken: seq<Tag<Given>>, used: seq<Tag<Done>>) {

    ghost function On(fd: int): Channel {
      ChannelOf(chans, fd)
    }

    ghost predicate SocketOk(fd: int) {
      match this
      case Account(dir, chans, taken, used) =>
        && On(fd).Ok()
        && (dir == Tx ==> On(fd).Sent())
        && For(taken, fd) == On(fd).Taken()
        && For(used, fd) == On(fd).finished
    }

    ghost predicate Ok() {
      forall fd :: SocketOk(fd)
    }

    ghost function Take(fd: int, given: Given): Account {
      this.(chans := chans[fd := On(fd).Joined(given)], taken := taken + [Tag(fd, given)])
    }

    ghost function Move(fd: int, bytes: seq<Byte>, heard: seq<int>): Account
      requires On(fd).queue != []
    {
      this.(chans := chans[fd := On(fd).Moved(bytes, heard)])
    }

    /** The bytes may be added to those of the first pending message. */
    ghost predicate Fits(fd: int, bytes: seq<Byte>) {
      && On(fd).queue != []
      && var first := On(fd).queue[0];
         && |first.data| + |bytes| <= |first.given.body|
         && (dir == Tx ==> first.data + bytes <= first.given.body)
    }

    /** The stack's answer to a first attempt: -1 refuses the message, which otherwise waits for more, or
        ends. */
    ghost function Attempt(fd: int, given: Given, data: seq<Byte>, ret: int, waits: bool, how: How): Account {
      if ret < 0 then Take(fd, given).Complete(fd, REFUSED)
      else if waits then Take(fd, given).Move(fd, data, [ret])
      else Take(fd, given).Complete(fd, Ending(data, [ret], how, ret))
    }

    /** Between the steps of the server no socket's first pending message is left untried, and no bytes of
        a datagram socket's are through. */
    ghost predicate SettledOn(sockets: map<int, Protocol>, fd: int) {
      On(fd).Tried(dir) && (dir == Rx && fd in sockets && sockets[fd] == Udp ==> On(fd).Unbegun())
    }

    ghost predicate Settled(sockets: map<int, Protocol>) {
      forall f {:trigger On(f)} :: SettledOn(sockets, f)
    }

    /** The first pending message may end this way. */
    ghost predicate MayEnd(fd: int, e: Ending) {
      && Fits(fd, e.data)
      && DoneOk(On(fd).queue[0].Ended(e))
      && (dir == Tx ==> !e.how.Datagram?)
    }

    /** Since then, messages that waited on fd have gone on or ended, and nothing else has happened. */
    ghost predicate After(was: Account, fd: int) {
      match this
      case Account(_, _, taken, used) =>
        && taken == was.taken && |was.used| <= |used| && used[..|was.used|] == was.used
        && |used| + |On(fd).queue| == |was.used| + |was.On(fd).queue|
        && forall f {:trigger On(f)} :: f != fd ==> On(f) == was.On(f)
    }

    ghost function Complete(fd: int, e: Ending): Account
      requires On(fd).queue != []
    {
      this.(chans := chans[fd := On(fd).Left(e)],
            used := used + [Tag(fd, On(fd).queue[0].Ended(e))])
    }
  }

  /** What has crossed over for each socket, and what the stack has answered, is what it was before, and for
      fd this much more. */
  ghost predicate Gains(a: Account, b: Account, fd: int, bytes: seq<Byte>, heard: seq<int>) {
    forall f {:trigger b.On(f)} ::
      && b.On(f).Through() == a.On(f).Through() + (if f == fd then bytes else [])
      && b.On(f).Heard() == a.On(f).Heard() + (if f == fd then heard else [])
  }

  lemma TakeOk(a: Account, fd: int, given: Given)
    requires a.Ok()
    ensures a.Take(fd, given).Ok() && Gains(a, a.Take(fd, given), fd, [], [])
  {
    var b := a.Take(fd, given);
    forall f
      ensures b.SocketOk(f)
      ensures b.On(f).Through() == a.On(f).Through() + [] && b.On(f).Heard() == a.On(f).Heard() + []
    {
      TakeSocket(a, fd, given, f);
    }
  }

  lemma TakeSocket(a: Account, fd: int, given: Given, f: int)
    requires a.Ok()
    ensures a.Take(fd, given).SocketOk(f)
    ensures a.Take(fd, given).On(f).Through() == a.On(f).Through() + []
    ensures a.Take(fd, given).On(f).Heard() == a.On(f).Heard() + []
  {
    assert a.SocketOk(f);
    ForMore(a.taken, Tag(fd, given));
    if f == fd {
      JoinedOk(a.On(fd), given);
    }
  }

  lemma MoveOk(a: Account, fd: int, bytes: seq<Byte>, heard: seq<int>)
    requires a.Ok() && a.Fits(fd, bytes) && Answer(bytes, heard) && heard[0] >= 0
    ensures var b := a.Move(fd, bytes, heard); b.Ok() && b.After(a, fd) && Gains(a, b, fd, bytes, heard)
  {
    var b := a.Move(fd, bytes, heard);
    forall f
      ensures b.SocketOk(f)
      ensures b.On(f).Through() == a.On(f).Through() + if f == fd then bytes else []
      ensures b.On(f).Heard() == a.On(f).Heard() + if f == fd then heard else []
    {
      MoveSocket(a, fd, bytes, heard, f);
    }
  }

  lemma MoveSocket(a: Account, fd: int, bytes: seq<Byte>, heard: seq<int>, f: int)
    requires a.Ok() && a.Fits(fd, bytes) && Answer(bytes, heard) && heard[0] >= 0
    ensures var b := a.Move(fd, bytes, heard);
      && b.SocketOk(f)
      && b.On(f).Through() == a.On(f).Through() + (if f == fd then bytes else [])
      && b.On(f).Heard() == a.On(f).Heard() + (if f == fd then heard else [])
  {
    assert a.SocketOk(f);
    if f == fd {
      MovedOk(a.On(fd), bytes, heard);
    } else {
      assert a.On(f).Through() + [] == a.On(f).Through() && a.On(f).Heard() + [] == a.On(f).Heard();
    }
  }

  lemma CompleteOk(a: Account, fd: int, e: Ending)
    requires a.Ok() && a.MayEnd(fd, e)
    ensures var b := a.Complete(fd, e);
      b.Ok() && b.After(a, fd) && Gains(a, b, fd, e.data, e.heard)
  {
    var b := a.Complete(fd, e);
    forall f
      ensures b.SocketOk(f)
      ensures b.On(f).Through() == a.On(f).Through() + if f == fd then e.data else []
      ensures b.On(f).Heard() == a.On(f).Heard() + if f == fd then e.heard else []
    {
      CompleteSocket(a, fd, e, f);
    }
  }

  lemma CompleteSocket(a: Account, fd: int, e: Ending, f: int)
    requires a.Ok() && a.MayEnd(fd, e)
    ensures var b := a.Complete(fd, e);
      && b.SocketOk(f)
      && b.On(f).Through() == a.On(f).Through() + (if f == fd then e.data else [])
      && b.On(f).Heard() == a.On(f).Heard() + (if f == fd then e.heard else [])
  {
    var b := a.Complete(fd, e);
    assert a.SocketOk(f);
    ForMore(a.used, b.used[|a.used|]);
    if f == fd {
      LeftOk(a.On(fd), e);
    } else {
      assert a.On(f).Through() + [] == a.On(f).Through() && a.On(f).Heard() + [] == a.On(f).Heard();
    }
  }

  /** A message that finds its socket's queue empty is taken and some of it goes through at once. */
  lemma BeginOk(a: Account, fd: int, given: Given, data: seq<Byte>, heard: seq<int>)
    requires a.Ok() && a.On(fd).queue == [] && Answer(data, heard) && heard[0] >= 0
    requires |data| <= |given.body| && (a.dir == Tx ==> data <= given.body)
    ensures var b := a.Take(fd, given).Move(fd, data, heard);
            && b.Ok() && b.On(fd).queue == [Item(given, data, heard)] && Gains(a, b, fd, data, heard)
  {
    TakeOk(a, fd, given);
    assert [] + data == data && [] + heard == heard;
    MoveOk(a.Take(fd, given), fd, data, heard);
    GainsAfter(a, a.Take(fd, given), a.Take(fd, given).Move(fd, data, heard), fd, data, heard);
  }

  lemma GainsAfter(a: Account, m: Account, b: Account, fd: int, data: seq<Byte>, heard: seq<int>)
    requires Gains(a, m, fd, [], []) && Gains(m, b, fd, data, heard)
    ensures Gains(a, b, fd, data, heard)
  {
    forall f
      ensures b.On(f).Through() == a.On(f).Through() + if f == fd then data else []
      ensures b.On(f).Heard() == a.On(f).Heard() + if f == fd then heard else []
    {
      assert m.On(f).Through() == a.On(f).Through() + [] == a.On(f).Through();
      assert m.On(f).Heard() == a.On(f).Heard() + [] == a.On(f).Heard();
    }
  }

  lemma OneAnswer(n: int)
    ensures Sum([n]) == (if n < 0 then 0 else n) && EndsIn([n], n)
  {
    assert [] + [n] == [n];
    SumMore([], [n]);
  }

  lemma RefusedOk(given: Given)
    ensures DoneOk(REFUSED.Of(given))
  {
    OneAnswer(-1);
  }

  lemma UnservedOk(given: Given)
    ensures DoneOk(UNSERVED.Of(given))
  {}

  lemma AtOnceOk(given: Given, data: seq<Byte>, how: How)
    requires 0 < |data| <= |given.body| && (how == Datagram(false) || (how == Whole && |data| == |given.body|))
    ensures DoneOk(Ending(data, [|data|], how, |data|).Of(given))
  {
    OneAnswer(|data|);
    hide Sum, EndsIn;
  }

  /** How a message that has waited may end. */
  lemma WaitedEnds(first: Item, e: Ending)
    requires PendingOk(first) && |first.data| < |first.given.body|
    requires match e.how
      case Failed(cause) =>
        && e.data == [] && e.reported == 0
        && ((cause == Refused && e.heard == [-1]) || (cause == Closed && e.heard == []))
      case Whole => e.heard == [|e.data|] && e.reported == |first.given.body| == |first.data| + |e.data|
      case Datagram(waited) =>
        && waited && first.data == [] && 0 < |e.data| <= |first.given.body|
        && e.heard == [|e.data|] && e.reported == |first.given.body|
    ensures DoneOk(first.Ended(e))
  {
    if e.heard != [] {
      SumMore(first.answers, e.heard);
    } else {
      assert first.answers + e.heard == first.answers;
    }
  }

  /** A message that finds its socket's queue empty is taken and ends at once. */
  lemma EndOk(a: Account, fd: int, given: Given, e: Ending)
    requires a.Ok() && a.On(fd).queue == [] && DoneOk(e.Of(given))
    requires |e.data| <= |given.body| && (a.dir == Tx ==> e.data <= given.body && !e.how.Datagram?)
    ensures var b := a.Take(fd, given).Complete(fd, e);
            && b.Ok() && b.used == a.used + [Tag(fd, e.Of(given))]
            && (forall f :: b.On(f).queue == a.On(f).queue) && Gains(a, b, fd, e.data, e.heard)
  {
    TakeOk(a, fd, given);
    assert [] + e.data == e.data && [] + e.heard == e.heard;
    CompleteOk(a.Take(fd, given), fd, e);
    GainsAfter(a, a.Take(fd, given), a.Take(fd, given).Complete(fd, e), fd, e.data, e.heard);
  }

  // ---------------------------------------------------------------------------
  // Refusals

  /** How often the stack has answered -1. */
  ghost function Refusals(answers: seq<int>): nat {
    if answers == [] then 0
    else Refusals(answers[..|answers| - 1]) + if answers[|answers| - 1] == -1 then 1 else 0
  }

  /** How many messages were given up because of that. */
  ghost function GivenBack(finished: seq<Done>): nat {
    if finished == [] then 0
    else GivenBack(finished[..|finished| - 1]) + if finished[|finished| - 1].how == Failed(Refused) then 1 else 0
  }

  lemma {:induction false} RefusalsConcat(a: seq<int>, b: seq<int>)
    ensures Refusals(a + b) == Refusals(a) + Refusals(b)
    decreases |b|
  {
    if b == [] {
      assert a + b == a;
    } else {
      var n := |b| - 1;
      RefusalsConcat(a, b[..n]);
      assert (a + b)[..|a + b| - 1] == a + b[..n];
    }
  }

  lemma {:induction false} NoRefusals(answers: seq<int>)
    requires Willing(answers)
    ensures Refusals(answers) == 0
  {
    if answers != [] {
      NoRefusals(answers[..|answers| - 1]);
    }
  }

  /** A message is given up as refused exactly if the stack has answered -1 to it, which it does once. */
  lemma DoneRefusals(d: Done)
    requires DoneOk(d)
    ensures Refusals(d.answers) == if d.how == Failed(Refused) then 1 else 0
  {
    if d.answers != [] {
      NoRefusals(d.answers[..|d.answers| - 1]);
    }
  }

  lemma {:induction false} FinishedRefusals(finished: seq<Done>)
    requires forall i :: 0 <= i < |finished| ==> DoneOk(finished[i])
    ensures Refusals(AnswersOf(finished)) == GivenBack(finished)
  {
    if finished != [] {
      var n := |finished| - 1;
      FinishedRefusals(finished[..n]);
      DoneRefusals(finished[n]);
      RefusalsConcat(AnswersOf(finished[..n]), finished[n].answers);
    }
  }

  /** On every socket, as many messages were given up as refused as the stack has answered -1. */
  lemma RefusalsCounted(c: Channel)
    requires c.Ok()
    ensures Refusals(c.Heard()) == GivenBack(c.finished)
  {
    var rest := if c.queue == [] then [] else c.queue[0].answers;
    FinishedRefusals(c.finished);
    RefusalsConcat(AnswersOf(c.finished), rest);
    NoRefusals(rest);
  }

  lemma {:induction false} NoneGivenBack(finished: seq<Done>)
    requires GivenBack(finished) == 0
    ensures forall d :: d in finished ==> d.how != Failed(Refused)
  {
    if finished != [] {
      var n := |finished| - 1;
      NoneGivenBack(finished[..n]);
      assert finished == finished[..n] + [finished[n]];
    }
  }

  // ---------------------------------------------------------------------------
  // Which ends are fair

  /** What there is to go by in one step: the sockets with queues, the protocols, whether a ring is drained,
      and which socket is torn down. */
  datatype Setting = Setting(dir: Direction, async: set<int>, sockets: map<int, Protocol>, drains: bool,
                             closing: set<int>)
  {
    /** A message is refused by the stack only if its socket has a queue; otherwise it is turned away, when
        its ring is drained; a message is given up only at its socket's teardown; what is received ends as
        the protocol has it. */
    ghost predicate Fair(d: Tag<Done>) {
      match d.what.how
      case Failed(Refused) => d.fd in async
      case Failed(NoQueue) => drains && d.fd !in async
      case Failed(Closed) => d.fd in closing
      case Whole => d.fd in async && (dir == Rx ==> d.fd in sockets && sockets[d.fd] == Tcp)
      case Datagram(_) => d.fd in async && dir == Rx && d.fd in sockets && sockets[d.fd] == Udp
    }

    ghost predicate FairSince(was: seq<Tag<Done>>, used: seq<Tag<Done>>) {
      && |was| <= |used| && used[..|was|] == was
      && forall i :: |was| <= i < |used| ==> Fair(used[i])
    }
  }

  lemma FairNone(s: Setting, used: seq<Tag<Done>>)
    ensures s.FairSince(used, used)
  {}

  lemma FairChain(s: Setting, a: seq<Tag<Done>>, b: seq<Tag<Done>>, c: seq<Tag<Done>>)
    requires s.FairSince(a, b) && s.FairSince(b, c)
    ensures s.FairSince(a, c)
  {
    assert c[..|a|] == c[..|b|][..|a|];
    forall i | |a| <= i < |c|
      ensures s.Fair(c[i])
    {
      if i < |b| {
        assert c[i] == c[..|b|][i];
      }
    }
  }

  /** A step that may do more allows no less. */
  lemma FairWider(s: Setting, t: Setting, was: seq<Tag<Done>>, used: seq<Tag<Done>>)
    requires s.FairSince(was, used) && t.dir == s.dir && t.async == s.async && t.sockets == s.sockets
    requires (s.drains ==> t.drains) && s.closing <= t.closing
    ensures t.FairSince(was, used)
  {
    forall i | |was| <= i < |used|
      ensures t.Fair(used[i])
    {
      assert s.Fair(used[i]);
    }
  }

  lemma FairOne(s: Setting, was: seq<Tag<Done>>, d: Tag<Done>)
    requires s.Fair(d)
    ensures s.FairSince(was, was + [d])
  {}

  /** A message joins others. */
  lemma TakeSettles(a: Account, fd: int, given: Given, sockets: map<int, Protocol>)
    requires a.Settled(sockets) && a.On(fd).queue != []
    ensures a.Take(fd, given).Settled(sockets)
  {
    forall f
      ensures a.Take(fd, given).SettledOn(sockets, f)
    {
      assert a.SettledOn(sockets, f);
    }
  }

  /** A message that finds no others is answered at once. */
  lemma EndSettles(a: Account, fd: int, given: Given, e: Ending, sockets: map<int, Protocol>)
    requires a.Settled(sockets) && a.On(fd).queue == []
    ensures a.Take(fd, given).Complete(fd, e).Settled(sockets)
  {
    forall f
      ensures a.Take(fd, given).Complete(fd, e).SettledOn(sockets, f)
    {
      assert a.SettledOn(sockets, f);
    }
  }

  /** A message that finds no others is tried. */
  lemma AttemptSettles(a: Account, fd: int, given: Given, data: seq<Byte>, ret: int, waits: bool, how: How,
      sockets: map<int, Protocol>)
    requires a.Settled(sockets) && a.On(fd).queue == []
    requires a.dir == Rx && fd in sockets && sockets[fd] == Udp && ret >= 0 && waits ==> data == []
    ensures a.Attempt(fd, given, data, ret, waits, how).Settled(sockets)
  {
    if ret < 0 {
      EndSettles(a, fd, given, REFUSED, sockets);
    } else if !waits {
      EndSettles(a, fd, given, Ending(data, [ret], how, ret), sockets);
    } else {
      forall f
        ensures a.Take(fd, given).Move(fd, data, [ret]).SettledOn(sockets, f)
      {
        assert a.SettledOn(sockets, f);
      }
    }
  }

  lemma AttemptFair(a: Account, fd: int, given: Given, data: seq<Byte>, ret: int, waits: bool, how: How, s: Setting)
    requires fd in s.async && !how.Failed?
    requires s.dir == Rx ==> fd in s.sockets && (how == Whole <==> s.sockets[fd] == Tcp)
    requires s.dir == Tx ==> how == Whole
    ensures s.FairSince(a.used, a.Attempt(fd, given, data, ret, waits, how).used)
    ensures a.Attempt(fd, given, data, ret, waits, how).taken == a.taken + [Tag(fd, given)]
  {
    if ret < 0 {
      FairOne(s, a.used, Tag(fd, Item(given, [], []).Ended(REFUSED)));
    } else if !waits {
      FairOne(s, a.used, Tag(fd, Item(given, [], []).Ended(Ending(data, [ret], how, ret))));
    }
  }

  lemma NoneSettles(a: Account, fd: int, sockets: map<int, Protocol>)
    requires a.On(fd).queue == []
    ensures a.SettledOn(sockets, fd)
  {}

  lemma NewSettles(dir: Direction, sockets: map<int, Protocol>)
    ensures Account(dir, map[], [], []).Settled(sockets)
  {
    var a := Account(dir, map[], [], []);
    forall f
      ensures a.SettledOn(sockets, f)
    {
      NoneSettles(a, f, sockets);
    }
  }

  /** Sockets may go, and come where nothing is pending. */
  lemma OtherSockets(a: Account, sockets: map<int, Protocol>, others: map<int, Protocol>)
    requires a.Settled(sockets)
    requires forall f :: f in others ==> (f in sockets && others[f] == sockets[f]) || a.On(f).queue == []
    ensures a.Settled(others)
  {
    forall f
      ensures a.SettledOn(others, f)
    {
      assert a.SettledOn(sockets, f);
    }
  }

  lemma AfterNone(a: Account, fd: int)
    ensures a.After(a, fd)
  {}

  /** One more step on the same socket. */
  lemma AfterChain(a: Account, b: Account, c: Account, fd: int)
    requires b.After(a, fd) && c.After(b, fd)
    ensures c.After(a, fd) && |c.used| + |c.On(fd).queue| == |b.used| + |b.On(fd).queue|
  {
    assert c.used[..|a.used|] == c.used[..|b.used|][..|a.used|];
  }

  /** What happens on one socket leaves the others settled. */
  lemma AfterSettles(a: Account, b: Account, fd: int, sockets: map<int, Protocol>)
    requires a.Settled(sockets) && b.After(a, fd) && b.dir == a.dir && b.SettledOn(sockets, fd)
    ensures b.Settled(sockets)
  {
    forall f
      ensures b.SettledOn(sockets, f)
    {
      assert f != fd ==> b.On(f) == a.On(f) && a.SettledOn(sockets, f);
    }
  }

  /** What is on the used ring, as it was taken. */
  ghost function AsTaken(used: seq<Tag<Done>>): (t: seq<Tag<Given>>)
    ensures |t| == |used| && forall i :: 0 <= i < |t| ==> t[i] == Tag(used[i].fd, used[i].what.given)
  {
    seq(|used|, i requires 0 <= i < |used| => Tag(used[i].fd, used[i].what.given))
  }

  lemma {:induction false} CountFor(tags: seq<Tag<Given>>, tag: Tag<Given>)
    ensures multiset(tags)[tag] == multiset(For(tags, tag.fd))[tag.what]
  {
    if tags != [] {
      var n := |tags| - 1;
      CountFor(tags[..n], tag);
      assert tags == tags[..n] + [tags[n]];
    }
  }

  lemma {:induction false} ForAsTaken(used: seq<Tag<Done>>, fd: int)
    ensures For(AsTaken(used), fd) == Givens(For(used, fd))
  {
    if used != [] {
      var n := |used| - 1;
      ForAsTaken(used[..n], fd);
      assert AsTaken(used)[..n] == AsTaken(used[..n]);
    }
  }

  /** No message is ever put on the used ring more often than it was taken, and when nothing is pending
      every message taken has been put there exactly as often. */
  lemma AllAnswered(a: Account)
    requires a.Ok()
    ensures multiset(AsTaken(a.used)) <= multiset(a.taken)
    ensures (forall fd :: a.On(fd).queue == []) ==> multiset(AsTaken(a.used)) == multiset(a.taken)
  {
    forall tag: Tag<Given>
      ensures multiset(AsTaken(a.used))[tag] <= multiset(a.taken)[tag]
      ensures a.On(tag.fd).queue == [] ==> multiset(AsTaken(a.used))[tag] == multiset(a.taken)[tag]
    {
      CountFor(AsTaken(a.used), tag);
      CountFor(a.taken, tag);
      ForAsTaken(a.used, tag.fd);
      assert a.SocketOk(tag.fd);
      var c := a.On(tag.fd);
      assert c.Taken() == Givens(c.finished) + c.Taken()[|c.finished|..];
    }
  }
}
