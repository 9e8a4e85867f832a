/** The asynchronous socket handlers: draining the two available rings, resuming a socket's queues when
    the stack calls back, and tearing a socket down. */
module AsyncServer {
  import opened Basics
  import opened Channels
  import opened PendingQueue
  import opened AsyncTransport

  /** What every step but a submission keeps: nothing is submitted, and no message joins those on their
      way. */
  twostate predicate Kept(half: Half)
    reads half
  {
    half.msgs <= old(half.msgs) && half.submitted == old(half.submitted)
  }

  /** Everything on the available ring has been taken, in order. */
  twostate predicate Drained(half: Half)
    reads half
  {
    half.avail == [] && half.account.taken == old(half.account).taken + old(half.offers)
  }

  /** What the steps of the handlers go by. */
  ghost function Serving(half: Half, sockets: map<int, Protocol>, drains: bool): Setting
    reads half`queues
  {
    Setting(half.dir, half.queues.Keys, sockets, drains, {})
  }

  /** Every message answered in the step had that coming. */
  twostate predicate Fairly(half: Half, new s: Setting)
    reads half`account
  {
    s.FairSince(old(half.account).used, half.account.used)
  }

  // ---------------------------------------------------------------------------
  // Sending

  /** The first attempt to send a message ends it, or leaves it waiting. */
  ghost function Sending(a: Account, fd: int, given: Given, ret: int): Account {
    a.Attempt(fd, given, if 0 <= ret <= |given.body| then given.body[..ret] else [], ret, ret < |given.body|, Whole)
  }

  method TxOutcome(tx: Half, msg: Msg, handle: nat, ret: int)
    requires tx.Sound() && tx.dir == Tx && tx.InHand(msg) && msg.fd in tx.queues && tx.queues[msg.fd].head == null
    requires -1 <= ret <= |msg.buf| && tx.Ahead(msg.fd, if ret == -1 then [] else msg.buf[..ret], [ret])
    modifies tx`used, tx`emit, tx`account, tx`returned, tx`msgs, tx.queues[msg.fd]
    modifies msg`doneLen, msg`next, msg`cookie, msg`place
    ensures tx.Valid() && tx.Told() && tx.msgs <= old(tx.msgs)
    ensures tx.account == Sending(old(tx.account), msg.fd, Given(handle, msg.buf), ret)
  {
    hide Half.Sound, Half.Ahead, Half.Even;
    tx.NonePending(msg.fd);
    ghost var given := Given(handle, msg.buf);
    if ret == -1 {
      tx.GiveBack(msg, handle, given);
    } else if ret < |msg.buf| {
      tx.Start(msg, handle, ret, given);
    } else {
      assert msg.buf[..ret] == msg.buf;
      tx.Deliver(msg, handle, ret, given, msg.buf, Whole);
    }
  }

  /** Sending a message whose socket has nothing pending. */
  method TxFirst(tx: Half, msg: Msg, handle: nat) returns (ret: int)
    requires tx.Valid() && tx.dir == Tx && tx.InHand(msg) && msg.fd in tx.queues && tx.queues[msg.fd].head == null
    modifies tx`used, tx`emit, tx`account, tx`returned, tx`msgs, tx`wire, tx`heard, tx.queues[msg.fd]
    modifies msg`doneLen, msg`next, msg`cookie, msg`place
    ensures tx.Valid() && tx.Told() && tx.msgs <= old(tx.msgs)
    ensures -1 <= ret <= |msg.buf| && tx.HeardOn(msg.fd) == old(tx.HeardOn(msg.fd)) + [ret]
    ensures tx.account == Sending(old(tx.account), msg.fd, Given(handle, msg.buf), ret)
    ensures tx.OnWire(msg.fd) == old(tx.OnWire(msg.fd)) + if ret == -1 then [] else msg.buf[..ret]
  {
    ghost var data;
    ret, data := tx.Send(msg.fd, msg.buf, 0);
    assert ret != -1 ==> data == msg.buf[..ret];
    assert tx.SoFar() == old(tx.SoFar());
    TxOutcome(tx, msg, handle, ret);
  }

  /** A message is turned away if its socket has no queue, joins those that wait, or is sent. */
  ghost predicate SentOr(a: Account, b: Account, fd: int, given: Given, ret: int, async: set<int>) {
    if fd !in async then a.On(fd).queue == [] && b == a.Take(fd, given).Complete(fd, UNSERVED)
    else if a.On(fd).queue != [] then b == a.Take(fd, given)
    else b == Sending(a, fd, given, ret)
  }

  /** One turn of tx_queue_handle's loop: a message is turned away, queued behind others, or sent as far as
      the stack takes it. */
  method TxOffer(tx: Half, offer: Offer) returns (ret: int)
    requires tx.Valid() && tx.dir == Tx && tx.InHand(offer.msg)
    modifies tx`used, tx`emit, tx`account, tx`returned, tx`msgs, tx`wire, tx`heard, tx.queues.Values
    modifies tx.msgs`doneLen, tx.msgs`next, tx.msgs`cookie, tx.msgs`place
    ensures tx.Valid() && tx.Told() && tx.msgs <= old(tx.msgs)
    ensures SentOr(old(tx.account), tx.account, offer.msg.fd, Given(offer.handle, offer.msg.buf), ret, tx.queues.Keys)
    ensures offer.msg.fd in tx.queues && old(tx.queues[offer.msg.fd].head) == null ==>
      -1 <= ret <= |offer.msg.buf| && tx.HeardOn(offer.msg.fd) == old(tx.HeardOn(offer.msg.fd)) + [ret]
  {
    hide Half.Sound, Half.Even, Sending;
    var msg := offer.msg;
    tx.HeadIff(msg.fd);
    if msg.fd !in tx.queues {
      tx.Refuse(msg, offer.handle);
      return -1;
    }
    if tx.queues[msg.fd].head != null {
      tx.Consistent(msg.fd);
      tx.Enqueue(msg, offer.handle);
      return 0;
    }
    ret := TxFirst(tx, msg, offer.handle);
  }

  /** Whichever way a message taken from the ring went, the account is as it may be. */
  lemma SendingOk(a: Account, b: Account, fd: int, given: Given, ret: int, s: Setting)
    requires a.Settled(map[]) && a.dir == Tx == s.dir && s.drains && SentOr(a, b, fd, given, ret, s.async)
    ensures b.taken == a.taken + [Tag(fd, given)] && s.FairSince(a.used, b.used) && b.Settled(map[])
  {
    if fd !in s.async {
      EndSettles(a, fd, given, UNSERVED, map[]);
      FairOne(s, a.used, Tag(fd, Item(given, [], []).Ended(UNSERVED)));
    } else if a.On(fd).queue != [] {
      TakeSettles(a, fd, given, map[]);
    } else {
      var data := if 0 <= ret <= |given.body| then given.body[..ret] else [];
      AttemptSettles(a, fd, given, data, ret, ret < |given.body|, Whole, map[]);
      AttemptFair(a, fd, given, data, ret, ret < |given.body|, Whole, s);
    }
  }

  /** Inside tx_queue_handle's loop: the first entry of the available ring is taken. */
  method TxNextOffer(tx: Half, ghost was: Endings)
    requires tx.Valid() && tx.ToldSince(was) && tx.dir == Tx && tx.avail != [] && tx.account.Settled(map[])
    modifies tx`avail, tx`offers, tx`used, tx`emit, tx`account, tx`returned, tx`msgs, tx`wire, tx`heard
    modifies tx.queues.Values
    modifies tx.msgs`doneLen, tx.msgs`next, tx.msgs`cookie, tx.msgs`place
    ensures tx.Valid() && tx.ToldSince(was) && tx.msgs <= old(tx.msgs) && tx.account.Settled(map[])
    ensures |tx.avail| == |old(tx.avail)| - 1
    ensures tx.account.taken + tx.offers == old(tx.account.taken + tx.offers)
    ensures Serving(tx, map[], true).FairSince(old(tx.account).used, tx.account.used)
  {
    hide Half.Sound, Half.Even, SentOr, Account.Settled, Setting.FairSince, Half.ToldSince;
    var offer := tx.GetAvailable();
    var ret := TxOffer(tx, offer);
    SendingOk(old(tx.account), tx.account, offer.msg.fd, Given(offer.handle, offer.msg.buf), ret,
              Serving(tx, map[], true));
    assert tx.account.taken + tx.offers == old(tx.account.taken + tx.offers);
    tx.ToldStill(was);
  }

  /** tx_queue_handle: every message taken is refused exactly if the stack has answered -1 to it, and turned
      away exactly if its socket has no queue. */
  method TxQueueHandle(tx: Half)
    requires tx.Valid() && tx.dir == Tx && tx.account.Settled(map[])
    modifies tx`avail, tx`offers, tx`used, tx`emit, tx`account, tx`returned, tx`msgs, tx`wire, tx`heard
    modifies tx.queues.Values
    modifies tx.msgs`doneLen, tx.msgs`next, tx.msgs`cookie, tx.msgs`place
    ensures tx.Valid() && tx.Told() && Drained(tx) && tx.msgs <= old(tx.msgs) && tx.account.Settled(map[])
    ensures Serving(tx, map[], true).FairSince(old(tx.account).used, tx.account.used)
  {
    hide Half.Sound, Half.Even, Account.Settled;
    tx.ToldNow();
    FairNone(Serving(tx, map[], true), tx.account.used);
    while tx.avail != []
      invariant tx.Valid() && tx.Told() && tx.msgs <= old(tx.msgs) && tx.account.Settled(map[])
      invariant tx.account.taken + tx.offers == old(tx.account.taken + tx.offers)
      invariant Serving(tx, map[], true).FairSince(old(tx.account).used, tx.account.used)
      decreases |tx.avail|
    {
      ghost var used := tx.account.used;
      TxNextOffer(tx, old(tx.SoFar()));
      FairChain(Serving(tx, map[], true), old(tx.account).used, used, tx.account.used);
    }
    tx.NothingOffered();
    assert tx.account.taken + tx.offers == tx.account.taken;
  }

  /** The first pending message of the socket, if there is one, is one of which the stack has just taken
      some, but not all. */
  ghost predicate LeftPartial(tx: Half, fd: int)
    requires fd in tx.queues
    reads tx`queues, tx`heard, tx.queues[fd], tx.queues[fd].head
  {
    var msg, answers := tx.queues[fd].head, tx.HeardOn(fd);
    msg != null ==> answers != [] && 0 <= answers[|answers| - 1] <= msg.doneLen < |msg.buf|
  }

  /** What the stack's answer makes of the first pending message: -1 ends it as refused, all the rest of it
      as whole, and it waits on otherwise. */
  ghost predicate Resent(a: Account, b: Account, fd: int, rest: seq<Byte>, ret: int, len: nat) {
    && a.On(fd).queue != [] && -1 <= ret <= |rest|
    && if ret == -1 then b == a.Complete(fd, REFUSED)
       else if ret == |rest| then b == a.Complete(fd, Ending(rest, [ret], Whole, len))
       else b == a.Move(fd, rest[..ret], [ret])
  }

  method TxMore(tx: Half, fd: int, msg: Msg, ret: int) returns (more: bool)
    requires tx.Sound() && tx.dir == Tx && fd in tx.queues && tx.queues[fd].head == msg && msg in tx.msgs
    requires 0 <= msg.doneLen < |msg.buf| && -1 <= ret <= |msg.buf| - msg.doneLen
    requires tx.Ahead(fd, if ret == -1 then [] else msg.buf[msg.doneLen..msg.doneLen + ret], [ret])
    requires tx.HeardOn(fd) != [] && tx.HeardOn(fd)[|tx.HeardOn(fd)| - 1] == ret
    modifies tx`used, tx`emit, tx`account, tx`returned, tx`msgs, tx.queues[fd]
    modifies msg`doneLen, msg`place
    ensures tx.HeardOn(fd) == old(tx.HeardOn(fd))
    ensures tx.Valid() && tx.Told() && tx.msgs <= old(tx.msgs)
    ensures tx.account.After(old(tx.account), fd)
    ensures Resent(old(tx.account), tx.account, fd, msg.buf[old(msg.doneLen)..], ret, |msg.buf|)
    ensures more <==> ret == -1 || ret == |msg.buf| - old(msg.doneLen)
    ensures !more ==> LeftPartial(tx, fd) && tx.queues[fd].head == msg
  {
    hide Half.Sound, Half.Ahead, Half.Even, Account.After;
    ghost var rest := msg.buf[msg.doneLen..];
    if ret == -1 {
      tx.FinishFirst(fd, msg, -1, 0, REFUSED);
      return true;
    }
    assert msg.buf[msg.doneLen..msg.doneLen + ret] == rest[..ret];
    if ret < |msg.buf| - msg.doneLen {
      tx.Progress(fd, msg, ret, rest[..ret]);
      return false;
    }
    assert rest == msg.buf[msg.doneLen..msg.doneLen + ret];
    tx.FinishFirst(fd, msg, |msg.buf|, |msg.buf|, Ending(rest, [ret], Whole, |msg.buf|));
    return true;
  }

  /** Inside tx_socket's loop: the rest of the first pending message is sent, and the loop goes on
      unless the stack has taken only some of it. */
  method TxTurn(tx: Half, fd: int, msg: Msg) returns (more: bool, ghost ret: int)
    requires tx.Valid() && tx.dir == Tx && fd in tx.queues && tx.queues[fd].head == msg && msg in tx.msgs
    requires 0 <= msg.doneLen < |msg.buf|
    modifies tx`used, tx`emit, tx`account, tx`returned, tx`msgs, tx`wire, tx`heard, tx.queues[fd]
    modifies msg`doneLen, msg`place
    ensures tx.Valid() && tx.Told() && tx.msgs <= old(tx.msgs)
    ensures tx.account.After(old(tx.account), fd)
    ensures Resent(old(tx.account), tx.account, fd, msg.buf[old(msg.doneLen)..], ret, |msg.buf|)
    ensures tx.HeardOn(fd) == old(tx.HeardOn(fd)) + [ret]
    ensures more <==> ret == -1 || ret == |msg.buf| - old(msg.doneLen)
    ensures !more ==> LeftPartial(tx, fd) && tx.queues[fd].head == msg
  {
    hide Half.Sound, Half.Ahead, Half.Even, Resent, LeftPartial, Account.After;
    ghost var data;
    var answer;
    answer, data := tx.Send(fd, msg.buf, msg.doneLen);
    assert tx.SoFar() == old(tx.SoFar()) && tx.HeardOn(fd) == old(tx.HeardOn(fd)) + [answer];
    ret := answer;
    more := TxMore(tx, fd, msg, answer);
  }

  /** What became of the first pending message is fair, and if it waits on it has been tried. */
  lemma ResentOk(a: Account, b: Account, fd: int, rest: seq<Byte>, ret: int, len: nat, s: Setting)
    requires a.dir == Tx == s.dir && fd in s.async && Resent(a, b, fd, rest, ret, len)
    ensures s.FairSince(a.used, b.used) && b.dir == a.dir
    ensures |b.used| == |a.used| + if ret == -1 || ret == |rest| then 1 else 0
    ensures 0 <= ret < |rest| ==> b.SettledOn(map[], fd)
  {
    if ret == -1 {
      FairOne(s, a.used, Tag(fd, a.On(fd).queue[0].Ended(REFUSED)));
    } else if ret == |rest| {
      FairOne(s, a.used, Tag(fd, a.On(fd).queue[0].Ended(Ending(rest, [ret], Whole, len))));
    }
  }

  /** One turn of tx_socket's loop. */
  method TxNext(tx: Half, fd: int, ghost was: Endings) returns (more: bool)
    requires tx.Valid() && tx.ToldSince(was) && tx.dir == Tx && fd in tx.queues && tx.queues[fd].head != null
    modifies tx`used, tx`emit, tx`account, tx`returned, tx`msgs, tx`wire, tx`heard, tx.queues.Values
    modifies tx.msgs`doneLen, tx.msgs`place
    ensures tx.Valid() && tx.ToldSince(was) && tx.msgs <= old(tx.msgs)
    ensures tx.account.After(old(tx.account), fd)
    ensures Serving(tx, map[], false).FairSince(old(tx.account).used, tx.account.used)
    ensures |tx.HeardOn(fd)| == |old(tx.HeardOn(fd))| + 1
    ensures |tx.account.used| == |old(tx.account).used| + if more then 1 else 0
    ensures !more ==> LeftPartial(tx, fd) && tx.queues[fd].head != null && tx.account.SettledOn(map[], fd)
  {
    tx.First(fd);
    assert tx.queues[fd].end != null;
    ghost var rest, len := tx.queues[fd].head.buf[tx.queues[fd].head.doneLen..], |tx.queues[fd].head.buf|;
    ghost var ret;
    more, ret := TxTurn(tx, fd, tx.queues[fd].head);
    ResentOk(old(tx.account), tx.account, fd, rest, ret, len, Serving(tx, map[], false));
    tx.ToldStill(was);
  }

  /** tx_socket: when the stack has room again, the socket's pending messages are sent in order until
      one does not go through whole.  A message is given up only if the stack answers -1 to it. */
  method TxSocket(tx: Half, fd: int)
    requires tx.Valid() && tx.dir == Tx && tx.account.Settled(map[])
    modifies tx`used, tx`emit, tx`account, tx`returned, tx`msgs, tx`wire, tx`heard, tx.queues.Values
    modifies tx.msgs`doneLen, tx.msgs`place
    ensures tx.Valid() && tx.Told() && tx.msgs <= old(tx.msgs) && tx.account.Settled(map[])
    ensures tx.account.After(old(tx.account), fd)
    ensures Serving(tx, map[], false).FairSince(old(tx.account).used, tx.account.used)
    ensures fd !in tx.queues ==> unchanged(tx)
    ensures fd in tx.queues ==> LeftPartial(tx, fd)
    ensures fd in tx.queues ==>
      |tx.HeardOn(fd)| - |old(tx.HeardOn(fd))| == |tx.account.used| - |old(tx.account).used| +
        if tx.queues[fd].head == null then 0 else 1
  {
    if fd !in tx.queues {
      return;
    }
    TxResume(tx, fd);
    AfterSettles(old(tx.account), tx.account, fd, map[]);
  }

  method TxResume(tx: Half, fd: int)
    requires tx.Valid() && tx.dir == Tx && fd in tx.queues
    modifies tx`used, tx`emit, tx`account, tx`returned, tx`msgs, tx`wire, tx`heard, tx.queues.Values
    modifies tx.msgs`doneLen, tx.msgs`place
    ensures tx.Valid() && tx.Told() && tx.msgs <= old(tx.msgs)
    ensures tx.account.After(old(tx.account), fd) && tx.account.SettledOn(map[], fd)
    ensures Serving(tx, map[], false).FairSince(old(tx.account).used, tx.account.used)
    ensures LeftPartial(tx, fd)
    ensures |tx.HeardOn(fd)| - |old(tx.HeardOn(fd))| == |tx.account.used| - |old(tx.account).used| +
      if tx.queues[fd].head == null then 0 else 1
  {
    hide Half.Sound, Half.Even, Account.After, Setting.FairSince;
    AfterNone(tx.account, fd);
    tx.ToldNow();
    FairNone(Serving(tx, map[], false), tx.account.used);
    while tx.queues[fd].head != null
      invariant tx.Valid() && tx.Told() && tx.msgs <= old(tx.msgs)
      invariant tx.account.After(old(tx.account), fd)
      invariant Serving(tx, map[], false).FairSince(old(tx.account).used, tx.account.used)
      invariant |tx.HeardOn(fd)| - |old(tx.HeardOn(fd))| == |tx.account.used| - |old(tx.account).used|
      decreases |tx.account.On(fd).queue|
    {
      ghost var was := tx.account;
      var more := TxNext(tx, fd, old(tx.SoFar()));
      AfterChain(old(tx.account), was, tx.account, fd);
      FairChain(Serving(tx, map[], false), old(tx.account).used, was.used, tx.account.used);
      if !more {
        return;
      }
    }
    tx.NonePending(fd);
    NoneSettles(tx.account, fd, map[]);
  }

  // ---------------------------------------------------------------------------
  // Receiving

  /** When a received message waits for more: a stream wants its buffer full, a datagram wants anything. */
  predicate Waits(protocol: Protocol, got: int, room: int) {
    (protocol == Tcp && got < room) || (protocol == Udp && got == 0)
  }

  function Ended(protocol: Protocol, waited: bool): How {
    if protocol == Tcp then Whole else Datagram(waited)
  }

  /** The first attempt to receive into a message ends it, or leaves it waiting. */
  ghost function Receiving(a: Account, fd: int, given: Given, data: seq<Byte>, ret: int, protocol: Protocol): Account {
    a.Attempt(fd, given, data, ret, Waits(protocol, ret, |given.body|), Ended(protocol, false))
  }

  method RxOutcome(rx: Half, msg: Msg, handle: nat, protocol: Protocol, ret: int, ghost given: Given)
    requires rx.Sound() && rx.dir == Rx && rx.InHand(msg) && msg.fd in rx.queues && rx.queues[msg.fd].head == null
    requires given.handle == handle && |given.body| == |msg.buf| && -1 <= ret <= |msg.buf|
    requires rx.Ahead(msg.fd, if ret == -1 then [] else msg.buf[..ret], [ret])
    modifies rx`used, rx`emit, rx`account, rx`returned, rx`msgs, rx.queues[msg.fd]
    modifies msg`doneLen, msg`next, msg`cookie, msg`place
    ensures rx.Valid() && rx.Told() && rx.msgs <= old(rx.msgs)
    ensures rx.account ==
      Receiving(old(rx.account), msg.fd, given, if ret == -1 then [] else msg.buf[..ret], ret, protocol)
  {
    hide Half.Sound, Half.Ahead, Half.Even;
    rx.NonePending(msg.fd);
    if ret == -1 {
      rx.GiveBack(msg, handle, given);
    } else if Waits(protocol, ret, |msg.buf|) {
      rx.Start(msg, handle, ret, given);
    } else {
      rx.Deliver(msg, handle, ret, given, msg.buf[..ret], Ended(protocol, false));
    }
  }

  /** Receiving into a message whose socket has nothing pending. */
  method RxFirst(rx: Half, msg: Msg, handle: nat, protocol: Protocol) returns (ret: int, ghost data: seq<Byte>)
    requires rx.Valid() && rx.dir == Rx && rx.InHand(msg) && msg.fd in rx.queues && rx.queues[msg.fd].head == null
    modifies rx`used, rx`emit, rx`account, rx`returned, rx`msgs, rx`wire, rx`heard, rx.queues[msg.fd]
    modifies msg`buf, msg`doneLen, msg`next, msg`cookie, msg`place
    ensures rx.Valid() && rx.Told() && rx.msgs <= old(rx.msgs)
    ensures -1 <= ret <= |msg.buf| && rx.HeardOn(msg.fd) == old(rx.HeardOn(msg.fd)) + [ret]
    ensures |msg.buf| == |old(msg.buf)| && data == if ret == -1 then [] else msg.buf[..ret]
    ensures rx.account == Receiving(old(rx.account), msg.fd, Given(handle, old(msg.buf)), data, ret, protocol)
  {
    hide Half.Sound, Half.Ahead, Half.Even, Receiving;
    ghost var given := Given(handle, msg.buf);
    ret, data := rx.Recv(msg.fd, msg);
    assert data == if ret == -1 then [] else msg.buf[..ret];
    assert rx.SoFar() == old(rx.SoFar()) && rx.HeardOn(msg.fd) == old(rx.HeardOn(msg.fd)) + [ret];
    RxOutcome(rx, msg, handle, protocol, ret, given);
  }

  /** A message is turned away if its socket has no queue, joins those that wait, or is received into. */
  ghost predicate ReceivedOr(a: Account, b: Account, fd: int, given: Given, data: seq<Byte>, ret: int,
      async: set<int>, sockets: map<int, Protocol>)
  {
    if fd !in async then a.On(fd).queue == [] && b == a.Take(fd, given).Complete(fd, UNSERVED)
    else if a.On(fd).queue != [] then b == a.Take(fd, given)
    else
      && fd in sockets && -1 <= ret <= |given.body| && |data| == (if ret == -1 then 0 else ret)
      && b == Receiving(a, fd, given, data, ret, sockets[fd])
  }

  /** One turn of rx_queue_handle's loop. */
  method RxOffer(rx: Half, sockets: map<int, Protocol>, offer: Offer) returns (ret: int, ghost data: seq<Byte>)
    requires rx.Valid() && rx.dir == Rx && rx.InHand(offer.msg) && rx.queues.Keys <= sockets.Keys
    modifies rx`used, rx`emit, rx`account, rx`returned, rx`msgs, rx`wire, rx`heard, rx.queues.Values
    modifies offer.msg`buf, rx.msgs`doneLen, rx.msgs`next, rx.msgs`cookie, rx.msgs`place
    ensures rx.Valid() && rx.Told() && rx.msgs <= old(rx.msgs)
    ensures ReceivedOr(old(rx.account), rx.account, offer.msg.fd, Given(offer.handle, old(offer.msg.buf)), data, ret,
      rx.queues.Keys, sockets)
    ensures offer.msg.fd in rx.queues && old(rx.queues[offer.msg.fd].head) == null ==>
      && -1 <= ret <= |offer.msg.buf| && data == (if ret == -1 then [] else offer.msg.buf[..ret])
      && rx.HeardOn(offer.msg.fd) == old(rx.HeardOn(offer.msg.fd)) + [ret]
  {
    hide Half.Sound, Half.Even, Receiving;
    var msg := offer.msg;
    rx.HeadIff(msg.fd);
    data := [];
    if msg.fd !in rx.queues {
      rx.Refuse(msg, offer.handle);
      ret := -1;
    } else if rx.queues[msg.fd].head != null {
      rx.Consistent(msg.fd);
      rx.Enqueue(msg, offer.handle);
      ret := 0;
    } else {
      ret, data := RxFirst(rx, msg, offer.handle, sockets[msg.fd]);
    }
  }

  lemma ReceivingOk(a: Account, b: Account, fd: int, given: Given, data: seq<Byte>, ret: int, s: Setting)
    requires a.Settled(s.sockets) && a.dir == Rx == s.dir && s.drains
    requires ReceivedOr(a, b, fd, given, data, ret, s.async, s.sockets)
    ensures b.taken == a.taken + [Tag(fd, given)] && s.FairSince(a.used, b.used) && b.Settled(s.sockets)
  {
    if fd !in s.async {
      EndSettles(a, fd, given, UNSERVED, s.sockets);
      FairOne(s, a.used, Tag(fd, Item(given, [], []).Ended(UNSERVED)));
    } else if a.On(fd).queue != [] {
      TakeSettles(a, fd, given, s.sockets);
    } else {
      var protocol := s.sockets[fd];
      var waits, how := Waits(protocol, ret, |given.body|), Ended(protocol, false);
      AttemptSettles(a, fd, given, data, ret, waits, how, s.sockets);
      AttemptFair(a, fd, given, data, ret, waits, how, s);
    }
  }

  /** Inside rx_queue_handle's loop: the first entry of the available ring is taken. */
  method RxNextOffer(rx: Half, sockets: map<int, Protocol>, ghost was: Endings)
    requires rx.Valid() && rx.ToldSince(was) && rx.dir == Rx && rx.avail != [] && rx.queues.Keys <= sockets.Keys
    requires rx.account.Settled(sockets)
    modifies rx`avail, rx`offers, rx`used, rx`emit, rx`account, rx`returned, rx`msgs, rx`wire, rx`heard
    modifies rx.queues.Values
    modifies rx.msgs`buf, rx.msgs`doneLen, rx.msgs`next, rx.msgs`cookie, rx.msgs`place
    ensures rx.Valid() && rx.ToldSince(was) && rx.msgs <= old(rx.msgs) && rx.account.Settled(sockets)
    ensures |rx.avail| == |old(rx.avail)| - 1
    ensures rx.account.taken + rx.offers == old(rx.account.taken + rx.offers)
    ensures Serving(rx, sockets, true).FairSince(old(rx.account).used, rx.account.used)
  {
    hide Half.Sound, Half.Even, ReceivedOr, Account.Settled, Setting.FairSince, Half.ToldSince;
    var offer := rx.GetAvailable();
    ghost var given := Given(offer.handle, offer.msg.buf);
    ghost var data;
    var ret;
    ret, data := RxOffer(rx, sockets, offer);
    ReceivingOk(old(rx.account), rx.account, offer.msg.fd, given, data, ret, Serving(rx, sockets, true));
    assert rx.account.taken + rx.offers == old(rx.account.taken + rx.offers);
    rx.ToldStill(was);
  }

  /** rx_queue_handle: every message taken is refused exactly if the stack has answered -1 to it, turned away
      exactly if its socket has no queue, and otherwise answered when its protocol has it. */
  method RxQueueHandle(rx: Half, sockets: map<int, Protocol>)
    requires rx.Valid() && rx.dir == Rx && rx.queues.Keys <= sockets.Keys && rx.account.Settled(sockets)
    modifies rx`avail, rx`offers, rx`used, rx`emit, rx`account, rx`returned, rx`msgs, rx`wire, rx`heard
    modifies rx.queues.Values
    modifies rx.msgs`buf, rx.msgs`doneLen, rx.msgs`next, rx.msgs`cookie, rx.msgs`place
    ensures rx.Valid() && rx.Told() && Drained(rx) && rx.msgs <= old(rx.msgs) && rx.account.Settled(sockets)
    ensures Serving(rx, sockets, true).FairSince(old(rx.account).used, rx.account.used)
  {
    hide Half.Sound, Half.Even, Account.Settled;
    rx.ToldNow();
    FairNone(Serving(rx, sockets, true), rx.account.used);
    while rx.avail != []
      invariant rx.Valid() && rx.Told() && rx.msgs <= old(rx.msgs) && rx.account.Settled(sockets)
      invariant rx.account.taken + rx.offers == old(rx.account.taken + rx.offers)
      invariant Serving(rx, sockets, true).FairSince(old(rx.account).used, rx.account.used)
      decreases |rx.avail|
    {
      ghost var used := rx.account.used;
      RxNextOffer(rx, sockets, old(rx.SoFar()));
      FairChain(Serving(rx, sockets, true), old(rx.account).used, used, rx.account.used);
    }
    rx.NothingOffered();
    assert rx.account.taken + rx.offers == rx.account.taken;
  }

  /** The first pending message of the socket, if there is one, is one into which the stack has just put
      less than it waits for. */
  ghost predicate LeftWaiting(rx: Half, fd: int, protocol: Protocol)
    requires fd in rx.queues
    reads rx`queues, rx`heard, rx.queues[fd], rx.queues[fd].head
  {
    var msg, answers := rx.queues[fd].head, rx.HeardOn(fd);
    msg != null ==>
      && answers != []
      && var got := answers[|answers| - 1];
         0 <= got <= msg.doneLen < |msg.buf| && Waits(protocol, got, |msg.buf| - (msg.doneLen - got))
  }

  ghost predicate JustFailed(rx: Half, fd: int)
    reads rx`heard
  {
    var answers := rx.HeardOn(fd);
    answers != [] && answers[|answers| - 1] == -1
  }

  /** What the stack's answer makes of the first pending message: -1 ends it as refused, it waits on if the
      protocol has it, and ends otherwise. */
  ghost predicate Rereceived(a: Account, b: Account, fd: int, data: seq<Byte>, ret: int, waits: bool, how: How,
      len: nat)
  {
    && a.On(fd).queue != [] && |data| == (if ret == -1 then 0 else ret)
    && if ret == -1 then b == a.Complete(fd, REFUSED)
       else if waits then b == a.Move(fd, data, [ret])
       else b == a.Complete(fd, Ending(data, [ret], how, len))
  }

  lemma UdpWaits()
    ensures forall got, room :: Waits(Udp, got, room) ==> got == 0
  {}

  method RxMore(rx: Half, fd: int, msg: Msg, protocol: Protocol, ret: int) returns (more: bool, ghost data: seq<Byte>)
    requires rx.Sound() && rx.dir == Rx && fd in rx.queues && rx.queues[fd].head == msg && msg in rx.msgs
    requires 0 <= msg.doneLen < |msg.buf| && -1 <= ret <= |msg.buf| - msg.doneLen
    requires protocol == Udp ==> msg.doneLen == 0
    requires rx.Ahead(fd, if ret == -1 then [] else msg.buf[msg.doneLen..msg.doneLen + ret], [ret])
    requires rx.HeardOn(fd) != [] && rx.HeardOn(fd)[|rx.HeardOn(fd)| - 1] == ret
    modifies rx`used, rx`emit, rx`account, rx`returned, rx`msgs, rx.queues[fd]
    modifies msg`doneLen, msg`place
    ensures rx.HeardOn(fd) == old(rx.HeardOn(fd))
    ensures rx.Valid() && rx.Told() && rx.msgs <= old(rx.msgs)
    ensures rx.account.After(old(rx.account), fd)
    ensures data == if ret == -1 then [] else msg.buf[old(msg.doneLen)..old(msg.doneLen) + ret]
    ensures Rereceived(old(rx.account), rx.account, fd, data, ret, Waits(protocol, ret, |msg.buf| - old(msg.doneLen)),
      Ended(protocol, true), |msg.buf|)
    ensures more <==> ret != -1 && !Waits(protocol, ret, |msg.buf| - old(msg.doneLen))
    ensures !more && ret != -1 ==> LeftWaiting(rx, fd, protocol) && rx.queues[fd].head == msg
  {
    hide Half.Sound, Half.Ahead, Half.Even, Account.After;
    data := if ret == -1 then [] else msg.buf[msg.doneLen..msg.doneLen + ret];
    if ret == -1 {
      rx.FinishFirst(fd, msg, -1, 0, REFUSED);
      more := false;
    } else if Waits(protocol, ret, |msg.buf| - msg.doneLen) {
      rx.Progress(fd, msg, ret, data);
      more := false;
    } else {
      rx.FinishFirst(fd, msg, msg.doneLen + ret, |msg.buf|, Ending(data, [ret], Ended(protocol, true), |msg.buf|));
      more := true;
    }
  }

  /** Inside rx_socket's loop: more is received into the first pending message, and the loop goes on
      if that ends it. */
  method RxTurn(rx: Half, fd: int, msg: Msg, protocol: Protocol)
    returns (more: bool, ghost ret: int, ghost data: seq<Byte>, ghost waits: bool)
    requires rx.Valid() && rx.dir == Rx && fd in rx.queues && rx.queues[fd].head == msg && msg in rx.msgs
    requires 0 <= msg.doneLen < |msg.buf| && msg.place.Pending? && (protocol == Udp ==> msg.doneLen == 0)
    modifies rx`used, rx`emit, rx`account, rx`returned, rx`msgs, rx`wire, rx`heard, rx.queues[fd]
    modifies msg`buf, msg`doneLen, msg`place
    ensures rx.Valid() && rx.Told() && rx.msgs <= old(rx.msgs)
    ensures rx.account.After(old(rx.account), fd)
    ensures Rereceived(old(rx.account), rx.account, fd, data, ret, waits, Ended(protocol, true), old(|msg.buf|))
    ensures rx.HeardOn(fd) == old(rx.HeardOn(fd)) + [ret] && waits == Waits(protocol, ret, old(|msg.buf| - msg.doneLen))
    ensures -1 <= ret && (more <==> ret != -1 && !waits) && (waits && protocol == Udp ==> ret == 0)
    ensures !more && ret != -1 ==> LeftWaiting(rx, fd, protocol) && rx.queues[fd].head == msg
  {
    UdpWaits();
    rx.PendingNotOffered(msg);
    hide Half.HeardOn, Half.OnWire, Half.Sound, Half.Ahead, Half.Even, Rereceived, LeftWaiting, Waits, Account.After;
    ghost var got, room := [], |msg.buf| - msg.doneLen;
    var answer;
    answer, got := rx.Recv(fd, msg);
    ret, waits := answer, Waits(protocol, answer, room);
    more, data := RxMore(rx, fd, msg, protocol, answer);
  }

  lemma RereceivedOk(a: Account, b: Account, fd: int, data: seq<Byte>, ret: int, waits: bool, protocol: Protocol,
      len: nat, s: Setting)
    requires a.dir == Rx == s.dir && fd in s.async && fd in s.sockets && s.sockets[fd] == protocol && -1 <= ret
    requires Rereceived(a, b, fd, data, ret, waits, Ended(protocol, true), len) && a.On(fd).Ok()
    requires waits && protocol == Udp ==> ret == 0
    requires protocol == Udp ==> a.On(fd).Unbegun()
    ensures s.FairSince(a.used, b.used) && b.dir == a.dir
    ensures |b.used| == |a.used| + if ret == -1 || !waits then 1 else 0
    ensures ret == -1 || waits ==> b.On(fd).Tried(Rx)
    ensures protocol == Udp ==> b.On(fd).Unbegun()
  {
    if ret == -1 {
      FairOne(s, a.used, Tag(fd, a.On(fd).queue[0].Ended(REFUSED)));
    } else if !waits {
      FairOne(s, a.used, Tag(fd, a.On(fd).queue[0].Ended(Ending(data, [ret], Ended(protocol, true), len))));
    }
  }

  /** One turn of rx_socket's loop. */
  method RxNext(rx: Half, fd: int, sockets: map<int, Protocol>, ghost was: Endings) returns (more: bool, ghost ret: int)
    requires rx.Valid() && rx.ToldSince(was) && rx.dir == Rx && fd in rx.queues && rx.queues[fd].head != null
    requires fd in sockets && (sockets[fd] == Udp ==> rx.account.On(fd).Unbegun())
    modifies rx`used, rx`emit, rx`account, rx`returned, rx`msgs, rx`wire, rx`heard, rx.queues.Values
    modifies rx.msgs`buf, rx.msgs`doneLen, rx.msgs`place
    ensures rx.Valid() && rx.ToldSince(was) && rx.msgs <= old(rx.msgs)
    ensures rx.account.After(old(rx.account), fd) && (sockets[fd] == Udp ==> rx.account.On(fd).Unbegun())
    ensures Serving(rx, sockets, false).FairSince(old(rx.account).used, rx.account.used)
    ensures rx.HeardOn(fd) == old(rx.HeardOn(fd)) + [ret] && (more ==> ret != -1)
    ensures |rx.account.used| == |old(rx.account).used| + if more || ret == -1 then 1 else 0
    ensures rx.account.dir == Rx && (!more ==> rx.account.On(fd).Tried(Rx))
    ensures !more && ret != -1 ==> LeftWaiting(rx, fd, sockets[fd]) && rx.queues[fd].head != null
  {
    hide Half.Sound, Half.Even, Rereceived, LeftWaiting, Setting.FairSince, Half.ToldSince, Half.HeardOn, Account.After;
    hide Account.On, Channel.Ok, Channel.Tried, Channel.Unbegun, Waits;
    rx.FirstReady(fd);
    assert rx.queues[fd].end != null;
    var protocol := sockets[fd];
    ghost var len := |rx.queues[fd].head.buf|;
    ghost var data, waits;
    more, ret, data, waits := RxTurn(rx, fd, rx.queues[fd].head, protocol);
    RereceivedOk(old(rx.account), rx.account, fd, data, ret, waits, protocol, len, Serving(rx, sockets, false));
    rx.ToldStill(was);
  }

  /** rx_socket: when the stack has received more, the socket's pending messages are filled in order
      until one waits for more, or fails.  A message is given up only if the stack answers -1 to it. */
  method RxSocket(rx: Half, fd: int, sockets: map<int, Protocol>) returns (ghost failed: bool)
    requires rx.Valid() && rx.dir == Rx && rx.queues.Keys <= sockets.Keys && rx.account.Settled(sockets)
    modifies rx`used, rx`emit, rx`account, rx`returned, rx`msgs, rx`wire, rx`heard, rx.queues.Values
    modifies rx.msgs`buf, rx.msgs`doneLen, rx.msgs`place
    ensures rx.Valid() && rx.Told() && rx.msgs <= old(rx.msgs) && rx.account.Settled(sockets)
    ensures rx.account.After(old(rx.account), fd)
    ensures Serving(rx, sockets, false).FairSince(old(rx.account).used, rx.account.used)
    ensures fd !in rx.queues ==> unchanged(rx)
    ensures failed ==> fd in rx.queues && JustFailed(rx, fd) && |rx.HeardOn(fd)| > |old(rx.HeardOn(fd))|
    ensures fd in rx.queues && !failed ==> LeftWaiting(rx, fd, sockets[fd])
    ensures fd in rx.queues ==>
      |rx.HeardOn(fd)| - |old(rx.HeardOn(fd))| == |rx.account.used| - |old(rx.account).used| +
        if failed || rx.queues[fd].head == null then 0 else 1
  {
    if fd !in rx.queues {
      failed := false;
      AfterNone(rx.account, fd);
      return;
    }
    assert fd in sockets && rx.account.SettledOn(sockets, fd) && rx.account.dir == Rx;
    assert sockets[fd] == Udp ==> rx.account.On(fd).Unbegun();
    hide Half.Valid, Half.ToldSince, LeftWaiting, Setting.FairSince, Account.After, Account.Settled, Account.SettledOn;
    hide Half.HeardOn, JustFailed;
    failed := RxResume(rx, fd, sockets);
    AfterSettles(old(rx.account), rx.account, fd, sockets);
  }

  method RxResume(rx: Half, fd: int, sockets: map<int, Protocol>) returns (ghost failed: bool)
    requires rx.Valid() && rx.dir == Rx && fd in rx.queues && fd in sockets
    requires sockets[fd] == Udp ==> rx.account.On(fd).Unbegun()
    modifies rx`used, rx`emit, rx`account, rx`returned, rx`msgs, rx`wire, rx`heard, rx.queues.Values
    modifies rx.msgs`buf, rx.msgs`doneLen, rx.msgs`place
    ensures rx.Valid() && rx.Told() && rx.msgs <= old(rx.msgs)
    ensures rx.account.After(old(rx.account), fd) && rx.account.SettledOn(sockets, fd) && rx.account.dir == Rx
    ensures Serving(rx, sockets, false).FairSince(old(rx.account).used, rx.account.used)
    ensures failed ==> JustFailed(rx, fd) && |rx.HeardOn(fd)| > |old(rx.HeardOn(fd))|
    ensures !failed ==> LeftWaiting(rx, fd, sockets[fd])
    ensures |rx.HeardOn(fd)| - |old(rx.HeardOn(fd))| == |rx.account.used| - |old(rx.account).used| +
      if failed || rx.queues[fd].head == null then 0 else 1
  {
    assert rx.account.dir == Rx;
    hide Half.Sound, Half.Even, Channel.Tried, Channel.Unbegun, Waits, Account.After, Setting.FairSince;
    AfterNone(rx.account, fd);
    rx.ToldNow();
    FairNone(Serving(rx, sockets, false), rx.account.used);
    while rx.queues[fd].head != null
      invariant rx.Valid() && rx.Told() && rx.msgs <= old(rx.msgs)
      invariant rx.account.After(old(rx.account), fd) && rx.account.dir == Rx
      invariant sockets[fd] == Udp ==> rx.account.On(fd).Unbegun()
      invariant Serving(rx, sockets, false).FairSince(old(rx.account).used, rx.account.used)
      invariant |rx.HeardOn(fd)| - |old(rx.HeardOn(fd))| == |rx.account.used| - |old(rx.account).used|
      decreases |rx.account.On(fd).queue|
    {
      ghost var was := rx.account;
      ghost var ret;
      var more;
      more, ret := RxNext(rx, fd, sockets, old(rx.SoFar()));
      AfterChain(old(rx.account), was, rx.account, fd);
      FairChain(Serving(rx, sockets, false), old(rx.account).used, was.used, rx.account.used);
      if !more {
        failed := ret == -1;
        return;
      }
    }
    failed := false;
    rx.NonePending(fd);
    NoneSettles(rx.account, fd, sockets);
  }

  // ---------------------------------------------------------------------------
  // Tearing down

  /** Everything on the used ring from there on is for fd, and was given up because of its teardown. */
  ghost predicate GivenUp(used: seq<Tag<Done>>, from: nat, fd: int) {
    from <= |used| && forall i :: from <= i < |used| ==> used[i].fd == fd && used[i].what.how == Failed(Closed)
  }

  lemma OneMoreGivenUp(was: seq<Tag<Done>>, used: seq<Tag<Done>>, from: nat, fd: int)
    requires GivenUp(was, from, fd) && |used| == |was| + 1 && used[..|was|] == was
    requires used[|was|].fd == fd && used[|was|].what.how == Failed(Closed)
    ensures GivenUp(used, from, fd)
  {
    assert forall i :: from <= i < |was| ==> used[i] == used[..|was|][i];
  }

  method GiveUp(half: Half, fd: int, ghost was: Endings)
    requires half.Valid() && half.ToldSince(was) && fd in half.queues && half.queues[fd].head != null
    modifies half`used, half`emit, half`account, half`returned, half`msgs, half.queues[fd]
    modifies half.msgs`doneLen, half.msgs`place
    ensures half.Valid() && half.ToldSince(was) && half.msgs <= old(half.msgs)
    ensures half.account.After(old(half.account), fd)
    ensures old(half.account.On(fd).queue) != [] && half.account == old(half.account).Complete(fd, CLOSED)
  {
    hide Half.Sound, Half.Even, Half.Ahead, Account.After, Half.ToldSince;
    half.First(fd);
    assert half.queues[fd].end != null;
    half.EvenAhead(fd);
    half.FinishFirst(fd, half.queues[fd].head, -1, 0, CLOSED);
    half.ToldStill(was);
  }

  /** A loop of cleanup_async_socket: everything pending on the socket is given up, in order. */
  method GiveUpAll(half: Half, fd: int)
    requires half.Valid() && fd in half.queues
    modifies half`used, half`emit, half`account, half`returned, half`msgs, half.queues[fd]
    modifies half.msgs`doneLen, half.msgs`place
    ensures half.Valid() && half.Told() && half.msgs <= old(half.msgs)
    ensures half.account.After(old(half.account), fd) && half.queues[fd].head == null
    ensures GivenUp(half.account.used, |old(half.account).used|, fd)
    ensures half.account.dir == old(half.account).dir
  {
    hide Half.Sound, Half.Even;
    half.ToldNow();
    while half.queues[fd].head != null
      invariant half.Valid() && half.Told() && half.msgs <= old(half.msgs)
      invariant half.account.After(old(half.account), fd) && half.account.dir == old(half.account).dir
      invariant GivenUp(half.account.used, |old(half.account).used|, fd)
      decreases |half.account.On(fd).queue|
    {
      ghost var was := half.account.used;
      GiveUp(half, fd, old(half.SoFar()));
      OneMoreGivenUp(was, half.account.used, |old(half.account).used|, fd);
    }
  }
}
