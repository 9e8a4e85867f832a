/** The asynchronous transport of the PicoServer as a whole: both rings and all sockets, under any
    interleaving of client submissions, ring interrupts, stack callbacks, set_async and close. */
module Transport {
  import opened Basics
  import opened Channels
  import opened PendingQueue
  import opened AsyncTransport
  import opened AsyncServer

  /** What the invariant says about one socket: the messages answered are the first of those taken, in
      order, and the bytes that crossed over are theirs, followed by the front of the message at the
      head of the queue.  Each ended as the stack's answers to it say, and as many were refused as it
      answered -1. */
  lemma Stream(half: Half, fd: int)
    requires half.Valid()
    ensures var ended := For(half.account.used, fd);
      && Givens(ended) <= For(half.account.taken, fd)
      && (half.OnWire(fd) == BytesOf(ended) +
          if fd in half.queues then half.queues[fd].Begun() else [])
      && (half.dir == Tx ==> forall d :: d in ended ==>
          d.data <= d.given.body && (d.how.Failed? || d.data == d.given.body))
      && (forall d :: d in ended ==> DoneOk(d))
      && GivenBack(ended) == Refusals(half.HeardOn(fd))
  {
    assert half.account.SocketOk(fd);
    half.FirstBegun(fd);
    var c := half.account.On(fd);
    RefusalsCounted(c);
    assert half.HeardOn(fd) == c.Heard();
    assert For(half.account.taken, fd) == Givens(c.finished) + c.Taken()[|c.finished|..];
  }

  /** Nothing is lost or answered twice: what is on the used ring was taken, as often, and what is taken
      and not there is in a queue that is not empty. */
  lemma Conserved(half: Half)
    requires half.Valid()
    ensures multiset(AsTaken(half.account.used)) <= multiset(half.account.taken)
    ensures (forall fd :: fd in half.queues ==> half.queues[fd].head == null) ==>
      multiset(AsTaken(half.account.used)) == multiset(half.account.taken)
  {
    AllAnswered(half.account);
    if forall fd :: fd in half.queues ==> half.queues[fd].head == null {
      forall fd
        ensures half.account.On(fd).queue == []
      {
        half.NonePending(fd);
      }
    }
  }

  class Transport {
    const tx: Half
    const rx: Half
    /** The sockets of client 0, whose table alone the rings are served from. */
    var sockets: map<int, Protocol>
    /** How often the client was notified. */
    ghost var rung: nat

    constructor ()
      ensures Valid() && sockets == map[] && fresh(tx) && fresh(rx)
      ensures tx.queues == map[] && tx.msgs == {} && tx.submitted == [] && tx.account.used == []
      ensures rx.queues == map[] && rx.msgs == {} && rx.submitted == [] && rx.account.used == []
    {
      NewSettles(Tx, map[]);
      NewSettles(Rx, map[]);
      var t := new Half(Tx);
      var r := new Half(Rx);
      tx, rx, sockets, rung := t, r, map[], 0;
    }

    ghost predicate Valid()
      reads this`sockets, tx, rx, tx.queues.Values, rx.queues.Values, tx.msgs, rx.msgs
    {
      && tx.Valid() && tx.dir == Tx && tx.Logged() && tx.account.Settled(map[])
      && rx.Valid() && rx.dir == Rx && rx.Logged() && rx.account.Settled(sockets)
      && tx.queues.Keys == rx.queues.Keys <= sockets.Keys
    }

    /** The two directions share no messages and no queues. */
    lemma Apart()
      requires tx.Valid() && tx.dir == Tx && rx.Valid() && rx.dir == Rx
      ensures tx.msgs !! rx.msgs && tx.queues.Values !! rx.queues.Values
    {
      forall q | q in tx.queues.Values && q in rx.queues.Values
        ensures false
      {
        var fd, f := KeyOf(tx.queues, q), KeyOf(rx.queues, q);
      }
    }

    /** The client offers a message on one of the rings. */
    method Submit(dir: Direction, msg: Msg, fd: int, buf: seq<Byte>, handle: nat)
      requires Valid() && !msg.place.Available? && !msg.place.Pending? && 0 < |buf| <= MAX_LEN
      modifies tx`avail, tx`offers, tx`msgs, tx`submitted, rx`avail, rx`offers, rx`msgs, rx`submitted
      modifies msg`fd, msg`buf, msg`doneLen, msg`place
      ensures Valid()
      ensures var half := if dir == Tx then tx else rx;
        half.avail == old(half.avail) + [Offer(msg, handle)] && half.msgs == old(half.msgs) + {msg}
        && half.submitted == old(half.submitted) + [Tag(fd, Given(handle, buf))]
      ensures unchanged(if dir == Tx then rx else tx)
      // A message the client has not got back before leaves those it has got back alone.
      ensures old(msg.place) != Returned ==> tx.Told() && rx.Told()
    {
      Apart();
      tx.ToldNow();
      rx.ToldNow();
      hide Half.ToldSince;
      if dir == Tx {
        tx.Submit(msg, fd, buf, handle);
        if old(msg.place) != Returned {
          rx.ToldKept(old(rx.SoFar()));
        }
      } else {
        rx.Submit(msg, fd, buf, handle);
        if old(msg.place) != Returned {
          tx.ToldKept(old(tx.SoFar()));
        }
      }
    }

    /** A new socket is synchronous. */
    method Open(fd: int, protocol: Protocol)
      requires Valid() && fd !in sockets
      modifies this`sockets
      ensures Valid() && sockets == old(sockets)[fd := protocol]
    {
      rx.NonePending(fd);
      OtherSockets(rx.account, sockets, sockets[fd := protocol]);
      sockets := sockets[fd := protocol];
    }

    method DrainRx()
      requires Valid()
      modifies rx, rx.queues.Values, rx.msgs
      ensures Valid() && rx.Told() && Drained(rx) && rx.queues == old(rx.queues) && Kept(rx)
      ensures Fairly(rx, Serving(rx, sockets, true))
    {
      hide Half.Even, Account.Settled, Setting.FairSince;
      Apart();
      RxQueueHandle(rx, sockets);
    }

    method DrainTx()
      requires Valid()
      modifies tx, tx.queues.Values, tx.msgs
      ensures Valid() && tx.Told() && Drained(tx) && tx.queues == old(tx.queues) && Kept(tx)
      ensures Fairly(tx, Serving(tx, map[], true))
    {
      hide Half.Even, Account.Settled, Setting.FairSince;
      Apart();
      TxQueueHandle(tx);
    }

    /** A step of the receiving side leaves what the senders have been told, and the other way round. */
    twostate lemma TxUntouched(was: Endings)
      requires old(Valid()) && old(tx.ToldSince(was)) && unchanged(tx)
      requires forall m :: m in tx.returned && m !in old(rx.msgs) ==> unchanged(m)
      ensures tx.ToldSince(was)
    {
      assert forall m :: m in old(rx.msgs) ==> old(m.place) != Returned;
      tx.ToldKept(was);
    }

    twostate lemma RxUntouched(was: Endings)
      requires old(Valid()) && old(rx.ToldSince(was)) && unchanged(rx)
      requires forall m :: m in rx.returned && m !in old(tx.msgs) ==> unchanged(m)
      ensures rx.ToldSince(was)
    {
      assert forall m :: m in old(tx.msgs) ==> old(m.place) != Returned;
      rx.ToldKept(was);
    }

    /** tx_queue_handle_irq. */
    method RingIrq()
      requires Valid()
      modifies tx, rx, tx.queues.Values, rx.queues.Values, tx.msgs, rx.msgs
      ensures tx.Told() && rx.Told()
      ensures Valid() && Drained(tx) && Drained(rx) && Kept(tx) && Kept(rx)
      ensures Fairly(tx, Serving(tx, map[], true)) && Fairly(rx, Serving(rx, sockets, true))
      ensures tx.queues == old(tx.queues) && rx.queues == old(rx.queues)
    {
      hide Setting.FairSince, Half.ToldSince;
      tx.ToldNow();
      ghost var sent := tx.SoFar();
      ghost var received := rx.SoFar();
      DrainRx();
      TxUntouched(sent);
      label Between:
      DrainTx();
      RxUntouched@Between(received);
      tx.ToldStill@Between(sent);
    }

    method ResumeRx(fd: int) returns (ghost failed: bool)
      requires Valid() && fd in rx.queues
      modifies rx, rx.queues.Values, rx.msgs
      ensures Valid() && rx.Told() && rx.account.After(old(rx.account), fd) && rx.avail == old(rx.avail)
      ensures rx.queues == old(rx.queues) && Kept(rx) && Fairly(rx, Serving(rx, sockets, false))
      ensures if failed then JustFailed(rx, fd) else LeftWaiting(rx, fd, sockets[fd])
    {
      hide Half.Sound, Half.Even, Account.Settled, Setting.FairSince, LeftWaiting;
      Apart();
      failed := RxSocket(rx, fd, sockets);
    }

    method ResumeTx(fd: int)
      requires Valid() && fd in tx.queues
      modifies tx, tx.queues.Values, tx.msgs
      ensures Valid() && tx.Told() && tx.account.After(old(tx.account), fd) && tx.avail == old(tx.avail)
      ensures tx.queues == old(tx.queues) && Kept(tx) && LeftPartial(tx, fd) && Fairly(tx, Serving(tx, map[], false))
    {
      hide Half.Sound, Half.Even, Account.Settled, Setting.FairSince, LeftPartial;
      Apart();
      TxSocket(tx, fd);
    }

    method Readable(fd: int) returns (ghost failed: bool)
      requires Valid() && fd in rx.queues
      modifies rx, rx.queues.Values, rx.msgs
      ensures Valid() && rx.Told() && Drained(rx) && rx.queues == old(rx.queues) && Kept(rx)
      ensures Fairly(rx, Serving(rx, sockets, true))
      ensures if failed then JustFailed(rx, fd) else LeftWaiting(rx, fd, sockets[fd])
    {
      hide Setting.FairSince, LeftWaiting, JustFailed, Half.Valid, Account.Settled, Half.ToldSince;
      DrainRx();
      ghost var used := rx.account.used;
      label Between:
      failed := ResumeRx(fd);
      rx.ToldStill@Between(old(rx.SoFar()));
      FairWider(Serving(rx, sockets, false), Serving(rx, sockets, true), used, rx.account.used);
      FairChain(Serving(rx, sockets, true), old(rx.account).used, used, rx.account.used);
    }

    method Writable(fd: int)
      requires Valid() && fd in tx.queues
      modifies tx, tx.queues.Values, tx.msgs
      ensures Valid() && tx.Told() && Drained(tx) && tx.queues == old(tx.queues) && Kept(tx)
      ensures Fairly(tx, Serving(tx, map[], true)) && LeftPartial(tx, fd)
    {
      hide Setting.FairSince, LeftPartial, Half.ToldSince;
      DrainTx();
      ghost var used := tx.account.used;
      label Between:
      ResumeTx(fd);
      tx.ToldStill@Between(old(tx.SoFar()));
      FairWider(Serving(tx, map[], false), Serving(tx, map[], true), used, tx.account.used);
      FairChain(Serving(tx, map[], true), old(tx.account).used, used, tx.account.used);
    }

    /** The first part of socket_cb, for a socket that is set up for asynchronous use: the ring is served
        before what already waits on the socket, and what then still waits does so because of the stack's
        last answer. */
    method SocketCb(fd: int, readable: bool, writable: bool) returns (ghost failed: bool)
      requires Valid()
      modifies tx, rx, tx.queues.Values, rx.queues.Values, tx.msgs, rx.msgs
      ensures Valid() && Kept(tx) && Kept(rx) && tx.Told() && rx.Told()
      ensures Fairly(tx, Serving(tx, map[], true)) && Fairly(rx, Serving(rx, sockets, true))
      ensures readable && fd in rx.queues ==> Drained(rx) && (!failed ==> LeftWaiting(rx, fd, sockets[fd]))
      ensures failed ==> readable && JustFailed(rx, fd)
      ensures writable && fd in tx.queues ==> Drained(tx) && LeftPartial(tx, fd)
      ensures !readable || fd !in tx.queues ==> unchanged(rx)
      ensures !writable || fd !in tx.queues ==> unchanged(tx)
      ensures tx.queues == old(tx.queues) && rx.queues == old(rx.queues)
    {
      failed := false;
      FairNone(Serving(tx, map[], true), tx.account.used);
      FairNone(Serving(rx, sockets, true), rx.account.used);
      tx.ToldNow();
      rx.ToldNow();
      ghost var sent := tx.SoFar();
      ghost var received := rx.SoFar();
      if fd !in tx.queues {
        return;
      }
      hide Half.Even, Setting.FairSince, LeftPartial, Half.ToldSince;
      Apart();
      if readable {
        failed := Readable(fd);
        TxUntouched(sent);
      }
      Apart();
      rx.Consistent(fd);
      label Between:
      if writable {
        Writable(fd);
        RxUntouched@Between(received);
        tx.ToldStill@Between(sent);
      }
    }

    /** What is pending on the socket in one direction is given up. */
    method GiveUpTx(fd: int)
      requires Valid() && fd in tx.queues
      modifies tx, tx.queues.Values, tx.msgs
      ensures Valid() && tx.Told() && tx.queues == old(tx.queues) && Kept(tx) && tx.avail == old(tx.avail)
      ensures tx.account.After(old(tx.account), fd) && tx.account.On(fd).queue == []
      ensures GivenUp(tx.account.used, |old(tx.account).used|, fd)
    {
      hide Half.Even, Account.Settled, GivenUp;
      Apart();
      GiveUpAll(tx, fd);
      tx.NonePending(fd);
      NoneSettles(tx.account, fd, map[]);
      AfterSettles(old(tx.account), tx.account, fd, map[]);
    }

    method GiveUpRx(fd: int)
      requires Valid() && fd in rx.queues
      modifies rx, rx.queues.Values, rx.msgs
      ensures Valid() && rx.Told() && rx.queues == old(rx.queues) && Kept(rx) && rx.avail == old(rx.avail)
      ensures rx.account.After(old(rx.account), fd) && rx.account.On(fd).queue == []
      ensures GivenUp(rx.account.used, |old(rx.account).used|, fd)
    {
      hide Half.Even, Account.Settled, GivenUp;
      Apart();
      GiveUpAll(rx, fd);
      rx.NonePending(fd);
      NoneSettles(rx.account, fd, sockets);
      AfterSettles(old(rx.account), rx.account, fd, sockets);
    }

    method GiveUpBoth(fd: int)
      requires Valid() && fd in tx.queues
      modifies tx, rx, tx.queues.Values, rx.queues.Values, tx.msgs, rx.msgs
      ensures Valid() && tx.queues == old(tx.queues) && rx.queues == old(rx.queues) && Kept(tx) && Kept(rx)
      ensures OnlyGivenUp(fd) && tx.account.On(fd).queue == [] && rx.account.On(fd).queue == []
      ensures tx.avail == old(tx.avail) && rx.avail == old(rx.avail)
    {
      hide Account.After, GivenUp, Half.ToldSince;
      Apart();
      rx.ToldNow();
      ghost var sent := tx.SoFar();
      ghost var received := rx.SoFar();
      GiveUpTx(fd);
      RxUntouched(received);
      label Between:
      GiveUpRx(fd);
      TxUntouched@Between(sent);
      rx.ToldStill@Between(received);
    }

    /** Since then messages that waited on fd have been given up for its teardown, in order, and no other
        message has been answered; the client finds in each what became of it. */
    twostate predicate OnlyGivenUp(fd: int)
      reads tx`account, rx`account, tx`returned, rx`returned
      reads tx.returned`place, tx.returned`doneLen, tx.returned`buf
      reads rx.returned`place, rx.returned`doneLen, rx.returned`buf
    {
      && tx.Told() && rx.Told()
      && tx.account.After(old(tx.account), fd) && GivenUp(tx.account.used, |old(tx.account).used|, fd)
      && rx.account.After(old(rx.account), fd) && GivenUp(rx.account.used, |old(rx.account).used|, fd)
    }

    twostate lemma NothingGivenUp(fd: int)
      requires Valid() && tx.SoFar() == old(tx.SoFar()) && rx.SoFar() == old(rx.SoFar())
      requires tx.account == old(tx.account) && rx.account == old(rx.account)
      ensures OnlyGivenUp(fd)
    {
      tx.ToldNow();
      rx.ToldNow();
    }

    method DropBoth(fd: int)
      requires Valid() && tx.account.On(fd).queue == [] && rx.account.On(fd).queue == []
      modifies tx`queues, rx`queues
      ensures Valid() && tx.queues == old(tx.queues) - {fd} && rx.queues == old(rx.queues) - {fd}
    {
      tx.Drop(fd);
      rx.Drop(fd);
    }

    /** cleanup_async_socket: what is pending on the socket, in either direction, is given up, and the
        socket is synchronous again. */
    method Cleanup(fd: int)
      requires Valid() && fd in tx.queues
      modifies tx, rx, tx.queues.Values, rx.queues.Values, tx.msgs, rx.msgs
      ensures Valid() && tx.queues == old(tx.queues) - {fd} && rx.queues == old(rx.queues) - {fd}
      ensures Kept(tx) && Kept(rx)
      ensures OnlyGivenUp(fd) && tx.account.On(fd).queue == [] && rx.account.On(fd).queue == []
      ensures tx.avail == old(tx.avail) && rx.avail == old(rx.avail)
    {
      hide Account.After, GivenUp;
      GiveUpBoth(fd);
      DropBoth(fd);
    }

    method Forget(fd: int)
      requires Valid() && fd !in tx.queues
      modifies this`sockets
      ensures Valid() && sockets == old(sockets) - {fd}
    {
      OtherSockets(rx.account, sockets, sockets - {fd});
      sockets := sockets - {fd};
    }

    /** pico_control_close, as far as the transport is concerned. */
    method Close(fd: int) returns (ret: int)
      requires Valid()
      modifies this, tx, rx, tx.queues.Values, rx.queues.Values, tx.msgs, rx.msgs
      ensures Valid() && sockets == old(sockets) - {fd} && (ret == -1 <==> fd !in old(sockets))
      ensures tx.queues == old(tx.queues) - {fd} && rx.queues == old(rx.queues) - {fd} && Kept(tx) && Kept(rx)
      ensures tx.avail == old(tx.avail) && rx.avail == old(rx.avail) && OnlyGivenUp(fd)
    {
      NothingGivenUp(fd);
      hide Half.Even, OnlyGivenUp;
      if fd !in sockets {
        return -1;
      }
      if fd in tx.queues {
        Cleanup(fd);
      }
      Forget(fd);
      ret := 0;
    }

    method AddBoth(fd: int)
      requires Valid() && fd in sockets && fd !in tx.queues
      modifies tx`queues, rx`queues
      ensures Valid() && tx.queues.Keys == old(tx.queues.Keys) + {fd}
      ensures fresh(tx.queues[fd]) && forall f :: f in old(tx.queues) ==> tx.queues[f] == old(tx.queues)[f]
      ensures fresh(rx.queues[fd]) && forall f :: f in old(rx.queues) ==> rx.queues[f] == old(rx.queues)[f]
    {
      tx.Add(fd);
      rx.Add(fd);
    }

    /** pico_control_set_async, whose calloc may fail. */
    method SetAsync(fd: int, enabled: bool, calloc: bool) returns (ret: int)
      requires Valid()
      modifies tx, rx, tx.queues.Values, rx.queues.Values, tx.msgs, rx.msgs
      ensures Valid() && Kept(tx) && Kept(rx)
      ensures ret == -1 <==> fd !in sockets || (enabled && fd !in old(tx.queues) && !calloc)
      ensures fd in sockets ==> (fd in tx.queues <==> enabled && ret == 0)
      ensures forall f :: f in tx.queues ==>
        (f in old(tx.queues) && tx.queues[f] == old(tx.queues[f])) || fresh(tx.queues[f])
      ensures forall f :: f in rx.queues ==>
        (f in old(rx.queues) && rx.queues[f] == old(rx.queues[f])) || fresh(rx.queues[f])
      ensures tx.queues.Keys ==
        if fd !in sockets || (enabled && !calloc) then old(tx.queues.Keys)
        else if enabled then old(tx.queues.Keys) + {fd} else old(tx.queues.Keys) - {fd}
      ensures enabled ==> tx.account == old(tx.account) && rx.account == old(rx.account)
      ensures tx.avail == old(tx.avail) && rx.avail == old(rx.avail) && OnlyGivenUp(fd)
    {
      NothingGivenUp(fd);
      hide Half.Even, Account.Settled, OnlyGivenUp;
      if fd !in sockets {
        return -1;
      }
      if enabled && fd !in tx.queues {
        if !calloc {
          return -1;
        }
        AddBoth(fd);
        NothingGivenUp(fd);
      } else if !enabled && fd in tx.queues {
        Cleanup(fd);
      }
      ret := 0;
    }

    method NotifyBoth()
      requires Valid()
      modifies tx`emit, tx`notified, rx`emit, rx`notified
      ensures Valid() && tx.notified == |tx.used| && rx.notified == |rx.used|
    {
      tx.Notify();
      rx.Notify();
    }

    /** notify_client: the transmit queue's notification is rung, for both rings, if anything was put on
        either since it last was. */
    method NotifyClient()
      requires Valid()
      modifies this`rung, tx`emit, tx`notified, rx`emit, rx`notified
      ensures Valid() && tx.notified == |tx.used| && rx.notified == |rx.used|
      ensures rung == old(rung) + if old(tx.notified < |tx.used| || rx.notified < |rx.used|) then 1 else 0
    {
      if tx.emit || rx.emit {
        NotifyBoth();
        rung := rung + 1;
      }
    }
  }
}
