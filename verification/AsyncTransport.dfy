/** One ring of the asynchronous socket transport, with the pending queues it feeds. */
module AsyncTransport {
  import opened Basics
  import opened Channels
  import opened PendingQueue

  const MAX_LEN: nat := 1400

  /** An entry of the available ring. */
  datatype Offer = Offer(msg: Msg, handle: nat)

  /** What the client reads in a message: its done_len and its buffer. */
  datatype Readout = Readout(doneLen: int, buf: seq<Byte>)

  /** The messages on the used ring, what the account says of them, and what could be read in them. */
  datatype Endings = Endings(returned: seq<Msg>, used: seq<Tag<Done>>, notes: map<Msg, Readout>)

  /** tx_virtqueue or rx_virtqueue as the server sees it, and the queue of that direction of every
      socket that is set up for asynchronous use. */
  class Half {
    const dir: Direction
    var avail: seq<Offer>
    var used: seq<(nat, nat)>
    var queues: map<int, Queue>
    var emit: bool
    ghost var msgs: set<Msg>
    ghost var account: Account
    ghost var returned: seq<Msg>
    ghost var notified: nat
    ghost var wire: map<int, seq<Byte>>
    /** What the stack has answered, per socket. */
    ghost var heard: map<int, seq<int>>
    /** What the entries of the available ring offer, and everything the client has ever offered. */
    ghost var offers: seq<Tag<Given>>
    ghost var submitted: seq<Tag<Given>>

    constructor (dir: Direction)
      ensures Valid() && Logged() && this.dir == dir && avail == [] && queues == map[] && msgs == {}
      ensures account == Account(dir, map[], [], []) && wire == map[] && heard == map[] && submitted == []
    {
      this.dir := dir;
      avail, used, queues, emit := [], [], map[], false;
      msgs, account, returned, notified := {}, Account(dir, map[], [], []), [], 0;
      wire, heard, offers, submitted := map[], map[], [], [];
    }

    /** The used ring is what the account says was finished, and the client is owed a notification exactly
        if something was put there since the last one. */
    ghost predicate UsedOk()
      reads `used, `account, `returned, `emit, `notified
    {
      match account
      case Account(_, _, _, done) =>
      && |used| == |done| == |returned|
      && (forall i :: 0 <= i < |used| ==>
          used[i] == (done[i].what.given.handle, done[i].what.reported))
      && notified <= |used| && (notified < |used| <==> emit)
    }

    /** A message on its way: the client does not touch it. */
    ghost predicate InFlight(m: Msg)
      reads m
    {
      m.place == Available(dir) || (m.place.Pending? && m.place.dir == dir)
    }

    ghost predicate Offered(m: Msg)
      reads m
    {
      m.place == Available(dir) && m.doneLen == 0 && 0 < |m.buf| <= MAX_LEN
    }

    ghost predicate AvailOk()
      reads `avail, `offers, `msgs, msgs
    {
      && (forall m :: m in msgs ==> InFlight(m))
      && (forall i :: 0 <= i < |avail| ==> avail[i].msg in msgs && Offered(avail[i].msg))
      && (forall i, j :: 0 <= i < j < |avail| ==> avail[i].msg != avail[j].msg)
      && |offers| == |avail|
      && (forall i :: 0 <= i < |avail| ==>
          offers[i] == Tag(avail[i].msg.fd, Given(avail[i].handle, avail[i].msg.buf)))
    }

    /** What was taken is what the client offered first, and the rest is on the ring, in order. */
    ghost predicate Logged()
      reads `submitted, `account, `offers
    {
      submitted == account.taken + offers
    }

    ghost predicate QueueOk(fd: int)
      requires fd in queues
      reads `queues, `msgs, queues.Values, msgs
    {
      var q := queues[fd];
      && (forall m :: m in q.msgs ==> m in msgs)
      && q.Valid()
    }

    ghost predicate QueuesOk()
      reads `queues, `msgs, queues.Values, msgs
    {
      && (forall fd {:trigger queues[fd]} :: fd in queues ==> queues[fd].fd == fd && queues[fd].dir == dir)
      && (forall fd {:trigger QueueOk(fd)} :: fd in queues ==> QueueOk(fd))
    }

    /** The queues of the sockets hold their pending messages. */
    ghost predicate Matched()
      reads `queues, `account, queues.Values
    {
      forall fd {:trigger account.On(fd)} ::
        account.On(fd).queue == if fd in queues then queues[fd].items else []
    }

    /** All of the invariant but what has crossed the wire. */
    ghost predicate Sound()
      reads `avail, `offers, `used, `returned, `emit, `notified, `account, `queues, `msgs, queues.Values, msgs
    {
      && account.dir == dir && account.Ok()
      && UsedOk() && AvailOk() && QueuesOk() && Matched()
    }

    /** The bytes of a socket that have crossed over between the server and the stack. */
    ghost function OnWire(fd: int): seq<Byte>
      reads `wire
    {
      if fd in wire then wire[fd] else []
    }

    ghost function HeardOn(fd: int): seq<int>
      reads `heard
    {
      if fd in heard then heard[fd] else []
    }

    /** Exactly the bytes the account knows of have crossed the wire, and exactly the answers it knows of
        have been given. */
    ghost predicate Even()
      reads `wire, `heard, `account
    {
      forall f {:trigger account.On(f)} ::
        OnWire(f) == account.On(f).Through() && HeardOn(f) == account.On(f).Heard()
    }

    /** For fd the given bytes have crossed the wire and the stack has given an answer that are not in the
        account yet. */
    ghost predicate Ahead(fd: int, data: seq<Byte>, heard: seq<int>)
      reads `wire, `heard, `account
    {
      forall f {:trigger account.On(f)} ::
        && OnWire(f) == account.On(f).Through() + (if f == fd then data else [])
        && HeardOn(f) == account.On(f).Heard() + (if f == fd then heard else [])
    }

    ghost predicate Valid()
      reads `avail, `offers, `used, `returned, `emit, `notified, `account, `queues, `msgs, `wire, `heard,
        queues.Values, msgs
    {
      Sound() && Even()
    }

    /** The message has been taken from the available ring. */
    ghost predicate InHand(m: Msg)
      reads this, m
    {
      m in msgs && Offered(m) && forall i :: 0 <= i < |avail| ==> avail[i].msg != m
    }

    /** The buffer of a message that ended so: it begins with the bytes that went through, and what was to be
        sent is as it was. */
    ghost predicate Holds(buf: seq<Byte>, d: Done) {
      d.data <= buf && |buf| == |d.given.body| && (dir == Tx ==> buf == d.given.body)
    }

    /** The client finds in the message what became of it, and in its buffer the bytes that were received. */
    ghost predicate Tells(i: nat)
      reads `account, `returned, returned`place, returned`doneLen, returned`buf
      requires i < |returned| == |account.used|
    {
      var d := account.used[i].what;
      && returned[i].place == Returned && returned[i].doneLen == (if d.how.Failed? then -1 else |d.data|)
      && Holds(returned[i].buf, d)
    }

    /** An offer joins the available ring. */
    twostate lemma AvailGrown(msg: Msg)
      requires old(AvailOk()) && Offered(msg) && !old(msg.place.Available?) && !old(msg.place.Pending?)
      requires old(avail) < avail && |avail| == old(|avail|) + 1 && avail[old(|avail|)].msg == msg
      requires offers == old(offers) + [Tag(msg.fd, Given(avail[old(|avail|)].handle, msg.buf))]
      requires msgs == old(msgs) + {msg}
      requires forall m :: m in old(msgs) && m != msg ==> unchanged(m)
      ensures AvailOk()
    {
      assert forall i :: 0 <= i < |avail| - 1 ==> avail[i] == old(avail)[i] && avail[i].msg in old(msgs);
    }

    twostate lemma Submitted(msg: Msg)
      requires old(Valid()) && Offered(msg) && !old(msg.place.Available?) && !old(msg.place.Pending?)
      requires old(avail) < avail && |avail| == old(|avail|) + 1 && avail[old(|avail|)].msg == msg
      requires offers == old(offers) + [Tag(msg.fd, Given(avail[old(|avail|)].handle, msg.buf))]
      requires msgs == old(msgs) + {msg}
      requires unchanged(`used) && unchanged(`account) && unchanged(`returned) && unchanged(`emit)
      requires unchanged(`notified) && unchanged(`queues) && unchanged(`wire) && unchanged(`heard)
      requires forall m :: m in old(msgs) && m != msg ==> unchanged(m)
      requires forall fd :: fd in queues ==> unchanged(queues[fd])
      ensures Valid()
    {
      QueuesKept();
      AvailGrown(msg);
    }

    /** The client fills a message that is not on its way and puts it on the available ring. */
    method Submit(msg: Msg, fd: int, buf: seq<Byte>, handle: nat)
      requires Valid() && !msg.place.Available? && !msg.place.Pending? && 0 < |buf| <= MAX_LEN
      modifies this`avail, this`offers, this`msgs, this`submitted, msg`fd, msg`buf, msg`doneLen, msg`place
      ensures submitted == old(submitted) + [Tag(fd, Given(handle, buf))]
      ensures old(Logged()) ==> Logged()
      ensures old(msg.place) != Returned ==> Told()
      ensures Valid() && avail == old(avail) + [Offer(msg, handle)] && msgs == old(msgs) + {msg}
      ensures msg.fd == fd && msg.buf == buf
    {
      ToldNow();
      hide ToldSince;
      msg.fd := fd;
      msg.buf := buf;
      msg.doneLen := 0;
      msg.place := Available(dir);
      avail, msgs := avail + [Offer(msg, handle)], msgs + {msg};
      offers, submitted := offers + [Tag(fd, Given(handle, buf))], submitted + [Tag(fd, Given(handle, buf))];
      Submitted(msg);
      if old(msg.place) != Returned {
        ToldKept(old(SoFar()));
      }
    }

    /** The client is told of everything on the used ring. */
    method Notify()
      requires Valid()
      modifies this`emit, this`notified
      ensures Valid() && !emit && notified == |used|
    {
      emit, notified := false, |used|;
    }

    /** virtqueue_get_available_buf. */
    method GetAvailable() returns (offer: Offer)
      requires Sound() && avail != []
      modifies this`avail, this`offers
      ensures offer == old(avail)[0] && avail == old(avail)[1..] && |old(offers)| > 0 && offers == old(offers)[1..]
      ensures Tag(offer.msg.fd, Given(offer.handle, offer.msg.buf)) == old(offers)[0]
      ensures Sound() && InHand(offer.msg)
      ensures old(Even()) ==> Even()
    {
      offer := avail[0];
      avail, offers := avail[1..], offers[1..];
      QueuesKept();
    }

    /** tx_complete and rx_complete: a handle goes on the used ring. */
    method Answer(handle: nat, len: nat)
      modifies this`used, this`emit
      ensures used == old(used) + [(handle, len)] && emit
    {
      used := used + [(handle, len)];
      emit := true;
    }

    /** How the used ring stands, and what the client may have read in its messages. */
    ghost function SoFar(): Endings
      reads `account, `returned, returned`place, returned`doneLen, returned`buf
    {
      Endings(returned, account.used, map m | m in returned && m.place == Returned :: Readout(m.doneLen, m.buf))
    }

    /** Every message that has ended since the used ring stood so tells what became of it, and what could
        be read in a message then still stands there. */
    ghost predicate ToldSince(was: Endings)
      reads `account, `returned, returned`place, returned`doneLen, returned`buf
    {
      && |returned| == |account.used| && |was.returned| == |was.used| <= |returned|
      && returned[..|was.returned|] == was.returned && account.used[..|was.used|] == was.used
      && (forall i :: |was.returned| <= i < |returned| ==> Tells(i))
      && forall m :: m in was.notes ==>
           m in returned && m.place == Returned && Readout(m.doneLen, m.buf) == was.notes[m]
    }

    twostate predicate Told()
      reads `account, `returned, returned`place, returned`doneLen, returned`buf
    {
      ToldSince(old(SoFar()))
    }

    lemma EvenAhead(fd: int)
      requires Even()
      ensures Ahead(fd, [], [])
    {
      forall f
        ensures OnWire(f) == account.On(f).Through() + if f == fd then [] else []
        ensures HeardOn(f) == account.On(f).Heard() + if f == fd then [] else []
      {
        NothingAdded(account.On(f).Through(), f == fd);
        NothingAdded(account.On(f).Heard(), f == fd);
      }
    }

    lemma NothingAdded<T>(s: seq<T>, here: bool)
      ensures s + (if here then [] else []) == s
    {}

    twostate lemma Crossed(fd: int, new data: seq<Byte>, new ret: int)
      requires old(Even()) && account == old(account)
      requires OnWire(fd) == old(OnWire(fd)) + data && forall f :: f != fd ==> OnWire(f) == old(OnWire(f))
      requires HeardOn(fd) == old(HeardOn(fd)) + [ret] && forall f :: f != fd ==> HeardOn(f) == old(HeardOn(f))
      ensures Ahead(fd, data, [ret])
    {
      forall f
        ensures OnWire(f) == account.On(f).Through() + if f == fd then data else []
        ensures HeardOn(f) == account.On(f).Heard() + if f == fd then [ret] else []
      {
        assert old(OnWire(f)) == account.On(f).Through() && old(HeardOn(f)) == account.On(f).Heard();
        assert f != fd ==> OnWire(f) + [] == OnWire(f) && HeardOn(f) + [] == HeardOn(f);
      }
    }

    /** The stack answers, and bytes cross over. */
    ghost method Cross(fd: int, data: seq<Byte>, ret: int)
      requires Valid()
      modifies this`wire, this`heard
      ensures Sound() && Ahead(fd, data, [ret]) && OnWire(fd) == old(OnWire(fd)) + data
      ensures heard == old(heard)[fd := old(HeardOn(fd)) + [ret]]
    {
      wire := wire[fd := OnWire(fd) + data];
      heard := heard[fd := HeardOn(fd) + [ret]];
      Crossed(fd, data, ret);
    }

    /** pico_socket_send and pico_socket_sendto: the stack takes some of the buffer, from the given place
        on, or refuses with -1. */
    method Send(fd: int, buf: seq<Byte>, from: nat) returns (ret: int, ghost data: seq<Byte>)
      requires Valid() && from <= |buf|
      modifies this`wire, this`heard
      ensures -1 <= ret <= |buf| - from && heard == old(heard)[fd := old(HeardOn(fd)) + [ret]]
      ensures data == if ret == -1 then [] else buf[from..from + ret]
      ensures OnWire(fd) == old(OnWire(fd)) + data && HeardOn(fd) == old(HeardOn(fd)) + [ret]
      ensures Sound() && Ahead(fd, data, [ret])
    {
      ret := *;
      if ret < 0 || ret > |buf| - from {
        ret := -1;
      }
      data := if ret == -1 then [] else buf[from..from + ret];
      Cross(fd, data, ret);
    }

    /** Filling in a buffer past what is through changes nothing the queues and the ring say. */
    twostate lemma Filled(msg: Msg)
      requires old(Sound()) && dir == Rx && 0 <= msg.doneLen <= |old(msg.buf)| == |msg.buf|
      requires msg.buf[..msg.doneLen] == old(msg.buf)[..msg.doneLen]
      requires unchanged(`queues) && unchanged(`msgs) && unchanged(`avail) && unchanged(`offers)
      requires forall i :: 0 <= i < |avail| ==> avail[i].msg != msg
      requires forall fd :: fd in queues ==> unchanged(queues[fd])
      requires forall m :: m in msgs && m != msg ==> unchanged(m)
      requires unchanged(msg`doneLen) && unchanged(msg`fd) && unchanged(msg`next) && unchanged(msg`cookie)
      requires unchanged(msg`place)
      ensures QueuesOk() && AvailOk()
    {
      forall fd | fd in queues
        ensures QueueOk(fd)
      {
        assert old(QueueOk(fd)) && queues[fd].dir == dir;
        var q := queues[fd];
        forall i | 0 <= i < |q.msgs|
          ensures q.Carries(q.msgs[i], q.items[i]) && q.msgs[i].next == old(q.msgs[i].next)
        {
          var m := q.msgs[i];
          assert old(q.Carries(m, q.items[i])) && m in q.msgs && m in msgs;
          if m != msg {
            assert unchanged(m);
          }
        }
      }
    }

    /** Filling in a message that has not come back changes nothing in those that have. */
    twostate lemma NotReturned(msg: Msg)
      requires unchanged(`account) && unchanged(`returned) && old(msg.place) == msg.place != Returned
      requires forall m :: m in returned && m != msg ==> unchanged(m)
      ensures SoFar() == old(SoFar())
    {}

    /** pico_socket_recv and pico_socket_recvfrom: the stack fills in some of the buffer, from done_len
        on, or fails with -1. */
    method Recv(fd: int, msg: Msg) returns (ret: int, ghost data: seq<Byte>)
      requires Valid() && dir == Rx && 0 <= msg.doneLen <= |msg.buf| && msg.place != Returned
      requires forall i :: 0 <= i < |avail| ==> avail[i].msg != msg
      modifies this`wire, this`heard, msg`buf
      ensures SoFar() == old(SoFar())
      ensures -1 <= ret <= |msg.buf| - msg.doneLen && heard == old(heard)[fd := old(HeardOn(fd)) + [ret]]
      ensures |msg.buf| == |old(msg.buf)| && msg.buf[..msg.doneLen] == old(msg.buf)[..msg.doneLen]
      ensures data == if ret == -1 then [] else msg.buf[msg.doneLen..msg.doneLen + ret]
      ensures OnWire(fd) == old(OnWire(fd)) + data && HeardOn(fd) == old(HeardOn(fd)) + [ret]
      ensures Sound() && Ahead(fd, data, [ret]) && (ret == -1 ==> msg.buf == old(msg.buf))
    {
      ret, data := *, [];
      var bytes: seq<Byte> := *;
      if 0 <= ret <= |msg.buf| - msg.doneLen && |bytes| == ret {
        data := bytes;
      } else {
        ret := -1;
      }
      Cross(fd, data, ret);
      if ret >= 0 {
        msg.buf := msg.buf[..msg.doneLen] + bytes + msg.buf[msg.doneLen + ret..];
      }
      Filled(msg);
      NotReturned(msg);
    }

    /** A queue whose messages are not touched stays as it is. */
    twostate lemma QueueKept(fd: int)
      requires fd in queues && old(fd in queues) && queues[fd] == old(queues[fd]) && unchanged(queues[fd])
      requires queues[fd].fd == fd && queues[fd].dir == dir
      requires old(QueueOk(fd))
      requires forall m :: m in old(msgs) && old(m.place) == Pending(dir, fd) ==> m in msgs && unchanged(m)
      ensures QueueOk(fd)
    {
      var q := queues[fd];
      forall m | m in q.msgs
        ensures m in msgs && unchanged(m)
      {
        var i :| 0 <= i < |q.msgs| && q.msgs[i] == m;
        assert old(q.Carries(q.msgs[i], q.items[i]));
      }
    }

    twostate lemma QueuesKept()
      requires old(QueuesOk()) && queues == old(queues)
      requires forall m :: m in old(msgs) && old(m.place) != Available(dir) ==> m in msgs && unchanged(m)
      requires forall fd :: fd in queues ==> unchanged(queues[fd])
      ensures QueuesOk()
    {
      forall fd | fd in queues
        ensures QueueOk(fd)
      {
        QueueKept(fd);
      }
    }

    /** What touches one queue and its messages only leaves all others as they are. */
    twostate lemma OthersKept(fd: int)
      requires old(QueuesOk()) && queues == old(queues) && fd in queues && QueueOk(fd)
      requires forall m :: m in old(msgs) && old(m.place) != Available(dir) && old(m.place) != Pending(dir, fd) ==>
        m in msgs && unchanged(m)
      requires forall f {:trigger queues[f]} :: f in queues && f != fd ==> unchanged(queues[f])
      ensures QueuesOk()
    {
      forall f | f in queues
        ensures QueueOk(f)
      {
        if f != fd {
          QueueKept(f);
        }
      }
    }

    /** What touches one queue and its account only leaves the others matched. */
    twostate lemma MatchedOn(fd: int)
      requires old(Matched()) && queues == old(queues) && fd in queues && account.On(fd).queue == queues[fd].items
      requires forall f {:trigger queues[f]} :: f in queues && f != fd ==> unchanged(queues[f])
      requires forall f {:trigger account.On(f)} :: f != fd ==> account.On(f) == old(account).On(f)
      ensures Matched()
    {}

    /** The available ring stays as it is if at most a message that is not on it was touched. */
    twostate lemma AvailKept(msg: Msg)
      requires old(AvailOk()) && avail == old(avail) && offers == old(offers) && old(msgs) - {msg} <= msgs <= old(msgs)
      requires forall i :: 0 <= i < |avail| ==> avail[i].msg != msg
      requires msg in msgs ==> InFlight(msg)
      requires forall m :: m in msgs && m != msg ==>
        m.place == old(m.place) && m.doneLen == old(m.doneLen) && m.buf == old(m.buf) && m.fd == old(m.fd)
      ensures AvailOk()
    {}

    /** What was told before one more step is still told after it. */
    twostate lemma ToldStill(was: Endings)
      requires old(ToldSince(was)) && Told()
      ensures ToldSince(was)
    {
      ghost var n := |old(returned)|;
      assert returned[..|was.returned|] == returned[..n][..|was.returned|];
      assert account.used[..|was.used|] == account.used[..n][..|was.used|];
      forall i | |was.returned| <= i < |returned|
        ensures Tells(i)
      {
        if i < n {
          assert old(Tells(i)) && returned[i] == old(returned)[i] && returned[i] in old(SoFar()).notes;
          assert account.used[i] == old(account).used[i];
        }
      }
      forall m | m in was.notes
        ensures m in returned && m.place == Returned && Readout(m.doneLen, m.buf) == was.notes[m]
      {
        assert m in old(SoFar()).notes;
      }
    }

    /** What was told before is still told after a step that touches no message that has come back. */
    twostate lemma ToldKept(was: Endings)
      requires old(ToldSince(was)) && unchanged(`account) && unchanged(`returned)
      requires forall m :: m in returned && old(m.place) == Returned ==> unchanged(m)
      ensures ToldSince(was)
    {
      forall i | |was.returned| <= i < |returned|
        ensures Tells(i)
      {
        assert old(Tells(i)) && returned[i] in returned;
      }
    }

    /** No message has ended. */
    twostate lemma ToldNone(msg: Msg)
      requires |returned| == |account.used| && returned == old(returned) && account.used == old(account).used
      requires old(InFlight(msg))
      requires forall m :: m in returned && m != msg ==>
        m.place == old(m.place) && m.doneLen == old(m.doneLen) && m.buf == old(m.buf)
      ensures Told()
    {}

    /** One message that was on its way has ended. */
    twostate lemma ToldOne(msg: Msg, new d: Tag<Done>)
      requires old(|returned| == |account.used|) && returned == old(returned) + [msg]
      requires account.used == old(account).used + [d]
      requires msg.place == Returned && msg.doneLen == (if d.what.how.Failed? then -1 else |d.what.data|)
      requires Holds(msg.buf, d.what) && old(InFlight(msg))
      requires forall m :: m in old(returned) && m != msg ==> unchanged(m)
      ensures Told()
    {}

    /** What was ahead of the account is in it now. */
    twostate lemma NowEven(fd: int, new data: seq<Byte>, new heard: seq<int>)
      requires old(Ahead(fd, data, heard)) && unchanged(`wire) && unchanged(`heard)
      requires Gains(old(account), account, fd, data, heard)
      ensures Even()
    {}

    /** One more entry is on the used ring. */
    twostate lemma UsedMore(msg: Msg, new d: Tag<Done>)
      requires old(UsedOk()) && account.used == old(account).used + [d] && returned == old(returned) + [msg]
      requires used == old(used) + [(d.what.given.handle, d.what.reported)] && emit && unchanged(`notified)
      ensures UsedOk()
    {}

    /** The account of a message that ends at once. */
    twostate lemma EndedAtOnce(fd: int, new given: Given, new e: Ending)
      requires old(account.Ok()) && old(Ahead(fd, e.data, e.heard)) && unchanged(`wire) && unchanged(`heard)
      requires old(account.On(fd).queue) == [] && DoneOk(e.Of(given)) && |e.data| <= |given.body|
      requires old(account).dir == Tx ==> e.data <= given.body && !e.how.Datagram?
      requires account == old(account).Take(fd, given).Complete(fd, e)
      ensures account.Ok() && Even() && account.used == old(account).used + [Tag(fd, e.Of(given))]
      ensures forall f :: account.On(f).queue == old(account).On(f).queue
    {
      EndOk(old(account), fd, given, e);
      NowEven(fd, e.data, e.heard);
    }

    twostate lemma SameQueues()
      requires old(Matched()) && queues == old(queues) && forall fd :: fd in queues ==> unchanged(queues[fd])
      requires forall f :: account.On(f).queue == old(account).On(f).queue
      ensures Matched()
    {}

    /** A message in hand has gone to the used ring, and no queue has changed. */
    twostate lemma StillSound(msg: Msg, new d: Tag<Done>)
      requires old(Sound()) && old(InHand(msg)) && account.Ok() && account.dir == old(account).dir
      requires account.used == old(account).used + [d] && returned == old(returned) + [msg]
      requires used == old(used) + [(d.what.given.handle, d.what.reported)] && emit && unchanged(`notified)
      requires forall f :: account.On(f).queue == old(account).On(f).queue
      requires unchanged(`avail) && unchanged(`offers) && unchanged(`queues) && msgs == old(msgs) - {msg}
      requires forall m :: m in msgs ==> unchanged(m)
      requires forall f :: f in queues ==> unchanged(queues[f])
      ensures Sound()
    {
      UsedMore(msg, d);
      QueuesKept();
      AvailKept(msg);
      SameQueues();
    }

    twostate lemma Finished(msg: Msg, new given: Given, new e: Ending)
      requires old(Sound()) && old(InHand(msg)) && old(Ahead(msg.fd, e.data, e.heard))
      requires old(account.On(msg.fd).queue) == [] && DoneOk(e.Of(given)) && msg.fd == old(msg.fd)
      requires |e.data| <= |given.body| && (dir == Tx ==> e.data <= given.body && !e.how.Datagram?)
      requires account == old(account).Take(msg.fd, given).Complete(msg.fd, e)
      requires used == old(used) + [(given.handle, e.reported)] && emit && returned == old(returned) + [msg]
      requires unchanged(`notified) && unchanged(`wire) && unchanged(`heard)
      requires unchanged(`avail) && unchanged(`offers) && unchanged(`queues)
      requires msgs == old(msgs) - {msg}
      requires msg.place == Returned && msg.doneLen == (if e.how.Failed? then -1 else |e.data|)
      requires Holds(msg.buf, e.Of(given))
      requires forall m :: m in msgs ==> unchanged(m)
      requires forall m :: m in old(returned) && m != msg ==> unchanged(m)
      requires forall f :: f in queues ==> unchanged(queues[f])
      ensures Valid() && Told()
    {
      EndedAtOnce(msg.fd, given, e);
      StillSound(msg, Tag(msg.fd, e.Of(given)));
      ToldOne(msg, Tag(msg.fd, e.Of(given)));
    }

    /** A message in hand ends at once. */
    method Finish(msg: Msg, handle: nat, doneLen: int, len: nat, ghost given: Given, ghost e: Ending)
      requires Sound() && InHand(msg) && Ahead(msg.fd, e.data, e.heard) && account.On(msg.fd).queue == []
      requires given.handle == handle && e.reported == len && DoneOk(e.Of(given))
      requires |e.data| <= |given.body| && (dir == Tx ==> e.data <= given.body && !e.how.Datagram?)
      requires doneLen == (if e.how.Failed? then -1 else |e.data|) && Holds(msg.buf, e.Of(given))
      modifies this`used, this`emit, this`account, this`returned, this`msgs, msg`doneLen, msg`place
      ensures Valid() && Told() && msgs == old(msgs) - {msg}
      ensures account == old(account).Take(msg.fd, given).Complete(msg.fd, e)
    {
      msg.doneLen := doneLen;
      Answer(handle, len);
      msg.place := Returned;
      msgs, returned := msgs - {msg}, returned + [msg];
      account := account.Take(msg.fd, given).Complete(msg.fd, e);
      Finished(msg, given, e);
    }

    /** The queue states that would abort the server do not occur: both ends are null, or neither is. */
    lemma Consistent(fd: int)
      requires Sound() && fd in queues
      ensures var q := queues[fd];
        && (q.head == null <==> q.end == null) && (q.head == null <==> q.items == [])
        && (q.head != null ==> q.head in msgs && q.end in msgs)
    {
      assert QueueOk(fd);
      var q := queues[fd];
      assert q.msgs != [] ==> q.msgs[0] in q.msgs && q.msgs[|q.msgs| - 1] in q.msgs;
    }

    lemma First(fd: int)
      requires Sound() && fd in queues && queues[fd].head != null
      ensures var q := queues[fd];
        && q.end != null && q.items != [] && 0 <= q.head.doneLen < |q.head.buf| && q.head in msgs
        && q.head.doneLen == |q.items[0].data| && q.head.place == Pending(dir, fd)
    {
      assert QueueOk(fd);
      var q := queues[fd];
      assert q.Carries(q.msgs[0], q.items[0]);
    }

    lemma ToldNow()
      requires Sound()
      ensures ToldSince(SoFar())
    {}

    lemma NothingOffered()
      requires Sound()
      ensures |offers| == |avail|
    {}

    lemma PendingNotOffered(msg: Msg)
      requires Sound() && msg.place.Pending?
      ensures forall i :: 0 <= i < |avail| ==> avail[i].msg != msg
    {}

    /** The bytes begun are those of the message at the head. */
    lemma FirstBegun(fd: int)
      requires Sound()
      ensures var queue := account.On(fd).queue;
        (if queue == [] then [] else queue[0].data) == if fd in queues then queues[fd].Begun() else []
    {
      if fd in queues && queues[fd].head != null {
        First(fd);
        assert QueueOk(fd);
        assert queues[fd].Carries(queues[fd].msgs[0], queues[fd].items[0]);
      } else {
        NonePending(fd);
      }
    }

    lemma FirstReady(fd: int)
      requires Sound() && fd in queues && queues[fd].head != null
      ensures var q := queues[fd];
        && q.end != null && 0 <= q.head.doneLen < |q.head.buf| && q.head in msgs && q.head.place.Pending?
        && account.dir == dir && account.On(fd).Ok() && (account.On(fd).Unbegun() <==> q.head.doneLen == 0)
    {
      First(fd);
      assert account.SocketOk(fd);
    }

    lemma HeadIff(fd: int)
      requires Sound()
      ensures account.On(fd).queue == [] <==> fd !in queues || queues[fd].head == null
    {
      assert fd in queues ==> QueueOk(fd);
    }

    lemma NonePending(fd: int)
      requires Sound() && (fd in queues ==> queues[fd].head == null)
      ensures account.On(fd).queue == []
    {
      assert fd in queues ==> QueueOk(fd);
    }

    /** A message in hand is given up because the stack refuses it. */
    method GiveBack(msg: Msg, handle: nat, ghost given: Given)
      requires Sound() && InHand(msg) && Ahead(msg.fd, [], [-1]) && account.On(msg.fd).queue == []
      requires given.handle == handle && |given.body| == |msg.buf| && (dir == Tx ==> given.body == msg.buf)
      modifies this`used, this`emit, this`account, this`returned, this`msgs, msg`doneLen, msg`place
      ensures Valid() && Told() && msgs == old(msgs) - {msg}
      ensures account == old(account).Take(msg.fd, given).Complete(msg.fd, REFUSED)
    {
      RefusedOk(given);
      Finish(msg, handle, -1, 0, given, REFUSED);
    }

    /** A message in hand is answered with the first n bytes, which is as much as it may wait for. */
    method Deliver(msg: Msg, handle: nat, n: nat, ghost given: Given, ghost data: seq<Byte>, ghost how: How)
      requires Sound() && InHand(msg) && Ahead(msg.fd, data, [n]) && account.On(msg.fd).queue == []
      requires given.handle == handle && 0 < n == |data| <= |given.body| == |msg.buf| && data <= msg.buf
      requires how == Datagram(false) || (how == Whole && n == |given.body|)
      requires dir == Tx ==> given.body == msg.buf && how == Whole
      modifies this`used, this`emit, this`account, this`returned, this`msgs, msg`doneLen, msg`place
      ensures Valid() && Told() && msgs == old(msgs) - {msg}
      ensures account == old(account).Take(msg.fd, given).Complete(msg.fd, Ending(data, [n], how, n))
    {
      AtOnceOk(given, data, how);
      Finish(msg, handle, n, n, given, Ending(data, [n], how, n));
    }

    /** A message in hand whose socket has no queue is given up at once. */
    method Refuse(msg: Msg, handle: nat)
      requires Valid() && InHand(msg) && msg.fd !in queues
      modifies this`used, this`emit, this`account, this`returned, this`msgs, msg`doneLen, msg`place
      ensures Valid() && Told() && msgs == old(msgs) - {msg}
      ensures account == old(account).Take(msg.fd, Given(handle, msg.buf)).Complete(msg.fd, UNSERVED)
    {
      NonePending(msg.fd);
      EvenAhead(msg.fd);
      UnservedOk(Given(handle, msg.buf));
      assert Holds(msg.buf, UNSERVED.Of(Given(handle, msg.buf)));
      hide Half.Sound, Half.Even, Half.Ahead, Holds;
      Finish(msg, handle, -1, 0, Given(handle, msg.buf), UNSERVED);
    }

    twostate lemma Started(new fd: int, msg: Msg, new given: Given, new data: seq<Byte>)
      requires old(Sound()) && old(InHand(msg)) && old(Ahead(fd, data, [|data|])) && msgs == old(msgs)
      requires unchanged(`used) && unchanged(`returned) && unchanged(`emit) && unchanged(`notified)
      requires unchanged(`wire) && unchanged(`heard)
      requires queues == old(queues) && fd in queues && queues[fd].Valid()
      requires avail == old(avail) && offers == old(offers)
      requires old(queues[fd].items) == [] && |data| <= |given.body| && (dir == Tx ==> data <= given.body)
      requires account == old(account).Take(fd, given).Move(fd, data, [|data|]) && msg.place == Pending(dir, fd)
      requires queues[fd].msgs == [msg] && queues[fd].items == [Item(given, data, [|data|])]
      requires forall m :: m in old(msgs) && m != msg ==> unchanged(m)
      requires forall m :: m in old(returned) && m != msg ==> unchanged(m)
      requires forall f {:trigger queues[f]} :: f in queues && f != fd ==> unchanged(queues[f])
      ensures Valid() && Told()
    {
      BeginOk(old(account), fd, given, data, [|data|]);
      NowEven(fd, data, [|data|]);
      MatchedOn(fd);
      assert old(QueueOk(fd));
      OthersKept(fd);
      AvailKept(msg);
      ToldNone(msg);
    }

    /** A message in hand finds its socket's queue empty, and not all of it goes through. */
    method Start(msg: Msg, handle: nat, doneLen: nat, ghost given: Given)
      requires Sound() && InHand(msg) && doneLen < |msg.buf| && Ahead(msg.fd, msg.buf[..doneLen], [doneLen])
      requires msg.fd in queues && queues[msg.fd].head == null
      requires given.handle == handle && |given.body| == |msg.buf| && (dir == Tx ==> given.body == msg.buf)
      modifies this`account, queues[msg.fd], msg`doneLen, msg`next, msg`cookie, msg`place
      ensures Valid() && Told()
      ensures account == old(account).Take(msg.fd, given).Move(msg.fd, msg.buf[..doneLen], [doneLen])
    {
      var fd := msg.fd;
      assert QueueOk(fd);
      queues[fd].StartWith(msg, handle, doneLen, given);
      account := account.Take(fd, given).Move(fd, msg.buf[..doneLen], [doneLen]);
      Started(fd, msg, given, msg.buf[..doneLen]);
    }

    /** A queue has grown at its end. */
    twostate lemma Grown(new fd: int, msg: Msg, new last: Msg)
      requires old(QueuesOk()) && old(AvailOk()) && queues == old(queues) && fd in queues && queues[fd].Valid()
      requires avail == old(avail) && offers == old(offers)
      requires msgs == old(msgs) && msg in msgs && msg.place == Pending(dir, fd)
      requires old(Offered(msg))
      requires forall i :: 0 <= i < |avail| ==> avail[i].msg != msg
      requires queues[fd].msgs == old(queues[fd].msgs) + [msg] && last == old(queues[fd].end)
      requires forall m :: m in msgs && m != msg && m != last ==> unchanged(m)
      requires old(last.place) == last.place && old(last.doneLen) == last.doneLen && old(last.buf) == last.buf
      requires old(last.fd) == last.fd
      requires forall f {:trigger queues[f]} :: f in queues && f != fd ==> unchanged(queues[f])
      ensures QueuesOk() && AvailOk()
    {
      assert old(QueueOk(fd));
      ghost var n := |old(queues[fd].msgs)|;
      assert n > 0 && old(queues[fd].Carries(queues[fd].msgs[n - 1], queues[fd].items[n - 1]));
      assert QueueOk(fd);
      OthersKept(fd);
      AvailKept(msg);
    }

    /** The account of a message that joins others, and what else is as it was then. */
    twostate lemma Waits(fd: int, new given: Given)
      requires old(account.Ok()) && old(UsedOk()) && old(Even())
      requires unchanged(`used) && unchanged(`returned) && unchanged(`emit) && unchanged(`notified)
      requires unchanged(`wire) && unchanged(`heard)
      requires account == old(account).Take(fd, given)
      ensures account.Ok() && UsedOk() && Even()
    {
      TakeOk(old(account), fd, given);
      forall f
        ensures OnWire(f) == account.On(f).Through() && HeardOn(f) == account.On(f).Heard()
      {
        assert old(account).On(f).Through() + [] == old(account).On(f).Through();
        assert old(account).On(f).Heard() + [] == old(account).On(f).Heard();
      }
    }

    lemma Distinct(fd: int)
      requires Sound() && fd in queues
      ensures forall f :: f in queues && f != fd ==> queues[f] != queues[fd]
    {}

    twostate lemma Enqueued(new fd: int, msg: Msg, new last: Msg, new given: Given)
      requires old(Valid()) && old(InHand(msg)) && msgs == old(msgs)
      requires unchanged(`used) && unchanged(`returned) && unchanged(`emit) && unchanged(`notified)
      requires unchanged(`wire) && unchanged(`heard)
      requires queues == old(queues) && fd in queues && queues[fd].Valid()
      requires avail == old(avail) && offers == old(offers)
      requires account == old(account).Take(fd, given) && msg.place == Pending(dir, fd)
      requires queues[fd].msgs == old(queues[fd].msgs) + [msg] && last == old(queues[fd].end)
      requires queues[fd].items == old(queues[fd].items) + [Item(given, [], [])]
      requires forall m :: m in old(msgs) && m != msg && m != last ==> unchanged(m)
      requires forall m :: m in old(returned) && m != msg && m != last ==> unchanged(m)
      requires old(last.place) == last.place && old(last.doneLen) == last.doneLen && old(last.buf) == last.buf
      requires old(last.fd) == last.fd
      requires forall f {:trigger queues[f]} :: f in queues && f != fd ==> unchanged(queues[f])
      ensures Valid() && Told()
    {
      Waits(fd, given);
      MatchedOn(fd);
      Grown(fd, msg, last);
      ToldNone(msg);
    }

    /** A message in hand finds others waiting, and joins them. */
    method Enqueue(msg: Msg, handle: nat)
      requires Valid() && InHand(msg)
      requires msg.fd in queues && queues[msg.fd].head != null && queues[msg.fd].end != null
      modifies this`account, queues[msg.fd], queues[msg.fd].end`next, msg`next, msg`cookie, msg`place
      ensures Valid() && Told()
      ensures account == old(account).Take(msg.fd, Given(handle, msg.buf))
    {
      var fd := msg.fd;
      assert QueueOk(fd);
      ghost var last := queues[fd].end;
      queues[fd].Push(msg, handle);
      account := account.Take(fd, Given(handle, msg.buf));
      Enqueued(fd, msg, last, Given(handle, msg.buf));
    }

    /** The bytes of the first pending message that crossed the wire just now fit its account. */
    lemma FirstFits(fd: int, msg: Msg, data: seq<Byte>)
      requires Sound() && fd in queues && queues[fd].head == msg
      requires 0 <= msg.doneLen && msg.doneLen + |data| <= |msg.buf|
      requires data == msg.buf[msg.doneLen..msg.doneLen + |data|]
      ensures account.Fits(fd, data) && account.On(fd).queue == queues[fd].items && queues[fd].Valid()
      ensures queues[fd].Carries(msg, queues[fd].items[0]) && msg in msgs && msg.place == Pending(dir, fd)
    {
      assert QueueOk(fd);
      var q := queues[fd];
      assert msg == q.msgs[0] && q.Carries(msg, q.items[0]);
    }

    twostate lemma Progressed(new fd: int, msg: Msg, new data: seq<Byte>)
      requires old(Sound()) && old(Ahead(fd, data, [|data|])) && old(account.Fits(fd, data)) && msgs == old(msgs)
      requires unchanged(`used) && unchanged(`returned) && unchanged(`emit) && unchanged(`notified)
      requires unchanged(`wire) && unchanged(`heard)
      requires queues == old(queues) && fd in queues && queues[fd].Valid()
      requires avail == old(avail) && offers == old(offers)
      requires account == old(account).Move(fd, data, [|data|])
      requires msg == old(queues[fd].head) && old(msg.place) == msg.place
      requires old(msg.place) == Pending(dir, fd) && queues[fd].msgs == old(queues[fd].msgs)
      requires queues[fd].items == old(queues[fd].items)[0 := old(account.On(fd).queue[0]).More(data, [|data|])]
      requires forall m :: m in old(msgs) && m != msg ==> unchanged(m)
      requires forall m :: m in old(returned) && m != msg ==> unchanged(m)
      requires forall f {:trigger queues[f]} :: f in queues && f != fd ==> unchanged(queues[f])
      ensures Valid() && Told() && account.After(old(account), fd)
    {
      MoveOk(old(account), fd, data, [|data|]);
      NowEven(fd, data, [|data|]);
      MatchedOn(fd);
      assert old(QueueOk(fd));
      OthersKept(fd);
      AvailKept(msg);
      ToldNone(msg);
    }

    /** The first pending message notes that more of it went through. */
    method Note(fd: int, msg: Msg, n: nat, ghost data: seq<Byte>)
      requires fd in queues && queues[fd].Valid() && queues[fd].head == msg && account.On(fd).queue == queues[fd].items
      requires 0 <= msg.doneLen && msg.doneLen + n < |msg.buf| && data == msg.buf[msg.doneLen..msg.doneLen + n]
      requires forall f :: f in queues && f != fd ==> queues[f] != queues[fd]
      modifies this`account, queues[fd], msg`doneLen
      ensures queues[fd].Valid() && queues[fd].head == msg && msg.doneLen == old(msg.doneLen) + n
      ensures queues[fd].msgs == old(queues[fd].msgs) && old(queues[fd].items) != []
      ensures queues[fd].items == old(queues[fd].items)[0 := old(account.On(fd).queue[0]).More(data, [n])]
      ensures account == old(account).Move(fd, data, [n])
      ensures forall f {:trigger queues[f]} :: f in queues && f != fd ==> unchanged(queues[f])
    {
      queues[fd].Advance(n);
      account := account.Move(fd, data, [n]);
    }

    /** More of the first pending message went through, but not all. */
    method Progress(fd: int, msg: Msg, n: nat, ghost data: seq<Byte>)
      requires Sound() && fd in queues && queues[fd].head == msg && 0 <= msg.doneLen && msg.doneLen + n < |msg.buf|
      requires data == msg.buf[msg.doneLen..msg.doneLen + n] && Ahead(fd, data, [n])
      modifies this`account, queues[fd], msg`doneLen
      ensures Valid() && Told() && account.After(old(account), fd)
      ensures queues[fd].head == msg && msg.doneLen == old(msg.doneLen) + n
      ensures old(account.On(fd).queue) != [] && account == old(account).Move(fd, data, [n])
    {
      hide Half.Sound, Half.Ahead, Half.Even, Account.After;
      FirstFits(fd, msg, data);
      Distinct(fd);
      assert n == |data|;
      Note(fd, msg, n, data);
      Progressed(fd, msg, data);
    }

    /** The account when a first pending message ends. */
    twostate lemma EndedFirst(fd: int, new e: Ending)
      requires old(account.Ok()) && old(Ahead(fd, e.data, e.heard)) && unchanged(`wire) && unchanged(`heard)
      requires old(account.MayEnd(fd, e)) && account == old(account).Complete(fd, e)
      ensures account.Ok() && Even() && account.After(old(account), fd)
      ensures account.used == old(account).used + [Tag(fd, old(account).On(fd).queue[0].Ended(e))]
      ensures account.On(fd).queue == old(account).On(fd).queue[1..]
    {
      CompleteOk(old(account), fd, e);
      NowEven(fd, e.data, e.heard);
    }

    twostate lemma FinishedFirst(new fd: int, msg: Msg, new e: Ending)
      requires old(Sound()) && old(Ahead(fd, e.data, e.heard)) && old(account.MayEnd(fd, e)) && fd in queues
      requires used == old(used) + [(old(account).On(fd).queue[0].given.handle, e.reported)] && emit
      requires returned == old(returned) + [msg] && account == old(account).Complete(fd, e)
      requires msg.place == Returned
      requires msg.doneLen == if e.how.Failed? then -1 else |old(account).On(fd).queue[0].data + e.data|
      requires Holds(msg.buf, old(account).On(fd).queue[0].Ended(e))
      requires msg == old(queues[fd].head) && old(msg.place) == Pending(dir, fd)
      requires unchanged(`notified) && unchanged(`wire) && unchanged(`heard)
      requires unchanged(`avail) && unchanged(`offers) && unchanged(`queues)
      requires msgs == old(msgs) - {msg} && queues[fd].Valid()
      requires old(queues[fd].msgs) != [] && old(queues[fd].items) != []
      requires queues[fd].msgs == old(queues[fd].msgs)[1..] && queues[fd].items == old(queues[fd].items)[1..]
      requires forall m :: m in msgs ==> unchanged(m)
      requires forall m :: m in old(returned) && m != msg ==> unchanged(m)
      requires forall f {:trigger queues[f]} :: f in queues && f != fd ==> unchanged(queues[f])
      ensures Valid() && Told() && account.After(old(account), fd)
    {
      hide Holds, Half.ToldSince, DoneOk, Half.Ahead, Half.Even;
      EndedFirst(fd, e);
      UsedMore(msg, Tag(fd, old(account).On(fd).queue[0].Ended(e)));
      MatchedOn(fd);
      assert old(QueueOk(fd));
      OthersKept(fd);
      AvailKept(msg);
      ToldOne(msg, Tag(fd, old(account).On(fd).queue[0].Ended(e)));
    }

    /** How the server may end the first pending message: on -1, on a teardown, when all of it is through, or
        with a first datagram. */
    ghost predicate EndsWith(msg: Msg, doneLen: int, e: Ending)
      reads msg`doneLen, msg`buf
    {
      && 0 <= msg.doneLen && msg.doneLen + |e.data| <= |msg.buf|
      && e.data == msg.buf[msg.doneLen..msg.doneLen + |e.data|]
      && match e.how
         case Failed(cause) =>
           && e.data == [] && e.reported == 0 && doneLen == -1
           && ((cause == Refused && e.heard == [-1]) || (cause == Closed && e.heard == []))
         case Whole => e.heard == [|e.data|] && e.reported == |msg.buf| == msg.doneLen + |e.data| == doneLen
         case Datagram(waited) =>
           && waited && msg.doneLen == 0 < doneLen
           && e.heard == [|e.data|] && |e.data| == doneLen && e.reported == |msg.buf|
    }

    /** What went through of it stands at the front of its buffer. */
    lemma FirstHolds(item: Item, msg: Msg, e: Ending)
      requires 0 <= msg.doneLen && msg.doneLen + |e.data| <= |msg.buf| == |item.given.body|
      requires item.data == msg.buf[..msg.doneLen] && e.data == msg.buf[msg.doneLen..msg.doneLen + |e.data|]
      requires dir == Tx ==> msg.buf == item.given.body
      ensures Holds(msg.buf, item.Ended(e))
    {
      assert item.data + e.data == msg.buf[..msg.doneLen + |e.data|];
    }

    /** Then it is an end the account allows. */
    lemma FirstEnds(fd: int, msg: Msg, doneLen: int, e: Ending)
      requires Sound() && fd in queues && queues[fd].head == msg
      requires EndsWith(msg, doneLen, e) && (dir == Tx ==> !e.how.Datagram?)
      ensures account.MayEnd(fd, e) && account.On(fd).queue == queues[fd].items != [] && queues[fd].Valid()
      ensures msg in msgs && msg.place == Pending(dir, fd)
      ensures var first := account.On(fd).queue[0];
        && msg.cookie == first.given.handle && doneLen == (if e.how.Failed? then -1 else |first.data + e.data|)
        && Holds(msg.buf, first.Ended(e))
    {
      FirstFits(fd, msg, e.data);
      assert account.SocketOk(fd);
      var first := account.On(fd).queue[0];
      FirstHolds(first, msg, e);
      WaitedEnds(first, e);
    }

    /** The first pending message leaves its queue for the used ring. */
    method Leave(fd: int, msg: Msg, doneLen: int, len: nat, ghost e: Ending)
      requires fd in queues && queues[fd].Valid() && queues[fd].head == msg && account.On(fd).queue != []
      requires forall f :: f in queues && f != fd ==> queues[f] != queues[fd]
      modifies this`used, this`emit, this`account, this`returned, this`msgs, queues[fd], msg`doneLen, msg`place
      ensures used == old(used) + [(old(msg.cookie), len)] && emit && returned == old(returned) + [msg]
      ensures msg.place == Returned && msg.doneLen == doneLen && msgs == old(msgs) - {msg}
      ensures account == old(account).Complete(fd, e)
      ensures queues[fd].Valid() && old(queues[fd].msgs) != [] && old(queues[fd].items) != []
      ensures queues[fd].msgs == old(queues[fd].msgs)[1..] && queues[fd].items == old(queues[fd].items)[1..]
      ensures forall m :: m in msgs ==> unchanged(m)
      ensures forall m :: m in old(returned) && m != msg ==> unchanged(m)
      ensures forall f {:trigger queues[f]} :: f in queues && f != fd ==> unchanged(queues[f])
    {
      var _ := queues[fd].Pop(doneLen);
      Answer(msg.cookie, len);
      msgs, returned := msgs - {msg}, returned + [msg];
      account := account.Complete(fd, e);
    }

    /** The first pending message ends. */
    method FinishFirst(fd: int, msg: Msg, doneLen: int, len: nat, ghost e: Ending)
      requires Sound() && fd in queues && queues[fd].head == msg && Ahead(fd, e.data, e.heard)
      requires EndsWith(msg, doneLen, e) && e.reported == len && (dir == Tx ==> !e.how.Datagram?)
      modifies this`used, this`emit, this`account, this`returned, this`msgs, queues[fd], msg`doneLen, msg`place
      ensures Valid() && Told() && msgs == old(msgs) - {msg}
      ensures account.After(old(account), fd) && old(account.On(fd).queue) != []
      ensures account == old(account).Complete(fd, e) && msg.doneLen == doneLen
    {
      hide Half.Sound, Half.Ahead, Account.MayEnd, Account.After;
      FirstEnds(fd, msg, doneLen, e);
      Distinct(fd);
      Leave(fd, msg, doneLen, len, e);
      FinishedFirst(fd, msg, e);
    }

    /** An empty queue may be taken away. */
    twostate lemma Dropped(fd: int)
      requires old(Sound()) && old(account.On(fd).queue) == [] && queues == old(queues) - {fd}
      requires unchanged(`used) && unchanged(`account) && unchanged(`returned) && unchanged(`emit)
      requires unchanged(`notified) && unchanged(`avail) && unchanged(`offers) && unchanged(`msgs)
      requires forall m :: m in msgs ==> unchanged(m)
      requires forall f :: f in old(queues) ==> unchanged(old(queues[f]))
      ensures Sound()
    {
      forall f | f in queues
        ensures QueueOk(f)
      {
        assert queues[f] == old(queues[f]);
        QueueKept(f);
      }
    }

    /** The empty queue of a socket is freed. */
    method Drop(fd: int)
      requires Valid() && account.On(fd).queue == []
      modifies this`queues
      ensures Valid() && queues == old(queues) - {fd}
    {
      queues := queues - {fd};
      Dropped(fd);
    }

    /** A socket may be given an empty queue. */
    twostate lemma Added(fd: int, new q: Queue)
      requires old(Sound()) && fd !in old(queues) && queues == old(queues)[fd := q]
      requires q.Valid() && q.items == [] && q.msgs == [] && q.fd == fd && q.dir == dir
      requires unchanged(`used) && unchanged(`account) && unchanged(`returned) && unchanged(`emit)
      requires unchanged(`notified) && unchanged(`avail) && unchanged(`offers) && unchanged(`msgs)
      requires forall m :: m in msgs ==> unchanged(m)
      requires forall f :: f in old(queues) ==> unchanged(old(queues[f]))
      ensures Sound()
    {
      forall f | f in queues
        ensures QueueOk(f)
      {
        if f != fd {
          assert queues[f] == old(queues[f]);
          QueueKept(f);
        }
      }
    }

    /** A socket is given a queue. */
    method Add(fd: int)
      requires Valid() && fd !in queues
      modifies this`queues
      ensures Valid() && queues.Keys == old(queues).Keys + {fd} && fresh(queues[fd])
      ensures forall f :: f in old(queues) ==> queues[f] == old(queues)[f]
    {
      var q := new Queue(dir, fd);
      queues := queues[fd := q];
      Added(fd, q);
    }
  }
}
