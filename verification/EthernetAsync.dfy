/** The asynchronous Ethernet connection: a client that owns the buffers and a server that drives the
    NIC, with a transmit and a receive virtqueue between them.  A virtqueue is a pair of queues of
    buffer entries, available and used. */
module EthernetAsync {
  import opened EthBuffers

  const NUM_BUFS: nat := 254

  // ---------------------------------------------------------------------------
  // Buffers in exactly one place

  /** Each list holds exactly the buffers whose place is its number, once; the last place is the NIC. */
  ghost predicate Parted(place: seq<nat>, lists: seq<seq<nat>>) {
    && (forall b: nat :: b < |place| ==> place[b] <= |lists|)
    && (forall k: nat :: k < |lists| ==> NoRepeats(lists[k]))
    && (forall k: nat, b: nat {:trigger b in lists[k]} :: k < |lists| ==>
          (b in lists[k] <==> b < |place| && place[b] == k))
  }

  /** A list member is a buffer. */
  lemma Member(place: seq<nat>, lists: seq<seq<nat>>, k: nat, i: nat)
    requires Parted(place, lists) && k < |lists| && i < |lists[k]|
    ensures lists[k][i] < |place| && place[lists[k][i]] == k
  {
    assert lists[k][i] in lists[k];
  }

  /** The first buffer of list k goes to the NIC. */
  lemma TakeFirst(place: seq<nat>, lists: seq<seq<nat>>, k: nat)
    requires Parted(place, lists) && k < |lists| && lists[k] != []
    ensures lists[k][0] < |place|
    ensures Parted(place[lists[k][0] := |lists|], lists[k := lists[k][1..]])
  {
    var b := lists[k][0];
    assert b in lists[k];
    assert lists[k] == [b] + lists[k][1..];
    assert b !in lists[k][1..];
    assert forall x: nat :: x in lists[k][1..] <==> x in lists[k] && x != b;
  }

  /** So does the last one, when list k is a stack. */
  lemma TakeLast(place: seq<nat>, lists: seq<seq<nat>>, k: nat)
    requires Parted(place, lists) && k < |lists| && lists[k] != []
    ensures lists[k][|lists[k]| - 1] < |place|
    ensures Parted(place[lists[k][|lists[k]| - 1] := |lists|], lists[k := lists[k][..|lists[k]| - 1]])
  {
    var n := |lists[k]| - 1;
    var b := lists[k][n];
    assert b in lists[k];
    assert lists[k] == lists[k][..n] + [b];
    assert b !in lists[k][..n];
    assert forall x: nat :: x in lists[k][..n] <==> x in lists[k] && x != b;
  }

  /** A buffer of the NIC goes to the end of list k. */
  lemma Give(place: seq<nat>, lists: seq<seq<nat>>, k: nat, b: nat)
    requires Parted(place, lists) && k < |lists| && b < |place| && place[b] == |lists|
    ensures Parted(place[b := k], lists[k := lists[k] + [b]])
  {
    assert b !in lists[k];
    NoRepeatsMore(lists[k], b);
  }

  /** On the receive side: a buffer of the NIC becomes the last used entry. */
  lemma GiveUsed(place: seq<nat>, avail: seq<Entry>, used: seq<Entry>, b: nat, len: nat)
    requires Parted(place, [Bufs(avail), Bufs(used)]) && b < |place| && place[b] == 2
    ensures b !in Bufs(used)
    ensures Parted(place[b := 1], [Bufs(avail), Bufs(used + [Entry(b, len)])])
  {
    var lists := [Bufs(avail), Bufs(used)];
    Give(place, lists, 1, b);
    assert b !in lists[1];
    assert Bufs(used + [Entry(b, len)]) == lists[1] + [b];
    assert [Bufs(avail), Bufs(used + [Entry(b, len)])] == lists[1 := lists[1] + [b]];
  }

  ghost function Set(bufs: seq<nat>): set<nat> {
    set b | b in bufs
  }

  /** Entries of one length for the buffers. */
  ghost function Entries(bufs: seq<nat>, len: nat): seq<Entry> {
    seq(|bufs|, k requires 0 <= k < |bufs| => Entry(bufs[k], len))
  }

  /** One more of the distinct buffers. */
  lemma NextBuf(bufs: seq<nat>, i: nat, len: nat)
    requires NoRepeats(bufs) && i < |bufs|
    ensures bufs[i] in bufs && bufs[i] !in Set(bufs[..i])
    ensures Entries(bufs[..i + 1], len) == Entries(bufs[..i], len) + [Entry(bufs[i], len)]
    ensures Set(bufs[..i + 1]) == Set(bufs[..i]) + {bufs[i]}
  {
    assert bufs[..i + 1] == bufs[..i] + [bufs[i]];
    EntriesMore(bufs[..i], bufs[i], len);
  }

  lemma EntriesMore(bufs: seq<nat>, b: nat, len: nat)
    ensures Entries(bufs + [b], len) == Entries(bufs, len) + [Entry(b, len)]
    ensures Set(bufs + [b]) == Set(bufs) + {b}
  {}

  lemma NextAsked(queue: seq<Entry>, n: nat)
    requires n <= |queue|
    ensures n < |queue| ==> queue[n..][1..] == queue[n + 1..]
    ensures n < |queue| ==> Set(Bufs(queue[..n + 1])) == Set(Bufs(queue[..n])) + {queue[n].buf}
  {
    if n < |queue| {
      assert Bufs(queue[..n + 1]) == Bufs(queue[..n]) + [queue[n].buf];
      EntriesMore(Bufs(queue[..n]), queue[n].buf, 0);
    }
  }

  // ---------------------------------------------------------------------------
  // Frames in order

  /** The frames in the entries of a queue. */
  ghost predicate Holding(queue: seq<Entry>, mem: seq<Frame>, frames: seq<Frame>) {
    && |frames| == |queue|
    && forall k: nat :: k < |queue| ==>
         queue[k].buf < |mem| && queue[k].len == |frames[k]| && frames[k] <= mem[queue[k].buf]
  }

  /** A new entry at the end of the queue, in a buffer the queue does not use. */
  lemma HoldingMore(queue: seq<Entry>, mem: seq<Frame>, frames: seq<Frame>, b: nat, f: Frame, g: Frame)
    requires Holding(queue, mem, frames) && b < |mem| && b !in Bufs(queue) && g <= f
    ensures Holding(queue + [Entry(b, |g|)], mem[b := f], frames + [g])
  {
    assert forall k: nat :: k < |queue| ==> Bufs(queue)[k] in Bufs(queue);
  }

  /** The frames that are not empty: an entry of length 0 carries none. */
  ghost function Real(frames: seq<Frame>): seq<Frame> {
    if frames == [] then []
    else Real(frames[..|frames| - 1]) + (if frames[|frames| - 1] == [] then [] else [frames[|frames| - 1]])
  }

  lemma {:induction false} RealConcat(a: seq<Frame>, b: seq<Frame>)
    ensures Real(a + b) == Real(a) + Real(b)
    decreases |b|
  {
    if b == [] {
      assert a + b == a;
    } else {
      var n := |b| - 1;
      RealConcat(a, b[..n]);
      assert (a + b)[..|a + b| - 1] == a + b[..n];
    }
  }

  lemma RealMore(a: seq<Frame>, f: Frame)
    ensures Real(a + [f]) == Real(a) + (if f == [] then [] else [f])
  {
    assert (a + [f])[..|a|] == a;
  }

  /** The receive ring as the client sees it: its used entries with the frames they hold, its available
      entries, and what the stack was given. */
  datatype Inbox = Inbox(used: seq<Entry>, waiting: seq<Frame>, avail: seq<Entry>, received: seq<Frame>) {

    /** The first n used entries have been handled: their frames, unless empty, went to the stack in order,
        and their buffers are available again, in the same order. */
    ghost function Polled(n: nat): Inbox
      requires n <= |used| == |waiting|
    {
      Inbox(used[n..], waiting[n..], avail + Entries(Bufs(used[..n]), BUF_SIZE), received + Real(waiting[..n]))
    }
  }

  lemma PolledNone(i: Inbox)
    requires |i.used| == |i.waiting|
    ensures i.Polled(0) == i
  {}

  lemma PolledOne(i: Inbox)
    requires |i.used| == |i.waiting| && i.used != []
    ensures i.Polled(1) == Inbox(i.used[1..], i.waiting[1..], i.avail + [Entry(i.used[0].buf, BUF_SIZE)],
              i.received + if i.waiting[0] == [] then [] else [i.waiting[0]])
  {
    assert i.waiting[..1] == [] + [i.waiting[0]];
    RealMore([], i.waiting[0]);
  }

  lemma PolledMore(i: Inbox, n: nat)
    requires n < |i.used| == |i.waiting|
    ensures i.Polled(n).Polled(1) == i.Polled(n + 1)
  {
    PolledOne(i.Polled(n));
    assert Bufs(i.used[..n + 1]) == Bufs(i.used[..n]) + [i.used[n].buf];
    EntriesMore(Bufs(i.used[..n]), i.used[n].buf, BUF_SIZE);
    assert i.waiting[..n + 1] == i.waiting[..n] + [i.waiting[n]];
    RealMore(i.waiting[..n], i.waiting[n]);
  }

  /** What arrived, empty entries aside, is what was received and then what still waits. */
  ghost predicate Flow(arrived: seq<Frame>, received: seq<Frame>, waiting: seq<Frame>) {
    Real(arrived) == received + Real(waiting)
  }

  /** A frame that arrives joins those that wait. */
  lemma FlowIn(arrived: seq<Frame>, received: seq<Frame>, waiting: seq<Frame>, f: Frame)
    requires Flow(arrived, received, waiting)
    ensures Flow(arrived + [f], received, waiting + [f])
  {
    RealMore(arrived, f);
    RealMore(waiting, f);
  }

  /** The first frame that waits joins those received, unless it is empty. */
  lemma FlowOut(arrived: seq<Frame>, received: seq<Frame>, waiting: seq<Frame>)
    requires Flow(arrived, received, waiting) && waiting != []
    ensures Flow(arrived, received + (if |waiting[0]| == 0 then [] else [waiting[0]]), waiting[1..])
  {
    var f, rest := waiting[0], waiting[1..];
    assert waiting == [f] + rest;
    RealConcat([f], rest);
    assert Real([f]) == if |f| == 0 then [] else [f];
    assert received + (Real([f]) + Real(rest)) == received + Real([f]) + Real(rest);
  }

  class Link {
    // The client's side.
    const pendingTx: array<nat>
    var numTx: nat
    var clientAction: bool
    // The two virtqueues.
    var availTx: seq<Entry>
    var usedTx: seq<Entry>
    var availRx: seq<Entry>
    var usedRx: seq<Entry>
    // The server's side.
    var irq: bool
    var action: bool
    var blockedTx: bool
    var noRxBufs: bool
    var notified: bool
    // Shared memory.
    var txMem: seq<Frame>
    var rxMem: seq<Frame>

    /** Where each buffer is, what was sent and what reached the NIC, what the NIC received and what
        the client's stack was given. */
    ghost var txPlace: seq<nat>
    ghost var rxPlace: seq<nat>
    ghost var sent: seq<Frame>
    ghost var wire: seq<Frame>
    ghost var inFlight: map<nat, Frame>
    /** The receive buffers the NIC was given and has not completed. */
    ghost var nicRx: set<nat>
    ghost var arrived: seq<Frame>
    ghost var received: seq<Frame>
    ghost var waiting: seq<Frame>

    ghost function TxLists(): seq<seq<nat>>
      requires numTx <= pendingTx.Length
      reads `numTx, `availTx, `usedTx, pendingTx
    {
      [pendingTx[..numTx], Bufs(availTx), Bufs(usedTx)]
    }

    /** Transmit side: the 254 buffers are free, available, used, or the NIC's; what was sent is what
        reached the NIC followed by what is available; memory in flight is as it was handed over. */
    ghost predicate TxOk()
      reads `numTx, `availTx, `usedTx, `txMem, `txPlace, `sent, `wire, `inFlight, pendingTx
    {
      && numTx <= pendingTx.Length == NUM_BUFS
      && |txPlace| == |txMem| == NUM_BUFS
      && Parted(txPlace, TxLists())
      && |wire| <= |sent| && wire == sent[..|wire|]
      && Holding(availTx, txMem, sent[|wire|..])
      && (forall b: nat :: b < NUM_BUFS ==> (b in inFlight <==> txPlace[b] == 3))
      && (forall b: nat :: b in inFlight ==> b < NUM_BUFS && inFlight[b] == txMem[b])
    }

    ghost function RxLists(): seq<seq<nat>>
      reads `availRx, `usedRx
    {
      [Bufs(availRx), Bufs(usedRx)]
    }

    /** Receive side, while `held` is in the client's hands: every other of the 254 buffers is available,
        used, or the NIC's; what arrived is what the stack was given followed by what is used. */
    ghost predicate RxOkBut(held: set<nat>)
      reads `availRx, `usedRx, `rxMem, `rxPlace, `nicRx, `arrived, `received, `waiting
    {
      && |rxPlace| == |rxMem| == NUM_BUFS
      && Parted(rxPlace, RxLists())
      && (forall b: nat :: b < NUM_BUFS ==> (b in nicRx <==> rxPlace[b] == 2 && b !in held))
      && Holding(usedRx, rxMem, waiting)
      && Flow(arrived, received, waiting)
    }

    ghost predicate RxOk()
      reads `availRx, `usedRx, `rxMem, `rxPlace, `nicRx, `arrived, `received, `waiting
    {
      RxOkBut({}) && forall b :: b in nicRx ==> b < NUM_BUFS
    }

    /** No frame is stuck: while one is available, the server is about to look, or it is blocked and a
        completion that will make it look again is still to come or already noted. */
    ghost predicate Live()
      reads `availTx, `clientAction, `irq, `blockedTx, `inFlight, `action
    {
      availTx != [] ==> clientAction || irq || (blockedTx && (inFlight != map[] || action))
    }

    /** The client's initialisation: every transmit buffer is free, every receive buffer available. */
    constructor ()
      ensures TxOk() && RxOk() && Live()
      ensures sent == [] && wire == [] && arrived == [] && received == [] && !blockedTx && !action
      ensures numTx == NUM_BUFS && |availRx| == NUM_BUFS
    {
      pendingTx := new nat[NUM_BUFS](i => i);
      numTx := NUM_BUFS;
      clientAction, irq, action, blockedTx, noRxBufs, notified := false, false, false, false, false, false;
      availTx, usedTx, usedRx := [], [], [];
      availRx := seq(NUM_BUFS, i requires 0 <= i => Entry(i, BUF_SIZE));
      txMem, rxMem := seq(NUM_BUFS, _ => []), seq(NUM_BUFS, _ => []);
      txPlace, rxPlace := seq(NUM_BUFS, _ => 0), seq(NUM_BUFS, _ => 0);
      sent, wire, inFlight, nicRx, arrived, received, waiting := [], [], map[], {}, [], [], [];
      new;
      assert pendingTx[..numTx] == UpTo(NUM_BUFS);
      assert Bufs(availRx) == UpTo(NUM_BUFS);
    }

    // -------------------------------------------------------------------------
    // Transmit

    /** The buffer pico_eth_send uses: one the server has given back, else a free one. */
    method TakeTxBuf() returns (ok: bool, b: nat)
      requires TxOk()
      modifies this`usedTx, this`numTx, this`txPlace
      ensures ok <==> old(usedTx) != [] || old(numTx) > 0
      ensures !ok ==> TxOk() && txPlace == old(txPlace)
      ensures ok ==> b < NUM_BUFS && old(txPlace)[b] in {0, 2} && txPlace == old(txPlace)[b := 3]
      ensures ok ==> numTx <= pendingTx.Length && Parted(txPlace, TxLists())
    {
      if usedTx == [] {
        if numTx == 0 {
          return false, 0;
        }
        TakeLast(txPlace, TxLists(), 0);
        Member(txPlace, TxLists(), 0, numTx - 1);
        ghost var lists := TxLists();
        numTx := numTx - 1;
        b := pendingTx[numTx];
        txPlace := txPlace[b := 3];
        assert pendingTx[..numTx] == lists[0][..numTx];
        assert TxLists() == lists[0 := lists[0][..numTx]];
      } else {
        TakeFirst(txPlace, TxLists(), 2);
        Member(txPlace, TxLists(), 2, 0);
        ghost var lists := TxLists();
        b := usedTx[0].buf;
        usedTx := usedTx[1..];
        txPlace := txPlace[b := 3];
        assert Bufs(usedTx) == lists[2][1..];
        assert TxLists() == lists[2 := lists[2][1..]];
      }
      ok := true;
    }

    /** Copy the frame into buffer b and make it available to the server. */
    method MakeAvailable(b: nat, frame: Frame)
      requires numTx <= pendingTx.Length == NUM_BUFS && |txPlace| == |txMem| == NUM_BUFS
      requires b < NUM_BUFS && txPlace[b] == 3 && Parted(txPlace, TxLists())
      requires |wire| <= |sent| && Holding(availTx, txMem, sent[|wire|..])
      modifies this`txPlace, this`txMem, this`availTx, this`sent
      ensures |sent| == |old(sent)| + 1
      ensures Parted(txPlace, TxLists()) && Holding(availTx, txMem, sent[|wire|..])
      ensures txPlace == old(txPlace)[b := 1] && txMem == old(txMem)[b := frame]
      ensures availTx == old(availTx) + [Entry(b, |frame|)] && sent == old(sent) + [frame]
    {
      Give(txPlace, TxLists(), 1, b);
      ghost var lists := TxLists();
      assert b !in lists[1];
      HoldingMore(availTx, txMem, sent[|wire|..], b, frame, frame);
      assert (sent + [frame])[|wire|..] == sent[|wire|..] + [frame];
      txPlace := txPlace[b := 1];
      txMem := txMem[b := frame];
      availTx := availTx + [Entry(b, |frame|)];
      sent := sent + [frame];
      assert Bufs(availTx) == lists[1] + [b];
      assert TxLists() == lists[1 := lists[1] + [b]];
    }

    /** pico_eth_send: 0 when there is no buffer to use, else the frame is on its way. */
    method PicoEthSend(frame: Frame) returns (ret: int)
      requires TxOk()
      modifies this`usedTx, this`numTx, this`txPlace, this`txMem, this`availTx, this`sent, this`clientAction
      ensures TxOk() && (old(Live()) || sent != old(sent) ==> Live())
      ensures sent == if old(usedTx) == [] && old(numTx) == 0 then old(sent) else old(sent) + [frame]
      ensures ret == if old(usedTx) == [] && old(numTx) == 0 then 0 else |frame|
    {
      var ok, b := TakeTxBuf();
      if !ok {
        return 0;
      }
      MakeAvailable(b, frame);
      clientAction := true;
      return |frame|;
    }

    /** notify_server, the client's hook after every event. */
    method NotifyServer()
      requires TxOk()
      modifies this`clientAction, this`irq
      ensures TxOk() && (old(Live()) ==> Live())
      ensures !clientAction && (irq <==> old(irq) || old(clientAction))
    {
      if clientAction {
        clientAction := false;
        irq := true;
      }
    }

    /** The NIC took the first available frame: only now is it taken off the ring. */
    method CommitTx()
      requires TxOk() && availTx != []
      modifies this`availTx, this`txPlace, this`wire, this`inFlight
      ensures TxOk() && availTx == old(availTx)[1..]
      ensures |old(wire)| < |sent| && wire == old(wire) + [sent[|old(wire)|]]
      ensures inFlight.Keys == old(inFlight.Keys) + {old(availTx)[0].buf} && inFlight != map[]
    {
      TakeFirst(txPlace, TxLists(), 1);
      Member(txPlace, TxLists(), 1, 0);
      ghost var lists := TxLists();
      ghost var b := availTx[0].buf;
      ghost var n := |wire|;
      assert sent[n..][0] == sent[n] && sent[..n + 1] == sent[..n] + [sent[n]] && sent[n..][1..] == sent[n + 1..];
      availTx := availTx[1..];
      txPlace := txPlace[b := 3];
      wire := wire + [sent[n]];
      inFlight := inFlight[b := txMem[b]];
      assert b in inFlight;
      assert Bufs(availTx) == lists[1][1..];
      assert TxLists() == lists[1 := lists[1][1..]];
    }

    /** The loop of virt_queue_handle_irq: offer the NIC one available frame after the other until the ring
        is empty or it refuses; it takes `accepts` frames and then refuses. */
    method OfferTx(accepts: nat)
      requires TxOk()
      modifies this`availTx, this`txPlace, this`wire, this`inFlight, this`blockedTx
      ensures TxOk() && OfferedTx(accepts)
    {
      var left := accepts;
      ghost var n := 0;
      while availTx != []
        invariant TxOk() && n <= |old(availTx)| && n + left == accepts
        invariant |wire| == |old(wire)| + n && availTx == old(availTx)[n..]
        invariant n > 0 || old(inFlight) != map[] ==> inFlight != map[]
        invariant blockedTx == if n == 0 then old(blockedTx) else false
        decreases |availTx|
      {
        if left == 0 {
          blockedTx := true;
          break;
        }
        assert old(availTx)[n..][1..] == old(availTx)[n + 1..];
        hide TxOk;
        CommitTx();
        blockedTx := false;
        left := left - 1;
        n := n + 1;
      }
    }

    /** As many available frames as the NIC accepts have reached it, in order; afterwards the ring is empty
        or the server knows that it is blocked, which it does exactly if the NIC refused the last one offered. */
    twostate predicate OfferedTx(accepts: nat)
      reads `availTx, `sent, `wire, `inFlight, `blockedTx
    {
      && blockedTx == (if old(availTx) == [] then old(blockedTx) else accepts < |old(availTx)|)
      && (var n := if accepts < |old(availTx)| then accepts else |old(availTx)|;
          |old(wire)| + n <= |sent| && wire == sent[..|old(wire)| + n] && availTx == old(availTx)[n..])
      && (old(availTx) != [] && accepts > 0 ==> inFlight != map[])
      && (old(inFlight) != map[] ==> inFlight != map[])
    }

    /** virt_queue_handle_irq: when the server was out of receive buffers the driver is polled first, which
        asks for `wants` of them. */
    method VirtQueueHandleIrq(accepts: nat, wants: nat)
      requires TxOk() && RxOk()
      modifies this`availTx, this`txPlace, this`wire, this`inFlight, this`blockedTx
      modifies this`availRx, this`rxPlace, this`nicRx, this`noRxBufs
      ensures TxOk() && OfferedTx(accepts)
      ensures RxOk() && Refilled(if old(noRxBufs) then wants else 0)
    {
      if noRxBufs {
        RawPoll(wants);
      }
      OfferTx(accepts);
    }

    /** eth_tx_complete: the NIC is done with buffer b. */
    method EthTxComplete(b: nat)
      requires TxOk() && b in inFlight
      modifies this`usedTx, this`txPlace, this`inFlight, this`action
      ensures TxOk() && (old(Live()) ==> Live())
      ensures usedTx == old(usedTx) + [Entry(b, BUF_SIZE)] && inFlight == old(inFlight) - {b}
      ensures action == (old(action) || blockedTx)
    {
      Give(txPlace, TxLists(), 2, b);
      ghost var lists := TxLists();
      usedTx := usedTx + [Entry(b, BUF_SIZE)];
      txPlace := txPlace[b := 2];
      inFlight := inFlight - {b};
      assert Bufs(usedTx) == lists[2] + [b];
      assert TxLists() == lists[2 := lists[2] + [b]];
      if blockedTx {
        action := true;
      }
    }

    /** The handler run for a notification from the client. */
    method HandleIrq(accepts: nat, wants: nat)
      requires TxOk() && RxOk() && irq
      modifies this`irq, this`availTx, this`txPlace, this`wire, this`inFlight, this`blockedTx
      modifies this`availRx, this`rxPlace, this`nicRx, this`noRxBufs
      ensures TxOk() && OfferedTx(accepts) && (availTx == [] || blockedTx)
      // If the NIC refuses only while it has a frame in flight, nothing is stuck afterwards.
      ensures accepts > 0 || old(inFlight) != map[] ==> Live()
      ensures RxOk() && Refilled(if old(noRxBufs) then wants else 0)
    {
      irq := false;
      VirtQueueHandleIrq(accepts, wants);
    }

    twostate predicate SameTx()
      reads `availTx, `wire, `inFlight, `blockedTx
    {
      availTx == old(availTx) && wire == old(wire) && inFlight == old(inFlight) && blockedTx == old(blockedTx)
    }

    /** Inside notify_client: a blocked server tries again. */
    method TryAgain(accepts: nat, wants: nat)
      requires TxOk() && RxOk()
      modifies this`availTx, this`txPlace, this`wire, this`inFlight, this`blockedTx
      modifies this`availRx, this`rxPlace, this`nicRx, this`noRxBufs
      ensures TxOk() && RxOk() && Refilled(if old(blockedTx && noRxBufs) then wants else 0)
      ensures if old(blockedTx) then OfferedTx(accepts) else SameTx()
      ensures old(blockedTx) ==> availTx == [] || blockedTx
      ensures old(blockedTx) && old(availTx) != [] && accepts > 0 ==> |wire| > |old(wire)|
      ensures old(Live()) && (accepts > 0 || old(inFlight) != map[]) ==>
        availTx != [] ==> clientAction || irq || (blockedTx && inFlight != map[])
    {
      if blockedTx {
        VirtQueueHandleIrq(accepts, wants);
      }
    }

    /** notify_client, the server's hook after every event: a blocked server tries again. */
    method NotifyClient(accepts: nat, wants: nat)
      requires TxOk() && RxOk()
      modifies this`action, this`notified, this`availTx, this`txPlace, this`wire, this`inFlight, this`blockedTx
      modifies this`availRx, this`rxPlace, this`nicRx, this`noRxBufs
      ensures TxOk() && !action && if old(action && blockedTx) then OfferedTx(accepts) else SameTx()
      ensures old(action) && old(blockedTx) ==> availTx == [] || blockedTx
      ensures old(action) && old(blockedTx) && old(availTx) != [] && accepts > 0 ==> |wire| > |old(wire)|
      ensures old(Live()) && (accepts > 0 || old(inFlight) != map[]) ==> Live()
      ensures notified == (old(notified) || old(action))
      ensures RxOk() && Refilled(if old(action && blockedTx && noRxBufs) then wants else 0)
    {
      if action {
        TryAgain(accepts, wants);
        action := false;
        notified := true;
      }
    }

    // -------------------------------------------------------------------------
    // Receive

    /** eth_allocate_rx_buf: the NIC asks for a buffer; the server remembers when there was none. */
    method EthAllocateRxBuf(size: nat) returns (ok: bool, b: nat)
      requires RxOk()
      modifies this`availRx, this`rxPlace, this`nicRx, this`noRxBufs
      ensures RxOk()
      ensures ok <==> size <= BUF_SIZE && old(availRx) != []
      ensures ok ==> b < NUM_BUFS && b == old(availRx)[0].buf && b !in old(nicRx)
      ensures ok ==> availRx == old(availRx)[1..] && nicRx == old(nicRx) + {b}
      ensures !ok ==> availRx == old(availRx) && nicRx == old(nicRx)
      ensures noRxBufs == if size > BUF_SIZE then old(noRxBufs) else !ok
    {
      if size > BUF_SIZE {
        return false, 0;
      }
      if availRx == [] {
        noRxBufs := true;
        return false, 0;
      }
      noRxBufs := false;
      TakeFirst(rxPlace, RxLists(), 0);
      Member(rxPlace, RxLists(), 0, 0);
      ghost var lists := RxLists();
      b := availRx[0].buf;
      availRx := availRx[1..];
      rxPlace, nicRx := rxPlace[b := 2], nicRx + {b};
      assert Bufs(availRx) == lists[0][1..];
      assert RxLists() == lists[0 := lists[0][1..]];
      ok := true;
    }

    /** The driver has asked for so many buffers and been given as many of the available ones, in order;
        the server knows when there were too few. */
    twostate predicate Refilled(wants: nat)
      reads `availRx, `nicRx, `noRxBufs
    {
      if wants == 0 then
        availRx == old(availRx) && nicRx == old(nicRx) && noRxBufs == old(noRxBufs)
      else
        var n := if wants < |old(availRx)| then wants else |old(availRx)|;
        && availRx == old(availRx)[n..] && nicRx == old(nicRx) + Set(Bufs(old(availRx)[..n]))
        && (noRxBufs <==> wants > |old(availRx)|)
    }

    /** raw_poll, as far as it asks for receive buffers. */
    method RawPoll(wants: nat)
      requires RxOk()
      modifies this`availRx, this`rxPlace, this`nicRx, this`noRxBufs
      ensures RxOk() && Refilled(wants)
    {
      ghost var start := availRx;
      var n := 0;
      while n < wants
        invariant n <= wants && n <= |start| && RxOk()
        invariant availRx == start[n..] && nicRx == old(nicRx) + Set(Bufs(start[..n]))
        invariant n == 0 ==> noRxBufs == old(noRxBufs)
        invariant n > 0 ==> !noRxBufs
      {
        NextAsked(start, n);
        var ok, _ := EthAllocateRxBuf(BUF_SIZE);
        if !ok {
          break;
        }
        n := n + 1;
      }
    }

    /** The NIC's buffer b, into which it has written memory f, is used; its entry carries the front g. */
    method UseRx(b: nat, f: Frame, g: Frame)
      requires RxOk() && b in nicRx && g <= f
      modifies this`usedRx, this`rxPlace, this`nicRx, this`rxMem, this`arrived, this`waiting
      ensures RxOk() && usedRx == old(usedRx) + [Entry(b, |g|)] && nicRx == old(nicRx) - {b}
      ensures arrived == old(arrived) + [g]
    {
      hide Parted, Holding, Flow;
      GiveUsed(rxPlace, availRx, usedRx, b, |g|);
      HoldingMore(usedRx, rxMem, waiting, b, f, g);
      FlowIn(arrived, received, waiting, g);
      usedRx, rxPlace, rxMem := usedRx + [Entry(b, |g|)], rxPlace[b := 1], rxMem[b := f];
      nicRx := nicRx - {b};
      arrived, waiting := arrived + [g], waiting + [g];
    }

    /** The error path of eth_rx_complete: the buffers are handed back with length 0. */
    method DropBatch(bufs: seq<nat>, frames: seq<Frame>)
      requires RxOk() && |frames| == |bufs| && NoRepeats(bufs) && forall b :: b in bufs ==> b in nicRx
      modifies this`usedRx, this`rxPlace, this`nicRx, this`rxMem, this`arrived, this`waiting
      ensures RxOk() && Real(arrived) == Real(old(arrived)) && nicRx == old(nicRx) - Set(bufs)
      ensures usedRx == old(usedRx) + Entries(bufs, 0)
    {
      hide RxOk, Real;
      var i := 0;
      while i < |bufs|
        invariant i <= |bufs| && RxOk() && Real(arrived) == Real(old(arrived))
        invariant usedRx == old(usedRx) + Entries(bufs[..i], 0) && nicRx == old(nicRx) - Set(bufs[..i])
      {
        RealMore(arrived, []);
        NextBuf(bufs, i, 0);
        UseRx(bufs[i], frames[i], []);
        i := i + 1;
      }
      assert bufs[..i] == bufs;
    }

    /** eth_rx_complete: one buffer carries its frame; a batch of any other size is dropped. */
    method EthRxComplete(bufs: seq<nat>, frames: seq<Frame>)
      requires RxOk() && |frames| == |bufs| && NoRepeats(bufs) && forall b :: b in bufs ==> b in nicRx
      modifies this`usedRx, this`rxPlace, this`nicRx, this`rxMem, this`arrived, this`waiting, this`action
      ensures RxOk() && action && nicRx == old(nicRx) - Set(bufs)
      ensures Real(arrived) ==
        Real(old(arrived)) + (if |bufs| == 1 && |frames[0]| > 0 then [frames[0]] else [])
      ensures usedRx == old(usedRx) + Entries(bufs, if |bufs| == 1 then |frames[0]| else 0)
    {
      if |bufs| != 1 {
        DropBatch(bufs, frames);
      } else {
        RealMore(arrived, frames[0]);
        UseRx(bufs[0], frames[0], frames[0]);
        assert Set(bufs) == {bufs[0]};
      }
      action := true;
    }

    /** Take the first used entry off the ring: its buffer is the client's for a moment. */
    method TakeUsedRx() returns (e: Entry)
      requires RxOk() && usedRx != []
      modifies this`usedRx, this`rxPlace, this`received, this`waiting
      ensures e == old(usedRx)[0] && usedRx == old(usedRx)[1..]
      ensures RxOkBut({e.buf}) && e.buf < NUM_BUFS && rxPlace[e.buf] == 2 && e.buf !in nicRx
      ensures |old(waiting)| == |old(usedRx)| && waiting == old(waiting)[1..]
      ensures received == old(received) + (if old(waiting)[0] == [] then [] else [old(waiting)[0]])
    {
      TakeFirst(rxPlace, RxLists(), 1);
      Member(rxPlace, RxLists(), 1, 0);
      ghost var lists := RxLists();
      e := usedRx[0];
      FlowOut(arrived, received, waiting);
      assert rxMem[e.buf][..e.len] == waiting[0];
      received := received + (if e.len == 0 then [] else [rxMem[e.buf][..e.len]]);
      usedRx := usedRx[1..];
      waiting := waiting[1..];
      rxPlace := rxPlace[e.buf := 2];
      assert Bufs(usedRx) == lists[1][1..];
      assert RxLists() == lists[1 := lists[1][1..]];
    }

    /** pico_free_buf: the buffer is available to the NIC again. */
    method PicoFreeBuf(b: nat)
      requires RxOkBut({b}) && b < NUM_BUFS && rxPlace[b] == 2 && forall x :: x in nicRx ==> x < NUM_BUFS
      modifies this`availRx, this`rxPlace
      ensures RxOk() && availRx == old(availRx) + [Entry(b, BUF_SIZE)]
    {
      Give(rxPlace, RxLists(), 0, b);
      ghost var lists := RxLists();
      availRx := availRx + [Entry(b, BUF_SIZE)];
      rxPlace := rxPlace[b := 0];
      assert Bufs(availRx) == lists[0] + [b];
      assert RxLists() == lists[0 := lists[0] + [b]];
    }

    ghost function Rx(): Inbox
      reads `availRx, `usedRx, `received, `waiting
    {
      Inbox(usedRx, waiting, availRx, received)
    }

    /** One turn of pico_eth_poll's loop. */
    method PollOne()
      requires RxOk() && usedRx != []
      modifies this`usedRx, this`availRx, this`rxPlace, this`received, this`waiting
      ensures RxOk() && |old(waiting)| == |old(usedRx)| && Rx() == old(Rx()).Polled(1)
    {
      PolledOne(Rx());
      var e := TakeUsedRx();
      PicoFreeBuf(e.buf);
    }

    /** pico_eth_poll: at most loopScore entries are handled, in order. */
    method PicoEthPoll(loopScore: nat) returns (left: nat)
      requires RxOk()
      modifies this`usedRx, this`availRx, this`rxPlace, this`received, this`waiting
      ensures RxOk()
      ensures left == if loopScore < |old(usedRx)| then 0 else loopScore - |old(usedRx)|
      ensures |old(waiting)| == |old(usedRx)| && Rx() == old(Rx()).Polled(loopScore - left)
      // With a large enough score the stack has everything that arrived, in order.
      ensures loopScore >= |old(usedRx)| ==> received == Real(arrived)
    {
      left := loopScore;
      ghost var n := 0;
      PolledNone(Rx());
      while left > 0 && usedRx != []
        invariant RxOk() && n + left == loopScore && n <= |old(usedRx)| == |old(waiting)|
        invariant Rx() == old(Rx()).Polled(n)
        decreases left
      {
        PolledMore(old(Rx()), n);
        PollOne();
        left := left - 1;
        n := n + 1;
      }
      if usedRx == [] {
        assert waiting == [] && Real([]) == [];
      }
    }
  }
}
