/** The Ethernet driver component: it hands received frames to its clients and sends theirs. */
module EthDriver {
  import opened EthBuffers

  const CLIENT_TX_BUFS: nat := 128

  /** The outcome of the NIC driver's raw_tx. */
  datatype RawTx = Enqueued | Failed | Complete

  /** What client_tx returns: -1, or what raw_tx said. */
  datatype TxResult = Rejected | Tx(outcome: RawTx)

  /** The frame with the client's own address as its source. */
  function Stamped(f: Frame, mac: Frame): Frame
    requires |f| >= 12 && |mac| == 6
  {
    f[..6] + mac + f[12..]
  }

  class EthClient {
    const mac: Frame
    var shouldNotify: bool
    var emits: nat
    var head: nat
    var tail: nat
    const pendingRx: array<Entry>
    var numTx: nat
    const pendingTx: array<nat>
    const txMem: array<Frame>
    /** The transmit frames the NIC has, as they were handed to it. */
    ghost var inFlight: map<nat, Frame>

    constructor (mac: Frame)
      requires |mac| == 6
      ensures this.mac == mac && shouldNotify && emits == 0 && inFlight == map[]
      ensures RxOk() && Pending() == [] && TxOk() && numTx == CLIENT_TX_BUFS
      ensures fresh(pendingRx) && fresh(pendingTx) && fresh(txMem)
    {
      this.mac := mac;
      shouldNotify, emits, head, tail, numTx := true, 0, 0, 0, CLIENT_TX_BUFS;
      pendingRx := new Entry[CLIENT_RX_BUFS](_ => Entry(0, 0));
      pendingTx := new nat[CLIENT_TX_BUFS](i => i);
      txMem := new Frame[CLIENT_TX_BUFS](_ => []);
      inFlight := map[];
      new;
      assert pendingTx[..numTx] == UpTo(CLIENT_TX_BUFS);
    }

    ghost predicate IsNew(mac: Frame)
      reads this, pendingRx, pendingTx, txMem
    {
      this.mac == mac && shouldNotify && emits == 0 && RxOk() && Pending() == [] && TxOk()
    }

    ghost predicate RxOk()
      reads this
    {
      pendingRx.Length == CLIENT_RX_BUFS && head < CLIENT_RX_BUFS && tail < CLIENT_RX_BUFS
    }

    /** The queue of received frames, first to be read first. */
    ghost function Pending(): (q: seq<Entry>)
      requires RxOk()
      reads this, pendingRx
      ensures |q| < CLIENT_RX_BUFS
    {
      if tail <= head then pendingRx[tail..head] else pendingRx[tail..] + pendingRx[..head]
    }

    /** Free transmit frames and those in flight make up all 128, and the memory of a frame in flight
        is what was handed over. */
    ghost predicate TxOk()
      reads this, pendingTx, txMem
    {
      && |mac| == 6
      && pendingTx.Length == CLIENT_TX_BUFS && txMem.Length == CLIENT_TX_BUFS && numTx <= CLIENT_TX_BUFS
      && NoRepeats(pendingTx[..numTx])
      && (forall t: nat {:trigger t in pendingTx[..numTx]} ::
            t in pendingTx[..numTx] <==> t < CLIENT_TX_BUFS && t !in inFlight)
      && (forall t :: t in inFlight ==> t < CLIENT_TX_BUFS && txMem[t] == inFlight[t])
    }

    /** The queue has no room: one slot always stays unused. */
    method IsFull() returns (full: bool)
      requires RxOk()
      ensures full <==> |Pending()| == CLIENT_RX_BUFS - 1
    {
      full := (head + 1) % CLIENT_RX_BUFS == tail;
    }

    /** give_client_buf. */
    method GiveClientBuf(e: Entry)
      requires RxOk() && |Pending()| < CLIENT_RX_BUFS - 1
      modifies this`head, this`shouldNotify, this`emits, pendingRx
      ensures RxOk() && Pending() == old(Pending()) + [e]
      ensures emits == old(emits) + (if old(shouldNotify) then 1 else 0) && !shouldNotify
    {
      ghost var was := Pending();
      pendingRx[head] := e;
      head := (head + 1) % CLIENT_RX_BUFS;
      assert Pending() == was + [e];
      if shouldNotify {
        emits := emits + 1;
        shouldNotify := false;
      }
    }

    /** The queue part of client_rx. */
    method TakePending() returns (e: Entry)
      requires RxOk() && Pending() != []
      modifies this`tail, this`shouldNotify
      ensures RxOk() && [e] + Pending() == old(Pending())
      ensures shouldNotify == (old(shouldNotify) || Pending() == [])
    {
      ghost var was := Pending();
      e := pendingRx[tail];
      tail := (tail + 1) % CLIENT_RX_BUFS;
      if tail == head {
        shouldNotify := true;
      }
      assert was == [e] + Pending();
    }

    /** Copy the packet into transmit frame t, then overwrite its source address. */
    method CopyPacket(t: nat, packet: Frame, len: nat)
      requires t < txMem.Length && 12 <= len <= |packet| && |mac| == 6
      modifies txMem
      ensures txMem[..] == old(txMem[..])[t := Stamped(packet[..len], mac)]
    {
      txMem[t] := packet[..len];
      for i := 0 to 6
        invariant forall k: nat :: k < txMem.Length && k != t ==> txMem[k] == old(txMem[k])
        invariant txMem[t] == packet[..6] + mac[..i] + packet[6 + i..len]
      {
        txMem[t] := txMem[t][6 + i := mac[i]];
      }
      assert mac[..6] == mac && packet[..len][..6] == packet[..6] && packet[..len][12..] == packet[12..len];
      assert txMem[t] == Stamped(packet[..len], mac);
    }

    /** client_tx: copy the packet, put the client's own address in it, and hand it to the NIC.  With no
        free transmit frame the packet is dropped without a word. */
    method ClientTx(packet: Frame, length: int, raw: RawTx) returns (result: TxResult)
      requires TxOk() && |packet| >= BUF_SIZE
      modifies this`numTx, this`inFlight, txMem
      ensures TxOk()
      ensures length < 12 ==> result == Rejected
      ensures length >= 12 && old(numTx) == 0 ==> result == Tx(Complete)
      ensures length >= 12 && old(numTx) > 0 ==> result == Tx(raw)
      ensures length < 12 || old(numTx) == 0 || raw != Enqueued ==> numTx == old(numTx) && inFlight == old(inFlight)
      ensures length >= 12 && old(numTx) > 0 && raw == Enqueued ==>
        && numTx == old(numTx) - 1
        && inFlight == old(inFlight)[pendingTx[numTx] :=
             Stamped(packet[..if length > BUF_SIZE then BUF_SIZE else length], mac)]
    {
      var len := if length > BUF_SIZE then BUF_SIZE else length;
      if len < 12 {
        return Rejected;
      }
      result := Tx(Complete);
      ghost var pool := pendingTx[..numTx];
      if numTx != 0 {
        assert pendingTx[numTx - 1] in pool;
        numTx := numTx - 1;
        var t := pendingTx[numTx];
        CopyPacket(t, packet, len);
        result := Tx(raw);
        if raw != Enqueued {
          numTx := numTx + 1;
          assert pendingTx[..numTx] == pool;
        } else {
          Shorter(pool);
          assert pendingTx[..numTx] == pool[..numTx];
          inFlight := inFlight[t := txMem[t]];
          assert forall x: nat :: x in pool[..numTx] <==> x in pool && x != t;
          assert forall x: nat :: x in pendingTx[..numTx] <==> x < CLIENT_TX_BUFS && x !in inFlight;
        }
      }
    }

    lemma Shorter(ids: seq<nat>)
      requires NoRepeats(ids) && ids != []
      ensures NoRepeats(ids[..|ids| - 1])
      ensures forall t: nat :: t in ids[..|ids| - 1] <==> t in ids && t != ids[|ids| - 1]
    {
    }

    /** eth_tx_complete: the NIC is done with frame t. */
    method EthTxComplete(t: nat)
      requires TxOk() && t in inFlight
      modifies this`numTx, this`inFlight, pendingTx
      ensures TxOk()
      ensures inFlight == old(inFlight) - {t} && numTx == old(numTx) + 1
      ensures pendingTx[..numTx] == old(pendingTx[..numTx]) + [t]
    {
      ghost var pool := pendingTx[..numTx];
      assert forall i :: 0 <= i < |pool| ==> pool[i] in pool;
      NoRepeatsBound(pool, CLIENT_TX_BUFS, t);
      NoRepeatsMore(pool, t);
      pendingTx[numTx] := t;
      numTx := numTx + 1;
      inFlight := inFlight - {t};
      assert pendingTx[..numTx] == pool + [t];
    }
  }

  // ---------------------------------------------------------------------------
  // Where a frame goes

  ghost predicate AddressedTo(mac: Frame, f: Frame) {
    |f| >= 6 && f[..6] == mac
  }

  /** The first client among the first n whose address the frame bears, n if there is none. */
  ghost function FirstMatch(macs: seq<Frame>, f: Frame, n: nat): (c: nat)
    requires n <= |macs|
    ensures c <= n && (c < n ==> AddressedTo(macs[c], f))
    ensures forall i :: 0 <= i < c ==> !AddressedTo(macs[i], f)
  {
    if n == 0 then 0
    else
      var c := FirstMatch(macs, f, n - 1);
      if c < n - 1 then c else if AddressedTo(macs[n - 1], f) then n - 1 else n
  }

  /** Six bytes of ones, or a destination in the IP multicast range. */
  predicate ForEveryone(f: Frame) {
    || (|f| >= 6 && f[..6] == seq(6, _ => 255))
    || (|f| >= 34 && f[30] / 16 == 14)
  }

  /** The first clients, as they are set up, and all different. */
  ghost predicate SetUp(cs: seq<EthClient>, macs: seq<Frame>)
    reads cs, set c | c in cs :: c.pendingRx
    reads set c | c in cs :: c.pendingTx, set c | c in cs :: c.txMem
  {
    && |cs| <= |macs|
    && (forall c: nat :: c < |cs| ==> cs[c].IsNew(macs[c]))
    && (forall i: nat, j: nat :: i < j < |cs| ==> cs[i] != cs[j] && cs[i].pendingRx != cs[j].pendingRx)
  }

  /** The loop of server_init over the clients. */
  method NewClients(macs: seq<Frame>) returns (cs: seq<EthClient>)
    requires forall c :: 0 <= c < |macs| ==> |macs[c]| == 6
    ensures |cs| == |macs| && SetUp(cs, macs)
    ensures forall c :: c in cs ==> fresh(c) && fresh(c.pendingRx)
  {
    cs := [];
    while |cs| < |macs|
      invariant SetUp(cs, macs)
      invariant forall c :: c in cs ==> fresh(c) && fresh(c.pendingRx)
    {
      var client := new EthClient(macs[|cs|]);
      assert client.IsNew(macs[|cs|]);
      hide EthClient.IsNew;
      assert forall c: nat :: c < |cs| ==> cs[c] in cs;
      cs := cs + [client];
    }
  }

  class EthDriver {
    const clients: seq<EthClient>
    const rxBufPool: array<nat>
    const mem: array<Frame>
    var numRxBufs: nat
    ghost var rx: Rx

    /** server_init: every receive buffer is in the pool, every client starts with an empty queue. */
    constructor (macs: seq<Frame>)
      requires |macs| >= 1 && forall c :: 0 <= c < |macs| ==> |macs[c]| == 6
      ensures Valid() && rx.pool == UpTo(RX_BUFS) && |clients| == |macs|
      ensures forall c: nat :: c < |macs| ==>
        clients[c].mac == macs[c] && rx.accepted[c] == [] && rx.delivered[c] == [] && rx.rises[c] == 0
    {
      var cs := NewClients(macs);
      clients := cs;
      rxBufPool := new nat[RX_BUFS](i => i);
      mem := new Frame[RX_BUFS](_ => []);
      numRxBufs := RX_BUFS;
      var n := |macs|;
      rx := Rx(seq(RX_BUFS, _ => Pool), UpTo(RX_BUFS), seq(n, _ => []), seq(RX_BUFS, _ => []),
               seq(n, _ => []), seq(n, _ => []), seq(n, _ => 0));
      new;
      StartOk(rx, n);
      assert rxBufPool[..numRxBufs] == rx.pool;
      assert mem[..] == rx.mem;
    }

    ghost function Queues(): set<array<Entry>> {
      set c: nat | c < |clients| :: clients[c].pendingRx
    }

    ghost predicate Distinct() {
      && |clients| >= 1
      && rxBufPool.Length == RX_BUFS && mem.Length == RX_BUFS
      && forall i: nat, j: nat :: i < j < |clients| ==>
           clients[i] != clients[j] && clients[i].pendingRx != clients[j].pendingRx
    }

    /** Client c's part of the receive state: its queue, its wake-up flag, its notifications. */
    ghost predicate ClientShows(c: nat, r: Rx)
      requires c < |clients|
      reads clients[c], clients[c].pendingRx
    {
      && c < |r.queues| && c < |r.rises|
      && clients[c].RxOk()
      && clients[c].Pending() == r.queues[c]
      && (clients[c].shouldNotify <==> r.queues[c] == [])
      && clients[c].emits == r.rises[c]
    }

    /** The arrays and counters are those of the receive state r. */
    ghost predicate Shows(r: Rx)
      reads this, rxBufPool, mem, clients, Queues()
    {
      && numRxBufs <= rxBufPool.Length && rxBufPool[..numRxBufs] == r.pool
      && mem[..] == r.mem
      && |r.queues| == |clients|
      && forall c: nat :: c < |clients| ==> ClientShows(c, r)
    }

    ghost predicate Valid()
      reads this, rxBufPool, mem, clients, Queues()
    {
      Distinct() && Shows(rx) && rx.Ok()
    }

    /** A step that leaves queues and notifications alone leaves every client as it was. */
    twostate lemma ClientsKept(r: Rx, new r': Rx)
      requires forall c: nat :: c < |clients| ==> old(ClientShows(c, r))
      requires r'.queues == r.queues && r'.rises == r.rises
      requires forall c: nat :: c < |clients| ==> unchanged(clients[c]) && unchanged(clients[c].pendingRx)
      ensures forall c: nat :: c < |clients| ==> ClientShows(c, r')
    {
      forall c: nat | c < |clients|
        ensures ClientShows(c, r')
      {
        assert old(ClientShows(c, r));
      }
    }

    /** eth_allocate_rx_buf: the NIC asks for a buffer. */
    method EthAllocateRxBuf(size: nat) returns (ok: bool, b: nat)
      requires Valid()
      modifies this`numRxBufs, this`rx
      ensures Valid()
      ensures ok <==> size <= BUF_SIZE && old(rx).pool != []
      ensures ok ==> b < RX_BUFS && b == old(rx).pool[|old(rx).pool| - 1] && rx == old(rx).Allocated()
      ensures !ok ==> rx == old(rx)
    {
      if size > BUF_SIZE || numRxBufs == 0 {
        return false, 0;
      }
      AllocatedOk(rx);
      numRxBufs := numRxBufs - 1;
      rx := rx.Allocated();
      ClientsKept(old(rx), rx);
      return true, rxBufPool[numRxBufs];
    }

    /** The end of the error path of eth_rx_complete: buffer b goes back to the pool. */
    method ReturnBuf(b: nat)
      requires Valid() && b < RX_BUFS && rx.owner[b] == Nic
      modifies this`numRxBufs, this`rx, rxBufPool
      ensures Valid() && rx == old(rx).Returned(b)
    {
      ReturnedOk(rx, b);
      rxBufPool[numRxBufs] := b;
      numRxBufs := numRxBufs + 1;
      rx := rx.Returned(b);
      ClientsKept(old(rx), rx);
    }

    /** The NIC, or the copying for a broadcast, writes frame f to buffer b. */
    method FillBuf(b: nat, f: Frame)
      requires Valid() && b < RX_BUFS && rx.owner[b] == Nic
      modifies this`rx, mem
      ensures Valid() && rx == old(rx).Filled(b, f)
    {
      FilledOk(rx, b, f);
      mem[b] := f;
      rx := rx.Filled(b, f);
      ClientsKept(old(rx), rx);
    }

    /** give_client_buf for client c, whose queue has room. */
    method Deliver(c: nat, b: nat, len: nat)
      requires Valid() && c < |clients| && b < RX_BUFS && rx.owner[b] == Nic && len <= |rx.mem[b]|
      requires |rx.queues[c]| < CLIENT_RX_BUFS - 1
      modifies this`rx, clients[c], clients[c].pendingRx
      ensures Valid() && rx == old(rx).Queued(c, b, len)
    {
      QueuedOk(rx, c, b, len);
      assert ClientShows(c, rx);
      clients[c].GiveClientBuf(Entry(b, len));
      ghost var rx' := rx.Queued(c, b, len);
      forall i: nat | i < |clients|
        ensures ClientShows(i, rx')
      {
        if i != c {
          assert old(ClientShows(i, rx));
        }
      }
      rx := rx';
    }

    /** The addresses of the clients. */
    ghost function Macs(): (macs: seq<Frame>)
      ensures |macs| == |clients| && forall c :: 0 <= c < |macs| ==> macs[c] == clients[c].mac
    {
      seq(|clients|, c requires 0 <= c < |clients| => clients[c].mac)
    }

    /** detect_client: the number of clients stands for NULL. */
    method DetectClient(f: Frame) returns (c: nat)
      ensures c == FirstMatch(Macs(), f, |clients|)
    {
      if |f| < 6 {
        return |clients|;
      }
      c := 0;
      while c < |clients|
        invariant c <= |clients|
        invariant forall i :: 0 <= i < c ==> !AddressedTo(Macs()[i], f)
      {
        if clients[c].mac == f[..6] {
          return;
        }
        c := c + 1;
      }
    }

    /** One turn of the broadcast loop. */
    method CopyFor(c: nat, f: Frame)
      requires Valid() && c < |clients| && |f| <= BUF_SIZE
      modifies this`numRxBufs, this`rx, mem, clients[c], clients[c].pendingRx
      ensures Valid() && Shaped(old(rx)) && rx == Copied(old(rx), f, c)
    {
      assert ClientShows(c, rx);
      CopiedOk(rx, f, c);
      var full := clients[c].IsFull();
      if !full {
        var ok, b := EthAllocateRxBuf(|f|);
        if ok {
          FillBuf(b, f);
          Deliver(c, b, |f|);
        }
      }
    }

    /** The broadcast loop of eth_rx_complete: a copy for every client but the first. */
    method CopyForOthers(f: Frame)
      requires Valid() && |f| <= BUF_SIZE
      modifies this`numRxBufs, this`rx, mem, clients, Queues()
      ensures Valid() && Shaped(old(rx)) && rx == CopiedTo(old(rx), f, |clients|)
    {
      OkShaped(rx);
      ghost var r := rx;
      var i := 1;
      assert CopiedTo(r, f, 1) == r;
      hide Copied, CopiedTo;
      while i < |clients|
        invariant 1 <= i <= |clients| == |r.queues| && Valid()
        invariant rx == CopiedTo(r, f, i)
      {
        CopyFor(i, f);
        CopiedNext(r, f, i);
        i := i + 1;
      }
    }

    /** The end of eth_rx_complete: buffer b, holding frame f, for client c or back to the pool. */
    method DeliverOrReturn(c: nat, b: nat, f: Frame)
      requires Valid() && c < |clients| && b < RX_BUFS && rx.owner[b] == Nic && rx.mem[b] == f
      modifies this`numRxBufs, this`rx, rxBufPool, clients[c], clients[c].pendingRx
      ensures Valid()
      ensures rx == if HasRoom(old(rx), c) then old(rx).Queued(c, b, |f|) else old(rx).Returned(b)
    {
      assert ClientShows(c, rx);
      var full := clients[c].IsFull();
      if full {
        ReturnBuf(b);
      } else {
        Deliver(c, b, |f|);
      }
    }

    /** The frame's first six bytes are the address of client c. */
    ghost predicate Bears(f: Frame, c: nat)
      requires c < |clients|
    {
      |f| >= 6 && f[..6] == clients[c].mac
    }

    /** What a frame for no client in particular says of itself: it is for everyone if its first six bytes are
        ones, or if it is long enough to hold an IP header and the destination there is 224.0.0.0 to
        239.255.255.255; client 0 gets it if it has room, and every other client that has room, as long as
        there is a free buffer for each such client before it and for itself. */
    ghost predicate GetsGroupFrame(r: Rx, f: Frame, c: nat)
      requires c < |r.queues|
    {
      && ((|f| >= 6 && forall i :: 0 <= i < 6 ==> f[i] == 255) || (|f| >= 34 && 224 <= f[30] <= 239))
      && |r.queues[c]| < 127
      && (c == 0 || |Roomy(r, c)| < |r.pool|)
    }

    /** Client c gets frame f when it arrives in state r: it is the first client whose address the frame bears
        and it has room, or no client's address is there and it gets frames for everyone. */
    ghost predicate IsFor(r: Rx, f: Frame, c: nat)
      requires c < |clients| == |r.queues|
    {
      if exists i: nat :: i < |clients| && Bears(f, i) then
        Bears(f, c) && (forall i: nat :: i < c ==> !Bears(f, i)) && |r.queues[c]| < 127
      else GetsGroupFrame(r, f, c)
    }

    /** The clients frame f goes to when it arrives in state r. */
    ghost function ReceiversOf(r: Rx, f: Frame): set<nat>
      requires |r.queues| == |clients|
    {
      set c: nat | c < |clients| && IsFor(r, f, c)
    }

    lemma AsMeant(r: Rx, f: Frame)
      requires |r.queues| == |clients|
      ensures Receivers(r, FirstMatch(Macs(), f, |clients|), ForEveryone(f)) == ReceiversOf(r, f)
    {
      var addressee := FirstMatch(Macs(), f, |clients|);
      assert ForEveryone(f) <==>
        ((|f| >= 6 && forall i :: 0 <= i < 6 ==> f[i] == 255) || (|f| >= 34 && 224 <= f[30] <= 239));
      forall c: nat | c < |clients|
        ensures Gets(r, addressee, ForEveryone(f), c) <==> IsFor(r, f, c)
      {
        RoomCounted(r, c);
        assert AddressedTo(Macs()[c], f) <==> Bears(f, c);
        assert addressee < |clients| ==> Bears(f, addressee);
        assert forall i: nat :: i < |clients| ==> (AddressedTo(Macs()[i], f) <==> Bears(f, i));
      }
    }

    /** eth_rx_complete for one buffer: the frame goes to the client it is addressed to, or to everyone,
        or nowhere; to each client at most once, and only if there is room. */
    method RxCompleteOne(b: nat, f: Frame)
      requires Valid() && b < RX_BUFS && rx.owner[b] == Nic && |f| <= BUF_SIZE
      modifies this`numRxBufs, this`rx, mem, rxBufPool, clients, Queues()
      ensures Valid() && Accepts(old(rx), rx, f, ReceiversOf(old(rx), f), b)
    {
      ghost var addressee := FirstMatch(Macs(), f, |clients|);
      CompletedAccepts(rx, addressee, ForEveryone(f), b, f);
      AsMeant(rx, f);
      Arrived(b, f);
    }

    method Arrived(b: nat, f: Frame)
      requires Valid() && b < RX_BUFS && rx.owner[b] == Nic && |f| <= BUF_SIZE
      modifies this`numRxBufs, this`rx, mem, rxBufPool, clients, Queues()
      ensures Valid()
      ensures rx == Completed(old(rx), FirstMatch(Macs(), f, |clients|), ForEveryone(f), b, f)
    {
      FillBuf(b, f);
      var c := DetectClient(f);
      if c == |clients| {
        if !ForEveryone(f) {
          ReturnBuf(b);
          return;
        }
        OkShaped(rx);
        CopiedToOk(rx, f, |clients|);
        CopiesReach(rx, f, |clients|);
        CopyForOthers(f);
        c := 0;
      }
      DeliverOrReturn(c, b, f);
    }

    /** eth_rx_complete: a batch of any other size than one is dropped, and its buffers go back. */
    method EthRxComplete(cookies: seq<nat>, frames: seq<Frame>)
      requires Valid() && |frames| == |cookies| && NoRepeats(cookies)
      requires forall i :: 0 <= i < |cookies| ==> cookies[i] < RX_BUFS && rx.owner[cookies[i]] == Nic
      requires forall i :: 0 <= i < |frames| ==> |frames[i]| <= BUF_SIZE
      modifies this`numRxBufs, this`rx, mem, rxBufPool, clients, Queues()
      ensures Valid()
      ensures |cookies| == 1 ==> Accepts(old(rx), rx, frames[0], ReceiversOf(old(rx), frames[0]), cookies[0])
      ensures |cookies| != 1 ==>
        && rx.accepted == old(rx).accepted && rx.delivered == old(rx).delivered
        && rx.queues == old(rx).queues && rx.rises == old(rx).rises
        && rx.pool == old(rx).pool + cookies
    {
      if |cookies| != 1 {
        var i := 0;
        while i < |cookies|
          invariant i <= |cookies| && Valid()
          invariant rx.accepted == old(rx).accepted && rx.delivered == old(rx).delivered
          invariant rx.queues == old(rx).queues && rx.rises == old(rx).rises
          invariant rx.pool == old(rx).pool + cookies[..i]
          invariant forall j :: i <= j < |cookies| ==> rx.owner[cookies[j]] == Nic
        {
          ReturnBuf(cookies[i]);
          i := i + 1;
        }
      } else {
        RxCompleteOne(cookies[0], frames[0]);
      }
    }

    /** client_rx: the first frame of the client's queue, -1 when there is none, and otherwise whether
        there are more.  The buffer goes back to the pool. */
    method ClientRx(c: nat) returns (ret: int, f: Frame)
      requires Valid() && c < |clients|
      modifies this`numRxBufs, this`rx, rxBufPool, clients[c]
      ensures Valid()
      ensures ret == if |old(rx).queues[c]| == 0 then -1 else if |old(rx).queues[c]| == 1 then 0 else 1
      ensures ret == -1 ==> rx == old(rx)
      ensures ret != -1 ==>
        && rx == old(rx).Read(c)
        && |old(rx).delivered[c]| < |old(rx).accepted[c]|
        && f == old(rx).accepted[c][|old(rx).delivered[c]|]
    {
      f := [];
      var client := clients[c];
      assert ClientShows(c, rx);
      if client.head == client.tail {
        client.shouldNotify := true;
        ClientRead(c, old(rx), rx);
        return -1, f;
      }
      ReadOk(rx, c);
      assert rx.InOrder(c);
      var e := client.TakePending();
      f := mem[e.buf][..e.len];
      assert f == rx.FrameOf(rx.queues[c][0]);
      ret := if client.tail == client.head then 0 else 1;
      rxBufPool[numRxBufs] := e.buf;
      numRxBufs := numRxBufs + 1;
      rx := rx.Read(c);
      ClientRead(c, old(rx), rx);
    }

    /** Only client c's queue has changed. */
    twostate lemma ClientRead(c: nat, new r: Rx, new r': Rx)
      requires Distinct() && c < |clients| == |r.queues| == |r'.queues| && r'.rises == r.rises
      requires forall i: nat :: i < |clients| ==> old(ClientShows(i, r))
      requires forall i: nat :: i < |clients| && i != c ==> unchanged(clients[i]) && r'.queues[i] == r.queues[i]
      requires forall i: nat :: i < |clients| ==> unchanged(clients[i].pendingRx)
      requires c < |r'.queues| && clients[c].RxOk() && clients[c].Pending() == r'.queues[c]
      requires clients[c].shouldNotify <==> r'.queues[c] == []
      requires clients[c].emits == old(clients[c].emits)
      ensures forall i: nat :: i < |clients| ==> ClientShows(i, r')
    {
      forall i: nat | i < |clients|
        ensures ClientShows(i, r')
      {
        assert old(ClientShows(i, r));
      }
    }
  }
}
