/** The receive buffers of the Ethernet driver as values: who owns each of the 256 buffers, what is
    queued for each client, and which frames each client has been given. */
module EthBuffers {
  import opened Basics

  type Frame = seq<Byte>

  const RX_BUFS: nat := 256
  const CLIENT_RX_BUFS: nat := 128
  const BUF_SIZE: nat := 2048

  datatype Owner = Pool | Nic | Queue(client: nat)

  datatype Entry = Entry(buf: nat, len: nat)

  ghost predicate NoRepeats(ids: seq<nat>) {
    forall i, j :: 0 <= i < j < |ids| ==> ids[i] != ids[j]
  }

  ghost function Bufs(queue: seq<Entry>): (r: seq<nat>)
    ensures |r| == |queue| && forall i :: 0 <= i < |r| ==> r[i] == queue[i].buf
  {
    seq(|queue|, i requires 0 <= i < |queue| => queue[i].buf)
  }

  /** Receive side: owner of each buffer, the free pool as a stack, a queue per client, the memory of
      each buffer; per client the frames accepted for it, those it has read, and how often its queue
      went from empty to non-empty. */
  datatype Rx = Rx(owner: seq<Owner>, pool: seq<nat>, queues: seq<seq<Entry>>, mem: seq<Frame>,
                   accepted: seq<seq<Frame>>, delivered: seq<seq<Frame>>, rises: seq<nat>) {

    /** The pool and the queues list exactly the buffers they own, each once; the rest are the NIC's. */
    ghost predicate Partitioned() {
      match this
      case Rx(owner, pool, queues, _, _, _, _) =>
        && |owner| == RX_BUFS
        && NoRepeats(pool)
        && (forall b: nat {:trigger b in pool} :: b in pool <==> b < RX_BUFS && owner[b] == Pool)
        && (forall c: nat :: c < |queues| ==> NoRepeats(Bufs(queues[c])))
        && (forall c: nat, b: nat {:trigger b in Bufs(queues[c])} :: c < |queues| ==>
              (b in Bufs(queues[c]) <==> b < RX_BUFS && owner[b] == Queue(c)))
        && (forall b: nat :: b < RX_BUFS && owner[b].Queue? ==> owner[b].client < |queues|)
    }

    /** The frame in an entry. */
    ghost function FrameOf(e: Entry): Frame
      requires e.buf < |mem| && e.len <= |mem[e.buf]|
    {
      mem[e.buf][..e.len]
    }

    /** Client c has read the first accepted frames, and the rest are in its queue in order. */
    ghost predicate InOrder(c: nat)
      requires c < |queues| == |accepted| == |delivered|
    {
      && |accepted[c]| == |delivered[c]| + |queues[c]|
      && delivered[c] == accepted[c][..|delivered[c]|]
      && (forall k: nat :: k < |queues[c]| ==>
            && queues[c][k].buf < |mem| && queues[c][k].len <= |mem[queues[c][k].buf]|
            && FrameOf(queues[c][k]) == accepted[c][|delivered[c]| + k])
    }

    ghost predicate Ok() {
      && Partitioned()
      && |mem| == RX_BUFS
      && |queues| == |accepted| == |delivered| == |rises|
      && (forall c: nat :: c < |queues| ==> InOrder(c) && |queues[c]| < CLIENT_RX_BUFS)
    }

    /** The top of the pool goes to the NIC. */
    ghost function Allocated(): Rx
      requires pool != [] && pool[|pool| - 1] < |owner|
    {
      this.(owner := owner[pool[|pool| - 1] := Nic], pool := pool[..|pool| - 1])
    }

    /** The NIC's buffer b goes back to the pool. */
    ghost function Returned(b: nat): Rx
      requires b < |owner|
    {
      this.(owner := owner[b := Pool], pool := pool + [b])
    }

    /** Frame f is written to buffer b. */
    ghost function Filled(b: nat, f: Frame): Rx
      requires b < |mem|
    {
      this.(mem := mem[b := f])
    }

    /** The NIC's buffer b, holding a frame of len bytes, is queued for client c. */
    ghost function Queued(c: nat, b: nat, len: nat): Rx
      requires c < |queues| == |accepted| == |rises| && b < |owner| && b < |mem| && len <= |mem[b]|
    {
      this.(owner := owner[b := Queue(c)],
            queues := queues[c := queues[c] + [Entry(b, len)]],
            accepted := accepted[c := accepted[c] + [mem[b][..len]]],
            rises := if queues[c] == [] then rises[c := rises[c] + 1] else rises)
    }

    /** Client c reads the first frame of its queue; the buffer goes back to the pool. */
    ghost function Read(c: nat): Rx
      requires c < |queues| == |delivered| && queues[c] != []
      requires queues[c][0].buf < |owner| && queues[c][0].buf < |mem| && queues[c][0].len <= |mem[queues[c][0].buf]|
    {
      this.(owner := owner[queues[c][0].buf := Pool],
            pool := pool + [queues[c][0].buf],
            queues := queues[c := queues[c][1..]],
            delivered := delivered[c := delivered[c] + [FrameOf(queues[c][0])]])
    }
  }

  // ---------------------------------------------------------------------------
  // Every step keeps the buffers partitioned and the frames in order

  /** A list of different numbers below n has at most n of them, and fewer if one is missing. */
  lemma {:induction false} NoRepeatsBound(ids: seq<nat>, n: nat, missing: nat)
    requires NoRepeats(ids) && forall i :: 0 <= i < |ids| ==> ids[i] < n
    ensures |ids| <= n
    ensures missing < n && missing !in ids ==> |ids| < n
  {
    var s := set i | 0 <= i < |ids| :: ids[i];
    ElementCount(ids);
    assert s <= Below(n);
    SubsetSize(s, Below(n));
    if missing < n && missing !in ids {
      assert s <= Below(n) - {missing};
      SubsetSize(s, Below(n) - {missing});
    }
  }

  lemma {:induction false} ElementCount(ids: seq<nat>)
    requires NoRepeats(ids)
    ensures |set i | 0 <= i < |ids| :: ids[i]| == |ids|
  {
    var s := set i | 0 <= i < |ids| :: ids[i];
    if ids == [] {
      assert s == {};
    } else {
      var n := |ids| - 1;
      var front := ids[..n];
      ElementCount(front);
      var t := set i | 0 <= i < |front| :: front[i];
      assert s == t + {ids[n]};
      assert ids[n] !in t;
    }
  }

  lemma NoRepeatsMore(ids: seq<nat>, b: nat)
    requires NoRepeats(ids) && b !in ids
    ensures NoRepeats(ids + [b])
  {
  }

  ghost function UpTo(n: nat): (ids: seq<nat>)
    ensures |ids| == n && NoRepeats(ids)
    ensures forall i :: 0 <= i < n ==> ids[i] == i
    ensures forall b: nat :: b in ids <==> b < n
  {
    if n == 0 then [] else UpTo(n - 1) + [n - 1]
  }

  lemma StartOk(r: Rx, n: nat)
    requires r == Rx(seq(RX_BUFS, _ => Pool), UpTo(RX_BUFS), seq(n, _ => []), seq(RX_BUFS, _ => []),
                     seq(n, _ => []), seq(n, _ => []), seq(n, _ => 0))
    ensures r.Ok()
  {
  }

  /** While some buffer is not in the pool, the pool array has room for another. */
  lemma PoolRoom(r: Rx, b: nat)
    requires r.Ok() && b < RX_BUFS && r.owner[b] != Pool
    ensures b !in r.pool && |r.pool| < RX_BUFS
  {
    assert forall i :: 0 <= i < |r.pool| ==> r.pool[i] in r.pool;
    NoRepeatsBound(r.pool, RX_BUFS, b);
  }

  lemma AllocatedOk(r: Rx)
    requires r.Ok() && r.pool != []
    ensures r.pool[|r.pool| - 1] < RX_BUFS && r.owner[r.pool[|r.pool| - 1]] == Pool
    ensures r.Allocated().Ok()
  {
    var b := r.pool[|r.pool| - 1];
    assert b in r.pool;
    var r' := r.Allocated();
    assert forall x: nat :: x in r'.pool <==> x in r.pool && x != b;
    forall c: nat | c < |r.queues|
      ensures r'.InOrder(c)
    {
      assert r.InOrder(c);
    }
  }

  lemma ReturnedOk(r: Rx, b: nat)
    requires r.Ok() && b < RX_BUFS && r.owner[b] == Nic
    ensures r.Returned(b).Ok() && |r.pool| < RX_BUFS
  {
    PoolRoom(r, b);
    NoRepeatsMore(r.pool, b);
    forall c: nat | c < |r.queues|
      ensures r.Returned(b).InOrder(c)
    {
      assert r.InOrder(c);
    }
  }

  lemma FilledOk(r: Rx, b: nat, f: Frame)
    requires r.Ok() && b < RX_BUFS && r.owner[b] == Nic
    ensures r.Filled(b, f).Ok()
  {
    forall c: nat | c < |r.queues|
      ensures r.Filled(b, f).InOrder(c)
    {
      assert forall k: nat :: k < |r.queues[c]| ==> Bufs(r.queues[c])[k] in Bufs(r.queues[c]);
    }
  }

  lemma QueuedOk(r: Rx, c: nat, b: nat, len: nat)
    requires r.Ok() && c < |r.queues| && |r.queues[c]| < CLIENT_RX_BUFS - 1
    requires b < RX_BUFS && r.owner[b] == Nic && len <= |r.mem[b]|
    ensures r.Queued(c, b, len).Ok()
  {
    var r' := r.Queued(c, b, len);
    assert b !in Bufs(r.queues[c]);
    NoRepeatsMore(Bufs(r.queues[c]), b);
    assert Bufs(r'.queues[c]) == Bufs(r.queues[c]) + [b];
    forall i: nat | i < |r.queues|
      ensures r'.InOrder(i) && |r'.queues[i]| < CLIENT_RX_BUFS
    {
      assert r.InOrder(i);
    }
  }

  lemma ReadOk(r: Rx, c: nat)
    requires r.Ok() && c < |r.queues| && r.queues[c] != []
    ensures r.queues[c][0].buf < RX_BUFS && |r.pool| < RX_BUFS
    ensures r.Read(c).Ok()
  {
    ReadPartitioned(r, c);
    forall i: nat | i < |r.queues|
      ensures r.Read(c).InOrder(i) && |r.Read(c).queues[i]| < CLIENT_RX_BUFS
    {
      assert r.InOrder(i);
      if i == c {
        ReadInOrder(r, c);
      }
    }
  }

  /** The list of buffers without its first. */
  lemma BufsTail(q: seq<Entry>)
    requires q != [] && NoRepeats(Bufs(q))
    ensures NoRepeats(Bufs(q[1..])) && q[0].buf in Bufs(q)
    ensures forall x: nat :: x in Bufs(q[1..]) <==> x in Bufs(q) && x != q[0].buf
  {
    var ids, ids' := Bufs(q), Bufs(q[1..]);
    assert ids == [q[0].buf] + ids';
    assert forall k: nat :: k < |ids'| ==> ids'[k] == ids[k + 1];
  }

  lemma ReadPartitioned(r: Rx, c: nat)
    requires r.Ok() && c < |r.queues| && r.queues[c] != []
    ensures r.queues[c][0].buf < RX_BUFS && |r.pool| < RX_BUFS
    ensures r.Read(c).Partitioned()
  {
    var b := r.queues[c][0].buf;
    BufsTail(r.queues[c]);
    PoolRoom(r, b);
    NoRepeatsMore(r.pool, b);
    var r' := r.Read(c);
    forall i: nat, x: nat | i < |r'.queues|
      ensures x in Bufs(r'.queues[i]) <==> x < RX_BUFS && r'.owner[x] == Queue(i)
    {
      assert x in Bufs(r.queues[i]) <==> x < RX_BUFS && r.owner[x] == Queue(i);
    }
  }

  lemma ReadInOrder(r: Rx, c: nat)
    requires r.Ok() && c < |r.queues| && r.queues[c] != [] && r.queues[c][0].buf < RX_BUFS
    ensures r.Read(c).InOrder(c)
  {
    var n := |r.delivered[c]|;
    assert r.FrameOf(r.queues[c][0]) == r.accepted[c][n + 0];
    assert r.accepted[c][..n + 1] == r.accepted[c][..n] + [r.accepted[c][n]];
  }

  // ---------------------------------------------------------------------------
  // A frame for everyone

  ghost predicate HasRoom(r: Rx, c: nat)
    requires c < |r.queues|
  {
    |r.queues[c]| < CLIENT_RX_BUFS - 1
  }

  /** The parts fit together, and the pool lists buffers. */
  ghost predicate Shaped(r: Rx) {
    && |r.queues| == |r.accepted| == |r.rises| && |r.owner| == |r.mem| == RX_BUFS
    && forall k :: 0 <= k < |r.pool| ==> r.pool[k] < RX_BUFS
  }

  lemma OkShaped(r: Rx)
    requires r.Ok()
    ensures Shaped(r)
  {
    assert forall k :: 0 <= k < |r.pool| ==> r.pool[k] in r.pool;
  }

  /** A copy of frame f for client c, in a buffer from the pool, if client and pool allow. */
  ghost function Copied(r: Rx, f: Frame, c: nat): (r': Rx)
    requires Shaped(r) && c < |r.queues|
    ensures Shaped(r') && |r'.queues| == |r.queues|
  {
    if HasRoom(r, c) && r.pool != [] then
      var b := r.pool[|r.pool| - 1];
      r.Allocated().Filled(b, f).Queued(c, b, |f|)
    else r
  }

  lemma CopiedOk(r: Rx, f: Frame, c: nat)
    requires r.Ok() && c < |r.queues|
    ensures Shaped(r) && Copied(r, f, c).Ok()
  {
    OkShaped(r);
    if HasRoom(r, c) && r.pool != [] {
      AllocatedOk(r);
      var b := r.pool[|r.pool| - 1];
      FilledOk(r.Allocated(), b, f);
      QueuedOk(r.Allocated().Filled(b, f), c, b, |f|);
    }
  }

  /** Copies for the clients 1, ..., n - 1, in this order. */
  ghost function CopiedTo(r: Rx, f: Frame, n: nat): (r': Rx)
    requires Shaped(r) && n <= |r.queues|
    ensures Shaped(r') && |r'.queues| == |r.queues|
  {
    if n <= 1 then r else Copied(CopiedTo(r, f, n - 1), f, n - 1)
  }

  /** How many of the clients 1, ..., n - 1 have room. */
  ghost function RoomCount(r: Rx, n: nat): nat
    requires n <= |r.queues|
  {
    if n <= 1 then 0 else RoomCount(r, n - 1) + (if HasRoom(r, n - 1) then 1 else 0)
  }

  /** Those clients. */
  ghost function Roomy(r: Rx, n: nat): (clients: set<nat>)
    requires n <= |r.queues|
    ensures forall j: nat :: j in clients <==> 1 <= j < n && |r.queues[j]| < 127
  {
    if n <= 1 then {} else Roomy(r, n - 1) + (if |r.queues[n - 1]| < 127 then {n - 1} else {})
  }

  lemma {:induction false} RoomCounted(r: Rx, n: nat)
    requires n <= |r.queues|
    ensures RoomCount(r, n) == |Roomy(r, n)|
  {
    if n > 1 {
      RoomCounted(r, n - 1);
    }
  }

  /** Client c gets a copy: it has room, and the clients before it have not used up the pool. */
  ghost predicate GetsCopy(r: Rx, c: nat)
    requires c < |r.queues|
  {
    c >= 1 && HasRoom(r, c) && RoomCount(r, c) < |r.pool|
  }

  /** Client c's queue: one entry longer if a frame came, with a signal exactly if it was empty; else untouched. */
  ghost predicate Grown(r: Rx, r': Rx, c: nat, came: bool)
    requires c < |r.queues| == |r'.queues| == |r.rises| == |r'.rises|
  {
    if came then
      && |r'.queues[c]| == |r.queues[c]| + 1 && r.queues[c] <= r'.queues[c]
      && r'.rises[c] == r.rises[c] + (if r.queues[c] == [] then 1 else 0)
    else r'.queues[c] == r.queues[c] && r'.rises[c] == r.rises[c]
  }

  /** What copying for the clients below n has done: exactly those clients that could got the frame, and
      nothing else has changed for anybody. */
  ghost predicate Reached(r: Rx, r': Rx, f: Frame, n: nat) {
    && n <= |r.queues| == |r'.queues| == |r.accepted| == |r'.accepted| == |r.rises| == |r'.rises|
    && |r.owner| == |r'.owner| == |r.mem| == |r'.mem| == RX_BUFS
    && |r'.pool| == (if RoomCount(r, n) <= |r.pool| then |r.pool| - RoomCount(r, n) else 0)
    && r'.delivered == r.delivered
    && (forall c: nat :: c < |r.queues| ==>
          && r'.accepted[c] == (if c < n && GetsCopy(r, c) then r.accepted[c] + [f] else r.accepted[c])
          && Grown(r, r', c, c < n && GetsCopy(r, c)))
    && (forall b: nat :: b < RX_BUFS && r.owner[b] == Nic ==> r'.owner[b] == Nic && r'.mem[b] == r.mem[b])
    && (forall b: nat :: b < RX_BUFS && r'.owner[b] == Nic ==> r.owner[b] == Nic)
  }

  /** One more copy has been made, for client c. */
  ghost predicate OneCopy(q: Rx, q': Rx, f: Frame, c: nat) {
    && c < |q.queues| == |q'.queues| == |q.accepted| == |q.rises| == |q'.rises|
    && |q.owner| == |q'.owner| == |q.mem| == |q'.mem| == RX_BUFS
    && |q'.pool| == |q.pool| - 1
    && q'.delivered == q.delivered
    && q'.accepted == q.accepted[c := q.accepted[c] + [f]]
    && Grown(q, q', c, true)
    && (forall i: nat :: i < |q.queues| && i != c ==> q'.queues[i] == q.queues[i] && q'.rises[i] == q.rises[i])
    && (forall b: nat :: b < RX_BUFS && q.owner[b] == Nic ==> q'.owner[b] == Nic && q'.mem[b] == q.mem[b])
    && (forall b: nat :: b < RX_BUFS && q'.owner[b] == Nic ==> q.owner[b] == Nic)
  }

  lemma CopyStep(q: Rx, f: Frame, c: nat)
    requires q.Ok() && Shaped(q) && c < |q.queues| && HasRoom(q, c) && q.pool != []
    ensures OneCopy(q, Copied(q, f, c), f, c)
  {
    AllocatedOk(q);
    CopiedOk(q, f, c);
    assert f[..|f|] == f;
  }

  lemma ReachedMore(r: Rx, q: Rx, q': Rx, f: Frame, c: nat)
    requires Reached(r, q, f, c) && OneCopy(q, q', f, c) && GetsCopy(r, c)
    ensures Reached(r, q', f, c + 1)
  {}

  lemma ReachedSame(r: Rx, q: Rx, f: Frame, c: nat)
    requires 1 <= c < |r.queues| && Reached(r, q, f, c) && !GetsCopy(r, c)
    ensures Reached(r, q, f, c + 1)
  {}

  lemma CopiedNext(r: Rx, f: Frame, c: nat)
    requires Shaped(r) && 1 <= c < |r.queues|
    ensures CopiedTo(r, f, c + 1) == Copied(CopiedTo(r, f, c), f, c)
  {}

  lemma {:induction false} CopiedToOk(r: Rx, f: Frame, n: nat)
    requires r.Ok() && Shaped(r) && n <= |r.queues|
    ensures CopiedTo(r, f, n).Ok()
  {
    if n > 1 {
      CopiedToOk(r, f, n - 1);
      CopiedOk(CopiedTo(r, f, n - 1), f, n - 1);
      CopiedNext(r, f, n - 1);
    }
  }

  lemma {:induction false} CopiesReach(r: Rx, f: Frame, n: nat)
    requires r.Ok() && Shaped(r) && n <= |r.queues|
    ensures Reached(r, CopiedTo(r, f, n), f, n)
  {
    hide Reached, Rx.Ok;
    if n <= 1 {
      ReachedNone(r, f, n);
    } else {
      CopiesReach(r, f, n - 1);
      NextReached(r, f, n - 1);
    }
  }

  lemma NextReached(r: Rx, f: Frame, c: nat)
    requires r.Ok() && Shaped(r) && 1 <= c < |r.queues| && Reached(r, CopiedTo(r, f, c), f, c)
    ensures Reached(r, CopiedTo(r, f, c + 1), f, c + 1)
  {
    CopiedToOk(r, f, c);
    CopyOrNot(r, CopiedTo(r, f, c), f, c);
    CopiedNext(r, f, c);
  }

  lemma ReachedNone(r: Rx, f: Frame, n: nat)
    requires r.Ok() && Shaped(r) && n <= |r.queues| && n <= 1
    ensures Reached(r, CopiedTo(r, f, n), f, n)
  {
    assert CopiedTo(r, f, n) == r;
  }

  lemma CopyOrNot(r: Rx, q: Rx, f: Frame, c: nat)
    requires q.Ok() && Shaped(q) && 1 <= c < |r.queues| && Reached(r, q, f, c)
    ensures Reached(r, Copied(q, f, c), f, c + 1)
  {
    assert q.accepted[c] == r.accepted[c];
    assert HasRoom(q, c) <==> HasRoom(r, c);
    if HasRoom(q, c) && q.pool != [] {
      CopyStep(q, f, c);
      ReachedMore(r, q, Copied(q, f, c), f, c);
    } else {
      ReachedSame(r, q, f, c);
    }
  }

  // ---------------------------------------------------------------------------
  // A completed receive

  /** Buffer b, holding frame f, is queued for client c if there is room, else it goes back. */
  ghost function Settled(r: Rx, c: nat, b: nat, f: Frame): Rx
    requires r.Ok() && c < |r.queues| && b < RX_BUFS && r.mem[b] == f
  {
    if HasRoom(r, c) then r.Queued(c, b, |f|) else r.Returned(b)
  }

  /** Frame f has arrived in buffer b: for the addressee, if there is one (below the number of
      clients), else for everyone or for no one. */
  ghost function Completed(r: Rx, addressee: nat, everyone: bool, b: nat, f: Frame): Rx
    requires r.Ok() && |r.queues| > 0 && b < RX_BUFS && r.owner[b] == Nic
  {
    FilledOk(r, b, f);
    var q := r.Filled(b, f);
    if addressee < |q.queues| then Settled(q, addressee, b, f)
    else if everyone then
      OkShaped(q);
      CopiedToOk(q, f, |q.queues|);
      CopiesReach(q, f, |q.queues|);
      Settled(CopiedTo(q, f, |q.queues|), 0, b, f)
    else q.Returned(b)
  }

  /** Client c is among those the frame is for, and there is room for it. */
  ghost predicate Gets(r: Rx, addressee: nat, everyone: bool, c: nat)
    requires c < |r.queues|
  {
    if addressee < |r.queues| then c == addressee && HasRoom(r, c)
    else everyone && (if c == 0 then HasRoom(r, 0) else GetsCopy(r, c))
  }

  ghost function Receivers(r: Rx, addressee: nat, everyone: bool): set<nat> {
    set c: nat | c < |r.queues| && Gets(r, addressee, everyone, c)
  }

  /** What a step did: frame f was accepted for exactly the clients in `to`, of which those were signalled
      whose queues were empty, and nobody else was; nobody read anything, and of the NIC's buffers only b
      has changed hands. */
  ghost predicate Accepts(r: Rx, r': Rx, f: Frame, to: set<nat>, b: nat) {
    && r.Ok() && r'.Ok() && |r'.queues| == |r.queues|
    && r'.delivered == r.delivered
    && (forall c: nat :: c < |r.queues| ==>
          && r'.accepted[c] == (if c in to then r.accepted[c] + [f] else r.accepted[c])
          && Grown(r, r', c, c in to))
    && (forall x: nat :: x < RX_BUFS ==> (r'.owner[x] == Nic <==> r.owner[x] == Nic && x != b))
  }

  lemma SettledAccepts(r: Rx, c: nat, b: nat, f: Frame)
    requires r.Ok() && c < |r.queues| && b < RX_BUFS && r.owner[b] == Nic && r.mem[b] == f
    ensures Accepts(r, Settled(r, c, b, f), f, if HasRoom(r, c) then {c} else {}, b)
  {
    assert f[..|f|] == f;
    if HasRoom(r, c) {
      QueuedOk(r, c, b, |f|);
    } else {
      ReturnedOk(r, b);
    }
  }

  /** The frame goes exactly where it should, once. */
  lemma CompletedAccepts(r: Rx, addressee: nat, everyone: bool, b: nat, f: Frame)
    requires r.Ok() && |r.queues| > 0 && b < RX_BUFS && r.owner[b] == Nic
    ensures Accepts(r, Completed(r, addressee, everyone, b, f), f, Receivers(r, addressee, everyone), b)
  {
    FilledOk(r, b, f);
    var q := r.Filled(b, f);
    var to := Receivers(r, addressee, everyone);
    if addressee < |q.queues| {
      SettledAccepts(q, addressee, b, f);
    } else if everyone {
      EveryoneAccepts(r, b, f, to);
    } else {
      ReturnedOk(q, b);
    }
  }

  lemma EveryoneAccepts(r: Rx, b: nat, f: Frame, to: set<nat>)
    requires r.Ok() && |r.queues| > 0 && b < RX_BUFS && r.owner[b] == Nic
    requires forall c: nat :: c < |r.queues| ==> (c in to <==> if c == 0 then HasRoom(r, 0) else GetsCopy(r, c))
    ensures Accepts(r, Completed(r, |r.queues|, true, b, f), f, to, b)
  {
    FilledOk(r, b, f);
    var q := r.Filled(b, f);
    var n := |q.queues|;
    OkShaped(q);
    CopiedToOk(q, f, n);
    CopiesReach(q, f, n);
    var p := CopiedTo(q, f, n);
    SettledAccepts(p, 0, b, f);
    forall c: nat | c < n
      ensures GetsCopy(q, c) <==> GetsCopy(r, c)
    {
      SameRoom(r, q, c);
    }
    AcceptsAfterCopies(r, q, p, Settled(p, 0, b, f), f, to, b);
  }

  /** The copies for the others, then the frame itself for client 0. */
  lemma AcceptsAfterCopies(r: Rx, q: Rx, p: Rx, w: Rx, f: Frame, to: set<nat>, b: nat)
    requires r.Ok() && |r.queues| > 0 && b < RX_BUFS && q == r.Filled(b, f) && Reached(q, p, f, |r.queues|)
    requires Accepts(p, w, f, if HasRoom(p, 0) then {0} else {}, b)
    requires forall c: nat :: c < |r.queues| ==> (GetsCopy(q, c) <==> GetsCopy(r, c))
    requires forall c: nat :: c < |r.queues| ==> (c in to <==> if c == 0 then HasRoom(r, 0) else GetsCopy(r, c))
    ensures Accepts(r, w, f, to, b)
  {
    forall c: nat | c < |r.queues|
      ensures Grown(r, w, c, c in to)
      ensures w.accepted[c] == if c in to then r.accepted[c] + [f] else r.accepted[c]
    {
      assert p.accepted[0] == q.accepted[0];
      assert p.accepted[c] == if GetsCopy(q, c) then q.accepted[c] + [f] else q.accepted[c];
    }
  }

  lemma {:induction false} SameRoom(r: Rx, q: Rx, n: nat)
    requires q.queues == r.queues && n <= |r.queues|
    ensures RoomCount(q, n) == RoomCount(r, n)
  {
    if n > 1 {
      SameRoom(r, q, n - 1);
    }
  }
}
