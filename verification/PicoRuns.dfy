/** Whole runs of the PicoServer's socket bookkeeping: what any number of clients' calls, mixed with
    the stack's callbacks, leave in the tables, and where every event went. */
module PicoRuns {
  import opened Basics
  import opened PicoClient

  /** Memory, and what the stack answers, as one call to open or accept finds them. */
  datatype Luck = Luck(stack: Option<nat>, calloc: bool, putId: bool, putAddr: bool, layout: map<nat, nat>)
  {
    predicate Good() {
      calloc && stack.Some? && putId && putAddr
    }
  }

  /** One call: open, accept, close or poll by a client, or an event raised by the stack. */
  datatype Call =
    | Open(client: nat, protocol: Protocol, luck: Luck)
    | Accept(client: nat, fd: int, luck: Luck)
    | Close(client: nat, fd: int)
    | Poll(client: nat)
    | Raise(address: nat, events: Events, alloc: bool)

  /** Whose socket an address leads to, and under which descriptor. */
  datatype Place = Place(client: nat, fd: int)

  /** What the tables mean, client by client: descriptors in use, descriptors in the event set, and the log. */
  datatype View = View(
    filed: map<nat, Place>,
    inUse: map<nat, set<nat>>,
    pending: map<nat, set<nat>>,
    logs: map<nat, seq<Entry>>)

  ghost function Seen(server: Server): View
    reads server, server.clients, server.addrTable.Values
  {
    View(
      map a | a in server.addrTable :: Place(server.addrTable[a].clientId, server.addrTable[a].socketFd),
      map c: nat | c < |server.clients| :: server.clients[c].socketTable.Keys,
      map c: nat | c < |server.clients| :: server.clients[c].eventSet,
      map c: nat | c < |server.clients| :: server.clients[c].log)
  }

  /** The descriptor that filing an address again takes away. */
  ghost function Former(v: View, address: nat): set<nat> {
    if address in v.filed && v.filed[address].fd >= 0 then {v.filed[address].fd} else {}
  }

  /** A socket is opened for client c, unless something is missing. */
  ghost predicate Opens(v: View, c: nat, luck: Luck, w: View)
    requires c in v.inUse && c in v.pending && c in v.logs
  {
    if !luck.Good() || (forall j: nat :: 1 <= j <= INT_MAX ==> j in v.inUse[c]) then w == v
    else
      exists id: nat :: 1 <= id <= INT_MAX && id !in v.inUse[c] && OpenedAs(v, c, luck.stack.value, id, w)
  }

  ghost predicate OpenedAs(v: View, c: nat, address: nat, id: nat, w: View)
    requires c in v.inUse && c in v.pending && c in v.logs
  {
    && w.filed == v.filed[address := Place(c, id)]
    && w.inUse == v.inUse[c := v.inUse[c] - Former(v, address) + {id}]
    && w.pending == v.pending[c := v.pending[c] - Former(v, address)]
    && w.logs == v.logs[c := v.logs[c] + [Opened(id)]]
  }

  ghost predicate Closes(v: View, c: nat, fd: int, w: View)
    requires c in v.inUse && c in v.pending
  {
    if fd < 0 || fd !in v.inUse[c] then w == v
    else
      && w.filed == (map a | a in v.filed && v.filed[a] != Place(c, fd) :: v.filed[a])
      && w.inUse == v.inUse[c := v.inUse[c] - {fd as nat}]
      && w.pending == v.pending[c := v.pending[c] - {fd as nat}]
      && w.logs == v.logs
  }

  /** A poll reports some pending socket with everything that was posted on it since its last report. */
  ghost predicate Polls(v: View, c: nat, w: View)
    requires c in v.pending && c in v.logs
  {
    if v.pending[c] == {} then w == v
    else
      exists fd :: fd in v.pending[c] &&
        w == v.(pending := v.pending[c := v.pending[c] - {fd}],
                logs := v.logs[c := v.logs[c] + [Polled(fd, Unpolled(v.logs[c], fd))]])
  }

  /** An event is posted to the owner of the address, and to nobody else. */
  ghost predicate Raises(v: View, address: nat, events: Events, w: View) {
    if address !in v.filed || events == 0 then w == v
    else
      var Place(c, fd) := v.filed[address];
      && fd >= 0 && c in v.pending && c in v.logs
      && w == v.(pending := v.pending[c := v.pending[c] + {fd as nat}],
                 logs := v.logs[c := v.logs[c] + [Posted(fd, events)]])
  }

  /** What each call means: the view after it, given the view before. */
  ghost predicate Moves(v: View, call: Call, w: View) {
    (call.Raise? || (call.client in v.inUse && call.client in v.pending && call.client in v.logs)) &&
    match call
    case Open(c, _, luck) => Opens(v, c, luck, w)
    case Accept(c, fd, luck) => if fd < 0 || fd !in v.inUse[c] then w == v else Opens(v, c, luck, w)
    case Close(c, fd) => Closes(v, c, fd, w)
    case Poll(c) => Polls(v, c, w)
    case Raise(address, events, _) => Raises(v, address, events, w)
  }

  /** No call leaves the tables inconsistent, forgets an event, or reports one wrongly. */
  ghost predicate Sound(server: Server)
    reads server, server.clients, server.addrTable.Values
    reads set c, s | 0 <= c < |server.clients| && s in server.clients[c].socketTable.Values :: s
  {
    server.Valid() && forall c: nat :: c < |server.clients| ==> server.Remembered(c) && Truthful(server.clients[c].log)
  }

  /** The call finds the id counter within INT_MAX, an address that is new or whose old socket is the
      caller's and sits in the bucket of its number, and memory for an event; those are the calls after which
      the tables can be inconsistent or the server has stopped. */
  predicate Regular(server: Server, call: Call)
    reads server, server.clients, server.addrTable.Values
  {
    match call
    case Open(c, _, luck) => RegularLuck(server, c, luck)
    case Accept(c, _, luck) => RegularLuck(server, c, luck)
    case Close(c, _) => true
    case Poll(c) => true
    case Raise(address, events, alloc) => address in server.addrTable && events != 0 ==> alloc
  }

  predicate RegularLuck(server: Server, c: nat, luck: Luck)
    reads server, server.clients, server.addrTable.Values
  {
    && c < |server.clients| && 1 <= server.clients[c].bumpIndex <= INT_MAX
    && (luck.stack.Some? ==> server.Clean(c, luck.stack.value, luck.layout))
  }

  /** A caller is one of the clients, and a bucket holds one key at most. */
  ghost predicate Proper(call: Call, numClients: nat) {
    match call
    case Open(c, _, luck) => c < numClients && Injective(luck.layout)
    case Accept(c, _, luck) => c < numClients && Injective(luck.layout)
    case Close(c, _) => c < numClients
    case Poll(c) => c < numClients
    case Raise(_, _, _) => true
  }

  /** Descriptors and owners are where the tables say, so they have not changed if the tables have not. */
  twostate lemma SamePlaces(server: Server)
    requires old(server.Valid()) && server.Valid() && server.clients == old(server.clients)
    requires server.addrTable == old(server.addrTable)
    requires forall c: nat :: c < |server.clients| ==>
      server.clients[c].socketTable == old(server.clients[c].socketTable)
    ensures Seen(server).filed == old(Seen(server)).filed && Seen(server).inUse == old(Seen(server)).inUse
  {
    forall a | a in server.addrTable
      ensures server.addrTable[a].clientId == old(server.addrTable[a].clientId)
      ensures server.addrTable[a].socketFd == old(server.addrTable[a].socketFd)
    {
      assert old(server.AddressOk(a));
      var c, fd := old(server.addrTable[a].clientId), old(server.addrTable[a].socketFd);
      assert server.ClientOk(c) && server.Filed(c, fd, server.clients[c].socketTable[fd]);
    }
  }

  /** Every socket in a client's table is in the address table. */
  lemma AllFiled(server: Server, c: nat)
    requires server.Valid() && c < |server.clients|
    ensures server.clients[c].socketTable.Values <= server.addrTable.Values
    ensures forall fd :: fd in server.clients[c].socketTable ==> 1 <= fd <= INT_MAX
    ensures server.clients[c].eventSet <= server.clients[c].socketTable.Keys
  {
    assert server.ClientOk(c);
    assert forall fd :: fd in server.clients[c].socketTable ==>
      server.Filed(c, fd, server.clients[c].socketTable[fd]);
    forall s | s in server.clients[c].socketTable.Values
      ensures s in server.addrTable.Values
    {
      var fd := KeyOf(server.clients[c].socketTable, s);
      assert server.Filed(c, fd, s);
    }
  }

  /** Nothing in the records of the other clients has changed. */
  twostate predicate Others(server: Server, new c: nat)
    requires server.clients == old(server.clients)
    reads server, server.clients
  {
    forall i: nat :: i < |server.clients| && i != c ==>
      && server.clients[i].socketTable == old(server.clients[i].socketTable)
      && server.clients[i].eventSet == old(server.clients[i].eventSet)
      && server.clients[i].log == old(server.clients[i].log)
  }

  ghost predicate Distinct(server: Server, c: nat)
    requires c < |server.clients|
    reads server
  {
    forall i: nat :: i < |server.clients| && i != c ==> server.clients[i] != server.clients[c]
  }

  /** Then the view has changed for client c alone. */
  twostate lemma OneClient(server: Server, new c: nat)
    requires c < |server.clients| && server.clients == old(server.clients) && Others(server, c)
    ensures var v, w := old(Seen(server)), Seen(server);
      && c in v.inUse && v.inUse[c] == old(server.clients[c].socketTable.Keys)
      && c in v.pending && v.pending[c] == old(server.clients[c].eventSet)
      && c in v.logs && v.logs[c] == old(server.clients[c].log)
      && w.inUse == v.inUse[c := server.clients[c].socketTable.Keys]
      && w.pending == v.pending[c := server.clients[c].eventSet]
      && w.logs == v.logs[c := server.clients[c].log]
  {}

  /** And only what client c remembers and was told has to be looked at again. */
  twostate lemma SoundAfter(server: Server, new c: nat, new entries: seq<Entry>)
    requires old(Sound(server)) && server.Valid()
    requires c < |server.clients| && server.clients == old(server.clients) && Others(server, c)
    requires server.Remembered(c) && server.clients[c].log == old(server.clients[c].log) + entries
    requires |entries| <= 1
    requires entries != [] && entries[0].Polled? ==>
      entries[0].events == Unpolled(old(server.clients[c].log), entries[0].fd)
    ensures Sound(server)
  {
    forall i: nat | i < |server.clients|
      ensures server.Remembered(i) && Truthful(server.clients[i].log)
    {
      if i != c {
        assert old(server.Remembered(i));
      } else if entries != [] {
        TruthfulMore(old(server.clients[c].log), entries[0]);
        assert entries == [entries[0]];
      } else {
        assert server.clients[c].log == old(server.clients[c].log);
      }
    }
  }

  /** A call that changes no table and no log changes nothing that is seen. */
  twostate lemma Idle(server: Server)
    requires old(Sound(server)) && server.Valid() && server.clients == old(server.clients)
    requires server.addrTable == old(server.addrTable)
    requires forall c: nat :: c < |server.clients| ==>
      && server.clients[c].socketTable == old(server.clients[c].socketTable)
      && server.clients[c].eventSet == old(server.clients[c].eventSet)
      && server.clients[c].log == old(server.clients[c].log)
    ensures Sound(server) && Seen(server) == old(Seen(server))
  {
    SamePlaces(server);
    assert Seen(server).pending == old(Seen(server)).pending;
    assert Seen(server).logs == old(Seen(server)).logs;
    forall c: nat | c < |server.clients|
      ensures server.Remembered(c) && Truthful(server.clients[c].log)
    {
      assert old(server.Remembered(c) && Truthful(server.clients[c].log));
    }
  }

  /** What reporting a pending socket did, said of the view. */
  twostate lemma PolledOne(server: Server, new c: nat, new fd: nat)
    requires old(Sound(server)) && server.Valid() && server.clients == old(server.clients)
    requires server.addrTable == old(server.addrTable) && c < |server.clients| && Others(server, c)
    requires server.clients[c].socketTable == old(server.clients[c].socketTable) && server.Remembered(c)
    requires fd in old(server.clients[c].eventSet)
    requires server.clients[c].eventSet == old(server.clients[c].eventSet) - {fd}
    requires server.clients[c].log ==
      old(server.clients[c].log) + [Polled(fd, Unpolled(old(server.clients[c].log), fd))]
    ensures Sound(server) && Polls(old(Seen(server)), c, Seen(server))
  {
    SoundAfter(server, c, [Polled(fd, Unpolled(old(server.clients[c].log), fd))]);
    SamePlaces(server);
    OneClient(server, c);
    assert fd in old(Seen(server)).pending[c];
  }

  method ServePoll(server: Server, c: nat)
    requires Sound(server) && c < |server.clients|
    modifies server.clients, server.addrTable.Values
    ensures server.clients == old(server.clients) && server.addrTable == old(server.addrTable) && Sound(server)
    ensures Moves(old(Seen(server)), Poll(c), Seen(server))
  {
    AllFiled(server, c);
    assert Distinct(server, c);
    assert server.Remembered(c);
    assert 0 !in server.clients[c].eventSet;
    var report := server.ClientGetEvent(c);
    assert Others(server, c);
    if old(server.clients[c].eventSet) == {} {
      assert server.clients[c].eventSet == {};
      Idle(server);
    } else {
      assert report.socketFd != 0;
      PolledOne(server, c, report.socketFd);
    }
  }

  lemma RaisedIs(v: View, address: nat, fd: nat, events: Events, c: nat, w: View)
    requires address in v.filed && v.filed[address] == Place(c, fd) && events != 0
    requires c in v.pending && c in v.logs && w.filed == v.filed && w.inUse == v.inUse
    requires w.pending == v.pending[c := v.pending[c] + {fd}]
    requires w.logs == v.logs[c := v.logs[c] + [Posted(fd, events)]]
    ensures Raises(v, address, events, w)
  {}

  /** What the callback did, said of the view. */
  twostate lemma Raised(server: Server, new address: nat, new events: Events)
    requires old(Sound(server)) && server.Valid() && server.clients == old(server.clients)
    requires server.addrTable == old(server.addrTable) && address in server.addrTable && events != 0
    requires forall i: nat :: i < |server.clients| ==>
      server.clients[i].socketTable == old(server.clients[i].socketTable)
    requires var c, fd := old(server.addrTable[address].clientId), old(server.addrTable[address].socketFd);
      && c < |server.clients| && fd >= 0 && Others(server, c) && server.Remembered(c)
      && server.clients[c].log == old(server.clients[c].log) + [Posted(fd, events)]
      && server.clients[c].eventSet == old(server.clients[c].eventSet) + {fd as nat}
    ensures Sound(server) && Raises(old(Seen(server)), address, events, Seen(server))
  {
    var c, fd := old(server.addrTable[address].clientId), old(server.addrTable[address].socketFd);
    SoundAfter(server, c, [Posted(fd, events)]);
    SamePlaces(server);
    OneClient(server, c);
    RaisedIs(old(Seen(server)), address, fd, events, c, Seen(server));
  }

  method ServeRaise(server: Server, address: nat, events: Events, alloc: bool)
    requires Sound(server) && Regular(server, Raise(address, events, alloc))
    modifies server.clients, server.addrTable.Values
    ensures server.clients == old(server.clients) && server.addrTable == old(server.addrTable) && Sound(server)
    ensures Moves(old(Seen(server)), Raise(address, events, alloc), Seen(server))
  {
    if address in server.addrTable && events != 0 {
      assert server.AddressOk(address);
      assert server.Remembered(server.addrTable[address].clientId);
      var _, _ := server.SocketCallback(address, events, alloc);
      Raised(server, address, events);
    } else {
      var _, _ := server.SocketCallback(address, events, alloc);
      Idle(server);
    }
  }

  lemma FewerValues<K, V>(m: map<K, V>, l: map<K, V>)
    requires l.Keys <= m.Keys && forall k :: k in l ==> l[k] == m[k]
    ensures l.Values <= m.Values
  {
    forall v | v in l.Values
      ensures v in m.Values
    {
      var k := KeyOf(l, v);
      assert m[k] == v;
    }
  }

  method ServeClose(server: Server, c: nat, fd: int)
    requires Sound(server) && c < |server.clients|
    modifies server, server.clients
    ensures server.clients == old(server.clients) && Sound(server)
    ensures server.addrTable.Values <= old(server.addrTable.Values)
    ensures Moves(old(Seen(server)), Close(c, fd), Seen(server))
  {
    assert server.Remembered(c);
    var out := server.ClientDeleteSocket(c, fd);
    if out == Returned(0) {
      SoundAfter(server, c, []);
      OneClient(server, c);
      ClosedPlaces(server, c, fd);
      ClosedIs(old(Seen(server)), c, fd, Seen(server));
      FewerValues(old(server.addrTable), server.addrTable);
    } else {
      Idle(server);
    }
  }

  lemma ClosedIs(v: View, c: nat, fd: nat, w: View)
    requires c in v.inUse && c in v.pending && c in v.logs && fd in v.inUse[c]
    requires w.filed == map a | a in v.filed && v.filed[a] != Place(c, fd) :: v.filed[a]
    requires w.inUse == v.inUse[c := v.inUse[c] - {fd}] && w.pending == v.pending[c := v.pending[c] - {fd}]
    requires w.logs == v.logs
    ensures Closes(v, c, fd, w)
  {}

  /** One address leads to a descriptor, so taking that address out takes out the descriptor. */
  twostate lemma ClosedPlaces(server: Server, new c: nat, new fd: nat)
    requires old(server.Valid()) && c < |server.clients| && server.clients == old(server.clients)
    requires fd in old(server.clients[c].socketTable)
    requires forall s :: s in old(server.addrTable.Values) ==> unchanged(s)
    requires var s := old(server.clients[c].socketTable[fd]);
      old(s.socket.Some?) && server.addrTable == old(server.addrTable) - {old(s.socket.value)}
    ensures var v := old(Seen(server));
      Seen(server).filed == map a | a in v.filed && v.filed[a] != Place(c, fd) :: v.filed[a]
  {
    var s := old(server.clients[c].socketTable[fd]);
    assert old(server.ClientOk(c) && server.Filed(c, fd, server.clients[c].socketTable[fd]));
    forall a | a in old(server.addrTable)
      ensures old(Place(server.addrTable[a].clientId, server.addrTable[a].socketFd)) == Place(c, fd)
        <==> a == old(s.socket.value)
      ensures unchanged(old(server.addrTable[a]))
    {
      assert old(server.AddressOk(a));
      assert old(server.addrTable[a] in server.addrTable.Values);
    }
  }

  /** In the regular case the old descriptor of the address leaves the table and the new one enters it. */
  lemma FilingRegular<V>(table: map<nat, V>, id: nat, s: V, layout: map<nat, nat>, oldIds: set<nat>)
    requires Injective(layout) && oldIds <= table.Keys && id !in table
    requires forall k, j :: k in oldIds && j in oldIds ==> k == j
    requires forall k :: k in oldIds ==> k in layout && layout[k] == k
    ensures Filing(table, id, s, layout, oldIds) == (table - oldIds)[id := s]
  {
    assert forall k :: k in layout && layout[k] in oldIds ==> layout[layout[k]] == layout[k];
  }

  /** A socket has been opened for client c, under id and at the address the stack returned. */
  twostate predicate NowOpen(server: Server, new c: nat, new luck: Luck, new id: nat)
    requires old(c < |server.clients|) && server.clients == old(server.clients)
    reads server, server.clients
  {
    && luck.Good() && Injective(luck.layout) && server.NewId(c, id)
    && luck.stack.value in server.addrTable
    && server.addrTable == old(server.addrTable)[luck.stack.value := server.addrTable[luck.stack.value]]
    && server.AfterOpen(c, id, server.addrTable[luck.stack.value], luck.layout, old(server.OldIds(luck.stack.value)))
  }

  /** The caller's descriptors afterwards. */
  twostate lemma OpenedTable(server: Server, new c: nat, new luck: Luck, new id: nat)
    requires old(server.Valid() && c < |server.clients| && RegularLuck(server, c, luck))
    requires server.clients == old(server.clients) && NowOpen(server, c, luck, id)
    ensures old(server.Remembered(c)) ==> server.Remembered(c)
    ensures 1 <= id <= INT_MAX && id !in old(server.clients[c].socketTable)
    ensures old(server.OldIds(luck.stack.value)) == Former(old(Seen(server)), luck.stack.value)
    ensures var s, oldIds := server.addrTable[luck.stack.value], old(server.OldIds(luck.stack.value));
      server.clients[c].socketTable == (old(server.clients[c].socketTable) - oldIds)[id := s]
    ensures server.clients[c].socketTable.Keys ==
      old(server.clients[c].socketTable.Keys) - Former(old(Seen(server)), luck.stack.value) + {id}
  {
    var address := luck.stack.value;
    assert address in old(server.addrTable) ==> old(server.AddressOk(address));
    FilingRegular(old(server.clients[c].socketTable), id, server.addrTable[address], luck.layout,
                  old(server.OldIds(address)));
  }

  /** The new address leads to the new descriptor, every other one to where it led before. */
  twostate lemma OpenedPlaces(server: Server, new c: nat, new address: nat, new id: nat)
    requires server.Valid() && c < |server.clients|
    requires id in server.clients[c].socketTable && address in server.addrTable
    requires server.addrTable == old(server.addrTable)[address := server.clients[c].socketTable[id]]
    requires forall a :: a in old(server.addrTable) && a != address ==> unchanged(old(server.addrTable[a]))
    ensures Seen(server).filed == old(Seen(server)).filed[address := Place(c, id)]
  {
    assert server.ClientOk(c) && server.Filed(c, id, server.clients[c].socketTable[id]);
  }

  /** Different addresses lead to different records, so only one record can have changed. */
  twostate lemma StayedPut(server: Server, new address: nat)
    requires old(server.Valid())
    requires forall s :: s in old(server.addrTable.Values) ==>
      unchanged(s) || (address in old(server.addrTable) && s == old(server.addrTable[address]))
    ensures forall a :: a in old(server.addrTable) && a != address ==> unchanged(old(server.addrTable[a]))
  {
    forall a | a in old(server.addrTable) && a != address
      ensures unchanged(old(server.addrTable[a]))
    {
      assert old(server.AddressOk(a)) && (address in old(server.addrTable) ==> old(server.AddressOk(address)));
      assert old(server.addrTable[a] in server.addrTable.Values);
    }
  }

  /** What opening a socket did, said of the view. */
  twostate lemma OpenedAnew(server: Server, new c: nat, new luck: Luck, new id: nat)
    requires old(Sound(server) && c < |server.clients| && RegularLuck(server, c, luck))
    requires server.Valid() && server.clients == old(server.clients) && Others(server, c)
    requires NowOpen(server, c, luck, id)
    requires forall s :: s in old(server.addrTable.Values) ==>
      unchanged(s) || (luck.stack.value in old(server.addrTable) && s == old(server.addrTable[luck.stack.value]))
    ensures Sound(server) && Opens(old(Seen(server)), c, luck, Seen(server))
  {
    var address := luck.stack.value;
    OpenedTable(server, c, luck, id);
    assert old(server.Remembered(c));
    SoundAfter(server, c, [Opened(id)]);
    OneClient(server, c);
    var v, w := old(Seen(server)), Seen(server);
    StayedPut(server, address);
    OpenedPlaces(server, c, address, id);
    OpenedIs(v, c, luck, id, w);
  }

  lemma OpenedIs(v: View, c: nat, luck: Luck, id: nat, w: View)
    requires c in v.inUse && c in v.pending && c in v.logs && luck.Good()
    requires 1 <= id <= INT_MAX && id !in v.inUse[c] && OpenedAs(v, c, luck.stack.value, id, w)
    ensures Opens(v, c, luck, w)
  {}

  lemma NewValue<K, V>(m: map<K, V>, k: K, v: V)
    ensures m[k := v].Values <= m.Values + {v}
  {
    forall x | x in m[k := v].Values
      ensures x in m.Values + {v}
    {
      var j := KeyOf(m[k := v], x);
      assert j == k || m[j] == x;
    }
  }

  /** A call that opens a socket, or fails and leaves everything as it is. */
  twostate lemma OpenedOrIdle(server: Server, new c: nat, new protocol: Protocol, new luck: Luck,
                              new out: Outcome, new id: nat)
    requires old(Sound(server) && c < |server.clients| && RegularLuck(server, c, luck) && Injective(luck.layout))
    requires server.clients == old(server.clients)
    requires server.OthersUntouched(c, luck.stack, old(server.addrTable.Values))
    requires server.OpenOutcome(c, old(server.CanFile(c, luck.Good())), protocol, luck.stack, luck.layout, out, id)
    ensures Sound(server) && fresh(server.addrTable.Values - old(server.addrTable.Values))
    ensures Opens(old(Seen(server)), c, luck, Seen(server))
  {
    if old(server.CanFile(c, luck.Good())) {
      assert luck.stack.value in old(server.addrTable) ==> old(server.AddressOk(luck.stack.value));
      assert out.Returned?;
      NewValue(old(server.addrTable), luck.stack.value, server.addrTable[luck.stack.value]);
      OpenedAnew(server, c, luck, id);
    } else {
      Idle(server);
    }
  }

  /** Opening touches the caller's record, the address table and the record at that address, and nothing else. */
  method OpenAlone(server: Server, c: nat, protocol: Protocol, luck: Luck) returns (out: Outcome, ghost id: nat)
    requires server.Valid() && c < |server.clients| && Injective(luck.layout)
    modifies server`addrTable, server.clients[c],
      if luck.stack.Some? && luck.stack.value in server.addrTable then {server.addrTable[luck.stack.value]} else {}
    ensures server.clients == old(server.clients)
    ensures server.OthersUntouched(c, luck.stack, old(server.addrTable.Values))
    ensures server.OpenOutcome(c, old(server.CanFile(c, luck.Good())), protocol, luck.stack, luck.layout, out, id)
  {
    assert Distinct(server, c);
    out, id := server.AddSocket(c, protocol, luck.stack, luck.calloc, luck.putId, luck.putAddr, luck.layout);
  }

  method AcceptAlone(server: Server, c: nat, fd: int, luck: Luck) returns (out: Outcome, ghost id: nat)
    requires server.Valid() && c < |server.clients| && Injective(luck.layout) && server.Owns(c, fd)
    modifies server`addrTable, server.clients[c],
      if luck.stack.Some? && luck.stack.value in server.addrTable then {server.addrTable[luck.stack.value]} else {}
    ensures server.clients == old(server.clients)
    ensures server.OthersUntouched(c, luck.stack, old(server.addrTable.Values))
    ensures server.OpenOutcome(c, old(server.CanFile(c, luck.Good())), Tcp, luck.stack, luck.layout, out, id)
  {
    assert Distinct(server, c);
    out, id := server.PicoControlAccept(c, fd, luck.stack, luck.calloc, luck.putId, luck.putAddr, luck.layout);
  }

  method ServeOpen(server: Server, c: nat, protocol: Protocol, luck: Luck)
    requires Sound(server) && c < |server.clients| && RegularLuck(server, c, luck) && Injective(luck.layout)
    modifies server, server.clients, server.addrTable.Values
    ensures server.clients == old(server.clients) && Sound(server)
    ensures fresh(server.addrTable.Values - old(server.addrTable.Values))
    ensures Moves(old(Seen(server)), Open(c, protocol, luck), Seen(server))
  {
    var out, id := OpenAlone(server, c, protocol, luck);
    OpenedOrIdle(server, c, protocol, luck, out, id);
  }

  method ServeAccept(server: Server, c: nat, fd: int, luck: Luck)
    requires Sound(server) && c < |server.clients| && RegularLuck(server, c, luck) && Injective(luck.layout)
    modifies server, server.clients, server.addrTable.Values
    ensures server.clients == old(server.clients) && Sound(server)
    ensures fresh(server.addrTable.Values - old(server.addrTable.Values))
    ensures Moves(old(Seen(server)), Accept(c, fd, luck), Seen(server))
  {
    if fd < 0 || fd !in server.clients[c].socketTable {
      var _, _ := server.PicoControlAccept(c, fd, luck.stack, luck.calloc, luck.putId, luck.putAddr, luck.layout);
      Idle(server);
    } else {
      var out, id := AcceptAlone(server, c, fd, luck);
      OpenedOrIdle(server, c, Tcp, luck, out, id);
    }
  }

  /** Serving a regular call keeps everything sound, and does to the tables what the call means. */
  method Serve(server: Server, call: Call)
    requires Sound(server) && Proper(call, |server.clients|) && Regular(server, call)
    modifies server, server.clients, server.addrTable.Values
    ensures server.clients == old(server.clients) && Sound(server)
    ensures fresh(server.addrTable.Values - old(server.addrTable.Values))
    ensures Moves(old(Seen(server)), call, Seen(server))
  {
    match call {
      case Open(c, protocol, luck) => ServeOpen(server, c, protocol, luck);
      case Accept(c, fd, luck) => ServeAccept(server, c, fd, luck);
      case Close(c, fd) => ServeClose(server, c, fd);
      case Poll(c) => ServePoll(server, c);
      case Raise(address, events, alloc) => ServeRaise(server, address, events, alloc);
    }
  }

  /** Every step of the run is what its call means. */
  ghost predicate Steps(views: seq<View>, calls: seq<Call>) {
    |views| == |calls| + 1 && forall i :: 0 <= i < |calls| ==> Moves(views[i], calls[i], views[i + 1])
  }

  /** Nothing is open, outstanding or noted yet. */
  ghost predicate Blank(v: View, numClients: nat) {
    && v.filed == map[]
    && (forall c: nat :: (c in v.inUse <==> c < numClients) && (c in v.pending <==> c < numClients)
          && (c in v.logs <==> c < numClients))
    && (forall c: nat :: c < numClients ==> v.inUse[c] == {} && v.pending[c] == {} && v.logs[c] == [])
  }

  lemma NothingYet(server: Server)
    requires server.Valid() && server.addrTable == map[] && forall c :: 0 <= c < |server.clients| ==>
      server.clients[c].socketTable == map[] && server.clients[c].eventSet == {} && server.clients[c].log == []
    ensures Blank(Seen(server), |server.clients|) && Sound(server)
  {}

  lemma OneMore(views: seq<View>, calls: seq<Call>, ran: nat, v: View)
    requires ran < |calls| && Steps(views, calls[..ran]) && Moves(views[ran], calls[ran], v)
    ensures Steps(views + [v], calls[..ran + 1])
  {}

  /** Any run of calls, up to the first that is not regular, is a run of what the calls mean; afterwards the
      tables are consistent, every socket with events that were not polled is in the event set, and every
      report gave exactly the events raised since the one before. */
  method Run(numClients: nat, calls: seq<Call>) returns (server: Server, ran: nat, ghost views: seq<View>)
    requires forall i :: 0 <= i < |calls| ==> Proper(calls[i], numClients)
    ensures ran <= |calls| && |server.clients| == numClients && Sound(server)
    ensures Steps(views, calls[..ran]) && Blank(views[0], numClients) && views[ran] == Seen(server)
    ensures ran < |calls| ==> !Regular(server, calls[ran])
  {
    server := new Server(numClients);
    NothingYet(server);
    ran, views := 0, [Seen(server)];
    while ran < |calls| && Regular(server, calls[ran])
      invariant ran <= |calls| && |server.clients| == numClients && Sound(server)
      invariant fresh(server) && fresh(server.clients) && fresh(server.addrTable.Values)
      invariant Steps(views, calls[..ran]) && Blank(views[0], numClients) && views[ran] == Seen(server)
    {
      Serve(server, calls[ran]);
      OneMore(views, calls, ran, Seen(server));
      ran, views := ran + 1, views + [Seen(server)];
    }
  }

  ghost predicate Covers(events: Events, e: Events) {
    events & e == e
  }

  lemma CoveredOn(log: seq<Entry>, fd: nat, e: Events)
    requires log != [] && (log[|log| - 1].fd == fd ==> log[|log| - 1].Posted?)
    requires Covers(Unpolled(log[..|log| - 1], fd), e) || log[|log| - 1] == Posted(fd, e)
    ensures Covers(Unpolled(log, fd), e)
  {}

  /** An event that was posted on a descriptor is in the next report about it, or is still outstanding,
      unless the descriptor is given to a new socket first. */
  lemma {:induction false} PostedIsKept(log: seq<Entry>, i: nat, n: nat)
    requires i < n <= |log| && log[i].Posted?
    requires forall j :: i < j < n && log[j].fd == log[i].fd ==> log[j].Posted?
    ensures Covers(Unpolled(log[..n], log[i].fd), log[i].ev)
    decreases n
  {
    hide Covers, Unpolled;
    if n > i + 1 {
      PostedIsKept(log, i, n - 1);
    }
    assert log[..n][..n - 1] == log[..n - 1];
    CoveredOn(log[..n], log[i].fd, log[i].ev);
  }

  /** The event posted as entry i of client c's log was part of a later report, or its descriptor has been given
      to a new socket since; otherwise it is outstanding, and the descriptor is in the event set or closed. */
  ghost predicate Accounted(server: Server, c: nat, i: nat)
    requires c < |server.clients| && i < |server.clients[c].log| && server.clients[c].log[i].Posted?
    reads server, server.clients
  {
    var log, e := server.clients[c].log, server.clients[c].log[i];
    || (exists j :: i < j < |log| && log[j].fd == e.fd &&
          (log[j].Opened? || (log[j].Polled? && Covers(log[j].events, e.ev))))
    || (Covers(Unpolled(log, e.fd), e.ev) &&
          (e.fd in server.clients[c].socketTable && e.ev != 0 ==> e.fd in server.clients[c].eventSet))
  }

  /** The first report or reopening after entry i, if there is one. */
  lemma {:induction false} NextNotPosted(log: seq<Entry>, i: nat, n: nat) returns (j: nat)
    requires i < n <= |log| && log[i].Posted?
    requires forall k :: i < k < n && log[k].fd == log[i].fd ==> log[k].Posted?
    ensures n <= j <= |log| && (j < |log| ==> log[j].fd == log[i].fd && !log[j].Posted?)
    ensures forall k :: i < k < j && log[k].fd == log[i].fd ==> log[k].Posted?
    decreases |log| - n
  {
    if n == |log| || (log[n].fd == log[i].fd && !log[n].Posted?) {
      j := n;
    } else {
      j := NextNotPosted(log, i, n + 1);
    }
  }

  /** In a sound server no event is lost. */
  lemma NoEventLost(server: Server, c: nat, i: nat)
    requires Sound(server) && c < |server.clients|
    requires i < |server.clients[c].log| && server.clients[c].log[i].Posted?
    ensures Accounted(server, c, i)
  {
    var log := server.clients[c].log;
    var j := NextNotPosted(log, i, i + 1);
    PostedIsKept(log, i, j);
    if j == |log| {
      assert log[..j] == log;
      assert server.Remembered(c);
    }
  }

  lemma CounterIsFree(ids: set<nat>, from: nat, id: nat)
    requires FirstFree(ids, from, id) && 1 <= from <= INT_MAX && from !in ids
    ensures id == from
  {
    assert id != from ==> Passed(from, id, from);
  }

  /** A new address, with the id counter at an id that is free. */
  method OpenNew(server: Server, c: nat, address: nat, layout: map<nat, nat>)
    requires server.Valid() && c < |server.clients| && Injective(layout) && address !in server.addrTable
    requires 1 <= server.clients[c].bumpIndex <= INT_MAX
    requires server.clients[c].bumpIndex !in server.clients[c].socketTable
    modifies server, server.clients[c]
    ensures server.Valid() && server.clients == old(server.clients)
    ensures server.addrTable.Keys == old(server.addrTable.Keys) + {address}
    ensures fresh(server.addrTable[address])
    ensures server.addrTable[address].clientId == c
    ensures server.addrTable[address].socketFd == old(server.clients[c].bumpIndex)
    ensures forall a :: a in old(server.addrTable) ==> server.addrTable[a] == old(server.addrTable[a])
    ensures server.clients[c].socketTable.Keys ==
      old(server.clients[c].socketTable.Keys + {server.clients[c].bumpIndex})
    ensures server.clients[c].bumpIndex == old(server.clients[c].bumpIndex) + 1
  {
    hide CountedOn, Full, Passed;
    var _, id := server.AddSocket(c, Tcp, Some(address), true, true, true, layout);
    CounterIsFree(old(server.clients[c].socketTable.Keys), old(server.clients[c].bumpIndex), id);
    var s := server.addrTable[address];
    FilingIs(old(server.clients[c].socketTable), id, s, layout);
    assert server.ClientOk(c) && server.Filed(c, id, server.clients[c].socketTable[id]);
  }

  /** An address that another client has filed need not meet the fatal check: when the caller's own table has
      the old descriptor too, the code goes on, and the tables no longer agree. */
  method ForeignAddressFiled(layout: map<nat, nat>) returns (server: Server, out: Outcome)
    requires Injective(layout)
    ensures out == Returned(2) && !server.Valid()
  {
    hide CountedOn, Full, Passed;
    server := new Server(2);
    OpenNew(server, 1, 100, layout);
    OpenNew(server, 0, 200, layout);
    ghost var id;
    out, id := server.AddSocket(0, Tcp, Some(100), true, true, true, layout);
    CounterIsFree({1}, 2, id);
  }

  /** When it has not, the server stops. */
  method ForeignAddressFatal(layout: map<nat, nat>) returns (out: Outcome)
    requires Injective(layout)
    ensures out == Aborted
  {
    var server := new Server(2);
    OpenNew(server, 1, 99, layout);
    OpenNew(server, 1, 100, layout);
    ghost var id;
    out, id := server.AddSocket(0, Tcp, Some(100), true, true, true, layout);
    CounterIsFree({}, 1, id);
  }
}
