/** The socket bookkeeping of the PicoServer: a table of sockets per client, one address table over
    all of them, and a set of sockets with outstanding events per client.  The khash tables appear
    as the maps and sets they are proved to be in module KHash. */
module PicoClient {
  import opened Basics

  const INT_MAX: nat := 0x7fff_ffff

  type Events = bv16

  /** picoserver_socket_t.  `socket` is the address of the stack's own socket, None once invalidated. */
  class Socket {
    var protocol: Protocol
    var clientId: nat
    var socketFd: int
    var socket: Option<nat>
    var events: Events

    constructor (clientId: nat, socket: nat, protocol: Protocol)
      ensures this.clientId == clientId && this.socket == Some(socket) && this.protocol == protocol
      ensures socketFd == 0 && events == 0
    {
      this.clientId, this.socket, this.protocol := clientId, Some(socket), protocol;
      socketFd, events := 0, 0;
    }
  }

  /** What happened to one client's events, oldest first; a poll is noted with the events it reported. */
  datatype Entry = Posted(fd: nat, ev: Events) | Polled(fd: nat, events: Events) | Opened(fd: nat)

  /** The union of the events posted on fd since it was last polled or opened. */
  ghost function Unpolled(log: seq<Entry>, fd: nat): Events {
    if log == [] then 0
    else
      var last, rest := log[|log| - 1], log[..|log| - 1];
      if last.fd != fd then Unpolled(rest, fd)
      else if last.Posted? then Unpolled(rest, fd) | last.ev
      else 0
  }

  /** Every poll has reported exactly the events posted since the one before. */
  ghost predicate Truthful(log: seq<Entry>) {
    forall i :: 0 <= i < |log| && log[i].Polled? ==> log[i].events == Unpolled(log[..i], log[i].fd)
  }

  lemma TruthfulMore(log: seq<Entry>, e: Entry)
    requires Truthful(log) && (e.Polled? ==> e.events == Unpolled(log, e.fd))
    ensures Truthful(log + [e])
  {
    forall i | 0 <= i < |log + [e]| && (log + [e])[i].Polled?
      ensures (log + [e])[i].events == Unpolled((log + [e])[..i], (log + [e])[i].fd)
    {
      assert (log + [e])[..i] == log[..i];
    }
  }

  /** Every id a socket may have is in use. */
  ghost predicate AllTaken(table: map<nat, Socket>) {
    forall j: nat :: 1 <= j <= INT_MAX ==> j in table
  }

  /** A 32-bit word read as an int. */
  function AsInt(w: nat): int {
    if w <= INT_MAX then w else w - WORD
  }

  /** No two keys share a bucket. */
  ghost predicate Injective(layout: map<nat, nat>) {
    forall i, j :: i in layout && j in layout && layout[i] == layout[j] ==> i == j
  }

  /** The table once bucket b is deleted, when its keys are in the buckets the layout says. */
  function Vacated<V>(table: map<nat, V>, layout: map<nat, nat>, b: nat): map<nat, V> {
    map k | k in table && !(k in layout && layout[k] == b) :: table[k]
  }

  /** The table once a socket is put under its id and the buckets numbered like the old ids are deleted. */
  function Filing<V>(table: map<nat, V>, id: nat, s: V, layout: map<nat, nat>, oldIds: set<nat>): map<nat, V> {
    map k | k in table[id := s] && !(k in layout && layout[k] in oldIds) :: table[id := s][k]
  }

  /** Deleting the bucket whose number is a key removes that key alone exactly if it is the key's own. */
  lemma VacatedIff<V>(table: map<nat, V>, layout: map<nat, nat>, key: nat)
    requires Injective(layout) && key in table
    ensures Vacated(table, layout, key) == table - {key} <==> key in layout && layout[key] == key
  {
    if key in layout && layout[key] == key {
      assert forall k :: k in table && k != key ==> !(k in layout && layout[k] == key);
    } else {
      assert key in Vacated(table, layout, key);
    }
  }

  lemma FilingIs<V>(table: map<nat, V>, id: nat, s: V, layout: map<nat, nat>)
    ensures Filing(table, id, s, layout, {}) == table[id := s]
    ensures forall oldId: nat :: Filing(table, id, s, layout, {oldId}) == Vacated(table[id := s], layout, oldId)
  {}

  /** The ids looked up on the way from one id to another. */
  ghost predicate Walked(from: nat, curr: nat, wrapped: bool, seen: set<nat>) {
    && from < WORD && curr < WORD
    && if 1 <= from <= INT_MAX then
         && 1 <= curr <= INT_MAX
         && (if wrapped then curr < from && forall j: nat :: j in seen <==> from <= j <= INT_MAX || 1 <= j < curr
             else curr >= from && forall j: nat :: j in seen <==> from <= j < curr)
       else if from == 0 then curr == 0 && seen == {}
       else if curr == 0 then forall j: nat :: j in seen <==> from <= j < WORD
       else curr >= from && forall j: nat :: j in seen <==> from <= j < curr
  }

  /** One more id is looked up.  When the walk is back at its start, it has met every id there is. */
  lemma WalkOn(from: nat, curr: nat, wrapped: bool, seen: set<nat>)
    requires Walked(from, curr, wrapped, seen) && curr != 0
    ensures curr !in seen
    ensures var counted := (curr + 1) % WORD;
      var next, wraps := if counted == 0x8000_0000 then 1 else counted, wrapped || counted == 0x8000_0000;
      if next == from then 1 <= from <= INT_MAX && forall j: nat :: 1 <= j <= INT_MAX ==> j in seen + {curr}
      else Walked(from, next, wraps, seen + {curr})
  {}

  /** Ids the search passes over on the way from `from` up to, but not including, `to`. */
  ghost predicate Passed(from: nat, to: nat, j: nat) {
    if from > INT_MAX then from <= j < (if to == 0 then WORD else to)
    else if from <= to then from <= j < to
    else from <= j <= INT_MAX || 1 <= j < to
  }

  /** The id is the first unused one from `from` on; past INT_MAX the counter itself is handed out. */
  ghost predicate FirstFree(ids: set<nat>, from: nat, id: nat) {
    && id !in ids
    && (if from <= INT_MAX then 1 <= id <= INT_MAX else id == from)
    && forall j: nat :: Passed(from, id, j) ==> j in ids
  }

  ghost predicate Full(ids: set<nat>) {
    forall j: nat :: 1 <= j <= INT_MAX ==> j in ids
  }

  /** How the counter moves when an id is looked for, whether or not it is then used: one past the id found; if
      every id is taken it stays, and a counter that has wrapped to 0 finds nothing and goes on to 1. */
  ghost predicate CountedOn(ids: set<nat>, from: nat, to: nat) {
    if from == 0 then to == 1
    else if from <= INT_MAX && Full(ids) then to == from
    else exists id: nat :: FirstFree(ids, from, id) && to == (id + 1) % WORD
  }

  lemma PutBack<K, V>(m: map<K, V>, k: K, v: V)
    requires k !in m
    ensures m[k := v] - {k} == m
  {}

  /** The search finds the first free id, or has none to find. */
  lemma SearchEnds(ids: set<nat>, from: nat, id: nat, to: nat)
    requires from < WORD && id !in ids && 0 !in ids && forall fd :: fd in ids ==> fd <= INT_MAX
    requires 1 <= from <= INT_MAX ==> id <= INT_MAX && (id == 0 <==> Full(ids))
    requires (from > INT_MAX ==> id == 0 || id >= from) && (from == 0 ==> id == 0)
    requires id < WORD && (id != 0 || from > INT_MAX ==> forall j: nat :: Passed(from, id, j) ==> j in ids)
    requires to == if id == 0 && 1 <= from <= INT_MAX then from else (id + 1) % WORD
    ensures CountedOn(ids, from, to) && (id == 0 <==> from == 0 || (from <= INT_MAX && Full(ids)))
    ensures id != 0 ==> FirstFree(ids, from, id) && to == (id + 1) % WORD
  {
    assert from > INT_MAX && id != from ==> Passed(from, id, from);
    if id != 0 {
      assert FirstFree(ids, from, id);
    }
  }

  /** picoserver_client_t. */
  class Client {
    var bumpIndex: nat
    var socketTable: map<nat, Socket>
    var eventSet: set<nat>
    ghost var log: seq<Entry>

    constructor ()
      ensures bumpIndex == 1 && socketTable == map[] && eventSet == {} && log == []
    {
      bumpIndex, socketTable, eventSet, log := 1, map[], {}, [];
    }

    /** find_free_id: the first id from bump_index on, cyclically in 1..INT_MAX, that is not in use;
        0 if there is none.  A bump_index beyond INT_MAX is counted on from, until it wraps to 0. */
    method FindFreeId() returns (id: nat, ghost lookups: nat)
      requires bumpIndex < WORD && 0 !in socketTable
      modifies this`bumpIndex
      ensures id !in socketTable && lookups <= |socketTable| + 1
      ensures 1 <= old(bumpIndex) <= INT_MAX ==> id <= INT_MAX && (id == 0 <==> AllTaken(socketTable))
      ensures old(bumpIndex) > INT_MAX ==> id == 0 || id >= old(bumpIndex)
      ensures old(bumpIndex) == 0 ==> id == 0
      ensures id < WORD && (id != 0 || old(bumpIndex) > INT_MAX ==>
        forall j: nat :: Passed(old(bumpIndex), id, j) ==> j in socketTable)
      ensures bumpIndex == if id == 0 && 1 <= old(bumpIndex) <= INT_MAX then old(bumpIndex) else (id + 1) % WORD
    {
      var curr: nat := bumpIndex;
      var oldIndex: nat := curr;
      ghost var seen: set<nat> := {};
      ghost var wrapped := false;
      lookups := 0;
      while true
        invariant Walked(oldIndex, curr, wrapped, seen)
        invariant |seen| == lookups && seen <= socketTable.Keys
        invariant bumpIndex == old(bumpIndex)
        decreases |socketTable| - lookups
      {
        SubsetSize(seen, socketTable.Keys);
        lookups := lookups + 1;
        if curr !in socketTable {
          bumpIndex := (curr + 1) % WORD;
          return curr, lookups;
        }
        WalkOn(oldIndex, curr, wrapped, seen);
        seen := seen + {curr};
        SubsetSize(seen, socketTable.Keys);
        curr := (curr + 1) % WORD;
        if curr == 0x8000_0000 {
          curr := 1;
          wrapped := true;
        }
        if oldIndex == curr {
          return 0, lookups;
        }
      }
    }

    /** find_free_id returns 0: the table is full, or the counter has wrapped. */
    ghost predicate NoId()
      reads this
    {
      bumpIndex == 0 || (bumpIndex <= INT_MAX && AllTaken(socketTable))
    }

    /** The first half of client_put_socket: a new id for the socket, taken back when the address
        table has no memory.  putId and putAddr say whether the two kh_put calls succeed. */
    method TakeId(newSocket: Socket, putId: bool, putAddr: bool) returns (id: nat)
      requires bumpIndex < WORD
      requires 0 !in socketTable && forall fd :: fd in socketTable ==> fd <= INT_MAX
      modifies this`bumpIndex, this`socketTable
      ensures bumpIndex < WORD && CountedOn(old(socketTable.Keys), old(bumpIndex), bumpIndex)
      ensures id == 0 <==> !putId || !putAddr || old(NoId())
      ensures id == 0 ==> socketTable == old(socketTable)
      ensures id != 0 ==> id !in old(socketTable) && socketTable == old(socketTable)[id := newSocket]
      ensures id != 0 ==> FirstFree(old(socketTable.Keys), old(bumpIndex), id) && bumpIndex == (id + 1) % WORD
      ensures id < WORD
    {
      ghost var ids, bump := socketTable.Keys, bumpIndex;
      assert AllTaken(socketTable) <==> Full(ids);
      var freeId, _ := FindFreeId();
      SearchEnds(ids, bump, freeId, bumpIndex);
      hide CountedOn, FirstFree, Full, AllTaken;
      if freeId == 0 || !putId {
        return 0;
      }
      PutBack(socketTable, freeId, newSocket);
      socketTable := socketTable[freeId := newSocket];
      if !putAddr {
        socketTable := socketTable - {freeId};
        return 0;
      }
      return freeId;
    }

    /** The branch of client_put_socket for an address that is still filed: the stack has reused its
        socket, so the old fd is invalidated.  The code calls kh_del with the old fd where a bucket number
        is expected; `layout` says which bucket of this client's table each of its keys is in. */
    method Invalidate(oldSocket: Socket, layout: map<nat, nat>) returns (found: bool)
      requires oldSocket.socketFd >= 0 && Injective(layout)
      modifies this`socketTable, this`eventSet, oldSocket`socket
      ensures found <==> oldSocket.socketFd in old(socketTable)
      ensures found ==>
        var oldFd := oldSocket.socketFd as nat;
        && oldSocket.socket == None && eventSet == old(eventSet) - {oldFd}
        && socketTable == Vacated(old(socketTable), layout, oldFd)
        && (socketTable == old(socketTable) - {oldFd} <==> oldFd in layout && layout[oldFd] == oldFd)
      ensures !found ==> socketTable == old(socketTable) && eventSet == old(eventSet)
    {
      var oldFd := oldSocket.socketFd;
      if oldFd !in socketTable {
        return false;
      }
      VacatedIff(socketTable, layout, oldFd);
      socketTable := Vacated(socketTable, layout, oldFd);
      oldSocket.socket := None;
      eventSet := eventSet - {oldFd};
      return true;
    }
  }

  /** What a call came to: its return value, or the fatal log line that stopped the server. */
  datatype Outcome = Returned(value: int) | Aborted

  class Server {
    var clients: seq<Client>
    var addrTable: map<nat, Socket>

    constructor (numClients: nat)
      ensures Valid() && |clients| == numClients
      ensures addrTable == map[] && forall c :: 0 <= c < numClients ==>
        && fresh(clients[c]) && clients[c].socketTable == map[] && clients[c].eventSet == {}
        && clients[c].log == [] && clients[c].bumpIndex == 1
    {
      clients, addrTable := [], map[];
      new;
      while |clients| < numClients
        invariant |clients| <= numClients && addrTable == map[]
        invariant forall i, j :: 0 <= i < j < |clients| ==> clients[i] != clients[j]
        invariant forall i :: 0 <= i < |clients| ==>
          fresh(clients[i]) && clients[i].socketTable == map[] && clients[i].eventSet == {} && clients[i].bumpIndex == 1
          && clients[i].log == []
      {
        var client := new Client();
        clients := clients + [client];
      }
    }

    ghost predicate Distinct()
      reads this
    {
      forall i, j :: 0 <= i < j < |clients| ==> clients[i] != clients[j]
    }

    /** Socket s of client c is filed under fd in that client's table and under its address. */
    ghost predicate Filed(c: nat, fd: nat, s: Socket)
      requires c < |clients|
      reads this, s
    {
      && 1 <= fd <= INT_MAX
      && s.clientId == c && s.socketFd == fd
      && s.socket.Some? && s.socket.value in addrTable && addrTable[s.socket.value] == s
    }

    /** Every entry of client c's table is filed, and its events are those not yet polled. */
    ghost predicate ClientOk(c: nat)
      requires c < |clients|
      reads this, clients, clients[c].socketTable.Values
    {
      && clients[c].bumpIndex < WORD
      && (forall fd :: fd in clients[c].socketTable ==>
            && Filed(c, fd, clients[c].socketTable[fd])
            && clients[c].socketTable[fd].events == Unpolled(clients[c].log, fd))
      && clients[c].eventSet <= clients[c].socketTable.Keys
    }

    /** Every entry of the address table is some client's socket. */
    ghost predicate AddressOk(a: nat)
      requires a in addrTable
      reads this, clients, addrTable[a]
    {
      var s := addrTable[a];
      && s.socket == Some(a)
      && s.clientId < |clients|
      && s.socketFd >= 0
      && s.socketFd in clients[s.clientId].socketTable
      && clients[s.clientId].socketTable[s.socketFd] == s
    }

    ghost predicate Valid()
      reads this, clients, addrTable.Values, set c, s | 0 <= c < |clients| && s in clients[c].socketTable.Values :: s
    {
      && Distinct()
      && (forall c: nat :: c < |clients| ==> ClientOk(c))
      && (forall a :: a in addrTable ==> AddressOk(a))
    }

    /** Nothing changed but client c's own record, the sockets in `touched` and the address table at
        `addresses`; what was touched belonged to client c. */
    twostate predicate OnlyTouched(c: nat, sockets: set<Socket>, touched: set<Socket>, addresses: set<nat>)
      requires c < |clients| && clients == old(clients)
      reads this, clients, sockets
    {
      && (forall i: nat :: i < |clients| && i != c ==> unchanged(clients[i]))
      && (forall s :: s in sockets && s !in touched ==> unchanged(s))
      && (forall a :: a in old(addrTable) ==>
            if a in addresses then old(addrTable[a]) in touched && old(addrTable[a].clientId) == c
            else old(addrTable[a]) !in touched && a in addrTable && addrTable[a] == old(addrTable[a]))
      && (forall a :: a in addrTable && a !in addresses ==> a in old(addrTable))
      && (forall fd :: fd in old(clients[c].socketTable) && old(clients[c].socketTable[fd]) !in touched ==>
            fd in clients[c].socketTable && clients[c].socketTable[fd] == old(clients[c].socketTable[fd]))
    }

    /** Then only client c and the touched addresses have to be looked at again. */
    twostate lemma ValidAfter(new c: nat, touched: set<Socket>, new addresses: set<nat>)
      requires old(Valid()) && c < |clients| && clients == old(clients)
      requires OnlyTouched(c, old(addrTable.Values), touched, addresses)
      requires ClientOk(c)
      requires forall a :: a in addresses && a in addrTable ==> AddressOk(a)
      ensures Valid()
    {
      forall i: nat | i < |clients|
        ensures ClientOk(i)
      {
        if i != c {
          OtherClient(c, i, touched, addresses);
        }
      }
      forall a | a in addrTable
        ensures AddressOk(a)
      {
        if a !in addresses {
          assert old(AddressOk(a));
          assert old(ClientOk(addrTable[a].clientId));
        }
      }
    }

    twostate lemma OtherClient(new c: nat, new i: nat, touched: set<Socket>, new addresses: set<nat>)
      requires old(Valid()) && c < |clients| && clients == old(clients)
      requires OnlyTouched(c, old(addrTable.Values), touched, addresses)
      requires i < |clients| && i != c
      ensures ClientOk(i)
    {
      assert old(ClientOk(i));
      forall fd | fd in clients[i].socketTable
        ensures Filed(i, fd, clients[i].socketTable[fd])
        ensures clients[i].socketTable[fd].events == Unpolled(clients[i].log, fd)
      {
        assert old(Filed(i, fd, clients[i].socketTable[fd]));
      }
    }

    /** The outcome the code means: the address is new, or its old socket was this client's and sits in
        the bucket whose number is its fd. */
    predicate Clean(c: nat, address: nat, layout: map<nat, nat>)
      reads this, addrTable.Values
    {
      address in addrTable ==>
        var s := addrTable[address];
        s.clientId == c && s.socketFd >= 0 && s.socketFd in layout && layout[s.socketFd] == s.socketFd
    }

    /** The new socket is filed under its id and its address, for client c. */
    twostate predicate NewlyFiled(c: nat, id: nat, newSocket: Socket, address: nat)
      requires c < |clients| && clients == old(clients)
      reads this, clients, newSocket
    {
      && 0 < id < WORD && id !in old(clients[c].socketTable)
      && addrTable == old(addrTable)[address := newSocket]
      && newSocket.socket == Some(address) && newSocket.clientId == c
      && newSocket.socketFd == AsInt(id) && newSocket.events == 0
      && clients[c].log == old(clients[c].log) + [Opened(id)]
      && clients[c].bumpIndex < WORD
      && (forall i: nat :: i < |clients| && i != c ==> unchanged(clients[i]))
    }

    /** Every socket of a client's table is in the address table. */
    twostate lemma OldFiled(c: nat, new fd: nat)
      requires old(c < |clients| && ClientOk(c) && fd in clients[c].socketTable)
      ensures old(Filed(c, fd, clients[c].socketTable[fd]))
      ensures old(clients[c].socketTable[fd] in addrTable.Values)
    {
      assert old(Filed(c, fd, clients[c].socketTable[fd]));
      assert old(addrTable[clients[c].socketTable[fd].socket.value] in addrTable.Values);
    }

    lemma LogOpened(log: seq<Entry>, id: nat)
      ensures Unpolled(log + [Opened(id)], id) == 0
      ensures forall fd: nat :: fd != id ==> Unpolled(log + [Opened(id)], fd) == Unpolled(log, fd)
    {
      assert (log + [Opened(id)])[..|log|] == log;
    }

    /** A new address: the tables are consistent again. */
    twostate lemma FreshFiled(new c: nat, new id: nat, newSocket: Socket, new address: nat)
      requires old(Valid()) && c < |clients| && clients == old(clients)
      requires newSocket !in old(addrTable.Values) && address !in old(addrTable)
      requires NewlyFiled(c, id, newSocket, address) && id <= INT_MAX
      requires clients[c].socketTable == old(clients[c].socketTable)[id := newSocket]
      requires clients[c].eventSet == old(clients[c].eventSet)
      requires forall s :: s in old(addrTable.Values) ==> unchanged(s)
      ensures Valid()
    {
      assert old(ClientOk(c));
      LogOpened(old(clients[c].log), id);
      forall fd | fd in clients[c].socketTable
        ensures Filed(c, fd, clients[c].socketTable[fd])
        ensures clients[c].socketTable[fd].events == Unpolled(clients[c].log, fd)
      {
        if fd != id {
          OldFiled(c, fd);
        }
      }
      assert AddressOk(address);
      ValidAfter(c, {newSocket}, {address});
    }

    /** No event is lost: every socket with events that were not polled yet is in the event set. */
    ghost predicate Remembered(c: nat)
      requires c < |clients|
      reads this`clients, clients[c]
    {
      forall fd :: fd in clients[c].socketTable && Unpolled(clients[c].log, fd) != 0 ==> fd in clients[c].eventSet
    }

    /** The address is filed under a descriptor that client c has not, nor is it the new one. */
    ghost predicate Stray(c: nat, id: nat, address: nat)
      requires c < |clients|
      reads this, clients, if address in addrTable then {addrTable[address]} else {}
    {
      address in addrTable &&
        var fd := addrTable[address].socketFd;
        fd !in clients[c].socketTable && fd != id
    }

    /** The new socket is in the table, the buckets numbered like the old descriptors are deleted, and nothing
        else is changed there.  The new descriptor starts without events, those of the old ones leave the
        event set, and every other socket keeps what it has; so events are lost exactly if an old one stays
        in the table with some. */
    twostate predicate AfterOpen(c: nat, new id: nat, new s: Socket, new layout: map<nat, nat>, new ids: set<nat>)
      requires old(c < |clients|) && clients == old(clients)
      reads this`clients, clients[c]
    {
      && clients[c].socketTable == Filing(old(clients[c].socketTable), id, s, layout, ids)
      && clients[c].log == old(clients[c].log) + [Opened(id)]
      && clients[c].eventSet == old(clients[c].eventSet) - ids
      && (old(Remembered(c)) ==> (Remembered(c) <==> Forgets(c, ids)))
    }

    /** The descriptor an address was filed under. */
    ghost function OldIds(address: nat): set<nat>
      reads this`addrTable, if address in addrTable then {addrTable[address]} else {}
    {
      if address in addrTable && addrTable[address].socketFd >= 0 then {addrTable[address].socketFd} else {}
    }

    /** None of them is in the table any more with events that were not polled. */
    ghost predicate Forgets(c: nat, ids: set<nat>)
      requires c < |clients|
      reads this`clients, clients[c]
    {
      forall fd :: fd in ids ==> fd in clients[c].socketTable ==> Unpolled(clients[c].log, fd) == 0
    }

    /** Only the events of the old descriptor of a reused address can be lost. */
    twostate lemma EventsKept(c: nat, new id: nat, new ids: set<nat>)
      requires old(c < |clients|) && clients == old(clients)
      requires clients[c].log == old(clients[c].log) + [Opened(id)]
      requires clients[c].eventSet == old(clients[c].eventSet) - ids
      requires forall fd :: fd in clients[c].socketTable ==> fd == id || fd in old(clients[c].socketTable)
      ensures old(Remembered(c)) ==> (Remembered(c) <==> Forgets(c, ids))
    {
      LogOpened(old(clients[c].log), id);
    }

    /** Nothing that client_put_socket needs is missing: memory, and an id. */
    ghost predicate CanFile(c: nat, memory: bool)
      requires c < |clients|
      reads this, clients
    {
      memory && !clients[c].NoId()
    }

    /** The id handed out is the first one free, and the search goes on behind it next time. */
    twostate predicate NewId(c: nat, new id: nat)
      requires old(c < |clients|) && clients == old(clients)
      reads this`clients, clients[c]
    {
      && id < WORD && FirstFree(old(clients[c].socketTable.Keys), old(clients[c].bumpIndex), id)
      && clients[c].bumpIndex == (id + 1) % WORD
    }

    /** The socket is filed under its descriptor and its address, and every other socket keeps its pending
        events.  The tables stay consistent exactly when the id is not negative as a descriptor and the
        address is new, or its old socket was the client's and the deletion hits the right bucket. */
    twostate predicate FiledAs(c: nat, new id: nat, new s: Socket, new address: nat, new layout: map<nat, nat>,
                               new ret: int)
      requires old(c < |clients|) && clients == old(clients)
      reads this, clients, addrTable.Values, s
      reads set i, s | 0 <= i < |clients| && s in clients[i].socketTable.Values :: s
    {
      && addrTable == old(addrTable)[address := s] && s.socketFd == ret == AsInt(id)
      && (Valid() <==> old(clients[c].bumpIndex <= INT_MAX && Clean(c, address, layout)))
      && AfterOpen(c, id, s, layout, old(OldIds(address)))
    }

    /** client_put_socket followed by the assignment of the new id that both its callers make.  `layout`
        is where the put of the new id leaves the keys of the client's table.  The tables stay consistent
        exactly when the id is not negative and the address is new or the deletion hits the right bucket. */
    method ClientPutSocket(c: nat, newSocket: Socket, address: nat, putId: bool, putAddr: bool, layout: map<nat, nat>)
      returns (out: Outcome, ghost id: nat)
      requires Valid() && c < |clients| && Injective(layout)
      requires newSocket !in addrTable.Values && newSocket.socket == Some(address)
      requires newSocket.clientId == c && newSocket.events == 0
      modifies this`addrTable, clients[c], newSocket`socketFd,
        if address in addrTable then {addrTable[address]} else {}
      ensures clients == old(clients)
      ensures CountedOn(old(clients[c].socketTable.Keys), old(clients[c].bumpIndex), clients[c].bumpIndex)
      ensures !old(CanFile(c, putId && putAddr)) ==>
        && out == Returned(-1) && Valid() && addrTable == old(addrTable)
        && clients[c].socketTable == old(clients[c].socketTable) && clients[c].eventSet == old(clients[c].eventSet)
      ensures old(CanFile(c, putId && putAddr)) && out.Returned? ==>
        FiledAs(c, id, newSocket, address, layout, out.value)
      ensures old(CanFile(c, putId && putAddr) && clients[c].bumpIndex <= INT_MAX && address !in addrTable) ==>
        && out == Returned(id)
      ensures !old(CanFile(c, putId && putAddr)) ==> clients[c].log == old(clients[c].log)
      // The fatal check fires exactly if the old descriptor is in no use in this client's table.
      ensures old(CanFile(c, putId && putAddr)) ==> NewId(c, id)
      ensures out.Aborted? <==> old(CanFile(c, putId && putAddr)) && old(Stray(c, id, address))
    {
      var client := clients[c];
      assert ClientOk(c);
      var newId := client.TakeId(newSocket, putId, putAddr);
      id := newId;
      if newId == 0 {
        RolledBack(c);
        return Returned(-1), id;
      }
      if address in addrTable {
        var oldSocket := addrTable[address];
        assert old(AddressOk(address));
        if oldSocket.socket != newSocket.socket {
          return Aborted, id;
        }
        var found := client.Invalidate(oldSocket, layout);
        if !found {
          return Aborted, id;
        }
      }
      addrTable := addrTable[address := newSocket];
      client.log := client.log + [Opened(id)];
      newSocket.socketFd := AsInt(newId);
      FiledIff(c, id, newSocket, address, layout);
      out := Returned(AsInt(newId));
    }

    /** A failure gives back everything but the id counter. */
    twostate lemma RolledBack(c: nat)
      requires old(Valid()) && c < |clients| && clients == old(clients) && addrTable == old(addrTable)
      requires forall i: nat :: i < |clients| && i != c ==> unchanged(clients[i])
      requires clients[c].socketTable == old(clients[c].socketTable) && clients[c].eventSet == old(clients[c].eventSet)
      requires clients[c].log == old(clients[c].log) && clients[c].bumpIndex < WORD
      requires forall s :: s in old(addrTable.Values) ==> unchanged(s)
      ensures Valid()
    {
      assert old(ClientOk(c));
      forall fd | fd in clients[c].socketTable
        ensures Filed(c, fd, clients[c].socketTable[fd])
        ensures clients[c].socketTable[fd].events == Unpolled(clients[c].log, fd)
      {
        OldFiled(c, fd);
      }
      ValidAfter(c, {}, {});
    }

    /** The state after the branch for a reused address. */
    twostate predicate Replaced(c: nat, id: nat, newSocket: Socket, oldSocket: Socket, layout: map<nat, nat>)
      requires c < |clients| && clients == old(clients)
      reads this, clients, oldSocket
    {
      && oldSocket.socket == None
      && oldSocket.socketFd == old(oldSocket.socketFd) && oldSocket.clientId == old(oldSocket.clientId)
      && oldSocket.socketFd >= 0
      && clients[c].socketTable == Vacated(old(clients[c].socketTable)[id := newSocket], layout, oldSocket.socketFd)
      && clients[c].eventSet == old(clients[c].eventSet) - {oldSocket.socketFd as nat}
    }

    /** A reused address: the tables are consistent exactly in the clean case. */
    twostate lemma ReusedFiled(new c: nat, new id: nat, newSocket: Socket, new address: nat,
                               new layout: map<nat, nat>)
      requires old(Valid()) && c < |clients| && clients == old(clients)
      requires newSocket !in old(addrTable.Values) && address in old(addrTable)
      requires NewlyFiled(c, id, newSocket, address) && id <= INT_MAX
      requires Replaced(c, id, newSocket, old(addrTable[address]), layout) && Injective(layout)
      requires forall s :: s in old(addrTable.Values) && s != old(addrTable[address]) ==> unchanged(s)
      ensures Valid() <==> old(Clean(c, address, layout))
    {
      var oldSocket := old(addrTable[address]);
      assert old(AddressOk(address));
      if oldSocket.clientId == c {
        VacatedIff(old(clients[c].socketTable)[id := newSocket], layout, oldSocket.socketFd);
      }
      if old(Clean(c, address, layout)) {
        assert old(ClientOk(c));
        LogOpened(old(clients[c].log), id);
        forall fd | fd in clients[c].socketTable
          ensures Filed(c, fd, clients[c].socketTable[fd])
          ensures clients[c].socketTable[fd].events == Unpolled(clients[c].log, fd)
        {
          if fd != id {
            OldFiled(c, fd);
          }
        }
        assert AddressOk(address);
        ValidAfter(c, {newSocket, oldSocket}, {address});
      } else {
        // The old socket is still in its owner's table, but no address leads to it any more.
        var owner, fd := oldSocket.clientId, oldSocket.socketFd;
        assert fd in clients[owner].socketTable && clients[owner].socketTable[fd] == oldSocket;
        assert !Filed(owner, fd, oldSocket);
        assert !ClientOk(owner);
      }
    }

    /** Whatever the address and the id: the tables are consistent exactly in the clean case, with an id
        that is not negative as a descriptor. */
    twostate lemma FiledIff(new c: nat, new id: nat, newSocket: Socket, new address: nat,
                            new layout: map<nat, nat>)
      requires old(Valid()) && c < |clients| && clients == old(clients) && Injective(layout)
      requires newSocket !in old(addrTable.Values) && NewlyFiled(c, id, newSocket, address)
      requires if address in old(addrTable) then Replaced(c, id, newSocket, old(addrTable[address]), layout)
        else
          && clients[c].socketTable == old(clients[c].socketTable)[id := newSocket]
          && clients[c].eventSet == old(clients[c].eventSet)
      requires forall s :: s in old(addrTable.Values) ==>
        unchanged(s) || (address in old(addrTable) && s == old(addrTable[address]))
      ensures Valid() <==> id <= INT_MAX && old(Clean(c, address, layout))
      ensures AfterOpen(c, id, newSocket, layout, old(OldIds(address)))
    {
      FilingIs(old(clients[c].socketTable), id, newSocket, layout);
      assert address in old(addrTable) ==> old(AddressOk(address));
      EventsKept(c, id, old(OldIds(address)));
      if id > INT_MAX {
        assert !AddressOk(address);
      } else if address in old(addrTable) {
        ReusedFiled(c, id, newSocket, address, layout);
      } else {
        FreshFiled(c, id, newSocket, address);
      }
    }

    // -------------------------------------------------------------------------
    // Opening

    /** What a call that opens a socket for client c comes to; `works` says that nothing it needs is missing.
        The fatal check fires exactly if the address was filed under a descriptor that is not in use in this
        client's table; the tables stay consistent exactly when the id is not negative and the address is new,
        or the old socket was the client's and the deletion hits the right bucket. */
    twostate predicate OpenOutcome(c: nat, new works: bool, new protocol: Protocol, new stack: Option<nat>,
                                   new layout: map<nat, nat>, new out: Outcome, new id: nat)
      requires old(c < |clients|) && clients == old(clients)
      reads this, clients, addrTable.Values
      reads set i, s | 0 <= i < |clients| && s in clients[i].socketTable.Values :: s
    {
      if !works then
        && out == Returned(-1) && Valid() && addrTable == old(addrTable)
        && clients[c].socketTable == old(clients[c].socketTable)
        && clients[c].eventSet == old(clients[c].eventSet) && clients[c].log == old(clients[c].log)
      else
        && stack.Some? && NewId(c, id) && (out.Aborted? <==> old(Stray(c, id, stack.value)))
        && (out.Returned? ==>
              && stack.value in addrTable && fresh(addrTable[stack.value])
              && addrTable[stack.value].protocol == protocol
              && FiledAs(c, id, addrTable[stack.value], stack.value, layout, out.value))
    }

    /** Every other client's record, and every filed socket but the one at the address, is as it was. */
    twostate predicate OthersUntouched(c: nat, new stack: Option<nat>, sockets: set<Socket>)
      requires clients == old(clients)
      reads this, clients, sockets
    {
      && (forall i: nat :: i < |clients| && i != c ==> unchanged(clients[i]))
      && (forall s :: s in sockets ==>
            unchanged(s) || (stack.Some? && stack.value in old(addrTable) && s == old(addrTable[stack.value])))
    }

    /** pico_control_open, and the second half of pico_control_accept: a socket record for what the
        stack returned (nothing, or an address), filed for client c. */
    method AddSocket(c: nat, protocol: Protocol, stack: Option<nat>, calloc: bool, putId: bool, putAddr: bool,
                     layout: map<nat, nat>)
      returns (out: Outcome, ghost id: nat)
      requires Valid() && c < |clients| && Injective(layout)
      modifies this`addrTable, clients[c],
        if stack.Some? && stack.value in addrTable then {addrTable[stack.value]} else {}
      ensures clients == old(clients)
      ensures var works := old(CanFile(c, calloc && stack.Some? && putId && putAddr));
        OpenOutcome(c, works, protocol, stack, layout, out, id)
      // The id counter moves exactly if an id was looked for.
      ensures if calloc && stack.Some?
              then CountedOn(old(clients[c].socketTable.Keys), old(clients[c].bumpIndex), clients[c].bumpIndex)
              else clients[c].bumpIndex == old(clients[c].bumpIndex)
    {
      hide CountedOn, FirstFree, Full;
      if !calloc || stack.None? {
        return Returned(-1), 0;
      }
      var newSocket := new Socket(c, stack.value, protocol);
      out, id := ClientPutSocket(c, newSocket, stack.value, putId, putAddr, layout);
    }

    ghost predicate Owns(c: nat, fd: int)
      requires c < |clients|
      reads this, clients
    {
      fd >= 0 && fd in clients[c].socketTable
    }

    /** pico_control_accept: only a socket of the client's own can accept. */
    method PicoControlAccept(c: nat, fd: int, stack: Option<nat>, calloc: bool, putId: bool, putAddr: bool,
                             layout: map<nat, nat>)
      returns (out: Outcome, ghost id: nat)
      requires Valid() && c < |clients| && Injective(layout)
      modifies this`addrTable, clients[c],
        if stack.Some? && stack.value in addrTable then {addrTable[stack.value]} else {}
      ensures clients == old(clients)
      ensures var works := old(Owns(c, fd) && CanFile(c, calloc && stack.Some? && putId && putAddr));
        OpenOutcome(c, works, Tcp, stack, layout, out, id)
      ensures if old(Owns(c, fd)) && calloc && stack.Some?
              then CountedOn(old(clients[c].socketTable.Keys), old(clients[c].bumpIndex), clients[c].bumpIndex)
              else clients[c].bumpIndex == old(clients[c].bumpIndex)
    {
      if fd < 0 || fd !in clients[c].socketTable {
        return Returned(-1), 0;
      }
      out, id := AddSocket(c, Tcp, stack, calloc, putId, putAddr, layout);
    }

    // -------------------------------------------------------------------------
    // Closing

    /** client_delete_socket.  The fatal check on the address table never fires. */
    method ClientDeleteSocket(c: nat, fd: int) returns (out: Outcome)
      requires Valid() && c < |clients|
      modifies this`addrTable, clients[c]
      ensures Valid() && clients == old(clients)
      ensures out == if fd >= 0 && fd in old(clients[c].socketTable) then Returned(0) else Returned(-1)
      ensures out == Returned(-1) ==>
        && addrTable == old(addrTable) && clients[c].socketTable == old(clients[c].socketTable)
        && clients[c].eventSet == old(clients[c].eventSet)
      ensures out == Returned(0) ==>
        && old(clients[c].socketTable[fd as nat].socket.Some?)
        && addrTable == old(addrTable) - {old(clients[c].socketTable[fd as nat].socket.value)}
        && clients[c].socketTable == old(clients[c].socketTable) - {fd as nat}
        && clients[c].eventSet == old(clients[c].eventSet) - {fd as nat}
      ensures clients[c].bumpIndex == old(clients[c].bumpIndex) && clients[c].log == old(clients[c].log)
      ensures old(Remembered(c)) ==> Remembered(c)
    {
      var client := clients[c];
      if fd < 0 || fd !in client.socketTable {
        return Returned(-1);
      }
      var socket := client.socketTable[fd];
      assert ClientOk(c);
      assert Filed(c, fd, socket);
      var address := socket.socket.value;
      if address !in addrTable {
        return Aborted;
      }
      client.socketTable := client.socketTable - {fd};
      addrTable := addrTable - {address};
      client.eventSet := client.eventSet - {fd};
      Deleted(c, fd, socket, address);
      return Returned(0);
    }

    twostate lemma Deleted(new c: nat, new fd: nat, socket: Socket, new address: nat)
      requires old(Valid()) && c < |clients| && clients == old(clients)
      requires fd in old(clients[c].socketTable) && old(clients[c].socketTable[fd]) == socket
      requires old(socket.socket) == Some(address)
      requires addrTable == old(addrTable) - {address}
      requires clients[c].socketTable == old(clients[c].socketTable) - {fd}
      requires clients[c].eventSet == old(clients[c].eventSet) - {fd}
      requires clients[c].log == old(clients[c].log) && clients[c].bumpIndex == old(clients[c].bumpIndex)
      requires forall i: nat :: i < |clients| && i != c ==> unchanged(clients[i])
      requires forall s :: s in old(addrTable.Values) ==> unchanged(s)
      ensures Valid()
    {
      assert old(ClientOk(c));
      OldFiled(c, fd);
      forall f | f in clients[c].socketTable
        ensures Filed(c, f, clients[c].socketTable[f])
        ensures clients[c].socketTable[f].events == Unpolled(clients[c].log, f)
      {
        OldFiled(c, f);
      }
      ValidAfter(c, {socket}, {address});
    }

    // -------------------------------------------------------------------------
    // Events

    lemma LogOther(log: seq<Entry>, e: Entry)
      ensures forall fd: nat :: fd != e.fd ==> Unpolled(log + [e], fd) == Unpolled(log, fd)
      ensures Unpolled(log + [e], e.fd) == if e.Posted? then Unpolled(log, e.fd) | e.ev else 0
    {
      assert (log + [e])[..|log|] == log;
    }

    /** Only the events of socket fd, the event set and the log of client c have changed. */
    twostate lemma EventsChanged(new c: nat, new fd: nat, socket: Socket, new e: Entry)
      requires old(Valid()) && c < |clients| && clients == old(clients) && addrTable == old(addrTable)
      requires fd in old(clients[c].socketTable) && old(clients[c].socketTable[fd]) == socket
      requires socket.socket == old(socket.socket) && socket.clientId == old(socket.clientId)
      requires socket.socketFd == old(socket.socketFd)
      requires e.fd == fd && clients[c].log == old(clients[c].log) + [e]
      requires socket.events == Unpolled(clients[c].log, fd)
      requires clients[c].socketTable == old(clients[c].socketTable)
      requires clients[c].bumpIndex == old(clients[c].bumpIndex)
      requires clients[c].eventSet <= old(clients[c].eventSet) + {fd}
      requires forall i: nat :: i < |clients| && i != c ==> unchanged(clients[i])
      requires forall s :: s in old(addrTable.Values) && s != socket ==> unchanged(s)
      ensures Valid()
    {
      assert old(ClientOk(c));
      LogOther(old(clients[c].log), e);
      OldFiled(c, fd);
      forall f | f in clients[c].socketTable
        ensures Filed(c, f, clients[c].socketTable[f])
        ensures clients[c].socketTable[f].events == Unpolled(clients[c].log, f)
      {
        OldFiled(c, f);
      }
      var address := socket.socket.value;
      assert AddressOk(address);
      ValidAfter(c, {socket}, {address});
    }

    /** client_put_event for a socket that exists; `alloc` says whether kh_put finds memory. */
    method PostEvent(c: nat, fd: nat, event: Events, alloc: bool)
      requires Valid() && c < |clients| && fd in clients[c].socketTable
      modifies clients[c], clients[c].socketTable[fd]
      ensures Valid()
      ensures clients[c].socketTable == old(clients[c].socketTable) && clients[c].bumpIndex == old(clients[c].bumpIndex)
      ensures clients[c].eventSet == old(clients[c].eventSet) + (if alloc then {fd} else {})
      ensures clients[c].log == old(clients[c].log) + [Posted(fd, event)]
    {
      var client := clients[c];
      var socket := client.socketTable[fd];
      assert ClientOk(c);
      assert Filed(c, fd, socket);
      LogOther(client.log, Posted(fd, event));
      socket.events := socket.events | event;
      client.log := client.log + [Posted(fd, event)];
      client.eventSet := if alloc then client.eventSet + {fd} else client.eventSet;
      EventsChanged(c, fd, socket, Posted(fd, event));
    }

    /** An entry about fd leaves the memory of every other socket's events as it is. */
    twostate lemma StillRemembered(c: nat, new fd: nat, new e: Entry)
      requires old(c < |clients|) && clients == old(clients)
      requires e.fd == fd && clients[c].log == old(clients[c].log) + [e]
      requires clients[c].socketTable == old(clients[c].socketTable) && fd in clients[c].socketTable
      requires clients[c].eventSet - {fd} == old(clients[c].eventSet) - {fd}
      ensures old(Remembered(c)) ==> (Remembered(c) <==> fd in clients[c].eventSet || Unpolled(clients[c].log, fd) == 0)
    {
      LogOther(old(clients[c].log), e);
      forall f | f in clients[c].socketTable && f != fd
        ensures f in clients[c].eventSet <==> f in old(clients[c].eventSet)
      {
        assert f in clients[c].eventSet - {fd} <==> f in old(clients[c].eventSet) - {fd};
      }
    }

    /** The descriptor has no events, or is in the event set. */
    ghost predicate Pending(c: nat, fd: int)
      requires c < |clients|
      reads this`clients, clients[c]
    {
      fd >= 0 && fd in clients[c].socketTable ==> fd in clients[c].eventSet || Unpolled(clients[c].log, fd) == 0
    }

    /** client_put_event. */
    method ClientPutEvent(c: nat, fd: int, event: Events, alloc: bool) returns (ret: int)
      requires Valid() && c < |clients|
      modifies clients[c], clients[c].socketTable.Values
      ensures Valid()
      ensures clients[c].socketTable == old(clients[c].socketTable) && clients[c].bumpIndex == old(clients[c].bumpIndex)
      ensures ret == if fd >= 0 && fd in clients[c].socketTable && alloc then 0 else -1
      ensures clients[c].eventSet == old(clients[c].eventSet) + (if ret == 0 then {fd as nat} else {})
      ensures clients[c].log ==
        old(clients[c].log) + (if fd >= 0 && fd in clients[c].socketTable then [Posted(fd, event)] else [])
      // Without memory the event is forgotten, unless the socket was pending before.
      ensures old(Remembered(c)) ==> (Remembered(c) <==> alloc || Pending(c, fd))
    {
      if fd < 0 || fd !in clients[c].socketTable {
        return -1;
      }
      PostEvent(c, fd, event, alloc);
      StillRemembered(c, fd, Posted(fd, event));
      return if alloc then 0 else -1;
    }

    /** The event half of the stack's callback: a socket nobody has filed is ignored, anything else
        has its events posted to its owner, and the owner's notification is requested. */
    method SocketCallback(address: nat, ev: Events, alloc: bool) returns (out: Outcome, emit: bool)
      requires Valid()
      modifies clients, addrTable.Values
      ensures Valid()
      ensures out.Aborted? <==> address in addrTable && ev != 0 && !alloc
      ensures emit <==> address in addrTable && ev != 0 && alloc
      ensures address in addrTable && ev != 0 ==>
        var owner, fd := old(addrTable[address].clientId), old(addrTable[address].socketFd);
        && owner < |clients| && fd >= 0
        && clients[owner].log == old(clients[owner].log) + [Posted(fd, ev)]
        && clients[owner].eventSet == old(clients[owner].eventSet) + (if alloc then {fd as nat} else {})
      ensures forall i: nat ::
        i < |clients| && (address in addrTable && ev != 0 ==> i != old(addrTable[address].clientId)) ==>
        clients[i].log == old(clients[i].log) && clients[i].eventSet == old(clients[i].eventSet)
      ensures forall i: nat :: i < |clients| ==> clients[i].socketTable == old(clients[i].socketTable)
      ensures !out.Aborted? ==> forall i: nat :: i < |clients| && old(Remembered(i)) ==> Remembered(i)
    {
      emit := false;
      if address !in addrTable {
        return Returned(0), emit;
      }
      var socket := addrTable[address];
      assert AddressOk(address);
      if ev != 0 {
        var c := socket.clientId;
        assert ClientOk(c);
        assert forall fd :: fd in clients[c].socketTable ==> Filed(c, fd, clients[c].socketTable[fd]);
        var ret := ClientPutEvent(c, socket.socketFd, ev, alloc);
        if ret == -1 {
          return Aborted, emit;
        }
        emit := true;
      }
      return Returned(0), emit;
    }

    /** client_get_event: report one socket with outstanding events, whichever comes first in the
        event set.  The fatal check that the socket still exists never fires. */
    method ClientGetEvent(c: nat) returns (out: Report)
      requires Valid() && c < |clients|
      modifies clients[c], clients[c].socketTable.Values
      ensures Valid()
      ensures clients[c].socketTable == old(clients[c].socketTable) && clients[c].bumpIndex == old(clients[c].bumpIndex)
      ensures if old(clients[c].eventSet) == {} then out == Report(0, 0, 0)
              else out.socketFd in old(clients[c].eventSet)
      ensures clients[c].eventSet == old(clients[c].eventSet) - {out.socketFd}
      ensures out.socketFd != 0 ==>
        && clients[c].log == old(clients[c].log) + [Polled(out.socketFd, out.events)]
        && out.events == Unpolled(old(clients[c].log), out.socketFd)
        && out.numEventsLeft == |clients[c].eventSet|
      ensures out.socketFd == 0 ==> clients[c].log == old(clients[c].log) && 0 !in old(clients[c].eventSet)
      ensures old(Remembered(c)) ==> Remembered(c)
    {
      var client := clients[c];
      assert ClientOk(c);
      assert forall f :: f in client.eventSet ==> Filed(c, f, client.socketTable[f]);
      out := Report(0, 0, 0);
      if client.eventSet != {} {
        var fd :| fd in client.eventSet;
        client.eventSet := client.eventSet - {fd};
        var socket := client.socketTable[fd];
        out := Report(fd, socket.events, |client.eventSet|);
        ghost var polled := Polled(fd, socket.events);
        LogOther(client.log, Polled(fd, socket.events));
        socket.events := 0;
        client.log := client.log + [polled];
        EventsChanged(c, fd, socket, polled);
      }
    }

    /** One poll of a client that has events outstanding, seen from an earlier log. */
    method PollNext(c: nat, ghost log: seq<Entry>) returns (report: Report)
      requires Valid() && c < |clients| && clients[c].eventSet != {} && Owed(c, log)
      modifies clients[c], clients[c].socketTable.Values
      ensures Valid() && Owed(c, log) && clients[c].socketTable == old(clients[c].socketTable)
      ensures report.socketFd in old(clients[c].eventSet) && report.events == Unpolled(log, report.socketFd)
      ensures clients[c].eventSet == old(clients[c].eventSet) - {report.socketFd}
      ensures old(Remembered(c)) ==> Remembered(c)
    {
      ghost var was := clients[c].log;
      report := ClientGetEvent(c);
      LogOther(was, Polled(report.socketFd, report.events));
    }

    /** What is outstanding was already outstanding in the given log. */
    ghost predicate Owed(c: nat, log: seq<Entry>)
      requires c < |clients|
      reads this`clients, if c < |clients| then {clients[c]} else {}
    {
      forall fd :: fd in clients[c].eventSet ==> Unpolled(clients[c].log, fd) == Unpolled(log, fd)
    }

    /** Polling until nothing is left reports every socket with outstanding events exactly once, each
        with the union of what was posted on it since its last report. */
    method PollAll(c: nat) returns (reports: seq<Report>)
      requires Valid() && c < |clients|
      modifies clients[c], clients[c].socketTable.Values
      ensures Valid() && clients[c].eventSet == {}
      ensures Reported(reports) == old(clients[c].eventSet)
      ensures Faithful(reports, old(clients[c].log))
      // If none was forgotten before, every socket with events was reported, and none has any now.
      ensures old(Remembered(c)) ==> forall fd :: fd in clients[c].socketTable ==>
        && (old(Unpolled(clients[c].log, fd)) != 0 ==> fd in Reported(reports))
        && Unpolled(clients[c].log, fd) == 0
    {
      ghost var log := clients[c].log;
      reports := [];
      while clients[c].eventSet != {}
        invariant Valid() && clients[c].socketTable == old(clients[c].socketTable) && Owed(c, log)
        invariant Divided(reports, clients[c].eventSet, old(clients[c].eventSet))
        invariant Faithful(reports, log) && (old(Remembered(c)) ==> Remembered(c))
        decreases |clients[c].eventSet|
      {
        ghost var pending := clients[c].eventSet;
        var report := PollNext(c, log);
        ReportedMore(reports, report, log, pending, old(clients[c].eventSet));
        reports := reports + [report];
      }
    }
  }

  /** The sockets a series of reports is about. */
  ghost function Reported(reports: seq<Report>): set<nat> {
    set r | r in reports :: r.socketFd
  }

  /** The reports are about different sockets, and each gives the events outstanding for its socket. */
  ghost predicate Faithful(reports: seq<Report>, log: seq<Entry>) {
    && (forall i, j :: 0 <= i < j < |reports| ==> reports[i].socketFd != reports[j].socketFd)
    && forall i :: 0 <= i < |reports| ==> reports[i].events == Unpolled(log, reports[i].socketFd)
  }

  /** Each of these sockets is either reported or still pending. */
  ghost predicate Divided(reports: seq<Report>, pending: set<nat>, all: set<nat>) {
    Reported(reports) !! pending && Reported(reports) + pending == all
  }

  lemma ReportedMore(reports: seq<Report>, report: Report, log: seq<Entry>, pending: set<nat>, all: set<nat>)
    requires Faithful(reports, log) && Divided(reports, pending, all) && report.socketFd in pending
    requires report.events == Unpolled(log, report.socketFd)
    ensures Faithful(reports + [report], log)
    ensures Divided(reports + [report], pending - {report.socketFd}, all)
  {
    assert forall r :: r in reports + [report] <==> r in reports || r == report;
    assert forall i :: 0 <= i < |reports| ==> reports[i].socketFd in Reported(reports);
    assert Reported(reports + [report]) == Reported(reports) + {report.socketFd};
  }

  /** picoserver_event_t: all zero when there is nothing to report. */
  datatype Report = Report(socketFd: nat, events: Events, numEventsLeft: nat)
}
