# A Dafny model of the global components

This project models six pieces of the repository whose correctness rests on data structures and
protocols, and proves what they keep. The code is modelled in its own form: objects with fields that
methods change, arrays changed in place, loops with invariants, intrusive linked lists through
pointers. Beside each class stands a specification on values (maps, sequences, ledgers), and the
properties of the specification are lemmas.

| modules | what they model | main results |
|---|---|---|
| Bits, Probing, Flags, Capacity, Buckets, Rehash, KHash, SocketTables, TableRuns | the khash.h open-addressing table | whatever the hash function, any run of operations is the same run on a finite map; the in-place rehash keeps it and terminates; allocation failures change nothing; when kh_put can make room; fixed-width arithmetic |
| PicoClient, PicoRuns | socket, address and event tables of the PicoServer | in any run of regular calls the tables stay consistent, ids never collide, no event is lost or invented; when a call is not regular, exactly what happens, fatal checks included |
| Channels, PendingQueue, AsyncTransport, AsyncServer, Transport, TransportRuns | the asynchronous socket transport | in any run every submission is answered once, waiting, or on the ring, in order; sent bytes are the messages in order, each whole unless the stack answered -1 to it or its socket had no queue or was torn down, then the front of the head of the queue; what comes back holds the bytes received and stays as it is; queue aborts unreachable |
| SerialLines, SerialScreen, SerialOutput, SerialInput | the serial multiplexer | printed + buffered = written for every stream; what each byte written does, branch by branch; exactly when a buffer fills; escaped input arrives unchanged, and commands select whom they name |
| EthBuffers, EthDriver | the shared Ethernet driver | buffers partitioned, frames in order, each to exactly the clients it is for, wake-up exactly on empty to non-empty |
| EthernetAsync | the two-party asynchronous Ethernet protocol | buffers never lost or duplicated, frames in order exactly once, no frame stuck |

Basics holds the types and counting lemmas the modules share. `dafny verify dfyconfig.toml` verifies
everything.

How a few things are modelled:

* Code that is not in the repository is a nondeterministic method or a parameter. `raw_tx` enqueues or
  refuses; `pico_socket_send` and `pico_socket_recv` move any number of bytes up to what was offered, or
  return -1 and move none; each allocation succeeds or fails as a parameter says. Rings are FIFO queues
  of buffer ids.
* A call of `ZF_LOGF` or `ZF_LOGF_IF` is an outcome `Aborted`, or an assertion where it is proved never to
  happen.
* Ghost fields record history: what was written and printed, taken and answered, sent and received.
  Contracts say how a step changes them; the executable fields never depend on them.
* 32-bit and 64-bit wrap-around is written out with remainders; flag words are 32-bit vectors.
* A table whose arrays are still NULL has arrays of length 0.
* In `PicoClient` the khash tables appear as the maps and sets that module KHash proves them to be;
  `SocketTables` proves the look-up-then-act patterns on the real table. Where the code confuses a
  descriptor with a bucket number, `PicoClient` is given the bucket of every key as a parameter, and
  `SocketTables.Replace` proves on the real table what follows from it.

Where the code does not do what one would expect, the code was kept and the exact condition proved:

* `client_put_socket` (picoserver_client.c:140) hands `kh_del` a descriptor where it wants a bucket number.
  `SocketTables.Replace` says when that removes the right entry. `SocketTables.OtherKeyRemoved` is a table
  where another socket is lost: open 1, 2, 3, close 1 and 2, open and close 4 to 10 one after the other,
  open 11, and then open 12 on the address of 3. `SocketTables.NothingRemoved` is one where the old entry
  stays: open 1, 2, 3 and close them, open 4 and 5, and open 6 on the address of 5. `ClientPutSocket` says
  that the tables stay consistent exactly when the right entry is removed (and the reused address belonged
  to the same client).
* The fatal check of that branch (picoserver_client.c:138-139) can be reached: it fires exactly if the address
  is filed under a descriptor that is neither in the caller's table nor its new id. An address filed by
  another client need not meet it: `PicoRuns.ForeignAddressFiled` is a case where the code goes on and leaves
  the tables inconsistent, `PicoRuns.ForeignAddressFatal` one where the server stops.
* An event posted while `kh_put` has no memory for the event set is forgotten exactly if its socket was not in
  the set: `Server.ClientPutEvent`. The stack's callback stops the server in that case.
* `kh_resize` (khash.h:304-307) does not check its two shrinking reallocs: `KHash.Resize`.
* `COMPUTE_SIZE` wraps above 2^27 buckets: `Bits.ComputeSizeExact`. So there are tables for which `kh_put`
  asks for a capacity that does not help: `Capacity.RoomExactly` says which, `Capacity.RefusedRoom` gives
  two, and `KHash.Put` says that the load limit is then passed exactly if an empty bucket is taken.
* `find_free_id` tests for the end of the id range only after an increment, so a `bump_index` outside
  1..INT_MAX is handed out as it is: `Client.FindFreeId`. The socket then gets a negative descriptor, and
  the tables are no longer consistent: `Server.ClientPutSocket`.
* `internal_putchar` (serial.c:286-292) flushes every buffer but the full one: `Output.InternalPutchar`
  says exactly when the buffer is left full, and `FullBuffer` reaches it.
* The length on the receive ring is the bytes received for a datagram answered at once (server.c:815) but
  the whole buffer for one that waited (server.c:745): `Channels.DoneOk`.

## Model

| member | source | states |
|---|---|---|
| Bits.KRoundUp32 | remote-drivers/picotcp-socket-sync/server/khash.h:177-179 | The decrement, five shift-or steps and increment on a 32-bit word, both wrap-arounds included, compute `RoundUp32` for every word. |
| Bits.RoundUpLeast | remote-drivers/picotcp-socket-sync/server/khash.h:177-179 | That value is the least power of two that is at least x for every x in 1..2^31, and 0 for 0 and above 2^31. |
| Bits.Div100Exact | remote-drivers/picotcp-socket-sync/server/khash.h:200 | The 64-bit multiply and shift divides by 100 exactly for every x with 28x < 2^37. |
| Bits.ComputeSizeExact | remote-drivers/picotcp-socket-sync/server/khash.h:194-201 | For every capacity 2^m with 2 <= m <= 31 the load limit is floor((77n+50)/100) if and only if m <= 27: above that the 64-bit product wraps. |
| Bits.ComputeSizeBelow | remote-drivers/picotcp-socket-sync/server/khash.h:201 | Wrapped or not, the load limit of every capacity lies strictly between 0 and the capacity, so one bucket always stays empty; up to 2^27 it is more than half. |
| Bits.ComputeSizeDoubles | remote-drivers/picotcp-socket-sync/server/khash.h:201 | Up to 2^26 buckets doubling the capacity raises the load limit. |
| Probing.NextProbeIsProbe | remote-drivers/picotcp-socket-sync/server/khash.h:247 | One step of the loop, with its 32-bit wrap and mask, leads from the s-th bucket of the walk to the next: (hash + 1 + 2 + ... + (s+1)) mod n. |
| Probing.ProbesDistinct | remote-drivers/picotcp-socket-sync/server/khash.h:51-53 | No two of the first n probes hit the same bucket, for every hash and every power-of-two n. |
| Probing.FirstReturn | remote-drivers/picotcp-socket-sync/server/khash.h:247-248 | Within 2n - 1 steps the walk is back at its home bucket exactly at step 2n - 1, so the `i == last` test ends both loops and only after everything was visited. |
| Probing.EveryBucketProbed | remote-drivers/picotcp-socket-sync/server/khash.h:51-53 | Every bucket is met within the first n probes (pigeonhole over the distinct ones). |
| Flags.IsEmpty | remote-drivers/picotcp-socket-sync/server/khash.h:167 | The macro reads "empty" off the packed words if and only if the bucket is empty. |
| Flags.IsDel | remote-drivers/picotcp-socket-sync/server/khash.h:168 | Likewise "deleted". |
| Flags.IsEither | remote-drivers/picotcp-socket-sync/server/khash.h:169 | Likewise "not live". |
| Flags.SetIsDelTrue | remote-drivers/picotcp-socket-sync/server/khash.h:173 | Marks a live bucket deleted and changes no other bucket, in the same word or elsewhere. |
| Flags.SetIsEmptyFalse | remote-drivers/picotcp-socket-sync/server/khash.h:171 | Marks an empty bucket live and changes no other bucket. |
| Flags.SetIsBothFalse | remote-drivers/picotcp-socket-sync/server/khash.h:172 | Marks a bucket live and changes no other bucket. |
| Flags.SetRepresents | remote-drivers/picotcp-socket-sync/server/khash.h:167-173 | Changing one two-bit pair of one word changes the status of exactly that bucket. |
| Flags.FillEmpty | remote-drivers/picotcp-socket-sync/server/khash.h:235 | Filling with 0xaa makes every bucket empty. |
| Buckets.MissAtEmpty | remote-drivers/picotcp-socket-sync/server/khash.h:246-250 | A walk that met neither the key nor an empty bucket before an empty one proves the key absent. |
| Buckets.MissEverywhere | remote-drivers/picotcp-socket-sync/server/khash.h:246-248 | So does a walk that came back to its first bucket. |
| Buckets.SlotAtEmpty | remote-drivers/picotcp-socket-sync/server/khash.h:331-342 | Stopping at an empty bucket, the choice between it and the last tombstone is a correct slot for the key: a slot whose walk has no gap, and never a second copy. |
| Buckets.SlotAtLast | remote-drivers/picotcp-socket-sync/server/khash.h:337 | Coming back to the start, the tombstone is such a slot. |
| Buckets.DeleteEntry | remote-drivers/picotcp-socket-sync/server/khash.h:360-363 | Turning a live bucket into a tombstone removes exactly its key and leaves every other key reachable. |
| Buckets.InsertEntry | remote-drivers/picotcp-socket-sync/server/khash.h:345-354 | Writing a key into its slot adds exactly that key and leaves every other key reachable. |
| Buckets.LiveCount | remote-drivers/picotcp-socket-sync/server/khash.h:204-205 | The number of live buckets is the number of stored keys. |
| Rehash.Started | remote-drivers/picotcp-socket-sync/server/khash.h:262-264 | Before the first move everything is under the old flags, nothing is carried, and all of it is the map. |
| Rehash.PickUp | remote-drivers/picotcp-socket-sync/server/khash.h:279-285 | Lifting an entry out: old, carried and new entries still make up the same map, one entry fewer is old. |
| Rehash.PutDown | remote-drivers/picotcp-socket-sync/server/khash.h:296-299 | Writing the carried entry into a bucket the old table does not use: the same map again, nothing carried. |
| Rehash.KickOut | remote-drivers/picotcp-socket-sync/server/khash.h:291-295 | Writing it over an old live entry, which is carried on: the same map again, one entry fewer is old. |
| Rehash.Finished | remote-drivers/picotcp-socket-sync/server/khash.h:308-312 | With nothing old or carried left, the new table holds exactly the map and every key is reachable on its new walk. |
| KHash.KHash.constructor | remote-drivers/picotcp-socket-sync/server/khash.h:221-223 | A fresh table is valid and empty, for any hash function. |
| KHash.KHash.Clear | remote-drivers/picotcp-socket-sync/server/khash.h:232-238 | Empties the map and keeps the arrays and capacity. |
| KHash.KHash.Get | remote-drivers/picotcp-socket-sync/server/khash.h:239-252 | Returns the live bucket of the key with its value if the key is in the map, and n_buckets otherwise; both loop bounds proved. |
| KHash.KHash.FindSlot | remote-drivers/picotcp-socket-sync/server/khash.h:329-344 | The search of kh_put returns the bucket of the key if it is stored; otherwise the empty bucket its walk comes to, if it passes no tombstone, or the last tombstone before the walk ends at an empty bucket or back home; never one after a gap. |
| KHash.KHash.WriteSlot | remote-drivers/picotcp-socket-sync/server/khash.h:345-355 | Return code 0, 1 or 2 for present, empty, tombstone; the map gains exactly the key in the last two, and only code 1 raises n_occupied. |
| KHash.KHash.Del | remote-drivers/picotcp-socket-sync/server/khash.h:358-364 | Removes the key of a bucket that holds an entry; any other number changes nothing, n_buckets included, and so does one past the buckets within the flag words. |
| KHash.KHash.SetVal | remote-drivers/picotcp-socket-sync/server/picoserver_client.c:116 | Assigning through the bucket of a key updates the map at that key and nowhere else. |
| KHash.KHash.FindEmpty | remote-drivers/picotcp-socket-sync/server/khash.h:288-290 | The search for an empty bucket terminates and finds one on the key's new walk, before any gap. |
| KHash.KHash.PlaceCarried | remote-drivers/picotcp-socket-sync/server/khash.h:286-301 | The kick-out loop terminates, because each kick lowers the number of old entries, and ends with nothing carried and the map unchanged. |
| KHash.KHash.MoveAll | remote-drivers/picotcp-socket-sync/server/khash.h:278-303 | After the pass over all buckets nothing is left under the old flags and old, new and map still agree. |
| KHash.KHash.RehashFrom | remote-drivers/picotcp-socket-sync/server/khash.h:277-303 | The whole in-place rehash, for any old and new capacity, yields a reachable table with exactly the old entries and no tombstones. |
| KHash.KHash.Resize | remote-drivers/picotcp-socket-sync/server/khash.h:253-315 | Return code, capacity, n_occupied; the map is unchanged on every path, allocation failures included; the table stays valid if and only if it is not the case that a shrinking realloc fails, whose result the code does not check. |
| KHash.KHash.RoomIff | remote-drivers/picotcp-socket-sync/server/khash.h:319-327 | For every table: kh_put can make room if and only if n_occupied is below the limit or LeavesRoom holds of n_buckets and size; the capacity it asks for is never smaller than the present one. |
| KHash.KHash.MakeRoom | remote-drivers/picotcp-socket-sync/server/khash.h:319-327 | The resize at the head of kh_put keeps the map; it fails with -1 exactly when an allocation it needs fails, and otherwise the load is below the limit afterwards if and only if there was room to be made. |
| KHash.KHash.Put | remote-drivers/picotcp-socket-sync/server/khash.h:316-357 | -1 exactly on allocation failure, with map and capacity unchanged; otherwise the returned bucket holds the key, code 0 if and only if it was there, and the map gains nothing but the key; what n_occupied becomes; the load limit is kept if and only if there was room or no empty bucket was taken. |
| Capacity.RoomExactly | remote-drivers/picotcp-socket-sync/server/khash.h:319-327 | For every capacity 4..2^31 and every size within its limit, the capacity asked for is no smaller and leaves room if and only if: n <= 2^26; or n = 2^27 and it does not double or size is below the limit of 2^28; or n > 2^27 and size is below the limit itself. |
| Capacity.RefusedRoom | remote-drivers/picotcp-socket-sync/server/khash.h:319-327 | Inputs for which there is no room: 72477573 entries in 2^28 buckets, which is their wrapped limit, and in 2^27 buckets, whose double has a lower one. |
| Capacity.TargetCapacity | remote-drivers/picotcp-socket-sync/server/khash.h:256-257 | Every 32-bit request is rounded to a capacity of at least 4 buckets with a load limit strictly inside and enough flag words. |
| SocketTables.Store | remote-drivers/picotcp-socket-sync/server/picoserver_client.c:106-116 | kh_put followed by assigning kh_val is a map update, or nothing on allocation failure; what the capacity becomes. |
| SocketTables.Remove | remote-drivers/picotcp-socket-sync/server/picoserver_client.c:168-186 | kh_get followed by kh_del of its result removes exactly that key. |
| SocketTables.RemoveByNumber | remote-drivers/picotcp-socket-sync/server/picoserver_client.c:137-140 | With the descriptor passed as a bucket number, exactly the key in the bucket of that number leaves the table, if there is one; this includes descriptors past the buckets, for which nothing leaves, as long as they stay within the flag words. |
| SocketTables.Replace | remote-drivers/picotcp-socket-sync/server/picoserver_client.c:106-140 | Both steps on one table, the put of the new descriptor, which may rehash, and then the removal: the old descriptor and nothing else leaves if and only if, after the put, it sits in the bucket of its own number. |
| SocketTables.KickOutSteps | remote-drivers/picotcp-socket-sync/server/khash.h:278-301 | Doubling a table of 4 buckets with 11 in bucket 0 and 3 in bucket 3: the first bucket of every walk that is empty under the new flags is 3 for 11, which kicks 3 out, and 4 for 3. |
| SocketTables.OtherKeyRemoved | remote-drivers/picotcp-socket-sync/server/picoserver_client.c:140 | After that doubling, putting 12 and invalidating 3 loses 11 and keeps 3; before and after, the table is one in which every key is reachable. |
| SocketTables.NothingRemoved | remote-drivers/picotcp-socket-sync/server/picoserver_client.c:140 | In 4 buckets holding 4, 5 and 6, invalidating 5 reads an unused pair of the one flag word and removes nothing. |
| TableRuns.Run | remote-drivers/picotcp-socket-sync/server/khash.h:221-364 | Any sequence of puts, removals, clears and resizes, for any hash function and any pattern of allocation failures: the table holds what the same operations make of a map, less those refused; only a failed allocation refuses one; the run stops early only before a put into a table at its limit without room, which has 2^27 buckets or more and over ten million entries. |
| TableRuns.Step | remote-drivers/picotcp-socket-sync/server/khash.h:221-364 | One operation is one step on the map, or nothing if an allocation fails. |
| TableRuns.FullHolds | remote-drivers/picotcp-socket-sync/server/khash.h:319-327 | A table without room has at least 2^27 buckets and 10737418 entries. |
| PicoClient.Client.FindFreeId | remote-drivers/picotcp-socket-sync/server/picoserver_client.c:19-41 | Terminates within table size + 1 lookups, for any table of descriptors; the id is not in use and the first such in cyclic order; 0 if and only if every id in 1..INT_MAX is taken, for a bump_index in that range; a bump_index beyond it is counted on from until it wraps to 0; the new bump_index. |
| PicoClient.WalkOn | remote-drivers/picotcp-socket-sync/server/picoserver_client.c:22-38 | No id is looked up twice, and when the walk is back at its start it has met every id in 1..INT_MAX. |
| PicoClient.Client.TakeId | remote-drivers/picotcp-socket-sync/server/picoserver_client.c:99-126 | The first free id for the socket, or 0 exactly when either kh_put has no memory or there is no id, and then with the socket table as before; a counter past INT_MAX is handed out as it is. Where the counter stands afterwards, failures included. |
| PicoClient.Client.Invalidate | remote-drivers/picotcp-socket-sync/server/picoserver_client.c:130-147 | The branch for a reused address: what is in the bucket numbered like the old descriptor leaves the socket table, which is the old descriptor alone if and only if it sits there; its event entry leaves the set, and the old record is unlinked. |
| PicoClient.VacatedIff | remote-drivers/picotcp-socket-sync/server/picoserver_client.c:140 | Deleting the bucket whose number is a key removes that key alone if and only if the key is in it. |
| PicoClient.Server.constructor | remote-drivers/picotcp-socket-sync/server/picoserver_client.c:43-60 | All tables empty and consistent. |
| PicoClient.Server.ClientPutSocket | remote-drivers/picotcp-socket-sync/server/picoserver_client.c:89-155 | -1 with every table as before exactly when out of ids or memory; otherwise the first free id, both tables extended, the deletion by bucket number, and the exact event set: only the old descriptor of a reused address leaves it. The tables are consistent afterwards if and only if bump_index was not past INT_MAX and the address was new or its old entry was this client's and sat in the bucket of its own number. The server stops if and only if the address was filed under a descriptor that is neither in this client's table nor the new id. The id counter moves on even when the put fails. |
| PicoClient.Server.EventsKept | remote-drivers/picotcp-socket-sync/server/picoserver_client.c:89-155 | Filing a socket forgets no pending event of the client, if none was forgotten before, except exactly when an old descriptor stays in the table with events. |
| PicoClient.Server.AddSocket | remote-drivers/picotcp-socket-sync/server/server.c:167-196 | The same, with the exact table, event set and fatal condition, for pico_control_open with its calloc and stack failures. The id counter moves exactly if an id was looked for. |
| PicoClient.Server.PicoControlAccept | remote-drivers/picotcp-socket-sync/server/server.c:248-297 | The same for accept, which only a socket of the caller's own can start. |
| PicoClient.Server.ClientDeleteSocket | remote-drivers/picotcp-socket-sync/server/picoserver_client.c:160-195 | 0 if and only if the descriptor is filed; exactly its entries leave the three tables, so every other pending event is still in the event set; the fatal check on the address table never fires. |
| PicoClient.Server.ClientPutEvent | remote-drivers/picotcp-socket-sync/server/picoserver_client.c:234-252 | The event is ORed in and the socket joins the set; -1 exactly for an unknown descriptor or no memory; an event is forgotten exactly if there is no memory and the socket was not pending. |
| PicoClient.Server.SocketCallback | remote-drivers/picotcp-socket-sync/server/server.c:119-165 | Events of a filed address are posted to its owner and to nobody else, and every client's pending events stay in its event set; unknown addresses are ignored; fatal exactly when kh_put has no memory. |
| PicoClient.Server.ClientGetEvent | remote-drivers/picotcp-socket-sync/server/picoserver_client.c:197-232 | Reports one pending socket with exactly the OR of the events posted on it since its last poll, and the number of sockets still pending; every other pending socket stays in the set; the fatal check never fires. |
| PicoClient.Server.PollAll | remote-drivers/picotcp-socket-sync/server/server.c:391-400 | Polling until nothing is left terminates and reports each pending socket exactly once, with exactly its outstanding events; if none was forgotten before, every socket with events is reported and none has any afterwards. |
| PicoRuns.Run | remote-drivers/picotcp-socket-sync/server/picoserver_client.c:19-252 | Any run of open, accept, close, poll and callbacks by any number of clients, with any stack answers and allocation failures: step by step it is a run of what the calls mean, on a map from addresses to owners and descriptors, sets of descriptors in use and pending, and logs; at the end the tables are consistent, every socket with unpolled events is in its event set, and every report was exact. It stops early only before a call that meets a filed address out of place, a counter past INT_MAX, or an event without memory. |
| PicoRuns.Serve | remote-drivers/picotcp-socket-sync/server/server.c:119-400 | One such call keeps all of that and has exactly the effect it means. |
| PicoRuns.NoEventLost | remote-drivers/picotcp-socket-sync/server/picoserver_client.c:197-252 | In any state a run can reach, an event that was ever posted is part of a later report on its descriptor, or the descriptor was given to a new socket since; otherwise it is outstanding, and its descriptor is in the event set or closed. |
| PicoRuns.PostedIsKept | remote-drivers/picotcp-socket-sync/server/picoserver_client.c:197-252 | Until a descriptor is polled or opened again, everything posted on it stays outstanding. |
| PicoRuns.ForeignAddressFiled | remote-drivers/picotcp-socket-sync/server/picoserver_client.c:130-147 | An address filed by another client under 1, opened by a client that has a descriptor 1 of its own: descriptor 2 is returned and the tables are not consistent. |
| PicoRuns.ForeignAddressFatal | remote-drivers/picotcp-socket-sync/server/picoserver_client.c:138-139 | The same under 2, opened by a client without sockets: the server stops. |
| PendingQueue.Queue.Push | remote-drivers/picotcp-socket-sync/server/server.c:653-660 | Appending through the end pointer and `next` appends to the queue. |
| PendingQueue.Queue.StartWith | remote-drivers/picotcp-socket-sync/server/server.c:674-679 | A partially handled message becomes the only one of an empty queue, done_len and cookie saved. |
| PendingQueue.Queue.Pop | remote-drivers/picotcp-socket-sync/server/server.c:595-599 | The head leaves; head is null exactly when end is, and both still delimit the links. |
| Channels.TakeOk | remote-drivers/picotcp-socket-sync/server/server.c:653-660 | A message taken from the ring keeps the account of all sockets. |
| Channels.MoveOk | remote-drivers/picotcp-socket-sync/server/server.c:603-605 | Bytes through for a first pending message are the next bytes of that socket and of no other. |
| Channels.CompleteOk | remote-drivers/picotcp-socket-sync/server/server.c:606-613 | Ending the first pending message keeps order and bytes of all sockets. |
| Channels.AllAnswered | remote-drivers/picotcp-socket-sync/server/server.c:558-567 | No message is put on the used ring more often than it was taken; with nothing pending, exactly as often. |
| Channels.RefusalsCounted | remote-drivers/picotcp-socket-sync/server/server.c:592-613 | Of the messages of a socket as many were given up as refused as the stack answered -1. |
| AsyncTransport.Half.Consistent | remote-drivers/picotcp-socket-sync/server/server.c:582-583 | Head is null if and only if end is, so "Inconsistent queue state" is unreachable; the ends are messages in flight. |
| AsyncTransport.Half.Send | remote-drivers/picotcp-socket-sync/server/server.c:662-666 | The stack takes some bytes from the front, or none with -1: the model of the unseen send call. |
| AsyncTransport.Half.Recv | remote-drivers/picotcp-socket-sync/server/server.c:717-722 | The stack fills the buffer from done_len on, or fails with -1; nothing pending is disturbed, nor anything that has come back. |
| AsyncTransport.Half.Finish | remote-drivers/picotcp-socket-sync/server/server.c:667-683 | A message in hand ends: one new used entry with the right length, done_len tells what became of it, its buffer begins with the bytes that went through, and no other message that has come back changes. |
| AsyncTransport.Half.FinishFirst | remote-drivers/picotcp-socket-sync/server/server.c:592-613 | The same for the head of a queue. |
| AsyncTransport.Half.Submit | remote-drivers/picotcp-socket-sync/server/server.c:624-636 | The client's side: what it may offer, and that offering keeps the invariant. |
| AsyncServer.TxFirst | remote-drivers/picotcp-socket-sync/server/server.c:661-683 | The first attempt: the stack got exactly a prefix or refused with -1, and what became of the message is what it answered: given up as refused, partly through and waiting with done_len, or whole. |
| AsyncServer.TxOffer | remote-drivers/picotcp-socket-sync/server/server.c:638-683 | One turn of the loop: without a queue the message is turned away unserved, behind others it joins them without a call to the stack, and otherwise the stack's answer decides. |
| AsyncServer.TxQueueHandle | remote-drivers/picotcp-socket-sync/server/server.c:618-686 | Everything on the available ring is taken, in order, each message answered or pending afterwards; given up as refused only on a socket with a queue and by an answer of -1, turned away only without a queue, and never left untried at the head of a queue; the invariant kept and every answered message telling its fate. No buffer changes. |
| AsyncServer.TxTurn | remote-drivers/picotcp-socket-sync/server/server.c:582-613 | Inside tx_socket: the loop goes on unless the stack took only part, and then that message is still the first, done_len advanced. |
| AsyncServer.TxNext | remote-drivers/picotcp-socket-sync/server/server.c:580-613 | One turn of tx_socket: one answer of the stack, which decides what becomes of the first message: refused exactly on -1, answered whole exactly when it took all the rest, and otherwise still first. |
| AsyncServer.TxSocket | remote-drivers/picotcp-socket-sync/server/server.c:570-615 | On return the queue is empty, or the stack's last answer was a partial one for the message still at its head; one used entry per other answer, and only a refused message is given up; no other socket is touched. |
| AsyncServer.RxFirst | remote-drivers/picotcp-socket-sync/server/server.c:793-816 | The first attempt to receive: the account afterwards is what the answer makes of it, refused exactly on -1, a stream waiting for a full buffer, a datagram for any byte, and otherwise answered with the bytes received. |
| AsyncServer.RxOffer | remote-drivers/picotcp-socket-sync/server/server.c:770-816 | One turn of rx_queue_handle: turned away without a queue, behind others without a call to the stack, or decided by the stack's answer. |
| AsyncServer.RxQueueHandle | remote-drivers/picotcp-socket-sync/server/server.c:750-818 | Everything on the available ring is taken, in order; refused only by an answer of -1, turned away only without a queue, complete as the socket's protocol has it. Every answered message holds the bytes received in the front of its buffer, and no message that had come back before changes. |
| AsyncServer.RxMore | remote-drivers/picotcp-socket-sync/server/server.c:724-746 | More received for a head message: kept while its protocol waits, ended otherwise (with the full length reported), given up exactly on -1. |
| AsyncServer.RxNext | remote-drivers/picotcp-socket-sync/server/server.c:711-746 | One turn of rx_socket: one answer, which decides whether the first message waits on, is complete as its protocol has it, or was refused. |
| AsyncServer.RxSocket | remote-drivers/picotcp-socket-sync/server/server.c:701-748 | Stops with the queue empty, at the first failure, or at a message for which the stack's last answer was less than it waits for; only a refused message is given up, and only as the last one; no other socket is touched. Every answered message holds the bytes received, in its done_len and in the front of its buffer, and no message that had come back before changes. |
| AsyncServer.GiveUpAll | remote-drivers/picotcp-socket-sync/server/server.c:317-341 | Teardown answers every pending message of the socket, in order, as given up for the teardown, and touches no other socket. |
| Transport.Stream | remote-drivers/picotcp-socket-sync/server/server.c:570-615 | For every socket of a valid state: messages answered are the first of those taken, in order; the bytes that crossed over are theirs followed by the first done_len bytes of the head; how each ended is what the stack's answers to it say, so a sent message went through whole unless it was refused, unserved or torn down, and as many were refused as there were answers of -1. |
| Transport.Conserved | remote-drivers/picotcp-socket-sync/server/server.c:558-567 | Every message taken is answered at most once, and exactly once when no queue holds anything. |
| Transport.Transport.Submit | remote-drivers/picotcp-socket-sync/server/server.c:624-636 | Offering on either ring keeps the invariant of both, and leaves what has come back alone. |
| Transport.Transport.RingIrq | remote-drivers/picotcp-socket-sync/server/server.c:820-826 | Both rings are drained, in order, nothing is added to what was submitted, the invariant of the whole is kept, and every message answered ended fairly: refused only on a socket with a queue, turned away only on one without, complete as the protocol has it. The client finds in each what became of it, and in its buffer the bytes received. |
| Transport.Transport.SocketCb | remote-drivers/picotcp-socket-sync/server/server.c:119-158 | The asynchronous part of the callback: for each direction signalled the ring is drained, and then the socket's queue is empty, or stopped by the stack's last answer (partial; less than waited for; failed); every message answered ended fairly, as for RingIrq; a direction not signalled is untouched. The client finds in each what became of it, and in its buffer the bytes received; what had come back before is as it was. |
| Transport.Transport.Cleanup | remote-drivers/picotcp-socket-sync/server/server.c:314-345 | What waited on the socket, in both directions, is answered in order as given up for the teardown, nothing else is answered, and its queues are gone; the rings untouched. |
| Transport.Transport.Close | remote-drivers/picotcp-socket-sync/server/server.c:347-362 | -1 exactly for an unknown descriptor; otherwise the socket and its queues are gone, and what waited on it, and nothing else, is given up for the teardown. |
| Transport.Transport.SetAsync | remote-drivers/picotcp-socket-sync/server/server.c:365-388 | Return value, and that the socket is asynchronous afterwards exactly if that was asked for and memory was there. |
| Transport.Transport.NotifyClient | remote-drivers/picotcp-socket-sync/server/server.c:546-556 | The transmit queue's notification is rung exactly if something was put on either used ring since it last was, and then everything there is announced. |
| TransportRuns.Run | remote-drivers/picotcp-socket-sync/server/server.c:314-826 | Any run from the start, of submissions, ring interrupts, callbacks, set_async, open, close and notifications, with arbitrary answers of the stack: of what was submitted for a socket, in order, first comes what was answered, then what waits in its queue, then what is on the ring, nothing lost or twice; the bytes that crossed over are those answered and then those begun; each message ended as the stack's answers to it say, and as many were refused as it answered -1. On a socket never torn down and asynchronous whenever rings were served, every message that came back was refused or is complete as its protocol has it; with no -1 every sent one went through whole. Both directions. Every message that came back still says in its done_len how it ended and still begins with the bytes that went through, however long ago that was. |
| TransportRuns.StillTold | remote-drivers/picotcp-socket-sync/server/server.c:314-826 | What could be read in a message that came back can be read there after any further event of a run. |
| TransportRuns.NothingFails | remote-drivers/picotcp-socket-sync/server/server.c:580-613 | On such a socket, if the stack never answered -1, every message that came back went through whole. |
| TransportRuns.AllAccounted | remote-drivers/picotcp-socket-sync/server/server.c:558-818 | The same for one socket of any state that keeps the invariant: submissions, bytes, endings and refusals. |
| TransportRuns.Step | remote-drivers/picotcp-socket-sync/server/server.c:314-826 | One event keeps the invariant of the whole, only a submission adds to what is accounted for, sockets and queues change as the event says, and every message answered in it ended fairly for that event. |
| SerialLines.RestIsUnfinishedLine | components/SerialServer/src/serial.c:131-172 | What repeated line flushing leaves of a buffer is its part after the last CR or LF, unchanged. |
| SerialLines.LineIsFirst | components/SerialServer/src/serial.c:136-149 | The length flush_buffer_line computes is that of the first line: up to the first CR (13), or the first LF (10) if there is no CR, and one more CR or LF exactly if it follows at once; 0 exactly if there is neither. |
| SerialLines.FirstLineUnique | components/SerialServer/src/serial.c:136-149 | A buffer has one first line in that sense. |
| SerialLines.PrintBalanced | components/SerialServer/src/serial.c:161-167 | Printing a prefix of a buffer keeps printed + buffered = written for every stream. |
| SerialLines.CoalesceBalanced | components/SerialServer/src/serial.c:226-243 | So does printing a common prefix once for all streams that hold something. |
| SerialLines.CommonPrefix | components/SerialServer/src/serial.c:202-225 | What the scan compares is a prefix of every non-empty buffer, and as long as the shortest. |
| SerialLines.DifferenceIsReal | components/SerialServer/src/serial.c:208-222 | A mismatch found by the scan is real: neither buffer is a prefix of the other. |
| SerialOutput.Output.FlushBuffer | components/SerialServer/src/serial.c:108-126 | Prints exactly the buffer of that stream and empties it; the stream is unmarked, is the one printed last, and done_output is set, unless there was nothing. |
| SerialOutput.Output.FlushBufferLine | components/SerialServer/src/serial.c:131-172 | Prints exactly the first line, byte for byte, if there is one, the rest shifted intact; the stream printed last; the bit cleared exactly if that was all of the buffer. |
| SerialOutput.Output.FlushLines | components/SerialServer/src/serial.c:277-284 | The repeat-until-nothing loop terminates; round by round and stream by stream one line is printed; afterwards no buffer holds CR or LF and each kept its unfinished line; the bits cleared are exactly those of the streams that were emptied. |
| SerialOutput.Output.FlushAllBut | components/SerialServer/src/serial.c:286-292 | All of every other stream is printed, in order; exactly the emptied ones lose their bit; done_output is set exactly if anything was printed. |
| SerialScreen.LineShown | components/SerialServer/src/serial.c:131-172 | One flush of a line prints exactly the first line in the sense of FirstLine, and changes marks and last stream accordingly. |
| SerialScreen.LinesOffFlushes | components/SerialServer/src/serial.c:277-284 | Rounds until nothing is left: only printing has happened, each stream keeps its unfinished line, the emptied streams alone are unmarked, the stream printed last is that of the last piece. |
| SerialScreen.WholesOffFlushes | components/SerialServer/src/serial.c:286-292 | The same for printing whole buffers. |
| SerialScreen.MadeRoomFlushes | components/SerialServer/src/serial.c:271-292 | Making room: the stream printed last finishes a line, then all lines, then everything of the others if that has not helped; only printing has happened, and the emptied streams alone are unmarked. |
| SerialScreen.MarksKept | components/SerialServer/src/serial.c:118-124 | Flushing keeps it so that every stream below 16 that holds something has its bit in output_buffer_bitmask. |
| SerialOutput.Output.TryCoalesceOutput | components/SerialServer/src/serial.c:197-250 | Status -1, 0 or 1 for differing, coalesced, too few; only 0 prints, and then a common prefix on behalf of every busy stream, clears exactly the bits of the streams that emptied, and forgets the stream printed last. |
| SerialOutput.Output.Overflow | components/SerialServer/src/serial.c:267-299 | A full buffer: the stream printed last finishes a line, all lines of all streams are flushed, and if that freed nothing every other stream is; exactly the emptied streams lose their bit, and the full stream counts as printed last. |
| SerialOutput.Output.InternalPutchar | components/SerialServer/src/serial.c:252-314 | For every byte into a buffer that is not full: it joins what the stream wrote, printed + buffered = written for all streams; branch by branch (coalesced, full, flushed at once after CR LF or LF CR or on the fast path, only buffered) exactly what is printed and held, the bitmask, the stream printed last and done_output; every non-empty stream below 16 keeps its bit; the buffer is full if and only if it holds 4096 bytes without an end of line that were not coalesced. |
| SerialOutput.FullBuffer | components/SerialServer/src/serial.c:252-314 | That condition is met: on a server that has printed nothing, any 4096 bytes without an end of line, written to any stream, fill its buffer. |
| SerialOutput.Output.TimerCallback | components/SerialServer/src/serial.c:449-476 | Lines first, everything if there were none, nothing right after output; exactly the emptied streams lose their bit. |
| SerialOutput.Output.ThreeQuietTicks | components/SerialServer/src/serial.c:449-476 | Three ticks without output in between print everything: what was printed for each stream is what it wrote. |
| SerialInput.RunOk | components/SerialServer/src/serial.c:350-447 | Over every input the state stays in 0..3 and the selections stay in range. |
| SerialInput.EscapedTextArrives | components/SerialServer/src/serial.c:357-380 | Round trip: a text with @ doubled at line starts arrives unchanged at every selected client and no other, and leaves the selection as it was. |
| SerialInput.PlainTextArrives | components/SerialServer/src/serial.c:357-380 | Without doubling it arrives if and only if it has no @ at a line start. |
| SerialInput.AtMostOnePerByte | components/SerialServer/src/serial.c:337-348 | One byte in is at most one byte out per client. |
| SerialInput.Ring.RawPutchar | components/SerialServer/src/serial.c:316-327 | The ring takes the byte in order, or drops it exactly when full. |
| SerialInput.Input.GiveClientChar | components/SerialServer/src/serial.c:337-348 | The byte goes to exactly the selected clients, once each. |
| SerialInput.Input.HandleChar | components/SerialServer/src/serial.c:350-447 | State by state and byte by byte, on the code's own variables: the next state, the selected client or clients, the debug level, and every client's ring, which takes the byte if it is given to that client and is unchanged otherwise; without getchar clients nothing happens. |
| SerialInput.StepHandled | components/SerialServer/src/serial.c:350-447 | The specified machine does with each byte, given by its number, what the code does. |
| SerialInput.Input.SelectClient | components/SerialServer/src/serial.c:365-426 | At a line start, @ and the digit of client k make k the selected client, in state 1 again, and reach no ring. |
| SerialInput.Input.SelectAndType | components/SerialServer/src/serial.c:337-447 | Text typed after that is in the ring of client k, as far as there is room, and in no other. |
| SerialInput.Input.SelectMany | components/SerialServer/src/serial.c:381-446 | @, m, any bytes and one of m, M, CR, LF: exactly the clients whose digits were among the bytes are selected, whatever was selected before, in state 1 again. |
| SerialInput.Input.SelectManyAndType | components/SerialServer/src/serial.c:337-447 | Text typed after that is in their rings, as far as there is room, and in no other. |
| SerialInput.Input.NextDebugLevel | components/SerialServer/src/serial.c:389-394 | @ d steps the debug level modulo 3 and changes no selection. |
| SerialInput.Input.OtherCommand | components/SerialServer/src/serial.c:395-431 | @ s, @ ? and unknown commands change no selection and no ring; state 1 again. |
| SerialInput.Input.HandleEscaped | components/SerialServer/src/serial.c:316-447 | Feeding an escaped text to the code appends the text to the ring of every selected client, up to where that is full, and changes no other ring and no selection. |
| EthBuffers.AllocatedOk | components/Ethdriver/src/ethdriver.c:145-147 | Handing the top of the pool to the NIC keeps the 256 buffers partitioned and all frames in order. |
| EthBuffers.QueuedOk | components/Ethdriver/src/ethdriver.c:199-204 | So does queueing a NIC buffer for a client. |
| EthBuffers.ReadOk | components/Ethdriver/src/ethdriver.c:286-297 | So does a client reading its first frame. |
| EthBuffers.CopiesReach | components/Ethdriver/src/ethdriver.c:223-234 | The broadcast loop copies the frame to exactly the clients with room, in order until the pool is empty, signals exactly those whose queues were empty, and changes nothing for anybody else. |
| EthBuffers.CompletedAccepts | components/Ethdriver/src/ethdriver.c:211-252 | A completed receive is accepted, once, for exactly the addressee, or everyone with room, or nobody: exactly their queues grow, by one entry, and exactly those of them are signalled whose queues were empty; no other buffer changes hands. |
| EthDriver.EthDriver.constructor | components/Ethdriver/src/ethdriver.c:380-418 | All receive buffers in the pool, all clients empty. |
| EthDriver.EthDriver.EthAllocateRxBuf | components/Ethdriver/src/ethdriver.c:137-148 | Succeeds if and only if the size fits and the pool is not empty, with the top of the pool. |
| EthDriver.EthDriver.DetectClient | components/Ethdriver/src/ethdriver.c:150-161 | The first client whose address is the first six bytes, or none. |
| EthDriver.EthClient.GiveClientBuf | components/Ethdriver/src/ethdriver.c:199-209 | The entry is appended to the cyclic queue; a signal exactly when the queue was empty. |
| EthDriver.EthDriver.CopyFor | components/Ethdriver/src/ethdriver.c:224-233 | One turn of the broadcast loop. |
| EthDriver.EthDriver.EthRxComplete | components/Ethdriver/src/ethdriver.c:211-252 | For one buffer: a frame that bears a client's address goes to the first such client; another of at least 6 bytes whose first six are 255, or of at least 34 with byte 30 in 224..239, goes to client 0 and to every other client, in order while the pool lasts; any other goes to nobody; always only where there is room, and with a signal exactly where the queue was empty. A batch of any other size goes back to the pool, and no queue grows and nobody is signalled. |
| EthDriver.EthDriver.AsMeant | components/Ethdriver/src/ethdriver.c:150-197 | The tests the code makes on a frame pick exactly those clients. |
| EthDriver.EthDriver.ClientRx | components/Ethdriver/src/ethdriver.c:273-299 | The client gets the frames accepted for it in arrival order; -1, 0 or 1 for none, last, more; should_notify if and only if its queue is then empty. |
| EthDriver.EthClient.ClientTx | components/Ethdriver/src/ethdriver.c:301-341 | The 128 frames stay partitioned into free and in flight; the bytes handed over, truncated and stamped with the client's address; the frame comes back exactly when the NIC did not enqueue it. |
| EthDriver.EthClient.EthTxComplete | components/Ethdriver/src/ethdriver.c:129-135 | A completed frame is free again and no other changes. |
| EthernetAsync.Link.constructor | remote-drivers/picotcp-ethernet-async/client.c:219-254 | All transmit buffers in the pool, all receive buffers available. |
| EthernetAsync.Link.PicoEthSend | remote-drivers/picotcp-ethernet-async/client.c:68-103 | 0 exactly when no buffer is used or pooled; otherwise the frame is available, after those sent before, in a buffer taken from exactly one of the two. |
| EthernetAsync.Link.VirtQueueHandleIrq | remote-drivers/picotcp-ethernet-async/server.c:127-165 | Peek then commit: frames go to the NIC in order, each once, as many as it accepts; afterwards blocked_tx is set exactly if the NIC refused one, and is as before if none was offered. A server that was out of receive buffers polls first, which hands over available ones. |
| EthernetAsync.Link.RawPoll | remote-drivers/picotcp-ethernet-async/server.c:127-131 | As many available buffers as the driver asks for go to the NIC, in order; no_rx_bufs exactly when there were too few. |
| EthernetAsync.Link.EthTxComplete | remote-drivers/picotcp-ethernet-async/server.c:38-51 | The buffer is used again; action is noted if blocked. |
| EthernetAsync.Link.HandleIrq | remote-drivers/picotcp-ethernet-async/server.c:127-165 | The interrupt keeps the liveness condition: a waiting frame will be looked at again. |
| EthernetAsync.Link.NotifyClient | remote-drivers/picotcp-ethernet-async/server.c:168-178 | After the retry the ring is empty or blocked_tx is set; if the NIC refuses only with a frame in flight, no frame is stuck. |
| EthernetAsync.Link.EthAllocateRxBuf | remote-drivers/picotcp-ethernet-async/server.c:53-79 | The first available buffer goes to the NIC; no_rx_bufs exactly when there was none. |
| EthernetAsync.Link.EthRxComplete | remote-drivers/picotcp-ethernet-async/server.c:81-106 | Exactly the buffers of the batch leave the NIC and join the used ring in order; one buffer carries its frame, a batch of another size carries none. |
| EthernetAsync.Link.PicoEthPoll | remote-drivers/picotcp-ethernet-async/client.c:130-171 | The first n used entries leave the ring, their frames go to the stack in order, empty ones skipped, and exactly their buffers become available again, in the same order; what n is; no buffer is in nobody's hands afterwards. |
| EthernetAsync.Link.PicoFreeBuf | remote-drivers/picotcp-ethernet-async/client.c:106-127 | The buffer is available again. |
| EthernetAsync.FlowIn | remote-drivers/picotcp-ethernet-async/server.c:98-104 | A frame that arrives waits behind those before it. |
| EthernetAsync.FlowOut | remote-drivers/picotcp-ethernet-async/client.c:156-166 | The first that waits is the next the stack gets, unless it is empty. |

## Left out

- KHash.KHash.Put: says when the load limit is passed, but no further operation is proved on a table beyond it.
- SocketTables.Replace: a descriptor past the flag words makes the code read memory that is not the table's; the model stops before that read.
- PicoClient.Server.ClientPutSocket: the bucket of every key after the put is a parameter, any assignment of different buckets; the tables of PicoClient are not themselves arrays of buckets.
- PicoClient.Server.AddSocket: for the id 2^32 - 1 the descriptor is -1, which the code's callers take for a failure, and they free the record that stays filed (server.c:186-192); the model keeps the record.
- PicoRuns.Run: stops before an open or accept once bump_index has passed INT_MAX, even if the call would fail for want of memory.
- PicoClient.Server.ClientGetEvent: which pending socket comes first follows the bucket order of the event set; the model picks any.
- AsyncServer.RxMore: does not claim that the reported length is the bytes received, because the code reports the buffer length for messages that waited.
- EthDriver.EthClient.ClientTx: the NIC's answer is a parameter, so it does not complete another frame inside the call before it refuses this one.
- EthernetAsync.Link.PicoEthPoll: the stack accepts every frame; the error path at client.c:159-162 depends on how the ring library gathers an entry twice, and that library is not part of this model.
- Transport.Transport.SocketCb: only the asynchronous half of the callback; the event half is `PicoClient.Server.SocketCallback`. The address-reuse branch, which frees a socket without draining its queues, does not occur here.
- Transport.Transport.NotifyClient: the one flag `emit_client_async` is kept as one flag per ring; the one notification the code rings stands for both.
- Transport.Transport.Submit: the sockets are those of client 0, in whose table alone the code looks descriptors up (server.c:638, :770).
- EthernetAsync.Link.RawPoll: the unseen driver asks for receive buffers; that it may complete frames as well is left to the separate steps.
- TransportRuns.Run: every submission of a run uses a new message; `Transport.Submit` allows any that is not on its way.
- Clients of the asynchronous transport submit well-formed messages (1 to 1400 bytes, done_len 0) and none that is still on its way.
- khash sets (kh_is_map = 0) are the same code without the value array and are not modelled a second time; string and 64-bit hash functions are covered by "any hash function"; kh_destroy only frees.
- picoTCP, the NIC drivers, libvirtqueue, DMA and cache calls, dataports, interrupts and notifications beyond the flags above.
- The id-to-state mapper and the MAC address plumbing of the asynchronous Ethernet client.
- Serial colours, help text, debug output and scheduler dump; the messages input commands print, and that they reset `last_out`; the notification heuristic of `internal_raw_putchar`. `output_buffer_bitmask` is a set of the streams below 16, as its 16-bit width leaves of 24 streams.
- Bind, connect, listen, shutdown, synchronous send and recv of the PicoServer: guarded calls of the stack.
- `done_init` guards and locks: the model starts after initialisation and runs one handler at a time, as the components do.
- All other components (clock, GPIO, reset, time, file, PCI and the like) and the CAmkES templates: thin wrappers or generated code that would add only easy members.
