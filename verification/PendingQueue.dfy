/** The messages of the asynchronous socket transport, and the intrusive queue of those that wait on
    one socket in one direction. */
module PendingQueue {
  import opened Basics
  import opened Channels

  /** Whose a message is: the client's, on the available ring, in a socket's queue, or on the used ring. */
  datatype Place = AtClient | Available(dir: Direction) | Pending(dir: Direction, fd: int) | Returned

  /** tx_msg_t: a message buffer shared with the client; total_len is |buf|. */
  class Msg {
    var fd: int
    var buf: seq<Byte>
    var doneLen: int
    var next: Msg?
    var cookie: nat
    ghost var place: Place

    constructor ()
      ensures place == AtClient
    {
      fd, buf, doneLen, next, cookie, place := 0, [], 0, null, 0, AtClient;
    }
  }

  /** One pending queue of a picoserver_socket_async_t: its first and last message, linked through
      the messages themselves. */
  class Queue {
    ghost const dir: Direction
    ghost const fd: int
    var head: Msg?
    var end: Msg?
    ghost var msgs: seq<Msg>
    ghost var items: seq<Item>

    constructor (ghost dir: Direction, ghost fd: int)
      ensures Valid() && items == [] && msgs == [] && this.dir == dir && this.fd == fd
    {
      this.dir, this.fd := dir, fd;
      head, end, msgs, items := null, null, [], [];
    }

    /** The bytes of the first message that are through. */
    ghost function Begun(): seq<Byte>
      reads this, head
    {
      if head == null || !(0 <= head.doneLen <= |head.buf|) then [] else head.buf[..head.doneLen]
    }

    /** What the message holds is what the item says of it. */
    ghost predicate Carries(msg: Msg, item: Item)
      reads msg
    {
      && msg.place == Pending(dir, fd) && msg.fd == fd
      && msg.cookie == item.given.handle
      && |msg.buf| == |item.given.body|
      && |item.data| == msg.doneLen < |msg.buf|
      && item.data == msg.buf[..msg.doneLen]
      && (dir == Tx ==> msg.buf == item.given.body)
    }

    /** The first pointer is null exactly when the last is; otherwise following `next` leads from the
        one to the other through distinct messages, and ends there. */
    ghost predicate Linked()
      reads this, msgs
    {
      && (head == null <==> msgs == []) && (end == null <==> msgs == [])
      && (msgs != [] ==> head == msgs[0] && end == msgs[|msgs| - 1] && end.next == null)
      && (forall i :: 0 <= i < |msgs| - 1 ==> msgs[i].next == msgs[i + 1])
      && (forall i, j :: 0 <= i < j < |msgs| ==> msgs[i] != msgs[j])
    }

    ghost predicate Valid()
      reads this, msgs
    {
      && Linked()
      && |msgs| == |items|
      && forall i :: 0 <= i < |msgs| ==> Carries(msgs[i], items[i])
    }

    /** A message joins a queue that is not empty. */
    method Push(msg: Msg, handle: nat)
      requires Valid() && head != null
      requires msg.place == Available(dir) && msg.fd == fd && msg.doneLen == 0 < |msg.buf|
      modifies this, end`next, msg`next, msg`cookie, msg`place
      ensures Valid()
      ensures msgs == old(msgs) + [msg] && items == old(items) + [Item(Given(handle, msg.buf), [], [])]
      ensures msg.doneLen == 0
    {
      ghost var n := |msgs|;
      assert forall i :: 0 <= i < n ==> msgs[i] != msg;
      assert forall i :: 0 <= i < n - 1 ==> msgs[i] != end;
      end.next := msg;
      end := msg;
      msg.next := null;
      msg.cookie := handle;
      msg.place := Pending(dir, fd);
      msgs := msgs + [msg];
      items := items + [Item(Given(handle, msg.buf), [], [])];
      assert forall i :: 0 <= i < n - 1 ==> msgs[i].next == old(msgs[i].next);
      assert Linked();
    }

    /** A message of which doneLen bytes are through becomes the first of an empty queue. */
    method StartWith(msg: Msg, handle: nat, doneLen: nat, ghost given: Given)
      requires Valid() && head == null
      requires msg.place == Available(dir) && msg.fd == fd && doneLen < |msg.buf|
      requires given.handle == handle && |given.body| == |msg.buf| && (dir == Tx ==> given.body == msg.buf)
      modifies this, msg`doneLen, msg`next, msg`cookie, msg`place
      ensures Valid()
      ensures msgs == [msg] && items == [Item(given, msg.buf[..doneLen], [doneLen])]
      ensures msg.doneLen == doneLen
    {
      msg.doneLen := doneLen;
      msg.cookie := handle;
      msg.next := null;
      head := msg;
      end := msg;
      msg.place := Pending(dir, fd);
      msgs := [msg];
      items := [Item(given, msg.buf[..doneLen], [doneLen])];
    }

    /** n more bytes of the first message are through, but not all. */
    method Advance(n: nat)
      requires Valid() && head != null && head.doneLen + n < |head.buf|
      modifies this`items, head`doneLen
      ensures Valid() && head.doneLen == old(head.doneLen) + n
      ensures 0 <= old(head.doneLen) <= head.doneLen <= |head.buf|
      ensures items == old(items)[0 := old(items[0]).More(head.buf[old(head.doneLen)..head.doneLen], [n])]
    {
      ghost var m := msgs[0];
      assert m.buf[..m.doneLen] + m.buf[m.doneLen..m.doneLen + n] == m.buf[..m.doneLen + n];
      head.doneLen := head.doneLen + n;
      items := items[0 := items[0].More(m.buf[m.doneLen - n..m.doneLen], [n])];
      assert forall i :: 1 <= i < |msgs| ==> msgs[i] != m && items[i] == old(items)[i];
    }

    /** The first message leaves, with what the client is to be told about it in done_len. */
    method Pop(doneLen: int) returns (msg: Msg)
      requires Valid() && head != null
      modifies this, head`doneLen, head`place
      ensures Valid()
      ensures msg == old(head) && msgs == old(msgs)[1..] && items == old(items)[1..]
      ensures msg.doneLen == doneLen && msg.place == Returned
    {
      msg := head;
      assert |msgs| > 1 ==> msgs[0].next == msgs[1] && msgs[|msgs| - 1] != msg;
      assert forall i :: 1 <= i < |msgs| ==> msgs[i] != msg;
      msg.doneLen := doneLen;
      head := msg.next;
      if end == msg {
        end := null;
      }
      msg.place := Returned;
      msgs, items := msgs[1..], items[1..];
    }
  }
}
