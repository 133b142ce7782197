/** Messages over a serial device: serial_write_msg, obtain_synced_msg_buffer and
    serial_read_msg (src/Serial.c) on the partial transfers of src/posix/PosixSerial.c. */
module Serials {
  import opened Base
  import opened Endian
  import opened Memory
  import opened Wire
  import opened PartSpec
  import opened MsgSpec
  import opened MsgBuffers
  import opened SyncSpec

  /** A device as the queue of the bytes that were written and not yet read. It may
      split every transfer anywhere; a reliable one never fails one that it could do. */
  class Device {
    const reliable: bool
    var queue: seq<byte>

    constructor (reliable: bool)
      ensures this.reliable == reliable && queue == []
    {
      this.reliable := reliable;
      queue := [];
    }

    /** posix_serial_write: some bytes go out, and the caller's pointer and count follow. */
    method Write(buf: array<byte>, pos: nat, len: nat) returns (ret: Ret, pos': nat, len': nat)
      requires 0 < len && pos + len == buf.Length
      modifies this
      ensures reliable ==> ret == SUCCESS
      ensures ret == SUCCESS ==> pos < pos' && pos' + len' == buf.Length
      ensures ret == SUCCESS ==> queue == old(queue) + buf[pos..pos']
      ensures ret != SUCCESS ==> ret == ERROR_RUNTIME && queue == old(queue) && pos' == pos
    {
      var fails := *;
      if fails && !reliable {
        return ERROR_RUNTIME, pos, len;
      }
      var nwritten :| 1 <= nwritten <= len;
      queue := queue + buf[pos..pos + nwritten];
      return SUCCESS, pos + nwritten, len - nwritten;
    }

    /** posix_serial_read: some of the queued bytes come in; an empty queue times out. */
    method Read(buf: array<byte>, pos: nat, len: nat) returns (ret: Ret, pos': nat, len': nat)
      requires 0 < len && pos + len <= buf.Length
      modifies this, buf
      ensures reliable ==> (ret == SUCCESS <==> old(queue) != [])
      ensures old(queue) == [] ==> ret != SUCCESS
      ensures ret == SUCCESS ==> 1 <= pos' - pos == len - len' <= |old(queue)| && pos' <= pos + len
      ensures ret == SUCCESS ==>
        buf[..] == old(buf[..])[..pos] + old(queue)[..pos' - pos] + old(buf[..])[pos'..]
      ensures ret == SUCCESS ==> queue == old(queue)[pos' - pos..]
      ensures ret != SUCCESS ==> queue == old(queue) && buf[..] == old(buf[..])
      ensures ret == SUCCESS || ret == ERROR_TIMEOUT || (ret == ERROR_RUNTIME && !reliable)
    {
      var fails := *;
      if fails && !reliable {
        return ERROR_RUNTIME, pos, len;
      }
      if queue == [] {
        return ERROR_TIMEOUT, pos, len;
      }
      var nread :| 1 <= nread <= len && nread <= |queue|;
      MemCopy(buf, pos, queue[..nread]);
      queue := queue[nread..];
      return SUCCESS, pos + nread, len - nread;
    }
  }

  /** The bytes taken off the device and those that lie in the buffer for them. */
  ghost predicate Taken(was: seq<byte>, buf: seq<byte>, q: seq<byte>, pos: nat, at: nat, left: seq<byte>) {
    && pos <= at <= |buf| == |was| && at - pos <= |q|
    && buf == was[..pos] + q[..at - pos] + was[at..]
    && left == q[at - pos..]
  }

  lemma TakenNone(was: seq<byte>, q: seq<byte>, pos: nat)
    requires pos <= |was|
    ensures Taken(was, was, q, pos, pos, q)
  {
  }

  lemma TakenMore(was: seq<byte>, buf: seq<byte>, q: seq<byte>, pos: nat, at: nat, left: seq<byte>,
                  next: nat, buf': seq<byte>, left': seq<byte>)
    requires Taken(was, buf, q, pos, at, left)
    requires at <= next <= |buf| && next - at <= |left|
    requires buf' == buf[..at] + left[..next - at] + buf[next..] && left' == left[next - at..]
    ensures Taken(was, buf', q, pos, next, left')
  {
    assert buf[..at] == was[..pos] + q[..at - pos];
    assert q[..next - pos] == q[..at - pos] + left[..next - at];
  }

  /** The loops `while (n) read(...)`: n bytes are read, however the device splits them. */
  method ReadFully(dev: Device, buf: array<byte>, pos: nat, n: nat) returns (ret: Ret)
    requires pos + n <= buf.Length
    modifies dev, buf
    ensures ret == SUCCESS ==> Taken(old(buf[..]), buf[..], old(dev.queue), pos, pos + n, dev.queue)
    ensures dev.reliable ==> ret == if |old(dev.queue)| >= n then SUCCESS else ERROR_TIMEOUT
    ensures ret in {SUCCESS, ERROR_TIMEOUT, ERROR_RUNTIME}
    ensures |dev.queue| <= |old(dev.queue)|
  {
    ghost var was, q := buf[..], dev.queue;
    var at: nat, len: nat := pos, n;
    TakenNone(was, q, pos);
    ret := SUCCESS;
    while len > 0
      invariant at + len == pos + n && ret == SUCCESS
      invariant Taken(was, buf[..], q, pos, at, dev.queue)
    {
      ghost var before, left := buf[..], dev.queue;
      var next;
      ret, next, len := dev.Read(buf, at, len);
      if ret != SUCCESS {
        return;
      }
      TakenMore(was, before, q, pos, at, left, next, buf[..], dev.queue);
      at := next;
    }
  }

  /** The loop of serial_write_msg. */
  method WriteFully(dev: Device, buffer: array<byte>) returns (ret: Ret)
    modifies dev
    ensures ret == SUCCESS ==> dev.queue == old(dev.queue) + buffer[..]
    ensures ret != SUCCESS ==>
      ret == ERROR_RUNTIME && !dev.reliable && old(dev.queue) <= dev.queue <= old(dev.queue) + buffer[..]
  {
    ghost var q, e := dev.queue, buffer[..];
    var pos: nat, nToWrite: nat := 0, buffer.Length;
    assert q + e[..0] == q;
    ret := SUCCESS;
    while nToWrite > 0
      invariant pos + nToWrite == buffer.Length && ret == SUCCESS
      invariant dev.queue == q + e[..pos]
    {
      var next;
      ret, next, nToWrite := dev.Write(buffer, pos, nToWrite);
      if ret != SUCCESS {
        return;
      }
      assert q + e[..pos] + e[pos..next] == q + e[..next];
      pos := next;
    }
    assert e[..pos] == e;
  }

  /** serial_write_msg: all bytes of the message reach the device, in order, or a
      prefix of them and an error. Where serialising it leaves a block, the code may send
      anything. */
  method WriteMsg(dev: Device, msg: MsgBuffer) returns (ret: Ret)
    requires msg.Valid() && dev !in msg.Repr
    modifies dev
    ensures Sendable(msg.states) && ret == SUCCESS ==>
      dev.queue == old(dev.queue) + EncodeMsg(MsgOf(msg.id, msg.states))
    ensures Sendable(msg.states) && ret != SUCCESS ==>
      ret == ERROR_RUNTIME && !dev.reliable &&
      old(dev.queue) <= dev.queue <= old(dev.queue) + EncodeMsg(MsgOf(msg.id, msg.states))
    ensures !Sendable(msg.states) ==>
      ret == (if Refused(msg.states) then ERROR_RUNTIME else UNDEFINED) &&
      (Refused(msg.states) ==> dev.queue == old(dev.queue))
  {
    var buffer;
    ret, buffer := msg.GetBuffer();
    if ret == UNDEFINED {
      var sent: seq<byte> := *;
      dev.queue := dev.queue + sent;
      return;
    }
    if ret != SUCCESS {
      return;
    }
    ret := WriteFully(dev, buffer);
  }

  /** obtain_synced_msg_buffer. UNDEFINED stands for an announced size below the
      header's, for which the code writes past the block it allocates. */
  method ObtainSynced(dev: Device) returns (ret: Ret, buffer: array?<byte>)
    modifies dev
    ensures ret == SUCCESS ==>
      buffer != null && fresh(buffer) && AsWritten(old(dev.queue)) == Got(buffer[..], dev.queue)
    ensures |dev.queue| <= |old(dev.queue)|
    ensures ret == UNDEFINED ==> AsWritten(old(dev.queue)) == Fault
    ensures dev.reliable ==>
      match AsWritten(old(dev.queue))
      case Got(_, _) => ret == SUCCESS
      case Dry => ret == ERROR_TIMEOUT
      case Fault => ret == UNDEFINED
    ensures ret == SUCCESS ==> TakenFromHit(old(dev.queue), buffer[..], dev.queue)
  {
    ghost var q := dev.queue;
    HitTaken(q);
    var sync := new byte[10](_ => 0);
    buffer := null;
    ret := ReadFully(dev, sync, 0, 10);
    if ret != SUCCESS {
      return;
    }
    assert sync[..] == q[..HEADER] && dev.queue == q[HEADER..];
    ghost var found := Search(sync[..], dev.queue);
    while sync[0] != START[0] && sync[1] != START[1] && sync[2] != START[2] && sync[3] != START[3]
      invariant fresh(sync) && sync.Length == HEADER
      invariant Search(sync[..], dev.queue) == found
      invariant |dev.queue| <= |q|
      decreases |dev.queue|
    {
      ret := ShiftWindow(dev, sync);
      if ret != SUCCESS {
        return;
      }
    }
    assert found == Some((sync[..], dev.queue));
    ret, buffer := Remainder(dev, sync);
  }

  /** If one of the four bytes is in its place among the first ten, what is obtained is the
      beginning of the stream, as many bytes as announced there. */
  ghost predicate TakenFromHit(q: seq<byte>, buffer: seq<byte>, left: seq<byte>) {
    |q| >= 10 && (q[0] == 83 || q[1] == 77 || q[2] == 83 || q[3] == 71) ==>
      |buffer| == Word(q, 6) >= 10 && buffer + left == q
  }

  lemma HitTaken(q: seq<byte>)
    ensures AsWritten(q).Got? ==> TakenFromHit(q, AsWritten(q).buffer, AsWritten(q).left)
  {
    if |q| >= 10 && (q[0] == 83 || q[1] == 77 || q[2] == 83 || q[3] == 71) {
      FirstTenTaken(q);
    }
  }

  /** One turn of the search: memmove, then a byte from the device. */
  method ShiftWindow(dev: Device, sync: array<byte>) returns (ret: Ret)
    requires sync.Length == HEADER && !StopsAt(sync[..])
    modifies dev, sync
    ensures ret == SUCCESS ==>
      |dev.queue| < |old(dev.queue)| &&
      Search(sync[..], dev.queue) == Search(old(sync[..]), old(dev.queue))
    ensures |dev.queue| <= |old(dev.queue)| && ret != UNDEFINED
    ensures ret != SUCCESS && dev.reliable ==>
      ret == ERROR_TIMEOUT && Search(old(sync[..]), old(dev.queue)) == None
  {
    ghost var w, q := sync[..], dev.queue;
    MemCopy(sync, 0, sync[1..]);
    ghost var moved := sync[..];
    assert moved == w[1..] + [w[9]];
    ret := ReadFully(dev, sync, 7, 1);
    if ret == SUCCESS {
      assert sync[..] == moved[..7] + q[..1] + moved[8..];
      assert sync[..] == Shifted(w, q[0]);
    }
  }

  /** Allocates the announced size, copies the header and reads what is missing. */
  method Remainder(dev: Device, sync: array<byte>) returns (ret: Ret, buffer: array?<byte>)
    requires sync.Length == HEADER
    modifies dev
    ensures ret == SUCCESS ==>
      buffer != null && fresh(buffer) && Complete(sync[..], old(dev.queue)) == Got(buffer[..], dev.queue)
    ensures |dev.queue| <= |old(dev.queue)|
    ensures ret == UNDEFINED ==> Complete(sync[..], old(dev.queue)) == Fault
    ensures dev.reliable ==>
      match Complete(sync[..], old(dev.queue))
      case Got(_, _) => ret == SUCCESS
      case Dry => ret == ERROR_TIMEOUT
      case Fault => ret == UNDEFINED
  {
    ghost var w, q := sync[..], dev.queue;
    var size := FetchNetwork(sync[6..10]);
    assert sync[6..10] == w[6..10];
    if size < HEADER {
      return UNDEFINED, null;
    }
    var bytes := new byte[size];
    MemCopy(bytes, 0, sync[..]);
    var numToRead := size - HEADER;
    ret := ReadFully(dev, bytes, HEADER, numToRead);
    if ret != SUCCESS {
      return ret, null;
    }
    assert bytes[..] == w + q[..numToRead];
    buffer := bytes;
  }

  /** serial_read_msg */
  method ReadMsg(dev: Device) returns (ret: Ret, msg: MsgBuffer?)
    modifies dev
    ensures ret == SUCCESS ==>
      && AsWritten(old(dev.queue)).Got? && dev.queue == AsWritten(old(dev.queue)).left
      && Received(AsWritten(old(dev.queue)).buffer, msg)
      && msg != null && fresh(msg.Repr)
    ensures ret == UNDEFINED ==> AsWritten(old(dev.queue)) == Fault
    ensures |dev.queue| <= |old(dev.queue)| && (ret != SUCCESS ==> msg == null)
    ensures dev.reliable ==>
      match AsWritten(old(dev.queue))
      case Got(b, _) => ret == (if DecodeMsg(b).Some? then SUCCESS else ERROR_MSG_INVALID)
      case Dry => ret == ERROR_TIMEOUT
      case Fault => ret == UNDEFINED
  {
    var buffer;
    msg := null;
    ret, buffer := ObtainSynced(dev);
    if ret != SUCCESS {
      return;
    }
    SizeOfObtained(old(dev.queue));
    ret, msg := MsgBuffer.FromBuffer(buffer[..]);
  }

  lemma SizeOfObtained(q: seq<byte>)
    ensures AsWritten(q).Got? ==> |AsWritten(q).buffer| < TWO_32
  {
    PowValues();
  }

  /** msg is the message that the bytes b decode to. */
  ghost predicate Received(b: seq<byte>, msg: MsgBuffer?)
    reads msg, if msg == null then {} else msg.Repr
  {
    && msg != null && msg.Valid()
    && DecodeMsg(b).Some? && ValidParts(DecodeMsg(b).value.parts)
    && msg.id == DecodeMsg(b).value.id && msg.states == Stored(DecodeMsg(b).value.parts)
  }

  // ----- streams of messages -----

  /** The encodings of messages, end to end. */
  function Stream(ms: seq<Msg>): seq<byte> {
    if ms == [] then [] else EncodeMsg(ms[0]) + Stream(ms[1..])
  }

  ghost predicate ValidMsgs(ms: seq<Msg>) {
    forall i :: 0 <= i < |ms| ==> ValidMsg(ms[i])
  }

  lemma {:induction false} StreamAppend(ms: seq<Msg>, m: Msg)
    ensures Stream(ms + [m]) == Stream(ms) + EncodeMsg(m)
  {
    if ms == [] {
      assert Stream([m][1..]) == [];
    } else {
      assert (ms + [m])[1..] == ms[1..] + [m];
      StreamAppend(ms[1..], m);
    }
  }

  /** A stream of messages gives up its first message and keeps the others. */
  lemma StreamFirst(ms: seq<Msg>)
    requires ms != [] && ValidMsgs(ms)
    ensures AsWritten(Stream(ms)) == Got(EncodeMsg(ms[0]), Stream(ms[1..]))
    ensures DecodeMsg(EncodeMsg(ms[0])) == Some(Parsed(ms[0].id, ms[0].parts, MsgLength(ms[0])))
  {
    AlignedMessage(ms[0], Stream(ms[1..]));
    MsgRoundTrip(ms[0], []);
    assert EncodeMsg(ms[0]) + [] == EncodeMsg(ms[0]);
  }

  /** The message that arrives for a sent one stands for the same value, and it has
      the same parts exactly when no text was given a length shorter than itself. */
  lemma ArrivesAlike(id: uint16, ps: seq<State>)
    requires Sendable(ps) && AllCopies(ps)
    ensures ValidParts(Values(ps)) && Sendable(Stored(Values(ps)))
    ensures MsgOf(id, Stored(Values(ps))) == MsgOf(id, ps)
    ensures Stored(Values(ps)) == ps <==> forall i :: 0 <= i < |ps| ==> Whole(ps[i])
  {
    RoundTripExactly(ps);
    var vs := Values(ps);
    forall i | 0 <= i < |vs| && vs[i].Text?
      ensures NulOnlyLast(vs[i].chars)
    {
      assert Ok(ps[i]) && CopyOf(ps[i]) == ps[i];
      CopyReadableExactly(ps[i]);
    }
    RewritableExactly(vs);
    StoredLength(vs);
    EncodedLength(ps);
  }

  /** Of the messages vals the first `sent` were sent and the first `got` received; the
      device holds the bytes of those between. */
  ghost predicate InFlight(vals: seq<Msg>, got: nat, sent: nat, queue: seq<byte>) {
    got <= sent <= |vals| && ValidMsgs(vals) && queue == Stream(vals[got..sent])
  }

  lemma SentOne(vals: seq<Msg>, got: nat, sent: nat, next: nat, queue: seq<byte>)
    requires InFlight(vals, got, sent, queue) && next == sent + 1 <= |vals|
    ensures InFlight(vals, got, next, queue + EncodeMsg(vals[sent]))
  {
    SliceGrows(vals, got, sent, next);
    StreamAppend(vals[got..sent], vals[sent]);
  }

  lemma SliceGrows(s: seq<Msg>, i: nat, j: nat, next: nat)
    requires i <= j && next == j + 1 <= |s|
    ensures s[i..next] == s[i..j] + [s[j]]
  {
  }

  lemma GotOne(vals: seq<Msg>, got: nat, sent: nat, next: nat, queue: seq<byte>)
    requires InFlight(vals, got, sent, queue) && next == got + 1 <= sent
    ensures AsWritten(queue).Got? && AsWritten(queue).buffer == EncodeMsg(vals[got])
    ensures InFlight(vals, next, sent, AsWritten(queue).left)
    ensures DecodeMsg(EncodeMsg(vals[got])).Some? && ValidParts(vals[got].parts)
    ensures DecodeMsg(EncodeMsg(vals[got])).value.id == vals[got].id
    ensures DecodeMsg(EncodeMsg(vals[got])).value.parts == vals[got].parts
  {
    assert vals[got..sent][1..] == vals[next..sent];
    StreamFirst(vals[got..sent]);
  }

  /** msg can be sent and stands for the value v. */
  ghost predicate StandsFor(msg: MsgBuffer, v: Msg)
    reads msg, msg.Repr
  {
    msg.Valid() && Sendable(msg.states) && MsgOf(msg.id, msg.states) == v
  }

  method SendNext(dev: Device, msg: MsgBuffer, ghost vals: seq<Msg>, ghost got: nat, sent: nat)
    returns (next: nat)
    requires dev.reliable && dev !in msg.Repr
    requires InFlight(vals, got, sent, dev.queue) && sent < |vals| && StandsFor(msg, vals[sent])
    modifies dev
    ensures next == sent + 1 && InFlight(vals, got, next, dev.queue)
  {
    next := sent + 1;
    SentOne(vals, got, sent, next, dev.queue);
    var ret := WriteMsg(dev, msg);
  }

  method ReceiveNext(dev: Device, ghost vals: seq<Msg>, got: nat, ghost sent: nat)
    returns (next: nat, msg: MsgBuffer?)
    requires dev.reliable && InFlight(vals, got, sent, dev.queue)
    modifies dev
    ensures InFlight(vals, next, sent, dev.queue)
    ensures got == sent ==> next == got && msg == null && dev.queue == old(dev.queue)
    ensures got < sent ==>
      && next == got + 1 && msg != null && fresh(msg.Repr) && msg.Valid()
      && ValidParts(vals[got].parts)
      && msg.id == vals[got].id && msg.states == Stored(vals[got].parts)
  {
    next := got + 1;
    if got < sent {
      GotOne(vals, got, sent, next, dev.queue);
    } else {
      assert vals[got..sent] == [];
    }
    var ret;
    ret, msg := ReadMsg(dev);
    if ret != SUCCESS {
      next := got;
    }
  }

  /** What arrives when a message of value v is sent can be made, and stands for v too. */
  ghost predicate Deliverable(v: Msg) {
    ValidParts(v.parts) && Sendable(Stored(v.parts)) && MsgOf(v.id, Stored(v.parts)) == v
  }

  /** msg is what arrives when a message of value v is sent. */
  ghost predicate Arrived(msg: MsgBuffer, v: Msg)
    reads msg, msg.Repr
  {
    StandsFor(msg, v) && ValidParts(v.parts) && msg.states == Stored(v.parts)
  }

  /** Messages, in a part of the heap of their own, that can be sent as vals. */
  ghost predicate Outbox(msgs: seq<MsgBuffer>, vals: seq<Msg>, world: set<object>)
    reads world
  {
    |vals| == |msgs| &&
    forall i {:trigger StandsFor(msgs[i], vals[i])} :: 0 <= i < |msgs| ==>
      msgs[i] in world && msgs[i].Repr <= world && StandsFor(msgs[i], vals[i])
  }

  /** Messages, in a part of the heap of their own, that arrived for the first of vals. */
  ghost predicate Inbox(received: seq<MsgBuffer>, vals: seq<Msg>, world: set<object>)
    reads world
  {
    |received| <= |vals| &&
    forall i {:trigger Arrived(received[i], vals[i])} :: 0 <= i < |received| ==>
      received[i] in world && received[i].Repr <= world && Arrived(received[i], vals[i])
  }

  /** Whatever can be sent arrives as a message that can be sent again, with the same
      value; it has the same parts exactly when no text was given a length shorter than
      itself. */
  lemma OutboxDelivers(msgs: seq<MsgBuffer>, vals: seq<Msg>, world: set<object>)
    requires Outbox(msgs, vals, world)
    ensures ValidMsgs(vals) && AllDeliverable(vals)
    ensures forall i :: 0 <= i < |vals| ==> ArrivesSame(msgs[i].states, vals[i])
  {
    forall i | 0 <= i < |vals|
      ensures ValidMsg(vals[i]) && Deliverable(vals[i]) && ArrivesSame(msgs[i].states, vals[i])
    {
      assert StandsFor(msgs[i], vals[i]);
      SendableIsValidMsg(msgs[i].id, msgs[i].states);
      ArrivesAlike(msgs[i].id, msgs[i].states);
    }
  }

  ghost predicate AllDeliverable(vals: seq<Msg>) {
    forall i {:trigger Deliverable(vals[i])} :: 0 <= i < |vals| ==> Deliverable(vals[i])
  }

  ghost predicate ArrivesSame(ps: seq<State>, v: Msg) {
    ValidParts(v.parts) && (Stored(v.parts) == ps <==> forall k :: 0 <= k < |ps| ==> Whole(ps[k]))
  }

  /** A sequence of sends (true) and receives (false) in any order over a reliable
      device, however it splits the transfers: messages arrive in the order they were
      sent, each with the value it was sent with; the device holds exactly the bytes
      of those under way; and a receive comes back empty-handed only when none is. */
  method Exchange(dev: Device, msgs: seq<MsgBuffer>, schedule: seq<bool>, ghost vals: seq<Msg>,
                  ghost world: set<object>)
    returns (sent: nat, received: seq<MsgBuffer>, ghost made: set<object>)
    requires dev.reliable && dev.queue == [] && Outbox(msgs, vals, world) && dev !in world
    modifies dev
    ensures InFlight(vals, |received|, sent, dev.queue)
    ensures fresh(made) && Inbox(received, vals, made)
    ensures sent == Sends(schedule, |msgs|) && |received| == Receives(schedule, |msgs|)
  {
    sent, received, made := 0, [], {};
    OutboxDelivers(msgs, vals, world);
    assert vals[0..0] == [] && schedule[..0] == [];
    for i := 0 to |schedule|
      invariant InFlight(vals, |received|, sent, dev.queue)
      invariant fresh(made) && Inbox(received, vals, made)
      invariant Outbox(msgs, vals, world)
      invariant sent == Sends(schedule[..i], |msgs|) && |received| == Receives(schedule[..i], |msgs|)
    {
      SchedulePrefix(schedule, i, |msgs|);
      sent, received, made := Turn(dev, msgs, schedule[i], vals, world, sent, received, made);
    }
    assert schedule[..|schedule|] == schedule;
  }

  lemma SchedulePrefix(schedule: seq<bool>, i: nat, n: nat)
    requires i < |schedule|
    ensures var s, r := Sends(schedule[..i], n), Receives(schedule[..i], n);
      && Sends(schedule[..i + 1], n) == (if schedule[i] && s < n then s + 1 else s)
      && Receives(schedule[..i + 1], n) == if !schedule[i] && r < s then r + 1 else r
  {
    assert schedule[..i + 1][..i] == schedule[..i];
  }

  /** One entry of a schedule. */
  method Turn(dev: Device, msgs: seq<MsgBuffer>, send: bool, ghost vals: seq<Msg>, ghost world: set<object>,
              sent: nat, received: seq<MsgBuffer>, ghost made: set<object>)
    returns (sent': nat, received': seq<MsgBuffer>, ghost made': set<object>)
    requires dev.reliable && Outbox(msgs, vals, world) && dev !in world && dev !in made && Inbox(received, vals, made)
    requires InFlight(vals, |received|, sent, dev.queue) && AllDeliverable(vals)
    modifies dev
    ensures InFlight(vals, |received'|, sent', dev.queue)
    ensures made <= made' && fresh(made' - made) && Inbox(received', vals, made')
    ensures sent' == if send && sent < |msgs| then sent + 1 else sent
    ensures |received'| == if !send && |received| < sent then |received| + 1 else |received|
  {
    sent', received', made' := sent, received, made;
    if send {
      if sent < |msgs| {
        assert StandsFor(msgs[sent], vals[sent]);
        sent' := SendNext(dev, msgs[sent], vals, |received|, sent);
      }
    } else {
      received', made' := ReceiveInto(dev, vals, sent, received, made);
    }
  }

  lemma InboxAppend(received: seq<MsgBuffer>, vals: seq<Msg>, world: set<object>, msg: MsgBuffer, next: nat)
    requires Inbox(received, vals, world) && next == |received| + 1 <= |vals|
    requires Arrived(msg, vals[|received|])
    ensures Inbox(received + [msg], vals, world + msg.Repr) && |received + [msg]| == next
  {
    var more := received + [msg];
    forall i | 0 <= i < next
      ensures more[i] in world + msg.Repr && more[i].Repr <= world + msg.Repr && Arrived(more[i], vals[i])
    {
      assert i < |received| ==> Arrived(received[i], vals[i]);
    }
  }

  method ReceiveInto(dev: Device, ghost vals: seq<Msg>, ghost sent: nat, received: seq<MsgBuffer>,
                     ghost made: set<object>)
    returns (received': seq<MsgBuffer>, ghost made': set<object>)
    requires dev.reliable && dev !in made && Inbox(received, vals, made)
    requires AllDeliverable(vals)
    requires InFlight(vals, |received|, sent, dev.queue)
    modifies dev
    ensures made <= made' && fresh(made' - made) && Inbox(received', vals, made')
    ensures InFlight(vals, |received'|, sent, dev.queue)
    ensures |received'| == if |received| < sent then |received| + 1 else |received|
  {
    received', made' := received, made;
    var next, msg := ReceiveNext(dev, vals, |received|, sent);
    if msg != null {
      assert Deliverable(vals[|received|]);
      InboxAppend(received, vals, made, msg, next);
      received', made' := received + [msg], made + msg.Repr;
    }
  }

  /** How many of n messages a schedule sends. */
  function Sends(schedule: seq<bool>, n: nat): (k: nat)
    ensures k <= n
  {
    if schedule == [] then 0
    else
      var last := |schedule| - 1;
      var k := Sends(schedule[..last], n);
      if schedule[last] && k < n then k + 1 else k
  }

  /** How many of them it receives: one for every receive while any is under way. */
  function Receives(schedule: seq<bool>, n: nat): (k: nat)
    ensures k <= Sends(schedule, n)
  {
    if schedule == [] then 0
    else
      var last := |schedule| - 1;
      var k := Receives(schedule[..last], n);
      if !schedule[last] && k < Sends(schedule[..last], n) then k + 1 else k
  }

  /** The send entries of a schedule. */
  function Count(schedule: seq<bool>): nat {
    if schedule == [] then 0
    else Count(schedule[..|schedule| - 1]) + if schedule[|schedule| - 1] then 1 else 0
  }

  /** Every send entry sends a message while there are any left. */
  lemma {:induction false} SendsExactly(schedule: seq<bool>, n: nat)
    ensures Sends(schedule, n) == if Count(schedule) < n then Count(schedule) else n
  {
    if schedule != [] {
      SendsExactly(schedule[..|schedule| - 1], n);
    }
  }

  /** m receives in a row fetch m messages, or all that were sent. */
  lemma {:induction false} ReceivesCatchUp(schedule: seq<bool>, m: nat, n: nat)
    ensures var whole := schedule + seq(m, _ => false);
      && Sends(whole, n) == Sends(schedule, n)
      && Receives(whole, n) ==
        if Receives(schedule, n) + m < Sends(schedule, n) then Receives(schedule, n) + m else Sends(schedule, n)
  {
    var whole := schedule + seq(m, _ => false);
    if m == 0 {
      assert whole == schedule;
    } else {
      ReceivesCatchUp(schedule, m - 1, n);
      assert whole[..|whole| - 1] == schedule + seq(m - 1, _ => false);
    }
  }

  /** So a schedule with a send entry for each of the n messages and as many receives at
      its end delivers them all. */
  lemma AllDelivered(schedule: seq<bool>, n: nat)
    requires Count(schedule) >= n
    ensures Receives(schedule + seq(n, _ => false), n) == n
  {
    SendsExactly(schedule, n);
    ReceivesCatchUp(schedule, n, n);
  }
}
