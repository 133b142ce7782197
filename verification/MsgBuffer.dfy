/** SeeMsgBuffer (src/MsgBuffer.c), release build. */
module MsgBuffers {
  import opened Base
  import opened Endian
  import opened Memory
  import opened Wire
  import opened PartSpec
  import opened MsgSpec
  import opened MsgParts
  import opened ArraySpec
  import opened DynamicArrays

  class MsgBuffer {
    const parts: DynamicArray<MsgPart?>
    var id: uint16
    /** The cached length of the message on the wire. */
    var length: uint32

    ghost var states: seq<State>
    ghost var Repr: set<object>

    ghost predicate Valid()
      reads this, Repr
    {
      Shape() && length == CachedLength(states)
    }

    /** The parts are private copies in the states that `states` lists. */
    ghost predicate Shape()
      reads this, Repr
    {
      && this in Repr && parts in Repr && parts.elements in Repr
      && parts.Valid() && parts.elementSize == 8 && parts.limit == PTRDIFF_MAX
      && parts.capacity == CapacityFor(parts.size)
      && |states| == parts.size
      && (forall i :: 0 <= i < parts.size ==>
            && parts.elements[i] in Repr && parts.elements[i] != null
            && parts.elements[i].St() == states[i])
      && AllOk(states) && AllCopies(states)
    }

    /** msg_buffer_init */
    constructor (id: uint16)
      ensures Valid() && fresh(Repr)
      ensures this.id == id && states == [] && length == HEADER
    {
      parts := new DynamicArray(8, PTRDIFF_MAX);
      this.id := id;
      length := HEADER;
      states := [];
      new;
      Repr := {this, parts, parts.elements};
    }

    /** The array of parts can take one more. */
    ghost predicate HasRoom()
      reads this, Repr
      requires Shape()
    {
      parts.CanAdd()
    }

    /** Every message with fewer than 2^32 parts has room for another. */
    lemma RoomBelow()
      requires Shape() && |states| < TWO_32
      ensures HasRoom()
    {
      if states != [] {
        PowerOfTwoTight(1, |states|);
      }
    }

    /** A message has room for as many parts as another one holds. */
    lemma RoomFor(other: MsgBuffer)
      requires Shape() && other.Shape() && |states| < |other.states|
      ensures HasRoom()
    {
      CapacityNext(|states|);
      CapacityGrows(|states| + 1, |other.states|, 8);
    }

    /** msg_buffer_set_id */
    method SetId(id: uint16)
      requires Valid()
      modifies this`id
      ensures Valid() && this.id == id && states == old(states)
    {
      this.id := id;
    }

    /** msg_buffer_add_part. The copy is stored before the part is found to be
        unwritten, so a refused part stays in the message. */
    method AddPart(mpart: MsgPart) returns (ret: Ret)
      requires Valid() && mpart.Valid()
      modifies this, parts, parts.elements
      ensures Valid() && fresh(Repr - old(Repr)) && id == old(id)
      ensures parts.elements == old(parts.elements) || fresh(parts.elements)
      ensures ret == SUCCESS <==> old(HasRoom() && Init(mpart.St()))
      ensures ret != SUCCESS ==> ret == ERROR_RUNTIME
      ensures states == if old(HasRoom()) then old(states) + [CopyOf(old(mpart.St()))] else old(states)
    {
      ghost var was := states;
      ret := StoreCopy(mpart);
      if ret == SUCCESS {
        ret := AccountFor(mpart, was);
      }
    }

    /** What follows once the copy is stored. */
    method AccountFor(mpart: MsgPart, ghost was: seq<State>) returns (ret: Ret)
      requires Shape() && mpart.Valid() && length == CachedLength(was)
      requires states == was + [CopyOf(mpart.St())] && CopyOf(mpart.St()).length == mpart.length
      modifies this`length
      ensures Valid()
      ensures ret == if Init(mpart.St()) then SUCCESS else ERROR_RUNTIME
    {
      CachedAppend(was, CopyOf(mpart.St()));
      var size;
      ret, size := mpart.BufferLength();
      if ret == SUCCESS {
        AddLength(size);
      }
    }

    /** see_object_copy of the part, then see_dynamic_array_add */
    method StoreCopy(mpart: MsgPart) returns (ret: Ret)
      requires Shape() && mpart.Valid()
      modifies this, parts, parts.elements
      ensures Shape() && fresh(Repr - old(Repr)) && id == old(id) && length == old(length)
      ensures parts.elements == old(parts.elements) || fresh(parts.elements)
      ensures ret == if old(HasRoom()) then SUCCESS else ERROR_RUNTIME
      ensures states == if ret == SUCCESS then old(states) + [CopyOf(mpart.St())] else old(states)
      ensures ret == SUCCESS ==> CopyOf(mpart.St()).length == mpart.length
      ensures mpart.St() == old(mpart.St())
    {
      CopyOk(mpart.St());
      var copy;
      ret, copy := mpart.Copy();
      ret := Store(copy);
    }

    method AddLength(size: size_t)
      requires Shape()
      modifies this`length
      ensures Shape() && length == Wrap(old(length) + size, TWO_32)
    {
      length := Wrap(length + size, TWO_32);
    }

    /** Appends a private copy to the array of parts. */
    method Store(copy: MsgPart) returns (ret: Ret)
      requires Shape() && copy.Valid() && copy !in Repr
      requires CopyOf(copy.St()) == copy.St()
      modifies this, parts, parts.elements
      ensures Shape() && fresh(Repr - old(Repr) - {copy}) && id == old(id) && length == old(length)
      ensures parts.elements == old(parts.elements) || fresh(parts.elements)
      ensures ret == if old(HasRoom()) then SUCCESS else ERROR_RUNTIME
      ensures states == if ret == SUCCESS then old(states) + [copy.St()] else old(states)
    {
      ghost var own := parts.Contents();
      CapacityNext(|states|);
      assert forall i :: 0 <= i < |states| ==> own[i] == parts.elements[i];
      ret := parts.Add(copy);
      if ret == SUCCESS {
        Adopt(copy, own);
      } else {
        assert forall i :: 0 <= i < |states| ==> parts.elements[i] == own[i];
        Repr := Repr + {parts.elements};
      }
    }

    /** The last element of the array becomes one of the message's own. */
    ghost method Adopt(copy: MsgPart, own: seq<MsgPart?>)
      requires this in Repr && parts in Repr
      requires parts.Valid() && parts.elementSize == 8 && parts.limit == PTRDIFF_MAX
      requires parts.capacity == CapacityFor(parts.size)
      requires |own| == |states| && parts.Contents() == own + [copy]
      requires forall i :: 0 <= i < |own| ==> own[i] in Repr && own[i] != null && own[i].St() == states[i]
      requires AllOk(states) && AllCopies(states) && copy.Valid() && CopyOf(copy.St()) == copy.St()
      modifies this`Repr, this`states
      ensures Shape() && Repr == old(Repr) + {parts.elements, copy}
      ensures states == old(states) + [copy.St()]
    {
      StoreOk(states, copy.St());
      var was, all := states, parts.Contents();
      Repr := Repr + {parts.elements, copy};
      states := was + [copy.St()];
      forall i | 0 <= i < parts.size
        ensures parts.elements[i] in Repr && parts.elements[i] != null && parts.elements[i].St() == states[i]
      {
        assert parts.elements[i] == all[i];
        assert i < |own| ==> own[i].St() == was[i];
      }
    }

    static lemma StoreOk(was: seq<State>, p: State)
      requires AllOk(was) && AllCopies(was) && Ok(p) && CopyOf(p) == p
      ensures AllOk(was + [p]) && AllCopies(was + [p])
    {
    }

    /** The n-th element of the array of parts. */
    method PartAt(n: nat) returns (p: MsgPart)
      requires Shape() && n < |states|
      ensures p in Repr && p.Valid() && p.St() == states[n]
    {
      p := parts.elements[n];
      assert Ok(states[n]);
    }

    /** msg_buffer_get_part */
    method GetPart(n: size_t) returns (ret: Ret, part: MsgPart?)
      requires Valid()
      ensures n < |states| ==>
        ret == SUCCESS && part != null && fresh(part) && part.Valid() && part.St() == states[n]
      ensures n >= |states| ==> ret == ERROR_INDEX && part == null
    {
      if n >= parts.size {
        return ERROR_INDEX, null;
      }
      var own := PartAt(n);
      assert CopyOf(states[n]) == states[n];
      ret, part := own.Copy();
    }

    /** msg_buffer_calc_length */
    method CalcLength() returns (ret: Ret, total: uint32)
      requires Valid()
      ensures ret == SUCCESS <==> AllInit(states) && TotalLength(states) < TWO_32
      ensures ret == SUCCESS ==> total == TotalLength(states) == length
      ensures ret != SUCCESS ==> ret == ERROR_RUNTIME
    {
      var size := HEADER;
      total := 0;
      for i := 0 to parts.size
        invariant size == TotalLength(states[..i]) && AllInit(states[..i])
      {
        AllInitNext(states, i);
        var r, part := GetPart(i);
        var s;
        r, s := part.BufferLength();
        if r != SUCCESS {
          return ERROR_RUNTIME, 0;
        }
        TotalNext(states, i);
        size := size + s;
      }
      assert states[..parts.size] == states;
      CachedIsTotal(states);
      if size > TWO_32 - 1 {
        return ERROR_RUNTIME, 0;
      }
      return SUCCESS, size;
    }

    /** msg_buffer_get_buffer: it succeeds exactly on messages that can be sent, and
        then yields the encoding of the message. */
    method GetBuffer() returns (ret: Ret, buf: array?<byte>)
      requires Valid()
      ensures ret == SUCCESS <==> Sendable(states)
      ensures ret == SUCCESS ==> buf != null && fresh(buf) && buf[..] == EncodeMsg(MsgOf(id, states))
      ensures ret == SUCCESS ==> buf.Length == length
      ensures ret == ERROR_RUNTIME <==> Refused(states)
      ensures ret in {SUCCESS, ERROR_RUNTIME, UNDEFINED}
    {
      CachedIsTotal(states);
      if length < HEADER {
        return UNDEFINED, null;
      }
      var bytes := new byte[length];
      WriteHeader(bytes);
      ret := WriteParts(bytes);
      if ret != SUCCESS {
        return ret, null;
      }
      SendableIsValidMsg(id, states);
      return SUCCESS, bytes;
    }

    method WriteParts(bytes: array<byte>) returns (ret: Ret)
      requires Valid() && bytes.Length == length >= HEADER && bytes !in Repr
      modifies bytes
      ensures ret == SUCCESS <==> Sendable(states)
      ensures ret == SUCCESS ==> bytes[..] == old(bytes[..HEADER]) + EncodeParts(Values(states))
      ensures ret == ERROR_RUNTIME <==> Refused(states)
      ensures ret in {SUCCESS, ERROR_RUNTIME, UNDEFINED}
    {
      ghost var head := bytes[..HEADER];
      WrittenNone(head, states);
      var nwritten, i := HEADER, 0;
      while i < parts.size
        invariant i <= parts.size && HEADER <= nwritten <= bytes.Length
        invariant WrittenUpTo(bytes[..nwritten], head, states, i)
      {
        var next := i + 1;
        ret, nwritten := WritePart(bytes, nwritten, i, next, head);
        if ret != SUCCESS {
          return;
        }
        i := next;
      }
      WrittenAll(bytes[..nwritten], head, states);
      assert bytes[..nwritten] == bytes[..];
      ret := SUCCESS;
    }

    /** One turn of the loop over the parts: part i goes to &bytes[off]. */
    method WritePart(bytes: array<byte>, off: nat, i: nat, ghost next: nat, ghost head: seq<byte>)
      returns (ret: Ret, end: nat)
      requires Valid() && next == i + 1 <= |states| && off <= bytes.Length == length && bytes !in Repr
      requires WrittenUpTo(bytes[..off], head, states, i)
      modifies bytes
      ensures ret == SUCCESS ==>
        off <= end <= bytes.Length && WrittenUpTo(bytes[..end], head, states, next)
      ensures ret != SUCCESS ==> !Sendable(states) && (ret == ERROR_RUNTIME <==> Refused(states))
      ensures ret in {SUCCESS, ERROR_RUNTIME, UNDEFINED}
    {
      ghost var was := bytes[..off];
      NotSendable(states, i);
      var part := PartAt(i);
      end := off;
      ret := part.Write(bytes, off);
      if ret != SUCCESS {
        RefusedAt(states, i);
        return;
      }
      WrittenNext(was, head, states, i, next);
      var partsize;
      ret, partsize := part.BufferLength();
      end := off + partsize;
      assert bytes[..end] == was + EncodePart(Value(states[i]));
    }

    method WriteHeader(bytes: array<byte>)
      requires bytes.Length == length >= HEADER
      modifies bytes
      ensures bytes[..HEADER] == Header(id, length)
    {
      MemCopy(bytes, 0, START);
      assert bytes[..4] == START;
      StoreNetwork(bytes, 4, id, 2);
      assert bytes[..6] == START + BE(id, 2);
      StoreNetwork(bytes, 6, length, 4);
      assert bytes[..10] == bytes[..6] + BE(length, 4);
    }

    /** msg_buffer_from_buffer, for a buffer of a size that an object can have. */
    static method FromBuffer(bytes: seq<byte>) returns (ret: Ret, msg: MsgBuffer?)
      requires |bytes| <= PTRDIFF_MAX
      ensures DecodeMsg(bytes) == None ==> ret == ERROR_MSG_INVALID && msg == null
      ensures DecodeMsg(bytes).Some? ==>
        var r := DecodeMsg(bytes).value;
        && ret == SUCCESS && msg != null && msg.Valid() && fresh(msg.Repr)
        && ValidParts(r.parts)
        && msg.id == r.id && msg.states == Stored(r.parts)
        && msg.length == (if r.length < HEADER then HEADER else r.length)
    {
      if |bytes| < HEADER {
        return ERROR_MSG_INVALID, null;
      }
      if bytes[..4] != START {
        return ERROR_MSG_INVALID, null;
      }
      var id := FetchNetwork(bytes[4..6]);
      var length := FetchNetwork(bytes[6..10]);
      if length > |bytes| {
        return ERROR_MSG_INVALID, null;
      }
      PowValues();
      msg := new MsgBuffer(id);
      assert Between(bytes, HEADER, length) == Body(bytes);
      ret := msg.ReadParts(bytes, length);
      if ret != SUCCESS {
        msg := null;
      }
    }

    /** The loop over the parts of a buffer whose header announces `length` bytes. */
    method ReadParts(bytes: seq<byte>, length: uint32) returns (ret: Ret)
      requires Valid() && states == [] && HEADER <= |bytes| && length <= |bytes|
      modifies this, parts, parts.elements
      ensures Valid() && fresh(Repr - old(Repr)) && id == old(id)
      ensures parts.elements == old(parts.elements) || fresh(parts.elements)
      ensures var r := DecodeParts(Between(bytes, HEADER, length));
        && (r == None ==> ret == ERROR_MSG_INVALID)
        && (r.Some? ==>
              && ret == SUCCESS && ValidParts(r.value) && states == Stored(r.value)
              && this.length == if length < HEADER then HEADER else length)
    {
      var nread := HEADER;
      ghost var vs: seq<Part> := [];
      ReadNone(bytes, length);
      while nread < length
        invariant Valid() && fresh(Repr - old(Repr)) && id == old(id)
        invariant parts.elements == old(parts.elements) || fresh(parts.elements)
        invariant HEADER <= nread && ReadUpTo(bytes, nread, length, vs) && states == Stored(vs)
        decreases length - nread
      {
        ret, nread, vs := ReadOne(bytes, nread, length, vs);
        if ret != SUCCESS {
          return;
        }
      }
      ReadAll(bytes, nread, length, vs);
      ret := SUCCESS;
    }

    /** One turn of the loop: the part at &bytes[nread] is read and added. */
    method ReadOne(bytes: seq<byte>, nread: nat, length: uint32, ghost vs: seq<Part>)
      returns (ret: Ret, next: nat, ghost vs': seq<Part>)
      requires Valid() && HEADER <= nread < length <= |bytes|
      requires ReadUpTo(bytes, nread, length, vs) && states == Stored(vs)
      modifies this, parts, parts.elements
      ensures Valid() && fresh(Repr - old(Repr)) && id == old(id)
      ensures parts.elements == old(parts.elements) || fresh(parts.elements)
      ensures ret == SUCCESS ==> nread < next && ReadUpTo(bytes, next, length, vs') && states == Stored(vs')
      ensures ret != SUCCESS ==> ret == ERROR_MSG_INVALID && DecodeParts(Between(bytes, HEADER, length)) == None
    {
      ghost var rest := Between(bytes, nread, length);
      SliceAfter(bytes, nread, length);
      vs' := vs;
      var partsize;
      ret, partsize := ReadAndAdd(bytes[nread..], length - nread, rest);
      next := nread + partsize;
      if ret == SUCCESS {
        vs' := ReadNext(bytes, nread, length, vs, rest, next);
      }
    }

    method ReadAndAdd(s: seq<byte>, bufsiz: size_t, ghost rest: seq<byte>) returns (ret: Ret, partsize: size_t)
      requires Valid() && 0 < bufsiz <= |s| && |states| < TWO_32 && rest == s[..bufsiz]
      modifies this, parts, parts.elements
      ensures Valid() && fresh(Repr - old(Repr)) && id == old(id)
      ensures parts.elements == old(parts.elements) || fresh(parts.elements)
      ensures (ret == ERROR_MSG_INVALID && DecodePart(rest) == None)
        || (ret == SUCCESS && Appended(rest, partsize, old(states), states))
    {
      var part;
      ghost var past;
      ret, part, partsize, past := MsgPart.Read(s, bufsiz);
      if ret != SUCCESS {
        return;
      }
      ReadStateOk(DecodePart(rest).value.0);
      RoomBelow();
      ret := AddPart(part);
    }

    /** msg_buffer_copy */
    method Copy() returns (ret: Ret, out: MsgBuffer?)
      requires Valid()
      ensures ret == SUCCESS <==> AllInit(states)
      ensures ret == SUCCESS ==>
        out != null && out.Valid() && fresh(out.Repr)
        && out.id == id && out.states == states && out.length == length
      ensures ret != SUCCESS ==> ret == ERROR_RUNTIME && out == null
    {
      var m := new MsgBuffer(id);
      ghost var ps := states;
      var i := 0;
      while i < parts.size
        invariant m.Valid() && fresh(m.Repr) && m.id == id
        invariant CopiedUpTo(ps, i, m.states)
      {
        var next := i + 1;
        ret := m.AddFrom(this, i, next, ps);
        if ret != SUCCESS {
          return ret, null;
        }
        i := next;
      }
      CopyAll(ps, i, m.states);
      return SUCCESS, m;
    }

    /** One turn of the loop of msg_buffer_copy: part i of the other message, whose parts
        are ps, is added. */
    method AddFrom(other: MsgBuffer, i: nat, ghost next: nat, ghost ps: seq<State>) returns (ret: Ret)
      requires Valid() && other.Shape() && other.states == ps && Repr !! other.Repr
      requires CopiedUpTo(ps, i, states) && next == i + 1 <= |ps|
      modifies this, parts, parts.elements
      ensures Valid() && fresh(Repr - old(Repr)) && id == old(id)
      ensures parts.elements == old(parts.elements) || fresh(parts.elements)
      ensures ret == SUCCESS <==> Init(ps[i])
      ensures ret == SUCCESS ==> CopiedUpTo(ps, next, states)
      ensures ret != SUCCESS ==> ret == ERROR_RUNTIME
    {
      ghost var was := states;
      var part := other.PartAt(i);
      RoomFor(other);
      CopyNext(ps, i, was, next);
      ret := AddPart(part);
    }

    method PartEquals(other: MsgBuffer, i: nat) returns (result: bool)
      requires Shape() && other.Shape() && Repr !! other.Repr
      requires i < |states| && i < |other.states|
      ensures Ok(states[i]) && Ok(other.states[i])
      ensures result == PartEqual(states[i], other.states[i])
    {
      var p := PartAt(i);
      var q := other.PartAt(i);
      var r;
      r, result := p.Equal(q);
    }

    /** msg_buffer_equal: `was` is what the caller's result variable held before. Parts
        are private copies, so two messages never share one. */
    method Equal(other: MsgBuffer, was: bool) returns (ret: Ret, result: bool)
      requires Valid() && other.Valid()
      requires this == other || Repr !! other.Repr
      ensures ret == SUCCESS
      ensures this == other ==> result
      ensures this != other ==>
        var e := EqualResult(id, length, states, other.id, other.length, other.states);
        result == if e == None then was else e.value
      ensures this != other && (id != other.id || length != other.length) ==> !result
      ensures this != other && id == other.id && length == other.length ==>
        && (|states| != |other.states| ==> result)
        && (|states| == |other.states| == 0 ==> result == was)
        && (|states| == |other.states| > 0 ==>
              (result <==> forall i :: 0 <= i < |states| ==> PartEqual(states[i], other.states[i])))
    {
      ret, result := SUCCESS, was;
      if this == other {
        return SUCCESS, true;
      }
      if id != other.id {
        return SUCCESS, false;
      }
      if length != other.length {
        return SUCCESS, false;
      }
      var npart, npartother := parts.size, other.parts.size;
      if npart != npartother {
        return SUCCESS, true;
      }
      if parts.elements.Length == 0 {
        return;
      }
      if other.parts.elements.Length == 0 {
        return;
      }
      result := AllEqual(other, npart);
    }

    /** The loop over the parts. */
    method AllEqual(other: MsgBuffer, n: nat) returns (result: bool)
      requires Shape() && other.Shape() && Repr !! other.Repr
      requires n == |states| == |other.states|
      ensures AllOk(states) && AllOk(other.states)
      ensures result == forall i :: 0 <= i < n ==> PartEqual(states[i], other.states[i])
    {
      for i := 0 to n
        invariant forall k :: 0 <= k < i ==> PartEqual(states[k], other.states[k])
      {
        var res := PartEquals(other, i);
        if !res {
          return false;
        }
      }
      return true;
    }
  }

  // ----- the loop of msg_buffer_copy -----

  ghost predicate CopiedUpTo(ps: seq<State>, i: nat, copies: seq<State>) {
    i <= |ps| && copies == ps[..i] && AllInit(copies)
  }

  lemma CopyNext(ps: seq<State>, i: nat, copies: seq<State>, next: nat)
    requires CopiedUpTo(ps, i, copies) && next == i + 1 <= |ps|
    requires AllCopies(ps)
    ensures Init(ps[i]) ==> CopiedUpTo(ps, next, copies + [CopyOf(ps[i])])
  {
  }

  lemma CopyAll(ps: seq<State>, i: nat, copies: seq<State>)
    requires CopiedUpTo(ps, i, copies) && i == |ps|
    ensures copies == ps && AllInit(ps)
  {
  }

  // ----- the loop of from_buffer -----

  function Prepended(vs: seq<Part>, r: Option<seq<Part>>): Option<seq<Part>> {
    if r == None then None else Some(vs + r.value)
  }

  /** The bytes from i up to j, none if j comes first. */
  function Between(bytes: seq<byte>, i: nat, j: nat): (s: seq<byte>)
    requires i <= |bytes| && j <= |bytes|
    ensures |s| == if i <= j then j - i else 0
  {
    if i <= j then bytes[i..j] else []
  }

  /** The bytes between the header and nread held the parts vs. */
  ghost predicate ReadUpTo(bytes: seq<byte>, nread: nat, length: nat, vs: seq<Part>) {
    && HEADER <= |bytes| && length <= |bytes|
    && (nread <= length || nread == HEADER)
    && ValidParts(vs) && 5 * |vs| + HEADER <= nread
    && DecodeParts(Between(bytes, HEADER, length)) == Prepended(vs, DecodeParts(Between(bytes, nread, length)))
  }

  lemma ReadNone(bytes: seq<byte>, length: nat)
    requires HEADER <= |bytes| && length <= |bytes|
    ensures ReadUpTo(bytes, HEADER, length, [])
  {
    var r := DecodeParts(Between(bytes, HEADER, length));
    assert r.Some? ==> [] + r.value == r.value;
  }

  /** Reading the part at the front of s, of n bytes, turned the states from old into new. */
  ghost predicate Appended(s: seq<byte>, n: nat, was: seq<State>, now: seq<State>) {
    var r := DecodePart(s);
    r.Some? && r.value.1 == n && ValidPart(r.value.0) && now == was + [CopyOf(ReadState(r.value.0))]
  }

  /** One turn of the loop: a part moves from the unread bytes to the parts read. */
  lemma ReadNext(bytes: seq<byte>, nread: nat, length: nat, vs: seq<Part>, rest: seq<byte>, next: nat)
    returns (vs': seq<Part>)
    requires ReadUpTo(bytes, nread, length, vs) && nread < length
    requires rest == Between(bytes, nread, length) && DecodePart(rest).Some?
    requires next == nread + DecodePart(rest).value.1
    ensures nread < next && ReadUpTo(bytes, next, length, vs')
    ensures ValidPart(DecodePart(rest).value.0)
    ensures Stored(vs') == Stored(vs) + [CopyOf(ReadState(DecodePart(rest).value.0))]
  {
    var (p, n) := DecodePart(rest).value;
    PrependedStep(vs, rest);
    BetweenAdvance(bytes, nread, length, n, next);
    EncodeDecodePart(rest);
    StoredAppend(vs, p);
    vs' := vs + [p];
  }

  lemma BetweenAdvance(bytes: seq<byte>, i: nat, j: nat, n: nat, next: nat)
    requires i + n == next <= j <= |bytes|
    ensures Between(bytes, i, j)[n..] == Between(bytes, next, j)
  {
  }

  lemma ReadAll(bytes: seq<byte>, nread: nat, length: nat, vs: seq<Part>)
    requires ReadUpTo(bytes, nread, length, vs) && nread >= length && length < TWO_32
    ensures DecodeParts(Between(bytes, HEADER, length)) == Some(vs)
    ensures CachedLength(Stored(vs)) == if length < HEADER then HEADER else length
  {
    assert vs + [] == vs;
    assert Between(bytes, nread, length) == [];
    EncodeDecodeParts(Between(bytes, HEADER, length));
    StoredLength(vs);
    CachedIsTotal(Stored(vs));
  }

  lemma StoredAppend(vs: seq<Part>, p: Part)
    requires ValidParts(vs) && ValidPart(p)
    ensures ValidParts(vs + [p]) && Init(ReadState(p))
    ensures Stored(vs + [p]) == Stored(vs) + [CopyOf(ReadState(p))]
  {
  }

  lemma PrependedStep(vs: seq<Part>, s: seq<byte>)
    requires s != [] && DecodePart(s).Some?
    ensures var (p, n) := DecodePart(s).value;
      Prepended(vs, DecodeParts(s)) == Prepended(vs + [p], DecodeParts(s[n..]))
  {
    var (p, n) := DecodePart(s).value;
    if DecodeParts(s[n..]).Some? {
      var ps := DecodeParts(s[n..]).value;
      assert vs + ([p] + ps) == (vs + [p]) + ps;
    }
  }
}
