/** What the fields of a SeeMsgPart (src/MsgBuffer.c) stand for. */
module PartSpec {
  import opened Base
  import opened Endian
  import opened Memory
  import opened Wire
  import opened Floats

  /** The fields of a part. `bits` is the number in the union, `mem` the block that
      the union's string points to. */
  datatype State = State(tag: byte, bits: nat, mem: seq<byte>, length: uint32)

  const Fresh: State := State(NOT_INIT, 0, [], 0)

  /** What every setter establishes. */
  predicate Ok(p: State) {
    if p.tag == NOT_INIT then p.length == 0
    else if p.tag == STRING then 0 in p.mem && p.bits == 0
    else
      && KindOf(p.tag).Some?
      && p.bits < Pow256(Width(KindOf(p.tag).value))
      && p.length == 1 + Width(KindOf(p.tag).value)
      && p.mem == []
  }

  predicate Init(p: State) {
    p.tag != NOT_INIT
  }

  /** Writing the part reads no byte outside its string's block. */
  predicate Readable(p: State) {
    p.tag == STRING ==> 5 <= p.length <= 5 + |p.mem|
  }

  /** The part as it goes over the wire. */
  function Value(p: State): (v: Part)
    requires Ok(p) && Init(p) && Readable(p)
  {
    if p.tag == STRING then Text(p.mem[..p.length - 5])
    else Num(KindOf(p.tag).value, p.bits)
  }

  /** The bytes behind the tag. */
  function Payload(p: State): seq<byte>
    requires Ok(p) && Init(p) && Readable(p)
  {
    if p.tag == STRING then BE(p.length, 4) + p.mem[..p.length - 5]
    else BE(p.bits, Width(KindOf(p.tag).value))
  }

  lemma EncodedAs(p: State)
    requires Ok(p) && Init(p) && Readable(p)
    ensures EncodePart(Value(p)) == [p.tag] + Payload(p)
  {
  }

  lemma ValueValid(p: State)
    requires Ok(p) && Init(p) && Readable(p)
    ensures ValidPart(Value(p)) && |EncodePart(Value(p))| == p.length
  {
  }

  /** What msg_part_write_string stores for a C string and a given length. */
  function StringState(value: seq<byte>, len: nat): State {
    State(STRING, 0, value + [0], Wrap(5 + len, TWO_32))
  }

  /** What msg_part_copy makes of a part. */
  function CopyOf(p: State): State {
    if p.tag == NOT_INIT then Fresh
    else if p.tag == STRING then p.(mem := Strdup(p.mem))
    else p
  }

  /** What msg_part_read makes of a part on the wire. */
  function ReadState(v: Part): State
    requires ValidPart(v)
  {
    match v
    case Num(kind, bits) => State(Tag(kind), bits, [], 1 + Width(kind))
    case Text(chars) => State(STRING, 0, chars + [0], 5 + |chars|)
  }

  lemma CopyOk(p: State)
    requires Ok(p)
    ensures Ok(CopyOf(p)) && CopyOf(CopyOf(p)) == CopyOf(p)
    ensures Init(CopyOf(p)) == Init(p) && CopyOf(p).length == p.length
  {
  }

  /** The copy field by field. */
  lemma CopyFields(p: State)
    requires Ok(p)
    ensures CopyOf(p) ==
      State(p.tag, if KindOf(p.tag).Some? then p.bits else 0, if p.tag == STRING then Strdup(p.mem) else [], p.length)
  {
  }

  lemma ReadStateOk(v: Part)
    requires ValidPart(v)
    ensures var p := ReadState(v); Ok(p) && Init(p) && Readable(p) && Value(p) == v
  {
    match v
    case Num(kind, bits) => TagRoundTrip(kind);
    case Text(chars) =>
      assert (chars + [0])[|chars|] == 0;
      assert (chars + [0])[..|chars|] == chars;
  }

  lemma TagRoundTrip(k: Kind)
    ensures KindOf(Tag(k)) == Some(k)
  {
  }

  // ----- copying and the length that is kept -----

  /** No NUL among the characters, except possibly as the last of them. */
  predicate NulOnlyLast(chars: seq<byte>) {
    forall i :: 0 <= i < |chars| - 1 ==> chars[i] != 0
  }

  /** A copy keeps the length but cuts the text at its first NUL: it can still be
      written exactly when no NUL precedes the last character, and then it is
      written as the original. */
  lemma CopyReadableExactly(p: State)
    requires Ok(p) && Init(p) && Readable(p)
    ensures Readable(CopyOf(p)) <==> (p.tag == STRING ==> NulOnlyLast(p.mem[..p.length - 5]))
    ensures Ok(CopyOf(p)) && (Readable(CopyOf(p)) ==> Value(CopyOf(p)) == Value(p))
  {
  }

  /** The given length of a text covers all its characters. */
  predicate Whole(p: State) {
    p.tag == STRING ==> p.length >= 5 + |CStr(p.mem)|
  }

  /** The given length of a text is its C length. */
  predicate Exact(p: State) {
    p.tag == STRING ==> p.length == 5 + |CStr(p.mem)|
  }

  /** A text of which n characters, the NUL possibly among them, were sent. */
  lemma StoredText(c: seq<byte>, n: nat)
    requires 0 !in c && n <= |c| + 1
    ensures var sent := (c + [0])[..n];
      Strdup(sent + [0]) == c + [0] <==> n >= |c|
  {
    var sent := (c + [0])[..n];
    if n <= |c| {
      assert sent == c[..n];
      CStrUnique(c[..n], []);
      assert sent + [0] == c[..n] + [0] + [];
      assert |Strdup(sent + [0])| == n + 1;
    } else {
      assert sent == c + [0];
      CStrUnique(c, [0]);
      assert sent + [0] == c + [0] + [0];
    }
  }

  /** Sending a part and storing what arrives gives the part back exactly when its
      length covers the whole text. */
  lemma StoredExactly(p: State)
    requires Ok(p) && Init(p) && Readable(p) && CopyOf(p) == p
    ensures ValidPart(Value(p))
    ensures CopyOf(ReadState(Value(p))) == p <==> Whole(p)
  {
    ValueValid(p);
    if p.tag == STRING {
      TextStored(p);
    } else {
      TagRoundTrip(KindOf(p.tag).value);
    }
  }

  lemma TextStored(p: State)
    requires Ok(p) && p.tag == STRING && Readable(p) && CopyOf(p) == p
    ensures var sent := p.mem[..p.length - 5];
      State(STRING, 0, Strdup(sent + [0]), 5 + |sent|) == p <==> Whole(p)
  {
    assert p.mem == CStr(p.mem) + [0];
    StoredText(CStr(p.mem), p.length - 5);
  }

  // ----- equality -----

  /** What msg_part_equal reports on two different objects; that it compares the
      lengths has no effect, because the switch after it overwrites the result. */
  predicate PartEqual(p: State, q: State)
    requires Ok(p) && Ok(q)
  {
    if p.tag != q.tag then false
    else if p.tag == NOT_INIT then true
    else if p.tag == STRING then CStr(p.mem) == CStr(q.mem)
    else NumEqual(KindOf(p.tag).value, p.bits, q.bits)
  }

  /** What a part is compared as. */
  datatype Compared =
    | Unwritten
    | Integer(kind: Kind, bits: nat)
    | Number(kind: Kind, value: int)            // in units of the kind's least positive number
    | Infinity(kind: Kind, negative: bool)
    | NoNumber
    | Characters(chars: seq<byte>)

  function ComparedAs(p: State): Compared
    requires Ok(p)
  {
    if p.tag == NOT_INIT then Unwritten
    else if p.tag == STRING then Characters(CStr(p.mem))
    else
      var k := KindOf(p.tag).value;
      if !Floating(k) then Integer(k, p.bits)
      else if NaN(k, p.bits) then NoNumber
      else if Infinite(k, p.bits) then Infinity(k, p.bits >= SignBit(k))
      else Number(k, Denoted(k, p.bits))
  }

  /** Parts are equal if they hold the same kind of thing and it is the same number or
      the same text, whatever their lengths say, and it is not a NaN. */
  lemma PartEqualExactly(p: State, q: State)
    requires Ok(p) && Ok(q)
    ensures PartEqual(p, q) <==> ComparedAs(p) == ComparedAs(q) && ComparedAs(p) != NoNumber
  {
    if p.tag == q.tag && KindOf(p.tag).Some? && Floating(KindOf(p.tag).value) {
      var k := KindOf(p.tag).value;
      PowValues();
      NumEqualExactly(k, p.bits, q.bits);
      if Infinite(k, p.bits) && Infinite(k, q.bits) {
        InfinityUnique(k, p.bits, q.bits);
      }
    }
  }

  /** A part that is sent is equal to what is stored of it exactly when its length covers
      the whole text and it is no NaN. */
  lemma ArrivesEqualExactly(p: State)
    requires Ok(p) && Init(p) && Readable(p) && CopyOf(p) == p
    ensures ValidPart(Value(p)) && Ok(CopyOf(ReadState(Value(p))))
    ensures PartEqual(p, CopyOf(ReadState(Value(p)))) <==> Whole(p) && ComparedAs(p) != NoNumber
  {
    ValueValid(p);
    ReadStateOk(Value(p));
    var q := CopyOf(ReadState(Value(p)));
    CopyOk(ReadState(Value(p)));
    StoredExactly(p);
    PartEqualExactly(p, q);
    if p.tag == STRING {
      TextArrivesEqual(p);
    }
  }

  lemma TextArrivesEqual(p: State)
    requires Ok(p) && p.tag == STRING && Readable(p) && CopyOf(p) == p
    ensures var sent := p.mem[..p.length - 5];
      CStr(p.mem) == CStr(Strdup(sent + [0])) <==> Whole(p)
  {
    var sent := p.mem[..p.length - 5];
    assert p.mem == CStr(p.mem) + [0];
    StoredText(CStr(p.mem), p.length - 5);
    CStrUnique(CStr(sent + [0]), []);
    assert Strdup(sent + [0]) + [] == Strdup(sent + [0]);
  }

  /** Neither NaN nor a negative zero. */
  predicate Plain(p: State) {
    var k := KindOf(p.tag);
    k == Some(Float) || k == Some(Double) ==>
      !NaN(k.value, p.bits) && (Zero(k.value, p.bits) ==> p.bits == 0)
  }

  lemma PartEqualIsWireEqual(p: State, q: State)
    requires Ok(p) && Init(p) && Exact(p) && Plain(p)
    requires Ok(q) && Init(q) && Exact(q) && Plain(q)
    ensures Readable(p) && Readable(q)
    ensures PartEqual(p, q) <==> Value(p) == Value(q)
  {
    if p.tag == STRING {
      assert Value(p).chars == CStr(p.mem);
    }
    if q.tag == STRING {
      assert Value(q).chars == CStr(q.mem);
    }
  }
}
