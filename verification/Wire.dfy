/** The wire format of messages: what the encoder must produce and the decoder
    must accept, independently of the buffers and objects of src/MsgBuffer.c. */
module Wire {
  import opened Base
  import opened Endian

  // ----- parts and messages as values -----

  datatype Kind = Int32 | Int64 | UInt32 | UInt64 | Float | Double

  /** The numbers of enum msg_part_value_t. */
  const NOT_INIT: byte := 0
  const STRING: byte := 5
  const TRAILER: byte := 8

  function Tag(k: Kind): (t: byte)
    ensures t != NOT_INIT && t != STRING && t < TRAILER
  {
    match k
    case Int32 => 1
    case Int64 => 2
    case UInt32 => 3
    case UInt64 => 4
    case Float => 6
    case Double => 7
  }

  function KindOf(t: byte): (k: Option<Kind>)
    ensures k.Some? ==> Tag(k.value) == t
    ensures k == None ==> t == NOT_INIT || t == STRING || t >= TRAILER
  {
    match t
    case 1 => Some(Int32)
    case 2 => Some(Int64)
    case 3 => Some(UInt32)
    case 4 => Some(UInt64)
    case 6 => Some(Float)
    case 7 => Some(Double)
    case _ => None
  }

  function Width(k: Kind): nat {
    if k == Int32 || k == UInt32 || k == Float then 4 else 8
  }

  /** `bits` is the pattern of the number in two's complement or IEEE 754. */
  datatype Part = Num(kind: Kind, bits: nat) | Text(chars: seq<byte>)

  predicate ValidPart(p: Part) {
    match p
    case Num(kind, bits) => bits < Pow256(Width(kind))
    case Text(chars) => 5 + |chars| < TWO_32
  }

  /** Tag, for a text the length of the whole part, and the payload. */
  function EncodePart(p: Part): (s: seq<byte>)
    ensures |s| >= 5
  {
    match p
    case Num(kind, bits) => [Tag(kind)] + BE(bits, Width(kind))
    case Text(chars) => [STRING] + BE(5 + |chars|, 4) + chars
  }

  function EncodeParts(ps: seq<Part>): (s: seq<byte>)
    ensures |s| >= 5 * |ps|
  {
    if ps == [] then [] else EncodePart(ps[0]) + EncodeParts(ps[1..])
  }

  ghost predicate ValidParts(ps: seq<Part>) {
    forall i :: 0 <= i < |ps| ==> ValidPart(ps[i])
  }

  datatype Msg = Msg(id: uint16, parts: seq<Part>)

  const HEADER: nat := 10

  /** "SMSG" */
  const START: seq<byte> := [83, 77, 83, 71]

  function MsgLength(m: Msg): nat {
    HEADER + |EncodeParts(m.parts)|
  }

  ghost predicate ValidMsg(m: Msg) {
    ValidParts(m.parts) && MsgLength(m) < TWO_32
  }

  function Header(id: uint16, length: nat): (s: seq<byte>)
    ensures |s| == HEADER
  {
    START + BE(id, 2) + BE(length, 4)
  }

  function EncodeMsg(m: Msg): (s: seq<byte>)
    ensures |s| == MsgLength(m)
  {
    Header(m.id, MsgLength(m)) + EncodeParts(m.parts)
  }

  // ----- the decoder's decisions -----

  /** The part at the front of s and the number of bytes it takes. */
  function DecodePart(s: seq<byte>): (r: Option<(Part, nat)>)
    ensures r.Some? ==> 5 <= r.value.1 <= |s|
  {
    if s == [] then None
    else
      var kind := KindOf(s[0]);
      if kind.Some? then
        var n := 1 + Width(kind.value);
        if n > |s| then None else Some((Num(kind.value, BEVal(s[1..n])), n))
      else if s[0] == STRING && |s| >= 5 then
        var n := BEVal(s[1..5]);
        if n < 5 || n > |s| then None else Some((Text(s[5..n]), n))
      else None
  }

  function DecodeParts(s: seq<byte>): (r: Option<seq<Part>>)
    decreases |s|
  {
    if s == [] then Some([])
    else
      match DecodePart(s)
      case None => None
      case Some((p, n)) =>
        match DecodeParts(s[n..])
        case None => None
        case Some(ps) => Some([p] + ps)
  }

  /** What a buffer decodes to, with the length its header announces. */
  datatype Parsed = Parsed(id: uint16, parts: seq<Part>, length: uint32)

  function WireId(s: seq<byte>): (id: uint16)
    requires |s| >= HEADER
  {
    PowValues();
    BEVal(s[4..6])
  }

  function WireLength(s: seq<byte>): (n: uint32)
    requires |s| >= HEADER
  {
    PowValues();
    BEVal(s[6..10])
  }

  /** The bytes the loop over the parts runs through; an announced length below
      HEADER leaves it at once. */
  function Body(s: seq<byte>): seq<byte>
    requires HEADER <= |s| && WireLength(s) <= |s|
  {
    if WireLength(s) < HEADER then [] else s[HEADER..WireLength(s)]
  }

  function DecodeMsg(s: seq<byte>): Option<Parsed> {
    if |s| < HEADER || s[..4] != START || WireLength(s) > |s| then None
    else
      match DecodeParts(Body(s))
      case None => None
      case Some(ps) => Some(Parsed(WireId(s), ps, WireLength(s)))
  }

  // ----- parts -----

  lemma DecodeEncodePart(p: Part, rest: seq<byte>)
    requires ValidPart(p)
    ensures DecodePart(EncodePart(p) + rest) == Some((p, |EncodePart(p)|))
  {
    var s := EncodePart(p) + rest;
    match p
    case Num(kind, bits) =>
      assert s[1..1 + Width(kind)] == BE(bits, Width(kind));
      BERoundTrip(bits, Width(kind));
    case Text(chars) =>
      PowValues();
      assert s[1..5] == BE(5 + |chars|, 4);
      BERoundTrip(5 + |chars|, 4);
      assert s[5..5 + |chars|] == chars;
  }

  lemma EncodeDecodePart(s: seq<byte>)
    requires DecodePart(s).Some?
    ensures var (p, n) := DecodePart(s).value;
      ValidPart(p) && EncodePart(p) == s[..n]
  {
    PowValues();
    var (p, n) := DecodePart(s).value;
    match p
    case Num(kind, bits) =>
      BEValRoundTrip(s[1..n]);
      assert s[..n] == [s[0]] + s[1..n];
    case Text(chars) =>
      BEValRoundTrip(s[1..5]);
      assert s[..n] == [s[0]] + s[1..5] + s[5..n];
  }

  /** A part is self-delimiting: no encoding of a part is a proper prefix of
      another's, so the parts at the front of a byte string are determined by it. */
  lemma PartPrefixFree(p: Part, q: Part, r: seq<byte>, t: seq<byte>)
    requires ValidPart(p) && ValidPart(q)
    requires EncodePart(p) + r == EncodePart(q) + t
    ensures p == q && r == t
  {
    DecodeEncodePart(p, r);
    DecodeEncodePart(q, t);
    assert r == (EncodePart(p) + r)[|EncodePart(p)|..];
    assert t == (EncodePart(q) + t)[|EncodePart(q)|..];
  }

  // ----- the layout byte by byte -----

  /** The number in the four bytes at i, in network byte order. */
  function Word(s: seq<byte>, i: nat): int
    requires i + 4 <= |s|
  {
    var a: int, b: int, c: int, d: int := s[i], s[i + 1], s[i + 2], s[i + 3];
    ((a * 256 + b) * 256 + c) * 256 + d
  }

  lemma WordBytes(x: nat, s: seq<byte>, i: nat)
    requires x < TWO_32 && i + 4 <= |s| && s[i..i + 4] == BE(x, 4)
    ensures Word(s, i) == x
  {
    PowValues();
    BERoundTrip(x, 4);
    FourBytes(s[i..i + 4]);
  }

  lemma TwoWordBytes(x: nat, s: seq<byte>, i: nat)
    requires x < TWO_64 && i + 8 <= |s| && s[i..i + 8] == BE(x, 8)
    ensures Word(s, i) * TWO_32 + Word(s, i + 4) == x
  {
    PowValues();
    BERoundTrip(x, 8);
    EightBytes(s[i..i + 8]);
    assert s[i..i + 8][..4] == s[i..i + 4] && s[i..i + 8][4..] == s[i + 4..i + 8];
    FourBytes(s[i..i + 4]);
    FourBytes(s[i + 4..i + 8]);
  }

  lemma HalfWordBytes(x: uint16)
    ensures var hi: int, lo: int := BE(x, 2)[0], BE(x, 2)[1]; hi * 256 + lo == x
  {
    assert BE(x / 256, 1) == [x / 256 % 256];
  }

  /** A number: the tag of its kind and then 32 or 64 bits, the most significant byte first. */
  lemma NumberLayout(kind: Kind, bits: nat)
    requires ValidPart(Num(kind, bits))
    ensures var s := EncodePart(Num(kind, bits));
      match kind
      case Int32 => |s| == 5 && s[0] == 1 && Word(s, 1) == bits
      case Int64 => |s| == 9 && s[0] == 2 && Word(s, 1) * 0x1_0000_0000 + Word(s, 5) == bits
      case UInt32 => |s| == 5 && s[0] == 3 && Word(s, 1) == bits
      case UInt64 => |s| == 9 && s[0] == 4 && Word(s, 1) * 0x1_0000_0000 + Word(s, 5) == bits
      case Float => |s| == 5 && s[0] == 6 && Word(s, 1) == bits
      case Double => |s| == 9 && s[0] == 7 && Word(s, 1) * 0x1_0000_0000 + Word(s, 5) == bits
  {
    var s := EncodePart(Num(kind, bits));
    PowValues();
    if Width(kind) == 4 {
      assert s[1..5] == BE(bits, 4);
      WordBytes(bits, s, 1);
    } else {
      assert s[1..9] == BE(bits, 8);
      TwoWordBytes(bits, s, 1);
    }
  }

  /** A text: its tag, the length of the whole part, and the characters without a NUL. */
  lemma TextLayout(chars: seq<byte>)
    requires ValidPart(Text(chars))
    ensures var s := EncodePart(Text(chars));
      |s| == 5 + |chars| && s[0] == 5 && Word(s, 1) == |s| && s[5..] == chars
  {
    var s := EncodePart(Text(chars));
    assert s[1..5] == BE(5 + |chars|, 4);
    WordBytes(5 + |chars|, s, 1);
  }

  /** A message: "SMSG", the id, the length of the whole message, and the parts. */
  lemma MsgLayout(m: Msg)
    requires ValidMsg(m)
    ensures var s := EncodeMsg(m); var hi: int, lo: int := s[4], s[5];
      && s[0] == 83 && s[1] == 77 && s[2] == 83 && s[3] == 71
      && hi * 256 + lo == m.id && Word(s, 6) == |s| && s[10..] == EncodeParts(m.parts)
  {
    var s := EncodeMsg(m);
    assert s[6..10] == BE(MsgLength(m), 4);
    WordBytes(MsgLength(m), s, 6);
    HalfWordBytes(m.id);
    assert s[4] == BE(m.id, 2)[0] && s[5] == BE(m.id, 2)[1];
  }

  lemma AcceptsPart(p: Part, s: seq<byte>)
    requires ValidPart(p) && EncodePart(p) <= s
    ensures DecodePart(s) == Some((p, |EncodePart(p)|))
  {
    var rest := s[|EncodePart(p)|..];
    assert s == EncodePart(p) + rest;
    DecodeEncodePart(p, rest);
  }

  /** The decoder takes a part exactly from those byte strings that start with the
      encoding of one. */
  lemma PartAcceptedExactly(s: seq<byte>)
    ensures DecodePart(s).Some? <==> exists p :: ValidPart(p) && EncodePart(p) <= s
  {
    if DecodePart(s).Some? {
      EncodeDecodePart(s);
    }
    if p :| ValidPart(p) && EncodePart(p) <= s {
      AcceptsPart(p, s);
    }
  }

  // ----- sequences of parts -----

  ghost predicate DecodesTo(s: seq<byte>, ps: seq<Part>) {
    DecodeParts(s) == Some(ps)
  }

  lemma DecodesToCons(p: Part, s: seq<byte>, ps: seq<Part>)
    requires ValidPart(p) && DecodesTo(s, ps)
    ensures DecodesTo(EncodePart(p) + s, [p] + ps)
  {
    DecodeEncodePart(p, s);
    assert (EncodePart(p) + s)[|EncodePart(p)|..] == s;
  }

  lemma {:induction false} EncodedDecodesTo(ps: seq<Part>)
    requires ValidParts(ps)
    ensures DecodesTo(EncodeParts(ps), ps)
  {
    if ps != [] {
      var p, rest := ps[0], ps[1..];
      EncodedDecodesTo(rest);
      assert ps == [p] + rest;
      assert EncodeParts(ps) == EncodePart(p) + EncodeParts(rest);
      DecodesToCons(p, EncodeParts(rest), rest);
    }
  }

  lemma DecodeEncodeParts(ps: seq<Part>)
    requires ValidParts(ps)
    ensures DecodeParts(EncodeParts(ps)) == Some(ps)
  {
    EncodedDecodesTo(ps);
  }

  lemma EncodePartsCons(p: Part, ps: seq<Part>)
    ensures EncodeParts([p] + ps) == EncodePart(p) + EncodeParts(ps)
    ensures ValidPart(p) && ValidParts(ps) ==> ValidParts([p] + ps)
  {
    assert ([p] + ps)[1..] == ps;
  }

  lemma {:induction false} EncodeDecodeParts(s: seq<byte>)
    requires DecodeParts(s).Some?
    ensures ValidParts(DecodeParts(s).value)
    ensures EncodeParts(DecodeParts(s).value) == s
    decreases |s|
  {
    if s != [] {
      var (p, n) := DecodePart(s).value;
      EncodeDecodePart(s);
      EncodeDecodeParts(s[n..]);
      EncodePartsCons(p, DecodeParts(s[n..]).value);
      assert s == s[..n] + s[n..];
    }
  }

  /** Appending a part appends its bytes. */
  lemma {:induction false} EncodePartsAppend(ps: seq<Part>, p: Part)
    ensures EncodeParts(ps + [p]) == EncodeParts(ps) + EncodePart(p)
  {
    if ps == [] {
      assert EncodeParts([p][1..]) == [];
    } else {
      assert (ps + [p])[1..] == ps[1..] + [p];
      EncodePartsAppend(ps[1..], p);
    }
  }

  // ----- whole messages -----

  lemma HeaderFields(id: uint16, length: nat, rest: seq<byte>)
    requires length < TWO_32
    ensures var s := Header(id, length) + rest;
      s[..4] == START && WireId(s) == id && WireLength(s) == length
  {
    PowValues();
    var s := Header(id, length) + rest;
    assert s[4..6] == BE(id, 2);
    assert s[6..10] == BE(length, 4);
    BERoundTrip(id, 2);
    BERoundTrip(length, 4);
  }

  lemma HeaderOf(s: seq<byte>)
    requires |s| >= HEADER && s[..4] == START
    ensures s[..HEADER] == Header(WireId(s), WireLength(s))
  {
    BEValRoundTrip(s[4..6]);
    BEValRoundTrip(s[6..10]);
    assert s[..HEADER] == s[..4] + s[4..6] + s[6..10];
  }

  lemma BodyOf(id: uint16, body: seq<byte>, rest: seq<byte>)
    requires HEADER + |body| < TWO_32
    ensures var s := Header(id, HEADER + |body|) + body + rest;
      s[..4] == START && WireId(s) == id && WireLength(s) == HEADER + |body| && Body(s) == body
  {
    var s := Header(id, HEADER + |body|) + body + rest;
    assert s == Header(id, HEADER + |body|) + (body + rest);
    HeaderFields(id, HEADER + |body|, body + rest);
  }

  /** Round trip: the encoding of a message, whatever follows it, decodes to its
      id, its parts and its length. */
  lemma MsgRoundTrip(m: Msg, rest: seq<byte>)
    requires ValidMsg(m)
    ensures DecodeMsg(EncodeMsg(m) + rest) == Some(Parsed(m.id, m.parts, MsgLength(m)))
  {
    BodyOf(m.id, EncodeParts(m.parts), rest);
    DecodeEncodeParts(m.parts);
  }

  /** Soundness: what is decoded, with an announced length of at least the
      header's, is exactly what the announced number of bytes encodes. */
  lemma DecodedIsEncoded(s: seq<byte>)
    requires DecodeMsg(s).Some? && WireLength(s) >= HEADER
    ensures var r := DecodeMsg(s).value;
      && ValidMsg(Msg(r.id, r.parts))
      && r.length <= |s|
      && EncodeMsg(Msg(r.id, r.parts)) == s[..r.length]
  {
    var r := DecodeMsg(s).value;
    EncodeDecodeParts(Body(s));
    HeaderOf(s);
    assert s[..r.length] == s[..HEADER] + Body(s);
  }

  lemma AcceptsEncoded(m: Msg, s: seq<byte>)
    requires ValidMsg(m) && EncodeMsg(m) <= s
    ensures DecodeMsg(s).Some?
  {
    var rest := s[|EncodeMsg(m)|..];
    assert s == EncodeMsg(m) + rest;
    MsgRoundTrip(m, rest);
  }

  lemma AcceptedStarts(s: seq<byte>) returns (m: Msg)
    requires DecodeMsg(s).Some? && WireLength(s) >= HEADER
    ensures ValidMsg(m) && EncodeMsg(m) <= s
  {
    DecodedIsEncoded(s);
    m := Msg(DecodeMsg(s).value.id, DecodeMsg(s).value.parts);
  }

  predicate AnnouncesTooLittle(s: seq<byte>) {
    |s| >= HEADER && s[..4] == START && WireLength(s) < HEADER
  }

  lemma AcceptsTooLittle(s: seq<byte>)
    requires AnnouncesTooLittle(s)
    ensures DecodeMsg(s) == Some(Parsed(WireId(s), [], WireLength(s)))
  {
  }

  lemma AcceptedHasHeader(s: seq<byte>)
    requires DecodeMsg(s).Some?
    ensures |s| >= HEADER && s[..4] == START
  {
  }

  /** The decoder accepts exactly the byte strings that start with the encoding of
      a message, plus those whose header announces fewer bytes than a header has. */
  lemma AcceptedExactly(s: seq<byte>)
    ensures DecodeMsg(s).Some? <==>
      (exists m :: ValidMsg(m) && EncodeMsg(m) <= s) || AnnouncesTooLittle(s)
  {
    if DecodeMsg(s).Some? {
      AcceptedHasHeader(s);
      if WireLength(s) >= HEADER {
        var m := AcceptedStarts(s);
      }
    }
    if m :| ValidMsg(m) && EncodeMsg(m) <= s {
      AcceptsEncoded(m, s);
    }
    if AnnouncesTooLittle(s) {
      AcceptsTooLittle(s);
    }
  }

  lemma PrefixKeepsLength(e: seq<byte>, s: seq<byte>)
    requires |e| >= HEADER && |s| >= HEADER
    ensures e <= s ==> WireLength(e) == WireLength(s)
  {
    if e <= s {
      assert e[6..10] == s[6..10];
    }
  }

  /** A message announcing fewer than HEADER bytes is taken for an empty one;
      its own encoding announces HEADER bytes and so is another byte string. */
  lemma ShortLengthIsEmpty(s: seq<byte>)
    requires AnnouncesTooLittle(s)
    ensures DecodeMsg(s) == Some(Parsed(WireId(s), [], WireLength(s)))
    ensures !(EncodeMsg(Msg(WireId(s), [])) <= s)
  {
    AcceptsTooLittle(s);
    var e := EncodeMsg(Msg(WireId(s), []));
    HeaderFields(WireId(s), HEADER, []);
    assert e == Header(WireId(s), HEADER) + [];
    PrefixKeepsLength(e, s);
  }

  /** Messages laid end to end can be told apart: no encoding is a proper prefix
      of another. */
  lemma MsgPrefixFree(m: Msg, n: Msg, r: seq<byte>, t: seq<byte>)
    requires ValidMsg(m) && ValidMsg(n)
    requires EncodeMsg(m) + r == EncodeMsg(n) + t
    ensures m == n && r == t
  {
    MsgRoundTrip(m, r);
    MsgRoundTrip(n, t);
    assert r == (EncodeMsg(m) + r)[MsgLength(m)..];
    assert t == (EncodeMsg(n) + t)[MsgLength(n)..];
  }
}
