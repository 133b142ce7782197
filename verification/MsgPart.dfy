/** SeeMsgPart (src/MsgBuffer.c), release build: the assertions are not compiled in. */
module MsgParts {
  import opened Base
  import opened Endian
  import opened Memory
  import opened Wire
  import opened PartSpec
  import opened Floats

  class MsgPart {
    var valueType: byte
    var num: nat
    var str: seq<byte>
    var length: uint32

    ghost function St(): State
      reads this
    {
      State(valueType, num, str, length)
    }

    ghost predicate Valid()
      reads this
    {
      Ok(St())
    }

    constructor ()
      ensures Valid() && St() == PartSpec.Fresh
    {
      valueType, num, str, length := NOT_INIT, 0, [], 0;
    }

    /** msg_part_destroy_content */
    method DestroyContent()
      requires Valid()
      modifies this
      ensures Valid() && !Init(St()) && str == []
    {
      if valueType != NOT_INIT {
        valueType := NOT_INIT;
        length := 0;
      }
      str := [];
    }

    /** msg_part_write_int32, _int64, _uint32, _uint64, _float and _double */
    method WriteNumber(kind: Kind, bits: nat)
      requires Valid() && bits < Pow256(Width(kind))
      modifies this
      ensures Valid() && Readable(St())
      ensures St() == ReadState(Num(kind, bits))
    {
      DestroyContent();
      valueType := Tag(kind);
      num := bits;
      length := 1 + Width(kind);
      ReadStateOk(Num(kind, bits));
    }

    /** msg_part_get_int32, ... and msg_part_get_double */
    method GetNumber(kind: Kind) returns (ret: Ret, value: Option<nat>)
      requires Valid()
      ensures Init(St()) && Readable(St()) && Value(St()).Num? && Value(St()).kind == kind ==>
        ret == SUCCESS && value == Some(Value(St()).bits)
      ensures valueType == Tag(kind) ==> ret == SUCCESS && value == Some(num)
      ensures valueType != Tag(kind) ==> ret == ERROR_MSG_PART_TYPE && value == None
    {
      if valueType != Tag(kind) {
        return ERROR_MSG_PART_TYPE, None;
      }
      return SUCCESS, Some(num);
    }

    /** msg_part_write_string: `value` is a C string, `len` what the caller says it measures. */
    method WriteString(value: seq<byte>, len: size_t)
      requires Valid() && 0 !in value
      modifies this
      ensures Valid() && St() == StringState(value, len)
      ensures valueType == 5 && str == value + [0] && length == (5 + len) % 0x1_0000_0000
      ensures CopyOf(St()) == St() && CStr(str) == value
      ensures len == |value| && 5 + len < TWO_32 ==> Readable(St()) && Value(St()) == Text(value)
    {
      CStrUnique(value, []);
      assert value + [0] + [] == value + [0];
      var duplicate := Strdup(value + [0]);
      DestroyContent();
      length := Wrap(5 + len, TWO_32);
      valueType := STRING;
      num, str := 0, duplicate;
      assert str[|value|] == 0;
      assert str[..|value|] == value;
    }

    /** msg_part_get_string: a new block with the characters up to the first NUL. */
    method GetString() returns (ret: Ret, value: Option<seq<byte>>)
      requires Valid()
      ensures valueType == STRING ==> ret == SUCCESS && value == Some(Strdup(str))
      ensures valueType != STRING ==> ret == ERROR_MSG_PART_TYPE && value == None
    {
      if valueType != STRING {
        return ERROR_MSG_PART_TYPE, None;
      }
      return SUCCESS, Some(Strdup(str));
    }

    /** msg_part_copy */
    method Copy() returns (ret: Ret, out: MsgPart)
      requires Valid()
      ensures ret == SUCCESS && fresh(out) && out.Valid()
      ensures out.St() == CopyOf(St())
    {
      CopyOk(St());
      CopyFields(St());
      out := new MsgPart();
      var kind := KindOf(valueType);
      ret := SUCCESS;
      if kind.Some? {
        var value;
        ret, value := GetNumber(kind.value);
        out.num := value.value;
      } else if valueType == STRING {
        var value;
        ret, value := GetString();
        out.str := value.value;
      }
      out.valueType := valueType;
      out.length := length;
      assert out.St() == CopyOf(St());
    }

    /** msg_part_equal */
    method Equal(other: MsgPart) returns (ret: Ret, result: bool)
      requires Valid() && other.Valid()
      ensures ret == SUCCESS
      ensures result == (this == other || PartEqual(St(), other.St()))
      ensures result <==>
        this == other || (ComparedAs(St()) == ComparedAs(other.St()) && ComparedAs(St()) != NoNumber)
    {
      ret := SUCCESS;
      PartEqualExactly(St(), other.St());
      if this == other {
        return SUCCESS, true;
      }
      if valueType != other.valueType {
        return SUCCESS, false;
      }
      if length != other.length {
        result := false;
      }
      var kind := KindOf(valueType);
      if kind.Some? {
        result := NumEqual(kind.value, num, other.num);
      } else if valueType == STRING {
        result := CStr(str) == CStr(other.str);
      } else {
        result := true;
      }
    }

    /** msg_part_buffer_length */
    method BufferLength() returns (ret: Ret, size: size_t)
      requires Valid()
      ensures ret == SUCCESS <==> Init(St())
      ensures ret != SUCCESS ==> ret == ERROR_RUNTIME
      ensures ret == SUCCESS ==> size == length
    {
      size := 0;
      if valueType == NOT_INIT || valueType >= TRAILER {
        return ERROR_RUNTIME, size;
      }
      return SUCCESS, length;
    }

    /** msg_part_write to &buf[off]; UNDEFINED where it would leave the buffer or the string. */
    method Write(buf: array<byte>, off: nat) returns (ret: Ret)
      requires Valid() && off <= buf.Length
      modifies buf
      ensures PartWritten(St(), old(buf[..]), buf[..], off, ret)
    {
      ghost var was := buf[..];
      if off >= buf.Length {
        NoRoom(St(), was, off);
        return UNDEFINED;
      }
      MemCopy(buf, off, [valueType]);
      ghost var mid := buf[..];
      var nwritten := off + 1;
      ret := WriteValue(buf, nwritten);
      TagThenValue(St(), was, mid, buf[..], off, nwritten, ret);
    }

    /** What writing a part to was[off..] yields: it succeeds exactly if all the bytes that
        are read and written exist, and reports an error exactly on an unwritten part. */
    static ghost predicate PartWritten(p: State, was: seq<byte>, now: seq<byte>, off: nat, ret: Ret)
      requires Ok(p) && off <= |was|
    {
      && |now| == |was| && ret in {SUCCESS, ERROR_RUNTIME, UNDEFINED}
      && (ret == SUCCESS <==> Init(p) && Readable(p) && off + p.length <= |was|)
      && (ret == SUCCESS ==> now == was[..off] + EncodePart(Value(p)) + was[off + p.length..])
      && (ret == ERROR_RUNTIME <==> !Init(p) && off < |was|)
    }

    static lemma NoRoom(p: State, was: seq<byte>, off: nat)
      requires Ok(p) && off == |was|
      ensures PartWritten(p, was, was, off, UNDEFINED)
    {
    }

    /** What writing the value behind the tag to was[off..] yields. */
    static ghost predicate ValueWritten(p: State, was: seq<byte>, now: seq<byte>, off: nat, ret: Ret)
      requires Ok(p) && off <= |was|
    {
      && |now| == |was| && ret in {SUCCESS, ERROR_RUNTIME, UNDEFINED}
      && (ret == SUCCESS <==> Init(p) && Readable(p) && off + |Payload(p)| <= |was|)
      && (ret == SUCCESS ==> now == was[..off] + Payload(p) + was[off + |Payload(p)|..])
      && (ret == ERROR_RUNTIME <==> !Init(p))
    }

    /** The tag and behind it the payload make up the part. */
    static lemma TagThenValue(p: State, was: seq<byte>, mid: seq<byte>, now: seq<byte>, off: nat, at: nat, ret: Ret)
      requires Ok(p) && at == off + 1 <= |was| && mid == was[..off] + [p.tag] + was[at..]
      requires ValueWritten(p, mid, now, at, ret)
      ensures PartWritten(p, was, now, off, ret)
    {
      if Init(p) && Readable(p) {
        EncodedAs(p);
        ValueValid(p);
        if ret == SUCCESS {
          Adjacent(was, mid, now, [p.tag], Payload(p), off, at, at + |Payload(p)|);
        }
      }
    }

    /** The switch over the type of the value. */
    method WriteValue(buf: array<byte>, off: nat) returns (ret: Ret)
      requires Valid() && off <= buf.Length
      modifies buf
      ensures ValueWritten(St(), old(buf[..]), buf[..], off, ret)
    {
      var kind := KindOf(valueType);
      if kind.Some? {
        var w := Width(kind.value);
        if off + w > buf.Length {
          return UNDEFINED;
        }
        StoreNetwork(buf, off, num, w);
        return SUCCESS;
      } else if valueType == STRING {
        if length < 5 || length - 5 > |str| || off + length > buf.Length + 1 {
          return UNDEFINED;
        }
        WriteText(buf, off);
        return SUCCESS;
      } else {
        return ERROR_RUNTIME;
      }
    }

    /** The length and the characters of a text. */
    method WriteText(buf: array<byte>, off: nat)
      requires Valid() && valueType == STRING && Readable(St())
      requires off + length - 1 <= buf.Length
      modifies buf
      ensures buf[..] == old(buf[..])[..off] + (BE(length, 4) + str[..length - 5]) + old(buf[..])[off + (length - 1)..]
    {
      ghost var was := buf[..];
      StoreNetwork(buf, off, length, 4);
      ghost var mid := buf[..];
      var nwritten := off + 4;
      MemCopy(buf, nwritten, str[..length - 5]);
      Adjacent(was, mid, buf[..], BE(length, 4), str[..length - 5], off, nwritten, off + (length - 1));
    }

    /** msg_part_read of at most bufsiz bytes from the memory s. With bufsiz 0 the code
        reports success and gives no part. `past` tells whether it read beyond s. */
    static method Read(s: seq<byte>, bufsiz: size_t)
      returns (ret: Ret, part: MsgPart?, size: size_t, ghost past: bool)
      requires bufsiz <= |s|
      ensures bufsiz == 0 ==> ret == SUCCESS && part == null
      ensures bufsiz > 0 ==> ReadResult(s[..bufsiz], ret, part, size) && (part != null ==> fresh(part))
      ensures past <==> bufsiz > 0 && s[0] == 5 && |s| < 5
      ensures past ==> ret == ERROR_MSG_INVALID
    {
      past := false;
      if 1 > bufsiz {
        return SUCCESS, null, 0, false;
      }
      var kind := KindOf(s[0]);
      if kind.Some? {
        ret, part, size := ReadNumber(s, bufsiz, kind.value);
      } else if s[0] == STRING {
        ret, part, size, past := ReadText(s, bufsiz);
      } else {
        return ERROR_MSG_INVALID, null, 0, false;
      }
    }

    /** What reading the part at the front of s must yield. */
    static ghost predicate ReadResult(s: seq<byte>, ret: Ret, part: MsgPart?, size: size_t)
      reads part
    {
      match DecodePart(s)
      case None => ret == ERROR_MSG_INVALID && part == null
      case Some((p, n)) =>
        ret == SUCCESS && part != null && part.Valid() && ValidPart(p) && part.St() == ReadState(p) && size == n
    }

    static method ReadNumber(s: seq<byte>, bufsiz: size_t, kind: Kind)
      returns (ret: Ret, part: MsgPart?, size: size_t)
      requires 0 < bufsiz <= |s| && KindOf(s[0]) == Some(kind)
      ensures ReadResult(s[..bufsiz], ret, part, size) && (part != null ==> fresh(part))
    {
      var w := Width(kind);
      if 1 + w > bufsiz {
        return ERROR_MSG_INVALID, null, 0;
      }
      SliceOfPrefix(s, bufsiz, 1, 1 + w);
      var x := FetchNetwork(s[1..1 + w]);
      part := new MsgPart();
      part.valueType, part.num, part.length := s[0], x, 1 + w;
      return SUCCESS, part, 1 + w;
    }

    /** The length of a text is fetched before it is compared with bufsiz. The bytes of
        that fetch that lie beyond s are arbitrary: the part is rejected whatever they are. */
    static method ReadText(s: seq<byte>, bufsiz: size_t)
      returns (ret: Ret, part: MsgPart?, size: size_t, ghost past: bool)
      requires 0 < bufsiz <= |s| && s[0] == STRING
      ensures ReadResult(s[..bufsiz], ret, part, size) && (part != null ==> fresh(part))
      ensures past <==> |s| < 5
      ensures past ==> ret == ERROR_MSG_INVALID
    {
      var raw: seq<byte>;
      past := |s| < 5;
      if |s| >= 5 {
        raw := s[1..5];
      } else {
        var b0: byte, b1: byte, b2: byte, b3: byte := *, *, *, *;
        raw := [b0, b1, b2, b3];
      }
      var length := FetchNetwork(raw);
      if bufsiz >= 5 {
        SliceOfPrefix(s, bufsiz, 1, 5);
      }
      if length > bufsiz {
        return ERROR_MSG_INVALID, null, 0, past;
      }
      if length < 5 || length > bufsiz {
        return ERROR_MSG_INVALID, null, 0, past;
      }
      SliceOfPrefix(s, bufsiz, 5, length);
      PowValues();
      part := new MsgPart();
      part.valueType, part.str, part.length := STRING, s[5..length] + [0], length;
      assert part.str[length - 5] == 0;
      return SUCCESS, part, length, past;
    }
  }
}
