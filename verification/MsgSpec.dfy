/** What a SeeMsgBuffer (src/MsgBuffer.c) stands for, given the states of its parts. */
module MsgSpec {
  import opened Base
  import opened Endian
  import opened Wire
  import opened PartSpec

  ghost predicate AllOk(ps: seq<State>) {
    forall i {:trigger Ok(ps[i])} :: 0 <= i < |ps| ==> Ok(ps[i])
  }

  /** Every part was written by a setter. */
  ghost predicate AllInit(ps: seq<State>) {
    forall i {:trigger Init(ps[i])} :: 0 <= i < |ps| ==> Init(ps[i])
  }

  ghost predicate AllReadable(ps: seq<State>) {
    forall i {:trigger Readable(ps[i])} :: 0 <= i < |ps| ==> Readable(ps[i])
  }

  ghost predicate AllCopies(ps: seq<State>) {
    forall i {:trigger CopyOf(ps[i])} :: 0 <= i < |ps| ==> CopyOf(ps[i]) == ps[i]
  }

  /** Every part was written by a setter and can be read back in full. */
  ghost predicate Written(ps: seq<State>) {
    forall i {:trigger Ok(ps[i])} {:trigger Init(ps[i])} {:trigger Readable(ps[i])} ::
      0 <= i < |ps| ==> Ok(ps[i]) && Init(ps[i]) && Readable(ps[i])
  }

  function SumLengths(ps: seq<State>): nat {
    if ps == [] then 0 else SumLengths(ps[..|ps| - 1]) + ps[|ps| - 1].length
  }

  /** The true length of the message: header and parts. */
  function TotalLength(ps: seq<State>): nat {
    HEADER + SumLengths(ps)
  }

  /** The length that add_part accumulates in a uint32_t. */
  function CachedLength(ps: seq<State>): uint32 {
    if ps == [] then HEADER else Wrap(CachedLength(ps[..|ps| - 1]) + ps[|ps| - 1].length, TWO_32)
  }

  lemma CachedAppend(ps: seq<State>, p: State)
    ensures CachedLength(ps + [p]) == Wrap(CachedLength(ps) + p.length, TWO_32)
    ensures p.length == 0 ==> CachedLength(ps + [p]) == CachedLength(ps)
  {
  }

  /** The cached length is the true length modulo 2^32, and so the true length of
      every message that fits. */
  lemma {:induction false} CachedIsTotal(ps: seq<State>)
    ensures CachedLength(ps) == Wrap(TotalLength(ps), TWO_32)
    ensures CachedLength(ps) == TotalLength(ps) <==> TotalLength(ps) < TWO_32
  {
    if ps != [] {
      var front := ps[..|ps| - 1];
      CachedIsTotal(front);
      WrapAdd(TotalLength(front), ps[|ps| - 1].length);
    }
  }

  /** msg_buffer_get_buffer can serialise the message. */
  ghost predicate Sendable(ps: seq<State>) {
    Written(ps) && TotalLength(ps) < TWO_32
  }

  ghost function Values(ps: seq<State>): (vs: seq<Part>)
    requires Written(ps)
    ensures |vs| == |ps|
  {
    seq(|ps|, i requires 0 <= i < |ps| => Value(ps[i]))
  }

  ghost function MsgOf(id: uint16, ps: seq<State>): Msg
    requires Written(ps)
  {
    Msg(id, Values(ps))
  }

  /** The parts of a message read from a buffer, as add_part stores them. */
  ghost function Stored(vs: seq<Part>): (ps: seq<State>)
    requires ValidParts(vs)
    ensures |ps| == |vs|
  {
    seq(|vs|, i requires 0 <= i < |vs| => CopyOf(ReadState(vs[i])))
  }

  lemma SumAppend(ps: seq<State>, p: State)
    ensures SumLengths(ps + [p]) == SumLengths(ps) + p.length
  {
  }

  lemma {:induction false} SumPrefix(ps: seq<State>, i: nat)
    requires i <= |ps|
    ensures SumLengths(ps[..i]) <= SumLengths(ps)
    decreases |ps|
  {
    if i == |ps| {
      assert ps[..i] == ps;
    } else {
      var front := ps[..|ps| - 1];
      assert front[..i] == ps[..i];
      SumPrefix(front, i);
    }
  }

  lemma ValuesAppend(ps: seq<State>, p: State)
    requires Written(ps + [p])
    ensures Written(ps) && Ok(p) && Init(p) && Readable(p)
    ensures Values(ps + [p]) == Values(ps) + [Value(p)]
  {
    forall i | 0 <= i < |ps|
      ensures Ok(ps[i]) && Init(ps[i]) && Readable(ps[i])
    {
      assert (ps + [p])[i] == ps[i];
    }
    assert (ps + [p])[|ps|] == p;
  }

  /** The cached length is the length of the encoding. */
  lemma {:induction false} EncodedLength(ps: seq<State>)
    requires Written(ps)
    ensures |EncodeParts(Values(ps))| == SumLengths(ps) && ValidParts(Values(ps))
  {
    if ps != [] {
      var front, last := ps[..|ps| - 1], ps[|ps| - 1];
      assert ps == front + [last];
      ValuesAppend(front, last);
      EncodedLength(front);
      EncodePartsAppend(Values(front), Value(last));
      ValueValid(last);
    }
  }

  /** b is the header followed by the first i parts. */
  ghost predicate WrittenUpTo(b: seq<byte>, head: seq<byte>, ps: seq<State>, i: nat) {
    && i <= |ps| && |head| == HEADER
    && Written(ps[..i])
    && b == head + EncodeParts(Values(ps[..i]))
    && |b| == TotalLength(ps[..i]) <= TotalLength(ps)
  }

  lemma WrittenNone(head: seq<byte>, ps: seq<State>)
    requires |head| == HEADER
    ensures WrittenUpTo(head, head, ps, 0)
  {
  }

  /** What writing one more part adds to the first i. */
  lemma WrittenNext(b: seq<byte>, head: seq<byte>, ps: seq<State>, i: nat, next: nat)
    requires WrittenUpTo(b, head, ps, i) && next == i + 1 <= |ps|
    requires Ok(ps[i]) && Init(ps[i]) && Readable(ps[i])
    ensures WrittenUpTo(b + EncodePart(Value(ps[i])), head, ps, next)
    ensures |b| + ps[i].length == |b + EncodePart(Value(ps[i]))|
  {
    var front, p := ps[..i], ps[i];
    TakeNext(ps, i);
    WrittenAppend(front, p);
    TotalNext(ps, i);
    Associative(head, EncodeParts(Values(front)), EncodePart(Value(p)));
  }

  lemma TakeNext(ps: seq<State>, i: nat)
    requires i < |ps|
    ensures ps[..i + 1] == ps[..i] + [ps[i]]
  {
  }

  lemma Associative(a: seq<byte>, b: seq<byte>, c: seq<byte>)
    ensures a + b + c == a + (b + c)
  {
  }

  lemma WrittenAppend(ps: seq<State>, p: State)
    requires Written(ps) && Ok(p) && Init(p) && Readable(p)
    ensures Written(ps + [p])
    ensures EncodeParts(Values(ps + [p])) == EncodeParts(Values(ps)) + EncodePart(Value(p))
    ensures |EncodePart(Value(p))| == p.length
  {
    var qs := ps + [p];
    forall k | 0 <= k < |qs|
      ensures Ok(qs[k]) && Init(qs[k]) && Readable(qs[k])
    {
      assert k < |ps| ==> Ok(ps[k]);
    }
    ValuesAppend(ps, p);
    EncodePartsAppend(Values(ps), Value(p));
    ValueValid(p);
  }

  /** Once all parts are in a buffer of the cached length, the message could be sent. */
  lemma WrittenAll(b: seq<byte>, head: seq<byte>, ps: seq<State>)
    requires WrittenUpTo(b, head, ps, |ps|) && |b| <= CachedLength(ps)
    ensures Sendable(ps) && |b| == CachedLength(ps)
    ensures b == head + EncodeParts(Values(ps))
  {
    assert ps[..|ps|] == ps;
    CachedIsTotal(ps);
  }

  /** A message that writing part i fails on cannot be sent. */
  lemma NotSendable(ps: seq<State>, i: nat)
    requires i < |ps|
    ensures Sendable(ps) ==>
      Ok(ps[i]) && Init(ps[i]) && Readable(ps[i])
      && TotalLength(ps[..i]) + ps[i].length <= CachedLength(ps)
    ensures AllInit(ps) ==> Init(ps[i])
  {
    TotalNext(ps, i);
    CachedIsTotal(ps);
  }

  /** msg_buffer_get_buffer reports an error: before anything else is wrong it comes to an
      unwritten part and there is room for its tag. */
  ghost predicate Refused(ps: seq<State>) {
    exists i :: 0 <= i < |ps| && RefusedBy(ps, i)
  }

  ghost predicate RefusedBy(ps: seq<State>, i: nat)
    requires i < |ps|
  {
    Written(ps[..i]) && !Init(ps[i]) && TotalLength(ps[..i]) < CachedLength(ps)
  }

  /** Part i can be written and fits. */
  ghost predicate Writable(ps: seq<State>, i: nat)
    requires i < |ps|
  {
    Ok(ps[i]) && Init(ps[i]) && Readable(ps[i]) && TotalLength(ps[..i]) + ps[i].length <= CachedLength(ps)
  }

  lemma NotRefusedBefore(ps: seq<State>, i: nat, j: nat)
    requires j < i <= |ps| && Written(ps[..i])
    ensures !RefusedBy(ps, j)
  {
    assert Init(ps[..i][j]);
  }

  lemma NotRefusedAfter(ps: seq<State>, i: nat, j: nat)
    requires i < j < |ps| && !Writable(ps, i)
    ensures !RefusedBy(ps, j)
  {
    if Written(ps[..j]) {
      assert Ok(ps[..j][i]) && Init(ps[..j][i]) && Readable(ps[..j][i]);
      TotalNext(ps, i);
      assert ps[..j][..i + 1] == ps[..i + 1];
      SumPrefix(ps[..j], i + 1);
    }
  }

  /** The first part that cannot be written decides. */
  lemma RefusedAt(ps: seq<State>, i: nat)
    requires i < |ps| && Written(ps[..i]) && !Writable(ps, i)
    ensures Refused(ps) <==> !Init(ps[i]) && TotalLength(ps[..i]) < CachedLength(ps)
  {
    forall j | 0 <= j < |ps| && j != i
      ensures !RefusedBy(ps, j)
    {
      if j < i {
        NotRefusedBefore(ps, i, j);
      } else {
        NotRefusedAfter(ps, i, j);
      }
    }
    assert RefusedBy(ps, i) <==> !Init(ps[i]) && TotalLength(ps[..i]) < CachedLength(ps);
  }

  /** Behind a message that could be sent, an unwritten part is no error: its tag goes one
      byte behind the buffer. */
  lemma UnwrittenLastOverruns(ps: seq<State>)
    requires Sendable(ps)
    ensures !Sendable(ps + [PartSpec.Fresh]) && !Refused(ps + [PartSpec.Fresh])
  {
    var qs := ps + [PartSpec.Fresh];
    assert qs[..|ps|] == ps && qs[|ps|] == PartSpec.Fresh;
    assert !Init(qs[|ps|]);
    SumAppend(ps, PartSpec.Fresh);
    CachedIsTotal(qs);
    RefusedAt(qs, |ps|);
  }

  lemma TotalNext(ps: seq<State>, i: nat)
    requires i < |ps|
    ensures TotalLength(ps[..i + 1]) == TotalLength(ps[..i]) + ps[i].length <= TotalLength(ps)
  {
    assert ps[..i + 1] == ps[..i] + [ps[i]];
    SumAppend(ps[..i], ps[i]);
    SumPrefix(ps, i + 1);
  }

  lemma AllInitNext(ps: seq<State>, i: nat)
    requires i < |ps|
    ensures AllInit(ps[..i + 1]) <==> AllInit(ps[..i]) && Init(ps[i])
  {
  }

  lemma SendableIsValidMsg(id: uint16, ps: seq<State>)
    requires Sendable(ps)
    ensures ValidMsg(MsgOf(id, ps))
    ensures MsgLength(MsgOf(id, ps)) == TotalLength(ps) == CachedLength(ps)
  {
    EncodedLength(ps);
    CachedIsTotal(ps);
  }

  // ----- sending and receiving -----

  lemma StoredOk(vs: seq<Part>)
    requires ValidParts(vs)
    ensures AllOk(Stored(vs)) && AllInit(Stored(vs)) && AllCopies(Stored(vs))
  {
    forall i | 0 <= i < |vs|
      ensures Ok(Stored(vs)[i]) && Init(Stored(vs)[i]) && CopyOf(Stored(vs)[i]) == Stored(vs)[i]
    {
      ReadStateOk(vs[i]);
      CopyOk(ReadState(vs[i]));
    }
  }

  lemma {:induction false} StoredLength(vs: seq<Part>)
    requires ValidParts(vs)
    ensures SumLengths(Stored(vs)) == |EncodeParts(vs)|
  {
    if vs == [] {
      assert Stored(vs) == [];
    } else {
      var front, last := vs[..|vs| - 1], vs[|vs| - 1];
      assert vs == front + [last];
      StoredLength(front);
      assert Stored(vs) == Stored(front) + [CopyOf(ReadState(last))];
      SumAppend(Stored(front), CopyOf(ReadState(last)));
      EncodePartsAppend(front, last);
      ReadStateOk(last);
      ValueValid(ReadState(last));
    }
  }

  /** Round trip of the codec: the parts that arrive are the parts that were sent
      exactly when no text was given a length shorter than the text. */
  lemma RoundTripExactly(ps: seq<State>)
    requires Sendable(ps) && AllCopies(ps)
    ensures ValidParts(Values(ps))
    ensures Stored(Values(ps)) == ps <==> forall i :: 0 <= i < |ps| ==> Whole(ps[i])
  {
    EncodedLength(ps);
    forall i | 0 <= i < |ps|
      ensures Stored(Values(ps))[i] == ps[i] <==> Whole(ps[i])
    {
      StoredExactly(ps[i]);
    }
  }

  predicate NulsOnlyLast(vs: seq<Part>) {
    forall i :: 0 <= i < |vs| && vs[i].Text? ==> NulOnlyLast(vs[i].chars)
  }

  /** A parsed message can be written again exactly when its texts have no NUL before
      their last character, and then it is written as it was. */
  lemma RewritableExactly(vs: seq<Part>)
    requires ValidParts(vs)
    ensures AllReadable(Stored(vs)) <==> NulsOnlyLast(vs)
    ensures AllOk(Stored(vs)) && AllInit(Stored(vs))
    ensures AllReadable(Stored(vs)) ==> Values(Stored(vs)) == vs
  {
    StoredOk(vs);
    forall i | 0 <= i < |vs|
      ensures Readable(Stored(vs)[i]) <==> (vs[i].Text? ==> NulOnlyLast(vs[i].chars))
      ensures Readable(Stored(vs)[i]) ==> Value(Stored(vs)[i]) == vs[i]
    {
      ReadStateOk(vs[i]);
      CopyReadableExactly(ReadState(vs[i]));
      if vs[i].Text? {
        assert (vs[i].chars + [0])[..|vs[i].chars|] == vs[i].chars;
      }
    }
  }

  lemma ParsedLength(s: seq<byte>)
    requires DecodeMsg(s).Some?
    ensures var r := DecodeMsg(s).value;
      ValidParts(r.parts) && TotalLength(Stored(r.parts)) == (if r.length < HEADER then HEADER else r.length)
  {
    EncodeDecodeParts(Body(s));
    StoredLength(DecodeMsg(s).value.parts);
  }

  lemma Reproduced(s: seq<byte>)
    requires DecodeMsg(s).Some? && WireLength(s) >= HEADER && NulsOnlyLast(DecodeMsg(s).value.parts)
    ensures var r := DecodeMsg(s).value;
      ValidParts(r.parts) && Sendable(Stored(r.parts)) && EncodeMsg(MsgOf(r.id, Stored(r.parts))) == s[..r.length]
  {
    ParsedLength(s);
    RewritableExactly(DecodeMsg(s).value.parts);
    DecodedIsEncoded(s);
  }

  /** From a byte string to a message and back: get_buffer reproduces the announced
      number of bytes exactly when that number is at least the header's and no text
      contains a NUL before its last character. */
  lemma ReproducedExactly(s: seq<byte>)
    requires DecodeMsg(s).Some?
    ensures var r := DecodeMsg(s).value;
      && ValidParts(r.parts)
      && ((Sendable(Stored(r.parts)) && EncodeMsg(MsgOf(r.id, Stored(r.parts))) == s[..r.length]) <==>
          r.length >= HEADER && NulsOnlyLast(r.parts))
  {
    var r := DecodeMsg(s).value;
    ParsedLength(s);
    RewritableExactly(r.parts);
    if r.length >= HEADER && NulsOnlyLast(r.parts) {
      Reproduced(s);
    }
  }

  // ----- equality -----

  /** What msg_buffer_equal leaves in `*result` for two different messages; None
      where it returns without assigning it. */
  ghost function EqualResult(idA: uint16, lenA: uint32, a: seq<State>,
                             idB: uint16, lenB: uint32, b: seq<State>): Option<bool>
    requires AllOk(a) && AllOk(b)
  {
    if idA != idB || lenA != lenB then Some(false)
    else if |a| != |b| then Some(true)
    else if |a| == 0 then None
    else Some(forall i :: 0 <= i < |a| ==> PartEqual(a[i], b[i]))
  }

  ghost predicate Comparable(ps: seq<State>) {
    && Sendable(ps)
    && forall i :: 0 <= i < |ps| ==> Exact(ps[i]) && Plain(ps[i])
  }

  /** Equality agrees with the wire exactly where neither flaw of the comparison shows:
      messages of the same id and length but different numbers of parts are reported
      equal, and for two empty ones nothing is reported. */
  lemma EqualIsSameBytesExactly(idA: uint16, a: seq<State>, idB: uint16, b: seq<State>)
    requires Comparable(a) && Comparable(b)
    ensures
      var same := EncodeMsg(MsgOf(idA, a)) == EncodeMsg(MsgOf(idB, b));
      EqualResult(idA, TotalLength(a), a, idB, TotalLength(b), b) == Some(same) <==>
      !(idA == idB && TotalLength(a) == TotalLength(b) && (|a| != |b| || |a| == 0))
  {
    var m, n := MsgOf(idA, a), MsgOf(idB, b);
    SendableIsValidMsg(idA, a);
    SendableIsValidMsg(idB, b);
    if EncodeMsg(m) == EncodeMsg(n) {
      assert EncodeMsg(m) + [] == EncodeMsg(n) + [];
      MsgPrefixFree(m, n, [], []);
    }
    if |a| == |b| {
      SameValues(a, b);
    }
  }

  lemma SameValues(a: seq<State>, b: seq<State>)
    requires Comparable(a) && Comparable(b) && |a| == |b|
    ensures Values(a) == Values(b) <==> forall i :: 0 <= i < |a| ==> PartEqual(a[i], b[i])
  {
    forall i | 0 <= i < |a|
      ensures PartEqual(a[i], b[i]) <==> Values(a)[i] == Values(b)[i]
    {
      PartEqualIsWireEqual(a[i], b[i]);
    }
  }

  lemma StoredAlike(ps: seq<State>)
    requires Sendable(ps)
    ensures ValidParts(Values(ps))
    ensures var qs := Stored(Values(ps)); AllOk(qs) && |qs| == |ps| && CachedLength(qs) == CachedLength(ps)
  {
    EncodedLength(ps);
    StoredOk(Values(ps));
    StoredLength(Values(ps));
    CachedIsTotal(ps);
    CachedIsTotal(Stored(Values(ps)));
  }

  /** Each text was given at least its own length, and no number is a NaN. */
  ghost predicate ArriveEqual(ps: seq<State>)
    requires AllOk(ps)
  {
    forall i {:trigger Whole(ps[i])} :: 0 <= i < |ps| ==> Whole(ps[i]) && ComparedAs(ps[i]) != NoNumber
  }

  lemma PartsArriveEqual(ps: seq<State>, qs: seq<State>)
    requires Written(ps) && AllCopies(ps) && ValidParts(Values(ps))
    requires qs == Stored(Values(ps)) && AllOk(qs)
    ensures ArriveEqual(ps) <==> forall i :: 0 <= i < |ps| ==> PartEqual(ps[i], qs[i])
  {
    forall i | 0 <= i < |ps|
      ensures PartEqual(ps[i], qs[i]) <==> Whole(ps[i]) && ComparedAs(ps[i]) != NoNumber
    {
      ArrivesEqualExactly(ps[i]);
    }
  }

  /** A message compared with what its receiver makes of its bytes: equal exactly when no
      text was given a length shorter than the text and no number is a NaN. */
  lemma ReceivedEqualExactly(id: uint16, ps: seq<State>)
    requires Sendable(ps) && AllCopies(ps) && ps != []
    ensures ValidParts(Values(ps)) && AllOk(Stored(Values(ps)))
    ensures var qs := Stored(Values(ps));
      EqualResult(id, CachedLength(ps), ps, id, CachedLength(qs), qs) == Some(ArriveEqual(ps))
  {
    StoredAlike(ps);
    PartsArriveEqual(ps, Stored(Values(ps)));
  }

  lemma SumsOfTwo(p: State, q: State)
    ensures SumLengths([p]) == p.length && SumLengths([p, q]) == p.length + q.length
  {
  }

  lemma NumberComparable(bits: nat)
    requires bits < Pow256(4)
    ensures var q := ReadState(Num(Int32, bits));
      Ok(q) && Init(q) && Readable(q) && Exact(q) && Plain(q) && q.length == 5
  {
  }

  lemma TextComparable(chars: seq<byte>)
    requires 0 !in chars && 5 + |chars| < TWO_32
    ensures var p := StringState(chars, |chars|);
      Ok(p) && Init(p) && Readable(p) && Exact(p) && Plain(p) && p.length == 5 + |chars|
  {
  }

  /** Any text of five characters and any two 32-bit numbers: reported equal, sent
      differently. */
  lemma UnequalCountsReportedEqual(id: uint16, chars: seq<byte>, x: nat, y: nat)
    requires 0 !in chars && |chars| == 5 && x < Pow256(4) && y < Pow256(4)
    ensures
      var a := [StringState(chars, 5)];
      var b := [ReadState(Num(Int32, x)), ReadState(Num(Int32, y))];
      && Comparable(a) && Comparable(b)
      && EqualResult(id, TotalLength(a), a, id, TotalLength(b), b) == Some(true)
      && EncodeMsg(MsgOf(id, a)) != EncodeMsg(MsgOf(id, b))
  {
    var p, q, r := StringState(chars, 5), ReadState(Num(Int32, x)), ReadState(Num(Int32, y));
    TextComparable(chars);
    NumberComparable(x);
    NumberComparable(y);
    SumsOfTwo(p, p);
    SumsOfTwo(q, r);
    EqualIsSameBytesExactly(id, [p], id, [q, r]);
  }
}
