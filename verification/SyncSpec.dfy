/** Finding the start of a message in a byte stream (src/Serial.c): the search as it is
    written, the search that src/Serial.h documents, and when they agree. */
module SyncSpec {
  import opened Base
  import opened Endian
  import opened Wire

  /** What obtaining the bytes of a message from a stream ends with: the bytes and what
      is left of the stream, a stream that runs dry, or a write outside the buffer. */
  datatype Outcome = Got(buffer: seq<byte>, left: seq<byte>) | Dry | Fault

  // ----- the search as written -----

  /** The loop's condition joins four `!=` with `&&`: one matching byte ends it. */
  predicate StopsAt(w: seq<byte>)
    requires |w| >= 4
  {
    w[0] == START[0] || w[1] == START[1] || w[2] == START[2] || w[3] == START[3]
  }

  /** memmove by one, then the new byte to sync[sizeof(start) - 1]: a char pointer has
      eight bytes, so the byte goes to sync[7] instead of sync[9]. */
  function Shifted(w: seq<byte>, b: byte): (r: seq<byte>)
    requires |w| == HEADER
    ensures |r| == HEADER
  {
    w[1..8] + [b] + [w[9], w[9]]
  }

  /** The window and the unread stream when the loop ends; None when the stream runs dry. */
  function Search(w: seq<byte>, rest: seq<byte>): (r: Option<(seq<byte>, seq<byte>)>)
    requires |w| == HEADER
    ensures r.Some? ==> |r.value.0| == HEADER && |r.value.1| <= |rest|
    decreases |rest|
  {
    if StopsAt(w) then Some((w, rest))
    else if rest == [] then None
    else Search(Shifted(w, rest[0]), rest[1..])
  }

  /** The rest of a message whose header is in the window. */
  function Complete(w: seq<byte>, rest: seq<byte>): Outcome
    requires |w| == HEADER
  {
    var size := BEVal(w[6..10]);
    if size < HEADER then Fault
    else if |rest| < size - HEADER then Dry
    else Got(w + rest[..size - HEADER], rest[size - HEADER..])
  }

  /** obtain_synced_msg_buffer on a stream. */
  function AsWritten(q: seq<byte>): Outcome {
    if |q| < HEADER then Dry
    else
      match Search(q[..HEADER], q[HEADER..])
      case None => Dry
      case Some((w, rest)) => Complete(w, rest)
  }

  // ----- what it does in closed form -----

  /** The stream without its bytes 8 and 9. */
  function Without(q: seq<byte>): (t: seq<byte>)
    requires |q| >= HEADER
    ensures |t| == |q| - 2
  {
    q[..8] + q[10..]
  }

  /** The window after k turns of the loop: bytes 8 and 9 of the stream never move
      into it, and byte 9 fills its last two places. */
  function Window(q: seq<byte>, k: nat): (w: seq<byte>)
    requires HEADER + k <= |q|
    ensures |w| == HEADER
  {
    if k == 0 then q[..HEADER] else Without(q)[k..k + 8] + [q[9], q[9]]
  }

  lemma WindowShifts(q: seq<byte>, k: nat)
    requires HEADER + k < |q|
    ensures Window(q, k + 1) == Shifted(Window(q, k), q[HEADER + k])
  {
    var t := Without(q);
    assert t[k + 8] == q[HEADER + k];
    assert Window(q, k)[..8] == t[k..k + 8];
    assert t[k + 1..k + 9] == t[k..k + 8][1..] + [t[k + 8]];
    assert Window(q, k)[1..8] == Window(q, k)[..8][1..];
  }

  /** No earlier window ended the search. */
  ghost predicate PassesTo(q: seq<byte>, k: nat) {
    HEADER + k <= |q| && forall j :: 0 <= j < k ==> !StopsAt(Window(q, j))
  }

  lemma {:induction false} SearchFrom(q: seq<byte>, k: nat, n: nat)
    requires k <= n && PassesTo(q, n)
    ensures Search(Window(q, k), q[HEADER + k..]) == Search(Window(q, n), q[HEADER + n..])
    decreases n - k
  {
    if k < n {
      WindowShifts(q, k);
      assert q[HEADER + k..][1..] == q[HEADER + k + 1..];
      SearchFrom(q, k + 1, n);
    }
  }

  /** The search ends at the first window in which one of the four bytes matches. */
  lemma SearchStops(q: seq<byte>, k: nat)
    requires PassesTo(q, k) && StopsAt(Window(q, k))
    ensures AsWritten(q) == Complete(Window(q, k), q[HEADER + k..])
  {
    SearchFrom(q, 0, k);
  }

  /** A stream of which every window has been seen in vain has run dry. */
  lemma SearchExhausted(q: seq<byte>, n: nat)
    requires PassesTo(q, n) && !StopsAt(Window(q, n)) && HEADER + n == |q|
    ensures AsWritten(q) == Dry
  {
    SearchFrom(q, 0, n);
    assert q[HEADER + n..] == [];
  }

  lemma PassesOn(q: seq<byte>, n: nat, next: nat)
    requires PassesTo(q, n) && !StopsAt(Window(q, n)) && HEADER + n < |q| && next == n + 1
    ensures PassesTo(q, next)
  {
    forall j | 0 <= j < next
      ensures !StopsAt(Window(q, j))
    {
      assert j == n || j < n;
    }
  }

  lemma {:induction false} SearchEnds(q: seq<byte>, n: nat) returns (k: nat)
    requires PassesTo(q, n) && AsWritten(q) != Dry
    ensures PassesTo(q, k) && StopsAt(Window(q, k))
    decreases |q| - n
  {
    k := n;
    if !StopsAt(Window(q, n)) {
      if HEADER + n == |q| {
        SearchExhausted(q, n);
      }
      var next := n + 1;
      PassesOn(q, n, next);
      k := SearchEnds(q, next);
    }
  }

  /** The header in a window announces fewer bytes than it has itself. The code allocates
      that many and copies the ten bytes of the window into them. */
  predicate ShorterThanHeader(w: seq<byte>)
    requires |w| == HEADER
  {
    BEVal(w[6..10]) < HEADER
  }

  lemma CompleteFaultsExactly(w: seq<byte>, rest: seq<byte>)
    requires |w| == HEADER
    ensures Complete(w, rest) == Fault <==> ShorterThanHeader(w)
  {
  }

  /** The reader leaves its block exactly on the streams in which the first window that
      ends the search announces fewer than ten bytes. */
  lemma FaultExactly(q: seq<byte>)
    ensures AsWritten(q) == Fault <==>
      exists k :: PassesTo(q, k) && StopsAt(Window(q, k)) && ShorterThanHeader(Window(q, k))
  {
    if AsWritten(q) == Fault {
      var k := SearchEnds(q, 0);
      SearchStops(q, k);
      CompleteFaultsExactly(Window(q, k), q[HEADER + k..]);
    }
    if k :| PassesTo(q, k) && StopsAt(Window(q, k)) && ShorterThanHeader(Window(q, k)) {
      SearchStops(q, k);
      CompleteFaultsExactly(Window(q, k), q[HEADER + k..]);
    }
  }

  /** On an aligned stream: exactly if the header there announces fewer than ten bytes. */
  lemma AlignedFaultExactly(q: seq<byte>)
    requires |q| >= HEADER && q[..4] == START
    ensures AsWritten(q) == Fault <==> ShorterThanHeader(q[..HEADER])
  {
    var w := q[..HEADER];
    assert PassesTo(q, 0) && Window(q, 0) == w && q[HEADER + 0..] == q[HEADER..];
    assert w[0] == q[..4][0];
    SearchStops(q, 0);
    CompleteFaultsExactly(w, q[HEADER..]);
  }

  // ----- the outcome on the stream itself -----

  /** The stream's byte that comes to place i of the first eight, counted from the first
      window on: bytes 8 and 9 are passed over. */
  function Kept(q: seq<byte>, i: nat): byte
    requires i + 2 < |q|
  {
    if i < 8 then q[i] else q[i + 2]
  }

  lemma WindowBytes(q: seq<byte>, k: nat)
    requires HEADER + k <= |q|
    ensures var w := Window(q, k);
      && (forall i :: 0 <= i < 8 ==> w[i] == Kept(q, k + i))
      && (if k == 0 then w == q[..10] else w[8] == w[9] == q[9])
  {
  }

  /** What stops the search: an 'S', an 'M', an 'S' or a 'G' in its place is enough. */
  ghost predicate Hit(q: seq<byte>, k: nat)
    requires HEADER + k <= |q|
  {
    Kept(q, k) == 83 || Kept(q, k + 1) == 77 || Kept(q, k + 2) == 83 || Kept(q, k + 3) == 71
  }

  lemma HitStops(q: seq<byte>, k: nat)
    requires HEADER + k <= |q|
    ensures StopsAt(Window(q, k)) <==> Hit(q, k)
  {
    WindowBytes(q, k);
  }

  lemma HitsPass(q: seq<byte>, n: nat)
    requires HEADER + n <= |q| && forall k :: 0 <= k < n ==> !Hit(q, k)
    ensures PassesTo(q, n)
  {
    forall k | 0 <= k < n
      ensures !StopsAt(Window(q, k))
    {
      HitStops(q, k);
    }
  }

  /** The bytes that a header asks for. */
  lemma CompleteBytes(w: seq<byte>, rest: seq<byte>)
    requires |w| == 10
    ensures var size := Word(w, 6);
      Complete(w, rest) ==
        if size < 10 then Fault
        else if 10 + |rest| < size then Dry
        else Got(w + rest[..size - 10], rest[size - 10..])
  {
    FourBytes(w[6..10]);
  }

  /** Any of the four bytes in its place among the first ten ends the search at once,
      with these ten bytes for a header. */
  lemma FirstTenTaken(q: seq<byte>)
    requires |q| >= 10 && (q[0] == 83 || q[1] == 77 || q[2] == 83 || q[3] == 71)
    ensures var size := Word(q, 6);
      AsWritten(q) ==
        if size < 10 then Fault else if |q| < size then Dry else Got(q[..size], q[size..])
  {
    HitsPass(q, 0);
    HitStops(q, 0);
    SearchStops(q, 0);
    var w := q[..10];
    assert q[HEADER + 0..] == q[10..];
    CompleteBytes(w, q[10..]);
    TakenTogether(q, BEVal(w[6..10]));
    FourBytes(w[6..10]);
  }

  lemma TakenTogether(q: seq<byte>, size: nat)
    ensures 10 <= size <= |q| ==> q[..10] + q[10..][..size - 10] == q[..size] && q[10..][size - 10..] == q[size..]
  {
  }

  /** The ten bytes in a later window. */
  function LaterWindow(q: seq<byte>, k: nat): seq<byte>
    requires 1 <= k && 10 + k <= |q|
  {
    [Kept(q, k), Kept(q, k + 1), Kept(q, k + 2), Kept(q, k + 3),
     Kept(q, k + 4), Kept(q, k + 5), Kept(q, k + 6), Kept(q, k + 7), q[9], q[9]]
  }

  lemma LaterWindowBytes(q: seq<byte>, k: nat)
    requires 1 <= k && 10 + k <= |q|
    ensures Window(q, k) == LaterWindow(q, k)
  {
    WindowBytes(q, k);
    var w := LaterWindow(q, k);
    assert forall i :: 0 <= i < 8 ==> w[i] == Kept(q, k + i);
  }

  lemma LaterRest(q: seq<byte>, k: nat, size: nat)
    requires 10 + k <= |q|
    ensures var rest := q[10 + k..];
      10 <= size && size - 10 <= |rest| ==>
        rest[..size - 10] == q[10 + k..k + size] && rest[size - 10..] == q[k + size..]
  {
  }

  /** Otherwise it ends at the first window that has one of them in its place. That window
      is taken for a header and so many bytes for the message as it announces, of which
      the first ten are not those that the stream has there. */
  lemma LaterWindowTaken(q: seq<byte>, k: nat)
    requires 1 <= k && 10 + k <= |q| && Hit(q, k) && forall j :: 0 <= j < k ==> !Hit(q, j)
    ensures var a: int, b: int, d: int := Kept(q, k + 6), Kept(q, k + 7), q[9];
      var size := ((a * 256 + b) * 256 + d) * 256 + d;
      AsWritten(q) ==
        if size < 10 then Fault
        else if |q| < k + size then Dry
        else Got(LaterWindow(q, k) + q[10 + k..k + size], q[k + size..])
  {
    HitsPass(q, k);
    HitStops(q, k);
    SearchStops(q, k);
    LaterWindowBytes(q, k);
    var w, rest := LaterWindow(q, k), q[10 + k..];
    CompleteBytes(w, rest);
    var size := BEVal(w[6..10]);
    FourBytes(w[6..10]);
    LaterRest(q, k, size);
  }

  /** If no window has one of them, or there are no ten bytes, the reader waits for more. */
  lemma NothingTaken(q: seq<byte>)
    requires forall k :: 0 <= k <= |q| - 10 ==> !Hit(q, k)
    ensures AsWritten(q) == Dry
  {
    if |q| >= 10 {
      var n := |q| - 10;
      HitsPass(q, n);
      HitStops(q, n);
      SearchExhausted(q, n);
    }
  }

  // ----- the search as documented -----

  predicate StartsAt(q: seq<byte>, k: nat) {
    k + 4 <= |q| && q[k..k + 4] == START
  }

  ghost predicate NoStartBefore(q: seq<byte>, k: nat) {
    forall j :: 0 <= j < k ==> !StartsAt(q, j)
  }

  /** Discarding the first byte and appending a new one until the window starts a message. */
  function Slide(w: seq<byte>, rest: seq<byte>): (r: Option<(seq<byte>, seq<byte>)>)
    requires |w| == HEADER
    ensures r.Some? ==> |r.value.0| == HEADER
    decreases |rest|
  {
    if w[..4] == START then Some((w, rest))
    else if rest == [] then None
    else Slide(w[1..] + [rest[0]], rest[1..])
  }

  function Documented(q: seq<byte>): Outcome {
    if |q| < HEADER then Dry
    else
      match Slide(q[..HEADER], q[HEADER..])
      case None => Dry
      case Some((w, rest)) => Complete(w, rest)
  }

  lemma {:induction false} SlideFrom(q: seq<byte>, k: nat, n: nat)
    requires k <= n && n + HEADER <= |q| && NoStartBefore(q, n)
    ensures Slide(q[k..k + HEADER], q[k + HEADER..]) == Slide(q[n..n + HEADER], q[n + HEADER..])
    decreases n - k
  {
    if k < n {
      var w, rest := q[k..k + HEADER], q[k + HEADER..];
      assert !StartsAt(q, k);
      assert w[..4] == q[k..k + 4];
      assert w[1..] + [rest[0]] == q[k + 1..k + 1 + HEADER];
      assert rest[1..] == q[k + 1 + HEADER..];
      SlideFrom(q, k + 1, n);
    }
  }

  lemma HeaderOfMessage(m: Msg)
    requires ValidMsg(m)
    ensures var e := EncodeMsg(m); e[..4] == START && BEVal(e[6..10]) == |e|
  {
    HeaderFields(m.id, MsgLength(m), EncodeParts(m.parts));
  }

  lemma BehindJunk(junk: seq<byte>, e: seq<byte>, rest: seq<byte>)
    requires |e| >= HEADER
    ensures var q, k := junk + e + rest, |junk|;
      k + HEADER <= |q| && q[k..k + HEADER] == e[..HEADER] && q[HEADER + k..] == e[HEADER..] + rest
  {
  }

  /** A message in a stream, the junk in front of it and what follows. */
  lemma StreamParts(junk: seq<byte>, m: Msg, rest: seq<byte>)
    requires ValidMsg(m)
    ensures var q, e, k := junk + EncodeMsg(m) + rest, EncodeMsg(m), |junk|;
      && k + HEADER <= |q|
      && q[k..k + HEADER] == e[..HEADER]
      && q[HEADER + k..] == e[HEADER..] + rest
      && e[..4] == START && BEVal(e[6..10]) == |e|
  {
    HeaderOfMessage(m);
    BehindJunk(junk, EncodeMsg(m), rest);
  }

  /** A header in the window completes to its message. */
  lemma CompletesMessage(m: Msg, rest: seq<byte>)
    requires ValidMsg(m)
    ensures Complete(EncodeMsg(m)[..HEADER], EncodeMsg(m)[HEADER..] + rest) == Got(EncodeMsg(m), rest)
  {
    var e := EncodeMsg(m);
    StreamParts([], m, rest);
    assert e[..HEADER][6..10] == e[6..10];
    assert (e[HEADER..] + rest)[..|e| - HEADER] == e[HEADER..];
    assert (e[HEADER..] + rest)[|e| - HEADER..] == rest;
    assert e[..HEADER] + e[HEADER..] == e;
  }

  /** Resynchronisation as documented: whatever junk precedes the first "SMSG", the
      message there is obtained and nothing behind it is touched. */
  lemma DocumentedResync(junk: seq<byte>, m: Msg, rest: seq<byte>)
    requires ValidMsg(m)
    requires NoStartBefore(junk + EncodeMsg(m) + rest, |junk|)
    ensures Documented(junk + EncodeMsg(m) + rest) == Got(EncodeMsg(m), rest)
  {
    var q := junk + EncodeMsg(m) + rest;
    StreamParts(junk, m, rest);
    SlideFrom(q, 0, |junk|);
    assert q[0..0 + HEADER] == q[..HEADER];
    assert EncodeMsg(m)[..HEADER][..4] == EncodeMsg(m)[..4];
    CompletesMessage(m, rest);
  }

  /** Without a start in the stream, ten bytes or more before its end, the search as
      documented waits for more. */
  lemma DocumentedDry(q: seq<byte>)
    requires forall j :: 0 <= j <= |q| - HEADER ==> !StartsAt(q, j)
    ensures Documented(q) == Dry
  {
    if |q| >= HEADER {
      var n := |q| - HEADER;
      SlideFrom(q, 0, n);
      assert q[0..0 + HEADER] == q[..HEADER];
      assert q[n..n + HEADER][..4] == q[n..n + 4];
      assert !StartsAt(q, n);
      assert q[n + HEADER..] == [];
    }
  }

  // ----- the two compared -----

  lemma MessageStops(w: seq<byte>, e: seq<byte>)
    requires |e| >= HEADER && w == e[..HEADER] && e[..4] == START
    ensures StopsAt(w)
  {
    assert w[0] == e[..4][0];
  }

  /** Stream fidelity rests on this: at the start of a message the search as written
      obtains it. */
  lemma AlignedMessage(m: Msg, rest: seq<byte>)
    requires ValidMsg(m)
    ensures AsWritten(EncodeMsg(m) + rest) == Got(EncodeMsg(m), rest)
  {
    var q := EncodeMsg(m) + rest;
    var e := EncodeMsg(m);
    StreamParts([], m, rest);
    assert [] + e == e;
    FirstWindow(q, e, rest);
    MessageStops(e[..HEADER], e);
    SearchStops(q, 0);
    CompletesMessage(m, rest);
  }

  lemma FirstWindow(q: seq<byte>, e: seq<byte>, rest: seq<byte>)
    requires |e| >= HEADER && q == e + rest
    ensures PassesTo(q, 0) && Window(q, 0) == e[..HEADER] && q[HEADER + 0..] == e[HEADER..] + rest
  {
  }

  /** No byte of the junk stops the search early, and the bytes it assembles in the
      window happen to be the message's header. */
  ghost predicate Survives(q: seq<byte>, k: nat, header: seq<byte>) {
    PassesTo(q, k) && Window(q, k) == header
  }

  /** Junk that does no harm: a single byte that is not an 'S', before a message of which
      the last three bytes of the length are the same. */
  predicate HarmlessJunk(junk: seq<byte>, header: seq<byte>)
    requires |header| == HEADER
  {
    |junk| == 1 && junk[0] != START[0] && header[7] == header[8] == header[9]
  }

  /** The search as written meets the documentation exactly when there is no junk or
      the junk is of the harmless kind. */
  lemma ResyncExactly(junk: seq<byte>, m: Msg, rest: seq<byte>)
    requires ValidMsg(m)
    requires NoStartBefore(junk + EncodeMsg(m) + rest, |junk|)
    ensures
      var q := junk + EncodeMsg(m) + rest;
      AsWritten(q) == Documented(q) <==>
      junk == [] || HarmlessJunk(junk, EncodeMsg(m)[..HEADER])
  {
    var q, e, n := junk + EncodeMsg(m) + rest, EncodeMsg(m), |junk|;
    DocumentedResync(junk, m, rest);
    StreamParts(junk, m, rest);
    if junk == [] {
      NoJunk(e, rest);
      AlignedMessage(m, rest);
    } else {
      SurvivesExactly(q, junk, e);
      if AsWritten(q) == Got(e, rest) {
        OnlySurvivors(q, n, e, rest);
      }
      if Survives(q, n, e[..HEADER]) {
        SurvivorObtains(q, n, m, rest);
      }
    }
  }

  /** Behind more than one byte of junk an 'S' of the message comes to the third place of
      the window before the first, and ends the search there. Behind one byte the window
      has the wrong byte at 7 and at 9, which must not make a difference. */
  lemma SurvivesExactly(q: seq<byte>, junk: seq<byte>, e: seq<byte>)
    requires junk != [] && |e| >= HEADER && e[..4] == START && junk + e <= q
    ensures Survives(q, |junk|, e[..HEADER]) <==> HarmlessJunk(junk, e[..HEADER])
  {
    var k := |junk|;
    MessageAt(q, junk, e);
    if k >= 2 {
      SecondStops(q, k);
    } else {
      OneByteOfJunk(q, junk[0], e[..HEADER]);
    }
  }

  lemma MessageAt(q: seq<byte>, junk: seq<byte>, e: seq<byte>)
    requires |e| >= HEADER && e[..4] == START && junk + e <= q
    ensures var k := |junk|;
      && k + HEADER <= |q| && (forall i :: 0 <= i < k ==> q[i] == junk[i])
      && (forall i :: 0 <= i < HEADER ==> q[k + i] == e[i])
      && e[0] == START[0] && e[1] == START[1] && e[2] == START[2] && e[3] == START[3]
  {
    var k := |junk|;
    assert forall i :: 0 <= i < |junk + e| ==> q[i] == (junk + e)[i];
    assert forall i :: 0 <= i < 4 ==> e[i] == e[..4][i];
  }

  lemma SecondStops(q: seq<byte>, k: nat)
    requires 2 <= k && k + HEADER <= |q|
    requires q[k] == START[0] && q[k + 2] == START[2]
    ensures !PassesTo(q, k)
  {
    var j := if k < 10 then k - 2 else k - 4;
    assert Window(q, j)[2] == START[2];
    assert StopsAt(Window(q, j));
  }

  lemma OneByteOfJunk(q: seq<byte>, b: byte, h: seq<byte>)
    requires |h| == HEADER && |q| >= 1 + HEADER && q[0] == b
    requires forall i :: 0 <= i < HEADER ==> q[1 + i] == h[i]
    requires h[0] == START[0] && h[1] == START[1] && h[2] == START[2] && h[3] == START[3]
    ensures Survives(q, 1, h) <==> HarmlessJunk([b], h)
  {
    var v, w := Window(q, 0), Window(q, 1);
    assert v[0] == b && v[1] == h[0] && v[2] == h[1] && v[3] == h[2];
    assert PassesTo(q, 1) <==> b != START[0];
    assert forall i :: 0 <= i < 7 ==> w[i] == h[i];
    assert w[7] == h[9] && w[8] == h[8] && w[9] == h[8];
  }

  lemma NoJunk(e: seq<byte>, rest: seq<byte>)
    ensures [] + e + rest == e + rest
  {
    assert [] + e == e;
  }

  lemma SurvivorObtains(q: seq<byte>, n: nat, m: Msg, rest: seq<byte>)
    requires ValidMsg(m)
    requires Survives(q, n, EncodeMsg(m)[..HEADER])
    requires q[HEADER + n..] == EncodeMsg(m)[HEADER..] + rest && EncodeMsg(m)[..4] == START
    ensures AsWritten(q) == Got(EncodeMsg(m), rest)
  {
    MessageStops(EncodeMsg(m)[..HEADER], EncodeMsg(m));
    SearchStops(q, n);
    CompletesMessage(m, rest);
  }

  /** Obtaining e and leaving the rest takes as many turns as there is junk. */
  lemma OnlySurvivors(q: seq<byte>, n: nat, e: seq<byte>, rest: seq<byte>)
    requires |q| == n + |e| + |rest| && AsWritten(q) == Got(e, rest)
    ensures |e| >= HEADER && Survives(q, n, e[..HEADER])
  {
    var k := SearchEnds(q, 0);
    SearchStops(q, k);
    var w, unread := Window(q, k), q[HEADER + k..];
    var size := BEVal(w[6..10]);
    assert e == w + unread[..size - HEADER];
    assert rest == unread[size - HEADER..];
    assert k == n;
    assert e[..HEADER] == w;
  }

  /** Below 65793 bytes, which is 0x10101, no junk is harmless: the search as written
      meets the documentation exactly when the stream starts with the message. */
  lemma ShortMessagesNeedAlignment(junk: seq<byte>, m: Msg, rest: seq<byte>)
    requires ValidMsg(m) && MsgLength(m) < 0x10101
    requires NoStartBefore(junk + EncodeMsg(m) + rest, |junk|)
    ensures
      var q := junk + EncodeMsg(m) + rest;
      AsWritten(q) == Documented(q) <==> junk == []
  {
    ResyncExactly(junk, m, rest);
    LengthBytes(m);
  }

  lemma LengthBytes(m: Msg)
    requires ValidMsg(m)
    ensures var h := EncodeMsg(m)[..HEADER];
      var a: int, b: int, c: int, d: int := h[6], h[7], h[8], h[9];
      MsgLength(m) == ((a * 256 + b) * 256 + c) * 256 + d
  {
    var e := EncodeMsg(m);
    HeaderOfMessage(m);
    FourBytes(e[6..10]);
  }

  /** From there on some is: one stray byte before a message of 0x10101 bytes, which is
      a single text. */
  lemma StrayByteDoesNoHarm(stray: byte, id: uint16, chars: seq<byte>, rest: seq<byte>)
    requires stray != START[0] && |chars| == 0x10101 - 15
    ensures var m := Msg(id, [Text(chars)]); var q := [stray] + EncodeMsg(m) + rest;
      ValidMsg(m) && AsWritten(q) == Documented(q) == Got(EncodeMsg(m), rest)
  {
    var m := Msg(id, [Text(chars)]);
    var q := [stray] + EncodeMsg(m) + rest;
    OneTextLength(id, chars);
    EqualLengthBytes(m);
    assert !StartsAt(q, 0) by { assert q[0..4][0] == stray; }
    ResyncExactly([stray], m, rest);
    DocumentedResync([stray], m, rest);
  }

  lemma EqualLengthBytes(m: Msg)
    requires ValidMsg(m) && MsgLength(m) == 0x10101
    ensures var h := EncodeMsg(m)[..HEADER]; h[7] == h[8] == h[9]
  {
    LengthBytes(m);
  }

  lemma OneTextLength(id: uint16, chars: seq<byte>)
    requires 15 + |chars| < TWO_32
    ensures ValidMsg(Msg(id, [Text(chars)])) && MsgLength(Msg(id, [Text(chars)])) == 15 + |chars|
  {
    EncodePartsCons(Text(chars), []);
    assert [Text(chars)] + [] == [Text(chars)];
  }

  lemma EmptyMessageBytes(id: uint16)
    ensures var e := EncodeMsg(Msg(id, []));
      |e| == HEADER && e[..4] == START && e[6] == e[7] == e[8] == 0 && e[9] == 10
  {
    var e := EncodeMsg(Msg(id, []));
    assert e[6..10] == BE(10, 4);
    PowValues();
    BERoundTrip(10, 4);
    FourBytes(e[6..10]);
  }

  /** A single stray byte before an empty message: the documentation promises the
      message, the code misreads its length as 655360 and keeps waiting. */
  lemma StrayByteLosesMessage(stray: byte, id: uint16)
    requires stray != START[0]
    ensures var q := [stray] + EncodeMsg(Msg(id, [])) + [];
      Documented(q) == Got(EncodeMsg(Msg(id, [])), []) && AsWritten(q) == Dry
  {
    var e := EncodeMsg(Msg(id, []));
    var q := [stray] + e + [];
    EmptyMessageBytes(id);
    assert q == [stray] + e;
    assert !StartsAt(q, 0) by { assert q[0..4][0] == stray; }
    DocumentedResync([stray], Msg(id, []), []);
    StrayWindows(q, e, stray);
    SearchStops(q, 1);
  }

  lemma StrayWindows(q: seq<byte>, e: seq<byte>, stray: byte)
    requires stray != START[0] && q == [stray] + e
    requires |e| == HEADER && e[..4] == START && e[6] == e[7] == e[8] == 0 && e[9] == 10
    ensures PassesTo(q, 1) && StopsAt(Window(q, 1)) && Complete(Window(q, 1), q[HEADER + 1..]) == Dry
  {
    var w := Window(q, 0);
    assert e[0] == START[0] && e[1] == START[1] && e[2] == START[2] by {
      assert e[..4][0] == e[0] && e[..4][1] == e[1] && e[..4][2] == e[2];
    }
    assert w[0] == stray && w[1] == e[0] && w[2] == e[1] && w[3] == e[2];
    var v := Window(q, 1);
    assert v[0] == e[0];
    FourBytes(v[6..10]);
    assert q[7] == e[6] && q[9] == e[8] && q[10] == e[9];
    assert v[6] == 0 && v[7] == 10 && v[8] == 0 && v[9] == 0;
    assert BEVal(v[6..10]) == 655360;
    assert |q[HEADER + 1..]| == 0;
  }
}
