/** A byte as eight bits. */
module ByteBits {
  lemma Successor(x: bv8)
    requires x as int < 255
    ensures (x + 1) as int == x as int + 1
  {
  }

  /** The eight bits that stand for b. */
  function ByteToBits(b: int): (x: bv8)
    requires 0 <= b < 256
    ensures x as int == b
  {
    if b == 0 then 0
    else
      Successor(ByteToBits(b - 1));
      ByteToBits(b - 1) + 1
  }
}

/** The mask-and-shift byte swaps of src/utilities.c, and words as bytes in memory. */
module Bits {
  function Swap16(input: bv16): bv16 {
    ((input & 0xff00) >> 8) | ((input & 0x00ff) << 8)
  }

  function Swap32(input: bv32): bv32 {
    ((input & 0xff000000) >> 24) |
    ((input & 0x00ff0000) >>  8) |
    ((input & 0x0000ff00) <<  8) |
    ((input & 0x000000ff) << 24)
  }

  function Swap64(input: bv64): bv64 {
    ((input & 0xff00000000000000) >> 56) |
    ((input & 0x00ff000000000000) >> 40) |
    ((input & 0x0000ff0000000000) >> 24) |
    ((input & 0x000000ff00000000) >>  8) |
    ((input & 0x00000000ff000000) <<  8) |
    ((input & 0x0000000000ff0000) << 24) |
    ((input & 0x000000000000ff00) << 40) |
    ((input & 0x00000000000000ff) << 56)
  }

  // ----- a word from its bytes, lowest address first, and back -----

  function Word16(b0: bv8, b1: bv8): bv16 {
    (b0 as bv16) | ((b1 as bv16) << 8)
  }

  function Word32(b0: bv8, b1: bv8, b2: bv8, b3: bv8): bv32 {
    (b0 as bv32) | ((b1 as bv32) << 8) | ((b2 as bv32) << 16) | ((b3 as bv32) << 24)
  }

  function Word64(b0: bv8, b1: bv8, b2: bv8, b3: bv8, b4: bv8, b5: bv8, b6: bv8, b7: bv8): bv64 {
    (b0 as bv64) | ((b1 as bv64) << 8) | ((b2 as bv64) << 16) | ((b3 as bv64) << 24) |
    ((b4 as bv64) << 32) | ((b5 as bv64) << 40) | ((b6 as bv64) << 48) | ((b7 as bv64) << 56)
  }

  function Store16(x: bv16): seq<bv8> {
    [(x & 0xff) as bv8, ((x >> 8) & 0xff) as bv8]
  }

  function Store32(x: bv32): seq<bv8> {
    [(x & 0xff) as bv8, ((x >> 8) & 0xff) as bv8, ((x >> 16) & 0xff) as bv8, ((x >> 24) & 0xff) as bv8]
  }

  function Store64(x: bv64): seq<bv8> {
    [(x & 0xff) as bv8, ((x >> 8) & 0xff) as bv8, ((x >> 16) & 0xff) as bv8, ((x >> 24) & 0xff) as bv8,
     ((x >> 32) & 0xff) as bv8, ((x >> 40) & 0xff) as bv8, ((x >> 48) & 0xff) as bv8, ((x >> 56) & 0xff) as bv8]
  }

  // A stored word gives its bytes back; a swapped one, in the opposite order.

  lemma Swapped16(b0: bv8, b1: bv8)
    ensures Store16(Swap16(Word16(b0, b1))) == [b1, b0]
  {
  }

  lemma Swapped32(b0: bv8, b1: bv8, b2: bv8, b3: bv8)
    ensures Store32(Swap32(Word32(b0, b1, b2, b3))) == [b3, b2, b1, b0]
  {
  }

  lemma Swapped64(b0: bv8, b1: bv8, b2: bv8, b3: bv8, b4: bv8, b5: bv8, b6: bv8, b7: bv8)
    ensures Store64(Swap64(Word64(b0, b1, b2, b3, b4, b5, b6, b7))) == [b7, b6, b5, b4, b3, b2, b1, b0]
  {
  }

  /** A word of 2, 4 or 8 bytes in memory, swapped. */
  function SwapStored(b: seq<bv8>): seq<bv8>
    requires |b| == 2 || |b| == 4 || |b| == 8
  {
    if |b| == 2 then Store16(Swap16(Word16(b[0], b[1])))
    else if |b| == 4 then Store32(Swap32(Word32(b[0], b[1], b[2], b[3])))
    else Store64(Swap64(Word64(b[0], b[1], b[2], b[3], b[4], b[5], b[6], b[7])))
  }

  ghost predicate Backwards(b: seq<bv8>, r: seq<bv8>) {
    |r| == |b| && forall i :: 0 <= i < |b| ==> r[i] == b[|b| - 1 - i]
  }

  lemma SwapStoredBackwards(b: seq<bv8>)
    requires |b| == 2 || |b| == 4 || |b| == 8
    ensures Backwards(b, SwapStored(b))
  {
    if |b| == 2 {
      Swapped16(b[0], b[1]);
    } else if |b| == 4 {
      Swapped32(b[0], b[1], b[2], b[3]);
    } else {
      SwapStoredBackwards8(b);
    }
  }

  lemma SwapStoredBackwards8(b: seq<bv8>)
    requires |b| == 8
    ensures Backwards(b, SwapStored(b))
  {
    Swapped64(b[0], b[1], b[2], b[3], b[4], b[5], b[6], b[7]);
    EightBackwards(b);
  }

  lemma EightBackwards(b: seq<bv8>)
    requires |b| == 8
    ensures Backwards(b, [b[7], b[6], b[5], b[4], b[3], b[2], b[1], b[0]])
  {
  }

  lemma SwapInvolution(x: bv16, y: bv32, z: bv64)
    ensures Swap16(Swap16(x)) == x && Swap32(Swap32(y)) == y && Swap64(Swap64(z)) == z
  {
  }
}

/** Byte order (src/utilities.c) on a little-endian host.

    A word is tied to its value and to its bytes in memory by `LE`, so that
    `HostToNetwork(n, 4)` is the integer the C function returns for the integer n. */
module Endian {
  import opened Base
  import opened Bits
  import opened ByteBits

  // ----- radix-256 numerals -----

  function Pow256(w: nat): (r: nat)
    ensures r > 0
  {
    if w == 0 then 1 else 256 * Pow256(w - 1)
  }

  /** The w bytes of x, most significant first: network byte order. */
  function BE(x: nat, w: nat): (s: seq<byte>)
    ensures |s| == w
  {
    if w == 0 then [] else BE(x / 256, w - 1) + [x % 256]
  }

  function BEVal(s: seq<byte>): (r: nat)
    ensures r < Pow256(|s|)
  {
    if s == [] then 0 else BEVal(s[..|s| - 1]) * 256 + s[|s| - 1]
  }

  /** The w bytes of x, least significant first: the host's memory. */
  function LE(x: nat, w: nat): (s: seq<byte>)
    ensures |s| == w
  {
    if w == 0 then [] else [x % 256] + LE(x / 256, w - 1)
  }

  function LEVal(s: seq<byte>): (r: nat)
    ensures r < Pow256(|s|)
  {
    if s == [] then 0 else s[0] + 256 * LEVal(s[1..])
  }

  lemma PowValues()
    ensures Pow256(0) == 1 && Pow256(1) == 256
    ensures Pow256(2) == TWO_16 && Pow256(4) == TWO_32 && Pow256(8) == TWO_64
  {
  }

  /** Network byte order of four bytes, written out. */
  lemma FourBytes(s: seq<byte>)
    requires |s| == 4
    ensures var a: int, b: int, c: int, d: int := s[0], s[1], s[2], s[3];
      BEVal(s) == ((a * 256 + b) * 256 + c) * 256 + d
  {
    var t, u := s[..3], s[..3][..2];
    assert BEVal(u[..1]) == u[0] by { assert u[..1][..0] == []; }
    assert BEVal(u) == BEVal(u[..1]) * 256 + u[1];
    assert BEVal(t) == BEVal(u) * 256 + t[2];
  }

  /** Of eight bytes: the first four are the upper half. */
  lemma EightBytes(s: seq<byte>)
    requires |s| == 8
    ensures BEVal(s) == BEVal(s[..4]) * TWO_32 + BEVal(s[4..])
  {
    ShiftIn(s, 5);
    ShiftIn(s, 6);
    ShiftIn(s, 7);
    ShiftIn(s, 8);
    FourBytes(s[4..]);
  }

  lemma ShiftIn(s: seq<byte>, n: nat)
    requires 0 < n <= |s|
    ensures BEVal(s[..n]) == BEVal(s[..n - 1]) * 256 + s[n - 1]
    ensures n == |s| ==> s[..n] == s
  {
    assert s[..n][..n - 1] == s[..n - 1];
  }

  lemma DivModBase(b: byte, q: nat)
    ensures (b + 256 * q) / 256 == q && (b + 256 * q) % 256 == b
  {
  }

  lemma {:induction false} BERoundTrip(x: nat, w: nat)
    requires x < Pow256(w)
    ensures BEVal(BE(x, w)) == x
  {
    if w > 0 {
      BERoundTrip(x / 256, w - 1);
      assert BE(x, w)[..w - 1] == BE(x / 256, w - 1);
    }
  }

  lemma {:induction false} BEValRoundTrip(s: seq<byte>)
    ensures BE(BEVal(s), |s|) == s
  {
    if s != [] {
      BEValRoundTrip(s[..|s| - 1]);
      DivModBase(s[|s| - 1], BEVal(s[..|s| - 1]));
      assert s == s[..|s| - 1] + [s[|s| - 1]];
    }
  }

  lemma {:induction false} LEValRoundTrip(s: seq<byte>)
    ensures LE(LEVal(s), |s|) == s
  {
    if s != [] {
      LEValRoundTrip(s[1..]);
      DivModBase(s[0], LEVal(s[1..]));
    }
  }

  lemma {:induction false} LERoundTrip(x: nat, w: nat)
    requires x < Pow256(w)
    ensures LEVal(LE(x, w)) == x
  {
    if w > 0 {
      LERoundTrip(x / 256, w - 1);
    }
  }

  function Reversed(s: seq<byte>): (r: seq<byte>)
    ensures |r| == |s|
  {
    if s == [] then [] else Reversed(s[1..]) + [s[0]]
  }

  /** Big-endian bytes are the host's bytes in reverse order. */
  lemma {:induction false} BEIsReversedLE(x: nat, w: nat)
    ensures BE(x, w) == Reversed(LE(x, w))
  {
    if w > 0 {
      BEIsReversedLE(x / 256, w - 1);
      assert LE(x, w)[1..] == LE(x / 256, w - 1);
    }
  }

  lemma {:induction false} ReversedTwice(s: seq<byte>)
    ensures Reversed(Reversed(s)) == s
  {
    if s != [] {
      ReversedTwice(s[1..]);
      ReversedAppend(Reversed(s[1..]), s[0]);
    }
  }

  lemma {:induction false} ReversedAppend(s: seq<byte>, b: byte)
    ensures Reversed(s + [b]) == [b] + Reversed(s)
  {
    if s != [] {
      assert (s + [b])[1..] == s[1..] + [b];
      ReversedAppend(s[1..], b);
    }
  }

  // ----- host and network order -----

  function ToBits(s: seq<byte>): (r: seq<bv8>)
    ensures |r| == |s|
  {
    seq(|s|, i requires 0 <= i < |s| => ByteToBits(s[i]))
  }

  function FromBits(s: seq<bv8>): (r: seq<byte>)
    ensures |r| == |s|
  {
    seq(|s|, i requires 0 <= i < |s| => s[i] as int)
  }

  /** `see_swap_endianess16/32/64`, on the bytes of the word in memory. */
  function SwapBytes(s: seq<byte>): seq<byte>
    requires |s| == 2 || |s| == 4 || |s| == 8
  {
    FromBits(SwapStored(ToBits(s)))
  }

  lemma ReversedBits(s: seq<byte>, r: seq<bv8>)
    requires Backwards(ToBits(s), r)
    ensures FromBits(r) == Reversed(s)
  {
    forall i | 0 <= i < |s|
      ensures FromBits(r)[i] == Reversed(s)[i]
    {
      ReversedAt(s, i);
    }
  }

  lemma SwapBytesReverses(s: seq<byte>)
    requires |s| == 2 || |s| == 4 || |s| == 8
    ensures SwapBytes(s) == Reversed(s)
  {
    SwapStoredBackwards(ToBits(s));
    ReversedBits(s, SwapStored(ToBits(s)));
  }

  lemma {:induction false} ReversedAt(s: seq<byte>, i: nat)
    requires i < |s|
    ensures Reversed(s)[i] == s[|s| - 1 - i]
  {
    if i < |s| - 1 {
      ReversedAt(s[1..], i);
    }
  }

  /** `see_swap_endianess16/32/64` on a word of w bytes held as an integer. */
  function SwapWord(x: nat, w: nat): (r: nat)
    requires w == 2 || w == 4 || w == 8
    ensures r < Pow256(w)
  {
    SwapBytesReverses(LE(x, w));
    LEVal(SwapBytes(LE(x, w)))
  }

  /** `see_host_to_network16/32/64` */
  function HostToNetwork(x: nat, w: nat): (r: nat)
    requires w == 2 || w == 4 || w == 8
    ensures r < Pow256(w)
  {
    SwapWord(x, w)
  }

  /** `see_network_to_host16/32/64` */
  function NetworkToHost(x: nat, w: nat): (r: nat)
    requires w == 2 || w == 4 || w == 8
    ensures r < Pow256(w)
  {
    SwapWord(x, w)
  }

  /** What memcpy writes after host_to_network: the big-endian bytes of the value. */
  lemma HostToNetworkBytes(x: nat, w: nat)
    requires w == 2 || w == 4 || w == 8
    ensures LE(HostToNetwork(x, w), w) == BE(x, w)
  {
    SwapBytesReverses(LE(x, w));
    LEValRoundTrip(SwapBytes(LE(x, w)));
    BEIsReversedLE(x, w);
  }

  /** What network_to_host makes of bytes fetched by memcpy: their big-endian value. */
  lemma NetworkToHostValue(s: seq<byte>)
    requires |s| == 2 || |s| == 4 || |s| == 8
    ensures NetworkToHost(LEVal(s), |s|) == BEVal(s)
  {
    var w := |s|;
    LEValRoundTrip(s);
    SwapBytesReverses(s);
    BEIsReversedLE(BEVal(s), w);
    BEValRoundTrip(s);
    ReversedTwice(LE(BEVal(s), w));
    LERoundTrip(BEVal(s), w);
  }

  lemma NetworkToHostUndoes(x: nat, w: nat)
    requires w == 2 || w == 4 || w == 8
    requires x < Pow256(w)
    ensures NetworkToHost(HostToNetwork(x, w), w) == x
  {
    HostToNetworkBytes(x, w);
    LERoundTrip(HostToNetwork(x, w), w);
    NetworkToHostValue(BE(x, w));
    BERoundTrip(x, w);
  }
}
