/** memcpy into and out of a byte buffer, with words in network order. */
module Memory {
  import opened Base
  import opened Endian

  method MemCopy(dst: array<byte>, off: nat, s: seq<byte>)
    requires off + |s| <= dst.Length
    modifies dst
    ensures dst[..] == old(dst[..])[..off] + s + old(dst[..])[off + |s|..]
  {
    for i := 0 to |s|
      invariant dst[..off] == old(dst[..off])
      invariant dst[off..off + i] == s[..i]
      invariant dst[off + i..] == old(dst[off + i..])
    {
      dst[off + i] := s[i];
      assert dst[off..off + i + 1] == dst[off..off + i] + [s[i]];
      assert dst[off + i + 1..] == old(dst[off + i..])[1..];
    }
    assert dst[..] == dst[..off] + dst[off..off + |s|] + dst[off + |s|..];
  }

  /** Copying b right behind a copies a + b. */
  lemma Adjacent(was: seq<byte>, mid: seq<byte>, now: seq<byte>, a: seq<byte>, b: seq<byte>,
                 off: nat, at: nat, end: nat)
    requires at == off + |a| && end == at + |b| <= |was|
    requires mid == was[..off] + a + was[at..]
    requires now == mid[..at] + b + mid[end..]
    ensures now == was[..off] + (a + b) + was[end..]
  {
  }

  lemma SliceOfPrefix(s: seq<byte>, n: nat, i: nat, j: nat)
    requires i <= j <= n <= |s|
    ensures s[..n][i..j] == s[i..j]
  {
  }

  lemma SliceAfter(s: seq<byte>, i: nat, j: nat)
    requires i <= j <= |s|
    ensures s[i..][..j - i] == s[i..j]
  {
  }

  /** memcpy of `see_host_to_network(x)` */
  method StoreNetwork(dst: array<byte>, off: nat, x: nat, w: nat)
    requires w == 2 || w == 4 || w == 8
    requires off + w <= dst.Length
    modifies dst
    ensures dst[..] == old(dst[..])[..off] + BE(x, w) + old(dst[..])[off + w..]
  {
    var net := HostToNetwork(x, w);
    HostToNetworkBytes(x, w);
    MemCopy(dst, off, LE(net, w));
  }

  /** memcpy out of a buffer, then `see_network_to_host` */
  method FetchNetwork(s: seq<byte>) returns (x: nat)
    requires |s| == 2 || |s| == 4 || |s| == 8
    ensures x == BEVal(s)
  {
    var net := LEVal(s);
    NetworkToHostValue(s);
    x := NetworkToHost(net, |s|);
  }

  // ----- C strings -----

  /** The characters of the C string at the start of a block of memory. */
  function CStr(mem: seq<byte>): (s: seq<byte>)
    ensures |s| <= |mem| && s == mem[..|s|]
    ensures 0 !in s
    ensures 0 in mem ==> |s| < |mem| && mem[|s|] == 0
  {
    if mem == [] || mem[0] == 0 then [] else [mem[0]] + CStr(mem[1..])
  }

  /** The block that strdup allocates. */
  function Strdup(mem: seq<byte>): seq<byte> {
    CStr(mem) + [0]
  }

  /** A C string ends at its first NUL. */
  lemma {:induction false} CStrUnique(s: seq<byte>, rest: seq<byte>)
    requires 0 !in s
    ensures CStr(s + [0] + rest) == s
  {
    if s != [] {
      assert (s + [0] + rest)[1..] == s[1..] + [0] + rest;
      CStrUnique(s[1..], rest);
    }
  }
}
