/** Bytes as bits, and blocks of them that are written piece by piece. */
module Bytes {
  type Byte = bv8

  predicate SamePrefix(a: seq<Byte>, b: seq<Byte>, n: nat) {
    |a| == |b| && n <= |a| && a[..n] == b[..n]
  }

  /** `bytes` put into a block at an offset. */
  function Patch(s: seq<Byte>, off: nat, bytes: seq<Byte>): (r: seq<Byte>)
    requires off + |bytes| <= |s|
    ensures |r| == |s| && SamePrefix(s, r, off) && r[off..off + |bytes|] == bytes
    ensures r[off + |bytes|..] == s[off + |bytes|..]
  {
    var r := s[..off] + bytes + s[off + |bytes|..];
    assert r[..off] == s[..off];
    r
  }
}
