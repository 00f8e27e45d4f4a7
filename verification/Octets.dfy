/** Bytes as numbers, and numbers stored in them low byte first. */
module Octets {
  type Octet = x: int | 0 <= x < 0x100

  const WORD := 0x1_0000_0000

  function LE16(lo: Octet, hi: Octet): nat {
    var l: int, h: int := lo, hi;
    l + 0x100 * h
  }

  function LE32(s: seq<Octet>, at: nat): nat
    requires at + 4 <= |s|
  {
    var b0: int, b1: int, b2: int, b3: int := s[at], s[at + 1], s[at + 2], s[at + 3];
    b0 + 0x100 * b1 + 0x1_0000 * b2 + 0x100_0000 * b3
  }

  function ToLE32(n: nat): (r: seq<Octet>)
    requires n < WORD
    ensures |r| == 4 && LE32(r, 0) == n
  {
    var q1 := n / 0x100;
    var q2 := q1 / 0x100;
    var q3 := q2 / 0x100;
    [n % 0x100, q1 % 0x100, q2 % 0x100, q3]
  }
}
