/** Rounding to multiples of a size, as in lfs_util.h. */
module Alignment {

  function AlignDown(a: nat, alignment: nat): (r: nat)
    requires alignment > 0
    ensures a - alignment < r <= a && r % alignment == 0
  {
    DownIs(a, alignment);
    a - a % alignment
  }

  lemma DownIs(a: nat, m: nat)
    requires m > 0
    ensures a - m < a - a % m <= a && (a - a % m) % m == 0
  {
    var q, r := a / m, a % m;
    assert a == q * m + r && r < m;
    Multiple(q, m);
  }

  function AlignUp(a: nat, alignment: nat): (r: nat)
    requires alignment > 0
    ensures a <= r < a + alignment && r % alignment == 0
  {
    AlignDown(a + alignment - 1, alignment)
  }

  lemma Multiple(q: nat, m: nat)
    requires m > 0
    ensures (q * m) % m == 0
  {
    var a := q * m;
    var p, r := a / m, a % m;
    assert a == p * m + r;
    assert (q - p) * m == r;
    SmallMultiple(q - p, m);
  }

  lemma SmallMultiple(d: int, m: nat)
    requires 0 <= d * m < m
    ensures d * m == 0
  {
  }

  /** A whole number of units before the end of a block of whole units leaves one unit. */
  lemma UnitLeft(a: nat, b: nat, m: nat)
    requires m > 0 && a % m == 0 && b % m == 0 && a < b
    ensures a + m <= b
  {
    var x, y := a / m, b / m;
    assert a == x * m && b == y * m;
    assert x < y;
    assert (x + 1) * m <= y * m;
  }

  lemma AlignUpAtMost(a: nat, b: nat, m: nat)
    requires m > 0 && b % m == 0 && a <= b
    ensures AlignUp(a, m) <= b
  {
    if AlignUp(a, m) > b { UnitLeft(b, AlignUp(a, m), m); }
  }

  function Min(a: nat, b: nat): nat { if a < b then a else b }

  lemma DividesTrans(a: nat, b: nat, c: nat)
    requires b > 0 && c > 0 && a % b == 0 && b % c == 0
    ensures a % c == 0
  {
    var x, y := a / b, b / c;
    assert a == x * b && b == y * c;
    assert x * (y * c) == (x * y) * c;
    Multiple(x * y, c);
  }

  lemma SumDivides(a: nat, b: nat, m: nat)
    requires m > 0 && a % m == 0 && b % m == 0
    ensures (a + b) % m == 0
  {
    var x, y := a / m, b / m;
    assert a + b == (x + y) * m;
    Multiple(x + y, m);
  }
}
