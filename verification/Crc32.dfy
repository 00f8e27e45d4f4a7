/** The CRC-32 of littlefs: generator 0x04c11db7 (IEEE 802.3 clause 3.2.9), reflected, with
    no final inversion, computed four bits at a time from a table of sixteen words. */
module Crc32 {

  // The generator with its bits reversed.
  const POLYNOMIAL: bv32 := 0xedb88320

  function Xor(a: bv32, b: bv32): bv32 { a ^ b }

  function DropNibble(a: bv32): bv32 { a >> 4 }

  /** The register after shifting in one zero bit. */
  function ShiftBit(crc: bv32): bv32 {
    if Odd(crc) then Xor(Half(crc), POLYNOMIAL) else Half(crc)
  }

  predicate Odd(x: bv32) { x & 1 == 1 }

  function Half(x: bv32): bv32 { x >> 1 }

  function Shift(crc: bv32, bits: nat): bv32 {
    if bits == 0 then crc else ShiftBit(Shift(crc, bits - 1))
  }

  lemma {:induction false} ShiftTwice(crc: bv32, m: nat, n: nat)
    ensures Shift(Shift(crc, m), n) == Shift(crc, m + n)
  {
    if n == 0 {
    } else {
      ShiftTwice(crc, m, n - 1);
    }
  }

  /** The bitwise definition: each byte is added to the low end of the register, which is
      then shifted once for each of its eight bits. */
  function Crc(crc: bv32, data: seq<bv8>): bv32 {
    if data == [] then crc
    else AddByte(Crc(crc, data[..|data| - 1]), data[|data| - 1])
  }

  function AddByte(crc: bv32, b: bv8): bv32 { Shift(Xor(crc, b as bv32), BITS()) }

  function BITS(): nat { 8 }

  // ---- The table-driven loop ----

  function Table(i: bv32): bv32 {
    match i
    case 0 => 0x00000000
    case 1 => 0x1db71064
    case 2 => 0x3b6e20c8
    case 3 => 0x26d930ac
    case 4 => 0x76dc4190
    case 5 => 0x6b6b51f4
    case 6 => 0x4db26158
    case 7 => 0x5005713c
    case 8 => 0xedb88320
    case 9 => 0xf00f9344
    case 10 => 0xd6d6a3e8
    case 11 => 0xcb61b38c
    case 12 => 0x9b64c2b0
    case 13 => 0x86d3d2d4
    case 14 => 0xa00ae278
    case _ => 0xbdbdf21c
  }

  /** The table holds what shifting four bits makes of each value of them. */
  lemma TableOfNibble(low: bv32, n: nat)
    requires low < 0x10 && n == 4
    ensures Shift(low, n) == Table(low)
  {
    FourShifts(low, n);
    match low
    case 0 => case 1 => case 2 => case 3 => case 4 => case 5 => case 6 => case 7 =>
    case 8 => case 9 => case 10 => case 11 => case 12 => case 13 => case 14 => case _ =>
  }

  lemma FourShifts(x: bv32, n: nat)
    requires n == 4
    ensures Shift(x, n) == ShiftBit(ShiftBit(ShiftBit(ShiftBit(x))))
  {
    hide ShiftBit;
    assert Shift(x, n - 1) == ShiftBit(Shift(x, n - 2));
    assert Shift(x, n - 2) == ShiftBit(Shift(x, n - 3));
    assert Shift(x, n - 3) == ShiftBit(Shift(x, n - 4));
  }

  function UpNibble(y: bv32): bv32 { y << 4 }

  lemma LowNibble(x: bv32, low: bv32, y: bv32, z: bv32)
    requires low == x & 0xf && y == DropNibble(x) && z == UpNibble(y)
    ensures low < 0x10 && y < 0x1000_0000 && Xor(low, z) == x
  {
  }

  lemma HalvesOfNibble(y: bv32, z: bv32, z2: bv32)
    requires y < 0x1000_0000 && z == UpNibble(y) && z2 == Half(Half(z))
    ensures !Odd(z) && !Odd(Half(z)) && !Odd(z2) && !Odd(Half(z2)) && Half(Half(z2)) == y
  {
  }

  /** Looking up the low four bits shifts the register by four. */
  lemma TableShifts(x: bv32, n: nat)
    requires n == 4
    ensures Xor(DropNibble(x), LookUp(x)) == Shift(x, n)
  {
    var low, y := x & 0xf, DropNibble(x);
    var z := UpNibble(y);
    var z2 := Half(Half(z));
    LowNibble(x, low, y, z);
    HalvesOfNibble(y, z, z2);
    hide Xor, DropNibble, UpNibble, Half, Odd, Table;
    TableOfNibble(low, n);
    TwoHalves(z2, n - 2);
    TwoHalves(z, n);
    ShiftThrough(low, z, n);
    XorSwapped(Table(low), y);
  }

  lemma XorSwapped(a: bv32, b: bv32)
    ensures Xor(a, b) == Xor(b, a)
  {
  }

  function LookUp(x: bv32): bv32 { Table(x & 0xf) }

  /** One step of the table-driven loop, for the four low bits of `bits`. */
  function TableStep(crc: bv32, bits: bv32): bv32 {
    Xor(DropNibble(crc), LookUp(Xor(crc, bits)))
  }

  lemma MoveBits(crc: bv32, bits: bv32, t: bv32)
    ensures Xor(DropNibble(crc), t) == Xor(Xor(DropNibble(Xor(crc, bits)), t), DropNibble(bits))
  {
  }

  lemma TableStepIsShift(crc: bv32, bits: bv32, n: nat)
    requires n == 4
    ensures TableStep(crc, bits) == Xor(Shift(Xor(crc, bits), n), DropNibble(bits))
  {
    TableShifts(Xor(crc, bits), n);
    MoveBits(crc, bits, LookUp(Xor(crc, bits)));
  }

  lemma Undo(y: bv32, bits: bv32)
    ensures Xor(Xor(y, bits), bits) == y
  {
  }

  lemma NothingLeft(s: bv32, b: bv32)
    requires b < 0x100
    ensures Xor(s, DropNibble(DropNibble(b))) == s
  {
  }

  lemma TwoNibbles(crc: bv32, b: bv32, n: nat)
    requires n == 4 && b < 0x100
    ensures TableStep(TableStep(crc, b), DropNibble(b)) == Shift(Shift(Xor(crc, b), n), n)
  {
    var y, high := Shift(Xor(crc, b), n), DropNibble(b);
    TableStepIsShift(crc, b, n);
    TableStepIsShift(Xor(y, high), high, n);
    Undo(y, high);
    NothingLeft(Shift(y, n), b);
  }

  lemma TableAddsByte(crc: bv32, b: bv8)
    ensures TableStep(TableStep(crc, b as bv32), DropNibble(b as bv32)) == AddByte(crc, b)
  {
    var n := BITS() - 4;
    TwoNibbles(crc, b as bv32, n);
    ShiftTwice(Xor(crc, b as bv32), n, n);
  }

  method Compute(crc: bv32, data: seq<bv8>) returns (r: bv32)
    ensures r == Crc(crc, data)
  {
    r := crc;
    assert data[..0] == [];
    for i := 0 to |data|
      invariant r == Crc(crc, data[..i])
    {
      assert data[..i + 1][..i] == data[..i];
      TableAddsByte(r, data[i]);
      r := TableStep(r, data[i] as bv32);
      r := TableStep(r, DropNibble(data[i] as bv32));
    }
    assert data[..|data|] == data;
  }

  // ---- Algebra ----

  lemma {:induction false} CrcConcat(crc: bv32, a: seq<bv8>, b: seq<bv8>)
    ensures Crc(crc, a + b) == Crc(Crc(crc, a), b)
  {
    if b == [] {
      assert a + b == a;
    } else {
      assert (a + b)[..|a + b| - 1] == a + b[..|b| - 1];
      CrcConcat(crc, a, b[..|b| - 1]);
    }
  }

  lemma ShiftBitInjective(x: bv32, y: bv32)
    requires ShiftBit(x) == ShiftBit(y)
    ensures x == y
  {
  }

  lemma {:induction false} ShiftInjective(x: bv32, y: bv32, n: nat)
    requires Shift(x, n) == Shift(y, n)
    ensures x == y
  {
    if n == 0 {
    } else {
      ShiftBitInjective(Shift(x, n - 1), Shift(y, n - 1));
      ShiftInjective(x, y, n - 1);
    }
  }

  lemma {:induction false} CrcInjective(c1: bv32, c2: bv32, data: seq<bv8>)
    requires Crc(c1, data) == Crc(c2, data)
    ensures c1 == c2
  {
    if data == [] {
    } else {
      var init, b := data[..|data| - 1], data[|data| - 1] as bv32;
      ShiftInjective(Xor(Crc(c1, init), b), Xor(Crc(c2, init), b), BITS());
      Undo(Crc(c1, init), b);
      Undo(Crc(c2, init), b);
      CrcInjective(c1, c2, init);
    }
  }

  // Up to four bytes can be added to the register all at once, each at its own place.

  function Up(b: bv32, places: nat): bv32 { if places == 0 then b else UpByte(Up(b, places - 1)) }

  function UpByte(y: bv32): bv32 { y << 8 }

  function Pack(bytes: seq<bv8>): bv32 {
    if bytes == [] then 0
    else Xor(Pack(bytes[..|bytes| - 1]), Up(bytes[|bytes| - 1] as bv32, |bytes| - 1))
  }

  lemma HalfOfXor(x: bv32, z: bv32)
    ensures Half(Xor(x, z)) == Xor(Half(x), Half(z))
  {
  }

  lemma OddOfXor(x: bv32, z: bv32)
    requires !Odd(z)
    ensures Odd(Xor(x, z)) == Odd(x)
  {
  }

  lemma XorSwap(a: bv32, b: bv32)
    ensures Xor(Xor(a, b), POLYNOMIAL) == Xor(Xor(a, POLYNOMIAL), b)
  {
  }

  lemma ShiftBitThrough(x: bv32, z: bv32)
    requires !Odd(z)
    ensures ShiftBit(Xor(x, z)) == Xor(ShiftBit(x), Half(z))
  {
    HalfOfXor(x, z);
    OddOfXor(x, z);
    XorSwap(Half(x), Half(z));
  }

  predicate LowClear(z: bv32, n: nat)
    decreases n
  {
    n == 0 || (!Odd(z) && LowClear(Half(z), n - 1))
  }

  function Halve(z: bv32, n: nat): bv32
    decreases n
  {
    if n == 0 then z else Halve(Half(z), n - 1)
  }

  /** Bits that are still above the low end pass through the shifting unchanged. */
  lemma {:induction false} ShiftThrough(x: bv32, z: bv32, n: nat)
    requires LowClear(z, n)
    ensures Shift(Xor(x, z), n) == Xor(Shift(x, n), Halve(z, n))
    decreases n
  {
    if n == 0 {
    } else {
      ShiftBitThrough(x, z);
      ShiftTwice(Xor(x, z), 1, n - 1);
      ShiftTwice(x, 1, n - 1);
      ShiftOnce(Xor(x, z), 1);
      ShiftOnce(x, 1);
      ShiftThrough(ShiftBit(x), Half(z), n - 1);
    }
  }

  lemma ShiftOnce(x: bv32, one: nat)
    requires one == 1
    ensures Shift(x, one) == ShiftBit(x)
  {
    assert Shift(x, one - 1) == x;
  }

  lemma Halves(y: bv32, z: bv32, z2: bv32, z4: bv32, z6: bv32)
    requires y < 0x100_0000 && z == UpByte(y)
    requires z2 == Half(Half(z)) && z4 == Half(Half(z2)) && z6 == Half(Half(z4))
    ensures !Odd(z) && !Odd(Half(z)) && !Odd(z2) && !Odd(Half(z2))
    ensures !Odd(z4) && !Odd(Half(z4)) && !Odd(z6) && !Odd(Half(z6))
    ensures Half(Half(z6)) == y
  {
  }

  lemma TwoHalves(z: bv32, n: nat)
    requires n >= 2 && !Odd(z) && !Odd(Half(z)) && LowClear(Half(Half(z)), n - 2)
    ensures LowClear(z, n) && Halve(z, n) == Halve(Half(Half(z)), n - 2)
  {
    assert LowClear(Half(z), n - 1);
  }

  lemma ByteIsClear(y: bv32, n: nat)
    requires n == 8 && y < 0x100_0000
    ensures LowClear(UpByte(y), n) && Halve(UpByte(y), n) == y
  {
    var z := UpByte(y);
    var z2 := Half(Half(z));
    var z4 := Half(Half(z2));
    var z6 := Half(Half(z4));
    Halves(y, z, z2, z4, z6);
    TwoHalves(z6, n - 6);
    TwoHalves(z4, n - 4);
    TwoHalves(z2, n - 2);
    TwoHalves(z, n);
  }

  function BitsOf(bytes: nat): nat { if bytes == 0 then 0 else BitsOf(bytes - 1) + BITS() }

  lemma UpFits(b: bv32, places: nat)
    requires b < 0x100 && 0 < places <= 3
    ensures Up(b, places - 1) < 0x100_0000
  {
    assert Up(b, 0) == b;
    assert Up(b, 1) == UpByte(b);
    assert Up(b, 2) == UpByte(Up(b, 1));
  }

  /** A byte can wait `places` bytes above the low end until those before it are shifted out. */
  lemma {:induction false} UpThrough(x: bv32, b: bv32, places: nat)
    requires b < 0x100 && places <= 3
    ensures Shift(Xor(x, Up(b, places)), BitsOf(places)) == Xor(Shift(x, BitsOf(places)), b)
    decreases places
  {
    hide Shift, Xor;
    if places > 0 {
      var y, n, m := Up(b, places - 1), BITS(), BitsOf(places - 1);
      UpByteThrough(x, b, places, n);
      UpThrough(Shift(x, n), b, places - 1);
      ShiftTwice(Xor(x, UpByte(y)), n, m);
      ShiftTwice(x, n, m);
    } else {
      NoShift(x);
      NoShift(Xor(x, b));
    }
  }

  lemma NoShift(x: bv32)
    ensures Shift(x, BitsOf(0)) == x
  {
  }

  lemma UpByteThrough(x: bv32, b: bv32, places: nat, n: nat)
    requires b < 0x100 && 0 < places <= 3 && n == 8
    ensures Shift(Xor(x, UpByte(Up(b, places - 1))), n) == Xor(Shift(x, n), Up(b, places - 1))
  {
    UpFits(b, places);
    ByteIsClear(Up(b, places - 1), n);
    ShiftThrough(x, UpByte(Up(b, places - 1)), n);
  }

  /** Up to four bytes change the register as one word that is shifted out. */
  lemma {:induction false} CrcOfWord(crc: bv32, bytes: seq<bv8>)
    requires |bytes| <= 4
    ensures Crc(crc, bytes) == Shift(Xor(crc, Pack(bytes)), BitsOf(|bytes|))
  {
    if bytes == [] {
      assert Xor(crc, 0) == crc;
    } else {
      var init, places := bytes[..|bytes| - 1], |bytes| - 1;
      var b := bytes[places] as bv32;
      CrcOfWord(crc, init);
      UpThrough(Xor(crc, Pack(init)), b, places);
      ShiftTwice(Xor(Xor(crc, Pack(init)), Up(b, places)), BitsOf(places), BITS());
      XorAssoc(crc, Pack(init), Up(b, places));
    }
  }

  lemma XorAssoc(a: bv32, b: bv32, c: bv32)
    ensures Xor(Xor(a, b), c) == Xor(a, Xor(b, c))
  {
  }

  /** The bytes of a word, low byte first. */
  function Bytes32(w: bv32): (r: seq<bv8>)
    ensures |r| == 4
  {
    [(w & 0xff) as bv8, ((w >> 8) & 0xff) as bv8, ((w >> 16) & 0xff) as bv8, (w >> 24) as bv8]
  }

  function Word(b0: bv32, b1: bv32, b2: bv32, b3: bv32): bv32 {
    Xor(Xor(Xor(b0, UpByte(b1)), UpByte(UpByte(b2))), UpByte(UpByte(UpByte(b3))))
  }

  lemma PackMore(s: seq<bv8>, i: nat)
    requires i < |s|
    ensures Pack(s[..i + 1]) == Xor(Pack(s[..i]), Up(s[i] as bv32, i))
  {
    assert s[..i + 1][..i] == s[..i];
  }

  lemma UpPlaces(b: bv32)
    ensures Up(b, 0) == b && Up(b, 1) == UpByte(b) && Up(b, 2) == UpByte(UpByte(b))
    ensures Up(b, 3) == UpByte(UpByte(UpByte(b)))
  {
    assert Up(b, 3) == UpByte(Up(b, 2));
  }

  lemma PackNothing(s: seq<bv8>)
    ensures Pack(s[..0]) == 0
  {
  }

  lemma PackOfFour(s: seq<bv8>)
    requires |s| == 4
    ensures Pack(s) == Word(s[0] as bv32, s[1] as bv32, s[2] as bv32, s[3] as bv32)
  {
    hide Pack, Xor, UpByte, Up;
    UpPlaces(s[0] as bv32);
    UpPlaces(s[1] as bv32);
    UpPlaces(s[2] as bv32);
    UpPlaces(s[3] as bv32);
    PackNothing(s);
    PackMore(s, 0);
    PackMore(s, 1);
    PackMore(s, 2);
    PackMore(s, 3);
    assert s[..4] == s;
    XorZero(s[0] as bv32);
  }

  lemma XorZero(x: bv32)
    ensures Xor(0, x) == x && Xor(x, 0) == x
  {
  }

  lemma WordBytes(b0: bv8, b1: bv8, b2: bv8, b3: bv8)
    ensures Bytes32(Word(b0 as bv32, b1 as bv32, b2 as bv32, b3 as bv32)) == [b0, b1, b2, b3]
  {
  }

  lemma PackBytes32(w: bv32)
    ensures Pack(Bytes32(w)) == w
  {
    PackOfFour(Bytes32(w));
  }

  lemma {:induction false} ShiftZero(n: nat)
    ensures Shift(0, n) == 0
  {
    if n == 0 {
    } else {
      ShiftZero(n - 1);
    }
  }

  /** A message followed by its own checksum, low byte first, leaves nothing. */
  lemma Residue(crc: bv32, data: seq<bv8>)
    ensures Crc(crc, data + Bytes32(Crc(crc, data))) == 0
  {
    var c := Crc(crc, data);
    CrcConcat(crc, data, Bytes32(c));
    CrcOfWord(c, Bytes32(c));
    PackBytes32(c);
    assert Xor(c, c) == 0;
    ShiftZero(BitsOf(4));
  }

  lemma BytesOfPack(s: seq<bv8>)
    requires |s| == 4
    ensures Bytes32(Pack(s)) == s
  {
    hide *;
    PackOfFour(s);
    WordBytes(s[0], s[1], s[2], s[3]);
    assert s == [s[0], s[1], s[2], s[3]];
  }

  lemma PackInjective(a: seq<bv8>, b: seq<bv8>)
    requires |a| == |b| <= 4 && Pack(a) == Pack(b)
    ensures a == b
  {
    var za, zb := a + seq(4 - |a|, _ => 0), b + seq(4 - |a|, _ => 0);
    PackZeros(a, 4 - |a|);
    PackZeros(b, 4 - |a|);
    BytesOfPack(za);
    BytesOfPack(zb);
    assert a == za[..|a|] && b == zb[..|a|];
  }

  lemma {:induction false} PackZeros(a: seq<bv8>, n: nat)
    requires |a| + n <= 4
    ensures Pack(a + seq(n, _ => 0)) == Pack(a)
  {
    if n == 0 {
      assert a + seq(n, _ => 0) == a;
    } else {
      assert (a + seq(n, _ => 0))[..|a| + n - 1] == a + seq(n - 1, _ => 0);
      PackZeros(a, n - 1);
      UpZero(|a| + n - 1);
      assert Xor(Pack(a), 0) == Pack(a);
    }
  }

  lemma {:induction false} UpZero(n: nat)
    ensures Up(0, n) == 0
  {
    if n == 0 {
    } else {
      UpZero(n - 1);
    }
  }

  /** Two messages that differ only within four consecutive bytes have different checksums. */
  lemma BurstDetected(crc: bv32, before: seq<bv8>, a: seq<bv8>, b: seq<bv8>, after: seq<bv8>)
    requires |a| == |b| <= 4 && a != b
    ensures Crc(crc, before + a + after) != Crc(crc, before + b + after)
  {
    if Crc(crc, before + a + after) == Crc(crc, before + b + after) {
      CrcConcat(crc, before + a, after);
      CrcConcat(crc, before + b, after);
      CrcConcat(crc, before, a);
      CrcConcat(crc, before, b);
      var c := Crc(crc, before);
      CrcInjective(Crc(c, a), Crc(c, b), after);
      CrcOfWord(c, a);
      CrcOfWord(c, b);
      ShiftInjective(Xor(c, Pack(a)), Xor(c, Pack(b)), BitsOf(|a|));
      XorCancel(c, Pack(a), Pack(b));
      PackInjective(a, b);
    }
  }

  lemma XorCancel(c: bv32, x: bv32, y: bv32)
    requires Xor(c, x) == Xor(c, y)
    ensures x == y
  {
  }
}
