/** The 32-bit tags of a metadata log: a valid bit, an 11-bit type, a 10-bit id and a
    10-bit size, stored big-endian and exclusive-ored with the tag before. */
module TagWord {
  import opened Crc32
  import opened MetaLog

  const TYPE2: bv11 := 0x780
  const CCRC: bv11 := 0x500
  const FCRC: bv11 := 0x5ff
  const TAIL: bv11 := 0x600
  const NO_ID: bv10 := 0x3ff

  // What precedes the first tag of a block.
  const START: bv32 := 0xffff_ffff

  function MkTag(ty: bv11, id: bv10, size: bv10): bv32 {
    ((ty as bv32) << 20) | ((id as bv32) << 10) | (size as bv32)
  }

  predicate IsValid(w: bv32) { w & 0x8000_0000 == 0 }

  function Clear(w: bv32): bv32 { w & 0x7fff_ffff }

  function TypeOf(w: bv32): bv11 { ((w >> 20) & 0x7ff) as bv11 }

  function IdBits(w: bv32): bv10 { ((w >> 10) & 0x3ff) as bv10 }

  function SizeBits(w: bv32): bv10 { (w & 0x3ff) as bv10 }

  function IdOf(w: bv32): (r: nat) ensures r < 0x400 { IdBits(w) as nat }

  function SizeOf(w: bv32): (r: nat) ensures r < 0x400 { SizeBits(w) as nat }

  /** All ones in the size field: the attribute is removed. */
  predicate IsDelete(w: bv32) { SizeBits(w) == 0x3ff }

  /** The bytes of a tag and its data; a removal has no data. */
  function DSize(w: bv32): (r: nat)
    ensures 4 <= r < 4 + 0x3ff
  {
    SizeAfterDelete(w);
    4 + SizeOf(if IsDelete(w) then w + 1 else w)
  }

  lemma DSizeIs(w: bv32)
    ensures DSize(w) == if IsDelete(w) then 4 else 4 + SizeOf(w)
  {
    SizeAfterDelete(w);
  }

  lemma SizeAfterDelete(w: bv32)
    ensures IsDelete(w) ==> SizeOf(w + 1) == 0
    ensures !IsDelete(w) ==> SizeOf(w) < 0x3ff
  {
    if IsDelete(w) { assert SizeBits(w + 1) == 0; }
  }

  lemma MkTagFields(ty: bv11, id: bv10, size: bv10)
    ensures
      var w := MkTag(ty, id, size);
      IsValid(w) && TypeOf(w) == ty && IdBits(w) == id && SizeBits(w) == size
  {
  }

  lemma ClearFields(w: bv32)
    ensures TypeOf(Clear(w)) == TypeOf(w) && IdBits(Clear(w)) == IdBits(w)
    ensures SizeBits(Clear(w)) == SizeBits(w) && IsValid(Clear(w))
  {
  }

  lemma ClearKeeps(w: bv32)
    ensures TypeOf(Clear(w)) == TypeOf(w) && IdBits(Clear(w)) == IdBits(w)
    ensures SizeBits(Clear(w)) == SizeBits(w) && IsValid(Clear(w)) && DSize(Clear(w)) == DSize(w)
  {
    hide Clear, TypeOf, IdBits, SizeBits, IsValid, DSize;
    ClearFields(w);
    DSizeIs(w);
    DSizeIs(Clear(w));
  }

  lemma ValidIsClear(w: bv32)
    requires IsValid(w)
    ensures Clear(w) == w
  {
  }

  lemma ClearOfXor(a: bv32, b: bv32)
    ensures Clear(Xor(a, b)) == Xor(Clear(a), Clear(b))
  {
  }

  lemma XorTwice(a: bv32, b: bv32)
    ensures Xor(Xor(a, b), b) == a && Xor(a, Xor(a, b)) == b
  {
  }

  /** By how many ids a splice moves the entries behind it: its chunk as a signed byte. */
  function SpliceOf(ty: bv11): int {
    var chunk := (ty & 0xff) as nat;
    if chunk < 0x80 then chunk else chunk - 0x100
  }

  lemma Splices()
    ensures SpliceOf(CREATE) == 1 && SpliceOf(DELETE) == -1
  {
    assert CREATE & 0xff == 1 && DELETE & 0xff == 0xff;
  }

  // ---- Fields as numbers ----

  function ToBits(n: nat): (r: bv10)
    requires n < 0x400
    ensures r as nat == n
  {
    if n == 0 then 0
    else
      BitsUp(ToBits(n - 1));
      ToBits(n - 1) + 1
  }

  lemma BitsUp(b: bv10)
    requires (b as nat) < 0x3ff
    ensures (b + 1) as nat == b as nat + 1
  {
  }

  // ---- Bytes ----

  function Reverse4(s: seq<bv8>): (r: seq<bv8>)
    requires |s| == 4
    ensures |r| == 4
  {
    [s[3], s[2], s[1], s[0]]
  }

  function ToBE32(w: bv32): (r: seq<bv8>) ensures |r| == 4 { Reverse4(Bytes32(w)) }

  function BE32(s: seq<bv8>): bv32 requires |s| == 4 { Pack(Reverse4(s)) }

  lemma BE32RoundTrip(w: bv32)
    ensures BE32(ToBE32(w)) == w
  {
    assert Reverse4(Reverse4(Bytes32(w))) == Bytes32(w);
    PackBytes32(w);
  }
}
