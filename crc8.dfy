/** The frame checksum: a bit-serial CRC fed least-significant bit first,
    reflected polynomial 0x8C, initial value 0, no final XOR. This is the
    Dallas/Maxim 1-Wire CRC-8 (CRC-8/MAXIM-DOW), polynomial x^8 + x^5 + x^4 + 1.
    The register is modelled as bv8: the source's register starts at 0 and
    is only shifted right and XORed with 0x8C, so it never leaves 0..255. */
module Checksum {
  import opened Bytes
  import opened ByteBits

  /** One pass of the inner loop: the low bit of crc XOR the low bit of the
      input decides whether the shifted register is XORed with 0x8C. */
  function BitStep(crc: bv8, extract: bv8): bv8 {
    if (crc ^ extract) & 1 == 1 then (crc >> 1) ^ 0x8C else crc >> 1
  }

  /** k passes of the inner loop, the input shifted right after each. */
  function Shift(crc: bv8, extract: bv8, k: nat): bv8
    decreases k
  {
    if k == 0 then crc else Shift(BitStep(crc, extract), extract >> 1, k - 1)
  }

  /** The register after one input byte: the whole inner loop. */
  function UpdateByte(crc: bv8, b: bv8): bv8 {
    Shift(crc, b, 8)
  }

  /** The outer loop, a left fold of UpdateByte over the data. */
  function Fold(crc: bv8, data: seq<bv8>): bv8
    decreases |data|
  {
    if data == [] then crc else Fold(UpdateByte(crc, data[0]), data[1..])
  }

  /** crc8(data) of the bridge. */
  function Crc8(data: seq<Byte>): Byte {
    FromBv(Fold(0, Bits(data)))
  }

  /** The checksum of a concatenation continues from the checksum of the
      first part: crc8 is a left fold over the bytes. */
  lemma {:induction false} FoldAppend(crc: bv8, a: seq<bv8>, b: seq<bv8>)
    ensures Fold(crc, a + b) == Fold(Fold(crc, a), b)
    decreases |a|
  {
    if a == [] {
      assert a + b == b;
    } else {
      FoldAppend(UpdateByte(crc, a[0]), a[1..], b);
      assert (a + b)[1..] == a[1..] + b;
    }
  }

  /** crc8(a + b) is the fold over b started from the register crc8(a)
      leaves. */
  lemma Crc8Append(a: seq<Byte>, b: seq<Byte>)
    ensures Crc8(a + b) == FromBv(Fold(Fold(0, Bits(a)), Bits(b)))
  {
    BitsAppend(a, b);
    FoldAppend(0, Bits(a), Bits(b));
  }

  /** The nested loops of the source, bit by bit. */
  method ComputeCrc8(data: seq<Byte>) returns (crc: Byte)
    ensures crc == Crc8(data)
  {
    var reg: bv8 := 0;
    var i := 0;
    while i < |data|
      invariant 0 <= i <= |data|
      invariant reg == Fold(0, Bits(data)[..i])
    {
      var extract: bv8 := ToBv(data[i]);
      ghost var start := reg;
      var j := 0;
      while j < 8
        invariant 0 <= j <= 8
        invariant Shift(reg, extract, 8 - j) == UpdateByte(start, ToBv(data[i]))
      {
        var sum := (reg ^ extract) & 1;
        reg := reg >> 1;
        if sum == 1 {
          reg := reg ^ 0x8C;
        }
        extract := extract >> 1;
        j := j + 1;
      }
      FoldAppend(0, Bits(data)[..i], [ToBv(data[i])]);
      assert Bits(data)[..i + 1] == Bits(data)[..i] + [ToBv(data[i])];
      i := i + 1;
    }
    assert Bits(data)[..i] == Bits(data);
    crc := FromBv(reg);
  }

  /** UpdateByte with its eight inner-loop passes written out. */
  lemma UpdateByteUnrolled(crc: bv8, e: bv8)
    ensures UpdateByte(crc, e)
      == BitStep(BitStep(BitStep(BitStep(BitStep(BitStep(BitStep(BitStep(crc,
           e), e >> 1), e >> 2), e >> 3), e >> 4), e >> 5), e >> 6), e >> 7)
  {
    assert e >> 1 >> 1 == e >> 2 && e >> 2 >> 1 == e >> 3 && e >> 3 >> 1 == e >> 4;
    assert e >> 4 >> 1 == e >> 5 && e >> 5 >> 1 == e >> 6 && e >> 6 >> 1 == e >> 7;
    var c1 := BitStep(crc, e);
    var c2 := BitStep(c1, e >> 1);
    var c3 := BitStep(c2, e >> 2);
    var c4 := BitStep(c3, e >> 3);
    var c5 := BitStep(c4, e >> 4);
    var c6 := BitStep(c5, e >> 5);
    var c7 := BitStep(c6, e >> 6);
    assert Shift(c7, e >> 7, 1) == BitStep(c7, e >> 7);
    assert Shift(c6, e >> 6, 2) == Shift(c7, e >> 7, 1);
    assert Shift(c5, e >> 5, 3) == Shift(c6, e >> 6, 2);
    assert Shift(c4, e >> 4, 4) == Shift(c5, e >> 5, 3);
    assert Shift(c3, e >> 3, 5) == Shift(c4, e >> 4, 4);
    assert Shift(c2, e >> 2, 6) == Shift(c3, e >> 3, 5);
    assert Shift(c1, e >> 1, 7) == Shift(c2, e >> 2, 6);
  }

  /** Eight passes of the register, as two groups of four. */
  function LowPasses(crc: bv8, e: bv8): bv8 {
    BitStep(BitStep(BitStep(BitStep(crc, e), e >> 1), e >> 2), e >> 3)
  }

  function HighPasses(c4: bv8, e: bv8): bv8 {
    BitStep(BitStep(BitStep(BitStep(c4, e >> 4), e >> 5), e >> 6), e >> 7)
  }

  lemma RegisterByNibbles(crc: bv8, e: bv8)
    ensures UpdateByte(crc, e) == HighPasses(LowPasses(crc, e), e)
  {
    UpdateByteUnrolled(crc, e);
  }

  /** The CRC-8/MAXIM conformance vector: the ASCII digits "123456789". */
  lemma CheckValue()
    ensures Crc8([0x31, 0x32, 0x33, 0x34, 0x35, 0x36, 0x37, 0x38, 0x39]) == 0xA1
  {
    var d: seq<bv8> := [0x31, 0x32, 0x33, 0x34, 0x35, 0x36, 0x37, 0x38, 0x39];
    assert Bits([0x31, 0x32, 0x33, 0x34, 0x35, 0x36, 0x37, 0x38, 0x39]) == d;
    UpdateByteUnrolled(0, 0x31);
    UpdateByteUnrolled(0xE0, 0x32);
    UpdateByteUnrolled(0xEB, 0x33);
    UpdateByteUnrolled(0x95, 0x34);
    UpdateByteUnrolled(0xF1, 0x35);
    UpdateByteUnrolled(0xAB, 0x36);
    UpdateByteUnrolled(0xEC, 0x37);
    UpdateByteUnrolled(0x77, 0x38);
    UpdateByteUnrolled(0x07, 0x39);
    assert Fold(0xA1, d[9..]) == 0xA1;
    assert Fold(0x07, d[8..]) == 0xA1;
    assert Fold(0x77, d[7..]) == 0xA1;
    assert Fold(0xEC, d[6..]) == 0xA1;
    assert Fold(0xAB, d[5..]) == 0xA1;
    assert Fold(0xF1, d[4..]) == 0xA1;
    assert Fold(0x95, d[3..]) == 0xA1;
    assert Fold(0xEB, d[2..]) == 0xA1;
    assert Fold(0xE0, d[1..]) == 0xA1;
  }

  // Error detection: with the input byte fixed, one step of the register
  // is injective, and so is one whole input byte with the register fixed;
  // a change confined to one byte therefore always changes the checksum.

  lemma BitStepInjective(c1: bv8, c2: bv8, e: bv8)
    requires c1 != c2
    ensures BitStep(c1, e) != BitStep(c2, e)
  {
  }

  lemma {:induction false} ShiftInjective(c1: bv8, c2: bv8, e: bv8, k: nat)
    requires c1 != c2
    ensures Shift(c1, e, k) != Shift(c2, e, k)
    decreases k
  {
    if k > 0 {
      BitStepInjective(c1, c2, e);
      ShiftInjective(BitStep(c1, e), BitStep(c2, e), e >> 1, k - 1);
    }
  }

  /** Different registers stay different after the same input byte. */
  lemma UpdateByteInjectiveInRegister(c1: bv8, c2: bv8, e: bv8)
    requires c1 != c2
    ensures UpdateByte(c1, e) != UpdateByte(c2, e)
  {
    ShiftInjective(c1, c2, e, 8);
  }

  /** The first four passes with input e end where four passes from
      crc ^ e with no input end, up to the input bits still to come. */
  lemma LowPassesAbsorb(crc: bv8, e: bv8)
    ensures LowPasses(crc, e) ^ (e >> 4) == LowPasses(crc ^ e, 0)
  {
  }

  /** The last four passes see only the input's high nibble. */
  lemma HighPassesAbsorb(c4: bv8, e: bv8)
    ensures HighPasses(c4, e) == HighPasses(c4 ^ (e >> 4), 0)
  {
  }

  /** A whole byte depends only on register XOR input: the update is a
      table lookup at crc ^ byte, as byte-wise CRC implementations use. */
  lemma UpdateByteIsLookup(c: bv8, x: bv8)
    ensures UpdateByte(c, x) == UpdateByte(c ^ x, 0)
  {
    RegisterByNibbles(c, x);
    RegisterByNibbles(c ^ x, 0);
    LowPassesAbsorb(c, x);
    HighPassesAbsorb(LowPasses(c, x), x);
  }

  /** From the same register, different input bytes give different
      registers. */
  lemma UpdateByteInjectiveInByte(c: bv8, x: bv8, y: bv8)
    requires x != y
    ensures UpdateByte(c, x) != UpdateByte(c, y)
  {
    UpdateByteIsLookup(c, x);
    UpdateByteIsLookup(c, y);
    UpdateByteInjectiveInRegister(c ^ x, c ^ y, 0);
  }

  lemma {:induction false} FoldInjective(c1: bv8, c2: bv8, data: seq<bv8>)
    requires c1 != c2
    ensures Fold(c1, data) != Fold(c2, data)
    decreases |data|
  {
    if data != [] {
      UpdateByteInjectiveInRegister(c1, c2, data[0]);
      FoldInjective(UpdateByte(c1, data[0]), UpdateByte(c2, data[0]), data[1..]);
    }
  }

  /** Replacing one byte by another, whatever surrounds it, changes the
      register at the end. */
  lemma FoldDiffersAt(crc: bv8, prefix: seq<bv8>, x: bv8, y: bv8, suffix: seq<bv8>)
    requires x != y
    ensures Fold(crc, prefix + [x] + suffix) != Fold(crc, prefix + [y] + suffix)
  {
    var r := Fold(crc, prefix);
    FoldAppend(crc, prefix + [x], suffix);
    FoldAppend(crc, prefix, [x]);
    FoldAppend(crc, prefix + [y], suffix);
    FoldAppend(crc, prefix, [y]);
    UpdateByteInjectiveInByte(r, x, y);
    FoldInjective(UpdateByte(r, x), UpdateByte(r, y), suffix);
  }

  /** Two byte strings of the same length that differ in exactly one
      position have different checksums. */
  lemma SingleByteChangeDetected(a: seq<Byte>, b: seq<Byte>, i: nat)
    requires |a| == |b| && i < |a| && a[i] != b[i]
    requires forall j :: 0 <= j < |a| && j != i ==> a[j] == b[j]
    ensures Crc8(a) != Crc8(b)
  {
    var x, y := Bits(a), Bits(b);
    assert x[..i] == y[..i];
    assert x[i + 1..] == y[i + 1..];
    assert x == x[..i] + [x[i]] + x[i + 1..];
    assert y == y[..i] + [y[i]] + y[i + 1..];
    ToBvInjective(a[i], b[i]);
    FoldDiffersAt(0, x[..i], x[i], y[i], x[i + 1..]);
    FromBvInjective(Fold(0, x), Fold(0, y));
  }
}
