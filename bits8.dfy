/** Bytes as 8-bit vectors and back: the checksum works on bits, the frames
    on byte values. */
module ByteBits {
  import opened Bytes

  /** The bit pattern of a value below 16: the binary form of n. */
  function Nibble(n: int): bv8
    requires 0 <= n < 16
  {
    if n < 8 then
      if n < 4 then
        if n < 2 then (if n < 1 then 0x0 else 0x1) else (if n < 3 then 0x2 else 0x3)
      else
        if n < 6 then (if n < 5 then 0x4 else 0x5) else (if n < 7 then 0x6 else 0x7)
    else
      if n < 12 then
        if n < 10 then (if n < 9 then 0x8 else 0x9) else (if n < 11 then 0xA else 0xB)
      else
        if n < 14 then (if n < 13 then 0xC else 0xD) else (if n < 15 then 0xE else 0xF)
  }

  /** The byte's eight bits: the high nibble's pattern shifted above the
      low nibble's. This is the value of b as bv8, built from two table
      lookups so that reasoning about it stays small. */
  function ToBv(b: Byte): bv8 {
    (Nibble(b as int / 16) << 4) | Nibble(b as int % 16)
  }

  function FromBv(v: bv8): Byte {
    v as int as Byte
  }

  lemma NibbleValue(n: int)
    requires 0 <= n < 16
    ensures Nibble(n) as int == n
  {
  }

  /** Two nibbles side by side are worth sixteen times the high one plus
      the low one. */
  lemma JoinNibbles(h: bv8, l: bv8)
    requires h < 16 && l < 16
    ensures ((h << 4) | l) as int == 16 * (h as int) + l as int
  {
  }

  /** Reading the bits back gives the byte. */
  lemma FromBvOfToBv(b: Byte)
    ensures FromBv(ToBv(b)) == b
  {
    NibbleValue(b as int / 16);
    NibbleValue(b as int % 16);
    JoinNibbles(Nibble(b as int / 16), Nibble(b as int % 16));
  }

  /** Different bytes have different bits. */
  lemma ToBvInjective(x: Byte, y: Byte)
    requires x != y
    ensures ToBv(x) != ToBv(y)
  {
    FromBvOfToBv(x);
    FromBvOfToBv(y);
  }

  lemma FromBvInjective(u: bv8, v: bv8)
    requires u != v
    ensures FromBv(u) != FromBv(v)
  {
  }

  /** The bytes as 8-bit vectors. */
  function Bits(data: seq<Byte>): (r: seq<bv8>)
    ensures |r| == |data|
    ensures forall i :: 0 <= i < |data| ==> r[i] == ToBv(data[i])
  {
    seq(|data|, i requires 0 <= i < |data| => ToBv(data[i]))
  }

  lemma BitsAppend(a: seq<Byte>, b: seq<Byte>)
    ensures Bits(a + b) == Bits(a) + Bits(b)
  {
  }
}
