/** CRC-8/MAXIM by its catalogue parameters, and the proof that the
    bridge's bit-serial register computes it. */
module MaximReference {
  import opened Bytes
  import opened ByteBits
  import opened Checksum

  // An independent definition: CRC-8/MAXIM by its catalogue parameters
  // (width 8, polynomial 0x31 in normal form, initial value 0, input and
  // output reflected, no final XOR), computed most-significant bit first.

  /** The byte with its bit order reversed. */
  function Reflect(b: bv8): bv8 {
    ((b & 0x01) << 7) | ((b & 0x02) << 5) | ((b & 0x04) << 3) | ((b & 0x08) << 1)
    | ((b & 0x10) >> 1) | ((b & 0x20) >> 3) | ((b & 0x40) >> 5) | ((b & 0x80) >> 7)
  }

  /** One step of polynomial division by x^8 + x^5 + x^4 + 1, top bit first. */
  function NormalStep(crc: bv8): bv8 {
    if crc & 0x80 != 0 then (crc << 1) ^ 0x31 else crc << 1
  }

  /** Four division steps. */
  function NormalNibble(c: bv8): bv8 {
    NormalStep(NormalStep(NormalStep(NormalStep(c))))
  }

  /** One input byte: XOR it in, then eight division steps. */
  function NormalUpdate(crc: bv8, b: bv8): bv8 {
    NormalNibble(NormalNibble(crc ^ b))
  }

  /** The catalogue CRC over the data, each input byte reflected. */
  function NormalFold(crc: bv8, data: seq<bv8>): bv8
    decreases |data|
  {
    if data == [] then crc else NormalFold(NormalUpdate(crc, Reflect(data[0])), data[1..])
  }

  /** CRC-8/MAXIM of the catalogue, with its output reflected. */
  function Crc8Maxim(data: seq<Byte>): Byte {
    FromBv(Reflect(NormalFold(0, Bits(data))))
  }

  lemma ReflectInvolution(b: bv8)
    ensures Reflect(Reflect(b)) == b
  {
  }

  // LSB-first passes of the register, seen through Reflect, are MSB-first
  // division steps; the input bits not yet consumed ride along shifted
  // left. Each half byte is an identity on 8-bit vectors.

  /** The first four passes of a byte, through Reflect. */
  lemma ReflectedLowNibble(crc: bv8, e: bv8)
    ensures NormalNibble(Reflect(crc) ^ Reflect(e)) == Reflect(LowPasses(crc, e)) ^ (Reflect(e) << 4)
  {
  }

  /** The last four passes of a byte, through Reflect. */
  lemma ReflectedHighNibble(c4: bv8, e: bv8)
    ensures NormalNibble(Reflect(c4) ^ (Reflect(e) << 4)) == Reflect(HighPasses(c4, e))
  {
  }

  lemma NormalByNibbles(crc: bv8, e: bv8)
    ensures NormalUpdate(Reflect(crc), Reflect(e)) == Reflect(HighPasses(LowPasses(crc, e), e))
  {
    ReflectedLowNibble(crc, e);
    ReflectedHighNibble(LowPasses(crc, e), e);
  }

  lemma UpdateByteIsReflectedNormal(crc: bv8, e: bv8)
    ensures UpdateByte(crc, e) == Reflect(NormalUpdate(Reflect(crc), Reflect(e)))
  {
    RegisterByNibbles(crc, e);
    NormalByNibbles(crc, e);
    ReflectInvolution(HighPasses(LowPasses(crc, e), e));
  }

  lemma {:induction false} FoldIsReflectedNormal(crc: bv8, data: seq<bv8>)
    ensures Fold(crc, data) == Reflect(NormalFold(Reflect(crc), data))
    decreases |data|
  {
    if data == [] {
      ReflectInvolution(crc);
    } else {
      var next := UpdateByte(crc, data[0]);
      UpdateByteIsReflectedNormal(crc, data[0]);
      ReflectInvolution(NormalUpdate(Reflect(crc), Reflect(data[0])));
      FoldIsReflectedNormal(next, data[1..]);
    }
  }

  /** The bridge's bit-serial loop computes exactly CRC-8/MAXIM. */
  lemma Crc8IsMaxim(data: seq<Byte>)
    ensures Crc8(data) == Crc8Maxim(data)
  {
    FoldIsReflectedNormal(0, Bits(data));
  }
}
