/** The link-layer frame of the bridge: an 8-byte header (checksum, link
    sender, source, destination, time to live, sequence number, message
    type, payload length) followed by the payload bytes. The checksum byte
    is crc8 of everything after it. Framing on the wire (SLIP) happens
    outside this model: a frame here is one whole, unframed message. */
module Frame {
  import opened Wrappers
  import opened Bytes
  import opened Checksum

  const HeaderSize: nat := 8

  /** The fields of a received frame, in header order, and its payload. */
  datatype Packet = Packet(
    l2Crc: Byte, l2Sender: Byte, source: Byte, dest: Byte, ttl: Byte,
    seqNo: Byte, msgType: Byte, length: Byte, payload: seq<Byte>)

  /** Why a frame is dropped on receipt. */
  datatype FrameError = EmptyFrame | TooShort | ChecksumMismatch

  /** bytearray([...]) accepts only values in 0..255 (ValueError otherwise). */
  datatype BuildError = FieldOutOfRange

  predicate IsByte(n: int) {
    0 <= n < 256
  }

  /** A packet's bytes, header first. */
  function PacketBytes(p: Packet): (r: seq<Byte>)
    ensures |r| == HeaderSize + |p.payload|
  {
    [p.l2Crc, p.l2Sender, p.source, p.dest, p.ttl, p.seqNo, p.msgType, p.length] + p.payload
  }

  /** The receive-side check: empty and short frames are dropped, then the
      frame is dropped unless byte 0 is crc8 of the rest. The declared
      length byte is not compared with the payload. */
  function DecodeFrame(frame: seq<Byte>): (r: Result<Packet, FrameError>)
    ensures r.Success? <==> |frame| >= HeaderSize && frame[0] == Crc8(frame[1..])
    ensures r.Success? ==> PacketBytes(r.value) == frame
  {
    if |frame| == 0 then Failure(EmptyFrame)
    else if |frame| < HeaderSize then Failure(TooShort)
    else if Crc8(frame[1..]) != frame[0] then Failure(ChecksumMismatch)
    else
      var p := Packet(frame[0], frame[1], frame[2], frame[3], frame[4], frame[5],
                      frame[6], frame[7], frame[HeaderSize..]);
      assert PacketBytes(p) == frame;
      Success(p)
  }

  /** A packet is accepted back exactly when its checksum byte is right,
      and then every field and the payload come back unchanged. */
  lemma DecodePacketBytes(p: Packet)
    ensures DecodeFrame(PacketBytes(p)) == (
      if p.l2Crc == Crc8(PacketBytes(p)[1..]) then Success(p) else Failure(ChecksumMismatch))
  {
    var f := PacketBytes(p);
    if p.l2Crc == Crc8(f[1..]) {
      var q := DecodeFrame(f).value;
      assert PacketBytes(q) == f;
      assert q.payload == f[HeaderSize..] == p.payload;
    }
  }

  /** Frames without a full header are never accepted, whatever their
      checksum byte. */
  lemma ShortFramesRejected(frame: seq<Byte>)
    requires |frame| < HeaderSize
    ensures DecodeFrame(frame) == if frame == [] then Failure(EmptyFrame) else Failure(TooShort)
  {
  }

  /** The header with link sender 0 (the bridge), then the payload, with
      byte 0 overwritten by crc8 of the bytes after it, as _send_message
      lays them out. */
  function Sealed(source: Byte, dest: Byte, ttl: Byte, seqNo: Byte, msgType: Byte,
                  length: Byte, body: seq<Byte>): (r: seq<Byte>)
    ensures |r| >= 1 && r[0] == Crc8(r[1..])
    ensures r == PacketBytes(Packet(r[0], 0, source, dest, ttl, seqNo, msgType, length, body))
  {
    var unsealed := Packet(0, 0, source, dest, ttl, seqNo, msgType, length, body);
    var sealed := unsealed.(l2Crc := Crc8(PacketBytes(unsealed)[1..]));
    SameTail(unsealed, sealed);
    PacketBytes(sealed)
  }

  /** Packets that differ at most in the checksum field agree on every byte
      after it. */
  lemma SameTail(p: Packet, q: Packet)
    requires q == p.(l2Crc := q.l2Crc)
    ensures PacketBytes(p)[1..] == PacketBytes(q)[1..]
  {
  }

  /** _send_message as written: the length byte is len(payload), the number
      of characters, while the payload carries payload.encode(). */
  function BuildMessageAsWritten(source: int, dest: int, ttl: int, seqNo: int,
                                 msgType: int, payload: string): (r: Result<seq<Byte>, BuildError>)
    ensures r.Success? <==> (IsByte(source) && IsByte(dest) && IsByte(ttl) && IsByte(seqNo)
                             && IsByte(msgType) && IsByte(|payload|))
    ensures r.Success? ==> |r.value| >= HeaderSize && r.value[7] as int == |payload|
                           && r.value[HeaderSize..] == Encode(payload)
  {
    if !(IsByte(source) && IsByte(dest) && IsByte(ttl) && IsByte(seqNo) && IsByte(msgType)
         && IsByte(|payload|))
    then Failure(FieldOutOfRange)
    else
      Success(Sealed(source as Byte, dest as Byte, ttl as Byte, seqNo as Byte,
                     msgType as Byte, |payload| as Byte, Encode(payload)))
  }

  /** _send_message with the length byte counting the encoded payload bytes,
      the number the payload actually occupies in the frame. */
  function BuildMessage(source: int, dest: int, ttl: int, seqNo: int,
                        msgType: int, payload: string): (r: Result<seq<Byte>, BuildError>)
    ensures r.Success? <==> (IsByte(source) && IsByte(dest) && IsByte(ttl) && IsByte(seqNo)
                             && IsByte(msgType) && IsByte(|Encode(payload)|))
    ensures r.Success? ==> |r.value| >= HeaderSize && r.value[7] as int == |r.value| - HeaderSize
  {
    var body := Encode(payload);
    if !(IsByte(source) && IsByte(dest) && IsByte(ttl) && IsByte(seqNo) && IsByte(msgType)
         && IsByte(|body|))
    then Failure(FieldOutOfRange)
    else
      Success(Sealed(source as Byte, dest as Byte, ttl as Byte, seqNo as Byte,
                     msgType as Byte, |body| as Byte, body))
  }

  /** A built message passes the receive check and decodes to the fields it
      was built from; its payload decodes back to the text sent. */
  lemma BuildMessageRoundTrip(source: int, dest: int, ttl: int, seqNo: int,
                              msgType: int, payload: string)
    requires BuildMessage(source, dest, ttl, seqNo, msgType, payload).Success?
    ensures var f := BuildMessage(source, dest, ttl, seqNo, msgType, payload).value;
      var d := DecodeFrame(f);
      && d.Success?
      && d.value.l2Sender == 0
      && d.value.source as int == source && d.value.dest as int == dest
      && d.value.ttl as int == ttl && d.value.seqNo as int == seqNo
      && d.value.msgType as int == msgType
      && d.value.length as int == |d.value.payload|
      && Decode(d.value.payload) == Some(payload)
  {
    var body := Encode(payload);
    var f := BuildMessage(source, dest, ttl, seqNo, msgType, payload).value;
    var p := Packet(f[0], 0, source as Byte, dest as Byte, ttl as Byte, seqNo as Byte,
                    msgType as Byte, |body| as Byte, body);
    assert PacketBytes(p) == f;
    DecodePacketBytes(p);
    DecodeOfEncode(payload);
  }

  /** For ASCII text, characters and bytes coincide, so the code as written
      and the corrected builder produce the same frame. */
  lemma AsWrittenAgreesOnAscii(source: int, dest: int, ttl: int, seqNo: int,
                               msgType: int, payload: string)
    requires IsAscii(payload)
    ensures BuildMessageAsWritten(source, dest, ttl, seqNo, msgType, payload)
         == BuildMessage(source, dest, ttl, seqNo, msgType, payload)
  {
    EncodeLength(payload);
  }

  /** The code as written declares a one-byte payload for "é", whose UTF-8
      form takes two bytes. */
  lemma AsWrittenLengthByteCountsCharacters()
    ensures var r := BuildMessageAsWritten(0, 255, 25, 1, 0, "\U{E9}");
      r.Success? && r.value[7] == 1 && |r.value| - HeaderSize == 2
  {
    assert Encode("\U{E9}") == [0xC3, 0xA9];
  }

  /** A valid frame with any one byte changed is dropped with a checksum
      mismatch: the checksum byte itself, or any header or payload byte. */
  lemma CorruptedFrameRejected(frame: seq<Byte>, corrupted: seq<Byte>, i: nat)
    requires DecodeFrame(frame).Success?
    requires |corrupted| == |frame| && i < |frame| && corrupted[i] != frame[i]
    requires forall j :: 0 <= j < |frame| && j != i ==> corrupted[j] == frame[j]
    ensures DecodeFrame(corrupted) == Failure(ChecksumMismatch)
  {
    if i == 0 {
      assert corrupted[1..] == frame[1..];
    } else {
      SingleByteChangeDetected(frame[1..], corrupted[1..], i - 1);
    }
  }
}
