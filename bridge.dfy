/** The bridge between the serial link to the node network and its users:
    it stamps and sends frames, checks and dispatches received frames, and
    keeps the node tables the query side reads. The serial link is a flag
    saying whether it is open and the sequence of frames written to it; a
    write either succeeds or fails (writeOk), and a failed write closes the
    link. The time of each event is a parameter. */
module SerialBridge {
  import opened Wrappers
  import opened Bytes
  import opened PyText
  import opened Frame
  import opened SequenceStore
  import opened Registry
  import ChatRelay

  // Message types.
  const DataType: int := 0
  const AckType: int := 1
  const HelloType: int := 2
  const StatusType: int := 3
  const BleScanResultType: int := 4
  const BaseConfirmType: int := 5
  const PingResponseType: int := 254
  const PingType: int := 255

  // Addresses.
  const BridgeAddress: int := 0
  const TelegramAddress: int := 254
  const BroadcastAddress: int := 255

  /** The default time to live of a sent message. */
  const DefaultTtl: int := 25

  /** What every frame the bridge writes satisfies: it passes the receive
      check, and its length byte is the number of payload bytes. */
  predicate WellFormedFrame(f: seq<Byte>) {
    DecodeFrame(f).Success? && f[7] as int == |f| - HeaderSize
  }

  /** The BASE_CONFIRM reply to a DATA message with sequence number seqNo:
      its payload is str(seqNo), at most three ASCII digits, so it always
      fits in a frame. */
  lemma ConfirmFits(dest: Byte, seqNo: Byte, ownSeq: int)
    requires 0 <= ownSeq < 256
    ensures BuildMessage(BridgeAddress, dest as int, DefaultTtl, ownSeq, BaseConfirmType,
                         IntToString(seqNo as int)).Success?
  {
    var n := seqNo as int;
    var s := IntToString(n);
    assert |s| <= 3 by {
      if n >= 10 {
        assert |NatToString(n / 10)| <= 2 by {
          if n / 10 >= 10 { assert n / 10 / 10 < 10; }
        }
      }
    }
    assert IsAscii(s);
    EncodeLength(s);
  }

  /** The frame construction of _send_message: the header with a zero
      checksum byte and link sender 0, the encoded payload, then byte 0
      overwritten by crc8 of the bytes after it. */
  method ComposeFrame(source: int, dest: int, ttl: int, seqNo: int, msgType: int, payload: string)
    returns (r: Result<seq<Byte>, BuildError>)
    ensures r == BuildMessage(source, dest, ttl, seqNo, msgType, payload)
    ensures r.Success? ==> WellFormedFrame(r.value)
  {
    var body := Encode(payload);
    if !(IsByte(source) && IsByte(dest) && IsByte(ttl) && IsByte(seqNo)
         && IsByte(msgType) && IsByte(|body|)) {
      return Failure(FieldOutOfRange);
    }
    var header: seq<Byte> := [0, 0, source as Byte, dest as Byte, ttl as Byte,
                              seqNo as Byte, msgType as Byte, |body| as Byte];
    var message := header + body;
    ghost var unsealed := Packet(0, 0, source as Byte, dest as Byte, ttl as Byte,
                                 seqNo as Byte, msgType as Byte, |body| as Byte, body);
    assert message == PacketBytes(unsealed);
    var crc := Checksum.ComputeCrc8(message[1..]);
    message := message[0 := crc];
    assert message == PacketBytes(unsealed.(l2Crc := crc));
    r := Success(message);
    BuildMessageRoundTrip(source, dest, ttl, seqNo, msgType, payload);
  }

  /** The loop of the BLE branch of _process_message: every consecutive
      pair of payload bytes is a 16-bit ID, marked as seen at now. */
  method ScanSightings(start: map<int, int>, data: seq<Byte>, now: int) returns (seen: map<int, int>)
    ensures seen == RecordSightings(start, data, now)
  {
    seen := start;
    ghost var ids := BleIds(data);
    var i := 1;
    ghost var k := 0;
    while i < |data|
      invariant i == 2 * k + 1 && 0 <= k <= |ids|
      invariant MarkSeen(seen, ids[k..], now) == RecordSightings(start, data, now)
    {
      var id := data[i - 1] as int * 256 + data[i] as int;
      assert ids[k] == id;
      assert ids[k..][1..] == ids[k + 1..];
      seen := seen[id := now];
      i := i + 2;
      k := k + 1;
    }
    assert ids[k..] == [];
  }

  /** The loop of get_ble_results: one entry per listed device, in order,
      with how long ago it was seen. */
  method ListSightings(ids: seq<int>, table: map<int, int>, now: int) returns (results: seq<Sighting>)
    requires forall j :: 0 <= j < |ids| ==> ids[j] in table
    ensures results == SightingsOf(ids, table, now)
  {
    ghost var report := SightingsOf(ids, table, now);
    results := [];
    var k := 0;
    while k < |ids|
      invariant 0 <= k <= |ids| && results == report[..k]
    {
      var sighting := Sighting(ids[k], now - table[ids[k]]);
      assert report[..k + 1] == report[..k] + [sighting];
      results := results + [sighting];
      k := k + 1;
    }
    assert report[..k] == report;
  }

  class ProtocolSerialBridge {
    /** The sequence number of the last frame sent. */
    var sequenceNumber: int
    /** The text of the sequence file, None while it does not exist. */
    var sequenceFile: Option<string>
    var linkOpen: bool
    /** The frames written to the serial link, oldest first. */
    var wire: seq<seq<Byte>>
    /** ping_responses: for each node, when it was last heard and with what ttl. */
    var pingResponses: map<int, PingEntry>
    /** The DATA message history, oldest first. */
    var messages: seq<HistoryEntry>
    /** ble_id_list: for each node, the BLE devices it saw and when. */
    var bleIdList: map<int, map<int, int>>
    /** For each node, its last status. */
    var status: map<int, NodeStatus>
    const bot: ChatRelay.Bot

    ghost predicate Valid()
      reads this
    {
      && |messages| <= MaxMessages
      && forall f :: f in wire ==> WellFormedFrame(f)
    }

    /** The bridge after start-up: the sequence number loaded from its file,
        the link open, every table empty. */
    constructor(sequenceFile: Option<string>, bot: ChatRelay.Bot)
      ensures Valid()
      ensures sequenceNumber == LoadSequence(sequenceFile) && this.sequenceFile == sequenceFile
      ensures linkOpen && wire == []
      ensures pingResponses == map[] && messages == [] && bleIdList == map[] && status == map[]
      ensures this.bot == bot
    {
      this.sequenceFile := sequenceFile;
      sequenceNumber := LoadSequence(sequenceFile);
      linkOpen := true;
      wire := [];
      pingResponses := map[];
      messages := [];
      bleIdList := map[];
      status := map[];
      this.bot := bot;
    }

    /** _send_message: advance and save the sequence number, build the
        frame (failing when a field is not a byte), write it if the link is
        open (closing the link when the write fails), and record DATA
        messages in the history. */
    method SendMessage(dest: int, msgType: int, payload: string, ttl: int, source: int,
                       now: int, writeOk: bool) returns (r: Result<seq<Byte>, BuildError>)
      requires Valid()
      modifies this
      ensures Valid()
      ensures sequenceNumber == NextSequence(old(sequenceNumber))
      ensures sequenceFile == Some(SequenceText(sequenceNumber))
      ensures r == BuildMessage(source, dest, ttl, sequenceNumber, msgType, payload)
      ensures r.Failure? ==>
        wire == old(wire) && linkOpen == old(linkOpen) && messages == old(messages)
      ensures r.Success? ==>
        && wire == old(wire) + (if old(linkOpen) && writeOk then [r.value] else [])
        && linkOpen == (old(linkOpen) && writeOk)
        && messages == if msgType == DataType
                       then AppendBounded(old(messages), HistoryEntry(
                              now, source, dest, if source == BridgeAddress then Sent else Received, payload))
                       else old(messages)
      ensures pingResponses == old(pingResponses) && bleIdList == old(bleIdList) && status == old(status)
    {
      sequenceNumber := (sequenceNumber + 1) % 256;
      sequenceFile := Some(SequenceText(sequenceNumber));
      r := ComposeFrame(source, dest, ttl, sequenceNumber, msgType, payload);
      if r.Failure? {
        return;
      }
      WriteFrame(r.value, writeOk);
      if msgType == DataType {
        RecordMessage(HistoryEntry(now, source, dest,
                                   if source == BridgeAddress then Sent else Received, payload));
      }
    }

    /** The write of _send_message: nothing is written while the link is
        closed; a failed write closes it. */
    method WriteFrame(frame: seq<Byte>, writeOk: bool)
      requires Valid() && WellFormedFrame(frame)
      modifies this
      ensures Valid()
      ensures wire == old(wire) + (if old(linkOpen) && writeOk then [frame] else [])
      ensures linkOpen == (old(linkOpen) && writeOk)
      ensures sequenceNumber == old(sequenceNumber) && sequenceFile == old(sequenceFile)
      ensures messages == old(messages)
      ensures pingResponses == old(pingResponses) && bleIdList == old(bleIdList) && status == old(status)
    {
      if linkOpen {
        if writeOk {
          wire := wire + [frame];
        } else {
          linkOpen := false;
        }
      }
    }

    /** The history update of _send_message and _process_message: append,
        then drop the oldest entry when the history exceeds MaxMessages. */
    method RecordMessage(entry: HistoryEntry)
      requires Valid()
      modifies this
      ensures Valid()
      ensures messages == AppendBounded(old(messages), entry)
      ensures sequenceNumber == old(sequenceNumber) && sequenceFile == old(sequenceFile)
      ensures linkOpen == old(linkOpen) && wire == old(wire)
      ensures pingResponses == old(pingResponses) && bleIdList == old(bleIdList) && status == old(status)
    {
      messages := messages + [entry];
      if |messages| > MaxMessages {
        messages := messages[1..];
      }
    }

    /** ping(destination): a HELLO message with an empty payload. */
    method Ping(destination: int, now: int, writeOk: bool) returns (r: Result<seq<Byte>, BuildError>)
      requires Valid()
      modifies this
      ensures Valid()
      ensures sequenceNumber == NextSequence(old(sequenceNumber))
      ensures sequenceFile == Some(SequenceText(sequenceNumber))
      ensures r == BuildMessage(BridgeAddress, destination, DefaultTtl, sequenceNumber, HelloType, "")
      ensures r.Success? <==> IsByte(destination)
      ensures messages == old(messages)
      ensures r.Failure? ==> wire == old(wire) && linkOpen == old(linkOpen)
      ensures r.Success? ==>
        && wire == old(wire) + (if old(linkOpen) && writeOk then [r.value] else [])
        && linkOpen == (old(linkOpen) && writeOk)
      ensures pingResponses == old(pingResponses) && bleIdList == old(bleIdList) && status == old(status)
    {
      r := SendMessage(destination, HelloType, "", DefaultTtl, BridgeAddress, now, writeOk);
    }

    /** broadcast(message): the text goes to the chat as "0 : <message>"
        and to every node as a DATA message. */
    method Broadcast(message: string, now: int, writeOk: bool) returns (r: Result<seq<Byte>, BuildError>)
      requires Valid()
      modifies this, bot
      ensures Valid()
      ensures bot.txQueue == old(bot.txQueue) + ["0 : " + message]
      ensures bot.rxQueue == old(bot.rxQueue) && bot.chatId == old(bot.chatId)
      ensures bot.token == old(bot.token) && bot.configFile == old(bot.configFile)
      ensures sequenceNumber == NextSequence(old(sequenceNumber))
      ensures sequenceFile == Some(SequenceText(sequenceNumber))
      ensures r == BuildMessage(BridgeAddress, BroadcastAddress, DefaultTtl, sequenceNumber, DataType, message)
      ensures r.Failure? ==> wire == old(wire) && linkOpen == old(linkOpen) && messages == old(messages)
      ensures r.Success? ==>
        && wire == old(wire) + (if old(linkOpen) && writeOk then [r.value] else [])
        && linkOpen == (old(linkOpen) && writeOk)
        && messages == AppendBounded(old(messages), HistoryEntry(now, BridgeAddress, BroadcastAddress, Sent, message))
      ensures pingResponses == old(pingResponses) && bleIdList == old(bleIdList) && status == old(status)
    {
      bot.SendToTelegram("0 : " + message);
      r := SendMessage(BroadcastAddress, DataType, message, DefaultTtl, BridgeAddress, now, writeOk);
    }

    /** The receive path for one whole frame: dropped when it is empty,
        shorter than the header, or fails the checksum; otherwise
        dispatched. */
    method ReceiveFrame(frame: seq<Byte>, now: int, writeOk: bool)
      requires Valid()
      modifies this, bot
      ensures Valid()
      ensures DecodeFrame(frame).Failure? ==> unchanged(this) && unchanged(bot)
      ensures DecodeFrame(frame).Success? ==>
        pingResponses == old(pingResponses)[frame[2] as int := PingEntry(now, frame[4] as int)]
    {
      var decoded := DecodeFrame(frame);
      if decoded.Success? {
        ProcessMessage(decoded.value, now, writeOk);
      }
    }

    /** _process_message: every message refreshes its source in the ping
        table; DATA is recorded, relayed to the chat and confirmed; BLE scan
        results update the source's sightings; STATUS replaces the source's
        status. A DATA or STATUS payload that is not UTF-8 raises, which
        ends the handling after the ping table update. */
    method ProcessMessage(p: Packet, now: int, writeOk: bool)
      requires Valid()
      modifies this, bot
      ensures Valid()
      ensures pingResponses == old(pingResponses)[p.source as int := PingEntry(now, p.ttl as int)]
      // DATA: history, chat relay and the BASE_CONFIRM reply.
      ensures p.msgType as int == DataType && Decode(p.payload).Some? ==>
        var text := Decode(p.payload).value;
        var reply := BuildMessage(BridgeAddress, p.source as int, DefaultTtl, sequenceNumber,
                                  BaseConfirmType, IntToString(p.seqNo as int));
        && messages == AppendBounded(old(messages),
                                     HistoryEntry(now, p.source as int, p.dest as int, Received, Printable(text)))
        && bot.txQueue == old(bot.txQueue) + [IntToString(p.source as int) + ": " + text]
        && sequenceNumber == NextSequence(old(sequenceNumber))
        && sequenceFile == Some(SequenceText(sequenceNumber))
        && reply.Success?
        && wire == old(wire) + (if old(linkOpen) && writeOk then [reply.value] else [])
        && linkOpen == (old(linkOpen) && writeOk)
      ensures !(p.msgType as int == DataType && Decode(p.payload).Some?) ==>
        && messages == old(messages) && wire == old(wire) && linkOpen == old(linkOpen)
        && sequenceNumber == old(sequenceNumber) && sequenceFile == old(sequenceFile)
        && bot.txQueue == old(bot.txQueue)
      // BLE scan results.
      ensures p.msgType as int == BleScanResultType ==>
        bleIdList == old(bleIdList)[p.source as int := RecordSightings(
          if p.source as int in old(bleIdList) then old(bleIdList)[p.source as int] else map[],
          p.payload, now)]
      ensures p.msgType as int != BleScanResultType ==> bleIdList == old(bleIdList)
      // STATUS.
      ensures p.msgType as int == StatusType && Decode(p.payload).Some? ==>
        status == old(status)[p.source as int := UpdateStatus(
          if p.source as int in old(status) then Some(old(status)[p.source as int]) else None,
          ParseStatus(Decode(p.payload).value), now)]
      ensures !(p.msgType as int == StatusType && Decode(p.payload).Some?) ==> status == old(status)
      ensures bot.rxQueue == old(bot.rxQueue) && bot.chatId == old(bot.chatId) && bot.token == old(bot.token)
      ensures bot.configFile == old(bot.configFile)
    {
      var source := p.source as int;
      pingResponses := pingResponses[source := PingEntry(now, p.ttl as int)];
      var msgType := p.msgType as int;
      if msgType == PingResponseType {
      } else if msgType == DataType {
        var decoded := Decode(p.payload);
        if decoded.None? {
          return;
        }
        RelayData(p.source, p.dest as int, p.seqNo, decoded.value, now, writeOk);
      } else if msgType == BleScanResultType {
        RecordBleScan(source, p.payload, now);
      } else if msgType == StatusType {
        var decoded := Decode(p.payload);
        if decoded.None? {
          return;
        }
        RecordStatus(source, decoded.value, now);
      }
    }

    /** The STATUS branch of _process_message once the payload has decoded
        to text: the source's status is replaced by the parsed report. */
    method RecordStatus(source: int, text: string, now: int)
      requires Valid()
      modifies this
      ensures Valid()
      ensures status == old(status)[source := UpdateStatus(
        if source in old(status) then Some(old(status)[source]) else None, ParseStatus(text), now)]
      ensures sequenceNumber == old(sequenceNumber) && sequenceFile == old(sequenceFile)
      ensures linkOpen == old(linkOpen) && wire == old(wire)
      ensures pingResponses == old(pingResponses) && messages == old(messages) && bleIdList == old(bleIdList)
    {
      var previous := if source in status then Some(status[source]) else None;
      status := status[source := UpdateStatus(previous, ParseStatus(text), now)];
    }

    /** The DATA branch of _process_message once the payload has decoded to
        text: record it (printable characters only), relay it to the chat as
        "<source>: <text>", and confirm it with a BASE_CONFIRM reply that
        echoes its sequence number. */
    method RelayData(source: Byte, dest: int, seqNo: Byte, text: string, now: int, writeOk: bool)
      requires Valid()
      modifies this, bot
      ensures Valid()
      ensures messages == AppendBounded(old(messages),
                                        HistoryEntry(now, source as int, dest, Received, Printable(text)))
      ensures bot.txQueue == old(bot.txQueue) + [IntToString(source as int) + ": " + text]
      ensures sequenceNumber == NextSequence(old(sequenceNumber))
      ensures sequenceFile == Some(SequenceText(sequenceNumber))
      ensures var reply := BuildMessage(BridgeAddress, source as int, DefaultTtl, sequenceNumber,
                                        BaseConfirmType, IntToString(seqNo as int));
        && reply.Success?
        && wire == old(wire) + (if old(linkOpen) && writeOk then [reply.value] else [])
        && linkOpen == (old(linkOpen) && writeOk)
      ensures pingResponses == old(pingResponses) && bleIdList == old(bleIdList) && status == old(status)
      ensures bot.rxQueue == old(bot.rxQueue) && bot.chatId == old(bot.chatId) && bot.token == old(bot.token)
      ensures bot.configFile == old(bot.configFile)
    {
      RecordMessage(HistoryEntry(now, source as int, dest, Received, Printable(text)));
      bot.SendToTelegram(IntToString(source as int) + ": " + text);
      ConfirmFits(source, seqNo, NextSequence(sequenceNumber));
      var reply := SendMessage(source as int, BaseConfirmType, IntToString(seqNo as int),
                               DefaultTtl, BridgeAddress, now, writeOk);
    }

    /** The BLE branch of _process_message: the source's sighting table,
        created empty if needed, gets every ID of the payload at now. */
    method RecordBleScan(source: int, data: seq<Byte>, now: int)
      requires Valid()
      modifies this
      ensures Valid()
      ensures bleIdList == old(bleIdList)[source := RecordSightings(
        if source in old(bleIdList) then old(bleIdList)[source] else map[], data, now)]
      ensures sequenceNumber == old(sequenceNumber) && sequenceFile == old(sequenceFile)
      ensures linkOpen == old(linkOpen) && wire == old(wire)
      ensures pingResponses == old(pingResponses) && messages == old(messages) && status == old(status)
    {
      var start := if source in bleIdList then bleIdList[source] else map[];
      var seen := ScanSightings(start, data, now);
      bleIdList := bleIdList[source := seen];
    }

    /** get_ble_results(node): the node's sightings in ascending ID order
        with their ages; an unknown node gets an empty table first. */
    method GetBleResults(node: int, now: int) returns (results: seq<Sighting>)
      requires Valid()
      modifies this
      ensures Valid()
      ensures bleIdList == if node in old(bleIdList) then old(bleIdList) else old(bleIdList)[node := map[]]
      ensures results == BleReportOf(bleIdList[node], now)
      ensures sequenceNumber == old(sequenceNumber) && sequenceFile == old(sequenceFile)
      ensures wire == old(wire) && linkOpen == old(linkOpen)
      ensures pingResponses == old(pingResponses) && messages == old(messages) && status == old(status)
    {
      if node !in bleIdList {
        bleIdList := bleIdList[node := map[]];
      }
      var table := bleIdList[node];
      results := ListSightings(SortedIds(table.Keys), table, now);
    }
  }
}
