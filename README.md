# LoCave serial bridge and chat relay, modelled in Dafny

This project models the protocol engine of the LoCave base station and the
state of its chat-relay client. The base station bridges a mesh of cave
nodes, reached over a serial link, to an HTTP interface and a group chat.

The bridge (`ProtocolSerialBridge`) does the following:

- It stamps every outgoing message with a sequence number. The number
  counts modulo 256 and is kept in a text file across restarts.
- It lays out the 8-byte link header: checksum, link sender, source,
  destination, time to live, sequence number, type and length. The payload
  follows the header.
- It protects the frame with a bit-serial CRC-8. That CRC is
  CRC-8/MAXIM (Dallas 1-Wire), polynomial x^8 + x^5 + x^4 + 1.
- It drops received frames that are empty, shorter than the header, or
  fail the checksum.
- It dispatches the other frames on their type:
  - every message refreshes the sender's entry in the ping table;
  - a DATA message goes into a history bounded to 200 entries, is relayed
    to the chat, and is answered with a BASE_CONFIRM reply;
  - a BLE scan result records 16-bit device IDs;
  - a STATUS message replaces the node's neighbour list. It replaces the
    weather too when the message has a `;` weather part, and otherwise keeps
    the weather from before.
- It answers queries on these tables: BLE sightings sorted by ID, the
  topology of nodes heard within 600 seconds, and the node list.

The chat-relay client (`LoCaveTelegramBot`) has three parts that are
modelled:

- two FIFO queues between the bridge and the chat;
- its `key;value` settings file, which holds the bot token and the paired
  chat id;
- the pairing rules. A chat that sends the password is paired. Any other
  chat is left. A "left" status from the paired chat drops the pairing;
  no other status change does.

## How the model is organised

| file | module | models |
|---|---|---|
| `wrappers.dfy` | `Wrappers` | `Option` and `Result` |
| `bytes.dfy` | `Bytes` | bytes; `str.encode()` and strict `bytes.decode()` (UTF-8) |
| `pytext.dfy` | `PyText` | `str.strip()`, `str.split(sep)`, `int()` and `str()` on integers |
| `bits8.dfy` | `ByteBits` | bytes as 8-bit vectors |
| `crc8.dfy` | `Checksum` | `crc8`, as a fold and as the nested loops |
| `crc8_maxim.dfy` | `MaximReference` | CRC-8/MAXIM from its catalogue parameters, and the proof that `crc8` computes it |
| `frame.dfy` | `Frame` | frame layout, the receive check, message building |
| `sequence.dfy` | `SequenceStore` | the sequence counter and its file |
| `registry.dfy` | `Registry` | history, printable filter, BLE, STATUS parsing, topology and node views |
| `bot.dfy` | `ChatRelay` | the settings file format and the `Bot` class |
| `bridge.dfy` | `SerialBridge` | the `ProtocolSerialBridge` class |

The bridge and the bot are classes whose methods update their fields.
Those fields are the tables, the queues, the sequence number, the link
state and the two files. The loops of the source are methods with loop
invariants:

- the checksum loops;
- the BLE scan loop;
- the `get_ble_results` loop;
- the `read_config` loop.

Each loop method is proved equal to a specification function. The
properties are proved about those functions.

The world outside the program becomes parameters or fields:

- **Time.** `now` is an integer parameter. Ages are `now - t`.
- **Serial link.** It is an `linkOpen` flag plus `wire`, the sequence of
  frames written. Frames are unframed, because SLIP framing is outside the
  model. Whether a write succeeds is the parameter `writeOk`.
- **Files.** The `.sequence` file and `bot.config` are `Option<string>`
  fields. `None` means the file does not exist.
- **Chat service.** Its calls are returned as a list of actions: send a
  text, leave a chat, start the queue job.
- **Password.** The bot's random password is a constructor parameter.

Some behaviour of the code is easy to miss. The model keeps each point as
the code has it, except the first:

- **Length byte.** The code writes the number of characters of the
  payload as the header's length byte, not the number of bytes
  (protocol-serial-bridge.py:304). This is a defect; see "## Findings".
  The bridge class of this model builds its frames with the corrected
  builder, so for non-ASCII payloads its frames differ from the code's.
  "## Left out" names the members concerned.
- **Weather part.** A STATUS message's weather part is stored after
  splitting it on `,`.
- **Undecodable payloads.** A DATA or STATUS payload that is not valid
  UTF-8 makes `data.decode()` raise. The handling then stops after the
  ping-table update: nothing is recorded, relayed or confirmed.
- **Leaving the paired chat.** The status change that drops the pairing
  is only "left". The source's list `[ChatMember.LEFT, ChatMember]` holds
  the class itself, which never equals a status string, so a "kicked"
  status leaves the pairing in place.
- **Promotion in the paired chat.** A bot that becomes a member or
  administrator of a chat while paired says goodbye and leaves that chat.
  This holds even when that chat is the paired one.

## Model

| member | source | states |
|---|---|---|
| Bytes.EncodeChar | protocol-serial-bridge.py:307 | `Encode`, the model of `payload.encode()`, is this function applied character by character. A character's UTF-8 form has one to four bytes, and a single byte exactly for code points below 0x80 |
| Bytes.DecodeOfEncode | protocol-serial-bridge.py:307 | decoding the encoded payload gives back the text: `decode(encode(s)) == s` for every string |
| Bytes.EncodeLength | protocol-serial-bridge.py:304-307 | the encoded payload has at least as many bytes as the text has characters, and exactly as many iff the text is ASCII |
| Bytes.Decode | protocol-serial-bridge.py:230-237 | strict `data.decode()`: a successful decode re-encodes to exactly its input bytes, so it accepts only canonical UTF-8 |
| Bytes.EncodeOfDecodeChar | protocol-serial-bridge.py:230 | a decoded character re-encodes to exactly the bytes it was decoded from |
| PyText.StripIsTrimmedSlice | protocol-serial-bridge.py:138 | `Strip`, the model of `strip()`, returns a slice of its input. Only whitespace is cut from either end, and the result neither starts nor ends with whitespace |
| PyText.StripUnchanged | protocol-serial-bridge.py:138 | a text without whitespace at its ends is left unchanged by `strip()` |
| PyText.StripIgnoresTrailingSpace | telegram_bot/bot.py:56 | a trailing whitespace character, such as a line's `\n`, does not change `strip()` |
| PyText.Split | protocol-serial-bridge.py:256 | `split(sep)` gives at least one piece, and no piece contains the separator |
| PyText.JoinOfSplit | protocol-serial-bridge.py:256 | joining the pieces with the separator gives back the text |
| PyText.SplitOfJoin | protocol-serial-bridge.py:261 | pieces free of the separator, once joined, split back into the same pieces |
| PyText.SplitWithoutSep | protocol-serial-bridge.py:256 | a text without the separator splits into itself alone |
| PyText.SplitPieceCount | protocol-serial-bridge.py:259 | the split has more than one piece exactly when the separator occurs |
| PyText.NatToString | protocol-serial-bridge.py:145 | `str(n)` of a natural number is non-empty and made of decimal digits |
| PyText.ParseIntOfIntToString | protocol-serial-bridge.py:138-145 | `ParseInt` (`int()`) inverts `IntToString` (`str()`): `int(str(n)) == n` for every integer |
| PyText.IntTrim | protocol-serial-bridge.py:266-271 | the text `int()` reads starts where its skipped leading whitespace ends and neither starts nor ends with that whitespace. For ASCII text that is only `\t`, `\n`, `\v`, `\f`, `\r` and space, not the separators U+001C..U+001F that `strip()` removes |
| PyText.IntRejectsFileSeparator | telegram_bot/bot.py:232 | `int("\x1c0")` is a ValueError, while `int(" 0")` is 0 |
| PyText.StripSkipsFileSeparator | protocol-serial-bridge.py:138 | `strip()` does remove U+001C, so `int(strip(...))` on the sequence file reads "\x1c0" as 0 |
| Checksum.ComputeCrc8 | protocol-serial-bridge.py:121-132 | the nested loops over bytes and bits return the specification function `Crc8(data)`, whose meaning is the CRC-8/MAXIM rows below |
| Checksum.FoldAppend | protocol-serial-bridge.py:124-131 | the outer loop is a left fold: folding `a + b` continues from the register `a` leaves |
| Checksum.Crc8Append | protocol-serial-bridge.py:121-132 | `crc8(a + b)` is the fold over `b` started from the register that `crc8(a)` leaves |
| Checksum.UpdateByteUnrolled | protocol-serial-bridge.py:126-131 | one byte is eight inner passes, with the input shifted right one bit per pass |
| Checksum.CheckValue | protocol-serial-bridge.py:121-132 | `crc8` of ASCII "123456789" is 0xA1, the CRC-8/MAXIM check value |
| Checksum.UpdateByteIsLookup | protocol-serial-bridge.py:124-131 | one byte's update depends only on register XOR byte, as in a table-driven CRC |
| Checksum.UpdateByteInjectiveInRegister | protocol-serial-bridge.py:126-131 | different registers stay different after the same input byte |
| Checksum.UpdateByteInjectiveInByte | protocol-serial-bridge.py:126-131 | from the same register, different input bytes give different registers |
| Checksum.FoldInjective | protocol-serial-bridge.py:124-131 | different starting registers give different results over the same data |
| Checksum.FoldDiffersAt | protocol-serial-bridge.py:124-131 | replacing one byte by another, whatever surrounds it, changes the final register |
| Checksum.SingleByteChangeDetected | protocol-serial-bridge.py:121-132 | two inputs of the same length that differ in exactly one byte have different checksums |
| MaximReference.UpdateByteIsReflectedNormal | protocol-serial-bridge.py:126-131 | one byte of the LSB-first register equals one byte of MSB-first division by 0x31, seen through bit reversal |
| MaximReference.FoldIsReflectedNormal | protocol-serial-bridge.py:124-131 | the whole fold equals the reflected MSB-first CRC over the same bytes |
| MaximReference.Crc8IsMaxim | protocol-serial-bridge.py:121-132 | `crc8` equals CRC-8/MAXIM: width 8, polynomial 0x31, initial value 0, input and output reflected, no final XOR |
| Frame.PacketBytes | protocol-serial-bridge.py:295-307 | a packet's bytes are the 8 header bytes in wire order followed by the payload |
| Frame.DecodeFrame | protocol-serial-bridge.py:159-171 | a frame is accepted iff it has at least 8 bytes and byte 0 equals crc8 of the rest. An accepted frame's fields and payload put back in order are the frame itself, so the payload is everything after byte 8 whatever the length byte says |
| Frame.DecodePacketBytes | protocol-serial-bridge.py:166-171 | a packet's bytes are accepted exactly when its checksum field is right, and then decode to the same packet |
| Frame.ShortFramesRejected | protocol-serial-bridge.py:159-162 | empty frames and frames shorter than the header are dropped, whatever their checksum byte |
| Frame.CorruptedFrameRejected | protocol-serial-bridge.py:171-173 | a valid frame with any single byte changed is dropped for checksum mismatch, whether the change is in the checksum byte, the header or the payload |
| Frame.Sealed | protocol-serial-bridge.py:295-308 | the built bytes are header fields with link sender 0 and the body, and byte 0 is crc8 of the bytes after it |
| Frame.BuildMessageAsWritten | protocol-serial-bridge.py:295-308 | the frame as written: it fails iff a header value is outside 0..255, counting `len(payload)` in characters. Its length byte is the character count, and the bytes after the header are the UTF-8 payload |
| Frame.BuildMessage | protocol-serial-bridge.py:295-308 | the corrected frame: it fails iff a header value or the encoded payload size is outside 0..255. Its length byte equals the number of payload bytes that follow |
| Frame.BuildMessageRoundTrip | protocol-serial-bridge.py:295-308 | a built message passes the receive check and decodes to the source, destination, ttl, sequence number and type it was built from, with link sender 0. Its length byte matches and its payload decodes back to the sent text |
| Frame.AsWrittenAgreesOnAscii | protocol-serial-bridge.py:304-307 | for ASCII payloads the code as written and the corrected builder produce the same result |
| Frame.AsWrittenLengthByteCountsCharacters | protocol-serial-bridge.py:304-307 | as written, the one-character payload "é" gets length byte 1 but two payload bytes |
| SequenceStore.LoadSequence | protocol-serial-bridge.py:135-140 | a missing file loads as 0 |
| SequenceStore.LoadUnparsableSequence | protocol-serial-bridge.py:138-140 | a file whose stripped text is not an integer loads as 0 |
| SequenceStore.SequenceText | protocol-serial-bridge.py:143-145 | the saved text `str(n)` reads back with `int()` as n |
| SequenceStore.LoadSavedSequence | protocol-serial-bridge.py:135-145 | loading what was saved gives the same number back |
| SequenceStore.NextSequence | protocol-serial-bridge.py:291 | the next number is in 0..255. It is n + 1 below 255 and wraps from 255 to 0 |
| SequenceStore.CountFrom | protocol-serial-bridge.py:291 | k increments from n in 0..255 give (n + k) mod 256 |
| SequenceStore.SequenceCycles | protocol-serial-bridge.py:291 | 256 sends bring the counter back to where the first send put it |
| Registry.AppendBounded | protocol-serial-bridge.py:223-235 | the new entry is last. Below the bound it is simply appended; at the bound the oldest entry is evicted; the bound is never exceeded |
| Registry.Newest | protocol-serial-bridge.py:333-334 | the newest entries are a suffix of at most MaxMessages elements, and exactly MaxMessages when there are that many |
| Registry.AppendBoundedIsNewest | protocol-serial-bridge.py:322-334 | one bounded append keeps exactly the newest MaxMessages entries |
| Registry.NewestOfNewest | protocol-serial-bridge.py:322-334 | trimming before more entries arrive gives the same history as trimming once at the end |
| Registry.HistoryKeepsNewest | protocol-serial-bridge.py:322-334 | after any number of appends the history is exactly the newest 200 entries, oldest first, so FIFO eviction |
| Registry.Printable | protocol-serial-bridge.py:230 | the filtered text is no longer than the input and holds only characters 0x20..0x7E |
| Registry.PrintableAppend | protocol-serial-bridge.py:15 | the filter works character by character: it distributes over concatenation |
| Registry.PrintableKeepsPrintable | protocol-serial-bridge.py:15 | printable text passes unchanged |
| Registry.PrintableIdempotent | protocol-serial-bridge.py:15 | filtering twice is filtering once |
| Registry.PrintableKeepsExactlyPrintable | protocol-serial-bridge.py:15 | nothing is removed iff every character is printable |
| Registry.BleIds | protocol-serial-bridge.py:248-249 | the payload yields len/2 IDs. ID k is byte 2k times 256 plus byte 2k+1, and a trailing odd byte is ignored |
| Registry.BleIdsAreSixteenBit | protocol-serial-bridge.py:249 | every ID is in 0..65535 |
| Registry.BleIdsExample | protocol-serial-bridge.py:248-249 | payload 12 34 AB CD 07 gives IDs 0x1234 and 0xABCD |
| Registry.MarkSeen | protocol-serial-bridge.py:248-250 | the table afterwards holds the old IDs and the new ones. New IDs carry now; the others keep their time |
| Registry.RecordSightings | protocol-serial-bridge.py:243-250 | the same, for the IDs of a scan payload |
| Registry.SortedIds | protocol-serial-bridge.py:353 | the keys in strictly ascending order, each exactly once |
| Registry.SightingsOf | protocol-serial-bridge.py:353-354 | one sighting per listed ID, in order, aged now minus its time |
| Registry.BleReportOf | protocol-serial-bridge.py:345-355 | one sighting per device of the table, in strictly ascending ID order, each aged now minus its time |
| Registry.BleReportCovers | protocol-serial-bridge.py:353-354 | a device appears in the report iff it is in the table |
| Registry.InterfaceName | protocol-serial-bridge.py:61-66 | codes 0..3 are CAVE, EXIT, RF and ALL. Any other code n is `UNKNOWN_` followed by text that `int()` reads back as n |
| Registry.InterfaceNameInjective | protocol-serial-bridge.py:268-270 | different interface codes get different names, including the `UNKNOWN_<n>` ones |
| Registry.ParseNeighborEntry | protocol-serial-bridge.py:266-271 | an entry parses iff it has exactly three `:`-separated pieces and `int()` accepts each. The neighbour is then the first and third numbers, with the second number's interface name |
| Registry.ParseNeighborText | protocol-serial-bridge.py:266-271 | the entry `node:code:rssi` parses to that neighbour with its interface named |
| Registry.EntryNeighbors | protocol-serial-bridge.py:262-274 | one entry contributes at most one neighbour |
| Registry.ParseNeighbors | protocol-serial-bridge.py:262-274 | the neighbour list has at most one neighbour per entry, and each neighbour is the parse of some non-empty entry |
| Registry.NeighborsFromEntries | protocol-serial-bridge.py:262-274 | each neighbour found comes from a non-empty entry that parses to it, so malformed and empty entries contribute nothing |
| Registry.ParseNeighborsAppend | protocol-serial-bridge.py:262-274 | entries are handled independently. The neighbours of `a + b` are those of `a` followed by those of `b` |
| Registry.MalformedEntrySkipped | protocol-serial-bridge.py:272-274 | a malformed entry anywhere in the list is skipped without affecting the entries around it |
| Registry.ParseStatus | protocol-serial-bridge.py:256-261 | a STATUS text carries weather exactly when its stripped text contains `;` |
| Registry.ParseStatusWithWeather | protocol-serial-bridge.py:256-274 | entries and weather pieces free of `,` and `;`, joined with `,` around one `;` and with no whitespace at the ends, parse to the neighbours of those entries and exactly those weather pieces |
| Registry.ParseStatusWithoutWeather | protocol-serial-bridge.py:256-274 | entries free of `,` and `;`, joined with `,` and with no whitespace at the ends, parse to the neighbours of those entries and no weather |
| Registry.ExampleNeighbors | protocol-serial-bridge.py:262-274 | the entries `1:0:-50`, `bad-entry`, `2:1:-60` give neighbours (1, CAVE, -50) and (2, EXIT, -60) |
| Registry.ParseStatusExample | protocol-serial-bridge.py:254-274 | the STATUS text "1:0:-50,bad-entry,2:1:-60" gives those two neighbours and no weather |
| Registry.UpdateStatus | protocol-serial-bridge.py:276-286 | time and neighbours are replaced. The weather is replaced only when the message carries one and is otherwise kept from before |
| Registry.Topology | protocol-serial-bridge.py:500-515 | a node is listed iff its status is younger than 600 s, with that status's time, neighbours, weather and age |
| Registry.TopologyShrinksOverTime | protocol-serial-bridge.py:513 | without new STATUS messages, nodes only drop out of the topology as time passes |
| Registry.FreshStatusReported | protocol-serial-bridge.py:276-286 | a node that has just sent its status is in the topology with age 0 |
| Registry.Nodes | protocol-serial-bridge.py:452-465 | every node of the ping table is listed with its last-seen time, age and ttl, and nothing else |
| Registry.NodesAfterContact | protocol-serial-bridge.py:216-218 | after a message from a node, the node list shows it seen 0 s ago with the message's ttl. The other nodes are unchanged |
| ChatRelay.UniversalNewlines | telegram_bot/bot.py:54-55 | text read in text mode has no `\r`. Text without `\r` is unchanged |
| ChatRelay.Lines | telegram_bot/bot.py:54-55 | `readlines()`: the lines put together give back the text. Each line is non-empty and has `\n` at most at its end, and every line but the last ends with `\n` |
| ChatRelay.ConfigEntry | telegram_bot/bot.py:56 | a line gives a pair iff its stripped text splits on `;` into exactly two pieces. The key and value contain no `;`, and the stripped line is `key;value` |
| ChatRelay.ParseConfig | telegram_bot/bot.py:50-58 | a failure names a line of the file that is not one `key;value` pair |
| ChatRelay.ReadConfig | telegram_bot/bot.py:50-58 | a missing file is an error. Otherwise the loop returns the specification `ParseConfig` of the file's lines |
| ChatRelay.FailureIsFinal | telegram_bot/bot.py:55-56 | once a line is malformed, reading fails with that line whatever follows |
| ChatRelay.ParseConfigSucceeds | telegram_bot/bot.py:55-57 | reading succeeds iff every line is one `key;value` pair |
| ChatRelay.LastLineWins | telegram_bot/bot.py:55-57 | a key takes the value of the last line that sets it |
| ChatRelay.KeysComeFromLines | telegram_bot/bot.py:55-57 | every key read comes from some line |
| ChatRelay.ApplyConfig | telegram_bot/bot.py:227-232 | the token becomes the file's token when it has one. chat_id None sets the chat id to None; an integer text sets it to `int()` of the text; any other text is an error that leaves the chat id as it was. Without the key nothing changes |
| ChatRelay.LinesOfTerminated | telegram_bot/bot.py:54-55 | text made of `\n`-terminated lines reads back as those lines, each with its `\n` |
| ChatRelay.ConfigTextLines | telegram_bot/bot.py:203-209 | `ConfigText`, the text write_config writes, reads back as exactly the lines written |
| ChatRelay.EntryOfLine | telegram_bot/bot.py:207-209 | a written `key;value` line reads back as that pair |
| ChatRelay.LoadSaved | telegram_bot/bot.py:227-232 | loading the saved dictionary into empty settings restores the token and chat id |
| ChatRelay.ConfigRoundTrip | telegram_bot/bot.py:203-209 | what write_config saves, read back and loaded into a fresh bot, restores the token and chat id. This needs a token that is not empty, holds no `;`, `\n` or `\r`, and does not end in whitespace, and a non-zero chat id |
| ChatRelay.Bot.constructor | telegram_bot/bot.py:34-46 | a new bot has empty queues and no token or chat id |
| ChatRelay.Bot.RxEmpty | telegram_bot/bot.py:171-173 | true exactly when the receive queue is empty |
| ChatRelay.Bot.PopRx | telegram_bot/bot.py:175-179 | it returns None on an empty queue. Otherwise it returns the oldest message and removes exactly that one; nothing else changes |
| ChatRelay.Bot.SendToTelegram | telegram_bot/bot.py:181-183 | the message is appended at the tail of the send queue; nothing else changes |
| ChatRelay.Bot.WriteConfig | telegram_bot/bot.py:203-209 | the file becomes the text of the current token and chat id; the settings are unchanged |
| ChatRelay.Bot.LoadConfig | telegram_bot/bot.py:227-232 | the new settings and the error are those of ApplyConfig on the old settings |
| ChatRelay.Bot.LoadStoredConfig | telegram_bot/bot.py:92-98 | the file is read. Any failure to read counts as an empty dictionary, which is then loaded |
| ChatRelay.Bot.SetToken | telegram_bot/bot.py:138-147 | a malformed file fails before anything changes; a missing file counts as empty. Otherwise the token becomes t, the chat id None, and the file holds the token alone |
| ChatRelay.Bot.ProcessChatMessage | telegram_bot/bot.py:239-262 | Unpaired: the password pairs the chat, saves the file and starts the queue job; any other text leaves the chat. Paired: texts from the paired chat are queued and other chats are left |
| ChatRelay.Bot.GroupStatusChanged | telegram_bot/bot.py:264-284 | Joining while unpaired asks for the password. Joining while paired says goodbye and leaves. "Left" from the paired chat drops the pairing and saves the file. Nothing else changes |
| SerialBridge.ConfirmFits | protocol-serial-bridge.py:238-242 | the BASE_CONFIRM reply, whose payload is str(seq), always builds |
| SerialBridge.ComposeFrame | protocol-serial-bridge.py:295-308 | the in-place construction returns BuildMessage, and every frame it builds passes the receive check with a correct length byte |
| SerialBridge.ScanSightings | protocol-serial-bridge.py:248-250 | the BLE loop computes RecordSightings |
| SerialBridge.ListSightings | protocol-serial-bridge.py:353-354 | the get_ble_results loop computes SightingsOf |
| SerialBridge.ProtocolSerialBridge.constructor | protocol-serial-bridge.py:68-89 | the sequence number is loaded from its file, the link is open, and every table is empty |
| SerialBridge.ProtocolSerialBridge.SendMessage | protocol-serial-bridge.py:289-334 | the sequence number advances mod 256 and is saved even if the build or the write fails. The frame is written only on an open link, and a failed write closes the link. Only DATA is recorded, as "sent" iff the source is 0. The history stays bounded and every written frame is well formed |
| SerialBridge.ProtocolSerialBridge.WriteFrame | protocol-serial-bridge.py:310-319 | nothing is written while the link is closed, and a failed write closes it |
| SerialBridge.ProtocolSerialBridge.RecordMessage | protocol-serial-bridge.py:223-235 | the history becomes AppendBounded of the old one; nothing else changes |
| SerialBridge.ProtocolSerialBridge.Ping | protocol-serial-bridge.py:336-338 | it sends HELLO with an empty payload, which builds iff the destination is a byte. The counter advances and is saved; the frame is written as by SendMessage; the history and the tables are unchanged |
| SerialBridge.ProtocolSerialBridge.Broadcast | protocol-serial-bridge.py:340-343 | it queues "0 : message" for the chat, then sends DATA to 255 and records it as sent. The counter advances and is saved, a failed build writes and records nothing, the tables and the bot's other fields are unchanged |
| SerialBridge.ProtocolSerialBridge.ReceiveFrame | protocol-serial-bridge.py:159-176 | a frame that fails the receive check changes nothing. An accepted one refreshes its source in the ping table |
| SerialBridge.ProtocolSerialBridge.ProcessMessage | protocol-serial-bridge.py:196-286 | Any type sets the source's ping entry and leaves other nodes alone. DATA is recorded filtered, relayed and confirmed with the echoed seq, and the counter file is saved. BLE updates only the source's sightings. STATUS replaces the source's status. An undecodable payload stops after the ping update. The bot's settings file never changes |
| SerialBridge.ProtocolSerialBridge.RelayData | protocol-serial-bridge.py:222-242 | a DATA payload is recorded as received with its filtered text, queued for the chat as `source: text`, and confirmed to the source with `str(seq)`. The confirm always builds; the tables and the bot's settings are unchanged |
| SerialBridge.ProtocolSerialBridge.RecordStatus | protocol-serial-bridge.py:252-286 | the source's status becomes UpdateStatus of its old one with the parsed text; nothing else changes |
| SerialBridge.ProtocolSerialBridge.RecordBleScan | protocol-serial-bridge.py:243-251 | the source's table, created empty if needed, becomes RecordSightings of it |
| SerialBridge.ProtocolSerialBridge.GetBleResults | protocol-serial-bridge.py:345-355 | an unknown node gets an empty table. The result is BleReportOf the node's table: ascending IDs with their ages. Nothing else changes |

## Left out

- SLIP framing (byte stuffing by the external `sliplib` driver) is not part
  of this model. Frames enter and leave the model whole.
- Serial I/O is not modelled beyond a write that succeeds or fails:
  `in_waiting`/`read`, the reconnect loop `_reconnect_serial`, and the
  handling of serial exceptions in `_receive_loop`. These are hardware I/O
  and retries with sleeps.
- Threads, locks and the periodic loops are left out, because the model is
  single-threaded:
  - `_broadcast_ping_loop` and `_ping_sweep_loop`. Each only calls `ping`,
    which is modelled.
  - `_forward_from_telegram`. It drains the bot's receive queue with
    `rx_empty` and `pop_rx`, modelled as Bot.RxEmpty and Bot.PopRx, and
    sends each message as DATA to 255 from source 254 with `_send_message`,
    which is modelled. The loop itself, with its sleeps, is left out.
  - `close`.
- `_send_weather_data` is left out. It is an HTTP fetch followed by
  `broadcast`, and `broadcast` is modelled.
- `time.time()` is an integer parameter. Float timestamps and
  `int(now - t)` are modelled on integers, so sub-second fractions are not
  captured.
- The `RX:` log line and the other prints of `_process_message` are left
  out, including the log line's lenient decode with `errors='replace'`.
  They are output only.
- The Flask routes, JSON encoding, the command line and the SIGTERM handler
  are left out. Of these, only the data that `get_topology` and `get_nodes`
  compute is modelled.
- The `get_messages` route is left out. It is a read-only projection of the
  history, with ages added.
- In bot.py, the asynchronous chat API is left out:
  - `init`, beyond reading and loading the settings, including its
    `InvalidToken` raise for a missing token;
  - `start`, `stop`, `on_startup`, `is_telegram_connected`,
    `_process_tx_queue`, `_start`, `setup_logger`, and the restart flag.
  The send queue and the pairing handlers are modelled.
- The password is not generated randomly; it is a constructor parameter.
- update_all.py is not part of this model. It does network discovery and
  firmware upload through code that is not available.
- SerialBridge.ProtocolSerialBridge.ReceiveFrame: for an accepted frame,
  its contract states only the ping-table update. The rest of the effect
  is the contract of ProcessMessage, which it calls.
- Frame.BuildMessage: the bridge uses this corrected builder, so the
  length byte counts payload bytes. The code as written is
  Frame.BuildMessageAsWritten. See "## Findings".
- SerialBridge.ComposeFrame: builds the corrected frame. Its length byte
  counts encoded bytes, and a payload whose encoding exceeds 255 bytes
  fails. The code writes the character count and builds any payload of at
  most 255 characters. For a 200-character text made of "é" the code
  builds a frame with length byte 200 and 400 payload bytes; here the
  build fails. With a single "é" among 200 characters the code writes
  length byte 200, this model 201.
- SerialBridge.ProtocolSerialBridge.SendMessage: uses the corrected
  builder. A non-ASCII payload of at most 255 characters whose encoding
  exceeds 255 bytes is written and, for DATA, recorded by the code; here
  nothing is written or recorded, though the counter still advances and
  is saved. For any other payload the length byte differs from the code's
  only when the payload is not ASCII.
- SerialBridge.ProtocolSerialBridge.Broadcast: as SendMessage. A
  200-character message with "é" in every place is written and recorded
  as sent by the code, with length byte 200; here it is only queued for
  the chat, and nothing is written or recorded.
- PyText.ParseInt: accepts ASCII digits only. Python's `int()` also
  accepts the other Unicode decimal digits, such as Arabic-Indic ones, so
  those texts parse in the code and fail here. The limit of 4300 digits
  that Python 3.11 and later put on `int()` of a text is not modelled
  either: longer digit strings parse here and raise ValueError there.
- Bytes.Encode: Dafny's `char` cannot hold a lone surrogate. In the code,
  `payload.encode()` raises for such a payload at
  protocol-serial-bridge.py:307, after the counter has been saved; that
  error path is not modelled.

## Findings

| source | as written | input that shows it | evidently intended | confidence | as-written member | corrected member |
|---|---|---|---|---|---|---|
| protocol-serial-bridge.py:304-307 | the length byte is `len(payload)`, the number of characters of the text, while the frame carries `payload.encode()` | payload "é": one character, two UTF-8 bytes. The length byte says 1 and two payload bytes follow. A 200-character non-ASCII text can also pass the `bytearray` range check while its encoding needs more than 255 bytes | the length byte counts the encoded payload bytes that follow the header | not executed; follows from the code as written | Frame.AsWrittenLengthByteCountsCharacters | Frame.BuildMessageRoundTrip |
