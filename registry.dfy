/** The bridge's node registry, as values: the bounded message history, the
    printable-text filter, the BLE scan payload, the STATUS text and the
    read-only views the bridge's HTTP interface derives from its tables.
    Times are whole seconds passed in by the caller. */
module Registry {
  import opened Wrappers
  import opened Bytes
  import opened PyText

  /** MAX_MESSAGES: the history keeps at most this many entries. */
  const MaxMessages: nat := 200

  /** get_topology reports a node only while its status is younger than this. */
  const FreshnessWindow: int := 600

  // ---------------------------------------------------------------------
  // Message history
  // ---------------------------------------------------------------------

  /** The "type" field of a history entry: "sent" or "received". */
  datatype Direction = Sent | Received

  datatype HistoryEntry = HistoryEntry(
    timestamp: int, source: int, dest: int, direction: Direction, content: string)

  /** messages.append(entry), then pop(0) if the list has grown past
      MAX_MESSAGES. */
  function AppendBounded(history: seq<HistoryEntry>, entry: HistoryEntry): (r: seq<HistoryEntry>)
    ensures |r| >= 1 && r[|r| - 1] == entry
    ensures |history| < MaxMessages ==> r == history + [entry]
    ensures MaxMessages <= |history| ==> r == history[1..] + [entry]
    ensures |history| <= MaxMessages ==> |r| <= MaxMessages
  {
    var appended := history + [entry];
    if |appended| > MaxMessages then appended[1..] else appended
  }

  /** The newest MaxMessages elements of s. */
  function Newest(s: seq<HistoryEntry>): (r: seq<HistoryEntry>)
    ensures |r| <= |s| && |r| <= MaxMessages && r == s[|s| - |r|..]
    ensures MaxMessages <= |s| ==> |r| == MaxMessages
  {
    if |s| <= MaxMessages then s else s[|s| - MaxMessages..]
  }

  /** Appending a sequence of entries one by one. */
  function AppendAll(history: seq<HistoryEntry>, entries: seq<HistoryEntry>): seq<HistoryEntry>
    decreases |entries|
  {
    if entries == [] then history
    else AppendAll(AppendBounded(history, entries[0]), entries[1..])
  }

  lemma NewestOfNewest(s: seq<HistoryEntry>, t: seq<HistoryEntry>)
    ensures Newest(Newest(s) + t) == Newest(s + t)
  {
    if |s| > MaxMessages {
      var n := Newest(s);
      if |n + t| > MaxMessages {
        assert (n + t)[|n + t| - MaxMessages..] == (s + t)[|s + t| - MaxMessages..];
      } else {
        assert n + t == (s + t)[|s + t| - MaxMessages..];
      }
    }
  }

  /** However many entries are appended, starting from a history within
      the bound, the history is exactly the newest MaxMessages of all the
      entries, oldest first. */
  lemma {:induction false} HistoryKeepsNewest(history: seq<HistoryEntry>, entries: seq<HistoryEntry>)
    requires |history| <= MaxMessages
    ensures AppendAll(history, entries) == Newest(history + entries)
    decreases |entries|
  {
    if entries == [] {
      assert history + entries == history;
    } else {
      var e, rest := entries[0], entries[1..];
      var h := AppendBounded(history, e);
      AppendBoundedIsNewest(history, e);
      HistoryKeepsNewest(h, rest);
      NewestOfNewest(history + [e], rest);
      AppendFirst(history, entries);
    }
  }

  lemma AppendFirst<T>(a: seq<T>, s: seq<T>)
    requires s != []
    ensures a + [s[0]] + s[1..] == a + s
  {
    assert s == [s[0]] + s[1..];
  }

  /** One bounded append from within the bound keeps the newest entries. */
  lemma AppendBoundedIsNewest(history: seq<HistoryEntry>, entry: HistoryEntry)
    requires |history| <= MaxMessages
    ensures AppendBounded(history, entry) == Newest(history + [entry])
  {
  }

  // ---------------------------------------------------------------------
  // The printable filter: every character outside 0x20..0x7E removed
  // ---------------------------------------------------------------------

  predicate IsPrintable(c: char) {
    0x20 <= c as int <= 0x7E
  }

  /** printable.sub("", text). */
  function Printable(s: string): (r: string)
    ensures |r| <= |s|
    ensures forall i :: 0 <= i < |r| ==> IsPrintable(r[i])
  {
    if s == [] then []
    else (if IsPrintable(s[0]) then [s[0]] else []) + Printable(s[1..])
  }

  /** The filter works character by character. */
  lemma {:induction false} PrintableAppend(a: string, b: string)
    ensures Printable(a + b) == Printable(a) + Printable(b)
  {
    if a != [] {
      PrintableAppend(a[1..], b);
      assert (a + b)[0] == a[0];
      assert (a + b)[1..] == a[1..] + b;
    } else {
      assert a + b == b;
    }
  }

  /** Printable text passes unchanged, so filtering twice is filtering once. */
  lemma {:induction false} PrintableKeepsPrintable(s: string)
    requires forall i :: 0 <= i < |s| ==> IsPrintable(s[i])
    ensures Printable(s) == s
  {
    if s != [] {
      PrintableKeepsPrintable(s[1..]);
    }
  }

  lemma PrintableIdempotent(s: string)
    ensures Printable(Printable(s)) == Printable(s)
  {
    PrintableKeepsPrintable(Printable(s));
  }

  /** Every character kept is one of the input's, in order: nothing but
      removal happens. A character that is printable is never removed. */
  lemma {:induction false} PrintableKeepsExactlyPrintable(s: string)
    ensures |Printable(s)| == |s| <==> forall i :: 0 <= i < |s| ==> IsPrintable(s[i])
  {
    if s != [] {
      var t := s[1..];
      PrintableKeepsExactlyPrintable(t);
      assert |Printable(s)| == (if IsPrintable(s[0]) then 1 else 0) + |Printable(t)|;
      assert |Printable(t)| <= |t|;
      if forall i :: 0 <= i < |s| ==> IsPrintable(s[i]) {
        assert forall i :: 0 <= i < |t| ==> t[i] == s[i + 1];
        assert forall i :: 0 <= i < |t| ==> IsPrintable(t[i]);
      }
      if |Printable(s)| == |s| {
        assert IsPrintable(s[0]) && |Printable(t)| == |t|;
        forall i | 0 <= i < |s| ensures IsPrintable(s[i]) {
          if i > 0 { assert s[i] == t[i - 1]; }
        }
      }
    }
  }

  // ---------------------------------------------------------------------
  // BLE scan results
  // ---------------------------------------------------------------------

  /** The device IDs of a BLE scan payload: consecutive byte pairs read big
      endian, (d[i - 1] << 8) + d[i] for odd i; a trailing odd byte is not
      read. */
  function BleIds(data: seq<Byte>): (ids: seq<int>)
    ensures |ids| == |data| / 2
    ensures forall k :: 0 <= k < |ids| ==>
      ids[k] == data[2 * k] as int * 256 + data[2 * k + 1] as int
    decreases |data|
  {
    if |data| < 2 then []
    else
      var rest := BleIds(data[2..]);
      assert forall k :: 1 <= k < |rest| + 1 ==> data[2..][2 * (k - 1)] == data[2 * k];
      [data[0] as int * 256 + data[1] as int] + rest
  }

  /** Every ID is a 16-bit value. */
  lemma BleIdsAreSixteenBit(data: seq<Byte>)
    ensures forall id :: id in BleIds(data) ==> 0 <= id < 65536
  {
    var ids := BleIds(data);
    forall id | id in ids ensures 0 <= id < 65536 {
      var k :| 0 <= k < |ids| && ids[k] == id;
      assert data[2 * k] as int <= 255 && data[2 * k + 1] as int <= 255;
    }
  }

  /** Each ID in turn marked as seen at now. */
  function MarkSeen(seen: map<int, int>, ids: seq<int>, now: int): (r: map<int, int>)
    ensures forall id :: id in r <==> id in seen || id in ids
    ensures forall id :: id in r ==> r[id] == if id in ids then now else seen[id]
    decreases |ids|
  {
    if ids == [] then seen else MarkSeen(seen[ids[0] := now], ids[1..], now)
  }

  /** The BLE branch of _process_message on one node's sighting table:
      every ID of the payload is recorded as seen at now, other entries
      are kept. */
  function RecordSightings(seen: map<int, int>, data: seq<Byte>, now: int): (r: map<int, int>)
    ensures forall id :: id in r <==> id in seen || id in BleIds(data)
    ensures forall id :: id in r ==> r[id] == if id in BleIds(data) then now else seen[id]
  {
    MarkSeen(seen, BleIds(data), now)
  }

  /** One ID of get_ble_results: the device and how long ago it was seen. */
  datatype Sighting = Sighting(id: int, age: int)

  predicate IsMinOf(m: int, s: set<int>) {
    m in s && forall x :: x in s ==> m <= x
  }

  /** Every non-empty finite set of integers has a least element. */
  lemma {:induction false} MinExists(s: set<int>)
    requires s != {}
    ensures exists m :: IsMinOf(m, s)
    decreases |s|
  {
    if forall y :: y !in s {
      assert false;
    }
    var x :| x in s;
    if s != {x} {
      MinExists(s - {x});
      var m :| IsMinOf(m, s - {x});
      var least := if x < m then x else m;
      forall y | y in s ensures least <= y {
        if y != x { assert y in s - {x}; }
      }
      assert IsMinOf(least, s);
    } else {
      assert IsMinOf(x, s);
    }
  }

  /** The elements of s in ascending order, as sorted(d.items()) visits the
      keys of a dict. */
  function SortedIds(s: set<int>): (r: seq<int>)
    ensures |r| == |s|
    ensures forall i, j :: 0 <= i < j < |r| ==> r[i] < r[j]
    ensures forall x :: x in s <==> x in r
    decreases |s|
  {
    if s == {} then []
    else
      MinExists(s);
      var m :| IsMinOf(m, s);
      var rest := SortedIds(s - {m});
      assert forall x :: x in rest ==> m < x;
      [m] + rest
  }

  /** get_ble_results for one node's sighting table: every device in
      ascending ID order, with how long ago it was last seen. */
  function BleReportOf(table: map<int, int>, now: int): (r: seq<Sighting>)
    ensures |r| == |table.Keys|
    ensures forall i, j :: 0 <= i < j < |r| ==> r[i].id < r[j].id
    ensures forall i :: 0 <= i < |r| ==> r[i].id in table && r[i].age == now - table[r[i].id]
  {
    SightingsOf(SortedIds(table.Keys), table, now)
  }

  /** The listed devices of a table, in the order given, with their ages. */
  function SightingsOf(ids: seq<int>, table: map<int, int>, now: int): (r: seq<Sighting>)
    requires forall j :: 0 <= j < |ids| ==> ids[j] in table
    ensures |r| == |ids|
    ensures forall j :: 0 <= j < |r| ==> r[j] == Sighting(ids[j], now - table[ids[j]])
  {
    seq(|ids|, j requires 0 <= j < |ids| => Sighting(ids[j], now - table[ids[j]]))
  }

  /** Every device of the table appears in the report, and nothing else. */
  lemma BleReportCovers(table: map<int, int>, now: int)
    ensures var r := BleReportOf(table, now);
      forall id :: id in table <==> exists i :: 0 <= i < |r| && r[i].id == id
  {
    var r := BleReportOf(table, now);
    var ids := SortedIds(table.Keys);
    forall id | id in table
      ensures exists i :: 0 <= i < |r| && r[i].id == id
    {
      var i :| 0 <= i < |ids| && ids[i] == id;
      assert r[i].id == id;
    }
  }

  /** A BLE payload from two devices, 0x1234 and 0xABCD, with a stray third
      byte. */
  lemma BleIdsExample()
    ensures BleIds([0x12, 0x34, 0xAB, 0xCD, 0x07]) == [0x1234, 0xABCD]
  {
    var d: seq<Byte> := [0x12, 0x34, 0xAB, 0xCD, 0x07];
    assert d[2..] == [0xAB, 0xCD, 0x07];
    assert d[2..][2..] == [0x07];
    assert BleIds([0x07]) == [];
    assert BleIds(d[2..]) == [0xAB * 256 + 0xCD];
  }

  // ---------------------------------------------------------------------
  // STATUS messages: "node:iface:rssi,node:iface:rssi,...;weather,..."
  // ---------------------------------------------------------------------

  /** INTERFACE_NAMES.get(code, f"UNKNOWN_{code}"). */
  function InterfaceName(code: int): (name: string)
    ensures 0 <= code < 4 ==> name == ["CAVE", "EXIT", "RF", "ALL"][code]
    ensures !(0 <= code < 4) ==>
      |name| > 8 && name[..8] == "UNKNOWN_" && ParseInt(name[8..]) == Some(code)
  {
    ParseIntOfIntToString(code);
    assert ("UNKNOWN_" + IntToString(code))[8..] == IntToString(code);
    if code == 0 then "CAVE"
    else if code == 1 then "EXIT"
    else if code == 2 then "RF"
    else if code == 3 then "ALL"
    else "UNKNOWN_" + IntToString(code)
  }

  lemma IntToStringInjective(a: int, b: int)
    requires IntToString(a) == IntToString(b)
    ensures a == b
  {
    ParseIntOfIntToString(a);
    ParseIntOfIntToString(b);
  }

  /** Different interface codes get different names. */
  lemma InterfaceNameInjective(a: int, b: int)
    requires InterfaceName(a) == InterfaceName(b)
    ensures a == b
  {
    if 0 <= a < 4 || 0 <= b < 4 {
      assert |InterfaceName(a)| <= 4 || |InterfaceName(b)| <= 4;
    }
  }

  /** One entry of the neighbour list: [node_id, interface name, rssi]. */
  datatype Neighbor = Neighbor(nodeId: int, interfaceName: string, rssi: int)

  /** One "node:iface:rssi" entry; None where the source's ValueError skips
      it (not three pieces, or a piece that is not an integer). */
  function ParseNeighborEntry(entry: string): (r: Option<Neighbor>)
    ensures var parts := Split(entry, ':');
      r.Some? <==> && |parts| == 3 && ParseInt(parts[0]).Some?
                   && ParseInt(parts[1]).Some? && ParseInt(parts[2]).Some?
    ensures var parts := Split(entry, ':');
      r.Some? ==> r.value == Neighbor(ParseInt(parts[0]).value, InterfaceName(ParseInt(parts[1]).value),
                                      ParseInt(parts[2]).value)
  {
    var parts := Split(entry, ':');
    if |parts| != 3 then None
    else
      var node, code, rssi := ParseInt(parts[0]), ParseInt(parts[1]), ParseInt(parts[2]);
      if node.Some? && code.Some? && rssi.Some?
      then Some(Neighbor(node.value, InterfaceName(code.value), rssi.value))
      else None
  }

  /** The entry a node sends for one neighbour. */
  function NeighborText(node: int, code: int, rssi: int): string {
    IntToString(node) + ":" + IntToString(code) + ":" + IntToString(rssi)
  }

  lemma NoColonInNumber(n: int)
    ensures ':' !in IntToString(n)
  {
    var s := IntToString(n);
    var d := NatToString(if n < 0 then -n else n);
    if n < 0 {
      assert forall i :: 1 <= i < |s| ==> s[i] == d[i - 1];
    }
  }

  /** A well-formed entry parses to the neighbour it describes. */
  lemma ParseNeighborText(node: int, code: int, rssi: int)
    ensures ParseNeighborEntry(NeighborText(node, code, rssi))
         == Some(Neighbor(node, InterfaceName(code), rssi))
  {
    var parts := [IntToString(node), IntToString(code), IntToString(rssi)];
    NoColonInNumber(node);
    NoColonInNumber(code);
    NoColonInNumber(rssi);
    var a, b, c := IntToString(node), IntToString(code), IntToString(rssi);
    assert parts[1..] == [b, c];
    assert parts[1..][1..] == [c];
    assert Join([c], ':') == c;
    assert Join([b, c], ':') == b + [':'] + c;
    assert Join(parts, ':') == a + [':'] + (b + [':'] + c);
    assert a + [':'] + (b + [':'] + c) == NeighborText(node, code, rssi);
    SplitOfJoin(parts, ':');
    ParseIntOfIntToString(node);
    ParseIntOfIntToString(code);
    ParseIntOfIntToString(rssi);
  }

  /** Each entry's contribution, concatenated in order. */
  function FlatMap<T>(f: string -> seq<T>, entries: seq<string>): seq<T>
    decreases |entries|
  {
    if entries == [] then [] else f(entries[0]) + FlatMap(f, entries[1..])
  }

  lemma {:induction false} FlatMapAppend<T>(f: string -> seq<T>, a: seq<string>, b: seq<string>)
    ensures FlatMap(f, a + b) == FlatMap(f, a) + FlatMap(f, b)
    decreases |a|
  {
    if a == [] {
      assert a + b == b;
    } else {
      assert (a + b)[0] == a[0] && (a + b)[1..] == a[1..] + b;
      FlatMapAppend(f, a[1..], b);
    }
  }

  lemma FlatMapSingle<T>(f: string -> seq<T>, e: string)
    ensures FlatMap(f, [e]) == f(e)
  {
    assert [e][1..] == [];
  }

  /** What one entry contributes: nothing when it is empty or malformed. */
  function EntryNeighbors(entry: string): (r: seq<Neighbor>)
    ensures |r| <= 1
  {
    if entry == [] then []
    else match ParseNeighborEntry(entry)
      case Some(n) => [n]
      case None => []
  }

  /** The loop over the comma-separated entries: empty entries and entries
      that do not parse are skipped, the others kept in order. */
  function ParseNeighbors(entries: seq<string>): (r: seq<Neighbor>)
    ensures |r| <= |entries|
    ensures forall n :: n in r ==>
      exists i :: 0 <= i < |entries| && entries[i] != [] && ParseNeighborEntry(entries[i]) == Some(n)
  {
    NeighborsFromEntries(entries);
    FlatMap(EntryNeighbors, entries)
  }

  /** Each neighbour found comes from one non-empty entry that parses to
      it, and no entry yields more than one. */
  lemma {:induction false} NeighborsFromEntries(entries: seq<string>)
    ensures |FlatMap(EntryNeighbors, entries)| <= |entries|
    ensures forall n :: n in FlatMap(EntryNeighbors, entries) ==>
      exists i :: 0 <= i < |entries| && entries[i] != [] && ParseNeighborEntry(entries[i]) == Some(n)
    decreases |entries|
  {
    if entries != [] {
      var rest := entries[1..];
      NeighborsFromEntries(rest);
      forall n | n in FlatMap(EntryNeighbors, entries)
        ensures exists i :: 0 <= i < |entries| && entries[i] != [] && ParseNeighborEntry(entries[i]) == Some(n)
      {
        if n in EntryNeighbors(entries[0]) {
          assert entries[0] != [] && ParseNeighborEntry(entries[0]) == Some(n);
        } else {
          var j :| 0 <= j < |rest| && rest[j] != [] && ParseNeighborEntry(rest[j]) == Some(n);
          assert entries[j + 1] == rest[j];
        }
      }
    }
  }

  /** Entries are handled independently: the result for a + b is the
      result for a followed by the result for b. */
  lemma ParseNeighborsAppend(a: seq<string>, b: seq<string>)
    ensures ParseNeighbors(a + b) == ParseNeighbors(a) + ParseNeighbors(b)
  {
    FlatMapAppend(EntryNeighbors, a, b);
  }

  /** A malformed entry anywhere in the list is skipped without affecting
      the entries around it. */
  lemma MalformedEntrySkipped(before: seq<string>, entry: string, after: seq<string>)
    requires ParseNeighborEntry(entry).None?
    ensures ParseNeighbors(before + [entry] + after) == ParseNeighbors(before + after)
  {
    ParseNeighborsAppend(before + [entry], after);
    ParseNeighborsAppend(before, [entry]);
    ParseNeighborsAppend(before, after);
    FlatMapSingle(EntryNeighbors, entry);
  }

  /** The parsed form of a STATUS text: its neighbours, and the weather
      pieces when the text has a ';' part. */
  datatype StatusReport = StatusReport(neighbors: seq<Neighbor>, weather: Option<seq<string>>)

  /** text.strip().split(";"): neighbours from the first part split on ',',
      weather from the second part split on ','; further parts are ignored. */
  function ParseStatus(text: string): (r: StatusReport)
    ensures r.weather.Some? <==> ';' in Strip(text)
  {
    var parts := Split(Strip(text), ';');
    SplitPieceCount(Strip(text), ';');
    StatusReport(ParseNeighbors(Split(parts[0], ',')),
                 if |parts| > 1 then Some(Split(parts[1], ',')) else None)
  }

  /** A status text made of neighbour entries, then ';' and weather pieces,
      gives the neighbours those entries parse to and exactly those weather
      pieces. */
  lemma ParseStatusWithWeather(entries: seq<string>, weather: seq<string>)
    requires |entries| >= 1 && |weather| >= 1
    requires forall i :: 0 <= i < |entries| ==> ',' !in entries[i] && ';' !in entries[i]
    requires forall i :: 0 <= i < |weather| ==> ',' !in weather[i] && ';' !in weather[i]
    requires var t := Join(entries, ',') + ";" + Join(weather, ',');
      !IsSpace(t[0]) && !IsSpace(t[|t| - 1])
    ensures ParseStatus(Join(entries, ',') + ";" + Join(weather, ','))
         == StatusReport(ParseNeighbors(entries), Some(weather))
  {
    var a, w := Join(entries, ','), Join(weather, ',');
    var t := a + ";" + w;
    StripUnchanged(t);
    NotInJoin(entries, ',', ';');
    NotInJoin(weather, ',', ';');
    assert Join([a, w], ';') == t by {
      assert [a, w][1..] == [w];
    }
    SplitOfJoin([a, w], ';');
    SplitOfJoin(entries, ',');
    SplitOfJoin(weather, ',');
  }

  /** A status text without ';' gives the neighbours its entries parse to
      and no weather. */
  lemma ParseStatusWithoutWeather(entries: seq<string>)
    requires |entries| >= 1
    requires forall i :: 0 <= i < |entries| ==> ',' !in entries[i] && ';' !in entries[i]
    requires var t := Join(entries, ',');
      t == [] || (!IsSpace(t[0]) && !IsSpace(t[|t| - 1]))
    ensures ParseStatus(Join(entries, ',')) == StatusReport(ParseNeighbors(entries), None)
  {
    var t := Join(entries, ',');
    StripUnchanged(t);
    NotInJoin(entries, ',', ';');
    SplitWithoutSep(t, ';');
    SplitOfJoin(entries, ',');
  }

  /** A status line with one bad entry between two good ones and no weather
      part: the bad entry is skipped, the others are kept in order with
      their interfaces named. */
  lemma ParseStatusExample()
    ensures ParseStatus("1:0:-50,bad-entry,2:1:-60")
         == StatusReport([Neighbor(1, "CAVE", -50), Neighbor(2, "EXIT", -60)], None)
  {
    var text := "1:0:-50,bad-entry,2:1:-60";
    var entries := ExampleEntries();
    ExampleNoWeather();
    ExampleSplit();
    ExampleNeighbors();
    assert Split(Strip(text), ';') == [text];
  }

  function ExampleEntries(): seq<string> {
    [NeighborText(1, 0, -50), "bad-entry", NeighborText(2, 1, -60)]
  }

  lemma ExampleEntryTexts()
    ensures NeighborText(1, 0, -50) == "1:0:-50"
    ensures NeighborText(2, 1, -60) == "2:1:-60"
  {
    assert IntToString(-50) == "-50";
    assert IntToString(-60) == "-60";
  }

  lemma ExampleJoin()
    ensures Join(ExampleEntries(), ',') == "1:0:-50,bad-entry,2:1:-60"
  {
    ExampleEntryTexts();
    var entries := ExampleEntries();
    assert entries[1..] == ["bad-entry", "2:1:-60"];
    assert entries[1..][1..] == ["2:1:-60"];
  }

  lemma ExampleStripped()
    ensures Strip("1:0:-50,bad-entry,2:1:-60") == "1:0:-50,bad-entry,2:1:-60"
  {
    StripUnchanged("1:0:-50,bad-entry,2:1:-60");
  }

  lemma ExampleNoWeather()
    ensures Split(Strip("1:0:-50,bad-entry,2:1:-60"), ';') == ["1:0:-50,bad-entry,2:1:-60"]
  {
    ExampleStripped();
    ExampleNoSemicolon();
    SplitWithoutSep("1:0:-50,bad-entry,2:1:-60", ';');
  }

  lemma ExampleNoSemicolon()
    ensures ';' !in "1:0:-50,bad-entry,2:1:-60"
  {
    ExampleEntryTexts();
    ExampleJoin();
    var entries := ExampleEntries();
    assert ';' !in entries[0] && ';' !in entries[1] && ';' !in entries[2];
    NotInJoin(entries, ',', ';');
  }

  lemma ExampleSplit()
    ensures Split("1:0:-50,bad-entry,2:1:-60", ',') == ExampleEntries()
  {
    var entries := ExampleEntries();
    ExampleEntryTexts();
    assert ',' !in entries[0] && ',' !in entries[1] && ',' !in entries[2];
    ExampleJoin();
    SplitOfJoin(entries, ',');
  }

  lemma BadEntryMalformed()
    ensures ParseNeighborEntry("bad-entry").None?
  {
    SplitWithoutSep("bad-entry", ':');
  }

  lemma ExampleNeighbors()
    ensures ParseNeighbors(ExampleEntries()) == [Neighbor(1, "CAVE", -50), Neighbor(2, "EXIT", -60)]
  {
    var e1, e2 := NeighborText(1, 0, -50), NeighborText(2, 1, -60);
    ExampleEntriesHead();
    FlatMapAppend(EntryNeighbors, [e1], ["bad-entry", e2]);
    FlatMapSingle(EntryNeighbors, e1);
    EntryOfNeighborText(1, 0, -50);
    ExampleNeighborsTail();
  }

  lemma ExampleEntriesHead()
    ensures ExampleEntries() == [NeighborText(1, 0, -50)] + ["bad-entry", NeighborText(2, 1, -60)]
  {
  }

  lemma ExampleNeighborsTail()
    ensures ParseNeighbors(["bad-entry", NeighborText(2, 1, -60)]) == [Neighbor(2, "EXIT", -60)]
  {
    var e2 := NeighborText(2, 1, -60);
    assert ["bad-entry", e2] == ["bad-entry"] + [e2];
    FlatMapAppend(EntryNeighbors, ["bad-entry"], [e2]);
    FlatMapSingle(EntryNeighbors, "bad-entry");
    FlatMapSingle(EntryNeighbors, e2);
    EntryOfNeighborText(2, 1, -60);
    assert EntryNeighbors("bad-entry") == [] by {
      BadEntryMalformed();
    }
  }

  lemma EntryOfNeighborText(node: int, code: int, rssi: int)
    ensures EntryNeighbors(NeighborText(node, code, rssi)) == [Neighbor(node, InterfaceName(code), rssi)]
  {
    ParseNeighborText(node, code, rssi);
  }

  /** A node's status record: the time of the last STATUS message, its
      neighbours, and the weather of the last STATUS message that had one. */
  datatype NodeStatus = NodeStatus(timestamp: int, neighbors: seq<Neighbor>, weather: Option<seq<string>>)

  /** The record after a STATUS message at now: time and neighbours are
      replaced, the weather only when the message carries one. */
  function UpdateStatus(previous: Option<NodeStatus>, report: StatusReport, now: int): (r: NodeStatus)
    ensures r.timestamp == now && r.neighbors == report.neighbors
    ensures report.weather.Some? ==> r.weather == report.weather
    ensures report.weather.None? && previous.Some? ==> r.weather == previous.value.weather
    ensures report.weather.None? && previous.None? ==> r.weather.None?
  {
    NodeStatus(now, report.neighbors,
               if report.weather.Some? then report.weather
               else if previous.Some? then previous.value.weather
               else None)
  }

  // ---------------------------------------------------------------------
  // Read-only views
  // ---------------------------------------------------------------------

  /** One node of get_topology. */
  datatype TopologyEntry = TopologyEntry(
    timestamp: int, secondsAgo: int, neighbors: seq<Neighbor>, weather: Option<seq<string>>)

  /** get_topology: the nodes whose status is younger than FreshnessWindow,
      with the age of that status. */
  function Topology(status: map<int, NodeStatus>, now: int): (r: map<int, TopologyEntry>)
    ensures forall node :: node in r <==> node in status && now - status[node].timestamp < FreshnessWindow
    ensures forall node :: node in r ==>
      && r[node].secondsAgo == now - r[node].timestamp < FreshnessWindow
      && r[node].timestamp == status[node].timestamp
      && r[node].neighbors == status[node].neighbors
      && r[node].weather == status[node].weather
  {
    map node | node in status && now - status[node].timestamp < FreshnessWindow ::
      var s := status[node];
      TopologyEntry(s.timestamp, now - s.timestamp, s.neighbors, s.weather)
  }

  /** As time passes without new STATUS messages, nodes only drop out of
      the topology. */
  lemma TopologyShrinksOverTime(status: map<int, NodeStatus>, earlier: int, later: int)
    requires earlier <= later
    ensures Topology(status, later).Keys <= Topology(status, earlier).Keys
  {
  }

  /** A node that has just sent its status is in the topology. */
  lemma FreshStatusReported(status: map<int, NodeStatus>, node: int, report: StatusReport, now: int)
    ensures var s := status[node := UpdateStatus(if node in status then Some(status[node]) else None, report, now)];
      node in Topology(s, now) && Topology(s, now)[node].secondsAgo == 0
  {
  }

  /** The ping table entry of a node: when it was last heard and the ttl
      its last message carried. */
  datatype PingEntry = PingEntry(lastSeen: int, ttl: int)

  /** One node of get_nodes. */
  datatype NodeView = NodeView(lastSeen: int, secondsAgo: int, ttl: int)

  /** get_nodes: every node of the ping table, with the age of its last
      message. */
  function Nodes(ping: map<int, PingEntry>, now: int): (r: map<int, NodeView>)
    ensures r.Keys == ping.Keys
    ensures forall node :: node in r ==>
      r[node] == NodeView(ping[node].lastSeen, now - ping[node].lastSeen, ping[node].ttl)
  {
    map node | node in ping :: NodeView(ping[node].lastSeen, now - ping[node].lastSeen, ping[node].ttl)
  }

  /** After a message from a node, get_nodes at the same time reports it
      as seen 0 seconds ago with the message's ttl, and the other nodes as
      before. */
  lemma NodesAfterContact(ping: map<int, PingEntry>, source: int, ttl: int, now: int)
    ensures var r := Nodes(ping[source := PingEntry(now, ttl)], now);
      && r[source] == NodeView(now, 0, ttl)
      && forall node :: node in ping && node != source ==> r[node] == Nodes(ping, now)[node]
  {
  }
}
