/** The chat-relay client's own state: the two message queues between the
    bridge and the group chat, the persisted settings (bot token and the id
    of the paired chat) in their "key;value" file, and the pairing rules.
    The chat service's calls are abstracted to the actions a handler asks
    for (send a text, leave a chat, start the queue job); the settings file
    is a field holding its text, None while it does not exist. */
module ChatRelay {
  import opened Wrappers
  import opened PyText

  // ---------------------------------------------------------------------
  // The settings file
  // ---------------------------------------------------------------------

  /** Why reading or loading the settings fails: no file (FileNotFoundError),
      a line that is not exactly one "key;value" pair, or a chat_id value
      that is not an integer (both ValueError). */
  datatype ConfigError = MissingFile | MalformedLine(line: string) | BadChatId(value: string)

  /** Text-mode reading with universal newlines: "\r\n" and a lone "\r"
      both read as "\n". */
  function UniversalNewlines(text: string): (r: string)
    ensures '\r' !in r
    ensures '\r' !in text ==> r == text
    decreases |text|
  {
    if text == [] then []
    else if text[0] == '\r' then
      if |text| > 1 && text[1] == '\n' then "\n" + UniversalNewlines(text[2..])
      else "\n" + UniversalNewlines(text[1..])
    else [text[0]] + UniversalNewlines(text[1..])
  }

  /** The lines, one after the other. */
  function Concat(lines: seq<string>): string
    decreases |lines|
  {
    if lines == [] then [] else lines[0] + Concat(lines[1..])
  }

  lemma {:induction false} ConcatAppend(lines: seq<string>, last: string)
    ensures Concat(lines + [last]) == Concat(lines) + last
    decreases |lines|
  {
    if lines == [] {
      assert [last][1..] == [];
    } else {
      ConcatAppend(lines[1..], last);
      assert (lines + [last])[1..] == lines[1..] + [last];
    }
  }

  /** Every piece but the last, with the line break that ended it. */
  function EndedPieces(pieces: seq<string>): seq<string>
    requires |pieces| >= 1
  {
    seq(|pieces| - 1, i requires 0 <= i < |pieces| - 1 => pieces[i] + "\n")
  }

  /** The ended pieces and the last piece make up the joined text. */
  lemma {:induction false} ConcatEndedPieces(pieces: seq<string>)
    requires |pieces| >= 1
    ensures Concat(EndedPieces(pieces)) + pieces[|pieces| - 1] == Join(pieces, '\n')
    decreases |pieces|
  {
    if |pieces| > 1 {
      var rest := pieces[1..];
      ConcatEndedPieces(rest);
      assert EndedPieces(pieces)[1..] == EndedPieces(rest);
      assert pieces[0] + "\n" == pieces[0] + ['\n'];
    }
  }

  /** readlines(): every line keeps its "\n"; a last line without one is a
      line too, an empty remainder after the last "\n" is not. The lines
      are non-empty, hold a line break only at their end, every line but
      the last ends with one, and together they are the text as read. */
  function Lines(text: string): (lines: seq<string>)
    ensures Concat(lines) == UniversalNewlines(text)
    ensures forall i :: 0 <= i < |lines| ==> lines[i] != [] && '\n' !in lines[i][..|lines[i]| - 1]
    ensures forall i :: 0 <= i < |lines| - 1 ==> lines[i][|lines[i]| - 1] == '\n'
  {
    var pieces := Split(UniversalNewlines(text), '\n');
    var n := |pieces| - 1;
    JoinOfSplit(UniversalNewlines(text), '\n');
    ConcatEndedPieces(pieces);
    ConcatAppend(EndedPieces(pieces), pieces[n]);
    assert forall i :: 0 <= i < n ==> (pieces[i] + "\n")[..|pieces[i]|] == pieces[i];
    assert pieces[n] != [] ==> pieces[n][..|pieces[n]| - 1] <= pieces[n];
    assert EndedPieces(pieces) + [] == EndedPieces(pieces);
    EndedPieces(pieces) + (if pieces[n] == [] then [] else [pieces[n]])
  }

  /** [key, value] = line.strip().split(";"), None where the unpacking
      raises. */
  function ConfigEntry(line: string): (r: Option<(string, string)>)
    ensures r.Some? <==> |Split(Strip(line), ';')| == 2
    ensures r.Some? ==> ';' !in r.value.0 && ';' !in r.value.1
    ensures r.Some? ==> Strip(line) == r.value.0 + ";" + r.value.1
  {
    var parts := Split(Strip(line), ';');
    if |parts| == 2 then
      JoinOfSplit(Strip(line), ';');
      assert parts[1..] == [parts[1]];
      Some((parts[0], parts[1]))
    else None
  }

  /** The dictionary read_config builds from the lines, in order: each line
      sets its key, a later line overwriting an earlier one; the first
      malformed line is the error. */
  function ParseConfig(lines: seq<string>): (r: Result<map<string, string>, ConfigError>)
    ensures r.Failure? ==>
      exists i :: 0 <= i < |lines| && ConfigEntry(lines[i]).None? && r.error == MalformedLine(lines[i])
    decreases |lines|
  {
    if lines == [] then Success(map[])
    else
      var last := lines[|lines| - 1];
      assert forall i :: 0 <= i < |lines| - 1 ==> lines[..|lines| - 1][i] == lines[i];
      match ParseConfig(lines[..|lines| - 1])
      case Failure(e) => Failure(e)
      case Success(config) =>
        match ConfigEntry(last)
        case None => Failure(MalformedLine(last))
        case Some((key, value)) => Success(config[key := value])
  }

  /** read_config: the loop over the file's lines. */
  method ReadConfig(file: Option<string>) returns (r: Result<map<string, string>, ConfigError>)
    ensures file.None? ==> r == Failure(MissingFile)
    ensures file.Some? ==> r == ParseConfig(Lines(file.value))
  {
    if file.None? {
      return Failure(MissingFile);
    }
    var lines := Lines(file.value);
    var config: map<string, string> := map[];
    var i := 0;
    while i < |lines|
      invariant 0 <= i <= |lines|
      invariant ParseConfig(lines[..i]) == Success(config)
    {
      var line := lines[i];
      assert lines[..i + 1][..i] == lines[..i];
      var parts := Split(Strip(line), ';');
      if |parts| != 2 {
        FailureIsFinal(lines, i + 1);
        return Failure(MalformedLine(line));
      }
      config := config[parts[0] := parts[1]];
      i := i + 1;
    }
    assert lines[..i] == lines;
    return Success(config);
  }

  /** Once a prefix of the lines fails, reading all of them fails the same
      way: the first malformed line is reported. */
  lemma {:induction false} FailureIsFinal(lines: seq<string>, k: nat)
    requires k <= |lines| && ParseConfig(lines[..k]).Failure?
    ensures ParseConfig(lines) == ParseConfig(lines[..k])
    decreases |lines| - k
  {
    if k < |lines| {
      var init := lines[..|lines| - 1];
      assert init[..k] == lines[..k];
      FailureIsFinal(init, k);
    } else {
      assert lines[..k] == lines;
    }
  }

  /** Every line is a key;value pair exactly when reading succeeds. */
  lemma {:induction false} ParseConfigSucceeds(lines: seq<string>)
    ensures ParseConfig(lines).Success? <==> forall i :: 0 <= i < |lines| ==> ConfigEntry(lines[i]).Some?
    decreases |lines|
  {
    if lines != [] {
      var init := lines[..|lines| - 1];
      ParseConfigSucceeds(init);
      assert forall i :: 0 <= i < |init| ==> init[i] == lines[i];
    }
  }

  /** A key takes the value of the last line that sets it. */
  lemma {:induction false} LastLineWins(lines: seq<string>, i: nat)
    requires ParseConfig(lines).Success?
    requires i < |lines| && ConfigEntry(lines[i]).Some?
    requires forall j :: i < j < |lines| ==>
               ConfigEntry(lines[j]).Some? && ConfigEntry(lines[j]).value.0 != ConfigEntry(lines[i]).value.0
    ensures var (key, value) := ConfigEntry(lines[i]).value;
      key in ParseConfig(lines).value && ParseConfig(lines).value[key] == value
    decreases |lines|
  {
    var init := lines[..|lines| - 1];
    if i < |lines| - 1 {
      assert init[i] == lines[i];
      LastLineWins(init, i);
    }
  }

  /** Every key read comes from some line. */
  lemma {:induction false} KeysComeFromLines(lines: seq<string>, key: string)
    requires ParseConfig(lines).Success? && key in ParseConfig(lines).value
    ensures exists i :: 0 <= i < |lines| && ConfigEntry(lines[i]).Some? && ConfigEntry(lines[i]).value.0 == key
    decreases |lines|
  {
    var init := lines[..|lines| - 1];
    var last := lines[|lines| - 1];
    if ConfigEntry(last).value.0 != key {
      KeysComeFromLines(init, key);
      var i :| 0 <= i < |init| && ConfigEntry(init[i]).Some? && ConfigEntry(init[i]).value.0 == key;
      assert lines[i] == init[i];
    }
  }

  /** The lines write_config emits: "token;<t>" when the token is truthy
      (not None, not empty), "chat_id;<id>" when the chat id is truthy (not
      None, not 0). */
  function ConfigLines(token: Option<string>, chatId: Option<int>): seq<string> {
    (if token.Some? && token.value != [] then ["token;" + token.value] else [])
      + (if chatId.Some? && chatId.value != 0 then ["chat_id;" + IntToString(chatId.value)] else [])
  }

  /** Lines, each followed by "\n". */
  function Terminated(lines: seq<string>): string
    decreases |lines|
  {
    if lines == [] then [] else lines[0] + "\n" + Terminated(lines[1..])
  }

  /** The text write_config leaves in the file. */
  function ConfigText(token: Option<string>, chatId: Option<int>): string {
    Terminated(ConfigLines(token, chatId))
  }

  /** A token that survives the file: not empty, no separator or line
      break in it, and no whitespace at its end for strip() to eat. Leading
      whitespace is safe: "token;" stands before it on its line. */
  predicate StorableToken(t: string) {
    && t != []
    && ';' !in t && '\n' !in t && '\r' !in t
    && !IsSpace(t[|t| - 1])
  }

  /** The settings a load restores: a token and a chat id. */
  datatype Settings = Settings(token: Option<string>, chatId: Option<int>)

  /** load_config on settings s: "token" replaces the token when present;
      "chat_id", when present, becomes int(value), or None for a None
      value. int() failing leaves the token already replaced. */
  function ApplyConfig(s: Settings, config: map<string, Option<string>>): (r: (Settings, Option<ConfigError>))
    ensures "token" in config ==> r.0.token == config["token"]
    ensures "token" !in config ==> r.0.token == s.token
    ensures "chat_id" !in config ==> r.0.chatId == s.chatId && r.1.None?
    ensures "chat_id" in config && config["chat_id"].None? ==> r.0.chatId.None? && r.1.None?
    ensures "chat_id" in config && config["chat_id"].Some? ==>
      var text := config["chat_id"].value;
      && (ParseInt(text).Some? ==> r.0.chatId == ParseInt(text) && r.1.None?)
      && (ParseInt(text).None? ==> r.0.chatId == s.chatId && r.1 == Some(BadChatId(text)))
    ensures r.1.Some? ==> r.0.chatId == s.chatId
  {
    var token := if "token" in config then config["token"] else s.token;
    if "chat_id" !in config then (Settings(token, s.chatId), None)
    else
      match config["chat_id"]
      case None => (Settings(token, None), None)
      case Some(text) =>
        match ParseInt(text)
        case None => (Settings(token, s.chatId), Some(BadChatId(text)))
        case Some(id) => (Settings(token, Some(id)), None)
  }

  /** The dictionary read from a file, as load_config sees it. */
  function AsLoaded(config: map<string, string>): map<string, Option<string>> {
    map key | key in config :: Some(config[key])
  }

  lemma NoSpecialCharInNumber(n: int)
    ensures forall i :: 0 <= i < |IntToString(n)| ==>
      IntToString(n)[i] == '-' || IsDigit(IntToString(n)[i])
    ensures IntToString(n) != [] && !IsSpace(IntToString(n)[|IntToString(n)| - 1])
  {
    var s := IntToString(n);
    var d := NatToString(if n < 0 then -n else n);
    if n < 0 {
      assert forall i :: 1 <= i < |s| ==> s[i] == d[i - 1];
    }
  }

  lemma {:induction false} SplitTerminated(lines: seq<string>)
    requires forall i :: 0 <= i < |lines| ==> '\n' !in lines[i]
    ensures Split(Terminated(lines), '\n') == lines + [[]]
    decreases |lines|
  {
    if lines != [] {
      SplitTerminated(lines[1..]);
      SplitAfterPiece(lines[0], '\n', Terminated(lines[1..]));
      assert lines[0] + "\n" + Terminated(lines[1..]) == lines[0] + ['\n'] + Terminated(lines[1..]);
      assert lines == [lines[0]] + lines[1..];
    }
  }

  lemma {:induction false} NoReturnInTerminated(lines: seq<string>)
    requires forall i :: 0 <= i < |lines| ==> '\r' !in lines[i]
    ensures '\r' !in Terminated(lines)
    decreases |lines|
  {
    if lines != [] {
      NoReturnInTerminated(lines[1..]);
    }
  }

  /** Reading back text made of terminated lines gives those lines, each
      with its "\n". */
  lemma LinesOfTerminated(lines: seq<string>)
    requires forall i :: 0 <= i < |lines| ==> '\n' !in lines[i] && '\r' !in lines[i]
    ensures Lines(Terminated(lines)) == seq(|lines|, i requires 0 <= i < |lines| => lines[i] + "\n")
  {
    NoReturnInTerminated(lines);
    SplitTerminated(lines);
    EndedPiecesOfLines(lines);
  }

  lemma EndedPiecesOfLines(lines: seq<string>)
    ensures EndedPieces(lines + [[]]) + [] == seq(|lines|, i requires 0 <= i < |lines| => lines[i] + "\n")
  {
    var pieces := lines + [[]];
    assert forall i :: 0 <= i < |lines| ==> pieces[i] == lines[i];
  }

  /** One "key;value" line of write_config reads back as that pair. */
  lemma EntryOfLine(key: string, value: string)
    requires key != [] && !IsSpace(key[0]) && ';' !in key
    requires value != [] && !IsSpace(value[|value| - 1]) && ';' !in value
    ensures ConfigEntry(key + ";" + value + "\n") == Some((key, value))
  {
    var line := key + ";" + value;
    assert line + "\n" == line + ['\n'];
    StripIgnoresTrailingSpace(line, '\n');
    assert line[0] == key[0] && line[|line| - 1] == value[|value| - 1];
    StripUnchanged(line);
    assert Join([key, value], ';') == line by {
      assert [key, value][1..] == [value];
    }
    SplitOfJoin([key, value], ';');
  }

  lemma ParseOneLine(l: string)
    requires ConfigEntry(l).Some?
    ensures ParseConfig([l]) == Success(map[ConfigEntry(l).value.0 := ConfigEntry(l).value.1])
  {
    assert [l][..0] == [];
  }

  lemma ParseTwoLines(l1: string, l2: string, k1: string, v1: string, k2: string, v2: string)
    requires ConfigEntry(l1) == Some((k1, v1)) && ConfigEntry(l2) == Some((k2, v2))
    ensures ParseConfig([l1, l2]) == Success(map[k1 := v1][k2 := v2])
  {
    assert [l1, l2][..1] == [l1];
    ParseOneLine(l1);
  }

  /** The file written for a token alone, a chat id alone, or both, read
      back as lines. */
  lemma ConfigTextLines(token: Option<string>, chatId: Option<int>)
    requires token.None? || StorableToken(token.value)
    requires chatId != Some(0)
    ensures var lines := ConfigLines(token, chatId);
      Lines(ConfigText(token, chatId)) == seq(|lines|, i requires 0 <= i < |lines| => lines[i] + "\n")
  {
    var lines := ConfigLines(token, chatId);
    var tokenLine := if token.Some? then ["token;" + token.value] else [];
    var chatLine := if chatId.Some? then ["chat_id;" + IntToString(chatId.value)] else [];
    assert lines == tokenLine + chatLine;
    if chatId.Some? {
      NoSpecialCharInNumber(chatId.value);
      assert '\n' !in IntToString(chatId.value) && '\r' !in IntToString(chatId.value);
    }
    forall i | 0 <= i < |lines| ensures '\n' !in lines[i] && '\r' !in lines[i] {
      if i < |tokenLine| {
        assert lines[i] == "token;" + token.value;
      } else {
        assert lines[i] == "chat_id;" + IntToString(chatId.value);
      }
    }
    LinesOfTerminated(lines);
  }

  lemma ChatIdLine(id: int)
    requires id != 0
    ensures ConfigEntry("chat_id;" + IntToString(id) + "\n") == Some(("chat_id", IntToString(id)))
    ensures ParseInt(IntToString(id)) == Some(id)
  {
    NoSpecialCharInNumber(id);
    assert "chat_id" + ";" == "chat_id;";
    EntryOfLine("chat_id", IntToString(id));
    ParseIntOfIntToString(id);
  }

  /** The dictionary a saved file holds: one key per line written. */
  function SavedConfig(token: Option<string>, chatId: Option<int>): map<string, string>
    requires chatId.Some? ==> chatId.value != 0
    requires token.Some? ==> token.value != []
  {
    var withToken: map<string, string> := if token.Some? then map["token" := token.value] else map[];
    if chatId.Some? then withToken["chat_id" := IntToString(chatId.value)] else withToken
  }

  lemma BothLines(t: string, id: int)
    requires StorableToken(t) && id != 0
    ensures Lines(ConfigText(Some(t), Some(id)))
         == ["token;" + t + "\n", "chat_id;" + IntToString(id) + "\n"]
  {
    ConfigTextLines(Some(t), Some(id));
    var read := Lines(ConfigText(Some(t), Some(id)));
    assert |read| == 2;
    assert read[0] == "token;" + t + "\n";
    assert read[1] == "chat_id;" + IntToString(id) + "\n";
  }

  lemma ReadBackBoth(t: string, id: int)
    requires StorableToken(t) && id != 0
    ensures ParseConfig(Lines(ConfigText(Some(t), Some(id)))) == Success(SavedConfig(Some(t), Some(id)))
  {
    BothLines(t, id);
    assert "token" + ";" == "token;";
    EntryOfLine("token", t);
    ChatIdLine(id);
    var l1, l2 := "token;" + t + "\n", "chat_id;" + IntToString(id) + "\n";
    ParseTwoLines(l1, l2, "token", t, "chat_id", IntToString(id));
    assert SavedConfig(Some(t), Some(id)) == map["token" := t]["chat_id" := IntToString(id)] by {
      assert t != [];
    }
  }

  lemma TokenLines(t: string)
    requires StorableToken(t)
    ensures Lines(ConfigText(Some(t), None)) == ["token;" + t + "\n"]
  {
    ConfigTextLines(Some(t), None);
    var read := Lines(ConfigText(Some(t), None));
    assert |read| == 1;
  }

  lemma ReadBackToken(t: string)
    requires StorableToken(t)
    ensures ParseConfig(Lines(ConfigText(Some(t), None))) == Success(SavedConfig(Some(t), None))
  {
    TokenLines(t);
    assert "token" + ";" == "token;";
    EntryOfLine("token", t);
    ParseOneLine("token;" + t + "\n");
    assert SavedConfig(Some(t), None) == map["token" := t];
  }

  lemma ChatIdLines(id: int)
    requires id != 0
    ensures Lines(ConfigText(None, Some(id))) == ["chat_id;" + IntToString(id) + "\n"]
  {
    ConfigTextLines(None, Some(id));
    var read := Lines(ConfigText(None, Some(id)));
    assert |read| == 1;
  }

  lemma ReadBackChatId(id: int)
    requires id != 0
    ensures ParseConfig(Lines(ConfigText(None, Some(id)))) == Success(SavedConfig(None, Some(id)))
  {
    ChatIdLines(id);
    ChatIdLine(id);
    ParseOneLine("chat_id;" + IntToString(id) + "\n");
    assert SavedConfig(None, Some(id)) == map["chat_id" := IntToString(id)];
  }

  lemma ReadBackNothing()
    ensures ParseConfig(Lines(ConfigText(None, None))) == Success(map[])
  {
    ConfigTextLines(None, None);
  }

  /** Loading the saved dictionary into empty settings restores them. */
  lemma LoadSaved(token: Option<string>, chatId: Option<int>)
    requires token.None? || StorableToken(token.value)
    requires chatId != Some(0)
    ensures ApplyConfig(Settings(None, None), AsLoaded(SavedConfig(token, chatId))) == (Settings(token, chatId), None)
  {
    var loaded := AsLoaded(SavedConfig(token, chatId));
    assert "token" in loaded <==> token.Some?;
    assert "chat_id" in loaded <==> chatId.Some?;
    if token.Some? {
      assert loaded["token"] == token;
    }
    if chatId.Some? {
      assert loaded["chat_id"] == Some(IntToString(chatId.value));
      ChatIdLine(chatId.value);
    }
  }

  /** What write_config saves, read back by read_config and loaded into a
      bot with no settings yet, gives the saved token and chat id back. */
  lemma ConfigRoundTrip(token: Option<string>, chatId: Option<int>)
    requires token.None? || StorableToken(token.value)
    requires chatId != Some(0)
    ensures var read := ParseConfig(Lines(ConfigText(token, chatId)));
      && read.Success?
      && ApplyConfig(Settings(None, None), AsLoaded(read.value)) == (Settings(token, chatId), None)
  {
    if token.Some? && chatId.Some? {
      ReadBackBoth(token.value, chatId.value);
    } else if token.Some? {
      ReadBackToken(token.value);
    } else if chatId.Some? {
      ReadBackChatId(chatId.value);
    } else {
      ReadBackNothing();
      assert SavedConfig(None, None) == map[];
    }
    LoadSaved(token, chatId);
  }

  // ---------------------------------------------------------------------
  // The bot
  // ---------------------------------------------------------------------

  /** A membership status of the bot in a chat, as the chat service
      reports it. */
  datatype MemberStatus = Owner | Administrator | Member | Restricted | Left | Banned

  /** What a handler asks the chat service to do. */
  datatype Action =
    | SendText(chat: int, text: string)
    | LeaveChat(chat: int)
    | StartQueueJob(name: string, interval: int)

  const PairedText := "Bot successfully paired with this group chat!"
  const AskPasswordText := "Please send the password to connect locave instance to this group."
  const AlreadyPairedText := "Bot already connected to another group, bye!"

  class Bot {
    /** Messages waiting to go to the chat, oldest first. */
    var txQueue: seq<string>
    /** Messages received from the chat, oldest first. */
    var rxQueue: seq<string>
    var chatId: Option<int>
    var token: Option<string>
    /** The text of the settings file, None while it does not exist. */
    var configFile: Option<string>
    /** The pairing password; random in the source. */
    const password: string

    constructor(password: string, configFile: Option<string>)
      ensures txQueue == [] && rxQueue == []
      ensures chatId.None? && token.None?
      ensures this.password == password && this.configFile == configFile
    {
      this.password := password;
      this.configFile := configFile;
      txQueue := [];
      rxQueue := [];
      chatId := None;
      token := None;
    }

    /** rx_empty(). */
    function RxEmpty(): (empty: bool)
      reads this
      ensures empty <==> |rxQueue| == 0
    {
      rxQueue == []
    }

    /** pop_rx(): the oldest received message, None when there is none. */
    method PopRx() returns (msg: Option<string>)
      modifies this
      ensures old(rxQueue) == [] ==> msg.None?
      ensures old(rxQueue) != [] ==> msg == Some(old(rxQueue)[0])
      ensures old(rxQueue) == (if msg.Some? then [msg.value] else []) + rxQueue
      ensures txQueue == old(txQueue) && chatId == old(chatId) && token == old(token)
      ensures configFile == old(configFile)
    {
      if RxEmpty() {
        return None;
      }
      msg := Some(rxQueue[0]);
      rxQueue := rxQueue[1..];
    }

    /** send_to_telegram(msg). */
    method SendToTelegram(msg: string)
      modifies this
      ensures txQueue == old(txQueue) + [msg]
      ensures rxQueue == old(rxQueue) && chatId == old(chatId) && token == old(token)
      ensures configFile == old(configFile)
    {
      txQueue := txQueue + [msg];
    }

    /** write_config: the file is replaced by the current settings. */
    method WriteConfig()
      modifies this
      ensures configFile == Some(ConfigText(token, chatId))
      ensures txQueue == old(txQueue) && rxQueue == old(rxQueue)
      ensures chatId == old(chatId) && token == old(token)
    {
      configFile := Some(ConfigText(token, chatId));
    }

    /** load_config(cfg). */
    method LoadConfig(config: map<string, Option<string>>) returns (error: Option<ConfigError>)
      modifies this
      ensures (Settings(token, chatId), error) == ApplyConfig(Settings(old(token), old(chatId)), config)
      ensures txQueue == old(txQueue) && rxQueue == old(rxQueue) && configFile == old(configFile)
    {
      error := None;
      if "token" in config {
        token := config["token"];
      }
      if "chat_id" in config {
        var value := config["chat_id"];
        if value.None? {
          chatId := None;
        } else {
          var id := ParseInt(value.value);
          if id.None? {
            return Some(BadChatId(value.value));
          }
          chatId := id;
        }
      }
    }

    /** The settings step of init: read the file, or take no settings when
      reading fails in any way, then load them. */
    method LoadStoredConfig() returns (error: Option<ConfigError>)
      modifies this
      ensures var read := if old(configFile).None? then Failure(MissingFile)
                          else ParseConfig(Lines(old(configFile).value));
        var config := if read.Success? then AsLoaded(read.value) else map[];
        (Settings(token, chatId), error) == ApplyConfig(Settings(old(token), old(chatId)), config)
      ensures txQueue == old(txQueue) && rxQueue == old(rxQueue) && configFile == old(configFile)
    {
      var read := ReadConfig(configFile);
      var config: map<string, Option<string>> := map[];
      if read.Success? {
        config := AsLoaded(read.value);
      }
      error := LoadConfig(config);
    }

    /** set_token(t): a missing file counts as no settings, but a malformed
      one raises before anything changes; otherwise the token is replaced,
      the pairing dropped, and the file rewritten. */
    method SetToken(t: string) returns (r: Result<(), ConfigError>)
      modifies this
      ensures var read := if old(configFile).None? then Failure(MissingFile)
                          else ParseConfig(Lines(old(configFile).value));
        r.Failure? <==> read.Failure? && read.error != MissingFile
      ensures r.Success? ==>
        token == Some(t) && chatId.None? && configFile == Some(ConfigText(Some(t), None))
      ensures r.Failure? ==>
        token == old(token) && chatId == old(chatId) && configFile == old(configFile)
      ensures txQueue == old(txQueue) && rxQueue == old(rxQueue)
    {
      var read := ReadConfig(configFile);
      var config: map<string, Option<string>> := map[];
      if read.Success? {
        config := AsLoaded(read.value);
      } else if read.error != MissingFile {
        return Failure(read.error);
      }
      config := config["token" := Some(t)];
      config := config["chat_id" := None];
      var error := LoadConfig(config);
      WriteConfig();
      return Success(());
    }

    /** _process_message: a text from chat, with the chat's id. An unpaired
      bot pairs with the chat that sends the password and leaves any other;
      a paired bot queues texts from its chat and leaves any other chat. */
    method ProcessChatMessage(chat: int, text: string) returns (actions: seq<Action>)
      modifies this
      ensures old(chatId).None? && text == password ==>
        && chatId == Some(chat)
        && configFile == Some(ConfigText(token, chatId))
        && actions == [SendText(chat, PairedText), StartQueueJob(IntToString(chat), 1)]
        && rxQueue == old(rxQueue)
      ensures old(chatId).None? && text != password ==>
        chatId.None? && rxQueue == old(rxQueue) && configFile == old(configFile)
        && actions == [LeaveChat(chat)]
      ensures old(chatId) == Some(chat) ==>
        chatId == old(chatId) && rxQueue == old(rxQueue) + [text]
        && configFile == old(configFile) && actions == []
      ensures old(chatId).Some? && old(chatId) != Some(chat) ==>
        chatId == old(chatId) && rxQueue == old(rxQueue) && configFile == old(configFile)
        && actions == [LeaveChat(chat)]
      ensures txQueue == old(txQueue) && token == old(token)
    {
      if chatId.None? {
        if text == password {
          chatId := Some(chat);
          WriteConfig();
          actions := [SendText(chat, PairedText), StartQueueJob(IntToString(chat), 1)];
        } else {
          actions := [LeaveChat(chat)];
        }
      } else if chatId == Some(chat) {
        rxQueue := rxQueue + [text];
        actions := [];
      } else {
        actions := [LeaveChat(chat)];
      }
    }

    /** _bot_group_status_changed: the bot's own membership in chat changed
      to status. Joining a chat while unpaired asks for the password; joining
      while paired says goodbye and leaves, even when chat is the paired
      chat itself. Leaving the paired chat drops the pairing. */
    method GroupStatusChanged(chat: int, status: MemberStatus) returns (actions: seq<Action>)
      modifies this
      ensures (status == Member || status == Administrator) ==>
        && chatId == old(chatId) && configFile == old(configFile)
        && actions == (if old(chatId).None? then [SendText(chat, AskPasswordText)]
                      else [SendText(chat, AlreadyPairedText), LeaveChat(chat)])
      ensures status == Left && old(chatId) == Some(chat) ==>
        chatId.None? && configFile == Some(ConfigText(token, None)) && actions == []
      ensures status != Member && status != Administrator && !(status == Left && old(chatId) == Some(chat)) ==>
        chatId == old(chatId) && configFile == old(configFile) && actions == []
      ensures txQueue == old(txQueue) && rxQueue == old(rxQueue) && token == old(token)
    {
      actions := [];
      if status == Member || status == Administrator {
        if chatId.None? {
          actions := [SendText(chat, AskPasswordText)];
        } else {
          actions := [SendText(chat, AlreadyPairedText), LeaveChat(chat)];
        }
      } else if chatId == Some(chat) && status == Left {
        chatId := None;
        WriteConfig();
      }
    }
  }
}
