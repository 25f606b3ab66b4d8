/** The text side of the Go Text Protocol (version 2) client: cleaning the lines an engine
    writes, serialising commands, framing and classifying responses, the checks made on
    one-line replies, and the order of commands that sets up a game. Lines are character
    sequences; the engine's output is given as the sequence of raw lines it will write. */
module Gtp {
  import opened Wrappers
  import opened Text

  /** What can go wrong in one exchange with an engine. `NoReply`, `NotOneLine`,
      `BadVersion` and `BadArgument` are the client's own assertions; `EngineFailed` is an
      error reported by the engine (`?`), `BadResponse` a reply with an unknown status. */
  datatype Failure =
    | NoReply
    | EngineFailed(message: string)
    | BadResponse(text: string)
    | NotOneLine(count: nat)
    | BadVersion(text: string)
    | BadArgument

  // ---------------------------------------------------------------------------
  // Line cleaning

  /** The whitespace of a byte-level `\s`: space, tab, line feed, vertical tab, form feed
      and carriage return. */
  predicate IsGtpSpace(ch: char)
  {
    ch == ' ' || (0x09 <= ch as int <= 0x0D)
  }

  /** Where a comment starts: the first `#`, or the end of the line. */
  function CommentStart(s: string): (k: nat)
    ensures k <= |s| && '#' !in s[..k]
    ensures k < |s| ==> s[k] == '#'
  {
    if '#' in s then IndexOf(s, '#') else |s|
  }

  /** One character after whitespace conversion. */
  function Blanked(ch: char): (r: char)
  {
    if IsGtpSpace(ch) then ' ' else ch
  }

  /** A line as the cleaning leaves it: no comment, no whitespace other than plain spaces,
      no trailing space. */
  predicate Clean(s: string)
  {
    && '#' !in s
    && (forall i :: 0 <= i < |s| ==> Blanked(s[i]) == s[i])
    && (|s| > 0 ==> s[|s| - 1] != ' ')
  }

  /** Cleans a line read from the engine: cuts it at the first `#`, turns every whitespace
      character into one space (runs are not collapsed), and drops trailing spaces. */
  function StripGtpLine(s: string): (r: string)
    ensures Clean(r)
    ensures |r| <= CommentStart(s) <= |s|
    ensures forall i :: 0 <= i < |r| ==> r[i] == Blanked(s[i])
    ensures forall i :: |r| <= i < CommentStart(s) ==> IsGtpSpace(s[i])
    ensures r == "" <==> forall i :: 0 <= i < CommentStart(s) ==> IsGtpSpace(s[i])
  {
    var cut := s[..CommentStart(s)];
    var blank := seq(|cut|, i requires 0 <= i < |cut| => Blanked(cut[i]));
    var r := TrimEnd(blank, IsGtpSpace);
    assert forall i :: |r| <= i < |cut| ==> IsGtpSpace(blank[i]) && blank[i] == Blanked(s[i]);
    r
  }

  /** The cleaning is determined by its contract: any clean line that agrees with `s`
      character by character up to its length, and leaves only whitespace between its end
      and the comment, is the cleaned line. */
  lemma StripGtpLineUnique(s: string, t: string)
    requires Clean(t) && |t| <= CommentStart(s)
    requires forall i :: 0 <= i < |t| ==> t[i] == Blanked(s[i])
    requires forall i :: |t| <= i < CommentStart(s) ==> IsGtpSpace(s[i])
    ensures t == StripGtpLine(s)
  {
    var r := StripGtpLine(s);
  }

  /** A clean line is left as it is; in particular cleaning is idempotent. */
  lemma CleanIsFixed(s: string)
    requires Clean(s)
    ensures StripGtpLine(s) == s
  {
    assert CommentStart(s) == |s|;
    StripGtpLineUnique(s, s);
  }

  lemma StripGtpLineIdempotent(s: string)
    ensures StripGtpLine(StripGtpLine(s)) == StripGtpLine(s)
  {
    CleanIsFixed(StripGtpLine(s));
  }

  // ---------------------------------------------------------------------------
  // Commands

  datatype Command = Command(verb: string, args: seq<string>)

  /** A word that survives serialisation: no space to split it, no newline to end it. */
  predicate Word(s: string)
  {
    ' ' !in s && '\n' !in s
  }

  /** The line sent for a command: the verb and its arguments joined by single spaces,
      and one line feed. */
  function Serialize(c: Command): (r: string)
    ensures |r| > 0 && r[|r| - 1] == '\n'
  {
    Join([c.verb] + c.args, ' ') + "\n"
  }

  /** Joining pieces without line feeds gives a text without line feeds. */
  lemma {:induction false} JoinAvoids(xs: seq<string>, sep: char, ch: char)
    requires sep != ch
    requires forall k :: 0 <= k < |xs| ==> ch !in xs[k]
    ensures ch !in Join(xs, sep)
    decreases |xs|
  {
    if |xs| > 1 {
      JoinAvoids(xs[1..], sep, ch);
      assert Join(xs, sep) == xs[0] + [sep] + Join(xs[1..], sep);
    }
  }

  /** A serialised command of words is exactly one line, and splitting that line at spaces
      gives back the verb and the arguments. */
  lemma SerializeParses(c: Command)
    requires Word(c.verb) && forall k :: 0 <= k < |c.args| ==> Word(c.args[k])
    ensures var r := Serialize(c);
      && '\n' !in r[..|r| - 1]
      && Split(r[..|r| - 1], ' ') == [c.verb] + c.args
  {
    var parts := [c.verb] + c.args;
    assert forall k :: 0 <= k < |parts| ==> Word(parts[k]);
    var r := Serialize(c);
    assert r[..|r| - 1] == Join(parts, ' ');
    JoinAvoids(parts, ' ', '\n');
    SplitJoin(parts, ' ');
  }

  // ---------------------------------------------------------------------------
  // Responses

  /** The cleaned lines of one response: read up to, not including, the first line that
      cleans to nothing; the end of the input ends the response too. */
  function Frame(input: seq<string>): (r: seq<string>)
    ensures |r| <= |input|
    ensures forall i :: 0 <= i < |r| ==> r[i] == StripGtpLine(input[i]) && r[i] != ""
    ensures |r| < |input| ==> StripGtpLine(input[|r|]) == ""
    decreases |input|
  {
    if |input| == 0 then []
    else
      var line := StripGtpLine(input[0]);
      if line == "" then [] else [line] + Frame(input[1..])
  }

  /** Python's `s[2:]`: the text after a two-character status prefix. */
  function AfterStatus(s: string): (r: string)
  {
    if |s| >= 2 then s[2..] else ""
  }

  /** The verdict on a framed response: `=` is success with the status prefix removed from
      the first line, `?` is an error reported by the engine, anything else is malformed,
      and no line at all is a failed assertion. */
  function Classify(lines: seq<string>): (r: Result<seq<string>, Failure>)
    requires |lines| > 0 ==> lines[0] != ""
    ensures r == Err(NoReply) <==> |lines| == 0
    ensures r.Ok? <==> |lines| > 0 && lines[0][0] == '='
    ensures r.Ok? ==> |r.value| == |lines| && r.value[1..] == lines[1..]
    ensures r.Ok? && |lines[0]| >= 2 ==> lines[0] == lines[0][..2] + r.value[0]
    ensures r.Ok? && |lines[0]| < 2 ==> r.value[0] == ""
    ensures (r.Err? && r.error.EngineFailed?) <==> |lines| > 0 && lines[0][0] == '?'
    ensures (r.Err? && r.error.EngineFailed?) ==>
      r.error.message == Join([AfterStatus(lines[0])] + lines[1..], '\n')
    ensures (r.Err? && r.error.BadResponse?) <==>
      |lines| > 0 && lines[0][0] != '=' && lines[0][0] != '?'
    ensures (r.Err? && r.error.BadResponse?) ==> r.error.text == Join(lines, '\n')
  {
    if |lines| == 0 then Err(NoReply)
    else
      var trimmed := [AfterStatus(lines[0])] + lines[1..];
      if lines[0][0] == '=' then Ok(trimmed)
      else if lines[0][0] == '?' then Err(EngineFailed(Join(trimmed, '\n')))
      else Err(BadResponse(Join(lines, '\n')))
  }

  /** One exchange, seen from the client: what the engine writes, framed and classified. */
  function Receive(input: seq<string>): (r: Result<seq<string>, Failure>)
    ensures r == Err(NoReply) <==> |input| == 0 || StripGtpLine(input[0]) == ""
    ensures r.Ok? <==> |input| > 0 && var first := StripGtpLine(input[0]); first != "" && first[0] == '='
    ensures (r.Err? && r.error.EngineFailed?) <==>
      |input| > 0 && var first := StripGtpLine(input[0]); first != "" && first[0] == '?'
    ensures (r.Err? && r.error.BadResponse?) <==>
      |input| > 0 && var first := StripGtpLine(input[0]); first != "" && first[0] != '=' && first[0] != '?'
  {
    Classify(Frame(input))
  }

  /** The lines a conforming engine writes for a response with the status character
      `status` and payload `payload`: the status, a space and the first payload line, the
      other payload lines, and an empty line. */
  function Reply(status: char, payload: seq<string>): (r: seq<string>)
    requires |payload| > 0
  {
    [[status, ' '] + payload[0]] + payload[1..] + [""]
  }

  /** A payload the protocol can carry: clean lines, none but the first empty. */
  predicate Payload(payload: seq<string>)
  {
    && |payload| > 0
    && (forall i :: 0 <= i < |payload| ==> Clean(payload[i]))
    && (forall i :: 1 <= i < |payload| ==> payload[i] != "")
  }

  /** The first line of a reply cleans back to the status and the payload's first line
      (to the status alone when that line is empty). */
  lemma StatusLineCleans(status: char, first: string)
    requires Clean(first) && status != '#' && !IsGtpSpace(status)
    ensures StripGtpLine([status, ' '] + first) == if first == "" then [status] else [status, ' '] + first
  {
    var line := [status, ' '] + first;
    if first == "" {
      StripGtpLineUnique(line, [status]);
    } else {
      assert '#' !in line by {
        assert forall i :: 2 <= i < |line| ==> line[i] == first[i - 2];
      }
      assert Clean(line);
      CleanIsFixed(line);
    }
  }

  /** Framing a reply and whatever follows it gives back the reply's cleaned lines. */
  lemma FrameReply(status: char, payload: seq<string>, rest: seq<string>)
    requires Payload(payload) && status != '#' && !IsGtpSpace(status)
    ensures var first := if payload[0] == "" then [status] else [status, ' '] + payload[0];
      Frame(Reply(status, payload) + rest) == [first] + payload[1..]
  {
    var input := Reply(status, payload) + rest;
    var first := if payload[0] == "" then [status] else [status, ' '] + payload[0];
    var expected := [first] + payload[1..];
    StatusLineCleans(status, payload[0]);
    forall i | 1 <= i < |payload|
      ensures StripGtpLine(input[i]) == payload[i]
    {
      CleanIsFixed(payload[i]);
    }
    assert input[|payload|] == "";
    FrameUnique(input, expected);
  }

  /** Framing is determined by its contract. */
  lemma {:induction false} FrameUnique(input: seq<string>, lines: seq<string>)
    requires |lines| <= |input|
    requires forall i :: 0 <= i < |lines| ==> lines[i] == StripGtpLine(input[i]) && lines[i] != ""
    requires |lines| < |input| ==> StripGtpLine(input[|lines|]) == ""
    ensures Frame(input) == lines
    decreases |input|
  {
    if |input| > 0 && |lines| > 0 {
      var input', lines' := input[1..], lines[1..];
      assert forall i :: 0 <= i < |lines'| ==> lines'[i] == lines[i + 1] && input'[i] == input[i + 1];
      assert |lines'| < |input'| ==> input'[|lines'|] == input[|lines|];
      FrameUnique(input', lines');
      assert lines == [lines[0]] + lines';
    }
  }

  /** A success reply is received as its payload. */
  lemma SuccessRoundTrip(payload: seq<string>, rest: seq<string>)
    requires Payload(payload)
    ensures Receive(Reply('=', payload) + rest) == Ok(payload)
  {
    FrameReply('=', payload, rest);
    var first := if payload[0] == "" then "=" else "= " + payload[0];
    assert AfterStatus(first) == payload[0];
    assert [payload[0]] + payload[1..] == payload;
  }

  /** An error reply is received as an engine error whose message is the payload joined by
      line feeds, and that message splits back into the payload. */
  lemma FailureRoundTrip(payload: seq<string>, rest: seq<string>)
    requires Payload(payload)
    ensures Receive(Reply('?', payload) + rest) == Err(EngineFailed(Join(payload, '\n')))
    ensures Split(Join(payload, '\n'), '\n') == payload
  {
    FrameReply('?', payload, rest);
    var first := if payload[0] == "" then "?" else "? " + payload[0];
    assert AfterStatus(first) == payload[0];
    assert [payload[0]] + payload[1..] == payload;
    SplitJoin(payload, '\n');
  }

  // ---------------------------------------------------------------------------
  // One-line replies

  /** The reply of `name`, `version`, `genmove` and `final_score`: the single payload line,
      or a failure when the exchange failed or the payload has another number of lines. */
  function OneLineReply(input: seq<string>): (r: Result<string, Failure>)
    ensures r.Ok? <==> Receive(input).Ok? && |Receive(input).value| == 1
    ensures r.Ok? ==> Receive(input) == Ok([r.value])
    ensures Receive(input).Err? ==> r == Err(Receive(input).error)
  {
    match Receive(input)
    case Err(e) => Err(e)
    case Ok(lines) =>
      if |lines| == 1 then
        assert lines == [lines[0]];
        Ok(lines[0])
      else Err(NotOneLine(|lines|))
  }

  /** The check made when an engine starts: a one-line reply whose payload is the number 2.
      The number is read as non-empty decimal digits. */
  function ProtocolVersion(input: seq<string>): (r: Result<(), Failure>)
    ensures r.Ok? <==> OneLineReply(input).Ok? && var s := OneLineReply(input).value;
      |s| > 0 && AllDigits(s) && DigitsValue(s) == 2
  {
    match OneLineReply(input)
    case Err(e) => Err(e)
    case Ok(s) => if |s| > 0 && AllDigits(s) && DigitsValue(s) == 2 then Ok(()) else Err(BadVersion(s))
  }

  /** A digit string is a clean line. */
  lemma DigitsAreClean(s: string)
    requires AllDigits(s)
    ensures Clean(s)
  {
  }

  /** An engine announcing protocol version `k` in decimal passes the check exactly when
      `k` is 2. */
  lemma ProtocolVersionAccepts(k: nat, rest: seq<string>)
    ensures ProtocolVersion(Reply('=', [NatToString(k)]) + rest).Ok? <==> k == 2
  {
    var digits := NatToString(k);
    DigitsAreClean(digits);
    SuccessRoundTrip([digits], rest);
    NatToStringRoundTrip(k);
  }

  /** A reply of several lines is refused by every one-line query. */
  lemma LongReplyRefused(payload: seq<string>, rest: seq<string>)
    requires Payload(payload) && |payload| != 1
    ensures OneLineReply(Reply('=', payload) + rest) == Err(NotOneLine(|payload|))
  {
    SuccessRoundTrip(payload, rest);
  }

  // ---------------------------------------------------------------------------
  // Setting up a game

  /** The `boardsize` command, refused by the client unless the size is 5 to 25. */
  function BoardsizeCommand(size: int): (r: Result<Command, Failure>)
    ensures r.Ok? <==> 5 <= size <= 25
    ensures r.Ok? ==> (r.value.verb == "boardsize" && |r.value.args| == 1
      && Canonical(r.value.args[0]) && DigitsValue(r.value.args[0]) == size)
  {
    if 5 <= size <= 25 then
      NatToStringRoundTrip(size);
      Ok(Command("boardsize", [NatToString(size)]))
    else Err(BadArgument)
  }

  /** The commands a game set-up sends, in order, and the failed assertion that stopped it,
      if any. */
  datatype Trace = Trace(sent: seq<Command>, failure: Option<Failure>)

  function Verbs(cs: seq<Command>): (r: seq<string>)
    ensures |r| == |cs| && forall i :: 0 <= i < |cs| ==> r[i] == cs[i].verb
  {
    seq(|cs|, i requires 0 <= i < |cs| => cs[i].verb)
  }

  /** Game set-up: board size, clearing, komi (as the text of its decimal value) and time
      settings, then a fixed handicap only when one is asked for. The board size is checked
      before anything is sent; the handicap only after the first four commands. */
  function InitGame(size: int, komi: string, handicap: int, mainTime: int, byoYomiTime: int, byoYomiStones: int): (t: Trace)
    ensures t.failure.None? <==> 5 <= size <= 25 && 0 <= handicap <= 9
    ensures t.sent == [] <==> !(5 <= size <= 25)
    ensures 5 <= size <= 25 ==> |t.sent| >= 4 && Verbs(t.sent)[..4] == ["boardsize", "clear_board", "komi", "time_settings"]
    ensures |t.sent| == 5 <==> 5 <= size <= 25 && 0 < handicap <= 9
    ensures |t.sent| == 0 || |t.sent| == 4 || |t.sent| == 5
    ensures 5 <= size <= 25 ==> (t.sent[1..4] ==
      [Command("clear_board", []), Command("komi", [komi]), TimeSettings(mainTime, byoYomiTime, byoYomiStones)])
    ensures |t.sent| == 5 ==> 0 < handicap <= 9 && t.sent[4] == FixedHandicap(handicap)
  {
    match BoardsizeCommand(size)
    case Err(e) => Trace([], Some(e))
    case Ok(boardsize) =>
      var setup := Setup(boardsize, komi, mainTime, byoYomiTime, byoYomiStones);
      if handicap == 0 then Trace(setup, None)
      else if 0 < handicap <= 9 then Trace(setup + [FixedHandicap(handicap)], None)
      else Trace(setup, Some(BadArgument))
  }

  /** The four commands every set-up sends, once the board size is accepted. */
  function Setup(boardsize: Command, komi: string, mainTime: int, byoYomiTime: int, byoYomiStones: int): (cs: seq<Command>)
  {
    [boardsize, Command("clear_board", []), Command("komi", [komi]), TimeSettings(mainTime, byoYomiTime, byoYomiStones)]
  }

  function TimeSettings(mainTime: int, byoYomiTime: int, byoYomiStones: int): (c: Command)
  {
    Command("time_settings", [IntToString(mainTime), IntToString(byoYomiTime), IntToString(byoYomiStones)])
  }

  function FixedHandicap(handicap: nat): (c: Command)
  {
    Command("fixed_handicap", [NatToString(handicap)])
  }

  /** The numbers in a set-up read back: the board size, the handicap, and non-negative
      times. */
  lemma InitGameArguments(size: int, komi: string, handicap: int, mainTime: nat, byoYomiTime: nat, byoYomiStones: nat)
    requires 5 <= size <= 25
    ensures var t := InitGame(size, komi, handicap, mainTime, byoYomiTime, byoYomiStones);
      && Canonical(t.sent[0].args[0]) && DigitsValue(t.sent[0].args[0]) == size
      && |t.sent[3].args| == 3
      && Canonical(t.sent[3].args[0]) && DigitsValue(t.sent[3].args[0]) == mainTime
      && Canonical(t.sent[3].args[1]) && DigitsValue(t.sent[3].args[1]) == byoYomiTime
      && Canonical(t.sent[3].args[2]) && DigitsValue(t.sent[3].args[2]) == byoYomiStones
      && (|t.sent| == 5 ==> Canonical(t.sent[4].args[0]) && DigitsValue(t.sent[4].args[0]) == handicap)
  {
    NatToStringRoundTrip(mainTime);
    NatToStringRoundTrip(byoYomiTime);
    NatToStringRoundTrip(byoYomiStones);
    if 0 < handicap <= 9 {
      NatToStringRoundTrip(handicap);
    }
  }

  /** With a komi written as one word, every set-up command goes out as a single line that
      splits back into its verb and arguments. */
  lemma InitGameSerializes(size: int, komi: string, handicap: int, mainTime: int, byoYomiTime: int, byoYomiStones: int)
    requires Word(komi)
    ensures var t := InitGame(size, komi, handicap, mainTime, byoYomiTime, byoYomiStones);
      forall i :: 0 <= i < |t.sent| ==> var r := Serialize(t.sent[i]);
        '\n' !in r[..|r| - 1] && Split(r[..|r| - 1], ' ') == [t.sent[i].verb] + t.sent[i].args
  {
    var t := InitGame(size, komi, handicap, mainTime, byoYomiTime, byoYomiStones);
    InitGameWords(size, komi, handicap, mainTime, byoYomiTime, byoYomiStones);
    forall i | 0 <= i < |t.sent|
      ensures var r := Serialize(t.sent[i]);
        '\n' !in r[..|r| - 1] && Split(r[..|r| - 1], ' ') == [t.sent[i].verb] + t.sent[i].args
    {
      SerializeParses(t.sent[i]);
    }
  }

  predicate AllWords(c: Command)
  {
    Word(c.verb) && forall k :: 0 <= k < |c.args| ==> Word(c.args[k])
  }

  lemma InitGameWords(size: int, komi: string, handicap: int, mainTime: int, byoYomiTime: int, byoYomiStones: int)
    requires Word(komi)
    ensures var t := InitGame(size, komi, handicap, mainTime, byoYomiTime, byoYomiStones);
      forall i :: 0 <= i < |t.sent| ==> AllWords(t.sent[i])
  {
    var t := InitGame(size, komi, handicap, mainTime, byoYomiTime, byoYomiStones);
    if 5 <= size <= 25 {
      var setup := Setup(BoardsizeCommand(size).value, komi, mainTime, byoYomiTime, byoYomiStones);
      SetupWords(size, komi, mainTime, byoYomiTime, byoYomiStones);
      assert t.sent[..4] == setup;
      if |t.sent| == 5 {
        NatWord(handicap);
        VerbsAreWords();
      }
      forall i | 0 <= i < |t.sent|
        ensures AllWords(t.sent[i])
      {
        if i < 4 {
          assert t.sent[i] == setup[i];
        }
      }
    }
  }

  lemma SetupWords(size: int, komi: string, mainTime: int, byoYomiTime: int, byoYomiStones: int)
    requires Word(komi) && 5 <= size <= 25
    ensures var setup := Setup(BoardsizeCommand(size).value, komi, mainTime, byoYomiTime, byoYomiStones);
      forall i :: 0 <= i < |setup| ==> AllWords(setup[i])
  {
    var setup := Setup(BoardsizeCommand(size).value, komi, mainTime, byoYomiTime, byoYomiStones);
    NatWord(size);
    VerbsAreWords();
    assert AllWords(setup[0]);
    assert AllWords(setup[1]) && AllWords(setup[2]);
    assert AllWords(setup[3]) by {
      TimeSettingsWords(mainTime, byoYomiTime, byoYomiStones);
    }
  }

  /** The set-up verbs contain no space and no line feed. */
  lemma VerbsAreWords()
    ensures Word("boardsize") && Word("clear_board") && Word("komi")
    ensures Word("time_settings") && Word("fixed_handicap")
  {
  }

  lemma TimeSettingsWords(mainTime: int, byoYomiTime: int, byoYomiStones: int)
    ensures AllWords(TimeSettings(mainTime, byoYomiTime, byoYomiStones))
  {
    var c := TimeSettings(mainTime, byoYomiTime, byoYomiStones);
    IntWord(mainTime);
    IntWord(byoYomiTime);
    IntWord(byoYomiStones);
    VerbsAreWords();
    assert forall k :: 0 <= k < |c.args| ==> Word(c.args[k]);
  }

  /** Numbers are written without spaces or line feeds. */
  lemma NatWord(k: nat)
    ensures Word(NatToString(k))
  {
    var s := NatToString(k);
    assert forall i :: 0 <= i < |s| ==> IsDigit(s[i]);
  }

  lemma IntWord(k: int)
    ensures Word(IntToString(k))
  {
    if k < 0 {
      NatWord(-k);
      assert IntToString(k) == "-" + NatToString(-k);
    } else {
      NatWord(k);
    }
  }

  /** The default set-up: 19 lines, komi 7.5, no handicap, no main time and one stone per
      second of byo-yomi; four commands and no failure. */
  lemma DefaultInitGame()
    ensures var t := InitGame(19, "7.5", 0, 0, 1, 1);
      && t.failure == None
      && Verbs(t.sent) == ["boardsize", "clear_board", "komi", "time_settings"]
      && t.sent[0].args == ["19"] && t.sent[2].args == ["7.5"] && t.sent[3].args == ["0", "1", "1"]
  {
    assert NatToString(19) == NatToString(1) + [DigitChar(9)] == "19";
    assert IntToString(0) == "0" && IntToString(1) == "1";
  }
}
