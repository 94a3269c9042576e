/** The control lines between tool and observer: each message has one text, and no other line is taken for it. */
module ControlLines {
  import opened Wrappers
  import opened Strings
  import opened ControlProtocol

  const CTL_TAG := "SP1OBS-CTL"

  // ----- the fields' forms ------------------------------------------------------------------

  predicate IsLowerHex(c: char) { '0' <= c <= '9' || 'a' <= c <= 'f' }

  predicate IsLabelChar(c: char) { '0' <= c <= '9' || 'a' <= c <= 'z' }

  predicate Hex(s: string, n: nat) {
    |s| == n && forall c :: c in s ==> IsLowerHex(c)
  }

  predicate HostLabel(s: string) {
    1 <= |s| <= 63 && IsLabelChar(s[0]) && IsLabelChar(s[|s| - 1]) && forall c :: c in s ==> IsLabelChar(c) || c == '-'
  }

  predicate PidText(s: string) {
    1 <= |s| <= 10 && s[0] != '0' && forall c :: c in s ==> IsDigit(c)
  }

  predicate ReasonText(s: string) {
    1 <= |s| <= 64 && forall c :: c in s ==> 'A' <= c <= 'Z' || c == '_'
  }

  predicate ValidMsg(msg: Msg) {
    match msg
    case Hello(commit, host) => Hex(commit, 40) && HostLabel(host)
    case Phase(phase) => phase in PHASES
    case Container(id, pid) => Hex(id, 64) && PidText(Numeral(pid))
    case Done => true
    case Abort(reason) => ReasonText(reason)
  }

  const LOWER_HEX := "0123456789abcdef"
  const LABEL := "0123456789abcdefghijklmnopqrstuvwxyz"
  const REASON := "ABCDEFGHIJKLMNOPQRSTUVWXYZ_"

  lemma FieldCharacters(c: char)
    ensures IsLowerHex(c) <==> c in LOWER_HEX
    ensures IsLabelChar(c) <==> c in LABEL
    ensures 'A' <= c <= 'Z' || c == '_' <==> c in REASON
  {
  }

  ghost predicate Within(s: string, letters: string) {
    forall c :: c in s ==> c in letters
  }

  /** The messages that have a text, field by field. */
  lemma WellFormedMeans(msg: Msg)
    ensures ValidMsg(msg) <==>
            match msg
            case Hello(commit, host) =>
              && |commit| == 40 && Within(commit, LOWER_HEX)
              && 1 <= |host| <= 63 && Within(host, LABEL + "-") && host[0] != '-' && host[|host| - 1] != '-'
            case Phase(phase) => phase in PHASES
            case Container(id, pid) => |id| == 64 && Within(id, LOWER_HEX) && 1 <= pid < 10_000_000_000
            case Done => true
            case Abort(reason) => 1 <= |reason| <= 64 && Within(reason, REASON)
  {
    hide IsLowerHex, IsLabelChar, Numeral;
    forall c {
      FieldCharacters(c);
    }
    match msg
    case Hello(commit, host) =>
      DashIsNoLabel();
      assert forall c :: c in LABEL + "-" <==> c in LABEL || c == '-';
    case Container(id, pid) =>
      NumeralSize(pid, 10);
      TenDigits();
    case _ =>
  }

  lemma TenDigits()
    ensures TenTo(10) == 10_000_000_000
  {
    assert TenTo(5) == 100_000;
  }

  lemma DashIsNoLabel()
    ensures '-' !in LABEL
  {
  }

  // ----- text -------------------------------------------------------------------------------

  function WordsOf(msg: Msg): seq<string> {
    match msg
    case Hello(commit, host) => ["HELLO", commit, host]
    case Phase(phase) => ["PHASE", phase]
    case Container(id, pid) => ["CONTAINER", id, Numeral(pid)]
    case Done => ["DONE"]
    case Abort(reason) => ["ABORT", reason]
  }

  function FormatCtl(words: seq<string>): string { Join([CTL_TAG] + words, ' ') }

  function ReadWords(words: seq<string>): Result<Msg, string>
    requires words != []
  {
    var w := words[0];
    if w == "HELLO" && |words| == 3 && Hex(words[1], 40) && HostLabel(words[2]) then Success(Hello(words[1], words[2]))
    else if w == "PHASE" && |words| == 2 && words[1] in PHASES then Success(Phase(words[1]))
    else if w == "CONTAINER" && |words| == 3 && Hex(words[1], 64) && PidText(words[2]) then
      Success(Container(words[1], DigitsValue(words[2])))
    else if w == "DONE" && |words| == 1 then Success(Done)
    else if w == "ABORT" && |words| == 2 && ReasonText(words[1]) then Success(Abort(words[1]))
    else Failure("malformed control line from the tool")
  }

  /** A control line's message; None for a line that is the tool's own output. */
  function ParseCtl(line: string): Result<Option<Msg>, string> {
    if !(CTL_TAG + " " <= line) then Success(None)
    else
      match ReadWords(Split(line[|CTL_TAG| + 1..], ' '))
      case Failure(e) => Failure(e)
      case Success(msg) => Success(Some(msg))
  }

  // ----- one text, one message --------------------------------------------------------------

  lemma PhasesAreWords(phase: string)
    requires phase in PHASES
    ensures ' ' !in phase
  {
  }

  lemma WordsHaveNoSpace(msg: Msg)
    requires ValidMsg(msg)
    ensures forall w :: w in WordsOf(msg) ==> ' ' !in w
  {
    hide Numeral;
    if msg.Phase? {
      PhasesAreWords(msg.phase);
    }
  }

  lemma FormatIs(words: seq<string>)
    requires words != []
    ensures FormatCtl(words) == CTL_TAG + " " + Join(words, ' ')
  {
    assert ([CTL_TAG] + words)[1..] == words;
  }

  lemma ReadsItsWords(msg: Msg)
    requires ValidMsg(msg)
    ensures ReadWords(WordsOf(msg)) == Success(msg)
  {
    hide Numeral, Hex, HostLabel, ReasonText, PidText;
    if msg.Container? {
      DigitsOfNumeral(msg.pid);
    }
  }

  lemma WordsOfRead(words: seq<string>, msg: Msg)
    requires words != [] && ReadWords(words) == Success(msg)
    ensures ValidMsg(msg) && WordsOf(msg) == words
  {
    hide Numeral, Hex, HostLabel, ReasonText;
    if msg.Container? {
      NumeralOfDigits(words[2]);
    }
  }

  /** A line reads as a message exactly when it is that message's text and the message is well formed. */
  lemma LineReadsAs(line: string, msg: Msg)
    ensures ParseCtl(line) == Success(Some(msg)) <==> ValidMsg(msg) && line == FormatCtl(WordsOf(msg))
  {
    hide ReadWords, ValidMsg, WordsOf, FormatCtl;
    if CTL_TAG + " " <= line {
      var text := line[|CTL_TAG| + 1..];
      var words := Split(text, ' ');
      assert line == CTL_TAG + " " + text;
      JoinSplit(text, ' ');
      FormatIs(words);
      if ReadWords(words) == Success(msg) {
        WordsOfRead(words, msg);
      }
    }
    if ValidMsg(msg) && line == FormatCtl(WordsOf(msg)) {
      ParsesItsText(msg);
    }
  }

  lemma ParsesItsText(msg: Msg)
    requires ValidMsg(msg)
    ensures ParseCtl(FormatCtl(WordsOf(msg))) == Success(Some(msg))
  {
    hide ReadWords, ValidMsg, FormatCtl, Split, Join;
    var words := WordsOf(msg);
    FormatIs(words);
    var line := FormatCtl(words);
    assert line[|CTL_TAG| + 1..] == Join(words, ' ');
    WordsHaveNoSpace(msg);
    SplitJoin(words, ' ');
    ReadsItsWords(msg);
  }
}
