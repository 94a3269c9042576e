/**
 * When normalising a normal form changes nothing: exactly when no comment opens in it, which a lexer
 * run over the input together with a reader of its output decides.
 */
module SolidityTwice {
  import opened Strings
  import opened SolidityLexer

  /** No literal is cut off by the end of its line. */
  ghost predicate LiteralsUncut(m: Mode, s: string)
    decreases |s|
  {
    s == "" || (!(m.Literal? && s[0] == '\n') && LiteralsUncut(Next(m, s[0]), s[1..]))
  }

  ghost predicate IsQuote(c: char) { c == '"' || c == '\'' }

  ghost predicate OutsideComments(m: Mode) {
    match m
    case Code => true case Slash => true case Literal(q) => IsQuote(q) case Escaped(q) => IsQuote(q) case _ => false
  }

  /** Read from `m`, the text opens no comment and cuts no literal. */
  ghost predicate Stable(m: Mode, s: string)
    decreases |s|
  {
    && OutsideComments(m)
    && (s == "" || (!(m.Literal? && s[0] == '\n') && Stable(Next(m, s[0]), s[1..])))
  }

  /** The mode a reader of the output is in, when the lexer is in `m`. */
  function OutputMode(m: Mode): Mode {
    if m.Literal? || m.Escaped? then m else Code
  }

  ghost predicate Quoting(m: Mode) {
    match m case Literal(q) => IsQuote(q) case Escaped(q) => IsQuote(q) case _ => true
  }

  lemma StableCons(m: Mode, c: char, s: string)
    requires OutsideComments(m) && !(m.Literal? && c == '\n') && Stable(Next(m, c), s)
    ensures Stable(m, [c] + s)
  {
    assert ([c] + s)[1..] == s;
  }

  lemma {:induction false} LexIsStable(m: Mode, s: string)
    requires Quoting(m) && LiteralsUncut(m, s)
    ensures Stable(OutputMode(m), Lex(m, s))
    decreases |s|
  {
    hide Stable, Emit, OutputMode, Quoting;
    NextQuoting(m);
    if s == "" {
      EndIsStable(m);
    } else {
      LexIsStable(Next(m, s[0]), s[1..]);
      StepIsStable(m, s[0], Lex(Next(m, s[0]), s[1..]));
    }
  }

  lemma NextQuoting(m: Mode)
    ensures Quoting(m) ==> forall c :: Quoting(Next(m, c))
  {
  }

  lemma EndIsStable(m: Mode)
    requires Quoting(m)
    ensures Stable(OutputMode(m), Flush(m))
  {
    hide Stable;
    StableEmpty(OutputMode(m));
    StableEmpty(Slash);
    if m.Slash? {
      StableCons(Code, '/', "");
      assert ['/'] + "" == "/";
    }
  }

  /** A slash that opened no comment is written with the character after it. */
  lemma SlashIsStable(c: char, rest: string)
    requires Stable(OutputMode(FromCode(c)), rest) && c != '/' && c != '*'
    ensures Stable(Code, "/" + [c] + rest)
  {
    hide Stable;
    StableCons(Slash, c, rest);
    StableCons(Code, '/', [c] + rest);
    assert "/" + [c] + rest == ['/'] + ([c] + rest);
  }

  /** What one character writes keeps the output stable. */
  lemma StepIsStable(m: Mode, c: char, rest: string)
    requires Quoting(m) && !(m.Literal? && c == '\n') && Stable(OutputMode(Next(m, c)), rest)
    ensures Stable(OutputMode(m), Emit(m, c) + rest)
  {
    hide Stable;
    assert "" + rest == rest;
    match m {
      case Code =>
        if c != '/' { StableCons(Code, c, rest); }
      case Slash =>
        if c == '/' || c == '*' { StableCons(Code, ' ', rest); } else { SlashIsStable(c, rest); }
      case LineComment =>
        if c == '\n' { StableCons(Code, c, rest); }
      case BlockComment =>
      case BlockStar =>
      case Literal(q) => StableCons(m, c, rest);
      case Escaped(q) => StableCons(m, c, rest);
    }
  }

  lemma StableEmpty(m: Mode)
    ensures OutsideComments(m) ==> Stable(m, "")
  {
  }

  lemma {:induction false} DropTrailingIsPrefix(s: string) returns (n: nat)
    ensures n <= |s| && DropTrailing(s) == s[..n]
    ensures n == 0 || !IsSpace(s[n - 1])
    ensures s != "" && !IsSpace(s[0]) ==> n > 0
    decreases |s|
  {
    if s != "" && IsSpace(s[|s| - 1]) {
      n := DropTrailingIsPrefix(s[..|s| - 1]);
      assert s[..|s| - 1][..n] == s[..n];
    } else {
      n := |s|;
    }
  }

  ghost predicate Collapsed(s: string) {
    forall i :: 0 <= i < |s| && IsSpace(s[i]) ==> s[i] == ' ' && (i + 1 < |s| ==> !IsSpace(s[i + 1]))
  }

  lemma {:induction false} CollapseCollapses(s: string)
    ensures Collapsed(Collapse(s))
    ensures s != "" && !IsSpace(s[0]) ==> Collapse(s) != "" && Collapse(s)[0] == s[0]
    ensures s == "" ==> Collapse(s) == ""
    decreases |s|
  {
    if s != "" {
      CollapseCollapses(if IsSpace(s[0]) then DropSpaces(s[1..]) else s[1..]);
    }
  }

  lemma {:induction false} CollapsedStays(s: string)
    requires Collapsed(s)
    ensures Collapse(s) == s
    decreases |s|
  {
    if s != "" {
      assert forall i :: 0 <= i < |s[1..]| ==> s[1..][i] == s[i + 1];
      CollapsedStays(s[1..]);
      assert s == [s[0]] + s[1..];
      if IsSpace(s[0]) {
        assert |s| > 1 ==> !IsSpace(s[1]);
        assert DropSpaces(s[1..]) == s[1..];
      }
    }
  }

  lemma {:induction false} DropSpacesIsSuffix(s: string) returns (n: nat)
    ensures n <= |s| && DropSpaces(s) == s[n..]
    decreases |s|
  {
    if s != "" && IsSpace(s[0]) {
      var k := DropSpacesIsSuffix(s[1..]);
      n := k + 1;
    } else {
      n := 0;
    }
  }

  /** Trimming a collapsed text leaves it collapsed, and trimming again changes nothing. */
  lemma TrimOfCollapsed(s: string)
    requires Collapsed(s)
    ensures Collapsed(Trim(s)) && Trim(Trim(s)) == Trim(s)
  {
    hide DropSpaces, DropTrailing;
    var k := DropSpacesIsSuffix(s);
    var t := DropSpaces(s);
    var n := DropTrailingIsPrefix(t);
    var r := t[..n];
    assert forall i :: 0 <= i < |r| ==> r[i] == s[k + i];
    NothingToTrim(r);
  }

  lemma NothingToTrim(s: string)
    requires s != "" ==> !IsSpace(s[0]) && !IsSpace(s[|s| - 1])
    ensures Trim(s) == s
  {
  }

  // ----- a reader of the normal form --------------------------------------------------------

  /** One character of a normal form, in which every whitespace character is a space. */
  function Read(m: Mode, c: char): Mode {
    Next(m, if IsSpace(c) then ' ' else c)
  }

  function ReadAll(m: Mode, s: string): Mode
    decreases |s|
  {
    if s == "" then m else ReadAll(Read(m, s[0]), s[1..])
  }

  /** Reading the text from `m`, whitespace as spaces, opens no comment. */
  ghost predicate Quiet(m: Mode, s: string)
    decreases |s|
  {
    OutsideComments(m) && (s == "" || Quiet(Read(m, s[0]), s[1..]))
  }

  lemma {:induction false} QuietAppend(m: Mode, a: string, b: string)
    ensures Quiet(m, a + b) <==> Quiet(m, a) && Quiet(ReadAll(m, a), b)
    decreases |a|
  {
    hide Read, OutsideComments;
    if a == "" {
      assert a + b == b;
    } else {
      assert (a + b)[1..] == a[1..] + b;
      QuietAppend(Read(m, a[0]), a[1..], b);
    }
  }

  lemma {:induction false} QuietDrop(m: Mode, s: string)
    requires OutsideComments(m) && (m.Code? || m.Literal?)
    ensures Quiet(m, DropSpaces(s)) <==> Quiet(m, s)
    decreases |s|
  {
    if s != "" && IsSpace(s[0]) {
      assert Read(m, s[0]) == m;
      QuietDrop(m, s[1..]);
    }
  }

  lemma {:induction false} QuietCollapse(m: Mode, s: string)
    ensures Quiet(m, Collapse(s)) <==> Quiet(m, s)
    decreases |s|
  {
    hide OutsideComments;
    if s != "" {
      if IsSpace(s[0]) {
        var tail := DropSpaces(s[1..]);
        assert (" " + Collapse(tail))[1..] == Collapse(tail);
        SpaceSettles(m);
        if OutsideComments(m) {
          QuietDrop(Read(m, ' '), s[1..]);
        }
        QuietCollapse(Read(m, ' '), tail);
      } else {
        assert ([s[0]] + Collapse(s[1..]))[1..] == Collapse(s[1..]);
        QuietCollapse(Read(m, s[0]), s[1..]);
      }
    }
  }

  lemma SpaceSettles(m: Mode)
    ensures OutsideComments(m) ==>
              OutsideComments(Read(m, ' ')) && (Read(m, ' ').Code? || Read(m, ' ').Literal?)
    ensures forall c :: IsSpace(c) ==> Read(m, c) == Read(m, ' ')
  {
    assert IsSpace(' ');
  }

  lemma {:induction false} QuietDropTrailing(m: Mode, s: string)
    ensures Quiet(m, DropTrailing(s)) <==> Quiet(m, s)
    decreases |s|
  {
    hide OutsideComments, Read, Quiet;
    if s != "" && IsSpace(s[|s| - 1]) {
      var init, c := s[..|s| - 1], s[|s| - 1];
      assert s == init + [c];
      QuietDropTrailing(m, init);
      QuietAppend(m, init, [c]);
      SpaceIsQuiet(ReadAll(m, init), c);
      if Quiet(m, init) {
        QuietOutside(m, init);
      }
    }
  }

  lemma SpaceIsQuiet(m: Mode, c: char)
    requires IsSpace(c)
    ensures Quiet(m, [c]) <==> OutsideComments(m)
  {
    assert [c][1..] == "";
    SpaceSettles(m);
  }

  lemma {:induction false} QuietOutside(m: Mode, s: string)
    requires Quiet(m, s)
    ensures OutsideComments(ReadAll(m, s))
    decreases |s|
  {
    if s != "" {
      QuietOutside(Read(m, s[0]), s[1..]);
    }
  }

  // ----- what a second pass does ------------------------------------------------------------

  ghost predicate SpacesOnly(s: string) {
    forall i :: 0 <= i < |s| && IsSpace(s[i]) ==> s[i] == ' '
  }

  /** A text that opens no comment is written back as it is. */
  lemma {:induction false} LexOfQuiet(m: Mode, s: string)
    requires Quiet(m, s) && SpacesOnly(s)
    ensures Lex(m, s) == Flush(m) + s
    decreases |s|
  {
    hide Next, Read, Emit, Flush, Quiet, OutsideComments, IsSpace;
    if s != "" {
      var c, rest := s[0], s[1..];
      assert s == [c] + rest;
      QuietStep(m, c, rest);
      LexOfQuiet(Next(m, c), rest);
      assert Emit(m, c) + (Flush(Next(m, c)) + rest) == (Emit(m, c) + Flush(Next(m, c))) + rest;
      assert Flush(m) + s == (Flush(m) + [c]) + rest;
    } else {
      assert Flush(m) + s == Flush(m);
    }
  }

  /** Outside comments, what one character writes and what stays pending add up to it. */
  lemma QuietStep(m: Mode, c: char, rest: string)
    requires Quiet(m, [c] + rest) && (IsSpace(c) ==> c == ' ')
    ensures Read(m, c) == Next(m, c) && Quiet(Next(m, c), rest)
    ensures Emit(m, c) + Flush(Next(m, c)) == Flush(m) + [c]
  {
    assert ([c] + rest)[1..] == rest;
    QuietOutside(m, "");
    assert OutsideComments(Next(m, c));
  }

  lemma {:induction false} KeptIsShorter(m: Mode, s: string)
    ensures |NonSpace(Kept(m, s))| <= |NonSpace(s)|
    decreases |s|
  {
    hide NonSpace, Next, InComment;
    NonSpaceOne(' ');
    if s != "" {
      KeptIsShorter(Next(m, s[0]), s[1..]);
      HeadAndTail(m, s);
    }
  }

  lemma HeadAndTail(m: Mode, s: string)
    requires s != ""
    ensures |NonSpace(s)| == |NonSpace([s[0]])| + |NonSpace(s[1..])|
    ensures |NonSpace(Kept(m, s))| == (if InComment(m, s) then 0 else |NonSpace([s[0]])|) + |NonSpace(Kept(Next(m, s[0]), s[1..]))|
  {
    hide NonSpace, Next, InComment;
    NonSpaceOne(s[0]);
    assert s == [s[0]] + s[1..];
    NonSpaceAppend([s[0]], s[1..]);
    NonSpaceAppend(if InComment(m, s) then "" else [s[0]], Kept(Next(m, s[0]), s[1..]));
  }

  /** A text that opens a comment loses the characters that open it. */
  lemma {:induction false} NoisyLoses(m: Mode, s: string)
    requires OutsideComments(m) && !Quiet(m, s) && SpacesOnly(s)
    ensures |NonSpace(Kept(m, s))| < |NonSpace(s)|
    decreases |s|
  {
    hide NonSpace, Kept, Next;
    var c, next := s[0], Next(m, s[0]);
    assert Read(m, c) == next;
    HeadAndTail(m, s);
    if OutsideComments(next) {
      NoisyLoses(next, s[1..]);
    } else {
      Opens(m, c);
      KeptIsShorter(next, s[1..]);
      NonSpaceOne(c);
    }
  }

  lemma Opens(m: Mode, c: char)
    requires OutsideComments(m) && !OutsideComments(Next(m, c))
    ensures m == Slash && (c == '/' || c == '*') && !IsSpace(c)
  {
  }

  /** Normalising again changes nothing exactly when the normal form opens no comment. */
  lemma NormalFormDecides(text: string)
    ensures Normalised(Normalised(text)) == Normalised(text) <==> Quiet(Code, Normalised(text))
  {
    hide Lex, Collapse, Trim, Quiet, Kept, NonSpace;
    var c := Collapse(Lex(Code, text));
    var n := Trim(c);
    CollapseCollapses(Lex(Code, text));
    TrimOfCollapsed(c);
    CollapsedStays(n);
    if Quiet(Code, n) {
      LexOfQuiet(Code, n);
      assert "" + n == n;
    } else {
      NoisyLoses(Code, n);
      NormalisedKeepsCode(n);
    }
  }

  // ----- over the input alone ---------------------------------------------------------------

  /**
   * The lexer, in mode `m`, reads the text, and a reader of what it writes, whitespace as spaces, in
   * mode `r`, never opens a comment.
   */
  ghost predicate Settles(m: Mode, r: Mode, text: string)
    decreases |text|
  {
    if text == "" then Quiet(r, Flush(m))
    else Quiet(r, Emit(m, text[0])) && Settles(Next(m, text[0]), ReadAll(r, Emit(m, text[0])), text[1..])
  }

  lemma {:induction false} SettlesIsQuiet(m: Mode, r: Mode, text: string)
    ensures Settles(m, r, text) <==> Quiet(r, Lex(m, text))
    decreases |text|
  {
    hide Quiet, Next, Emit, ReadAll, Flush;
    if text != "" {
      SettlesIsQuiet(Next(m, text[0]), ReadAll(r, Emit(m, text[0])), text[1..]);
      QuietAppend(r, Emit(m, text[0]), Lex(Next(m, text[0]), text[1..]));
    }
  }

  /**
   * Normalising again changes nothing exactly when no comment opens while the lexer's output is read
   * along with its input, each whitespace character it writes read as a space.
   */
  lemma NormalisedTwiceExactly(text: string)
    ensures Normalised(Normalised(text)) == Normalised(text) <==> Settles(Code, Code, text)
  {
    hide Lex, Collapse, DropSpaces, DropTrailing, Quiet, Settles;
    var out := Lex(Code, text);
    NormalFormDecides(text);
    QuietCollapse(Code, out);
    QuietDrop(Code, Collapse(out));
    QuietDropTrailing(Code, DropSpaces(Collapse(out)));
    SettlesIsQuiet(Code, Code, text);
  }

  lemma {:induction false} StableIsQuiet(m: Mode, s: string)
    requires Stable(m, s)
    ensures Quiet(m, s)
    decreases |s|
  {
    if s != "" {
      assert Read(m, s[0]) == Next(m, s[0]);
      StableIsQuiet(Next(m, s[0]), s[1..]);
    }
  }

  /** When no literal is cut off by its line's end, normalising again changes nothing. */
  lemma NormalisedTwice(text: string)
    requires LiteralsUncut(Code, text)
    ensures Normalised(Normalised(text)) == Normalised(text)
  {
    hide Lex, Stable, Quiet, Settles, Normalised;
    LexIsStable(Code, text);
    StableIsQuiet(Code, Lex(Code, text));
    SettlesIsQuiet(Code, Code, text);
    NormalisedTwiceExactly(text);
  }

  lemma CollapseCons(c: char, s: string)
    ensures Collapse([c] + s) == if IsSpace(c) then " " + Collapse(DropSpaces(s)) else [c] + Collapse(s)
  {
    assert ([c] + s)[1..] == s;
  }

  /** The condition is needed: the newline that cut the first literal is gone from the normal form, which reads differently. */
  lemma CutLiteralsCanShow()
    ensures var text := "\"\n\"//x";
            && !LiteralsUncut(Code, text)
            && Normalised(text) == "\" \"//x" && Normalised(Normalised(text)) == "\" \""
  {
    var quote := '\"';
    CutOnce(quote);
    CutTwice(quote);
  }

  lemma CutOnce(q: char)
    requires q == '\"'
    ensures var text := [q, '\n', q, '/', '/', 'x'];
            !LiteralsUncut(Code, text) && Normalised(text) == [q, ' ', q, '/', '/', 'x']
  {
    hide Lex, Collapse, Trim;
    var text := [q, '\n', q, '/', '/', 'x'];
    assert text[1..][0] == '\n';
    LexStep(Code, text, 0);
    LexStep(Literal(q), text, 1);
    LexStep(Code, text, 2);
    LexStep(Literal(q), text, 3);
    LexStep(Literal(q), text, 4);
    LexStep(Literal(q), text, 5);
    LexEmpty(Literal(q));
    assert text[0..] == text && text[6..] == "";
    assert Lex(Code, text) == text;
    CollapseOfCut(q);
  }

  lemma CollapseOfCut(q: char)
    requires q == '\"'
    ensures Trim(Collapse([q, '\n', q, '/', '/', 'x'])) == [q, ' ', q, '/', '/', 'x']
  {
    hide Collapse;
    CollapseNone();
    CollapseCons('x', []);
    CollapseCons('/', ['x']);
    CollapseCons('/', ['/'] + ['x']);
    CollapseCons(q, ['/'] + (['/'] + ['x']));
    assert ['x'] + [] == ['x'];
    var rest := [q] + (['/'] + (['/'] + ['x']));
    assert !IsSpace(q) && !IsSpace('x') && !IsSpace('/') && IsSpace('\n');
    assert Collapse(['x']) == ['x'];
    assert Collapse(['/'] + ['x']) == ['/'] + ['x'];
    assert Collapse(['/'] + (['/'] + ['x'])) == ['/'] + (['/'] + ['x']);
    assert Collapse(rest) == rest && DropSpaces(rest) == rest;
    CollapseCons('\n', rest);
    CollapseCons(q, ['\n'] + rest);
    assert [q] + (['\n'] + rest) == [q, '\n', q, '/', '/', 'x'];
    assert Collapse([q, '\n', q, '/', '/', 'x']) == [q, ' ', q, '/', '/', 'x'];
  }

  lemma CollapseNone()
    ensures Collapse("") == "" && DropSpaces("") == ""
  {
  }

  lemma CutTwice(q: char)
    requires q == '\"'
    ensures Normalised([q, ' ', q, '/', '/', 'x']) == [q, ' ', q]
  {
    hide Lex, Collapse, Trim;
    var text := [q, ' ', q, '/', '/', 'x'];
    LexEmpty(LineComment);
    LexStep(LineComment, text, 5);
    assert text[6..] == "" && Lex(LineComment, text[5..]) == "";
    LexStep(Slash, text, 4);
    LexStep(Code, text, 3);
    assert Lex(Code, text[3..]) == " ";
    LexStep(Literal(q), text, 2);
    LexStep(Literal(q), text, 1);
    assert Lex(Literal(q), text[1..]) == [' ', q, ' '];
    LexStep(Code, text, 0);
    assert text[0..] == text && Lex(Code, text) == [q, ' ', q, ' '];
    CollapseOfKept(q);
  }

  lemma CollapseOfKept(q: char)
    requires q == '\"'
    ensures Trim(Collapse([q, ' ', q, ' '])) == [q, ' ', q]
  {
    hide Collapse;
    CollapseNone();
    CollapseCons(' ', []);
    CollapseCons(q, [' ']);
    assert [' '] + [] == [' '];
    var rest := [q] + [' '];
    assert !IsSpace(q) && IsSpace(' ');
    assert Collapse([' ']) == [' '];
    assert Collapse(rest) == rest && DropSpaces(rest) == rest;
    CollapseCons(' ', rest);
    CollapseCons(q, [' '] + rest);
    assert [q] + ([' '] + rest) == [q, ' ', q, ' '];
    assert Collapse([q, ' ', q, ' ']) == [q, ' ', q, ' '];
    var s, kept := [q, ' ', q, ' '], [q, ' ', q];
    assert s[..|s| - 1] == kept && DropSpaces(s) == s;
    assert DropTrailing(kept) == kept && DropTrailing(s) == DropTrailing(kept);
  }
}
