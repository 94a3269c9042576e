/**
 * The normaliser behind source fingerprints: comments become spaces, whitespace collapses, and
 * the contents of string literals stay.
 *
 * The cursor-driven scanner is proved against a reference lexer that reads one character at a time.
 */
module SolidityLexer {
  import opened Strings

  // ----- the reference lexer ----------------------------------------------------------------

  /** Where the lexer is; `Slash` is code whose last character, a slash, may open a comment. */
  datatype Mode =
    | Code
    | Slash
    | LineComment
    | BlockComment
    | BlockStar
    | Literal(quote: char)
    | Escaped(quote: char)

  function FromCode(c: char): Mode {
    if c == '\"' || c == '\'' then Literal(c) else if c == '/' then Slash else Code
  }

  function Next(m: Mode, c: char): Mode {
    match m
    case Code => FromCode(c)
    case Slash => if c == '/' then LineComment else if c == '*' then BlockComment else FromCode(c)
    case LineComment => if c == '\n' then Code else LineComment
    case BlockComment => if c == '*' then BlockStar else BlockComment
    case BlockStar => if c == '/' then Code else if c == '*' then BlockStar else BlockComment
    case Literal(q) => if c == '\\' then Escaped(q) else if c == q || c == '\n' then Code else Literal(q)
    case Escaped(q) => Literal(q)
  }

  /** What reading `c` writes: a comment writes one space, when it opens. */
  function Emit(m: Mode, c: char): string {
    match m
    case Code => if c == '/' then "" else [c]
    case Slash => if c == '/' || c == '*' then " " else "/" + [c]
    case LineComment => if c == '\n' then "\n" else ""
    case BlockComment => ""
    case BlockStar => ""
    case Literal(_) => [c]
    case Escaped(_) => [c]
  }

  function Flush(m: Mode): string {
    if m.Slash? then "/" else ""
  }

  function Lex(m: Mode, s: string): string
    decreases |s|
  {
    if s == "" then Flush(m) else Emit(m, s[0]) + Lex(Next(m, s[0]), s[1..])
  }

  function Run(m: Mode, s: string): Mode
    decreases |s|
  {
    if s == "" then m else Run(Next(m, s[0]), s[1..])
  }

  // ----- whitespace -------------------------------------------------------------------------

  /** Every run of whitespace replaced by one space. */
  function Collapse(s: string): string
    decreases |s|
  {
    if s == "" then ""
    else if IsSpace(s[0]) then " " + Collapse(DropSpaces(s[1..]))
    else [s[0]] + Collapse(s[1..])
  }

  function Normalised(text: string): string {
    Trim(Collapse(Lex(Code, text)))
  }

  // ----- the scanner ------------------------------------------------------------------------

  function From(s: string, i: nat): string {
    if i <= |s| then s[i..] else ""
  }

  lemma LexStep(m: Mode, s: string, i: nat)
    requires i < |s|
    ensures Lex(m, s[i..]) == Emit(m, s[i]) + Lex(Next(m, s[i]), s[i + 1..])
  {
    assert s[i..][1..] == s[i + 1..];
  }

  method NormaliseSolidity(text: string) returns (normal: string)
    ensures normal == Normalised(text)
  {
    hide Lex, Emit, Next, Trim, Collapse, From;
    var out, i := "", 0;
    FromFacts(text, 0);
    while i < |text|
      invariant Lex(Code, text) == out + Lex(Code, From(text, i))
      decreases |text| - i
    {
      ghost var before, start := out, i;
      var piece;
      if text[i] == '\"' || text[i] == '\'' {
        piece, i := ScanLiteral(text, i);
      } else if text[i] == '/' && i + 1 < |text| && text[i + 1] == '/' {
        piece := " ";
        i := SkipLine(text, i);
      } else if text[i] == '/' && i + 1 < |text| && text[i + 1] == '*' {
        piece := " ";
        i := SkipBlock(text, i);
      } else {
        CodeStep(text, i);
        piece := [text[i]];
        i := i + 1;
      }
      out := out + piece;
      FromFacts(text, start);
      FromFacts(text, i);
      assert before + (piece + Lex(Code, From(text, i))) == out + Lex(Code, From(text, i));
    }
    FromFacts(text, i);
    LexEmpty(Code);
    assert out + "" == out;
    return Trim(Collapse(out));
  }

  lemma FromFacts(text: string, i: nat)
    ensures i <= |text| ==> From(text, i) == text[i..]
    ensures i >= |text| ==> From(text, i) == ""
    ensures i == 0 ==> From(text, i) == text
  {
  }

  lemma LexEmpty(m: Mode)
    ensures Lex(m, "") == Flush(m)
  {
  }

  /** Outside literals and comments, reading one character writes it; a slash opens nothing here. */
  lemma CodeStep(text: string, i: nat)
    requires i < |text| && text[i] != '\"' && text[i] != '\''
    requires text[i] == '/' && i + 1 < |text| ==> text[i + 1] != '/' && text[i + 1] != '*'
    ensures Lex(Code, text[i..]) == [text[i]] + Lex(Code, text[i + 1..])
  {
    LexStep(Code, text, i);
    if text[i] == '/' && i + 1 < |text| {
      LexStep(Slash, text, i + 1);
      LexStep(Code, text, i + 1);
      }
  }

  /** A literal, up to its closing quote, a newline, or the end. */
  method ScanLiteral(text: string, start: nat) returns (out: string, i: nat)
    requires start < |text| && (text[start] == '\"' || text[start] == '\'')
    ensures start < i <= |text|
    ensures Lex(Code, text[start..]) == out + Lex(Code, text[i..])
  {
    hide Lex;
    var quote := text[start];
    LexStep(Code, text, start);
    LexEnd(Literal(quote), text, |text|);
    LexEnd(Escaped(quote), text, |text|);
    LexEnd(Code, text, |text|);
    out, i := [quote], start + 1;
    while i < |text|
      invariant start < i <= |text|
      invariant Lex(Code, text[start..]) == out + Lex(Literal(quote), text[i..])
    {
      LexStep(Literal(quote), text, i);
      if text[i] == '\\' && i + 1 < |text| {
        LexStep(Escaped(quote), text, i + 1);
        out := out + [text[i], text[i + 1]];
        i := i + 2;
        continue;
      }
      out := out + [text[i]];
      if text[i] == quote {
        i := i + 1;
        return;
      }
      if text[i] == '\n' {
        i := i + 1;
        return;
      }
      i := i + 1;
    }
  }

  lemma LexEnd(m: Mode, text: string, i: nat)
    requires i == |text|
    ensures Lex(m, text[i..]) == Flush(m)
  {
  }

  /** The offset of the newline that ends a line comment, or of the end. */
  method SkipLine(text: string, start: nat) returns (i: nat)
    requires start + 1 < |text| && text[start] == '/' && text[start + 1] == '/'
    ensures start < i <= |text|
    ensures Lex(Code, text[start..]) == " " + Lex(Code, text[i..])
  {
    hide Lex;
    LexStep(Code, text, start);
    LexStep(Slash, text, start + 1);
    i := start;
    while i < |text| && text[i] != '\n'
      invariant start <= i <= |text|
      invariant i < start + 2 ==> text[i] == '/'
      invariant i >= start + 2 ==> Lex(LineComment, text[start + 2..]) == Lex(LineComment, text[i..])
    {
      if i >= start + 2 {
        LexStep(LineComment, text, i);
      }
      i := i + 1;
    }
    if i < |text| {
      LexStep(LineComment, text, i);
      LexStep(Code, text, i);
    } else {
      LexEnd(LineComment, text, i);
      LexEnd(Code, text, i);
    }
  }

  /** The offset just after a block comment; past the end when it is not closed. */
  method SkipBlock(text: string, start: nat) returns (i: nat)
    requires start + 1 < |text| && text[start] == '/' && text[start + 1] == '*'
    ensures start < i
    ensures Lex(Code, text[start..]) == " " + Lex(Code, From(text, i))
  {
    hide Lex;
    LexStep(Code, text, start);
    LexStep(Slash, text, start + 1);
    i := start + 2;
    ghost var m := BlockComment;
    while i < |text| && !(text[i] == '*' && i + 1 < |text| && text[i + 1] == '/')
      invariant start + 2 <= i <= |text|
      invariant m == BlockComment || m == BlockStar
      invariant m == BlockStar && i < |text| ==> text[i] != '/'
      invariant Lex(BlockComment, text[start + 2..]) == Lex(m, text[i..])
    {
      LexStep(m, text, i);
      m := Next(m, text[i]);
      i := i + 1;
    }
    if i < |text| {
      LexStep(m, text, i);
      LexStep(BlockStar, text, i + 1);
    } else {
      LexEnd(m, text, i);
      LexEnd(Code, text, i);
    }
    i := i + 2;
    if i > |text| {
      LexEmpty(Code);
      assert Lex(Code, From(text, i)) == "";
    }
  }

  // ----- what survives ----------------------------------------------------------------------

  function NonSpace(s: string): string {
    if s == "" then "" else (if IsSpace(s[0]) then "" else [s[0]]) + NonSpace(s[1..])
  }

  /** Whether the first character of `s`, read in mode `m`, belongs to a comment. */
  predicate InComment(m: Mode, s: string)
    requires s != ""
  {
    match m
    case Code => s[0] == '/' && |s| > 1 && (s[1] == '/' || s[1] == '*')
    case Slash => s[0] == '/' || s[0] == '*'
    case LineComment => s[0] != '\n'
    case BlockComment => true
    case BlockStar => true
    case Literal(_) => false
    case Escaped(_) => false
  }

  /** The characters outside comments, in order. */
  function Kept(m: Mode, s: string): string
    decreases |s|
  {
    if s == "" then ""
    else (if InComment(m, s) then "" else [s[0]]) + Kept(Next(m, s[0]), s[1..])
  }

  lemma {:induction false} NonSpaceAppend(a: string, b: string)
    ensures NonSpace(a + b) == NonSpace(a) + NonSpace(b)
  {
    if a == "" {
      assert a + b == b;
    } else {
      assert (a + b)[1..] == a[1..] + b;
      NonSpaceAppend(a[1..], b);
    }
  }

  /** A pending slash that opens no comment. */
  predicate PendingSlash(m: Mode, s: string) {
    m.Slash? && (s == "" || (s[0] != '/' && s[0] != '*'))
  }

  /** One character: what it adds to the output, and to what is kept. */
  lemma StepKeeps(m: Mode, s: string)
    requires s != ""
    ensures var pending := if PendingSlash(Next(m, s[0]), s[1..]) then "/" else "";
            NonSpace(Emit(m, s[0])) + pending ==
            (if PendingSlash(m, s) then "/" else "") + NonSpace(if InComment(m, s) then "" else [s[0]])
  {
    hide NonSpace, Emit;
    NonSpaceEmit(m, s[0]);
    NonSpaceOne(s[0]);
    NonSpaceOne('/');
    if |s| > 1 {
      assert s[1..][0] == s[1];
    }
  }

  lemma {:induction false} LexKeeps(m: Mode, s: string)
    ensures NonSpace(Lex(m, s)) == (if PendingSlash(m, s) then "/" else "") + NonSpace(Kept(m, s))
    decreases |s|
  {
    hide NonSpace, Emit, Next, InComment;
    if s == "" {
      NonSpaceOne('/');
    } else {
      var c, rest := s[0], s[1..];
      var next := Next(m, c);
      LexKeeps(next, rest);
      NonSpaceAppend(Emit(m, c), Lex(next, rest));
      NonSpaceAppend(if InComment(m, s) then "" else [c], Kept(next, rest));
      StepKeeps(m, s);
      Regroup(NonSpace(Emit(m, c)), if PendingSlash(next, rest) then "/" else "", NonSpace(Kept(next, rest)));
      Regroup(if PendingSlash(m, s) then "/" else "", NonSpace(if InComment(m, s) then "" else [c]), NonSpace(Kept(next, rest)));
    }
  }

  lemma Regroup(a: string, b: string, c: string)
    ensures a + (b + c) == (a + b) + c
  {
  }

  lemma NonSpaceOne(c: char)
    ensures NonSpace("") == "" && NonSpace([c]) == if IsSpace(c) then "" else [c]
  {
  }

  lemma NonSpaceEmit(m: Mode, c: char)
    ensures NonSpace(Emit(m, c)) ==
            match m
            case Code => if c == '/' then "" else NonSpace([c])
            case Slash => if c == '/' || c == '*' then "" else "/" + NonSpace([c])
            case LineComment => ""
            case BlockComment => ""
            case BlockStar => ""
            case _ => NonSpace([c])
  {
    if m.Slash? && c != '/' && c != '*' {
      NonSpaceAppend("/", [c]);
      NonSpaceOne('/');
    }
  }

  lemma {:induction false} DropKeeps(s: string)
    ensures NonSpace(DropSpaces(s)) == NonSpace(s) && NonSpace(DropTrailing(s)) == NonSpace(s)
    decreases |s|
  {
    if s != "" {
      DropKeeps(s[1..]);
      if IsSpace(s[|s| - 1]) {
        DropKeeps(s[..|s| - 1]);
        assert s == s[..|s| - 1] + [s[|s| - 1]];
        NonSpaceAppend(s[..|s| - 1], [s[|s| - 1]]);
      }
    }
  }

  lemma {:induction false} CollapseKeeps(s: string)
    ensures NonSpace(Collapse(s)) == NonSpace(s)
    decreases |s|
  {
    if s != "" {
      if IsSpace(s[0]) {
        DropKeeps(s[1..]);
        CollapseKeeps(DropSpaces(s[1..]));
        assert (" " + Collapse(DropSpaces(s[1..])))[1..] == Collapse(DropSpaces(s[1..]));
      } else {
        CollapseKeeps(s[1..]);
        assert ([s[0]] + Collapse(s[1..]))[1..] == Collapse(s[1..]);
      }
    }
  }

  /**
   * Apart from whitespace, exactly the characters outside comments survive, in order: comment
   * markers inside literals are among them, and nothing of a comment is.
   */
  lemma NormalisedKeepsCode(text: string)
    ensures NonSpace(Normalised(text)) == NonSpace(Kept(Code, text))
  {
    hide Lex, Collapse, NonSpace, Kept;
    var out := Lex(Code, text);
    LexKeeps(Code, text);
    CollapseKeeps(out);
    DropKeeps(Collapse(out));
    DropKeeps(DropSpaces(Collapse(out)));
    assert "" + NonSpace(Kept(Code, text)) == NonSpace(Kept(Code, text));
  }

  // ----- comments for whitespace ------------------------------------------------------------

  /** The output written while reading a prefix, before the rest decides a pending slash. */
  function Written(m: Mode, s: string): string
    decreases |s|
  {
    if s == "" then "" else Emit(m, s[0]) + Written(Next(m, s[0]), s[1..])
  }

  lemma {:induction false} LexAppend(m: Mode, a: string, b: string)
    ensures Lex(m, a + b) == Written(m, a) + Lex(Run(m, a), b)
    decreases |a|
  {
    hide Next, Emit, Flush;
    if a == "" {
      assert a + b == b;
    } else {
      LexAppend(Next(m, a[0]), a[1..], b);
      assert (a + b)[1..] == a[1..] + b;
    }
  }

  ghost predicate AllSpace(s: string) {
    forall c :: c in s ==> IsSpace(c)
  }

  lemma {:induction false} SpaceIsWritten(s: string)
    requires AllSpace(s)
    ensures Written(Code, s) == s && Run(Code, s) == Code
    decreases |s|
  {
    if s != "" {
      assert s[0] in s && s == [s[0]] + s[1..];
      SpaceIsWritten(s[1..]);
    }
  }

  /** Nothing is written until the first closing mark, which is the end of the comment. */
  lemma {:induction false} BlockIsSilent(m: Mode, body: string)
    requires m == BlockComment || (m == BlockStar && (body == "" || body[0] != '/'))
    requires !Includes(body, "*/")
    ensures Written(m, body + "*/") == "" && Run(m, body + "*/") == Code
    decreases |body|
  {
    var s := body + "*/";
    if body == "" {
      assert s == "*/" && s[1..] == "/" && "/"[1..] == "";
      assert Run(m, s) == Run(BlockStar, "/") == Run(Code, "");
      assert Written(m, s) == "" + Written(BlockStar, "/") && Written(BlockStar, "/") == "" + Written(Code, "");
    } else {
      assert s[1..] == body[1..] + "*/";
      var next := Next(m, body[0]);
      assert !("*/" <= body) && !Includes(body[1..], "*/");
      assert |body| > 1 && body[0] == '*' ==> body[1] != '/';
      BlockIsSilent(next, body[1..]);
    }
  }

  lemma CommentIsOneSpace(body: string)
    requires !Includes(body, "*/")
    ensures Written(Code, "/*" + body + "*/") == " " && Run(Code, "/*" + body + "*/") == Code
  {
    var s := "/*" + body + "*/";
    assert s[0] == '/' && s[1] == '*' && s[1..][1..] == body + "*/";
    BlockIsSilent(BlockComment, body);
    assert Written(Code, s) == "" + Written(Slash, s[1..]);
    assert Written(Slash, s[1..]) == " " + Written(BlockComment, s[1..][1..]);
  }

  /** Any whitespace between two texts collapses like one space. */
  lemma {:induction false} CollapseBetween(a: string, space: string, b: string)
    requires AllSpace(space) && space != ""
    ensures Collapse(a + space + b) == Collapse(a + " " + b)
    decreases |a|
  {
    var s, t := a + space + b, a + " " + b;
    if a == "" {
      assert s == space + b && t == " " + b && t[1..] == b;
      assert space[0] in space;
      assert s[1..] == space[1..] + b;
      DropSpacesOver(space[1..], b);
      assert DropSpaces(t[1..]) == DropSpaces(b);
    } else {
      assert s[1..] == a[1..] + space + b && t[1..] == a[1..] + " " + b;
      if IsSpace(a[0]) {
        DropSpacesBetween(a[1..], space, b);
        var rest := DropSpaces(a[1..]);
        if rest != "" {
          CollapseBetween(rest, space, b);
        }
      } else {
        CollapseBetween(a[1..], space, b);
      }
    }
  }

  lemma {:induction false} DropSpacesOver(space: string, b: string)
    requires AllSpace(space)
    ensures DropSpaces(space + b) == DropSpaces(b)
  {
    if space == "" {
      assert space + b == b;
    } else {
      assert space[0] in space && (space + b)[1..] == space[1..] + b;
      DropSpacesOver(space[1..], b);
    }
  }

  lemma {:induction false} DropSpacesBetween(a: string, space: string, b: string)
    requires AllSpace(space) && space != ""
    ensures DropSpaces(a) != "" ==> DropSpaces(a + space + b) == DropSpaces(a) + space + b
    ensures DropSpaces(a) != "" ==> DropSpaces(a + " " + b) == DropSpaces(a) + " " + b
    ensures DropSpaces(a) == "" ==> DropSpaces(a + space + b) == DropSpaces(a + " " + b)
  {
    if a == "" {
      assert a + space + b == space + b && a + " " + b == " " + b;
      DropSpacesOver(space, b);
      DropSpacesOver(" ", b);
    } else if IsSpace(a[0]) {
      assert (a + space + b)[1..] == a[1..] + space + b && (a + " " + b)[1..] == a[1..] + " " + b;
      DropSpacesBetween(a[1..], space, b);
    }
  }

  /**
   * Where the lexer is in code, and not just after a slash, whitespace may be replaced by a block
   * comment without changing the normal form.
   */
  lemma CommentForWhitespace(before: string, space: string, body: string, after: string)
    requires Run(Code, before) == Code
    requires AllSpace(space) && space != "" && !Includes(body, "*/")
    ensures Normalised(before + space + after) == Normalised(before + ("/*" + body + "*/") + after)
  {
    hide Lex, Written, Run, Collapse, Trim;
    var comment := "/*" + body + "*/";
    assert before + space + after == before + (space + after);
    assert before + comment + after == before + (comment + after);
    LexAppend(Code, before, space + after);
    LexAppend(Code, before, comment + after);
    SpaceIsWritten(space);
    CommentIsOneSpace(body);
    LexAppend(Code, space, after);
    LexAppend(Code, comment, after);
    var p, q := Written(Code, before), Lex(Code, after);
    assert p + (space + q) == p + space + q && p + (" " + q) == p + " " + q;
    CollapseBetween(p, space, q);
  }
}
