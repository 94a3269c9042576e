/**
 * Source text as a sequence of pieces, said without the lexer: plain code, divisions, string literals
 * with their escapes, block comments and line comments. The lexer takes every such text apart into
 * those pieces, keeps the first three as they are, and leaves a space for each comment.
 */
module SolidityGrammar {
  import opened Strings
  import opened SolidityLexer

  datatype Piece =
    | Plain(text: string)
    | Division(next: char)
    | Quoted(quote: char, body: string)
    | Block(body: string)
    | Line(body: string)

  /** The inside of a literal: no quote, newline or lone backslash; a backslash takes any character with it. */
  ghost predicate IsBody(body: string, quote: char)
    decreases |body|
  {
    body == "" ||
    (if body[0] == '\\' then |body| > 1 && IsBody(body[2..], quote)
     else body[0] != quote && body[0] != '\n' && IsBody(body[1..], quote))
  }

  ghost predicate IsPiece(p: Piece) {
    match p
    case Plain(t) => forall c :: c in t ==> c !in "/\"'"
    case Division(c) => c !in "/*\"'"
    case Quoted(q, body) => q in "\"'" && IsBody(body, q)
    case Block(body) => !Includes(body, "*/")
    case Line(body) => '\n' !in body
  }

  function Source(p: Piece): string {
    match p
    case Plain(t) => t
    case Division(c) => "/" + [c]
    case Quoted(q, body) => [q] + body + [q]
    case Block(body) => "/*" + body + "*/"
    case Line(body) => "//" + body + "\n"
  }

  /** What is left of a piece: all of the code, a space for a comment, and the newline that ends a line. */
  function Left(p: Piece): string {
    match p
    case Block(_) => " "
    case Line(_) => " \n"
    case _ => Source(p)
  }

  function Text(ps: seq<Piece>): string {
    if ps == [] then "" else Source(ps[0]) + Text(ps[1..])
  }

  function LeftOf(ps: seq<Piece>): string {
    if ps == [] then "" else Left(ps[0]) + LeftOf(ps[1..])
  }

  lemma {:induction false} PlainIsKept(t: string)
    requires forall c :: c in t ==> c !in "/\"'"
    ensures Written(Code, t) == t && Run(Code, t) == Code
  {
    if t != "" {
      assert t[0] in t;
      PlainIsKept(t[1..]);
      assert t == [t[0]] + t[1..];
    }
  }

  lemma DivisionIsKept(c: char)
    requires c !in "/*\"'"
    ensures Written(Code, "/" + [c]) == "/" + [c] && Run(Code, "/" + [c]) == Code
  {
    var s := "/" + [c];
    assert s[1..] == [c] && [c][1..] == "";
    assert Written(Slash, [c]) == "/" + [c] + "" && Run(Slash, [c]) == Code;
  }

  lemma Cons(m: Mode, c: char, s: string)
    ensures Written(m, [c] + s) == Emit(m, c) + Written(Next(m, c), s) && Run(m, [c] + s) == Run(Next(m, c), s)
  {
    assert ([c] + s)[1..] == s;
  }

  lemma Nil(m: Mode)
    ensures Written(m, "") == "" && Run(m, "") == m
  {
  }

  lemma {:induction false} BodyIsKept(body: string, q: char)
    requires IsBody(body, q) && q in "\"'"
    ensures Written(Literal(q), body + [q]) == body + [q] && Run(Literal(q), body + [q]) == Code
    decreases |body|
  {
    hide Written, Run;
    Nil(Code);
    if body == "" {
      Cons(Literal(q), q, "");
      assert [q] + "" == body + [q];
    } else if body[0] == '\\' {
      var rest := body[2..] + [q];
      BodyIsKept(body[2..], q);
      Cons(Escaped(q), body[1], rest);
      Cons(Literal(q), body[0], [body[1]] + rest);
      assert body + [q] == [body[0]] + ([body[1]] + rest);
    } else {
      var rest := body[1..] + [q];
      BodyIsKept(body[1..], q);
      Cons(Literal(q), body[0], rest);
      assert body + [q] == [body[0]] + rest;
    }
  }

  lemma QuotedIsKept(q: char, body: string)
    requires IsBody(body, q) && q in "\"'"
    ensures Written(Code, [q] + body + [q]) == [q] + body + [q] && Run(Code, [q] + body + [q]) == Code
  {
    hide IsBody;
    var s := [q] + body + [q];
    BodyIsKept(body, q);
    assert s[1..] == body + [q];
    assert s == [q] + (body + [q]);
  }

  lemma {:induction false} LineIsSilent(body: string)
    requires '\n' !in body
    ensures Written(LineComment, body + "\n") == "\n" && Run(LineComment, body + "\n") == Code
  {
    var s := body + "\n";
    if body == "" {
      assert s == "\n" && "\n"[1..] == "";
    } else {
      LineIsSilent(body[1..]);
      assert s[1..] == body[1..] + "\n";
      assert body[0] in body;
    }
  }

  lemma LineLeavesNewline(body: string)
    requires '\n' !in body
    ensures Written(Code, "//" + body + "\n") == " \n" && Run(Code, "//" + body + "\n") == Code
  {
    var s := "//" + body + "\n";
    LineIsSilent(body);
    assert s[1..] == "/" + body + "\n" && s[1..][1..] == body + "\n";
    assert Written(Slash, s[1..]) == " " + Written(LineComment, body + "\n");
    assert Written(Code, s) == "" + Written(Slash, s[1..]);
  }

  lemma PieceIsLeft(p: Piece)
    requires IsPiece(p)
    ensures Written(Code, Source(p)) == Left(p) && Run(Code, Source(p)) == Code
  {
    hide Written, Run, IsBody;
    match p
    case Plain(t) => PlainIsKept(t);
    case Division(c) => DivisionIsKept(c);
    case Quoted(q, body) => QuotedIsKept(q, body);
    case Block(body) => CommentIsOneSpace(body);
    case Line(body) => LineLeavesNewline(body);
  }

  /** The lexer writes of a text in pieces what is left of each, in order. */
  lemma {:induction false} PiecesAreLeft(ps: seq<Piece>)
    requires forall p :: p in ps ==> IsPiece(p)
    ensures Lex(Code, Text(ps)) == LeftOf(ps)
  {
    hide IsPiece, Source, Left, Written, Run, Lex;
    if ps == [] {
      LexEmpty(Code);
    } else {
      PieceIsLeft(ps[0]);
      PiecesAreLeft(ps[1..]);
      LexAppend(Code, Source(ps[0]), Text(ps[1..]));
    }
  }

  /** So its normal form is what is left of the pieces, runs of whitespace as one space, trimmed. */
  lemma PiecesNormalise(ps: seq<Piece>)
    requires forall p :: p in ps ==> IsPiece(p)
    ensures Normalised(Text(ps)) == Trim(Collapse(LeftOf(ps)))
  {
    hide IsPiece, Lex, Collapse, Trim;
    PiecesAreLeft(ps);
  }

  /** Two texts whose code pieces are the same and whose comments stand at the same places have one normal form. */
  lemma {:induction false} CommentsAlike(a: seq<Piece>, b: seq<Piece>)
    requires |a| == |b| && forall i :: 0 <= i < |a| ==> a[i] == b[i] || (a[i].Block? && b[i].Block?) || (a[i].Line? && b[i].Line?)
    ensures LeftOf(a) == LeftOf(b)
  {
    if a != [] {
      CommentsAlike(a[1..], b[1..]);
    }
  }
}
