/** Line citations in a detector's message: stripping them forgets the numbers and nothing else. */
module LineReferences {
  import opened Strings
  import opened FindingIdentity

  // ----- the stripper, one character at a time ----------------------------------------------

  /** Where the reader is: at a hash, in a first number, at the dash after it, in a second number. */
  datatype Place = Plain | AtHash | InFirst | AtDash | InSecond

  function Step(p: Place, c: char): Place {
    if c == '#' then AtHash
    else
      match p
      case AtHash => if IsDigit(c) then InFirst else Plain
      case InFirst => if IsDigit(c) then InFirst else if c == '-' then AtDash else Plain
      case AtDash => if IsDigit(c) then InSecond else Plain
      case InSecond => if IsDigit(c) then InSecond else Plain
      case Plain => Plain
  }

  /** What a pending hash or dash leaves when no number follows it. */
  function Pending(p: Place): string {
    match p case AtHash => "#" case AtDash => "-" case _ => ""
  }

  function Write(p: Place, c: char): string {
    if IsDigit(c) && p.AtHash? then "#L"
    else if IsDigit(c) && !p.Plain? then ""
    else if p.InFirst? && c == '-' then ""
    else Pending(p) + if c == '#' then "" else [c]
  }

  function Strip(p: Place, s: string): string
    decreases |s|
  {
    if s == "" then Pending(p) else Write(p, s[0]) + Strip(Step(p, s[0]), s[1..])
  }

  /** The text still to strip once what was read of a reference is complete. */
  function Remaining(p: Place, s: string): string {
    match p
    case Plain => s
    case AtHash => "#" + s
    case InFirst => AfterReference(s)
    case AtDash => if s != "" && IsDigit(s[0]) then DropDigits(s) else "-" + s
    case InSecond => DropDigits(s)
  }

  lemma StripUnfold(c: char, s: string)
    ensures c != '#' ==> StripLineReferences([c] + s) == [c] + StripLineReferences(s)
    ensures s == "" || !IsDigit(s[0]) ==> StripLineReferences("#" + s) == "#" + StripLineReferences(s)
    ensures s != "" && IsDigit(s[0]) ==> StripLineReferences("#" + s) == "#L" + StripLineReferences(AfterReference(s))
  {
    assert ([c] + s)[1..] == s && ("#" + s)[1..] == s;
  }

  lemma DigitsUnfold(c: char, t: string)
    ensures DropDigits([c] + t) == if IsDigit(c) then DropDigits(t) else [c] + t
    ensures IsDigit(c) ==> AfterReference([c] + t) == AfterReference(t)
    ensures c == '-' ==> AfterReference([c] + t) == if t != "" && IsDigit(t[0]) then DropDigits(t) else [c] + t
    ensures !IsDigit(c) && c != '-' ==> AfterReference([c] + t) == [c] + t
  {
    assert ([c] + t)[1..] == t;
  }

  ghost predicate OneStep(p: Place, c: char, t: string) {
    StripLineReferences(Remaining(p, [c] + t)) == Write(p, c) + StripLineReferences(Remaining(Step(p, c), t))
  }

  lemma DigitStep(p: Place, c: char, t: string)
    requires IsDigit(c)
    ensures OneStep(p, c, t)
  {
    hide StripLineReferences, DropDigits, AfterReference;
    var s := [c] + t;
    DigitsUnfold(c, t);
    DigitTexts(p, c, t);
    match p {
      case Plain =>
        StripUnfold(c, t);
      case AtHash =>
        StripUnfold('#', s);
      case _ =>
        var rest := StripLineReferences(Remaining(p, s));
        assert "" + rest == rest;
    }
  }

  lemma DigitTexts(p: Place, c: char, t: string)
    requires IsDigit(c)
    ensures p.Plain? ==> Write(p, c) == [c] && Step(p, c) == Plain
    ensures p.AtHash? ==> Write(p, c) == "#L" && Step(p, c) == InFirst
    ensures !p.Plain? && !p.AtHash? ==> Write(p, c) == "" && Remaining(p, [c] + t) == Remaining(Step(p, c), t)
  {
    hide DropDigits, AfterReference;
    DigitsUnfold(c, t);
    assert "" + [c] == [c];
  }

  lemma DashStep(t: string)
    ensures OneStep(InFirst, '-', t)
  {
    hide StripLineReferences, DropDigits, AfterReference;
    DigitsUnfold('-', t);
    var rest := StripLineReferences(Remaining(AtDash, t));
    assert ['-'] + t == "-" + t && "" + rest == rest;
  }

  lemma PendingStep(p: Place, c: char, t: string)
    requires !IsDigit(c) && !(p.InFirst? && c == '-')
    ensures StripLineReferences(Remaining(p, [c] + t)) == Pending(p) + StripLineReferences([c] + t)
  {
    hide StripLineReferences, DropDigits, AfterReference;
    DigitsUnfold(c, t);
    var s := [c] + t;
    StripUnfold('-', s);
    StripUnfold('#', s);
    assert "-" + s == ['-'] + s && "" + StripLineReferences(s) == StripLineReferences(s);
  }

  /** One character read: what it writes is what the pattern writes. */
  lemma RemainingStep(p: Place, c: char, t: string)
    ensures OneStep(p, c, t)
  {
    hide StripLineReferences, Remaining;
    if IsDigit(c) {
      DigitStep(p, c, t);
    } else if p.InFirst? && c == '-' {
      DashStep(t);
    } else {
      PendingStep(p, c, t);
      RemainingPlain(t);
      if c == '#' {
        assert ['#'] + t == "#" + t && Pending(p) + "" == Pending(p);
      } else {
        StripUnfold(c, t);
        assert Pending(p) + [c] + StripLineReferences(t) == Pending(p) + ([c] + StripLineReferences(t));
      }
    }
  }

  lemma RemainingPlain(t: string)
    ensures Remaining(Plain, t) == t && Remaining(AtHash, t) == "#" + t
  {
  }

  /** Stripping by pattern and stripping one character at a time agree. */
  lemma {:induction false} StripAgrees(p: Place, s: string)
    ensures Strip(p, s) == StripLineReferences(Remaining(p, s))
    decreases |s|
  {
    hide Step, Write;
    if s == "" {
      assert StripLineReferences("") == "";
      StripUnfold('-', "");
      StripUnfold('#', "");
      assert "-" + "" == ['-'] + "" && "#" + "" == "#";
    } else {
      assert s == [s[0]] + s[1..];
      StripAgrees(Step(p, s[0]), s[1..]);
      RemainingStep(p, s[0], s[1..]);
    }
  }

  // ----- messages that differ in their line numbers ------------------------------------------

  datatype Segment = Words(text: string) | LineRef(line: nat) | SpanRef(first: nat, last: nat)

  function RenderSegment(s: Segment): string {
    match s
    case Words(t) => t
    case LineRef(n) => "#" + Numeral(n)
    case SpanRef(a, b) => "#" + Numeral(a) + "-" + Numeral(b)
  }

  function Render(segments: seq<Segment>): string {
    if segments == [] then "" else RenderSegment(segments[0]) + Render(segments[1..])
  }

  ghost predicate SameShape(a: seq<Segment>, b: seq<Segment>) {
    && |a| == |b|
    && forall i :: 0 <= i < |a| ==>
         (a[i].Words? ==> a[i] == b[i]) && (a[i].LineRef? <==> b[i].LineRef?) && (a[i].SpanRef? <==> b[i].SpanRef?)
  }

  /** Two messages with the same words around their citations. */
  ghost predicate SameButLines(s: string, t: string) {
    exists a, b :: SameShape(a, b) && s == Render(a) && t == Render(b)
  }

  function PlaceAfter(p: Place, s: string): Place
    decreases |s|
  {
    if s == "" then p else PlaceAfter(Step(p, s[0]), s[1..])
  }

  function WrittenBy(p: Place, s: string): string
    decreases |s|
  {
    if s == "" then "" else Write(p, s[0]) + WrittenBy(Step(p, s[0]), s[1..])
  }

  lemma {:induction false} StripAppend(p: Place, a: string, b: string)
    ensures Strip(p, a + b) == WrittenBy(p, a) + Strip(PlaceAfter(p, a), b)
    decreases |a|
  {
    hide Step, Write, Pending;
    if a == "" {
      assert a + b == b;
    } else {
      StripAppend(Step(p, a[0]), a[1..], b);
      assert (a + b)[1..] == a[1..] + b;
    }
  }

  lemma {:induction false} WrittenAppend(p: Place, a: string, b: string)
    ensures WrittenBy(p, a + b) == WrittenBy(p, a) + WrittenBy(PlaceAfter(p, a), b)
    ensures PlaceAfter(p, a + b) == PlaceAfter(PlaceAfter(p, a), b)
    decreases |a|
  {
    hide Step, Write;
    if a == "" {
      assert a + b == b;
    } else {
      WrittenAppend(Step(p, a[0]), a[1..], b);
      assert (a + b)[1..] == a[1..] + b;
    }
  }

  /** A number's digits show neither in what is written nor in where the reader ends. */
  lemma {:induction false} DigitsAreSilent(p: Place, s: string)
    requires s != "" && forall c :: c in s ==> IsDigit(c)
    requires p.AtHash? || p.InFirst? || p.AtDash? || p.InSecond?
    ensures WrittenBy(p, s) == if p.AtHash? then "#L" else ""
    ensures PlaceAfter(p, s) == if p.AtHash? || p.InFirst? then InFirst else InSecond
    decreases |s|
  {
    assert s[0] in s;
    if |s| > 1 {
      DigitsAreSilent(Step(p, s[0]), s[1..]);
    } else {
      assert s[1..] == "";
    }
  }

  lemma ReferenceIsConstant(p: Place, n: nat)
    ensures WrittenBy(p, "#" + Numeral(n)) == Pending(p) + "#L" && PlaceAfter(p, "#" + Numeral(n)) == InFirst
  {
    var s := "#" + Numeral(n);
    assert s[1..] == Numeral(n);
    DigitsAreSilent(AtHash, Numeral(n));
    assert Pending(p) + "" == Pending(p);
  }

  lemma SegmentIsShape(p: Place, a: Segment, b: Segment)
    requires SameShape([a], [b])
    ensures WrittenBy(p, RenderSegment(a)) == WrittenBy(p, RenderSegment(b))
    ensures PlaceAfter(p, RenderSegment(a)) == PlaceAfter(p, RenderSegment(b))
  {
    hide WrittenBy, PlaceAfter, Numeral;
    assert [a][0] == a && [b][0] == b;
    match a {
      case Words(_) =>
      case LineRef(n) =>
        ReferenceIsConstant(p, n);
        ReferenceIsConstant(p, b.line);
      case SpanRef(m, n) =>
        SpanIsConstant(p, m, n);
        SpanIsConstant(p, b.first, b.last);
    }
  }

  lemma SpanIsConstant(p: Place, m: nat, n: nat)
    ensures WrittenBy(p, "#" + Numeral(m) + "-" + Numeral(n)) == Pending(p) + "#L"
    ensures PlaceAfter(p, "#" + Numeral(m) + "-" + Numeral(n)) == InSecond
  {
    var first, rest := "#" + Numeral(m), "-" + Numeral(n);
    assert "#" + Numeral(m) + "-" + Numeral(n) == first + rest;
    ReferenceIsConstant(p, m);
    WrittenAppend(p, first, rest);
    assert rest[1..] == Numeral(n);
    DigitsAreSilent(AtDash, Numeral(n));
    assert WrittenBy(InFirst, rest) == "" + WrittenBy(AtDash, Numeral(n));
  }

  lemma {:induction false} ShapeDecides(p: Place, a: seq<Segment>, b: seq<Segment>)
    requires SameShape(a, b)
    ensures Strip(p, Render(a)) == Strip(p, Render(b))
    decreases |a|
  {
    hide Strip, RenderSegment, WrittenBy, PlaceAfter;
    if a != [] {
      SegmentIsShape(p, a[0], b[0]);
      StripAppend(p, RenderSegment(a[0]), Render(a[1..]));
      StripAppend(p, RenderSegment(b[0]), Render(b[1..]));
      ShapeDecides(PlaceAfter(p, RenderSegment(a[0])), a[1..], b[1..]);
    }
  }

  /** Messages that differ only in the lines they cite strip alike. */
  lemma StrippedAlike(s: string, t: string)
    requires SameButLines(s, t)
    ensures StripLineReferences(s) == StripLineReferences(t)
  {
    hide Strip, Render;
    var a, b :| SameShape(a, b) && s == Render(a) && t == Render(b);
    ShapeDecides(Plain, a, b);
    StripAgrees(Plain, s);
    StripAgrees(Plain, t);
  }

  // ----- what is stripped, and what is kept -------------------------------------------------

  lemma {:induction false} DigitsDropped(digits: string, after: string)
    requires (forall c :: c in digits ==> IsDigit(c)) && (after == "" || !IsDigit(after[0]))
    ensures DropDigits(digits + after) == after
  {
    if digits == "" {
      assert digits + after == after;
    } else {
      assert (digits + after)[1..] == digits[1..] + after;
      assert digits[0] in digits;
      DigitsDropped(digits[1..], after);
    }
  }

  /** A line that is cited leaves a constant, and stripping goes on after its number. */
  lemma CitationStripped(n: nat, after: string)
    requires after == "" || !IsDigit(after[0])
    requires |after| > 1 && after[0] == '-' ==> !IsDigit(after[1])
    ensures StripLineReferences("#" + Numeral(n) + after) == "#L" + StripLineReferences(after)
  {
    hide Numeral, DropDigits;
    var s := Numeral(n) + after;
    assert s[0] == Numeral(n)[0] && Numeral(n)[0] in Numeral(n);
    assert "#" + Numeral(n) + after == "#" + s;
    StripUnfold('#', s);
    DigitsDropped(Numeral(n), after);
  }

  /** So does a span of lines, with both its numbers. */
  lemma SpanStripped(m: nat, n: nat, after: string)
    requires after == "" || !IsDigit(after[0])
    ensures StripLineReferences("#" + Numeral(m) + "-" + Numeral(n) + after) == "#L" + StripLineReferences(after)
  {
    hide Numeral, DropDigits;
    var second := Numeral(n) + after;
    var s := Numeral(m) + ("-" + second);
    assert s[0] == Numeral(m)[0] && Numeral(m)[0] in Numeral(m);
    assert second[0] == Numeral(n)[0] && Numeral(n)[0] in Numeral(n);
    assert "#" + Numeral(m) + "-" + Numeral(n) + after == "#" + s;
    StripUnfold('#', s);
    DigitsDropped(Numeral(m), "-" + second);
    assert ("-" + second)[1..] == second;
    DigitsDropped(Numeral(n), after);
  }

  /** Text before which no citation starts is kept as it is. */
  lemma {:induction false} TextKept(before: string, rest: string)
    requires forall i :: 0 <= i < |before| && before[i] == '#' && i + 1 < |before + rest| ==> !IsDigit((before + rest)[i + 1])
    ensures StripLineReferences(before + rest) == before + StripLineReferences(rest)
  {
    if before == "" {
      assert before + rest == rest;
    } else {
      var tail := before[1..] + rest;
      assert before + rest == [before[0]] + tail;
      forall i | 0 <= i < |before[1..]| && before[1..][i] == '#' && i + 1 < |tail| ensures !IsDigit(tail[i + 1]) {
        assert tail[i + 1] == (before + rest)[i + 2] && before[i + 1] == '#';
      }
      TextKept(before[1..], rest);
      StripUnfold(before[0], tail);
      assert before[0] == '#' && tail != "" ==> !IsDigit(tail[0]) by {
        assert tail != "" ==> tail[0] == (before + rest)[1];
      }
      assert "#" + tail == ['#'] + tail;
    }
  }

  /** Two messages that cite another line at one place are the same but for lines. */
  lemma CitedElsewhere(before: string, m: nat, n: nat, after: string)
    ensures SameButLines(before + "#" + Numeral(m) + after, before + "#" + Numeral(n) + after)
  {
    var a, b := [Words(before), LineRef(m), Words(after)], [Words(before), LineRef(n), Words(after)];
    RenderThree(before, m, after);
    RenderThree(before, n, after);
    assert SameShape(a, b);
  }

  lemma RenderThree(before: string, n: nat, after: string)
    ensures Render([Words(before), LineRef(n), Words(after)]) == before + "#" + Numeral(n) + after
  {
    var s := [Words(before), LineRef(n), Words(after)];
    assert s[1..] == [LineRef(n), Words(after)] && s[1..][1..] == [Words(after)] && s[1..][1..][1..] == [];
    assert Render([Words(after)]) == after + Render([]);
  }
}
