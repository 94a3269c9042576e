/**
 * What shows in a finding's identity and fingerprints: with hashes that do not collide, the identity
 * tells the detector, what the elements are and the message, and a fingerprint tells the code it is
 * taken over.
 */
module FindingChanges {
  import opened Counting
  import opened Seqs
  import opened Sorting
  import opened Strings
  import opened SolidityLexer
  import opened SolidityTwice
  import opened FindingIdentity
  import opened Wrappers

  // ----- the identity -----------------------------------------------------------------------

  ghost predicate IdentityTellsApart(h: Hashing) {
    forall a, b :: h.identity(a) == h.identity(b) ==> a == b
  }

  /**
   * Two findings have one identity exactly when they have one detector, the same elements whatever
   * their lines and order, and messages that strip and trim alike.
   */
  lemma IdentityTells(f: Finding, g: Finding, h: Hashing)
    requires IdentityTellsApart(h) && TotalPreorder(h.collate) && KeysTellApart(IdentityOf(f.elements), h.collate)
    ensures SemanticId(f, h) == SemanticId(g, h) <==>
            && f.check == g.check
            && multiset(IdentityOf(f.elements)) == multiset(IdentityOf(g.elements))
            && Trim(StripLineReferences(f.description)) == Trim(StripLineReferences(g.description))
  {
    hide StableSort, StripLineReferences, Trim;
    var leq := ByIdentityKey(h.collate);
    var a, b := IdentityOf(f.elements), IdentityOf(g.elements);
    IdentityOrder(h.collate);
    if StableSort(a, leq) == StableSort(b, leq) {
      SortPermutes(a, leq);
      SortPermutes(b, leq);
    }
    if multiset(a) == multiset(b) {
      assert Discriminates(a, leq);
      SortDetermined(a, b, leq);
    }
  }

  // ----- the fingerprints -------------------------------------------------------------------

  ghost predicate FingerprintTellsApart(h: Hashing) {
    forall a, b :: h.fingerprint(a) == h.fingerprint(b) ==> a == b
  }

  /** No line ends inside a path or a chain. */
  ghost predicate OneLine(e: Element) {
    '\n' !in e.file && '\n' !in e.chain
  }

  lemma NormalHasNoNewline(text: string)
    ensures '\n' !in Normalised(text)
  {
    hide Lex, Collapse, Trim;
    var c := Collapse(Lex(Code, text));
    CollapseCollapses(Lex(Code, text));
    TrimOfCollapsed(c);
    CollapsedStays(Trim(c));
    assert IsSpace('\n');
  }

  lemma PartsHaveNoNewline(read: SourceReader, kept: seq<Element>)
    requires forall e :: e in kept ==> OneLine(e)
    ensures forall p :: p in PartsOf(read, kept) ==> '\n' !in p
  {
    hide Normalised, Body;
    forall p | p in PartsOf(read, kept) ensures '\n' !in p {
      var i :| 0 <= i < |kept| && PartOf(read, kept[i]) == p;
      NormalHasNoNewline(Body(read, kept[i]));
      assert OneLine(kept[i]);
    }
  }

  lemma FirstPart(parts: seq<string>)
    requires parts != [] && '\n' !in parts[0]
    ensures '\n' in JoinParts(parts) <==> |parts| > 1
    ensures |parts| > 1 ==>
              var s, n := JoinParts(parts), |parts[0]|;
              && n + 4 <= |s| && s[..n] == parts[0] && s[n] == '\n' && s[n + 4..] == JoinParts(parts[1..])
  {
    if |parts| > 1 {
      assert JoinParts(parts)[|parts[0]|] == '\n';
    }
  }

  /** The joined text can be taken apart in one way only. */
  lemma {:induction false} JoinPartsInjective(a: seq<string>, b: seq<string>)
    requires a != [] && b != [] && (forall p :: p in a ==> '\n' !in p) && forall p :: p in b ==> '\n' !in p
    requires JoinParts(a) == JoinParts(b)
    ensures a == b
  {
    hide JoinParts;
    FirstPart(a);
    FirstPart(b);
    var s := JoinParts(a);
    if |a| == 1 || |b| == 1 {
      OnePart(a);
      OnePart(b);
    } else {
      SameCut(s, |a[0]|, |b[0]|, '\n');
      JoinPartsInjective(a[1..], b[1..]);
      assert a == [a[0]] + a[1..] && b == [b[0]] + b[1..];
    }
  }

  lemma OnePart(parts: seq<string>)
    ensures |parts| == 1 ==> JoinParts(parts) == parts[0] && parts == [parts[0]]
  {
  }

  /** The first `c` of a text is in one place. */
  lemma SameCut(s: string, m: nat, n: nat, c: char)
    requires m < |s| && n < |s| && s[m] == c && s[n] == c && c !in s[..m] && c !in s[..n]
    ensures m == n
  {
    NoneBefore(s, m, c);
    NoneBefore(s, n, c);
  }

  lemma NoneBefore(s: string, n: nat, c: char)
    requires n <= |s| && c !in s[..n]
    ensures forall k :: 0 <= k < n ==> s[k] != c
  {
    forall k | 0 <= k < n ensures s[k] != c {
      assert s[..n][k] in s[..n];
    }
  }

  /**
   * Two fingerprints, narrow or broad, are the same exactly when they are taken over the same parts: of
   * each element its path, its chain and the normal form of the source it covers, in any order.
   */
  lemma FingerprintTells(f: Finding, g: Finding, read: SourceReader, read': SourceReader, nodesOnly: bool, h: Hashing)
    requires FingerprintTellsApart(h)
    requires forall e :: e in f.elements + g.elements ==> OneLine(e)
    ensures FingerprintOver(f, read, nodesOnly, h) == FingerprintOver(g, read', nodesOnly, h) <==>
            multiset(PartsOf(read, KeptElements(f.elements, nodesOnly))) ==
            multiset(PartsOf(read', KeptElements(g.elements, nodesOnly)))
  {
    hide PartOf, StableSort, JoinParts;
    var kept, kept' := KeptElements(f.elements, nodesOnly), KeptElements(g.elements, nodesOnly);
    KeptAre(f.elements, nodesOnly);
    KeptAre(g.elements, nodesOnly);
    var a, b := PartsOf(read, kept), PartsOf(read', kept');
    PartsHaveNoNewline(read, kept);
    PartsHaveNoNewline(read', kept');
    var s, t := StableSort(a, StringLeq), StableSort(b, StringLeq);
    SortPermutes(a, StringLeq);
    SortPermutes(b, StringLeq);
    SortMembers(a, StringLeq);
    SortMembers(b, StringLeq);
    if multiset(a) == multiset(b) {
      SortedStringsDetermined(a, b);
      assert |a| == |multiset(a)| == |b|;
    }
    if kept != [] && kept' != [] && JoinParts(s) == JoinParts(t) {
      JoinPartsInjective(s, t);
    }
  }

  /** The narrow fingerprint is taken over the node elements, the broad one over all. */
  lemma {:induction false} KeptAre(elements: seq<Element>, nodesOnly: bool)
    ensures forall e :: e in KeptElements(elements, nodesOnly) <==> e in elements && (nodesOnly ==> e.kind == "node")
    ensures !nodesOnly ==> KeptElements(elements, nodesOnly) == elements
  {
    if elements != [] {
      KeptAre(elements[1..], nodesOnly);
      assert elements == [elements[0]] + elements[1..];
    }
  }

  /** Of one element under two sources, the parts are the same exactly when the code covered is, comments and spacing aside. */
  lemma PartTells(e: Element, read: SourceReader, read': SourceReader)
    ensures PartOf(read, e) == PartOf(read', e) <==> Normalised(Body(read, e)) == Normalised(Body(read', e))
  {
    hide Normalised, Body;
    var head := e.file + "|" + e.chain + "|";
    var a, b := Normalised(Body(read, e)), Normalised(Body(read', e));
    assert PartOf(read, e)[|head|..] == a && PartOf(read', e)[|head|..] == b;
  }

  /** Elements whose paths and chains hold no separator have one part only with one path, one chain and one code. */
  lemma PartsApart(e: Element, d: Element, read: SourceReader, read': SourceReader)
    requires '|' !in e.file && '|' !in e.chain && '|' !in d.file && '|' !in d.chain
    ensures PartOf(read, e) == PartOf(read', d) <==>
            e.file == d.file && e.chain == d.chain && Normalised(Body(read, e)) == Normalised(Body(read', d))
  {
    hide Normalised, Body;
    var p, q := PartOf(read, e), PartOf(read', d);
    var a, b := e.chain + "|" + Normalised(Body(read, e)), d.chain + "|" + Normalised(Body(read', d));
    assert p == e.file + "|" + a && q == d.file + "|" + b;
    if p == q {
      CutApart(e.file, a, d.file, b);
      CutApart(e.chain, Normalised(Body(read, e)), d.chain, Normalised(Body(read', d)));
    }
  }

  lemma CutApart(a: string, s: string, b: string, t: string)
    requires '|' !in a && '|' !in b && a + "|" + s == b + "|" + t
    ensures a == b && s == t
  {
    var whole := a + "|" + s;
    assert whole[|a|] == '|' && whole[|b|] == '|';
    assert whole[..|a|] == a && whole[..|b|] == b;
    SameCut(whole, |a|, |b|, '|');
    assert whole[|a| + 1..] == s && whole[|b| + 1..] == t;
  }

  /**
   * An edit shows: if the code on one cited line, comments and spacing aside, is not what it was, the
   * fingerprints of a finding with that one element differ.
   */
  lemma EditShows(f: Finding, e: Element, read: SourceReader, read': SourceReader, n: nat, nodesOnly: bool, h: Hashing)
    requires FingerprintTellsApart(h) && f.elements == [e] && e.lines == [n] && OneLine(e) && (nodesOnly ==> e.kind == "node")
    requires 1 <= n <= |read(e.file)| && n <= |read'(e.file)|
    requires NonSpace(Kept(Code, read(e.file)[n - 1])) != NonSpace(Kept(Code, read'(e.file)[n - 1]))
    ensures FingerprintOver(f, read, nodesOnly, h) != FingerprintOver(f, read', nodesOnly, h)
  {
    hide NonSpace, Kept, Normalised, FingerprintOver, PartOf;
    assert KeptElements([e], nodesOnly) == [e] by { assert [e][1..] == []; }
    FingerprintTells(f, f, read, read', nodesOnly, h);
    PartTells(e, read, read');
    OneLineBody(read, e, n);
    OneLineBody(read', e, n);
    NormalisedKeepsCode(read(e.file)[n - 1]);
    NormalisedKeepsCode(read'(e.file)[n - 1]);
    var a, b := PartsOf(read, [e]), PartsOf(read', [e]);
    assert a == [PartOf(read, e)] && b == [PartOf(read', e)];
    assert PartOf(read, e) in multiset(a) && (PartOf(read, e) in multiset(b) ==> PartOf(read, e) == PartOf(read', e));
  }

  lemma OneLineBody(read: SourceReader, e: Element, n: nat)
    requires e.lines == [n] && 1 <= n <= |read(e.file)|
    ensures Body(read, e) == read(e.file)[n - 1]
  {
  }

  /** The source an element covers: its lines, joined. */
  lemma {:induction false} BodySplits(read: SourceReader, e: Element)
    requires e.lines != [] && forall n :: n in e.lines ==> 1 <= n <= |read(e.file)| && '\n' !in read(e.file)[n - 1]
    ensures Split(Body(read, e), '\n') == seq(|e.lines|, i requires 0 <= i < |e.lines| => LineText(read, e, i))
  {
    hide Split, Join;
    var lines := seq(|e.lines|, i requires 0 <= i < |e.lines| => LineAt(read, e.file, e.lines[i]));
    forall i | 0 <= i < |e.lines| ensures lines[i] == LineText(read, e, i) && '\n' !in lines[i] {
      assert e.lines[i] in e.lines;
    }
    assert lines == seq(|e.lines|, i requires 0 <= i < |e.lines| => LineText(read, e, i));
    SplitJoin(lines, '\n');
  }

  function LineText(read: SourceReader, e: Element, i: nat): string {
    if i < |e.lines| && 1 <= e.lines[i] <= |read(e.file)| then read(e.file)[e.lines[i] - 1] else ""
  }
}
