/**
 * The relocation theorem: when a finding's cited lines move by a constant in each file and the source
 * moves with them, identity and fingerprints stay, and the match reports the move.
 */
module Relocation {
  import opened Wrappers
  import opened Seqs
  import opened Sorting
  import opened Strings
  import opened FindingIdentity
  import opened LineReferences

  type Shift = string -> int

  /** The element, its lines moved by its file's shift, over source that moved with them. */
  ghost predicate MovedElement(e: Element, e': Element, read: SourceReader, read': SourceReader, d: Shift) {
    && e'.kind == e.kind && e'.chain == e.chain && e'.signature == e.signature && e'.file == e.file
    && e.lines != [] && |e'.lines| == |e.lines|
    && forall i :: 0 <= i < |e.lines| ==>
         e'.lines[i] == e.lines[i] + d(e.file) && LineAt(read', e.file, e'.lines[i]) == LineAt(read, e.file, e.lines[i])
  }

  ghost predicate Moved(f: Finding, f': Finding, read: SourceReader, read': SourceReader, d: Shift) {
    && f'.check == f.check && f'.impact == f.impact && f'.confidence == f.confidence
    && SameButLines(f.description, f'.description)
    && |f'.elements| == |f.elements|
    && forall i :: 0 <= i < |f.elements| ==> MovedElement(f.elements[i], f'.elements[i], read, read', d)
  }

  /** No separator of the locator's own in a detector's name or a path. */
  ghost predicate PlainNames(f: Finding) {
    && '|' !in f.check
    && forall e :: e in f.elements ==> e.file != "" && ',' !in e.file && '|' !in e.file
  }

  ghost predicate StandsStill(f: Finding, d: Shift) {
    forall e :: e in f.elements ==> d(e.file) == 0
  }

  // ----- identity and fingerprints ----------------------------------------------------------

  lemma IdentityStays(f: Finding, f': Finding, read: SourceReader, read': SourceReader, d: Shift, h: Hashing)
    requires Moved(f, f', read, read', d)
    ensures SemanticId(f', h) == SemanticId(f, h)
  {
    StrippedAlike(f.description, f'.description);
    var a, b := IdentityOf(f.elements), IdentityOf(f'.elements);
    forall i | 0 <= i < |a| ensures a[i] == b[i] {
      assert MovedElement(f.elements[i], f'.elements[i], read, read', d);
    }
    assert a == b;
  }

  lemma BodyStays(e: Element, e': Element, read: SourceReader, read': SourceReader, d: Shift)
    requires MovedElement(e, e', read, read', d)
    ensures PartOf(read', e') == PartOf(read, e)
  {
    var a := seq(|e.lines|, i requires 0 <= i < |e.lines| => LineAt(read, e.file, e.lines[i]));
    var b := seq(|e'.lines|, i requires 0 <= i < |e'.lines| => LineAt(read', e'.file, e'.lines[i]));
    assert a == b;
  }

  ghost predicate AllMoved(a: seq<Element>, b: seq<Element>, read: SourceReader, read': SourceReader, d: Shift) {
    |a| == |b| && forall i :: 0 <= i < |a| ==> MovedElement(a[i], b[i], read, read', d)
  }

  lemma {:induction false} KeptMoved(
      a: seq<Element>, b: seq<Element>, nodesOnly: bool, read: SourceReader, read': SourceReader, d: Shift)
    requires AllMoved(a, b, read, read', d)
    ensures AllMoved(KeptElements(a, nodesOnly), KeptElements(b, nodesOnly), read, read', d)
  {
    hide MovedElement;
    if a != [] {
      KeptMoved(a[1..], b[1..], nodesOnly, read, read', d);
      MovedKind(a[0], b[0], read, read', d);
    }
  }

  lemma MovedKind(e: Element, e': Element, read: SourceReader, read': SourceReader, d: Shift)
    requires MovedElement(e, e', read, read', d)
    ensures e'.kind == e.kind
  {
  }

  lemma FingerprintStays(
      f: Finding, f': Finding, read: SourceReader, read': SourceReader, d: Shift, nodesOnly: bool, h: Hashing)
    requires Moved(f, f', read, read', d)
    ensures FingerprintOver(f', read', nodesOnly, h) == FingerprintOver(f, read, nodesOnly, h)
  {
    hide MovedElement, PartOf;
    KeptMoved(f.elements, f'.elements, nodesOnly, read, read', d);
    var a, b := KeptElements(f.elements, nodesOnly), KeptElements(f'.elements, nodesOnly);
    forall i | 0 <= i < |a| ensures PartsOf(read, a)[i] == PartsOf(read', b)[i] {
      BodyStays(a[i], b[i], read, read', d);
    }
    assert PartsOf(read, a) == PartsOf(read', b);
  }

  // ----- reading a locator back -------------------------------------------------------------

  function Place(file: string, n: nat): string {
    file + ":" + Numeral(n)
  }

  lemma PlaceParses(file: string, n: nat)
    ensures var p := Place(file, n);
            var i := LastIndexOf(p, ':');
            i == |file| && p[..i] == file && LineNumber(p[i + 1..]) == n
  {
    var p := Place(file, n);
    assert p == file + [':'] + Numeral(n);
    LastIndexOfSuffix(file, ':', Numeral(n));
    assert p[|file| + 1..] == Numeral(n);
    ParseOfNumeral(n);
  }

  lemma PlaceInjective(f: string, m: nat, g: string, n: nat)
    ensures Place(f, m) == Place(g, n) <==> f == g && m == n
  {
    hide Place;
    PlaceParses(f, m);
    PlaceParses(g, n);
  }

  ghost predicate ArePlaces(parts: seq<string>) {
    forall p :: p in parts ==> IsPlace(p)
  }

  ghost predicate IsPlace(p: string) {
    exists file, n :: p == Place(file, n)
  }

  /** The lines of one file among the parts, in part order. */
  function LinesIn(parts: seq<string>, file: string): seq<int> {
    if parts == [] then []
    else
      var part := parts[|parts| - 1];
      var i := LastIndexOf(part, ':');
      LinesIn(parts[..|parts| - 1], file) +
      if i >= 0 && LineNumber(part[i + 1..]) >= 0 && part[..i] == file then [LineNumber(part[i + 1..])] else []
  }

  /** The lines are those the parts place in the file, each as often as it is placed. */
  ghost predicate ArePlaced(lines: seq<int>, parts: seq<string>, file: string) {
    && (forall n: nat :: n in lines <==> Place(file, n) in parts)
    && (forall n :: n in lines ==> n >= 0)
    && (Distinct(parts) ==> Distinct(lines))
  }

  lemma PlacedNext(lines: seq<int>, init: seq<string>, file: string, g: string, m: nat)
    requires ArePlaced(lines, init, file)
    ensures ArePlaced(lines + if g == file then [m] else [], init + [Place(g, m)], file)
  {
    hide Place;
    var part := Place(g, m);
    forall n: nat ensures Place(file, n) == part <==> file == g && n == m {
      PlaceInjective(file, n, g, m);
    }
    DistinctSnoc(init, part);
    assert lines + [] == lines;
  }

  lemma {:induction false} LinesInMembers(parts: seq<string>, file: string)
    requires ArePlaces(parts)
    ensures ArePlaced(LinesIn(parts, file), parts, file)
  {
    hide Place, LastIndexOf, LineNumber, ArePlaced;
    if parts == [] {
      NonePlaced(file);
    } else {
      var init, part := parts[..|parts| - 1], parts[|parts| - 1];
      assert parts == init + [part];
      LinesInMembers(init, file);
      assert IsPlace(part);
      var g, m :| part == Place(g, m);
      PlaceParses(g, m);
      PlacedNext(LinesIn(init, file), init, file, g, m);
    }
  }

  lemma NonePlaced(file: string)
    ensures ArePlaced([], [], file)
  {
  }

  function FilesOf(groups: seq<FileLines>): (files: seq<string>)
    ensures |files| == |groups| && forall i :: 0 <= i < |files| ==> files[i] == groups[i].file
  {
    seq(|groups|, i requires 0 <= i < |groups| => groups[i].file)
  }

  lemma {:induction false} AddLineLookup(groups: seq<FileLines>, file: string, line: int, other: string)
    ensures LinesOf(AddLine(groups, file, line), other) ==
            if other != file then LinesOf(groups, other)
            else Some((match LinesOf(groups, file) case None => [] case Some(l) => l) + [line])
  {
    if groups != [] {
      if groups[0].file == file {
        assert ([FileLines(file, groups[0].lines + [line])] + groups[1..])[1..] == groups[1..];
      } else {
        AddLineLookup(groups[1..], file, line, other);
      }
    } else {
      assert [] + [line] == [line];
      NoLines(other);
    }
  }

  lemma {:induction false} AddLineFiles(groups: seq<FileLines>, file: string, line: int)
    requires Distinct(FilesOf(groups))
    ensures Distinct(FilesOf(AddLine(groups, file, line)))
    ensures forall g :: g in FilesOf(AddLine(groups, file, line)) <==> g == file || g in FilesOf(groups)
  {
    var files, after := FilesOf(groups), FilesOf(AddLine(groups, file, line));
    if groups == [] {
      assert after == [file];
    } else if groups[0].file == file {
      assert after == files && file == files[0];
    } else {
      AddLineFiles(groups[1..], file, line);
      assert files == [groups[0].file] + FilesOf(groups[1..]);
      assert after == [groups[0].file] + FilesOf(AddLine(groups[1..], file, line));
      DistinctCons(files[0], FilesOf(groups[1..]));
      DistinctCons(files[0], FilesOf(AddLine(groups[1..], file, line)));
    }
  }

  ghost predicate Groups(groups: seq<FileLines>, lines: seq<int>, file: string) {
    && LinesOf(groups, file) == (if lines == [] then None else Some(lines))
    && Distinct(FilesOf(groups))
  }

  lemma GroupNext(groups: seq<FileLines>, lines: seq<int>, file: string, g: string, line: int)
    requires Groups(groups, lines, file)
    ensures Groups(AddLine(groups, g, line), lines + if g == file then [line] else [], file)
  {
    hide AddLine, LinesOf;
    AddLineLookup(groups, g, line, file);
    AddLineFiles(groups, g, line);
    assert lines + [] == lines && [] + [line] == [line];
  }

  lemma {:induction false} GroupLookup(parts: seq<string>, file: string)
    ensures Groups(GroupParts(parts), LinesIn(parts, file), file)
  {
    hide LastIndexOf, LineNumber, AddLine, Groups;
    if parts == [] {
      assert Groups([], [], file) by { NoGroups(file); }
    } else {
      var init, part := parts[..|parts| - 1], parts[|parts| - 1];
      var i := LastIndexOf(part, ':');
      GroupLookup(init, file);
      assert LinesIn(init, file) + [] == LinesIn(init, file);
      if i >= 0 && LineNumber(part[i + 1..]) >= 0 {
        GroupNext(GroupParts(init), LinesIn(init, file), file, part[..i], LineNumber(part[i + 1..]));
      }
    }
  }

  lemma NoGroups(file: string)
    ensures Groups([], [], file)
  {
  }

  lemma NoLines(file: string)
    ensures LinesOf([], file) == None
  {
  }

  lemma {:induction false} LookupAt(groups: seq<FileLines>, i: nat)
    requires i < |groups| && Distinct(FilesOf(groups))
    ensures LinesOf(groups, groups[i].file) == Some(groups[i].lines)
  {
    if i > 0 {
      assert FilesOf(groups)[0] != FilesOf(groups)[i];
      assert FilesOf(groups) == [groups[0].file] + FilesOf(groups[1..]);
      DistinctCons(groups[0].file, FilesOf(groups[1..]));
      LookupAt(groups[1..], i - 1);
    }
  }

  lemma {:induction false} LookupFinds(groups: seq<FileLines>, file: string)
    ensures LinesOf(groups, file).Some? <==> file in FilesOf(groups)
  {
    if groups != [] {
      LookupFinds(groups[1..], file);
      assert FilesOf(groups) == [groups[0].file] + FilesOf(groups[1..]);
    }
  }

  function SortGroups(groups: seq<FileLines>): (r: seq<FileLines>)
    ensures |r| == |groups|
  {
    seq(|groups|, i requires 0 <= i < |groups| => FileLines(groups[i].file, StableSort(groups[i].lines, IntLeq)))
  }

  lemma {:induction false} SortGroupsLookup(groups: seq<FileLines>, file: string)
    ensures FilesOf(SortGroups(groups)) == FilesOf(groups)
    ensures LinesOf(SortGroups(groups), file) ==
            match LinesOf(groups, file) case None => None case Some(l) => Some(StableSort(l, IntLeq))
  {
    hide StableSort;
    if groups != [] {
      SortGroupsLookup(groups[1..], file);
      assert SortGroups(groups)[1..] == SortGroups(groups[1..]);
    }
  }

  // ----- the locator of a finding -----------------------------------------------------------

  ghost predicate Cites(f: Finding, file: string, n: int) {
    exists e :: e in f.elements && e.file == file && e.lines != [] && e.lines[0] == n
  }

  ghost predicate HasLines(f: Finding) {
    forall e :: e in f.elements ==> e.lines != []
  }

  function SortedLocs(f: Finding): seq<string> {
    StableSort(Locs(f.elements), StringLeq)
  }

  lemma SortedLocsAre(f: Finding)
    requires PlainNames(f) && HasLines(f)
    ensures Distinct(SortedLocs(f)) && ArePlaces(SortedLocs(f))
    ensures forall p :: p in SortedLocs(f) ==> ',' !in p && '|' !in p
    ensures forall file, n: nat :: Place(file, n) in SortedLocs(f) <==> Cites(f, file, n)
    ensures SortedLocs(f) == [] <==> f.elements == []
  {
    hide StableSort;
    var locs := Locs(f.elements);
    SortMembers(locs, StringLeq);
    SortPermutes(locs, StringLeq);
    PermutationKeepsDistinct(locs, SortedLocs(f));
    forall e | e in f.elements ensures LocOf(e) == Place(e.file, e.lines[0]) {
    }
    forall p | p in locs ensures IsPlace(p) && ',' !in p && '|' !in p {
      var e :| e in f.elements && e.file != "" && LocOf(e) == p;
      assert p == Place(e.file, e.lines[0]);
      PlacePlain(e.file, e.lines[0]);
    }
    forall file, n: nat ensures Place(file, n) in locs <==> Cites(f, file, n) {
      if Place(file, n) in locs {
        var e :| e in f.elements && e.file != "" && LocOf(e) == Place(file, n);
        PlaceInjective(e.file, e.lines[0], file, n);
      }
    }
    if f.elements != [] {
      assert f.elements[0] in f.elements;
      assert LocOf(f.elements[0]) in locs;
    }
  }

  lemma PlacePlain(file: string, n: nat)
    requires ',' !in file && '|' !in file
    ensures ',' !in Place(file, n) && '|' !in Place(file, n)
  {
  }

  lemma {:induction false} JoinAvoids(parts: seq<string>, sep: char, c: char)
    requires c != sep && forall p :: p in parts ==> c !in p
    ensures c !in Join(parts, sep)
  {
    if |parts| > 1 {
      JoinAvoids(parts[1..], sep, c);
    }
  }

  lemma LocatorReads(f: Finding)
    requires PlainNames(f) && HasLines(f)
    ensures LocatorParts(CanonicalLocator(f)) == if f.elements == [] then [""] else SortedLocs(f)
  {
    hide StableSort, Locs;
    var locs := SortedLocs(f);
    SortedLocsAre(f);
    var body := Join(locs, ',');
    JoinAvoids(locs, ',', '|');
    SplitAtFirst(f.check, '|', body);
    SplitNoSeparator(body, '|');
    assert CanonicalLocator(f) == f.check + ['|'] + body;
    assert Split(CanonicalLocator(f), '|') == [f.check, body];
    if locs != [] {
      SplitJoin(locs, ',');
    }
  }

  /** The lines a locator names in a file, ascending. */
  function CitedLines(f: Finding, file: string): seq<int> {
    StableSort(LinesIn(SortedLocs(f), file), IntLeq)
  }

  lemma CitedLinesAre(f: Finding, file: string)
    requires PlainNames(f) && HasLines(f)
    ensures Distinct(CitedLines(f, file)) && Sorted(CitedLines(f, file), IntLeq)
    ensures forall n :: n in CitedLines(f, file) <==> Cites(f, file, n)
  {
    hide StableSort, LinesIn, SortedLocs;
    SortedLocsAre(f);
    forall n | Cites(f, file, n) ensures n >= 0 {
      var e :| e in f.elements && e.file == file && e.lines != [] && e.lines[0] == n;
    }
    var lines := LinesIn(SortedLocs(f), file);
    LinesInMembers(SortedLocs(f), file);
    SortMembers(lines, IntLeq);
    SortPermutes(lines, IntLeq);
    SortSorts(lines, IntLeq);
    PermutationKeepsDistinct(lines, CitedLines(f, file));
    forall n: int ensures n in CitedLines(f, file) <==> Cites(f, file, n) {
      assert n in CitedLines(f, file) <==> n in lines;
      if n >= 0 {
        assert Place(file, n) in SortedLocs(f) <==> Cites(f, file, n);
      }
    }
  }

  lemma ByFileLookup(f: Finding, file: string)
    requires PlainNames(f) && HasLines(f)
    ensures var groups := ByFile(CanonicalLocator(f));
            && Distinct(FilesOf(groups))
            && LinesOf(groups, file) == (if CitedLines(f, file) == [] then None else Some(CitedLines(f, file)))
            && (file in FilesOf(groups) <==> CitedLines(f, file) != [])
  {
    hide StableSort, LinesIn, LinesOf, SortedLocs, CanonicalLocator, GroupParts, LocatorParts;
    LocatorReads(f);
    var parts := LocatorParts(CanonicalLocator(f));
    GroupLookup(parts, file);
    SortGroupsLookup(GroupParts(parts), file);
    assert ByFile(CanonicalLocator(f)) == SortGroups(GroupParts(parts));
    LookupFinds(SortGroups(GroupParts(parts)), file);
    SortedLocsAre(f);
    SortPermutes(LinesIn(SortedLocs(f), file), IntLeq);
    if f.elements == [] {
      NothingIn(file);
    }
  }

  lemma NothingIn(file: string)
    ensures LinesIn([""], file) == [] && LinesIn([], file) == []
  {
    assert LastIndexOf("", ':') == -1;
  }

  // ----- the locator moves ------------------------------------------------------------------

  function Shifted(lines: seq<int>, k: int): seq<int> {
    seq(|lines|, i requires 0 <= i < |lines| => lines[i] + k)
  }

  lemma CitesMove(f: Finding, f': Finding, read: SourceReader, read': SourceReader, d: Shift, file: string, n: int)
    requires Moved(f, f', read, read', d)
    ensures Cites(f, file, n) <==> Cites(f', file, n + d(file))
  {
    if Cites(f, file, n) {
      var e :| e in f.elements && e.file == file && e.lines != [] && e.lines[0] == n;
      var i :| 0 <= i < |f.elements| && f.elements[i] == e;
      assert MovedElement(f.elements[i], f'.elements[i], read, read', d);
      assert f'.elements[i] in f'.elements;
    }
    if Cites(f', file, n + d(file)) {
      var e' :| e' in f'.elements && e'.file == file && e'.lines != [] && e'.lines[0] == n + d(file);
      var i :| 0 <= i < |f'.elements| && f'.elements[i] == e';
      assert MovedElement(f.elements[i], f'.elements[i], read, read', d);
      assert f.elements[i] in f.elements;
    }
  }

  lemma MovedKeepsNames(f: Finding, f': Finding, read: SourceReader, read': SourceReader, d: Shift)
    requires Moved(f, f', read, read', d) && PlainNames(f)
    ensures PlainNames(f') && HasLines(f) && HasLines(f')
  {
    forall e' | e' in f'.elements ensures e'.lines != [] && e'.file != "" && ',' !in e'.file && '|' !in e'.file {
      var i :| 0 <= i < |f'.elements| && f'.elements[i] == e';
      assert MovedElement(f.elements[i], f'.elements[i], read, read', d) && f.elements[i] in f.elements;
    }
    forall e | e in f.elements ensures e.lines != [] {
      var i :| 0 <= i < |f.elements| && f.elements[i] == e;
      assert MovedElement(f.elements[i], f'.elements[i], read, read', d);
    }
  }

  /** A file's cited lines, sorted as numbers, all move by the file's shift. */
  lemma CitedLinesMove(f: Finding, f': Finding, read: SourceReader, read': SourceReader, d: Shift, file: string)
    requires Moved(f, f', read, read', d) && PlainNames(f)
    ensures CitedLines(f', file) == Shifted(CitedLines(f, file), d(file))
  {
    hide CitedLines, Moved, Cites, PlainNames, HasLines;
    MovedKeepsNames(f, f', read, read', d);
    CitedLinesAre(f, file);
    CitedLinesAre(f', file);
    var a, b, k := CitedLines(f, file), CitedLines(f', file), d(file);
    var s := Shifted(a, k);
    forall n ensures n in s <==> n in b {
      CitesMove(f, f', read, read', d, file, n - k);
      ShiftedMember(a, k, n);
    }
    assert Sorted(s, IntLeq) && Distinct(s) && SetOf(s) == SetOf(b);
    DistinctSameSet(s, b);
    SortedUnique(s, b, IntLeq);
  }

  lemma ShiftedMember(a: seq<int>, k: int, n: int)
    ensures n in Shifted(a, k) <==> n - k in a
  {
    if n - k in a {
      var i :| 0 <= i < |a| && a[i] == n - k;
      assert Shifted(a, k)[i] == n;
    }
  }

  /** Each cited line's shift, file by file. */
  function ExpectedDelta(groups: seq<FileLines>, d: Shift): seq<int> {
    if groups == [] then []
    else
      var g := groups[|groups| - 1];
      ExpectedDelta(groups[..|groups| - 1], d) + seq(|g.lines|, i requires 0 <= i < |g.lines| => d(g.file))
  }

  lemma {:induction false} DeltasAreShifts(a: seq<FileLines>, b: seq<FileLines>, d: Shift)
    requires forall g :: g in a ==> LinesOf(b, g.file) == Some(Shifted(g.lines, d(g.file)))
    ensures Deltas(a, b) == Some(ExpectedDelta(a, d))
  {
    if a != [] {
      var init, g := a[..|a| - 1], a[|a| - 1];
      assert a == init + [g] && g in a;
      DeltasAreShifts(init, b, d);
      assert Differences(g.lines, Shifted(g.lines, d(g.file))) ==
             seq(|g.lines|, i requires 0 <= i < |g.lines| => d(g.file));
    }
  }

  lemma SameFileCount(a: seq<FileLines>, b: seq<FileLines>)
    requires Distinct(FilesOf(a)) && Distinct(FilesOf(b)) && forall f :: f in FilesOf(a) <==> f in FilesOf(b)
    ensures |a| == |b|
  {
    DistinctByCount(FilesOf(a));
    DistinctByCount(FilesOf(b));
    assert SetOf(FilesOf(a)) == SetOf(FilesOf(b));
  }

  lemma DeltaIsShift(f: Finding, f': Finding, read: SourceReader, read': SourceReader, d: Shift)
    requires Moved(f, f', read, read', d) && PlainNames(f)
    ensures LocatorDeltaOf(CanonicalLocator(f), CanonicalLocator(f')) ==
            ExpectedDelta(ByFile(CanonicalLocator(f)), d)
  {
    hide ByFile, CanonicalLocator, CitedLines, Moved, PlainNames, HasLines, Deltas, ExpectedDelta, LinesOf;
    MovedKeepsNames(f, f', read, read', d);
    var a, b := ByFile(CanonicalLocator(f)), ByFile(CanonicalLocator(f'));
    forall file ensures file in FilesOf(a) <==> file in FilesOf(b) {
      ByFileLookup(f, file);
      ByFileLookup(f', file);
      CitedLinesMove(f, f', read, read', d, file);
    }
    ByFileLookup(f, "");
    ByFileLookup(f', "");
    SameFileCount(a, b);
    forall g | g in a ensures LinesOf(b, g.file) == Some(Shifted(g.lines, d(g.file))) {
      var i :| 0 <= i < |a| && a[i] == g;
      LookupAt(a, i);
      ByFileLookup(f, g.file);
      ByFileLookup(f', g.file);
      CitedLinesMove(f, f', read, read', d, g.file);
    }
    DeltasAreShifts(a, b, d);
  }

  /** The locator stays exactly when no cited file moved. */
  lemma LocatorStays(f: Finding, f': Finding, read: SourceReader, read': SourceReader, d: Shift)
    requires Moved(f, f', read, read', d) && PlainNames(f)
    ensures CanonicalLocator(f) == CanonicalLocator(f') <==> StandsStill(f, d)
  {
    hide ByFile, CitedLines, PlainNames, HasLines, LinesOf, StableSort, Locs;
    MovedKeepsNames(f, f', read, read', d);
    if CanonicalLocator(f) == CanonicalLocator(f') {
      forall e | e in f.elements ensures d(e.file) == 0 {
        ByFileLookup(f, e.file);
        ByFileLookup(f', e.file);
        CitedLinesMove(f, f', read, read', d, e.file);
        CitedLinesAre(f, e.file);
        ElementIsCited(f, e);
        assert CitedLines(f, e.file)[0] == Shifted(CitedLines(f, e.file), d(e.file))[0];
      }
    }
    if StandsStill(f, d) {
      forall i | 0 <= i < |f.elements| ensures LocOf(f.elements[i]) == LocOf(f'.elements[i]) && f'.elements[i].file == f.elements[i].file {
        assert MovedElement(f.elements[i], f'.elements[i], read, read', d) && f.elements[i] in f.elements;
      }
      SameLocs(f.elements, f'.elements);
    }
  }

  lemma ElementIsCited(f: Finding, e: Element)
    requires e in f.elements && HasLines(f)
    ensures Cites(f, e.file, e.lines[0])
  {
  }

  lemma {:induction false} SameLocs(a: seq<Element>, b: seq<Element>)
    requires |a| == |b| && forall i :: 0 <= i < |a| ==> LocOf(a[i]) == LocOf(b[i]) && a[i].file == b[i].file
    ensures Locs(a) == Locs(b)
  {
    hide LocOf;
    if a != [] {
      SameLocs(a[..|a| - 1], b[..|b| - 1]);
    }
  }

  // ----- whole runs -------------------------------------------------------------------------

  function PriorOf(r: Row): PriorEntry {
    PriorEntry(r.semanticId, r.locator, r.narrow, r.broad)
  }

  /** What the match reports of one moved finding. */
  ghost predicate ReportsMove(m: Matched, f: Finding, h: Hashing, d: Shift) {
    && m.semanticId == SemanticId(f, h)
    && m.klass == (if StandsStill(f, d) then Unchanged else MatchClass.Relocated)
    && m.lineDelta == (if StandsStill(f, d) then None else Some(ExpectedDelta(ByFile(CanonicalLocator(f)), d)))
  }

  lemma MovedRow(f: Finding, f': Finding, read: SourceReader, read': SourceReader, d: Shift, h: Hashing)
    requires Moved(f, f', read, read', d) && PlainNames(f)
    ensures var row, row' := ToRow(f, read, h), ToRow(f', read', h);
            && row'.semanticId == row.semanticId && row'.narrow == row.narrow && row'.broad == row.broad
            && ClassOf(row', PriorOf(row)) == (if StandsStill(f, d) then Unchanged else MatchClass.Relocated)
            && LocatorDeltaOf(row.locator, row'.locator) == ExpectedDelta(ByFile(CanonicalLocator(f)), d)
  {
    hide Moved, PlainNames, StandsStill, CanonicalLocator, SemanticId, FingerprintOver, ByFile, LocatorDeltaOf, ExpectedDelta;
    IdentityStays(f, f', read, read', d, h);
    FingerprintStays(f, f', read, read', d, true, h);
    FingerprintStays(f, f', read, read', d, false, h);
    LocatorStays(f, f', read, read', d);
    DeltaIsShift(f, f', read, read', d);
  }

  lemma MovedOwn(f: Finding, f': Finding, read: SourceReader, read': SourceReader, d: Shift)
    requires Moved(f, f', read, read', d)
    ensures IsOwnFinding(f') <==> IsOwnFinding(f)
  {
    OwnByIndex(f);
    OwnByIndex(f');
    hide Includes, IsOwnFinding;
    forall i | 0 <= i < |f.elements| ensures f'.elements[i].file == f.elements[i].file {
      assert MovedElement(f.elements[i], f'.elements[i], read, read', d);
    }
  }

  lemma OwnByIndex(f: Finding)
    ensures IsOwnFinding(f) <==>
            forall i :: 0 <= i < |f.elements| ==> f.elements[i].file != "" && !Includes(f.elements[i].file, "node_modules")
  {
    hide Includes;
    assert forall i :: 0 <= i < |f.elements| ==> f.elements[i] in f.elements;
  }

  /** Every finding of a run moved, each by shifts of its own. */
  ghost predicate RunMoved(fs: seq<Finding>, fs': seq<Finding>, read: SourceReader, read': SourceReader, ds: seq<Shift>) {
    && |fs| == |fs'| == |ds|
    && forall i :: 0 <= i < |fs| ==> Moved(fs[i], fs'[i], read, read', ds[i]) && PlainNames(fs[i])
  }

  ghost predicate RowsFrom(rows: seq<Row>, picks: seq<nat>, fs: seq<Finding>, read: SourceReader, h: Hashing) {
    && |picks| == |rows|
    && forall k :: 0 <= k < |rows| ==> picks[k] < |fs| && rows[k] == ToRow(fs[picks[k]], read, h)
  }

  ghost predicate DistinctIds(rows: seq<Row>) {
    forall i, j :: 0 <= i < j < |rows| ==> rows[i].semanticId != rows[j].semanticId
  }

  /** Two indexes of the same picks, each without a repeated identity. */
  ghost predicate IndexedAlike(rows: seq<Row>, rows': seq<Row>, picks: seq<nat>,
                               fs: seq<Finding>, fs': seq<Finding>, read: SourceReader, read': SourceReader, h: Hashing) {
    && RowsFrom(rows, picks, fs, read, h) && RowsFrom(rows', picks, fs', read', h)
    && DistinctIds(rows) && DistinctIds(rows')
  }

  /** Both runs index the same findings, in the same order. */
  lemma {:induction false} IndexMoves(
      fs: seq<Finding>, fs': seq<Finding>, read: SourceReader, read': SourceReader, ds: seq<Shift>, h: Hashing)
    returns (picks: seq<nat>)
    requires RunMoved(fs, fs', read, read', ds)
    ensures IndexedAlike(IndexRows(fs, read, h), IndexRows(fs', read', h), picks, fs, fs', read, read', h)
  {
    hide ToRow, IsOwnFinding, Moved, PlainNames, FindId, SemanticId, IndexedAlike;
    if fs == [] {
      picks := [];
      NothingIndexed(read, read', h);
    } else {
      var n := |fs| - 1;
      var before := IndexMoves(fs[..n], fs'[..n], read, read', ds[..n], h);
      MovedOwn(fs[n], fs'[n], read, read', ds[n]);
      picks := IndexStep(IndexRows(fs[..n], read, h), IndexRows(fs'[..n], read', h), before, fs, fs', read, read', ds, h);
    }
  }

  lemma NothingIndexed(read: SourceReader, read': SourceReader, h: Hashing)
    ensures IndexedAlike([], [], [], [], [], read, read', h)
  {
  }

  function AddRow(rows: seq<Row>, f: Finding, read: SourceReader, h: Hashing): seq<Row> {
    if !IsOwnFinding(f) || FindId(rows, SemanticId(f, h)).Some? then rows else rows + [ToRow(f, read, h)]
  }

  lemma IndexStep(rows: seq<Row>, rows': seq<Row>, picks: seq<nat>, fs: seq<Finding>, fs': seq<Finding>,
                  read: SourceReader, read': SourceReader, ds: seq<Shift>, h: Hashing)
    returns (more: seq<nat>)
    requires fs != [] && RunMoved(fs, fs', read, read', ds)
    requires IndexedAlike(rows, rows', picks, fs[..|fs| - 1], fs'[..|fs| - 1], read, read', h)
    requires IsOwnFinding(fs'[|fs| - 1]) <==> IsOwnFinding(fs[|fs| - 1])
    ensures IndexedAlike(AddRow(rows, fs[|fs| - 1], read, h), AddRow(rows', fs'[|fs| - 1], read', h), more,
                         fs, fs', read, read', h)
  {
    hide ToRow, IsOwnFinding, Moved, PlainNames, FindId, SemanticId;
    var n := |fs| - 1;
    forall k | 0 <= k < |rows| ensures rows'[k].semanticId == rows[k].semanticId {
      MovedIds(fs[picks[k]], fs'[picks[k]], read, read', ds[picks[k]], h);
    }
    MovedIds(fs[n], fs'[n], read, read', ds[n], h);
    RowId(fs[n], read, h);
    RowId(fs'[n], read', h);
    SameIdFound(rows, rows', SemanticId(fs[n], h));
    more := picks;
    if IsOwnFinding(fs[n]) && FindId(rows, SemanticId(fs[n], h)).None? {
      NotFound(rows, SemanticId(fs[n], h));
      NotFound(rows', SemanticId(fs[n], h));
      more := picks + [n];
    }
  }

  lemma MovedIds(f: Finding, f': Finding, read: SourceReader, read': SourceReader, d: Shift, h: Hashing)
    requires Moved(f, f', read, read', d)
    ensures ToRow(f', read', h).semanticId == ToRow(f, read, h).semanticId && SemanticId(f', h) == SemanticId(f, h)
  {
    hide SemanticId;
    IdentityStays(f, f', read, read', d, h);
  }

  lemma RowId(f: Finding, read: SourceReader, h: Hashing)
    ensures ToRow(f, read, h).semanticId == SemanticId(f, h)
  {
  }

  lemma NotFound(rows: seq<Row>, id: string)
    ensures FindId(rows, id).None? ==> forall k :: 0 <= k < |rows| ==> rows[k].semanticId != id
  {
    forall k | 0 <= k < |rows| && FindId(rows, id).None? ensures rows[k].semanticId != id {
      assert rows[k] in rows;
    }
  }

  lemma SameIdFound(rows: seq<Row>, rows': seq<Row>, id: string)
    requires |rows| == |rows'| && forall k :: 0 <= k < |rows| ==> rows'[k].semanticId == rows[k].semanticId
    ensures FindId(rows, id).Some? <==> FindId(rows', id).Some?
  {
    hide FindId;
    if HasId(rows, id) {
      var r :| r in rows && r.semanticId == id;
      var k :| 0 <= k < |rows| && rows[k] == r;
      assert rows'[k] in rows';
    }
    if HasId(rows', id) {
      var r :| r in rows' && r.semanticId == id;
      var k :| 0 <= k < |rows'| && rows'[k] == r;
      assert rows[k] in rows;
    }
    FindIdMeans(rows, id);
    FindIdMeans(rows', id);
  }

  lemma FindIdMeans(rows: seq<Row>, id: string)
    ensures FindId(rows, id).Some? <==> HasId(rows, id)
  {
  }

  function PriorsOf(rows: seq<Row>): (prior: seq<PriorEntry>)
    ensures |prior| == |rows| && forall i :: 0 <= i < |rows| ==> prior[i] == PriorOf(rows[i])
  {
    seq(|rows|, i requires 0 <= i < |rows| => PriorOf(rows[i]))
  }

  lemma {:induction false} PriorFound(prior: seq<PriorEntry>, k: nat)
    requires k < |prior| && forall i, j :: 0 <= i < j < |prior| ==> prior[i].semanticId != prior[j].semanticId
    ensures PriorById(prior, prior[k].semanticId) == Some(prior[k])
  {
    if k < |prior| - 1 {
      PriorFound(prior[..|prior| - 1], k);
    }
  }

  lemma {:induction false} NothingRemoved(prior: seq<PriorEntry>, current: seq<Row>)
    requires forall p :: p in prior ==> FindId(current, p.semanticId).Some?
    ensures RemovedRows(prior, current) == []
  {
    hide FindId;
    if prior != [] {
      NothingRemoved(prior[..|prior| - 1], current);
    }
  }

  /**
   * Relocation: matched against what was recorded before the move, every indexed finding of the
   * moved run is found again, unchanged or relocated by exactly its own shift in each file it cites;
   * nothing is added, removed or called changed. Findings of one file may move by different amounts.
   */
  lemma RelocationTheorem(
      fs: seq<Finding>, fs': seq<Finding>, read: SourceReader, read': SourceReader, ds: seq<Shift>, h: Hashing)
    returns (picks: seq<nat>)
    requires RunMoved(fs, fs', read, read', ds)
    ensures RowsFrom(IndexRows(fs, read, h), picks, fs, read, h)
    ensures var out := MatchedOf(PriorsOf(IndexRows(fs, read, h)), IndexRows(fs', read', h));
            && |out| == |picks|
            && forall k :: 0 <= k < |out| ==> ReportsMove(out[k], fs[picks[k]], h, ds[picks[k]])
  {
    hide ToRow, Moved, PlainNames, StandsStill, CanonicalLocator, SemanticId, ByFile, LocatorDeltaOf, ExpectedDelta,
      FindId, ClassOf, IndexRows;
    picks := IndexMoves(fs, fs', read, read', ds, h);
    var rows, rows' := IndexRows(fs, read, h), IndexRows(fs', read', h);
    assert IndexedAlike(rows, rows', picks, fs, fs', read, read', h);
    var prior := PriorsOf(rows);
    forall k | 0 <= k < |rows|
      ensures rows'[k].semanticId == rows[k].semanticId && ReportsMove(MatchRow(rows'[k], prior), fs[picks[k]], h, ds[picks[k]])
    {
      MovedRow(fs[picks[k]], fs'[picks[k]], read, read', ds[picks[k]], h);
      PriorFound(prior, k);
      RowId(fs[picks[k]], read, h);
    }
    forall p | p in prior ensures FindId(rows', p.semanticId).Some? {
      var k :| 0 <= k < |prior| && prior[k] == p;
      assert rows'[k] in rows';
      assert HasId(rows', p.semanticId);
      FindIdMeans(rows', p.semanticId);
    }
    NothingRemoved(prior, rows');
  }

  // ----- lines inserted ---------------------------------------------------------------------

  /** Lines put in behind the first `at` lines of a file. */
  datatype Insertion = Insertion(at: nat, lines: seq<string>)

  /** The insertions of one file stand in order, inside it. */
  ghost predicate InOrder(size: nat, es: seq<Insertion>) {
    && (forall i :: 0 <= i < |es| ==> es[i].at <= size)
    && forall i, j :: 0 <= i < j < |es| ==> es[i].at <= es[j].at
  }

  ghost function WithInsertions(source: seq<string>, es: seq<Insertion>): seq<string>
    requires InOrder(|source|, es)
    decreases |es|
  {
    if es == [] then source
    else
      var init, last := es[..|es| - 1], es[|es| - 1];
      WithInsertions(source[..last.at], init) + last.lines + source[last.at..]
  }

  /** How many lines were put in above line `n`, as it was numbered before. */
  function Above(es: seq<Insertion>, n: nat): nat {
    if es == [] then 0
    else Above(es[..|es| - 1], n) + if es[|es| - 1].at < n then |es[|es| - 1].lines| else 0
  }

  lemma {:induction false} SizeAfter(source: seq<string>, es: seq<Insertion>, n: nat)
    requires InOrder(|source|, es) && forall i :: 0 <= i < |es| ==> es[i].at < n
    ensures |WithInsertions(source, es)| == |source| + Above(es, n)
    decreases |es|
  {
    if es != [] {
      SizeAfter(source[..es[|es| - 1].at], es[..|es| - 1], n);
    }
  }

  /** Every line, wherever it stands, is found again below what was put in above it. */
  lemma {:induction false} LineFound(source: seq<string>, es: seq<Insertion>, n: nat)
    requires InOrder(|source|, es) && 1 <= n <= |source|
    ensures n + Above(es, n) <= |WithInsertions(source, es)|
    ensures WithInsertions(source, es)[n + Above(es, n) - 1] == source[n - 1]
    decreases |es|
  {
    if es != [] {
      var init, last := es[..|es| - 1], es[|es| - 1];
      var before := source[..last.at];
      var start := WithInsertions(before, init) + last.lines;
      assert WithInsertions(source, es) == start + source[last.at..];
      if last.at < n {
        SizeAfter(before, init, n);
        assert |start| == last.at + Above(es, n);
      } else {
        LineFound(before, init, n);
      }
    }
  }

  /** In each file lines inserted at any number of places, and nothing else changed. */
  ghost predicate Inserted(read: SourceReader, read': SourceReader, edits: string -> seq<Insertion>) {
    forall file :: InOrder(|read(file)|, edits(file)) && read'(file) == WithInsertions(read(file), edits(file))
  }

  lemma InsertionMovesSource(read: SourceReader, read': SourceReader, edits: string -> seq<Insertion>, file: string, n: nat)
    requires Inserted(read, read', edits)
    ensures LineAt(read', file, n + Above(edits(file), n)) == LineAt(read, file, n)
  {
    if 1 <= n <= |read(file)| {
      LineFound(read(file), edits(file), n);
    } else if n == 0 {
      NothingAboveFirst(edits(file));
    } else {
      SizeAfter(read(file), edits(file), n);
    }
  }

  lemma {:induction false} NothingAboveFirst(es: seq<Insertion>)
    ensures Above(es, 0) == 0
  {
    if es != [] {
      NothingAboveFirst(es[..|es| - 1]);
    }
  }

  /** No insertion stands between the two lines. */
  ghost predicate SameSide(es: seq<Insertion>, n: nat, m: nat) {
    forall i :: 0 <= i < |es| ==> (es[i].at < n <==> es[i].at < m)
  }

  lemma {:induction false} SameSideAbove(es: seq<Insertion>, n: nat, m: nat)
    requires SameSide(es, n, m)
    ensures Above(es, n) == Above(es, m)
  {
    if es != [] {
      SameSideAbove(es[..|es| - 1], n, m);
    }
  }

  /** Of what the finding cites in one file, all lies between the same two insertions. */
  ghost predicate CitedTogether(f: Finding, edits: string -> seq<Insertion>) {
    && (forall e :: e in f.elements ==> e.lines != [])
    && forall e, o, n, m :: e in f.elements && o in f.elements && e.file == o.file && n in e.lines && m in o.lines ==>
         SameSide(edits(e.file), n, m)
  }

  /** A line the elements cite in the file. */
  function FirstCited(elements: seq<Element>, file: string): nat {
    if elements == [] then 0
    else if elements[0].file == file && elements[0].lines != [] then elements[0].lines[0]
    else FirstCited(elements[1..], file)
  }

  /** In each file, the number of lines put in above what the finding cites there. */
  function ShiftOf(f: Finding, edits: string -> seq<Insertion>): Shift {
    file => Above(edits(file), FirstCited(f.elements, file))
  }

  lemma {:induction false} FirstIsCited(elements: seq<Element>, e: Element)
    requires e in elements && e.lines != []
    ensures exists o :: o in elements && o.file == e.file && FirstCited(elements, e.file) in o.lines
  {
    if elements[0].file == e.file && elements[0].lines != [] {
      assert elements[0].lines[0] in elements[0].lines;
    } else {
      FirstIsCited(elements[1..], e);
    }
  }

  lemma CitedAbove(f: Finding, edits: string -> seq<Insertion>, e: Element, n: nat)
    requires CitedTogether(f, edits) && e in f.elements && n in e.lines
    ensures Above(edits(e.file), n) == ShiftOf(f, edits)(e.file)
  {
    FirstIsCited(f.elements, e);
    SameSideAbove(edits(e.file), n, FirstCited(f.elements, e.file));
  }

  /** The element as the scanner reports it after the insertions: each line below what was put in above it. */
  function MovedDown(e: Element, es: seq<Insertion>): Element {
    e.(lines := seq(|e.lines|, i requires 0 <= i < |e.lines| => e.lines[i] + Above(es, e.lines[i])))
  }

  /** The finding as the scanner reports it after the insertions: its lines, and those its message cites, moved. */
  ghost predicate Reported(f: Finding, f': Finding, edits: string -> seq<Insertion>) {
    && f'.check == f.check && f'.impact == f.impact && f'.confidence == f.confidence
    && SameButLines(f.description, f'.description)
    && |f'.elements| == |f.elements|
    && forall i :: 0 <= i < |f.elements| ==> f'.elements[i] == MovedDown(f.elements[i], edits(f.elements[i].file))
  }

  lemma InsertionMovesElement(f: Finding, e: Element, read: SourceReader, read': SourceReader, edits: string -> seq<Insertion>)
    requires Inserted(read, read', edits) && CitedTogether(f, edits) && e in f.elements
    ensures MovedElement(e, MovedDown(e, edits(e.file)), read, read', ShiftOf(f, edits))
  {
    hide LineAt, Inserted, CitedTogether, ShiftOf, Above;
    assert e.lines != [] by { CitesLines(f, edits, e); }
    forall i | 0 <= i < |e.lines|
      ensures Above(edits(e.file), e.lines[i]) == ShiftOf(f, edits)(e.file)
      ensures LineAt(read', e.file, e.lines[i] + Above(edits(e.file), e.lines[i])) == LineAt(read, e.file, e.lines[i])
    {
      CitedAbove(f, edits, e, e.lines[i]);
      InsertionMovesSource(read, read', edits, e.file, e.lines[i]);
    }
  }

  lemma CitesLines(f: Finding, edits: string -> seq<Insertion>, e: Element)
    requires CitedTogether(f, edits) && e in f.elements
    ensures e.lines != []
  {
  }

  /** Insertions move a finding that cites together by the number of lines put in above it. */
  lemma InsertionMoves(f: Finding, f': Finding, read: SourceReader, read': SourceReader, edits: string -> seq<Insertion>)
    requires Inserted(read, read', edits) && CitedTogether(f, edits) && Reported(f, f', edits)
    ensures Moved(f, f', read, read', ShiftOf(f, edits))
  {
    hide MovedElement, Inserted, SameButLines, CitedTogether, ShiftOf, MovedDown;
    forall i | 0 <= i < |f.elements|
      ensures MovedElement(f.elements[i], f'.elements[i], read, read', ShiftOf(f, edits))
    {
      assert f.elements[i] in f.elements;
      InsertionMovesElement(f, f.elements[i], read, read', edits);
    }
  }

  /**
   * Relocation by insertion: however many lines are inserted, at however many places of each file, as
   * long as no finding is torn apart every indexed finding is found again, unchanged where nothing was
   * put in above what it cites and otherwise relocated in each file by exactly the number of lines put
   * in above it there. Two findings of one file may move by different amounts.
   */
  lemma InsertionTheorem(fs: seq<Finding>, fs': seq<Finding>, read: SourceReader, read': SourceReader,
                         edits: string -> seq<Insertion>, h: Hashing)
    returns (picks: seq<nat>)
    requires Inserted(read, read', edits) && |fs| == |fs'|
    requires forall i :: 0 <= i < |fs| ==>
               CitedTogether(fs[i], edits) && Reported(fs[i], fs'[i], edits) && PlainNames(fs[i])
    ensures RowsFrom(IndexRows(fs, read, h), picks, fs, read, h)
    ensures var out := MatchedOf(PriorsOf(IndexRows(fs, read, h)), IndexRows(fs', read', h));
            && |out| == |picks|
            && forall k :: 0 <= k < |out| ==> ReportsMove(out[k], fs[picks[k]], h, ShiftOf(fs[picks[k]], edits))
  {
    hide Moved, PlainNames, Inserted, CitedTogether, Reported, ReportsMove, RowsFrom, IndexRows, ShiftOf;
    var ds := seq(|fs|, i requires 0 <= i < |fs| => ShiftOf(fs[i], edits));
    forall i | 0 <= i < |fs| ensures Moved(fs[i], fs'[i], read, read', ds[i]) && PlainNames(fs[i]) {
      InsertionMoves(fs[i], fs'[i], read, read', edits);
    }
    picks := RelocationTheorem(fs, fs', read, read', ds, h);
    forall k | 0 <= k < |picks| ensures picks[k] < |fs| {
      PickInRange(IndexRows(fs, read, h), picks, fs, read, h, k);
    }
  }

  lemma PickInRange(rows: seq<Row>, picks: seq<nat>, fs: seq<Finding>, read: SourceReader, h: Hashing, k: nat)
    requires RowsFrom(rows, picks, fs, read, h) && k < |picks|
    ensures picks[k] < |fs|
  {
  }
}
