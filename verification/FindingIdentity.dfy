/**
 * What a scanner finding is, and whether what it describes changed: an identity without line
 * numbers, two fingerprints of the source it covers, and a locator kept for the record.
 */
module FindingIdentity {
  import opened Wrappers
  import opened Counting
  import opened Seqs
  import opened Sorting
  import opened Strings
  import opened SolidityLexer

  /** `chain` is the text of the element's parent chain; it names no line. */
  datatype Element = Element(kind: string, chain: string, signature: string, file: string, lines: seq<nat>)

  datatype Finding = Finding(
    check: string, impact: string, confidence: string, description: string, elements: seq<Element>)

  type SourceReader = string -> seq<string>

  /** The hashes, and the order `localeCompare` puts strings in: any total one will do. */
  datatype Hashing = Hashing(
    identity: SemanticParts -> string,
    fingerprint: string -> string,
    collate: (string, string) -> bool)

  predicate IsOwnFinding(f: Finding) {
    forall e :: e in f.elements ==> e.file != "" && !Includes(e.file, "node_modules")
  }

  // ----- identity ---------------------------------------------------------------------------

  function DropDigits(s: string): (t: string)
    ensures |t| <= |s|
  {
    if s != "" && IsDigit(s[0]) then DropDigits(s[1..]) else s
  }

  /** What follows a line reference's digits, and its second number if it has one. */
  function AfterReference(s: string): (t: string)
    ensures |t| <= |s|
  {
    var t := DropDigits(s);
    if |t| > 1 && t[0] == '-' && IsDigit(t[1]) then DropDigits(t[1..]) else t
  }

  /** Every citation of a line, or of a span of lines, replaced by a constant. */
  function StripLineReferences(s: string): string
    decreases |s|
  {
    if s == "" then ""
    else if s[0] == '#' && |s| > 1 && IsDigit(s[1]) then "#L" + StripLineReferences(AfterReference(s[1..]))
    else [s[0]] + StripLineReferences(s[1..])
  }

  datatype IdentityElement = IdentityElement(file: string, chain: string, signature: string) {
    function Key(): string { file + chain + signature }
  }

  datatype SemanticParts = SemanticParts(detector: string, elements: seq<IdentityElement>, message: string)

  function AsIdentity(e: Element): IdentityElement {
    IdentityElement(e.file, e.chain, e.signature)
  }

  function IdentityOf(elements: seq<Element>): seq<IdentityElement> {
    Mapped(elements, AsIdentity)
  }

  function ByIdentityKey(collate: (string, string) -> bool): (IdentityElement, IdentityElement) -> bool {
    (a: IdentityElement, b: IdentityElement) => collate(a.Key(), b.Key())
  }

  function SemanticIdParts(f: Finding, collate: (string, string) -> bool): SemanticParts {
    SemanticParts(f.check, StableSort(IdentityOf(f.elements), ByIdentityKey(collate)),
                  Trim(StripLineReferences(f.description)))
  }

  function SemanticId(f: Finding, h: Hashing): string {
    h.identity(SemanticIdParts(f, h.collate))
  }

  /** With a collation that ties only equal strings, it takes equal characters in all three texts to tie two elements. */
  lemma TiedKeys(a: IdentityElement, b: IdentityElement, collate: (string, string) -> bool)
    requires forall x, y :: collate(x, y) && collate(y, x) <==> x == y
    ensures collate(a.Key(), b.Key()) && collate(b.Key(), a.Key()) <==>
            a.file + a.chain + a.signature == b.file + b.chain + b.signature
  {
  }

  /** The order tells apart the identity elements of a finding. */
  ghost predicate KeysTellApart(elements: seq<IdentityElement>, collate: (string, string) -> bool) {
    forall a, b :: a in elements && b in elements && collate(a.Key(), b.Key()) && collate(b.Key(), a.Key()) ==> a == b
  }

  lemma IdentityOrder(collate: (string, string) -> bool)
    requires TotalPreorder(collate)
    ensures TotalPreorder(ByIdentityKey(collate))
  {
    var leq := ByIdentityKey(collate);
    forall x, y ensures leq(x, y) || leq(y, x) {
      assert collate(x.Key(), y.Key()) || collate(y.Key(), x.Key());
    }
    forall x, y, z | leq(x, y) && leq(y, z) ensures leq(x, z) {
      assert collate(x.Key(), y.Key()) && collate(y.Key(), z.Key());
    }
  }

  /**
   * The order the scanner lists a finding's elements in cannot show in its identity exactly when the
   * sort key tells the elements apart.
   */
  lemma EmissionOrderHidden(f: Finding, collate: (string, string) -> bool)
    requires TotalPreorder(collate)
    ensures (forall listing :: multiset(listing) == multiset(f.elements) ==>
               SemanticIdParts(f.(elements := listing), collate) == SemanticIdParts(f, collate)) <==>
            KeysTellApart(IdentityOf(f.elements), collate)
  {
    hide StableSort, StripLineReferences, Trim;
    var leq := ByIdentityKey(collate);
    IdentityOrder(collate);
    SortHidesMappedOrder(f.elements, AsIdentity, leq);
    assert Discriminates(IdentityOf(f.elements), leq) <==> KeysTellApart(IdentityOf(f.elements), collate);
    forall listing: seq<Element>
      ensures SemanticIdParts(f.(elements := listing), collate) == SemanticIdParts(f, collate) <==>
              StableSort(Mapped(listing, AsIdentity), leq) == StableSort(Mapped(f.elements, AsIdentity), leq)
    {
    }
  }

  /** Two elements no collation tells apart by their keys: the same characters, divided otherwise. */
  lemma EmissionOrderCanShow(collate: (string, string) -> bool)
    requires TotalPreorder(collate)
    ensures var a, b := Element("node", "bc", "", "a", [1]), Element("node", "c", "", "ab", [1]);
            var f := Finding("check", "High", "High", "", [a, b]);
            SemanticIdParts(f, collate) != SemanticIdParts(f.(elements := [b, a]), collate)
  {
    hide StableSort, StripLineReferences, Trim;
    var a, b := Element("node", "bc", "", "a", [1]), Element("node", "c", "", "ab", [1]);
    IdentityOrder(collate);
    assert AsIdentity(a).Key() == "abc" == AsIdentity(b).Key();
    assert collate("abc", "abc");
    assert |a.file| != |b.file|;
    TiedPair(a, b, [], AsIdentity, ByIdentityKey(collate));
    assert [a, b] + [] == [a, b] && [b, a] + [] == [b, a];
  }

  // ----- fingerprints -----------------------------------------------------------------------

  function LineAt(read: SourceReader, file: string, n: nat): string {
    if 1 <= n <= |read(file)| then read(file)[n - 1] else ""
  }

  function Body(read: SourceReader, e: Element): string {
    Join(seq(|e.lines|, i requires 0 <= i < |e.lines| => LineAt(read, e.file, e.lines[i])), '\n')
  }

  function PartOf(read: SourceReader, e: Element): string {
    e.file + "|" + e.chain + "|" + Normalised(Body(read, e))
  }

  function KeptElements(elements: seq<Element>, nodesOnly: bool): seq<Element> {
    if elements == [] then []
    else (if nodesOnly && elements[0].kind != "node" then [] else [elements[0]]) + KeptElements(elements[1..], nodesOnly)
  }

  function PartsOf(read: SourceReader, kept: seq<Element>): (parts: seq<string>)
    ensures |parts| == |kept|
  {
    seq(|kept|, i requires 0 <= i < |kept| => PartOf(read, kept[i]))
  }

  function JoinParts(parts: seq<string>): string {
    if |parts| == 0 then "" else if |parts| == 1 then parts[0] else parts[0] + "\n--\n" + JoinParts(parts[1..])
  }

  function FingerprintOver(f: Finding, read: SourceReader, nodesOnly: bool, h: Hashing): Option<string> {
    var kept := KeptElements(f.elements, nodesOnly);
    if kept == [] then None else Some(h.fingerprint(JoinParts(StableSort(PartsOf(read, kept), StringLeq))))
  }

  // ----- locator ----------------------------------------------------------------------------

  function LocOf(e: Element): string {
    e.file + ":" + if e.lines == [] then "undefined" else Numeral(e.lines[0])
  }

  /** The distinct places of the elements that name a file, in first-seen order. */
  function Locs(elements: seq<Element>): (locs: seq<string>)
    ensures Distinct(locs)
    ensures forall l :: l in locs <==> exists e :: e in elements && e.file != "" && LocOf(e) == l
  {
    if elements == [] then []
    else
      var init, last := elements[..|elements| - 1], elements[|elements| - 1];
      assert elements == init + [last];
      var before := Locs(init);
      if last.file == "" || LocOf(last) in before then before else before + [LocOf(last)]
  }

  function CanonicalLocator(f: Finding): string {
    f.check + "|" + Join(StableSort(Locs(f.elements), StringLeq), ',')
  }

  // ----- rows -------------------------------------------------------------------------------

  datatype Row = Row(
    semanticId: string, locator: string, check: string, impact: string, confidence: string, description: string,
    narrow: Option<string>, broad: Option<string>)

  function ToRow(f: Finding, read: SourceReader, h: Hashing): Row {
    Row(SemanticId(f, h), CanonicalLocator(f), f.check, f.impact, f.confidence, Trim(f.description),
        FingerprintOver(f, read, true, h), FingerprintOver(f, read, false, h))
  }

  datatype Ambiguity = Ambiguity(semanticId: string, first: string, second: string)

  ghost predicate HasId(rows: seq<Row>, id: string) {
    exists r :: r in rows && r.semanticId == id
  }

  function FindId(rows: seq<Row>, id: string): (r: Option<Row>)
    ensures r.Some? <==> HasId(rows, id)
    ensures r.Some? ==> r.value in rows && r.value.semanticId == id
  {
    if rows == [] then None
    else
      assert rows == [rows[0]] + rows[1..];
      if rows[0].semanticId == id then Some(rows[0]) else FindId(rows[1..], id)
  }

  /** The index: of the own findings, the first row of each identity, in order. */
  function IndexRows(fs: seq<Finding>, read: SourceReader, h: Hashing): seq<Row> {
    if fs == [] then []
    else
      var rows, f := IndexRows(fs[..|fs| - 1], read, h), fs[|fs| - 1];
      if !IsOwnFinding(f) || FindId(rows, SemanticId(f, h)).Some? then rows else rows + [ToRow(f, read, h)]
  }

  predicate SameRecord(a: Row, b: Row) {
    a.locator == b.locator && a.narrow == b.narrow && a.broad == b.broad
  }

  ghost predicate UniqueIds(rows: seq<Row>) {
    forall a, b :: a in rows && b in rows && a.semanticId == b.semanticId ==> a == b
  }

  ghost predicate Represented(rows: seq<Row>, row: Row) {
    exists r :: r in rows && r.semanticId == row.semanticId && SameRecord(r, row)
  }

  /** Every own finding has the record of the row that stands for its identity. */
  ghost predicate AllRepresented(rows: seq<Row>, fs: seq<Finding>, read: SourceReader, h: Hashing) {
    forall f :: f in fs && IsOwnFinding(f) ==> Represented(rows, ToRow(f, read, h))
  }

  lemma NewRow(rows: seq<Row>, row: Row, other: Row)
    requires UniqueIds(rows) && !HasId(rows, row.semanticId)
    ensures UniqueIds(rows + [row]) && Represented(rows + [row], row)
    ensures HasId(rows, other.semanticId) ==> (Represented(rows + [row], other) <==> Represented(rows, other))
  {
    hide SameRecord;
    var more := rows + [row];
    assert more[|rows|] == row && (forall r :: r in more <==> r in rows || r == row);
    assert SameRecord(row, row) by { SameAsItself(row); }
    if HasId(rows, other.semanticId) && Represented(more, other) {
      var r :| r in more && r.semanticId == other.semanticId && SameRecord(r, other);
      assert r in rows;
    }
  }

  lemma SameAsItself(row: Row)
    ensures SameRecord(row, row)
  {
  }

  lemma FoundRow(rows: seq<Row>, p: Row, row: Row)
    requires UniqueIds(rows) && p in rows && p.semanticId == row.semanticId
    ensures Represented(rows, row) <==> SameRecord(p, row)
  {
    hide SameRecord;
  }

  /** One more own finding, and the index after it. */
  lemma IndexNext(init: seq<Finding>, f: Finding, read: SourceReader, h: Hashing)
    requires UniqueIds(IndexRows(init, read, h))
    ensures var rows, row := IndexRows(init, read, h), ToRow(f, read, h);
            var next := IndexRows(init + [f], read, h);
            var found := FindId(rows, row.semanticId);
            && UniqueIds(next)
            && next == (if IsOwnFinding(f) && found.None? then rows + [row] else rows)
            && (AllRepresented(next, init + [f], read, h) <==>
                AllRepresented(rows, init, read, h) && (IsOwnFinding(f) && found.Some? ==> SameRecord(found.value, row)))
  {
    hide IsOwnFinding, ToRow, Represented, UniqueIds, SameRecord, FindId;
    var fs := init + [f];
    assert fs[..|init|] == init && (forall g :: g in fs <==> g in init || g == f);
    var rows, row := IndexRows(init, read, h), ToRow(f, read, h);
    RowHasId(f, read, h);
    if IsOwnFinding(f) {
      var found := FindId(rows, row.semanticId);
      if found.None? {
        NewRow(rows, row, row);
        forall g | g in init && IsOwnFinding(g)
          ensures Represented(rows + [row], ToRow(g, read, h)) <==> Represented(rows, ToRow(g, read, h))
        {
          IndexHasId(init, read, h, g);
          RowHasId(g, read, h);
          NewRow(rows, row, ToRow(g, read, h));
        }
      } else {
        FoundRow(rows, found.value, row);
      }
    }
  }

  lemma RowHasId(f: Finding, read: SourceReader, h: Hashing)
    ensures ToRow(f, read, h).semanticId == SemanticId(f, h)
  {
  }

  /** The index, every own finding that disagrees with the row that stands for its identity, and how many own findings there are. */
  method IndexFindings(fs: seq<Finding>, read: SourceReader, h: Hashing)
    returns (byId: seq<Row>, ambiguities: seq<Ambiguity>, ownRawCount: nat)
    ensures byId == IndexRows(fs, read, h)
    ensures ambiguities == [] <==> AllRepresented(byId, fs, read, h)
    ensures ownRawCount == CountIf(fs, IsOwnFinding)
  {
    hide IsOwnFinding, ToRow, IndexRows, AllRepresented, UniqueIds, SameRecord, FindId, HasId, CountIf;
    byId, ambiguities, ownRawCount := [], [], 0;
    IndexNone(read, h);
    for i := 0 to |fs|
      invariant byId == IndexRows(fs[..i], read, h) && UniqueIds(byId)
      invariant ambiguities == [] <==> AllRepresented(byId, fs[..i], read, h)
      invariant ownRawCount == CountIf(fs[..i], IsOwnFinding)
    {
      assert fs[..i + 1][..i] == fs[..i] && fs[..i + 1] == fs[..i] + [fs[i]];
      IndexNext(fs[..i], fs[i], read, h);
      CountAppend(fs[..i], [fs[i]], IsOwnFinding);
      CountOne(fs[i], IsOwnFinding);
      if IsOwnFinding(fs[i]) {
        ownRawCount := ownRawCount + 1;
        var row := ToRow(fs[i], read, h);
        var prev := FindId(byId, row.semanticId);
        match prev {
          case None =>
            byId := byId + [row];
          case Some(p) =>
            if !SameRecord(p, row) {
              ambiguities := ambiguities + [Ambiguity(row.semanticId, p.locator, row.locator)];
            }
        }
      }
    }
    assert fs[..|fs|] == fs;
  }

  lemma IndexNone(read: SourceReader, h: Hashing)
    ensures IndexRows([], read, h) == [] && UniqueIds([]) && AllRepresented([], [], read, h)
    ensures CountIf([], IsOwnFinding) == 0
  {
  }

  lemma {:induction false} IndexHasId(fs: seq<Finding>, read: SourceReader, h: Hashing, f: Finding)
    requires f in fs && IsOwnFinding(f)
    ensures HasId(IndexRows(fs, read, h), SemanticId(f, h))
  {
    hide IsOwnFinding, SemanticId, CanonicalLocator, FingerprintOver;
    var init, last := fs[..|fs| - 1], fs[|fs| - 1];
    assert fs == init + [last];
    var rows := IndexRows(init, read, h);
    if f in init {
      IndexHasId(init, read, h, f);
    }
    if f == last && FindId(rows, SemanticId(f, h)).None? {
      assert (rows + [ToRow(last, read, h)])[|rows|] == ToRow(last, read, h);
    }
    assert forall r :: r in rows ==> r in IndexRows(fs, read, h);
  }

  // ----- matching ---------------------------------------------------------------------------

  datatype MatchClass =
    | Unchanged
    | Relocated
    | SourceContextChanged
    | SemanticChangeProven
    | Added
    | Removed

  datatype PriorEntry = PriorEntry(semanticId: string, locator: string, narrow: Option<string>, broad: Option<string>)

  datatype Matched = Matched(semanticId: string, klass: MatchClass, lineDelta: Option<seq<int>>)

  /** The last entry with an identity: a later one replaces an earlier in the map. */
  function PriorById(prior: seq<PriorEntry>, id: string): Option<PriorEntry> {
    if prior == [] then None
    else if prior[|prior| - 1].semanticId == id then Some(prior[|prior| - 1])
    else PriorById(prior[..|prior| - 1], id)
  }

  /** The lines a locator names in one file. */
  datatype FileLines = FileLines(file: string, lines: seq<int>)

  function LineNumber(s: string): int {
    if s == "" then 0 else ParseNumeral(s)
  }

  function AddLine(groups: seq<FileLines>, file: string, line: int): seq<FileLines> {
    if groups == [] then [FileLines(file, [line])]
    else if groups[0].file == file then [FileLines(file, groups[0].lines + [line])] + groups[1..]
    else [groups[0]] + AddLine(groups[1..], file, line)
  }

  /** Parts without a colon, or whose last piece is no number, name nothing. */
  function GroupParts(parts: seq<string>): seq<FileLines> {
    if parts == [] then []
    else
      var groups, part := GroupParts(parts[..|parts| - 1]), parts[|parts| - 1];
      var idx := LastIndexOf(part, ':');
      if idx < 0 || LineNumber(part[idx + 1..]) < 0 then groups
      else AddLine(groups, part[..idx], LineNumber(part[idx + 1..]))
  }

  function LocatorParts(k: string): seq<string> {
    var pieces := Split(k, '|');
    Split(if |pieces| > 1 then pieces[1] else "", ',')
  }

  function ByFile(k: string): seq<FileLines> {
    var groups := GroupParts(LocatorParts(k));
    seq(|groups|, i requires 0 <= i < |groups| => FileLines(groups[i].file, StableSort(groups[i].lines, IntLeq)))
  }

  function LinesOf(groups: seq<FileLines>, file: string): Option<seq<int>> {
    if groups == [] then None else if groups[0].file == file then Some(groups[0].lines) else LinesOf(groups[1..], file)
  }

  function Differences(a: seq<int>, b: seq<int>): seq<int>
    requires |a| == |b|
  {
    seq(|a|, i requires 0 <= i < |a| => b[i] - a[i])
  }

  /** The differences file by file, or None when the shapes differ. */
  function Deltas(a: seq<FileLines>, b: seq<FileLines>): Option<seq<int>> {
    if a == [] then Some([])
    else
      match LinesOf(b, a[|a| - 1].file)
      case None => None
      case Some(lines) =>
        if |lines| != |a[|a| - 1].lines| then None
        else
          match Deltas(a[..|a| - 1], b)
          case None => None
          case Some(before) => Some(before + Differences(a[|a| - 1].lines, lines))
  }

  function LocatorDeltaOf(from: string, to: string): seq<int> {
    var a, b := ByFile(from), ByFile(to);
    if |a| != |b| then []
    else match Deltas(a, b) case None => [] case Some(d) => d
  }

  method LocatorDelta(from: string, to: string) returns (out: seq<int>)
    ensures out == LocatorDeltaOf(from, to)
  {
    hide ByFile;
    var a, b := ByFile(from), ByFile(to);
    if |a| != |b| {
      return [];
    }
    out := [];
    for k := 0 to |a|
      invariant Deltas(a[..k], b) == Some(out)
    {
      assert a[..k + 1][..k] == a[..k];
      var lines := LinesOf(b, a[k].file);
      if lines.None? || |lines.value| != |a[k].lines| {
        DeltasFail(a, b, k);
        return [];
      }
      ghost var before := out;
      for i := 0 to |a[k].lines|
        invariant out == before + Differences(a[k].lines, lines.value)[..i]
      {
        out := out + [lines.value[i] - a[k].lines[i]];
      }
      assert Differences(a[k].lines, lines.value)[..|a[k].lines|] == Differences(a[k].lines, lines.value);
    }
    assert a[..|a|] == a;
  }

  lemma {:induction false} DeltasFail(a: seq<FileLines>, b: seq<FileLines>, k: nat)
    requires k < |a| && (LinesOf(b, a[k].file).None? || |LinesOf(b, a[k].file).value| != |a[k].lines|)
    ensures Deltas(a, b).None?
    decreases |a|
  {
    if k < |a| - 1 {
      DeltasFail(a[..|a| - 1], b, k);
    }
  }

  function ClassOf(cur: Row, p: PriorEntry): MatchClass {
    if cur.narrow.Some? && p.narrow.Some? && cur.narrow != p.narrow then SemanticChangeProven
    else if cur.broad != p.broad then SourceContextChanged
    else if cur.locator == p.locator then Unchanged
    else Relocated
  }

  function MatchRow(cur: Row, prior: seq<PriorEntry>): Matched {
    match PriorById(prior, cur.semanticId)
    case None => Matched(cur.semanticId, Added, None)
    case Some(p) =>
      var klass := ClassOf(cur, p);
      Matched(cur.semanticId, klass, if klass == Relocated then Some(LocatorDeltaOf(p.locator, cur.locator)) else None)
  }

  function RemovedRows(prior: seq<PriorEntry>, current: seq<Row>): seq<Matched> {
    if prior == [] then []
    else
      var p := prior[|prior| - 1];
      RemovedRows(prior[..|prior| - 1], current) +
      if FindId(current, p.semanticId).None? then [Matched(p.semanticId, Removed, None)] else []
  }

  function MatchedOf(prior: seq<PriorEntry>, current: seq<Row>): seq<Matched> {
    seq(|current|, i requires 0 <= i < |current| => MatchRow(current[i], prior)) + RemovedRows(prior, current)
  }

  /** The join: every current row classified, then every prior entry that matched nothing. */
  method MatchFindings(prior: seq<PriorEntry>, current: seq<Row>) returns (out: seq<Matched>)
    ensures out == MatchedOf(prior, current)
  {
    hide LocatorDeltaOf;
    out := [];
    for i := 0 to |current|
      invariant out == seq(i, k requires 0 <= k < i => MatchRow(current[k], prior))
    {
      var cur := current[i];
      var p := PriorById(prior, cur.semanticId);
      if p.None? {
        out := out + [Matched(cur.semanticId, Added, None)];
      } else if cur.narrow.Some? && p.value.narrow.Some? && cur.narrow != p.value.narrow {
        out := out + [Matched(cur.semanticId, SemanticChangeProven, None)];
      } else if cur.broad != p.value.broad {
        out := out + [Matched(cur.semanticId, SourceContextChanged, None)];
      } else if cur.locator == p.value.locator {
        out := out + [Matched(cur.semanticId, Unchanged, None)];
      } else {
        var delta := LocatorDelta(p.value.locator, cur.locator);
        out := out + [Matched(cur.semanticId, Relocated, Some(delta))];
      }
    }
    ghost var matched := out;
    for i := 0 to |prior|
      invariant out == matched + RemovedRows(prior[..i], current)
    {
      assert prior[..i + 1][..i] == prior[..i];
      if FindId(current, prior[i].semanticId).None? {
        out := out + [Matched(prior[i].semanticId, Removed, None)];
      }
    }
    assert prior[..|prior|] == prior;
  }
}
