/**
 * What the projection of a scan keeps: findings and their SARIF results, who owns a finding, and
 * the conditions under which one result per project-owned finding may stand for all.
 */
module SarifModel {
  import opened Wrappers
  import opened Seqs
  import opened Strings
  import opened Counting
  import opened FindingIdentity

  /** A raw finding. `json` is its serialized record, so equality is equality of that text. */
  datatype RawFinding = RawFinding(finding: Finding, id: string, markdown: string, json: string)

  /** A SARIF result. Its `json` holds the order of its keys as well. */
  datatype SarifResult = SarifResult(
    ruleId: string, text: string, markdown: string, uri: string, startLine: nat, endLine: nat, fingerprint: string, json: string)

  /** A SARIF log: its results, and the text of everything outside them. */
  datatype SarifLog = SarifLog(frame: string, results: seq<SarifResult>)

  /** What the parser guarantees of a finding: elements, each with a path and lines. */
  predicate Parsed(f: RawFinding) {
    f.finding.elements != [] && forall e :: e in f.finding.elements ==> e.file != "" && e.lines != []
  }

  datatype Code =
    | UnmappedSarifResult
    | AmbiguousMapping
    | UnrepresentableFinding
    | DependencyPredicateDisagreement
    | OwnScopeDisagreement
    | ProjectFindingReferencesDependency
    | ProjectCodeInDependencyFinding
    | DistinctFindingsWouldCollapse
    | ProjectionNotASubset
    | EmptyProjection
    | DuplicateProjectedIdentity
    | InconsistentCounts

  // ----- signatures -------------------------------------------------------------------------

  datatype Signature = Signature(
    check: string, id: string, description: string, markdown: string, file: string, first: nat, last: nat)

  function FindingSignature(f: RawFinding): Signature {
    var e := if f.finding.elements == [] then Element("", "", "", "", []) else f.finding.elements[0];
    var lines := if e.lines == [] then [0] else e.lines;
    Signature(f.finding.check, f.id, f.finding.description, f.markdown, e.file, lines[0], lines[|lines| - 1])
  }

  /** The detector's name, after the four characters of its impact and confidence codes. */
  function CheckOfRuleId(ruleId: string): string {
    if |ruleId| < 4 then "" else ruleId[4..]
  }

  function ResultSignature(r: SarifResult): Signature {
    Signature(CheckOfRuleId(r.ruleId), r.fingerprint, r.text, r.markdown, r.uri, r.startLine, r.endLine)
  }

  // ----- ownership --------------------------------------------------------------------------

  const DEPENDENCY_SEGMENT := "node_modules"

  const VERSION_LINT_DETECTORS: seq<string> := ["pragma", "solc-version"]

  predicate BySegment(p: string) { DEPENDENCY_SEGMENT in Split(p, '/') }

  predicate BySubstring(p: string) { Includes(p, DEPENDENCY_SEGMENT) }

  /** The two dependency tests agree on every path of the finding. */
  predicate PathsAgree(f: Finding) {
    forall e :: e in f.elements ==> (BySegment(e.file) <==> BySubstring(e.file))
  }

  datatype Ownership = Own | DependencyOnly | MixedProjectPrimary | MixedDependencyPrimary

  function OwnershipOf(f: Finding): Ownership {
    if forall e :: e in f.elements ==> !BySegment(e.file) then Own
    else if forall e :: e in f.elements ==> BySegment(e.file) then DependencyOnly
    else if f.elements != [] && BySegment(f.elements[0].file) then MixedDependencyPrimary
    else MixedProjectPrimary
  }

  function IsOwned(f: RawFinding): bool { OwnershipOf(f.finding) == Own }

  /** The classification, which fails where the two tests disagree. */
  function ClassifyOwnership(f: Finding): Result<Ownership, Code> {
    if !PathsAgree(f) then Failure(DependencyPredicateDisagreement) else Success(OwnershipOf(f))
  }

  /** Classified, and of a kind that may be presented or dropped. */
  predicate Admissible(f: Finding) {
    && PathsAgree(f)
    && OwnershipOf(f) != MixedProjectPrimary
    && (OwnershipOf(f) == MixedDependencyPrimary ==>
          f.check in VERSION_LINT_DETECTORS && forall e :: e in f.elements && !BySegment(e.file) ==> e.kind == "pragma")
  }

  /** The two scope predicates can never disagree on a parsed finding that classifies. */
  lemma OwnMeansIsOwn(f: RawFinding)
    requires Parsed(f) && PathsAgree(f.finding)
    ensures OwnershipOf(f.finding) == Own <==> IsOwnFinding(f.finding)
  {
    hide Includes, Split;
    if IsOwnFinding(f.finding) {
      forall e | e in f.finding.elements ensures !BySegment(e.file) {
        assert !BySubstring(e.file);
      }
    } else {
      var e :| e in f.finding.elements && !(e.file != "" && !Includes(e.file, "node_modules"));
      assert BySubstring(e.file) && BySegment(e.file);
    }
  }

  /** The element's path names a dependency. */
  predicate Foreign(e: Element) { Includes(e.file, "node_modules") }

  predicate NoneForeign(f: Finding) { forall e :: e in f.elements ==> !Foreign(e) }

  predicate AllForeign(f: Finding) { forall e :: e in f.elements ==> Foreign(e) }

  /** The first element is a dependency's, and not every one is. */
  predicate ForeignFirst(f: Finding) {
    f.elements != [] && Foreign(f.elements[0]) && !AllForeign(f)
  }

  /** The four kinds, by the paths: none, all, or some are dependencies', and then whether the first is. */
  lemma OwnershipMeans(f: RawFinding)
    requires Parsed(f) && PathsAgree(f.finding)
    ensures OwnershipOf(f.finding) == Own <==> NoneForeign(f.finding)
    ensures OwnershipOf(f.finding) == DependencyOnly <==> AllForeign(f.finding)
    ensures OwnershipOf(f.finding) == MixedDependencyPrimary <==> ForeignFirst(f.finding)
    ensures OwnershipOf(f.finding) == MixedProjectPrimary <==>
            !Foreign(f.finding.elements[0]) && exists e :: e in f.finding.elements && Foreign(e)
  {
    hide Includes, BySegment;
    assert forall e :: e in f.finding.elements ==> (BySegment(e.file) <==> Foreign(e));
    assert f.finding.elements[0] in f.finding.elements;
  }

  /**
   * What may be presented or dropped, by the paths: a finding in project code alone; and one whose first
   * element is a dependency's, if all are, or if a version lint has it and its project elements are
   * pragmas. The two readings of every path agree.
   */
  ghost predicate MayStand(f: Finding) {
    && (forall e :: e in f.elements ==> ("node_modules" in Split(e.file, '/') <==> Foreign(e)))
    && (|| NoneForeign(f)
        || AllForeign(f)
        || (&& ForeignFirst(f) && (f.check == "pragma" || f.check == "solc-version")
            && forall e :: e in f.elements && !Foreign(e) ==> e.kind == "pragma"))
  }

  lemma AdmissibleMeans(f: RawFinding)
    requires Parsed(f)
    ensures Admissible(f.finding) <==> MayStand(f.finding)
  {
    hide Includes, Split;
    if PathsAgree(f.finding) {
      OwnershipMeans(f);
      assert f.finding.elements[0] in f.finding.elements;
    }
  }

  // ----- when a projection exists -----------------------------------------------------------

  /** One signature, one value. */
  ghost predicate OneMeaning<A(!new), K>(s: seq<A>, key: A -> K) {
    forall x, y :: x in s && y in s && key(x) == key(y) ==> x == y
  }

  ghost predicate OwnIdsTellApart(findings: seq<RawFinding>, h: Hashing) {
    forall f, g | f in findings && g in findings && IsOwned(f) && IsOwned(g) ::
      SemanticId(f.finding, h) == SemanticId(g.finding, h) ==> f == g
  }

  /** The two raw outputs describe the same findings, unambiguously. */
  ghost predicate Maps(findings: seq<RawFinding>, results: seq<SarifResult>) {
    && multiset(Mapped(findings, FindingSignature)) == multiset(Mapped(results, ResultSignature))
    && OneMeaning(findings, FindingSignature) && OneMeaning(results, ResultSignature)
  }

  ghost predicate Projectable(findings: seq<RawFinding>, results: seq<SarifResult>, h: Hashing) {
    && Maps(findings, results)
    && (forall f :: f in findings ==> Admissible(f.finding))
    && OwnIdsTellApart(findings, h)
  }

  /** The finding a result stands for: the first with its signature. */
  function FindingFor(findings: seq<RawFinding>, r: SarifResult): Option<RawFinding> {
    var same := WithKey(findings, FindingSignature, ResultSignature(r));
    if same == [] then None else Some(same[0])
  }

  lemma FindingForIs(findings: seq<RawFinding>, results: seq<SarifResult>, r: SarifResult)
    requires Maps(findings, results) && r in results
    ensures FindingFor(findings, r).Some?
    ensures var f := FindingFor(findings, r).value;
            f in findings && FindingSignature(f) == ResultSignature(r)
    ensures forall g :: g in findings && FindingSignature(g) == ResultSignature(r) ==> g == FindingFor(findings, r).value
  {
    var k := ResultSignature(r);
    WithKeyMembers(findings, FindingSignature, k);
    WithKeyMembers(results, ResultSignature, k);
    var same := WithKey(findings, FindingSignature, k);
    assert r in WithKey(results, ResultSignature, k);
    assert |same| > 0;
    assert same[0] in same;
  }

  /** Every finding has a result. */
  lemma ResultExists(findings: seq<RawFinding>, results: seq<SarifResult>, f: RawFinding)
    requires Maps(findings, results) && f in findings
    ensures exists r :: r in results && ResultSignature(r) == FindingSignature(f)
  {
    var k := FindingSignature(f);
    WithKeyMembers(findings, FindingSignature, k);
    WithKeyMembers(results, ResultSignature, k);
    assert f in WithKey(findings, FindingSignature, k);
    var same := WithKey(results, ResultSignature, k);
    assert |same| > 0;
    assert same[0] in same;
  }

  // ----- the projection ---------------------------------------------------------------------

  datatype ProjectedIdentity = ProjectedIdentity(
    semanticId: string, ruleId: string, uri: string, startLine: nat, endLine: nat, locator: string, instances: nat)

  function IdsOf(projected: seq<ProjectedIdentity>): (ids: seq<string>)
    ensures |ids| == |projected| && forall i :: 0 <= i < |ids| ==> ids[i] == projected[i].semanticId
  {
    seq(|projected|, i requires 0 <= i < |projected| => projected[i].semanticId)
  }

  datatype ExcludedMixed = ExcludedMixed(
    signature: Signature, check: string, uri: string, line: nat, projectElements: seq<Element>, instances: nat)

  datatype Counts = Counts(
    rawSarifResults: nat, rawScanFindings: nat, ownInstances: nat, ownDistinct: nat, ownCopiesCollapsed: int,
    dependencyOnlyInstances: nat, mixedDependencyPrimaryExcludedInstances: nat, projectedResults: nat)

  datatype Projection = Projection(
    log: SarifLog, counts: Counts, projected: seq<ProjectedIdentity>, excludedMixed: seq<ExcludedMixed>)

  /** The state of the pass over the raw results. */
  datatype Tally = Tally(
    projected: seq<ProjectedIdentity>, results: seq<SarifResult>, excluded: seq<ExcludedMixed>,
    dependencyOnly: nat, mixedExcluded: nat)

  function Bump(projected: seq<ProjectedIdentity>, id: string): seq<ProjectedIdentity> {
    if projected == [] then []
    else if projected[0].semanticId == id then [projected[0].(instances := projected[0].instances + 1)] + projected[1..]
    else [projected[0]] + Bump(projected[1..], id)
  }

  predicate Emitted(projected: seq<ProjectedIdentity>, id: string) {
    exists p :: p in projected && p.semanticId == id
  }

  function BumpExcluded(excluded: seq<ExcludedMixed>, k: Signature): seq<ExcludedMixed> {
    if excluded == [] then []
    else if excluded[0].signature == k then [excluded[0].(instances := excluded[0].instances + 1)] + excluded[1..]
    else [excluded[0]] + BumpExcluded(excluded[1..], k)
  }

  predicate WasExcluded(excluded: seq<ExcludedMixed>, k: Signature) {
    exists x :: x in excluded && x.signature == k
  }

  function ProjectElements(elements: seq<Element>): seq<Element> {
    if elements == [] then []
    else (if BySegment(elements[0].file) then [] else [elements[0]]) + ProjectElements(elements[1..])
  }

  function NewIdentity(r: SarifResult, f: RawFinding, h: Hashing): ProjectedIdentity {
    ProjectedIdentity(SemanticId(f.finding, h), r.ruleId, r.uri, r.startLine, r.endLine, CanonicalLocator(f.finding), 1)
  }

  function NewExcluded(r: SarifResult, f: RawFinding): ExcludedMixed {
    ExcludedMixed(FindingSignature(f), f.finding.check, r.uri, r.startLine, ProjectElements(f.finding.elements), 1)
  }

  /** One raw result, taken into the tally. */
  function Take(t: Tally, r: SarifResult, f: RawFinding, h: Hashing): Tally {
    match OwnershipOf(f.finding)
    case DependencyOnly => t.(dependencyOnly := t.dependencyOnly + 1)
    case MixedDependencyPrimary =>
      t.(mixedExcluded := t.mixedExcluded + 1,
         excluded := if WasExcluded(t.excluded, FindingSignature(f)) then BumpExcluded(t.excluded, FindingSignature(f))
                     else t.excluded + [NewExcluded(r, f)])
    case _ =>
      var id := SemanticId(f.finding, h);
      if Emitted(t.projected, id) then t.(projected := Bump(t.projected, id))
      else t.(projected := t.projected + [NewIdentity(r, f, h)], results := t.results + [r])
  }

  function TallyOf(findings: seq<RawFinding>, results: seq<SarifResult>, h: Hashing): Tally {
    if results == [] then Tally([], [], [], 0, 0)
    else
      var t, r := TallyOf(findings, results[..|results| - 1], h), results[|results| - 1];
      match FindingFor(findings, r) case None => t case Some(f) => Take(t, r, f, h)
  }

  function ProjectionOf(findings: seq<RawFinding>, log: SarifLog, h: Hashing): Projection {
    var t := TallyOf(findings, log.results, h);
    var own := CountIf(findings, IsOwned);
    Projection(
      SarifLog(log.frame, t.results),
      Counts(|log.results|, |findings|, own, |t.projected|, own - |t.projected|, t.dependencyOnly, t.mixedExcluded, |t.results|),
      t.projected, t.excluded)
  }
}
