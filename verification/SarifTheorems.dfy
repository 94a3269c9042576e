/**
 * The projection's guarantees: the validator accepts what the builder builds, counts conserve
 * across the two raw outputs, the scanner's order does not matter, and any two accepted
 * projections show the same results.
 */
module SarifTheorems {
  import opened Wrappers
  import opened Seqs
  import opened Strings
  import opened Counting
  import opened FindingIdentity
  import opened SarifModel
  import opened SarifValidator
  import opened SarifProperties

  ghost predicate AllParsed(findings: seq<RawFinding>) {
    forall f :: f in findings ==> Parsed(f)
  }

  lemma ResultsClassified(findings: seq<RawFinding>, results: seq<SarifResult>, h: Hashing)
    requires Projectable(findings, results, h)
    ensures Classified(findings, results)
  {
    hide OwnershipOf, FindingSignature, ResultSignature, Admissible, Maps, FindingFor;
    forall r | r in results ensures OwnershipAt(findings, r).Some? && OwnershipAt(findings, r) != Some(MixedProjectPrimary) {
      FindingForIs(findings, results, r);
      AdmissibleKinds(FindingFor(findings, r).value.finding);
    }
  }

  lemma AdmissibleKinds(f: Finding)
    requires Admissible(f)
    ensures OwnershipOf(f) != MixedProjectPrimary && PathsAgree(f)
  {
  }

  /** The tally of projectable outputs. */
  lemma ProjectableTally(findings: seq<RawFinding>, results: seq<SarifResult>, h: Hashing)
    requires Projectable(findings, results, h)
    ensures Tallies(TallyOf(findings, results, h), findings, results, h)
    ensures Counted(TallyOf(findings, results, h), findings, results)
    ensures Classified(findings, results)
  {
    hide Projectable, Tallies, Counted, Classified;
    ResultsClassified(findings, results, h);
    PassTallies(findings, results, h);
  }

  /** An own finding's results all carry its identity, and are all one result. */
  lemma OwnFindingResults(findings: seq<RawFinding>, results: seq<SarifResult>, h: Hashing, f: RawFinding, r: SarifResult)
    requires Projectable(findings, results, h) && f in findings && IsOwned(f)
    requires r in results && OwnershipAt(findings, r) == Some(Own) && IdAt(findings, r, h) == SemanticId(f.finding, h)
    ensures FindingFor(findings, r) == Some(f)
    ensures ResultSignature(r) == FindingSignature(f)
    ensures forall x :: x in results && ResultSignature(x) == FindingSignature(f) ==> x == r
  {
    hide SemanticId, FindingSignature, ResultSignature, FindingFor, OwnershipOf, Admissible;
    FindingForIs(findings, results, r);
    var g := FindingFor(findings, r).value;
    assert IsOwned(g);
  }

  lemma ResultOfFinding(findings: seq<RawFinding>, results: seq<SarifResult>, h: Hashing, f: RawFinding) returns (r: SarifResult)
    requires Projectable(findings, results, h) && f in findings && IsOwned(f)
    ensures r in results && ResultSignature(r) == FindingSignature(f)
    ensures OwnershipAt(findings, r) == Some(Own) && IdAt(findings, r, h) == SemanticId(f.finding, h)
  {
    hide SemanticId, FindingSignature, ResultSignature, FindingFor, OwnershipOf, Admissible;
    ResultExists(findings, results, f);
    r :| r in results && ResultSignature(r) == FindingSignature(f);
    FindingForIs(findings, results, r);
  }

  lemma OwnedIsOwn(findings: seq<RawFinding>, results: seq<SarifResult>, h: Hashing, f: RawFinding)
    requires Projectable(findings, results, h) && AllParsed(findings) && f in findings
    ensures IsOwned(f) <==> IsOwn(f)
  {
    hide Includes, BySegment, BySubstring, IsOwnFinding, Parsed, Maps, OwnIdsTellApart, Admissible;
    assert Parsed(f);
    AdmissibleKinds(f.finding);
    OwnMeansIsOwn(f);
  }

  // ----- acceptance -------------------------------------------------------------------------

  lemma {:induction false} ProjectedForAt(ids: seq<string>, results: seq<SarifResult>, k: nat)
    requires |ids| == |results| && Distinct(ids) && k < |ids|
    ensures ProjectedFor(ids, results, ids[k]) == Some(results[k])
  {
    if k < |ids| - 1 {
      ProjectedForAt(ids[..|ids| - 1], results[..|results| - 1], k);
    }
  }

  /** The identities shown are those of the own findings. */
  lemma ShownIds(findings: seq<RawFinding>, results: seq<SarifResult>, h: Hashing, t: Tally)
    requires Projectable(findings, results, h) && AllParsed(findings) && Tallies(t, findings, results, h)
    ensures SetOf(IdsOf(t.projected)) == OwnIds(findings, h)
  {
    hide SemanticId, FindingSignature, ResultSignature, FindingFor, OwnershipOf, IsOwn, Projectable, AllParsed, CountIf,
      InOrderSubset, CanonicalLocator;
    var ids := IdsOf(t.projected);
    forall id | id in ids ensures id in OwnIds(findings, h) {
      var k :| 0 <= k < |ids| && ids[k] == id;
      var r := t.results[k];
      assert Describes(t.projected[k], r, findings, results, h);
      FoundIn(findings, results, h, r);
      var f := FindingFor(findings, r).value;
      OwnedIsOwn(findings, results, h, f);
    }
    forall f | f in findings && IsOwn(f) ensures SemanticId(f.finding, h) in ids {
      OwnedIsOwn(findings, results, h, f);
      var r := ResultOfFinding(findings, results, h, f);
      EmittedIds(t.projected, SemanticId(f.finding, h));
    }
  }

  lemma FoundIn(findings: seq<RawFinding>, results: seq<SarifResult>, h: Hashing, r: SarifResult)
    requires Projectable(findings, results, h) && r in results
    ensures FindingFor(findings, r).Some? && FindingFor(findings, r).value in findings
  {
    hide Admissible, FindingFor;
    FindingForIs(findings, results, r);
  }

  /** Every own finding is shown by its identity's result. */
  lemma OwnFindingShown(findings: seq<RawFinding>, results: seq<SarifResult>, h: Hashing, t: Tally, f: RawFinding)
    requires Projectable(findings, results, h) && Tallies(t, findings, results, h)
    requires f in findings && IsOwned(f)
    ensures Shown(f, results, IdsOf(t.projected), t.results, h)
  {
    hide SemanticId, FindingSignature, ResultSignature, FindingFor, OwnershipOf, Projectable, CountIf, InOrderSubset,
      CanonicalLocator, WithKey;
    var ids, id := IdsOf(t.projected), SemanticId(f.finding, h);
    var r := ResultOfFinding(findings, results, h, f);
    EmittedIds(t.projected, id);
    var k :| 0 <= k < |ids| && ids[k] == id;
    ProjectedForAt(ids, t.results, k);
    assert Describes(t.projected[k], t.results[k], findings, results, h);
    OwnFindingResults(findings, results, h, f, t.results[k]);
    WithKeyMembers(results, ResultSignature, FindingSignature(f));
    var actual := WithKey(results, ResultSignature, FindingSignature(f));
    assert r in actual;
  }

  /** As many results of own findings as own findings; and the three kinds make up all results. */
  lemma KindsAddUp(findings: seq<RawFinding>, results: seq<SarifResult>, h: Hashing)
    requires Projectable(findings, results, h)
    ensures CountIf(results, Has(findings, Own)) == CountIf(findings, IsOwned)
    ensures CountIf(results, Has(findings, Own)) + CountIf(results, Has(findings, DependencyOnly)) +
            CountIf(results, Has(findings, MixedDependencyPrimary)) == |results|
  {
    hide SemanticId, FindingSignature, ResultSignature, OwnershipOf, Admissible, OwnIdsTellApart, CountIf;
    var owned := (k: Signature) => exists f :: f in findings && FindingSignature(f) == k && IsOwned(f);
    forall r | r in results ensures Has(findings, Own)(r) == owned(ResultSignature(r)) {
      FindingForIs(findings, results, r);
    }
    CountTransfer(findings, results, FindingSignature, ResultSignature, owned, IsOwned, Has(findings, Own));
    ResultsClassified(findings, results, h);
    KindsPartition(findings, results);
  }

  lemma KindsPartition(findings: seq<RawFinding>, results: seq<SarifResult>)
    requires Classified(findings, results)
    ensures CountIf(results, Has(findings, Own)) + CountIf(results, Has(findings, DependencyOnly)) +
            CountIf(results, Has(findings, MixedDependencyPrimary)) == |results|
  {
    hide OwnershipAt, CountIf;
    var own, dependency, mixed := Has(findings, Own), Has(findings, DependencyOnly), Has(findings, MixedDependencyPrimary);
    forall r | r in results
      ensures own(r) || dependency(r) || mixed(r)
      ensures !(own(r) && dependency(r)) && !(own(r) && mixed(r)) && !(dependency(r) && mixed(r))
    {
      var o := OwnershipAt(findings, r).value;
      assert o == Own || o == DependencyOnly || o == MixedDependencyPrimary;
    }
    CountPartition(results, own, dependency, mixed);
  }

  lemma SameOwnCount(findings: seq<RawFinding>, results: seq<SarifResult>, h: Hashing)
    requires Projectable(findings, results, h) && AllParsed(findings)
    ensures CountIf(findings, IsOwned) == CountIf(findings, IsOwn)
  {
    hide IsOwned, IsOwn, Projectable, AllParsed;
    forall i | 0 <= i < |findings| ensures IsOwned(findings[i]) == IsOwn(findings[i]) {
      OwnedIsOwn(findings, results, h, findings[i]);
    }
    CountSame(findings, findings, IsOwned, IsOwn);
  }

  /**
   * Whatever the builder returns the validator accepts on the same outputs, unless there is no
   * own finding to show: then, and only then, it refuses the empty projection.
   */
  lemma BuiltIsAccepted(findings: seq<RawFinding>, log: SarifLog, h: Hashing)
    requires AllParsed(findings) && Projectable(findings, log.results, h)
    ensures var p := ProjectionOf(findings, log, h);
            ValidationOf(findings, log, p, h) ==
              if p.log.results == [] then Failure(EmptyProjection) else Success(|p.projected|)
    ensures ProjectionOf(findings, log, h).log.results == [] <==> OwnIds(findings, h) == {}
  {
    hide Projectable, AllParsed, TallyOf, Shown, CountIf, InOrderSubset, IsOwn, IsOwned, OwnIds;
    var p, t := ProjectionOf(findings, log, h), TallyOf(findings, log.results, h);
    ProjectableTally(findings, log.results, h);
    ShownIds(findings, log.results, h, t);
    forall f | f in findings && IsOwn(f) ensures Shown(f, log.results, IdsOf(p.projected), t.results, h) {
      OwnedIsOwn(findings, log.results, h, f);
      OwnFindingShown(findings, log.results, h, t, f);
    }
    KindsAddUp(findings, log.results, h);
    SameOwnCount(findings, log.results, h);
    DistinctByCount(IdsOf(p.projected));
  }

  // ----- conservation -----------------------------------------------------------------------

  /**
   * Findings and results are in a signature-preserving bijection, so the counts taken over the two
   * lists add up; every copy of an own finding is counted under its identity, and no other.
   */
  lemma CountsConserved(findings: seq<RawFinding>, log: SarifLog, h: Hashing)
    requires Projectable(findings, log.results, h)
    ensures multiset(Mapped(findings, FindingSignature)) == multiset(Mapped(log.results, ResultSignature))
    ensures var p := ProjectionOf(findings, log, h);
            && p.counts.ownInstances + p.counts.dependencyOnlyInstances
                 + p.counts.mixedDependencyPrimaryExcludedInstances == |log.results| == |findings|
            && |p.log.results| == |p.projected| && Distinct(IdsOf(p.projected))
            && SumInstances(p.projected) == p.counts.ownInstances
            && SumExcluded(p.excludedMixed) == p.counts.mixedDependencyPrimaryExcludedInstances
            && p.counts.projectedResults + p.counts.ownCopiesCollapsed == p.counts.ownInstances
            && forall i :: i in p.projected ==>
                 i.instances == CountIf(findings, CopyOf(i.semanticId, h))
  {
    hide Admissible, OwnIdsTellApart, TallyOf, CountIf, InOrderSubset, IsOwned, FindingSignature, ResultSignature, SemanticId,
      OwnershipAt, IdAt, CanonicalLocator, Projectable, Mapped;
    var p, t := ProjectionOf(findings, log, h), TallyOf(findings, log.results, h);
    ProjectableTally(findings, log.results, h);
    KindsAddUp(findings, log.results, h);
    forall i | i in p.projected ensures i.instances == CountIf(findings, CopyOf(i.semanticId, h)) {
      var k :| 0 <= k < |t.projected| && t.projected[k] == i;
      assert Describes(t.projected[k], t.results[k], findings, log.results, h);
      CopiesCounted(findings, log.results, h, i.semanticId);
    }
    SameLengths(findings, log.results, h);
  }

  lemma SameLengths(findings: seq<RawFinding>, results: seq<SarifResult>, h: Hashing)
    requires Projectable(findings, results, h)
    ensures multiset(Mapped(findings, FindingSignature)) == multiset(Mapped(results, ResultSignature))
    ensures |findings| == |results|
  {
    hide FindingSignature, ResultSignature, OneMeaning, Admissible, OwnIdsTellApart;
    assert |Mapped(findings, FindingSignature)| == |multiset(Mapped(findings, FindingSignature))|;
    assert |Mapped(results, ResultSignature)| == |multiset(Mapped(results, ResultSignature))|;
  }

  function CopyOf(id: string, h: Hashing): RawFinding -> bool {
    f => IsOwned(f) && SemanticId(f.finding, h) == id
  }

  lemma CopiesCounted(findings: seq<RawFinding>, results: seq<SarifResult>, h: Hashing, id: string)
    requires Projectable(findings, results, h)
    ensures CountIf(results, OwnWith(findings, id, h)) == CountIf(findings, CopyOf(id, h))
  {
    hide SemanticId, FindingSignature, ResultSignature, OwnershipOf, Admissible, OwnIdsTellApart, CountIf;
    var copy := (k: Signature) => exists f :: f in findings && FindingSignature(f) == k && CopyOf(id, h)(f);
    forall r | r in results ensures OwnWith(findings, id, h)(r) == copy(ResultSignature(r)) {
      FindingForIs(findings, results, r);
    }
    CountTransfer(findings, results, FindingSignature, ResultSignature, copy, CopyOf(id, h), OwnWith(findings, id, h));
  }

  predicate IsNoneForeign(f: RawFinding) { NoneForeign(f.finding) }

  predicate IsAllForeign(f: RawFinding) { AllForeign(f.finding) }

  predicate IsForeignFirst(f: RawFinding) { ForeignFirst(f.finding) }

  function OfKind(o: Ownership): RawFinding -> bool {
    (f: RawFinding) => OwnershipOf(f.finding) == o
  }

  lemma KindCounted(findings: seq<RawFinding>, results: seq<SarifResult>, h: Hashing, o: Ownership)
    requires Projectable(findings, results, h)
    ensures CountIf(results, Has(findings, o)) == CountIf(findings, OfKind(o))
  {
    hide SemanticId, FindingSignature, ResultSignature, OwnershipOf, Admissible, OwnIdsTellApart, CountIf;
    var kind := (k: Signature) => exists f :: f in findings && FindingSignature(f) == k && OfKind(o)(f);
    forall r | r in results ensures Has(findings, o)(r) == kind(ResultSignature(r)) {
      FindingForIs(findings, results, r);
    }
    CountTransfer(findings, results, FindingSignature, ResultSignature, kind, OfKind(o), Has(findings, o));
  }

  lemma KindByPaths(findings: seq<RawFinding>, results: seq<SarifResult>, h: Hashing)
    requires AllParsed(findings) && Projectable(findings, results, h)
    ensures CountIf(findings, OfKind(Own)) == CountIf(findings, IsNoneForeign)
    ensures CountIf(findings, OfKind(DependencyOnly)) == CountIf(findings, IsAllForeign)
    ensures CountIf(findings, OfKind(MixedDependencyPrimary)) == CountIf(findings, IsForeignFirst)
  {
    hide OwnershipOf, NoneForeign, AllForeign, ForeignFirst, Maps, OwnIdsTellApart, CountIf, Parsed, Admissible;
    forall i | 0 <= i < |findings|
      ensures OfKind(Own)(findings[i]) == NoneForeign(findings[i].finding)
      ensures OfKind(DependencyOnly)(findings[i]) == AllForeign(findings[i].finding)
      ensures OfKind(MixedDependencyPrimary)(findings[i]) == ForeignFirst(findings[i].finding)
    {
      assert findings[i] in findings;
      AdmissibleKinds(findings[i].finding);
      OwnershipMeans(findings[i]);
    }
    CountSame(findings, findings, OfKind(Own), IsNoneForeign);
    CountSame(findings, findings, OfKind(DependencyOnly), IsAllForeign);
    CountSame(findings, findings, OfKind(MixedDependencyPrimary), IsForeignFirst);
  }

  /**
   * The counts, by the paths alone: presented are the findings none of whose elements is a dependency's,
   * counted and left out those with only such, and those whose first element is one but not all.
   */
  lemma CountsByPaths(findings: seq<RawFinding>, log: SarifLog, h: Hashing)
    requires AllParsed(findings) && Projectable(findings, log.results, h)
    ensures var c := ProjectionOf(findings, log, h).counts;
            && c.rawSarifResults == |log.results| && c.rawScanFindings == |findings|
            && c.ownInstances == CountIf(findings, IsNoneForeign)
            && c.dependencyOnlyInstances == CountIf(findings, IsAllForeign)
            && c.mixedDependencyPrimaryExcludedInstances == CountIf(findings, IsForeignFirst)
  {
    hide Projectable, AllParsed, TallyOf, CountIf, OwnershipOf, NoneForeign, AllForeign, ForeignFirst;
    ProjectableTally(findings, log.results, h);
    KindCounted(findings, log.results, h, DependencyOnly);
    KindCounted(findings, log.results, h, MixedDependencyPrimary);
    KindByPaths(findings, log.results, h);
    CountSame(findings, findings, IsOwned, OfKind(Own));
  }

  /** The result shows the finding: its detector, texts, fingerprint, and the place of its first element. */
  ghost predicate Shows(r: SarifResult, f: RawFinding) {
    && f.finding.elements != [] && f.finding.elements[0].lines != []
    && f.finding.check == (if |r.ruleId| < 4 then "" else r.ruleId[4..])
    && r.text == f.finding.description && r.markdown == f.markdown && r.fingerprint == f.id
    && var e := f.finding.elements[0];
       r.uri == e.file && r.startLine == e.lines[0] && r.endLine == e.lines[|e.lines| - 1]
  }

  lemma SameSignatureShows(r: SarifResult, f: RawFinding)
    requires Parsed(f)
    ensures FindingSignature(f) == ResultSignature(r) <==> Shows(r, f)
  {
  }

  /** When the builder succeeds on parsed findings, said of their paths. */
  lemma ProjectableMeans(findings: seq<RawFinding>, results: seq<SarifResult>, h: Hashing)
    requires AllParsed(findings)
    ensures Projectable(findings, results, h) <==>
            && Maps(findings, results)
            && (forall f :: f in findings ==> MayStand(f.finding))
            && forall f, g :: f in findings && g in findings && NoneForeign(f.finding) && NoneForeign(g.finding) ==>
                 SemanticId(f.finding, h) == SemanticId(g.finding, h) ==> f == g
  {
    hide Maps, Admissible, OwnershipOf, NoneForeign, SemanticId, Parsed, MayStand;
    forall f | f in findings ensures Admissible(f.finding) <==> MayStand(f.finding) {
      AdmissibleMeans(f);
    }
    forall f | f in findings && Admissible(f.finding) ensures IsOwned(f) <==> NoneForeign(f.finding) {
      AdmissibleKinds(f.finding);
      OwnershipMeans(f);
    }
  }

  /**
   * What is projected, place by place: a result of the scan that shows a finding none of whose elements
   * is a dependency's, beside that finding's identity and locator and the result's own rule and place.
   */
  lemma ProjectedPresents(findings: seq<RawFinding>, log: SarifLog, h: Hashing, k: nat) returns (f: RawFinding)
    requires AllParsed(findings) && Projectable(findings, log.results, h)
    requires k < |ProjectionOf(findings, log, h).projected|
    ensures f in findings && NoneForeign(f.finding)
    ensures var p := ProjectionOf(findings, log, h);
            && |p.log.results| == |p.projected| && p.log.results[k] in log.results
            && var shown, r := p.projected[k], p.log.results[k];
               && Shows(r, f) && shown.semanticId == SemanticId(f.finding, h) && shown.locator == CanonicalLocator(f.finding)
               && shown.ruleId == r.ruleId && shown.uri == r.uri
               && shown.startLine == r.startLine && shown.endLine == r.endLine
  {
    hide Projectable, TallyOf, CountIf, OwnershipOf, NoneForeign, Shows, FindingFor, SemanticId, CanonicalLocator, Parsed, InOrderSubset,
      FindingSignature, ResultSignature;
    var t := TallyOf(findings, log.results, h);
    ProjectableTally(findings, log.results, h);
    var r := t.results[k];
    assert Describes(t.projected[k], r, findings, log.results, h);
    FoundIn(findings, log.results, h, r);
    SignatureFound(findings, log.results, h, r);
    f := FindingFor(findings, r).value;
    FindingClassifies(findings, log.results, h, f);
    OwnershipMeans(f);
    SameSignatureShows(r, f);
  }

  lemma FindingClassifies(findings: seq<RawFinding>, results: seq<SarifResult>, h: Hashing, f: RawFinding)
    requires AllParsed(findings) && Projectable(findings, results, h) && f in findings
    ensures Parsed(f) && PathsAgree(f.finding)
  {
    hide Maps, OwnIdsTellApart, Parsed;
    AdmissibleKinds(f.finding);
  }

  /** Every finding in project code alone is presented, by a result that shows it. */
  lemma OwnIsPresented(findings: seq<RawFinding>, log: SarifLog, h: Hashing, f: RawFinding) returns (r: SarifResult)
    requires AllParsed(findings) && Projectable(findings, log.results, h)
    requires f in findings && NoneForeign(f.finding)
    ensures r in ProjectionOf(findings, log, h).log.results && Shows(r, f)
  {
    hide Projectable, TallyOf, CountIf, OwnershipOf, NoneForeign, Shows, FindingFor, SemanticId, CanonicalLocator, Parsed,
      FindingSignature, ResultSignature;
    FindingClassifies(findings, log.results, h, f);
    OwnershipMeans(f);
    r := ResultOfFinding(findings, log.results, h, f);
    SameSignatureShows(r, f);
    ProjectedResultsAre(findings, log.results, h, r);
  }

  /** The entry tells of a finding that is left out: where it starts, and its elements in project code. */
  ghost predicate TellsOf(x: ExcludedMixed, f: RawFinding) {
    && f.finding.elements != [] && f.finding.elements[0].lines != []
    && x.signature == FindingSignature(f) && x.check == f.finding.check
    && x.uri == f.finding.elements[0].file && x.line == f.finding.elements[0].lines[0]
    && forall e :: e in x.projectElements <==> e in f.finding.elements && !Foreign(e)
  }

  lemma {:induction false} ProjectElementsByPath(elements: seq<Element>)
    requires forall e :: e in elements ==> (BySegment(e.file) <==> Foreign(e))
    ensures forall e :: e in ProjectElements(elements) <==> e in elements && !Foreign(e)
  {
    hide BySegment, Foreign;
    if elements != [] {
      assert elements == [elements[0]] + elements[1..];
      ProjectElementsByPath(elements[1..]);
    }
  }

  /** Every entry of what is left out tells of a finding whose first element is a dependency's. */
  lemma ExclusionsTell(findings: seq<RawFinding>, log: SarifLog, h: Hashing, x: ExcludedMixed) returns (f: RawFinding)
    requires AllParsed(findings) && Projectable(findings, log.results, h)
    requires x in ProjectionOf(findings, log, h).excludedMixed
    ensures f in findings && ForeignFirst(f.finding) && TellsOf(x, f)
    ensures x.instances == CountIf(findings, (g: RawFinding) => g == f)
  {
    hide Projectable, TallyOf, CountIf, OwnershipOf, ForeignFirst, FindingFor, Parsed, Shows, FindingSignature, ResultSignature,
      ProjectElements, BySegment, Foreign;
    ProjectableTally(findings, log.results, h);
    PassExcludes(findings, log.results, h);
    assert IsExclusion(x, findings, log.results);
    var r :| r in log.results && Excludes(x, r, findings, log.results);
    FoundIn(findings, log.results, h, r);
    SignatureFound(findings, log.results, h, r);
    f := FindingFor(findings, r).value;
    FindingClassifies(findings, log.results, h, f);
    OwnershipMeans(f);
    SameSignatureShows(r, f);
    ShowsPlace(r, f);
    ForeignBySegment(f);
    ProjectElementsByPath(f.finding.elements);
    CopiesOfMixed(findings, log.results, h, f);
  }

  lemma ShowsPlace(r: SarifResult, f: RawFinding)
    requires Shows(r, f)
    ensures f.finding.elements != [] && f.finding.elements[0].lines != []
    ensures r.uri == f.finding.elements[0].file && r.startLine == f.finding.elements[0].lines[0]
  {
  }

  lemma ForeignBySegment(f: RawFinding)
    requires PathsAgree(f.finding)
    ensures forall e :: e in f.finding.elements ==> (BySegment(e.file) <==> Foreign(e))
  {
    hide Includes, Split;
  }

  lemma CopiesOfMixed(findings: seq<RawFinding>, results: seq<SarifResult>, h: Hashing, f: RawFinding)
    requires Projectable(findings, results, h) && f in findings && OwnershipOf(f.finding) == MixedDependencyPrimary
    ensures CountIf(results, MixedWith(findings, FindingSignature(f))) == CountIf(findings, (g: RawFinding) => g == f)
  {
    hide SemanticId, FindingSignature, ResultSignature, OwnershipOf, Admissible, OwnIdsTellApart, CountIf;
    var same := (k: Signature) => k == FindingSignature(f);
    forall r | r in results ensures MixedWith(findings, FindingSignature(f))(r) == same(ResultSignature(r)) {
      FindingForIs(findings, results, r);
    }
    CountTransfer(findings, results, FindingSignature, ResultSignature, same, (g: RawFinding) => g == f,
                  MixedWith(findings, FindingSignature(f)));
  }

  /** And every such finding has its entry. */
  lemma MixedIsExcluded(findings: seq<RawFinding>, log: SarifLog, h: Hashing, f: RawFinding)
    requires AllParsed(findings) && Projectable(findings, log.results, h)
    requires f in findings && ForeignFirst(f.finding)
    ensures exists x :: x in ProjectionOf(findings, log, h).excludedMixed && x.signature == FindingSignature(f)
  {
    hide Projectable, TallyOf, CountIf, OwnershipOf, ForeignFirst, FindingFor, Parsed, FindingSignature, ResultSignature, Excludes;
    ProjectableTally(findings, log.results, h);
    PassExcludes(findings, log.results, h);
    FindingClassifies(findings, log.results, h, f);
    OwnershipMeans(f);
    MixedHasResult(findings, log.results, h, f);
    var r :| r in log.results && FindingFor(findings, r) == Some(f);
    SignatureListed(TallyOf(findings, log.results, h).excluded, FindingSignature(f));
  }

  lemma MixedHasResult(findings: seq<RawFinding>, results: seq<SarifResult>, h: Hashing, f: RawFinding)
    requires Projectable(findings, results, h) && f in findings
    ensures exists r :: r in results && FindingFor(findings, r) == Some(f)
  {
    hide FindingFor, Admissible, FindingSignature, ResultSignature;
    ResultExists(findings, results, f);
    var r :| r in results && ResultSignature(r) == FindingSignature(f);
    FindingForIs(findings, results, r);
  }

  // ----- the scanner's order ----------------------------------------------------------------

  lemma ProjectableAnyOrder(a: seq<RawFinding>, b: seq<RawFinding>, x: seq<SarifResult>, y: seq<SarifResult>, h: Hashing)
    requires multiset(a) == multiset(b) && multiset(x) == multiset(y)
    requires Projectable(a, x, h)
    ensures Projectable(b, y, h)
  {
    hide SemanticId, FindingSignature, ResultSignature, Admissible, IsOwned;
    SameMembers(a, b);
    SameMembers(x, y);
    MappedPermuted(a, b, FindingSignature);
    MappedPermuted(x, y, ResultSignature);
  }

  /** Exactly the results of own findings are projected, each value once. */
  lemma ProjectedResultsAre(findings: seq<RawFinding>, results: seq<SarifResult>, h: Hashing, r: SarifResult)
    requires Projectable(findings, results, h)
    ensures r in TallyOf(findings, results, h).results <==> r in results && OwnershipAt(findings, r) == Some(Own)
  {
    hide SemanticId, FindingSignature, ResultSignature, FindingFor, OwnershipOf, Projectable, CountIf, InOrderSubset,
      CanonicalLocator, TallyOf, OwnershipAt, IdAt;
    var t := TallyOf(findings, results, h);
    ProjectableTally(findings, results, h);
    if r in t.results {
      var k :| 0 <= k < |t.results| && t.results[k] == r;
      assert Describes(t.projected[k], t.results[k], findings, results, h);
    }
    if r in results && OwnershipAt(findings, r) == Some(Own) {
      var k := PlaceOf(findings, results, h, r);
      assert t.results[k] == r;
    }
  }

  /** Where an own result's identity stands: with that very result. */
  lemma PlaceOf(findings: seq<RawFinding>, results: seq<SarifResult>, h: Hashing, r: SarifResult) returns (k: nat)
    requires Projectable(findings, results, h) && r in results && OwnershipAt(findings, r) == Some(Own)
    ensures var t := TallyOf(findings, results, h);
            && k < |t.results| == |t.projected| && t.results[k] == r
            && Describes(t.projected[k], r, findings, results, h)
  {
    hide SemanticId, FindingSignature, ResultSignature, Projectable, CountIf, InOrderSubset, CanonicalLocator, TallyOf,
      OwnershipOf, FindingFor;
    var t := TallyOf(findings, results, h);
    ProjectableTally(findings, results, h);
    var id := IdAt(findings, r, h);
    EmittedIds(t.projected, id);
    k :| 0 <= k < |t.projected| && IdsOf(t.projected)[k] == id;
    assert Describes(t.projected[k], t.results[k], findings, results, h);
    FoundIn(findings, results, h, r);
    OwnFindingResults(findings, results, h, FindingFor(findings, r).value, t.results[k]);
    SignatureFound(findings, results, h, r);
  }

  lemma SignatureFound(findings: seq<RawFinding>, results: seq<SarifResult>, h: Hashing, r: SarifResult)
    requires Projectable(findings, results, h) && r in results
    ensures FindingFor(findings, r).Some? && FindingSignature(FindingFor(findings, r).value) == ResultSignature(r)
  {
    hide FindingFor, Admissible;
    FindingForIs(findings, results, r);
  }

  lemma SameFinding(a: seq<RawFinding>, b: seq<RawFinding>, x: seq<SarifResult>, y: seq<SarifResult>, h: Hashing, r: SarifResult)
    requires multiset(a) == multiset(b) && multiset(x) == multiset(y)
    requires Projectable(a, x, h) && Projectable(b, y, h) && r in x
    ensures r in y && FindingFor(a, r) == FindingFor(b, r)
  {
    hide FindingFor, Admissible, FindingSignature, ResultSignature;
    SameMembers(a, b);
    SameMembers(x, y);
    FindingForIs(a, x, r);
    FindingForIs(b, y, r);
  }

  lemma SameDescription(a: seq<RawFinding>, b: seq<RawFinding>, x: seq<SarifResult>, y: seq<SarifResult>, h: Hashing,
                        p: ProjectedIdentity, r: SarifResult)
    requires multiset(a) == multiset(b) && multiset(x) == multiset(y)
    requires Projectable(a, x, h) && Projectable(b, y, h) && r in x
    ensures Describes(p, r, a, x, h) <==> Describes(p, r, b, y, h)
  {
    hide FindingFor, Projectable, SemanticId, CanonicalLocator, CountIf, OwnershipOf;
    SameFinding(a, b, x, y, h, r);
    SameMembers(x, y);
    var ca, cb := OwnWith(a, p.semanticId, h), OwnWith(b, p.semanticId, h);
    forall i | 0 <= i < |x| ensures ca(x[i]) == cb(x[i]) {
      SameFinding(a, b, x, y, h, x[i]);
    }
    CountSame(x, x, ca, cb);
    CountPermuted(x, y, cb);
  }

  lemma IncludedAnyOrder(a: seq<RawFinding>, b: seq<RawFinding>, x: seq<SarifResult>, y: seq<SarifResult>, h: Hashing)
    requires multiset(a) == multiset(b) && multiset(x) == multiset(y)
    requires Projectable(a, x, h) && Projectable(b, y, h)
    ensures forall r :: r in TallyOf(a, x, h).results ==> r in TallyOf(b, y, h).results
    ensures forall p :: p in TallyOf(a, x, h).projected ==> p in TallyOf(b, y, h).projected
  {
    hide FindingFor, Projectable, SemanticId, CanonicalLocator, CountIf, OwnershipOf, TallyOf, InOrderSubset, Distinct;
    var s, t := TallyOf(a, x, h), TallyOf(b, y, h);
    ProjectableTally(a, x, h);
    forall r | r in s.results ensures r in t.results {
      ProjectedResultsAre(a, x, h, r);
      SameFinding(a, b, x, y, h, r);
      ProjectedResultsAre(b, y, h, r);
    }
    forall p | p in s.projected ensures p in t.projected {
      var k :| 0 <= k < |s.projected| && s.projected[k] == p;
      var r := s.results[k];
      assert Describes(p, r, a, x, h);
      SameFinding(a, b, x, y, h, r);
      SameDescription(a, b, x, y, h, p, r);
      var m := PlaceOf(b, y, h, r);
      assert t.projected[m] == p;
    }
  }

  /**
   * The order in which the scanner lists findings and results decides neither whether a projection
   * exists nor which results and identities it holds.
   */
  lemma OrderDoesNotMatter(a: seq<RawFinding>, b: seq<RawFinding>, x: SarifLog, y: SarifLog, h: Hashing)
    requires multiset(a) == multiset(b) && multiset(x.results) == multiset(y.results)
    ensures Projectable(a, x.results, h) <==> Projectable(b, y.results, h)
    ensures Projectable(a, x.results, h) ==>
              && SetOf(ProjectionOf(a, x, h).log.results) == SetOf(ProjectionOf(b, y, h).log.results)
              && SetOf(ProjectionOf(a, x, h).projected) == SetOf(ProjectionOf(b, y, h).projected)
  {
    hide Projectable, TallyOf;
    if Projectable(a, x.results, h) { ProjectableAnyOrder(a, b, x.results, y.results, h); }
    if Projectable(b, y.results, h) { ProjectableAnyOrder(b, a, y.results, x.results, h); }
    if Projectable(a, x.results, h) {
      IncludedAnyOrder(a, b, x.results, y.results, h);
      IncludedAnyOrder(b, a, y.results, x.results, h);
    }
  }

  // ----- what acceptance says ---------------------------------------------------------------

  /** The projection shows an own finding: there are results of it, and each stands beside its identity. */
  ghost predicate ShownAtIdentity(f: RawFinding, raw: seq<SarifResult>, p: Projection, h: Hashing) {
    && (exists r :: r in raw && ResultSignature(r) == FindingSignature(f))
    && forall r :: r in raw && ResultSignature(r) == FindingSignature(f) ==> StandsFor(r, SemanticId(f.finding, h), p)
  }

  ghost predicate StandsFor(r: SarifResult, id: string, p: Projection) {
    exists k :: 0 <= k < |p.projected| && k < |p.log.results| && p.projected[k].semanticId == id && p.log.results[k] == r
  }

  /** The counts a projection must state: what is there, and that nothing is lost between the sums. */
  ghost predicate CountsStand(findings: seq<RawFinding>, raw: seq<SarifResult>, p: Projection) {
    var c := p.counts;
    && c.rawSarifResults == |raw| && c.rawScanFindings == |findings|
    && c.ownInstances == CountIf(findings, IsOwn)
    && |raw| == c.ownInstances + c.dependencyOnlyInstances + c.mixedDependencyPrimaryExcludedInstances
    && c.ownInstances == c.ownDistinct + c.ownCopiesCollapsed
    && c.ownDistinct == |p.projected| && c.projectedResults == |p.log.results|
  }

  /**
   * What the validator accepts, exactly: an unchanged frame around some of the raw results in their order,
   * identities told apart that are those of the own findings, each own finding shown at its identity by
   * every result of it, and counts that stand.
   */
  lemma AcceptedMeans(findings: seq<RawFinding>, raw: SarifLog, p: Projection, h: Hashing)
    ensures ValidationOf(findings, raw, p, h).Success? <==>
            && p.log.frame == raw.frame && InOrderSubset(p.log.results, raw.results) && p.log.results != []
            && |p.projected| == |p.log.results|
            && (forall i, j :: 0 <= i < j < |p.projected| ==> p.projected[i].semanticId != p.projected[j].semanticId)
            && (forall q :: q in p.projected ==> exists f :: f in findings && IsOwn(f) && SemanticId(f.finding, h) == q.semanticId)
            && (forall f :: f in findings && IsOwn(f) ==> ShownAtIdentity(f, raw.results, p, h))
            && CountsStand(findings, raw.results, p)
  {
    hide SemanticId, IsOwn, InOrderSubset, CountIf, ShownAtIdentity, Shown, OwnIds;
    var ids := IdsOf(p.projected);
    if |p.projected| == |p.log.results| && Distinct(ids) {
      forall f | f in findings && IsOwn(f)
        ensures Shown(f, raw.results, ids, p.log.results, h) <==> ShownAtIdentity(f, raw.results, p, h)
      {
        ShownMeans(f, raw.results, p, h);
      }
      OwnIdsShown(findings, raw.results, p, h);
    }
  }

  lemma ShownMeans(f: RawFinding, raw: seq<SarifResult>, p: Projection, h: Hashing)
    requires |p.projected| == |p.log.results| && Distinct(IdsOf(p.projected))
    ensures Shown(f, raw, IdsOf(p.projected), p.log.results, h) <==> ShownAtIdentity(f, raw, p, h)
  {
    hide SemanticId, FindingSignature, ResultSignature, ProjectedFor, Distinct;
    var ids, id := IdsOf(p.projected), SemanticId(f.finding, h);
    var actual := WithKey(raw, ResultSignature, FindingSignature(f));
    WithKeyMembers(raw, ResultSignature, FindingSignature(f));
    if actual != [] {
      HeadIsMember(actual);
    }
    forall r ensures Some(r) == ProjectedFor(ids, p.log.results, id) <==> StandsFor(r, id, p) {
      PlacedFor(ids, p.log.results, id);
      if StandsFor(r, id, p) {
        var k :| 0 <= k < |p.projected| && p.projected[k].semanticId == id && p.log.results[k] == r;
        ProjectedForAt(ids, p.log.results, k);
      }
    }
  }

  /** What is projected for an identity stands beside it. */
  lemma {:induction false} PlacedFor(ids: seq<string>, results: seq<SarifResult>, id: string)
    requires |ids| == |results|
    ensures ProjectedFor(ids, results, id).Some? ==>
              exists k :: 0 <= k < |ids| && ids[k] == id && results[k] == ProjectedFor(ids, results, id).value
  {
    if ids != [] && ids[|ids| - 1] != id {
      PlacedFor(ids[..|ids| - 1], results[..|results| - 1], id);
    }
  }

  lemma OwnIdsShown(findings: seq<RawFinding>, raw: seq<SarifResult>, p: Projection, h: Hashing)
    requires |p.projected| == |p.log.results|
    requires forall f :: f in findings && IsOwn(f) ==>
               (Shown(f, raw, IdsOf(p.projected), p.log.results, h) <==> ShownAtIdentity(f, raw, p, h))
    ensures SetOf(IdsOf(p.projected)) == OwnIds(findings, h) ==>
              forall q :: q in p.projected ==> exists f :: f in findings && IsOwn(f) && SemanticId(f.finding, h) == q.semanticId
    ensures (forall q :: q in p.projected ==> exists f :: f in findings && IsOwn(f) && SemanticId(f.finding, h) == q.semanticId) &&
            (forall f :: f in findings && IsOwn(f) ==> ShownAtIdentity(f, raw, p, h)) ==>
              SetOf(IdsOf(p.projected)) == OwnIds(findings, h)
  {
    hide SemanticId, IsOwn, FindingSignature, ResultSignature, Shown;
    var ids := IdsOf(p.projected);
    if SetOf(ids) == OwnIds(findings, h) {
      forall q | q in p.projected ensures exists f :: f in findings && IsOwn(f) && SemanticId(f.finding, h) == q.semanticId {
        var k :| 0 <= k < |p.projected| && p.projected[k] == q;
        assert ids[k] in SetOf(ids);
      }
    }
    if (forall q :: q in p.projected ==> exists f :: f in findings && IsOwn(f) && SemanticId(f.finding, h) == q.semanticId) &&
       (forall f :: f in findings && IsOwn(f) ==> ShownAtIdentity(f, raw, p, h)) {
      forall id ensures id in SetOf(ids) <==> id in OwnIds(findings, h) {
        if id in SetOf(ids) {
          var k :| 0 <= k < |ids| && ids[k] == id;
          assert p.projected[k] in p.projected;
        }
        if f :| f in findings && IsOwn(f) && SemanticId(f.finding, h) == id {
          var r :| r in raw && ResultSignature(r) == FindingSignature(f);
          assert StandsFor(r, id, p);
        }
      }
    }
  }

  // ----- any two accepted projections -------------------------------------------------------

  function ShownFor(p: Projection): string -> Option<SarifResult> {
    id => if |p.projected| == |p.log.results| then ProjectedFor(IdsOf(p.projected), p.log.results, id) else None
  }

  lemma SameShown(findings: seq<RawFinding>, raw: SarifLog, p: Projection, q: Projection, h: Hashing, id: string)
    requires ValidationOf(findings, raw, p, h).Success? && ValidationOf(findings, raw, q, h).Success?
    requires id in OwnIds(findings, h)
    ensures ShownFor(p)(id) == ShownFor(q)(id)
  {
    hide SemanticId, IsOwn, InOrderSubset, CountsConserve, Distinct;
    var f :| f in findings && IsOwn(f) && SemanticId(f.finding, h) == id;
    var actual := WithKey(raw.results, ResultSignature, FindingSignature(f));
    assert Shown(f, raw.results, IdsOf(p.projected), p.log.results, h);
    assert Shown(f, raw.results, IdsOf(q.projected), q.log.results, h);
    HeadIsMember(actual);
  }

  lemma ShownInPlace(p: Projection)
    requires |p.projected| == |p.log.results| && Distinct(IdsOf(p.projected))
    ensures Mapped(IdsOf(p.projected), ShownFor(p)) == Mapped(p.log.results, r => Some(r))
  {
    forall k | 0 <= k < |p.projected| ensures ShownFor(p)(IdsOf(p.projected)[k]) == Some(p.log.results[k]) {
      ProjectedForAt(IdsOf(p.projected), p.log.results, k);
    }
  }

  function OrDefault(d: SarifResult): Option<SarifResult> -> SarifResult {
    (o: Option<SarifResult>) => match o case None => d case Some(r) => r
  }

  /** Any two projections the validator accepts for the same outputs show the same results, up to order. */
  lemma AcceptedProjectionsAgree(findings: seq<RawFinding>, raw: SarifLog, p: Projection, q: Projection, h: Hashing)
    requires ValidationOf(findings, raw, p, h).Success? && ValidationOf(findings, raw, q, h).Success?
    ensures multiset(p.log.results) == multiset(q.log.results)
    ensures SetOf(IdsOf(p.projected)) == SetOf(IdsOf(q.projected))
  {
    hide IsOwn, InOrderSubset, CountsConserve, Shown, OwnIds, ProjectedFor;
    var ids, jds := IdsOf(p.projected), IdsOf(q.projected);
    DistinctSameSet(ids, jds);
    ShownInPlace(p);
    ShownInPlace(q);
    MappedPermuted(ids, jds, ShownFor(p));
    forall k | 0 <= k < |jds| ensures ShownFor(p)(jds[k]) == ShownFor(q)(jds[k]) {
      assert jds[k] in SetOf(jds);
      SameShown(findings, raw, p, q, h, jds[k]);
    }
    assert Mapped(jds, ShownFor(p)) == Mapped(jds, ShownFor(q));
    var a, b := Mapped(ids, ShownFor(p)), Mapped(jds, ShownFor(q));
    var d := OrDefault(p.log.results[0]);
    MappedPermuted(a, b, d);
    assert Mapped(a, d) == p.log.results && Mapped(b, d) == q.log.results;
  }
}
