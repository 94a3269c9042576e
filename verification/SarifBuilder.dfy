/** The builder: two raw outputs of one scan, reduced to one result per project-owned finding. */
module SarifBuilder {
  import opened Wrappers
  import opened Counting
  import opened FindingIdentity
  import opened SarifModel

  predicate AllSame<A(==)>(s: seq<A>) {
    forall x :: x in s ==> x == s[0]
  }

  /** What each reported failure asserts of the raw outputs. */
  ghost predicate Explains(code: Code, findings: seq<RawFinding>, results: seq<SarifResult>, h: Hashing) {
    match code
    case UnmappedSarifResult =>
      exists r :: r in results &&
        |WithKey(findings, FindingSignature, ResultSignature(r))| != |WithKey(results, ResultSignature, ResultSignature(r))|
    case AmbiguousMapping => !OneMeaning(findings, FindingSignature) || !OneMeaning(results, ResultSignature)
    case UnrepresentableFinding =>
      exists f :: f in findings && forall r :: r in results ==> ResultSignature(r) != FindingSignature(f)
    case DependencyPredicateDisagreement => exists f :: f in findings && !PathsAgree(f.finding)
    case ProjectFindingReferencesDependency => exists f :: f in findings && OwnershipOf(f.finding) == MixedProjectPrimary
    case ProjectCodeInDependencyFinding =>
      exists f :: f in findings && OwnershipOf(f.finding) == MixedDependencyPrimary && !Admissible(f.finding)
    case DistinctFindingsWouldCollapse => !OwnIdsTellApart(findings, h)
    case _ => false
  }

  lemma SameIfOneMeaning<A(!new), K>(s: seq<A>, key: A -> K, k: K)
    requires OneMeaning(s, key)
    ensures AllSame(WithKey(s, key, k))
  {
    WithKeyMembers(s, key, k);
    var same := WithKey(s, key, k);
    forall x | x in same ensures x == same[0] {
      assert same[0] in same;
    }
  }

  lemma OneMeaningIfSame<A(!new), K>(s: seq<A>, key: A -> K)
    requires forall x :: x in s ==> AllSame(WithKey(s, key, key(x)))
    ensures OneMeaning(s, key)
  {
    forall x, y | x in s && y in s && key(x) == key(y) ensures x == y {
      WithKeyMembers(s, key, key(x));
      assert x in WithKey(s, key, key(x)) && y in WithKey(s, key, key(x));
    }
  }

  lemma EqualMultisets(findings: seq<RawFinding>, results: seq<SarifResult>)
    requires forall r :: r in results ==>
      |WithKey(findings, FindingSignature, ResultSignature(r))| == |WithKey(results, ResultSignature, ResultSignature(r))|
    requires forall f :: f in findings ==> exists r :: r in results && ResultSignature(r) == FindingSignature(f)
    ensures multiset(Mapped(findings, FindingSignature)) == multiset(Mapped(results, ResultSignature))
  {
    hide FindingSignature, ResultSignature;
    var a, b := multiset(Mapped(findings, FindingSignature)), multiset(Mapped(results, ResultSignature));
    forall k: Signature ensures a[k] == b[k] {
      WithKeyMembers(findings, FindingSignature, k);
      WithKeyMembers(results, ResultSignature, k);
      var fs, rs := WithKey(findings, FindingSignature, k), WithKey(results, ResultSignature, k);
      if fs != [] {
        HeadIsMember(fs);
        var r :| r in results && ResultSignature(r) == FindingSignature(fs[0]);
        assert r in rs;
      }
      if rs != [] {
        HeadIsMember(rs);
      }
    }
  }

  /** Each result's signature has as many findings, and one value. */
  method CheckResults(findings: seq<RawFinding>, results: seq<SarifResult>, ghost h: Hashing) returns (r: Result<(), Code>)
    ensures r.Success? ==> forall x :: x in results ==>
              var k := ResultSignature(x);
              |WithKey(findings, FindingSignature, k)| == |WithKey(results, ResultSignature, k)| &&
              AllSame(WithKey(results, ResultSignature, k))
    ensures r.Failure? ==> Explains(r.error, findings, results, h) && !Maps(findings, results)
  {
    hide FindingSignature, ResultSignature, WithKey;
    var bySig := GroupBy(findings, FindingSignature);
    var resultsBySig := GroupBy(results, ResultSignature);
    var todo := resultsBySig.Keys;
    while todo != {}
      invariant todo <= resultsBySig.Keys
      invariant forall k :: k in resultsBySig && k !in todo ==>
        |WithKey(findings, FindingSignature, k)| == |resultsBySig[k]| && AllSame(resultsBySig[k])
    {
      var k :| k in todo;
      var x: SarifResult :| x in results && ResultSignature(x) == k;
      var have := if k in bySig then |bySig[k]| else 0;
      if k !in bySig {
        NoneWithKey(findings, FindingSignature, k);
      }
      if have != |resultsBySig[k]| {
        CountsDiffer(findings, results, k);
        return Failure(UnmappedSarifResult);
      }
      if !AllSame(resultsBySig[k]) {
        NotOneMeaning(results, ResultSignature, k);
        return Failure(AmbiguousMapping);
      }
      todo := todo - {k};
    }
    return Success(());
  }

  lemma NoneWithKey<A, K>(s: seq<A>, key: A -> K, k: K)
    requires forall x :: x in s ==> key(x) != k
    ensures WithKey(s, key, k) == []
  {
    WithKeyMembers(s, key, k);
    NoMembers(WithKey(s, key, k));
  }

  lemma NotOneMeaning<A(!new), K>(s: seq<A>, key: A -> K, k: K)
    requires !AllSame(WithKey(s, key, k))
    ensures !OneMeaning(s, key)
  {
    if OneMeaning(s, key) {
      SameIfOneMeaning(s, key, k);
    }
  }

  /** Each finding's signature has a result, and one value. */
  method CheckFindings(findings: seq<RawFinding>, results: seq<SarifResult>, ghost h: Hashing) returns (r: Result<(), Code>)
    ensures r.Success? ==> forall f :: f in findings ==>
              && (exists x :: x in results && ResultSignature(x) == FindingSignature(f))
              && AllSame(WithKey(findings, FindingSignature, FindingSignature(f)))
    ensures r.Failure? ==> Explains(r.error, findings, results, h) && !Maps(findings, results)
  {
    hide FindingSignature, ResultSignature, WithKey;
    var bySig := GroupBy(findings, FindingSignature);
    var resultsBySig := GroupBy(results, ResultSignature);
    var todo := bySig.Keys;
    while todo != {}
      invariant todo <= bySig.Keys
      invariant forall k :: k in bySig && k !in todo ==> k in resultsBySig && AllSame(bySig[k])
    {
      var k :| k in todo;
      var f: RawFinding :| f in findings && FindingSignature(f) == k;
      if k !in resultsBySig {
        NotRepresented(findings, results, f);
        return Failure(UnrepresentableFinding);
      }
      if !AllSame(bySig[k]) {
        NotOneMeaning(findings, FindingSignature, k);
        return Failure(AmbiguousMapping);
      }
      todo := todo - {k};
    }
    forall f | f in findings
      ensures FindingSignature(f) in resultsBySig && AllSame(WithKey(findings, FindingSignature, FindingSignature(f)))
    {
      assert FindingSignature(f) in bySig;
    }
    return Success(());
  }

  /** Raw and SARIF: as many of each signature on both sides, and one meaning for each. */
  method CheckMapping(findings: seq<RawFinding>, results: seq<SarifResult>, ghost h: Hashing) returns (r: Result<(), Code>)
    ensures r.Success? <==> Maps(findings, results)
    ensures r.Failure? ==> Explains(r.error, findings, results, h)
  {
    hide FindingSignature, ResultSignature, WithKey, Explains;
    var _ :- CheckResults(findings, results, h);
    var _ :- CheckFindings(findings, results, h);
    OneMeaningIfSame(findings, FindingSignature);
    OneMeaningIfSame(results, ResultSignature);
    EqualMultisets(findings, results);
    return Success(());
  }

  lemma CountsDiffer(findings: seq<RawFinding>, results: seq<SarifResult>, k: Signature)
    requires |WithKey(findings, FindingSignature, k)| != |WithKey(results, ResultSignature, k)|
    ensures !Maps(findings, results)
  {
    WithKeyMembers(findings, FindingSignature, k);
    WithKeyMembers(results, ResultSignature, k);
  }

  lemma NotRepresented(findings: seq<RawFinding>, results: seq<SarifResult>, f: RawFinding)
    requires f in findings && forall r :: r in results ==> ResultSignature(r) != FindingSignature(f)
    ensures !Maps(findings, results)
  {
    if Maps(findings, results) {
      ResultExists(findings, results, f);
    }
  }

  /** Ownership, cross-checked against the triage scope's own predicate on every finding. */
  method CheckOwnership(findings: seq<RawFinding>, ghost results: seq<SarifResult>, ghost h: Hashing)
    returns (r: Result<(), Code>)
    requires forall f :: f in findings ==> Parsed(f)
    ensures r.Success? <==> forall f :: f in findings ==> Admissible(f.finding)
    ensures r.Failure? ==> Explains(r.error, findings, results, h)
  {
    hide BySegment, BySubstring;
    for i := 0 to |findings|
      invariant forall f :: f in findings[..i] ==> Admissible(f.finding)
    {
      var f := findings[i];
      assert f in findings && findings[..i + 1] == findings[..i] + [f];
      var o :- ClassifyOwnership(f.finding);
      OwnMeansIsOwn(f);
      if (o == Own) != IsOwnFinding(f.finding) {
        // the source fails with OwnScopeDisagreement here; the two predicates cannot disagree
        assert false;
      }
      if o == MixedProjectPrimary {
        return Failure(ProjectFindingReferencesDependency);
      }
      if o == MixedDependencyPrimary {
        var projectElements := ProjectElements(f.finding.elements);
        ProjectElementsAre(f.finding.elements);
        if f.finding.check !in VERSION_LINT_DETECTORS || exists e :: e in projectElements && e.kind != "pragma" {
          return Failure(ProjectCodeInDependencyFinding);
        }
      }
    }
    assert findings[..|findings|] == findings;
    return Success(());
  }

  lemma {:induction false} ProjectElementsAre(elements: seq<Element>)
    ensures forall e :: e in ProjectElements(elements) <==> e in elements && !BySegment(e.file)
  {
    hide BySegment;
    if elements != [] {
      ProjectElementsAre(elements[1..]);
      assert elements == [elements[0]] + elements[1..];
    }
  }

  /** Every result of every member of an identity's group. */
  function Variants(members: seq<RawFinding>, results: seq<SarifResult>): seq<SarifResult> {
    if members == [] then []
    else Variants(members[..|members| - 1], results) + WithKey(results, ResultSignature, FindingSignature(members[|members| - 1]))
  }

  lemma {:induction false} VariantsOfCopies(members: seq<RawFinding>, results: seq<SarifResult>, f: RawFinding)
    requires forall m :: m in members ==> m == f
    ensures forall r :: r in Variants(members, results) ==> r in results && ResultSignature(r) == FindingSignature(f)
  {
    if members != [] {
      var init := members[..|members| - 1];
      assert members == init + [members[|members| - 1]];
      forall m | m in init ensures m in members {}
      assert members[|members| - 1] in members;
      VariantsOfCopies(init, results, f);
      WithKeyMembers(results, ResultSignature, FindingSignature(f));
    }
  }

  /** Copies of one finding have copies of one result. */
  lemma CopiesHaveOneVariant(members: seq<RawFinding>, results: seq<SarifResult>)
    requires members != [] && AllSame(members) && OneMeaning(results, ResultSignature)
    ensures AllSame(Variants(members, results))
  {
    hide Variants, ResultSignature, FindingSignature;
    VariantsOfCopies(members, results, members[0]);
    var variants := Variants(members, results);
    forall x | x in variants ensures x == variants[0] {
      HeadIsMember(variants);
    }
  }

  lemma MapsOneResult(findings: seq<RawFinding>, results: seq<SarifResult>)
    requires Maps(findings, results)
    ensures OneMeaning(results, ResultSignature)
  {
  }

  lemma OwnIdsMean(findings: seq<RawFinding>, own: seq<RawFinding>, byId: RawFinding -> string, h: Hashing)
    requires forall f :: f in own <==> f in findings && IsOwned(f)
    requires forall f :: byId(f) == SemanticId(f.finding, h)
    ensures OneMeaning(own, byId) <==> OwnIdsTellApart(findings, h)
  {
    hide SemanticId, IsOwned;
  }

  /** Identity: only exact copies, of the finding and of its results, share one. */
  method CheckIdentities(findings: seq<RawFinding>, results: seq<SarifResult>, h: Hashing) returns (r: Result<(), Code>)
    requires Maps(findings, results)
    ensures r.Success? <==> OwnIdsTellApart(findings, h)
    ensures r.Failure? ==> Explains(r.error, findings, results, h)
  {
    hide FindingSignature, ResultSignature, WithKey, SemanticId, IsOwned, Variants, Maps, AllSame, OneMeaning, OwnIdsTellApart;
    MapsOneResult(findings, results);
    var own := WithKey(findings, IsOwned, true);
    WithKeyMembers(findings, IsOwned, true);
    var byId := (f: RawFinding) => SemanticId(f.finding, h);
    var groups := GroupBy(own, byId);
    OwnIdsMean(findings, own, byId, h);
    var todo := groups.Keys;
    while todo != {}
      invariant todo <= groups.Keys
      invariant forall id :: id in groups && id !in todo ==> AllSame(groups[id])
    {
      var id :| id in todo;
      var members := groups[id];
      if AllSame(members) {
        CopiesHaveOneVariant(members, results);
      }
      if !AllSame(members) || !AllSame(Variants(members, results)) {
        NotOneMeaning(own, byId, id);
        return Failure(DistinctFindingsWouldCollapse);
      }
      todo := todo - {id};
    }
    OneMeaningIfSame(own, byId);
    return Success(());
  }

  /** The pass over the raw results. */
  method Pass(findings: seq<RawFinding>, results: seq<SarifResult>, h: Hashing) returns (t: Tally)
    ensures t == TallyOf(findings, results, h)
  {
    hide Take, FindingFor;
    t := Tally([], [], [], 0, 0);
    for i := 0 to |results|
      invariant t == TallyOf(findings, results[..i], h)
    {
      assert results[..i + 1][..i] == results[..i];
      var f := FindingFor(findings, results[i]);
      if f.Some? {
        t := Take(t, results[i], f.value, h);
      }
    }
    assert results[..|results|] == results;
  }

  /**
   * The builder: it succeeds exactly on projectable outputs, with their projection, and each
   * failure says what it claims.
   */
  method ProjectDistinctOwnCode(findings: seq<RawFinding>, log: SarifLog, h: Hashing) returns (r: Result<Projection, Code>)
    requires forall f :: f in findings ==> Parsed(f)
    ensures r.Success? <==> Projectable(findings, log.results, h)
    ensures r.Success? ==> r.value == ProjectionOf(findings, log, h)
    ensures r.Failure? ==> Explains(r.error, findings, log.results, h)
    ensures r != Failure(OwnScopeDisagreement)
  {
    hide Maps, Admissible, OwnIdsTellApart, TallyOf;
    var _ :- CheckMapping(findings, log.results, h);
    var _ :- CheckOwnership(findings, log.results, h);
    var _ :- CheckIdentities(findings, log.results, h);
    var t := Pass(findings, log.results, h);
    var own := CountIf(findings, IsOwned);
    var counts := Counts(|log.results|, |findings|, own, |t.projected|, own - |t.projected|,
                         t.dependencyOnly, t.mixedExcluded, |t.results|);
    return Success(Projection(SarifLog(log.frame, t.results), counts, t.projected, t.excluded));
  }
}
