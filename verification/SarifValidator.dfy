/** The validator: the projection's post-conditions, re-derived from the raw outputs alone. */
module SarifValidator {
  import opened Wrappers
  import opened Seqs
  import opened Counting
  import opened FindingIdentity
  import opened SarifModel

  // ----- in-order subsets -------------------------------------------------------------------

  /** Ascending places in `b` that spell `a`. */
  ghost predicate Selects<A>(places: seq<nat>, a: seq<A>, b: seq<A>) {
    && |places| == |a|
    && (forall i, j :: 0 <= i < j < |places| ==> places[i] < places[j])
    && (forall i :: 0 <= i < |places| ==> places[i] < |b| && b[places[i]] == a[i])
  }

  ghost predicate InOrderSubset<A(!new)>(a: seq<A>, b: seq<A>) {
    exists places :: Selects(places, a, b)
  }

  /** The cursor's answer: each element at the first place left. */
  predicate Greedy<A(==)>(a: seq<A>, b: seq<A>)
    decreases |b|
  {
    a == [] || (b != [] && if a[0] == b[0] then Greedy(a[1..], b[1..]) else Greedy(a, b[1..]))
  }

  lemma {:induction false} GreedyFinds<A(!new)>(a: seq<A>, b: seq<A>) returns (places: seq<nat>)
    requires Greedy(a, b)
    ensures Selects(places, a, b)
    decreases |b|
  {
    if a == [] {
      places := [];
    } else {
      hide Selects;
      var here := a[0] == b[0];
      var rest := GreedyFinds(if here then a[1..] else a, b[1..]);
      places := PlacesLater(rest, if here then a[1..] else a, b);
      if here {
        PlacesHere(places, a, b);
        places := [0] + places;
      }
    }
  }

  /** Places behind the first element, as places in the whole. */
  lemma PlacesLater<A(!new)>(rest: seq<nat>, a: seq<A>, b: seq<A>) returns (places: seq<nat>)
    requires b != [] && Selects(rest, a, b[1..])
    ensures Selects(places, a, b) && 0 !in places
  {
    places := seq(|rest|, i requires 0 <= i < |rest| => rest[i] + 1);
  }

  lemma PlacesHere<A(!new)>(places: seq<nat>, a: seq<A>, b: seq<A>)
    requires a != [] && b != [] && a[0] == b[0] && Selects(places, a[1..], b) && 0 !in places
    ensures Selects([0] + places, a, b)
  {
  }

  lemma {:induction false} GreedyMisses<A(!new)>(a: seq<A>, b: seq<A>, places: seq<nat>)
    requires Selects(places, a, b)
    ensures Greedy(a, b)
    decreases |b|
  {
    if a != [] {
      assert places[0] < |b|;
      var kept := if a[0] == b[0] then places[1..] else places;
      forall i | 0 <= i < |kept| ensures 1 <= kept[i] {
        assert places[0] <= kept[i];
        assert b[places[0]] == a[0];
      }
      var earlier: seq<nat> := seq(|kept|, i requires 0 <= i < |kept| => kept[i] - 1);
      GreedyMisses(if a[0] == b[0] then a[1..] else a, b[1..], earlier);
    }
  }

  /** The greedy cursor accepts exactly the in-order subsets. */
  lemma GreedyIsExact<A(!new)>(a: seq<A>, b: seq<A>)
    ensures Greedy(a, b) <==> InOrderSubset(a, b)
  {
    if Greedy(a, b) {
      var places := GreedyFinds(a, b);
    }
    if InOrderSubset(a, b) {
      var places :| Selects(places, a, b);
      GreedyMisses(a, b, places);
    }
  }

  /** Everything outside the results unchanged, and the results an in-order subset of the raw ones. */
  method AssertProjectionIsSubset(raw: SarifLog, projected: SarifLog) returns (ok: bool)
    ensures ok <==> raw.frame == projected.frame && InOrderSubset(projected.results, raw.results)
  {
    var a, b := projected.results, raw.results;
    GreedyIsExact(a, b);
    if raw.frame != projected.frame {
      return false;
    }
    var cursor := 0;
    assert a[0..] == a && b[0..] == b;
    for i := 0 to |a|
      invariant 0 <= cursor <= |b|
      invariant Greedy(a, b) == Greedy(a[i..], b[cursor..])
    {
      while cursor < |b| && b[cursor] != a[i]
        invariant 0 <= cursor <= |b|
        invariant Greedy(a, b) == Greedy(a[i..], b[cursor..])
      {
        assert b[cursor..][1..] == b[cursor + 1..];
        cursor := cursor + 1;
      }
      if cursor == |b| {
        return false;
      }
      assert b[cursor..][1..] == b[cursor + 1..] && a[i..][1..] == a[i + 1..];
      cursor := cursor + 1;
    }
    return true;
  }

  // ----- the post-conditions ----------------------------------------------------------------

  predicate IsOwn(f: RawFinding) { IsOwnFinding(f.finding) }

  function OwnIds(findings: seq<RawFinding>, h: Hashing): set<string> {
    set f | f in findings && IsOwn(f) :: SemanticId(f.finding, h)
  }

  /** The result projected for an identity; of a repeated identity, the last. */
  function ProjectedFor(ids: seq<string>, results: seq<SarifResult>, id: string): Option<SarifResult>
    requires |ids| == |results|
  {
    if ids == [] then None
    else if ids[|ids| - 1] == id then Some(results[|results| - 1])
    else ProjectedFor(ids[..|ids| - 1], results[..|results| - 1], id)
  }

  /** Every raw result of the finding is the one projected for its identity. */
  predicate Shown(f: RawFinding, raw: seq<SarifResult>, ids: seq<string>, results: seq<SarifResult>, h: Hashing)
    requires |ids| == |results|
  {
    var actual := WithKey(raw, ResultSignature, FindingSignature(f));
    actual != [] && forall r :: r in actual ==> Some(r) == ProjectedFor(ids, results, SemanticId(f.finding, h))
  }

  predicate CountsConserve(c: Counts, findings: seq<RawFinding>, raw: seq<SarifResult>, p: Projection) {
    && c.rawSarifResults == |raw|
    && c.rawScanFindings == |findings|
    && c.ownInstances == CountIf(findings, IsOwn)
    && c.ownInstances + c.dependencyOnlyInstances + c.mixedDependencyPrimaryExcludedInstances == c.rawSarifResults
    && c.ownDistinct + c.ownCopiesCollapsed == c.ownInstances
    && c.projectedResults == |p.log.results|
    && c.ownDistinct == |p.projected|
  }

  /** The validator's verdict: the first post-condition that fails, in order, or the identities shown. */
  ghost function ValidationOf(findings: seq<RawFinding>, raw: SarifLog, p: Projection, h: Hashing): Result<nat, Code> {
    var ids, results := IdsOf(p.projected), p.log.results;
    if !(raw.frame == p.log.frame && InOrderSubset(results, raw.results)) then Failure(ProjectionNotASubset)
    else if results == [] then Failure(EmptyProjection)
    else if !Distinct(ids) || |ids| != |results| then Failure(DuplicateProjectedIdentity)
    else if SetOf(ids) != OwnIds(findings, h) then Failure(OwnScopeDisagreement)
    else if exists f :: f in findings && IsOwn(f) && !Shown(f, raw.results, ids, results, h) then Failure(DistinctFindingsWouldCollapse)
    else if !CountsConserve(p.counts, findings, raw.results, p) then Failure(InconsistentCounts)
    else Success(|ids|)
  }

  lemma SubsetOfSameSize<T>(a: set<T>, b: set<T>)
    requires a <= b && |a| == |b|
    ensures a == b
  {
    assert b == a + (b - a);
  }

  /** Distinct identities are the own set when there are as many and each is in it. */
  lemma IdsAreOwn(ids: seq<string>, own: set<string>)
    requires Distinct(ids)
    ensures |ids| == |own| && (forall id :: id in ids ==> id in own) <==> SetOf(ids) == own
  {
    DistinctByCount(ids);
    if |ids| == |own| && forall id :: id in ids ==> id in own {
      SubsetOfSameSize(SetOf(ids), own);
    }
    if SetOf(ids) == own {
      assert forall id :: id in ids ==> id in SetOf(ids);
    }
  }

  method ValidateProjectionIntegrity(findings: seq<RawFinding>, raw: SarifLog, p: Projection, h: Hashing)
    returns (r: Result<nat, Code>)
    ensures r == ValidationOf(findings, raw, p, h)
  {
    hide IsOwn, Shown, CountsConserve, InOrderSubset, OwnIds, Distinct;
    var results, ids := p.log.results, IdsOf(p.projected);
    var subset := AssertProjectionIsSubset(raw, p.log);
    if !subset {
      return Failure(ProjectionNotASubset);
    }
    if results == [] {
      return Failure(EmptyProjection);
    }
    DistinctByCount(ids);
    if |SetOf(ids)| != |ids| || |ids| != |results| {
      return Failure(DuplicateProjectedIdentity);
    }
    var ownIds := OwnIds(findings, h);
    IdsAreOwn(ids, ownIds);
    if |ids| != |ownIds| || exists id :: id in ids && id !in ownIds {
      return Failure(OwnScopeDisagreement);
    }
    for i := 0 to |findings|
      invariant forall f :: f in findings[..i] && IsOwn(f) ==> Shown(f, raw.results, ids, results, h)
    {
      assert findings[..i + 1] == findings[..i] + [findings[i]];
      if IsOwn(findings[i]) && !Shown(findings[i], raw.results, ids, results, h) {
        return Failure(DistinctFindingsWouldCollapse);
      }
    }
    assert findings[..|findings|] == findings;
    if !CountsConserve(p.counts, findings, raw.results, p) {
      return Failure(InconsistentCounts);
    }
    return Success(|ids|);
  }
}
