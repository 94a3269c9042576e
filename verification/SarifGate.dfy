/**
 * The two decisions taken on a projection: whether it may be uploaded, and, apart from that,
 * whether the triage register adjudicates exactly what it shows.
 */
module SarifGate {
  import opened Wrappers
  import opened Seqs
  import opened Sorting
  import opened Strings
  import opened Counting
  import opened FindingIdentity
  import opened SarifModel
  import opened SarifBuilder
  import opened SarifValidator
  import opened SarifTheorems

  /**
   * Builds, then validates. The validation never finds a fault in what was built: the gate fails
   * where the builder does, or else exactly when there is no own finding to show.
   */
  method BuildGitHubProjection(findings: seq<RawFinding>, log: SarifLog, h: Hashing)
    returns (r: Result<(Projection, nat), Code>)
    requires forall f :: f in findings ==> Parsed(f)
    ensures r.Success? <==> Projectable(findings, log.results, h) && OwnIds(findings, h) != {}
    ensures r.Success? ==> r.value.0 == ProjectionOf(findings, log, h) && r.value.1 == |OwnIds(findings, h)|
    ensures r == Failure(EmptyProjection) <==> Projectable(findings, log.results, h) && OwnIds(findings, h) == {}
    ensures r.Failure? && r.error != EmptyProjection ==> Explains(r.error, findings, log.results, h)
  {
    hide Projectable, OwnIds, ProjectionOf, Distinct, InOrderSubset, CountsConserve, Shown;
    var built := ProjectDistinctOwnCode(findings, log, h);
    if built.Failure? {
      NeverEmpty(built.error, findings, log.results, h);
      return Failure(built.error);
    }
    BuiltIsAccepted(findings, log, h);
    var p := built.value;
    var valid := ValidateProjectionIntegrity(findings, log, p, h);
    if valid.Failure? {
      return Failure(valid.error);
    }
    DistinctByCount(IdsOf(p.projected));
    return Success((p, valid.value));
  }

  lemma NeverEmpty(code: Code, findings: seq<RawFinding>, results: seq<SarifResult>, h: Hashing)
    requires Explains(code, findings, results, h)
    ensures code != EmptyProjection
  {
  }

  // ----- the triage register ----------------------------------------------------------------

  datatype TriageComparison = TriageComparison(
    complete: bool, triageEntries: nat, projected: nat, matched: int, untriaged: seq<string>, stale: seq<string>)

  function Within(ids: seq<string>): string -> bool { id => id in ids }

  /** The elements of one list that are not in the other, sorted. */
  function Missing(s: seq<string>, t: seq<string>): seq<string> {
    StableSort(WithKey(s, Within(t), false), StringLeq)
  }

  /** The comparison; None where an identity is projected twice. */
  function CompareWithTriage(ids: seq<string>, triage: seq<string>): Option<TriageComparison> {
    if |SetOf(ids)| != |ids| then None
    else
      var untriaged, stale := Missing(ids, triage), Missing(triage, ids);
      Some(TriageComparison(untriaged == [] && stale == [], |triage|, |ids|, |ids| - |untriaged|, untriaged, stale))
  }

  lemma {:induction false} PartsAddUp(s: seq<string>, key: string -> bool)
    ensures |WithKey(s, key, true)| + |WithKey(s, key, false)| == |s|
  {
    if s != [] {
      var init, x := s[..|s| - 1], s[|s| - 1];
      assert s == init + [x];
      PartsAddUp(init, key);
      WithKeySnoc(init, x, key, true);
      WithKeySnoc(init, x, key, false);
      if key(x) {
        assert |WithKey(s, key, true)| == |WithKey(init, key, true)| + 1;
        assert |WithKey(s, key, false)| == |WithKey(init, key, false)|;
      } else {
        assert |WithKey(s, key, true)| == |WithKey(init, key, true)|;
        assert |WithKey(s, key, false)| == |WithKey(init, key, false)| + 1;
      }
    }
  }

  lemma {:induction false} PartDistinct(s: seq<string>, key: string -> bool, k: bool)
    requires Distinct(s)
    ensures Distinct(WithKey(s, key, k))
  {
    if s != [] {
      var init, x := s[..|s| - 1], s[|s| - 1];
      assert s == init + [x];
      PartDistinct(init, key, k);
      WithKeyMembers(init, key, k);
      DistinctSnoc(init, x);
      DistinctSnoc(WithKey(init, key, k), x);
      assert WithKey(init, key, k) + [] == WithKey(init, key, k);
    }
  }

  lemma MissingMeans(s: seq<string>, t: seq<string>)
    ensures forall id :: id in Missing(s, t) <==> id in s && id !in t
    ensures |Missing(s, t)| + |WithKey(s, Within(t), true)| == |s|
  {
    hide StableSort, WithKey, StringLeq;
    var part := WithKey(s, Within(t), false);
    WithKeyMembers(s, Within(t), false);
    SortPermutes(part, StringLeq);
    SameMembers(part, Missing(s, t));
    PartsAddUp(s, Within(t));
  }

  /** Distinct lists have equally many elements in common, seen from either. */
  lemma CommonElements(s: seq<string>, t: seq<string>)
    requires Distinct(s) && Distinct(t)
    ensures |WithKey(s, Within(t), true)| == |WithKey(t, Within(s), true)|
  {
    hide WithKey, Distinct;
    var a, b := WithKey(s, Within(t), true), WithKey(t, Within(s), true);
    PartDistinct(s, Within(t), true);
    PartDistinct(t, Within(s), true);
    WithKeyMembers(s, Within(t), true);
    WithKeyMembers(t, Within(s), true);
    DistinctSameSet(a, b);
    SameMembers(a, b);
  }

  /**
   * What a comparison says: it is complete exactly when projected and adjudicated identities are the
   * same set; the two lists name exactly the differences; and both sides' counts add up.
   */
  lemma ComparisonMeans(ids: seq<string>, triage: seq<string>)
    requires Distinct(ids) && Distinct(triage)
    ensures CompareWithTriage(ids, triage).Some?
    ensures var c := CompareWithTriage(ids, triage).value;
            && (c.complete <==> SetOf(ids) == SetOf(triage))
            && (forall id :: id in c.untriaged <==> id in ids && id !in triage)
            && (forall id :: id in c.stale <==> id in triage && id !in ids)
            && c.matched + |c.untriaged| == c.projected == |ids|
            && c.matched + |c.stale| == c.triageEntries == |triage|
  {
    hide Missing, WithKey, Distinct;
    DistinctByCount(ids);
    MissingMeans(ids, triage);
    MissingMeans(triage, ids);
    CommonElements(ids, triage);
    var untriaged, stale := Missing(ids, triage), Missing(triage, ids);
    if untriaged != [] { HeadIsMember(untriaged); }
    if stale != [] { HeadIsMember(stale); }
    assert forall id :: id in ids <==> id in SetOf(ids);
    assert forall id :: id in triage <==> id in SetOf(triage);
  }

  /** The order in which identities are projected shows nowhere in the comparison. */
  lemma ComparisonAnyOrder(ids: seq<string>, jds: seq<string>, triage: seq<string>)
    requires multiset(ids) == multiset(jds) && Distinct(ids)
    ensures CompareWithTriage(ids, triage) == CompareWithTriage(jds, triage)
  {
    hide WithKey, StableSort, StringLeq;
    SameMembers(ids, jds);
    PermutationKeepsDistinct(ids, jds);
    DistinctByCount(ids);
    DistinctByCount(jds);
    PartDistinct(ids, Within(triage), false);
    PartDistinct(jds, Within(triage), false);
    WithKeyMembers(ids, Within(triage), false);
    WithKeyMembers(jds, Within(triage), false);
    var a, b := WithKey(ids, Within(triage), false), WithKey(jds, Within(triage), false);
    DistinctSameSet(a, b);
    SortedStringsDetermined(a, b);
    SameKey(triage, Within(ids), Within(jds));
  }

  lemma {:induction false} SameKey(s: seq<string>, key: string -> bool, other: string -> bool)
    requires forall x :: key(x) == other(x)
    ensures WithKey(s, key, false) == WithKey(s, other, false)
  {
    if s != [] {
      SameKey(s[..|s| - 1], key, other);
    }
  }

  /** For a projection the gate accepts: the register is complete exactly when it adjudicates the own findings' identities. */
  lemma CompleteMeansOwnAdjudicated(findings: seq<RawFinding>, raw: SarifLog, p: Projection, h: Hashing, triage: seq<string>)
    requires ValidationOf(findings, raw, p, h).Success? && Distinct(triage)
    ensures CompareWithTriage(IdsOf(p.projected), triage).Some?
    ensures CompareWithTriage(IdsOf(p.projected), triage).value.complete <==> SetOf(triage) == OwnIds(findings, h)
  {
    hide CompareWithTriage, OwnIds, Distinct, InOrderSubset, CountsConserve, Shown;
    ComparisonMeans(IdsOf(p.projected), triage);
  }
}
