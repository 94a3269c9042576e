/**
 * What the builder and the validator give together: acceptance, conservation across the two raw
 * outputs, independence from the scanner's order, and agreement of any two accepted projections.
 */
module SarifProperties {
  import opened Wrappers
  import opened Seqs
  import opened Counting
  import opened FindingIdentity
  import opened SarifModel
  import opened SarifValidator

  // ----- the pass, characterised ------------------------------------------------------------

  function OwnershipAt(findings: seq<RawFinding>, r: SarifResult): Option<Ownership> {
    match FindingFor(findings, r) case None => None case Some(f) => Some(OwnershipOf(f.finding))
  }

  function IdAt(findings: seq<RawFinding>, r: SarifResult, h: Hashing): string {
    match FindingFor(findings, r) case None => "" case Some(f) => SemanticId(f.finding, h)
  }

  function Has(findings: seq<RawFinding>, o: Ownership): SarifResult -> bool {
    r => OwnershipAt(findings, r) == Some(o)
  }

  function OwnWith(findings: seq<RawFinding>, id: string, h: Hashing): SarifResult -> bool {
    r => OwnershipAt(findings, r) == Some(Own) && IdAt(findings, r, h) == id
  }

  function SumInstances(projected: seq<ProjectedIdentity>): nat {
    if projected == [] then 0 else projected[0].instances + SumInstances(projected[1..])
  }

  function SumExcluded(excluded: seq<ExcludedMixed>): nat {
    if excluded == [] then 0 else excluded[0].instances + SumExcluded(excluded[1..])
  }

  /** Each identity stands for an own result: its place, and how many results share it. */
  ghost predicate Describes(p: ProjectedIdentity, r: SarifResult, findings: seq<RawFinding>, rs: seq<SarifResult>, h: Hashing) {
    && OwnershipAt(findings, r) == Some(Own)
    && p == NewIdentity(r, FindingFor(findings, r).value, h).(instances := CountIf(rs, OwnWith(findings, p.semanticId, h)))
  }

  /** The tally of the raw results `rs`. */
  ghost predicate Tallies(t: Tally, findings: seq<RawFinding>, rs: seq<SarifResult>, h: Hashing) {
    && |t.projected| == |t.results|
    && Distinct(IdsOf(t.projected))
    && (forall k :: 0 <= k < |t.results| ==> t.results[k] in rs && Describes(t.projected[k], t.results[k], findings, rs, h))
    && (forall r :: r in rs && OwnershipAt(findings, r) == Some(Own) ==> Emitted(t.projected, IdAt(findings, r, h)))
    && InOrderSubset(t.results, rs)
  }

  ghost predicate Counted(t: Tally, findings: seq<RawFinding>, rs: seq<SarifResult>) {
    && t.dependencyOnly == CountIf(rs, Has(findings, DependencyOnly))
    && t.mixedExcluded == CountIf(rs, Has(findings, MixedDependencyPrimary)) == SumExcluded(t.excluded)
    && SumInstances(t.projected) == CountIf(rs, Has(findings, Own))
  }

  /** Every result has a finding, and none of a kind that may not be dropped or shown. */
  ghost predicate Classified(findings: seq<RawFinding>, rs: seq<SarifResult>) {
    forall r :: r in rs ==> OwnershipAt(findings, r).Some? && OwnershipAt(findings, r) != Some(MixedProjectPrimary)
  }

  function OneMore(p: ProjectedIdentity, id: string): ProjectedIdentity {
    if p.semanticId == id then p.(instances := p.instances + 1) else p
  }

  lemma {:induction false} BumpNone(projected: seq<ProjectedIdentity>, id: string)
    requires id !in IdsOf(projected)
    ensures forall k :: 0 <= k < |projected| ==> OneMore(projected[k], id) == projected[k]
  {
    forall k | 0 <= k < |projected| ensures OneMore(projected[k], id) == projected[k] {
      assert IdsOf(projected)[k] in IdsOf(projected);
    }
  }

  lemma {:induction false} BumpAt(projected: seq<ProjectedIdentity>, id: string)
    requires Distinct(IdsOf(projected)) && id in IdsOf(projected)
    ensures |Bump(projected, id)| == |projected|
    ensures forall k :: 0 <= k < |projected| ==> Bump(projected, id)[k] == OneMore(projected[k], id)
    ensures SumInstances(Bump(projected, id)) == SumInstances(projected) + 1
  {
    hide Distinct;
    var head, rest := projected[0], projected[1..];
    assert IdsOf(projected) == [head.semanticId] + IdsOf(rest);
    DistinctCons(head.semanticId, IdsOf(rest));
    if head.semanticId == id {
      BumpNone(rest, id);
      assert Bump(projected, id)[1..] == rest;
    } else {
      BumpAt(rest, id);
      assert Bump(projected, id)[1..] == Bump(rest, id);
    }
  }

  lemma EmittedIds(projected: seq<ProjectedIdentity>, id: string)
    ensures Emitted(projected, id) <==> id in IdsOf(projected)
  {
    if Emitted(projected, id) {
      var p :| p in projected && p.semanticId == id;
      var k :| 0 <= k < |projected| && projected[k] == p;
      assert IdsOf(projected)[k] == id;
    }
    if id in IdsOf(projected) {
      var k :| 0 <= k < |projected| && IdsOf(projected)[k] == id;
      assert projected[k] in projected;
    }
  }

  lemma {:induction false} SumAppend(a: seq<ProjectedIdentity>, p: ProjectedIdentity)
    ensures SumInstances(a + [p]) == SumInstances(a) + p.instances
  {
    if a == [] {
      assert a + [p] == [p] && [p][1..] == [];
    } else {
      assert (a + [p])[1..] == a[1..] + [p];
      SumAppend(a[1..], p);
    }
  }

  lemma {:induction false} SumExcludedAppend(a: seq<ExcludedMixed>, x: ExcludedMixed)
    ensures SumExcluded(a + [x]) == SumExcluded(a) + x.instances
  {
    if a == [] {
      assert a + [x] == [x] && [x][1..] == [];
    } else {
      assert (a + [x])[1..] == a[1..] + [x];
      SumExcludedAppend(a[1..], x);
    }
  }

  lemma {:induction false} BumpExcludedSum(excluded: seq<ExcludedMixed>, k: Signature)
    requires WasExcluded(excluded, k)
    ensures SumExcluded(BumpExcluded(excluded, k)) == SumExcluded(excluded) + 1
  {
    if excluded[0].signature == k {
      var bumped := excluded[0].(instances := excluded[0].instances + 1);
      assert ([bumped] + excluded[1..])[1..] == excluded[1..];
    } else {
      var x :| x in excluded && x.signature == k;
      assert excluded == [excluded[0]] + excluded[1..];
      assert x in excluded[1..];
      BumpExcludedSum(excluded[1..], k);
      assert ([excluded[0]] + BumpExcluded(excluded[1..], k))[1..] == BumpExcluded(excluded[1..], k);
    }
  }

  lemma CountLast<A>(init: seq<A>, x: A, p: A -> bool)
    ensures CountIf(init + [x], p) == CountIf(init, p) + if p(x) then 1 else 0
  {
    assert (init + [x])[..|init|] == init;
  }

  lemma SubsetGrows<A(!new)>(a: seq<A>, b: seq<A>, x: A)
    requires InOrderSubset(a, b)
    ensures InOrderSubset(a, b + [x]) && InOrderSubset(a + [x], b + [x])
  {
    var places: seq<nat> :| Selects(places, a, b);
    assert Selects(places, a, b + [x]);
    assert Selects(places + [|b|], a + [x], b + [x]);
  }

  lemma TakeCounted(t: Tally, findings: seq<RawFinding>, init: seq<SarifResult>, r: SarifResult, h: Hashing)
    requires Counted(t, findings, init) && FindingFor(findings, r).Some?
    requires OwnershipAt(findings, r) != Some(MixedProjectPrimary)
    requires Distinct(IdsOf(t.projected))
    ensures Counted(Take(t, r, FindingFor(findings, r).value, h), findings, init + [r])
  {
    hide FindingFor, SemanticId, FindingSignature, OwnershipOf, CanonicalLocator, CountIf;
    var f := FindingFor(findings, r).value;
    CountLast(init, r, Has(findings, DependencyOnly));
    CountLast(init, r, Has(findings, MixedDependencyPrimary));
    CountLast(init, r, Has(findings, Own));
    match OwnershipOf(f.finding) {
      case DependencyOnly =>
      case MixedDependencyPrimary =>
        if WasExcluded(t.excluded, FindingSignature(f)) {
          BumpExcludedSum(t.excluded, FindingSignature(f));
        } else {
          SumExcludedAppend(t.excluded, NewExcluded(r, f));
        }
      case Own =>
        if Emitted(t.projected, SemanticId(f.finding, h)) {
          EmittedIds(t.projected, SemanticId(f.finding, h));
          BumpAt(t.projected, SemanticId(f.finding, h));
        } else {
          SumAppend(t.projected, NewIdentity(r, f, h));
        }
    }
  }

  /** A result of no own finding leaves the identities as they are. */
  lemma TakeOther(t: Tally, findings: seq<RawFinding>, init: seq<SarifResult>, r: SarifResult, h: Hashing)
    requires Tallies(t, findings, init, h) && OwnershipAt(findings, r) != Some(Own)
    ensures Tallies(t, findings, init + [r], h)
  {
    hide FindingFor, SemanticId, OwnershipAt, NewIdentity, InOrderSubset, Emitted, CountIf;
    SubsetGrows(t.results, init, r);
    forall k | 0 <= k < |t.results| ensures Describes(t.projected[k], t.results[k], findings, init + [r], h) {
      CountLast(init, r, OwnWith(findings, t.projected[k].semanticId, h));
    }
  }

  lemma TakeRepeated(t: Tally, findings: seq<RawFinding>, init: seq<SarifResult>, r: SarifResult, h: Hashing)
    requires Tallies(t, findings, init, h) && OwnershipAt(findings, r) == Some(Own)
    requires Emitted(t.projected, IdAt(findings, r, h))
    ensures Tallies(t.(projected := Bump(t.projected, IdAt(findings, r, h))), findings, init + [r], h)
  {
    hide FindingFor, SemanticId, OwnershipAt, InOrderSubset, Bump, CountIf, SumInstances, Emitted, Distinct, CanonicalLocator;
    var id := IdAt(findings, r, h);
    var bumped := Bump(t.projected, id);
    EmittedIds(t.projected, id);
    BumpAt(t.projected, id);
    SubsetGrows(t.results, init, r);
    assert IdsOf(bumped) == IdsOf(t.projected);
    forall k | 0 <= k < |t.results| ensures Describes(bumped[k], t.results[k], findings, init + [r], h) {
      CountLast(init, r, OwnWith(findings, t.projected[k].semanticId, h));
    }
    forall x: string ensures Emitted(t.projected, x) <==> Emitted(bumped, x) {
      EmittedIds(t.projected, x);
      EmittedIds(bumped, x);
    }
  }

  lemma NotCounted(t: Tally, findings: seq<RawFinding>, rs: seq<SarifResult>, id: string, h: Hashing)
    requires Tallies(t, findings, rs, h) && !Emitted(t.projected, id)
    ensures CountIf(rs, OwnWith(findings, id, h)) == 0
    ensures id !in IdsOf(t.projected)
  {
    hide FindingFor, SemanticId, OwnershipAt, IdAt, InOrderSubset, CountIf;
    CountNone(rs, OwnWith(findings, id, h));
    forall k | 0 <= k < |t.projected| ensures t.projected[k].semanticId != id {
      assert t.projected[k] in t.projected;
    }
  }

  lemma TakeNew(t: Tally, findings: seq<RawFinding>, init: seq<SarifResult>, r: SarifResult, h: Hashing)
    requires Tallies(t, findings, init, h) && OwnershipAt(findings, r) == Some(Own)
    requires !Emitted(t.projected, IdAt(findings, r, h))
    ensures Tallies(t.(projected := t.projected + [NewIdentity(r, FindingFor(findings, r).value, h)], results := t.results + [r]),
                    findings, init + [r], h)
  {
    hide FindingFor, SemanticId, InOrderSubset, CountIf, CanonicalLocator;
    var id := IdAt(findings, r, h);
    var new_ := NewIdentity(r, FindingFor(findings, r).value, h);
    var projected, results := t.projected + [new_], t.results + [r];
    NotCounted(t, findings, init, id, h);
    SubsetGrows(t.results, init, r);
    assert IdsOf(projected) == IdsOf(t.projected) + [id];
    DistinctSnoc(IdsOf(t.projected), id);
    forall k | 0 <= k < |results| ensures Describes(projected[k], results[k], findings, init + [r], h) {
      CountLast(init, r, OwnWith(findings, projected[k].semanticId, h));
      if k < |t.results| {
        assert IdsOf(t.projected)[k] in IdsOf(t.projected);
      }
    }
    forall x: string | Emitted(t.projected, x) ensures Emitted(projected, x) {
    }
    assert projected[|projected| - 1] == new_ && Emitted(projected, id);
  }

  lemma {:induction false} PassTallies(findings: seq<RawFinding>, rs: seq<SarifResult>, h: Hashing)
    requires Classified(findings, rs)
    ensures Tallies(TallyOf(findings, rs, h), findings, rs, h)
    ensures Counted(TallyOf(findings, rs, h), findings, rs)
  {
    hide FindingFor, SemanticId, OwnershipOf, CanonicalLocator, Tallies, Counted, Bump, Emitted;
    if rs == [] {
      NothingTallied(findings, h);
    } else {
      var init, r := rs[..|rs| - 1], rs[|rs| - 1];
      assert rs == init + [r];
      forall x | x in init ensures x in rs {}
      assert r in rs;
      PassTallies(findings, init, h);
      var t := TallyOf(findings, init, h);
      TalliesDistinct(t, findings, init, h);
      TakeCounted(t, findings, init, r, h);
      if OwnershipAt(findings, r) != Some(Own) {
        TakeOther(t, findings, init, r, h);
        TallyOfOther(t, findings, rs, r, h);
      } else if Emitted(t.projected, IdAt(findings, r, h)) {
        TakeRepeated(t, findings, init, r, h);
      } else {
        TakeNew(t, findings, init, r, h);
      }
    }
  }

  lemma NothingTallied(findings: seq<RawFinding>, h: Hashing)
    ensures Tallies(Tally([], [], [], 0, 0), findings, [], h) && Counted(Tally([], [], [], 0, 0), findings, [])
  {
    assert Selects<SarifResult>([], [], []);
  }

  lemma TalliesDistinct(t: Tally, findings: seq<RawFinding>, rs: seq<SarifResult>, h: Hashing)
    requires Tallies(t, findings, rs, h)
    ensures Distinct(IdsOf(t.projected))
  {
  }

  /** Only the identities and results matter to the tally's meaning. */
  lemma TallyOfOther(t: Tally, findings: seq<RawFinding>, rs: seq<SarifResult>, r: SarifResult, h: Hashing)
    requires Tallies(t, findings, rs, h) && FindingFor(findings, r).Some? && OwnershipAt(findings, r) != Some(Own)
    requires OwnershipAt(findings, r) != Some(MixedProjectPrimary)
    ensures Tallies(Take(t, r, FindingFor(findings, r).value, h), findings, rs, h)
  {
    hide FindingFor, SemanticId, OwnershipOf, CanonicalLocator, InOrderSubset, CountIf;
  }

  // ----- what is left out, finding by finding -----------------------------------------------

  function MixedWith(findings: seq<RawFinding>, k: Signature): SarifResult -> bool {
    (r: SarifResult) => OwnershipAt(findings, r) == Some(MixedDependencyPrimary) && SignatureAt(findings, r) == Some(k)
  }

  function SignatureAt(findings: seq<RawFinding>, r: SarifResult): Option<Signature> {
    match FindingFor(findings, r) case None => None case Some(f) => Some(FindingSignature(f))
  }

  function SignaturesOf(excluded: seq<ExcludedMixed>): (ks: seq<Signature>)
    ensures |ks| == |excluded| && forall i :: 0 <= i < |ks| ==> ks[i] == excluded[i].signature
  {
    seq(|excluded|, i requires 0 <= i < |excluded| => excluded[i].signature)
  }

  /** The entry stands for a mixed result: its place, and how many results share the finding. */
  ghost predicate Excludes(x: ExcludedMixed, r: SarifResult, findings: seq<RawFinding>, rs: seq<SarifResult>) {
    && OwnershipAt(findings, r) == Some(MixedDependencyPrimary)
    && x == NewExcluded(r, FindingFor(findings, r).value).(instances := CountIf(rs, MixedWith(findings, x.signature)))
  }

  ghost predicate IsExclusion(x: ExcludedMixed, findings: seq<RawFinding>, rs: seq<SarifResult>) {
    exists r :: r in rs && Excludes(x, r, findings, rs)
  }

  /** One entry for each signature of a mixed result. */
  ghost predicate Exclusions(excluded: seq<ExcludedMixed>, findings: seq<RawFinding>, rs: seq<SarifResult>) {
    && Distinct(SignaturesOf(excluded))
    && (forall x :: x in excluded ==> IsExclusion(x, findings, rs))
    && forall r :: r in rs && OwnershipAt(findings, r) == Some(MixedDependencyPrimary) ==>
         SignatureAt(findings, r).value in SignaturesOf(excluded)
  }

  function OneMoreExcluded(x: ExcludedMixed, k: Signature): ExcludedMixed {
    if x.signature == k then x.(instances := x.instances + 1) else x
  }

  lemma SignatureListed(excluded: seq<ExcludedMixed>, k: Signature)
    ensures WasExcluded(excluded, k) <==> k in SignaturesOf(excluded)
  {
    if WasExcluded(excluded, k) {
      var x :| x in excluded && x.signature == k;
      var i :| 0 <= i < |excluded| && excluded[i] == x;
      assert SignaturesOf(excluded)[i] == k;
    }
    if k in SignaturesOf(excluded) {
      var i :| 0 <= i < |excluded| && SignaturesOf(excluded)[i] == k;
      assert excluded[i] in excluded;
    }
  }

  lemma {:induction false} BumpExcludedAt(excluded: seq<ExcludedMixed>, k: Signature)
    requires Distinct(SignaturesOf(excluded))
    ensures |BumpExcluded(excluded, k)| == |excluded|
    ensures forall i :: 0 <= i < |excluded| ==> BumpExcluded(excluded, k)[i] == OneMoreExcluded(excluded[i], k)
  {
    hide Distinct, BumpExcluded, SignaturesOf, OneMoreExcluded;
    if excluded == [] {
      BumpExcludedNone(k);
    } else {
      var head, rest := excluded[0], excluded[1..];
      SignaturesCons(excluded);
      DistinctCons(head.signature, SignaturesOf(rest));
      BumpExcludedCons(excluded, k);
      BumpExcludedAt(rest, k);
      if head.signature == k {
        NotAmong(rest, k);
      }
    }
  }

  lemma NotAmong(excluded: seq<ExcludedMixed>, k: Signature)
    requires k !in SignaturesOf(excluded)
    ensures forall i :: 0 <= i < |excluded| ==> OneMoreExcluded(excluded[i], k) == excluded[i]
  {
    forall i | 0 <= i < |excluded| ensures excluded[i].signature != k {
      assert SignaturesOf(excluded)[i] in SignaturesOf(excluded);
    }
  }

  lemma BumpExcludedNone(k: Signature)
    ensures BumpExcluded([], k) == []
  {
  }

  lemma BumpExcludedCons(excluded: seq<ExcludedMixed>, k: Signature)
    requires excluded != []
    ensures BumpExcluded(excluded, k) ==
            [OneMoreExcluded(excluded[0], k)] + if excluded[0].signature == k then excluded[1..] else BumpExcluded(excluded[1..], k)
  {
  }

  lemma SignaturesCons(excluded: seq<ExcludedMixed>)
    requires excluded != []
    ensures SignaturesOf(excluded) == [excluded[0].signature] + SignaturesOf(excluded[1..])
  {
  }

  /** Whatever the next result is, the entries there go on standing for theirs. */
  lemma ExcludesMore(x: ExcludedMixed, r0: SarifResult, findings: seq<RawFinding>, init: seq<SarifResult>, r: SarifResult)
    requires Excludes(x, r0, findings, init)
    ensures Excludes(if MixedWith(findings, x.signature)(r) then OneMoreExcluded(x, x.signature) else x, r0, findings, init + [r])
  {
    hide FindingFor, FindingSignature, CountIf, OwnershipOf, ProjectElements;
    CountLast(init, r, MixedWith(findings, x.signature));
  }

  /** The entries after a result that adds one to those of its signature, if it is mixed. */
  lemma ExcludeAgain(excluded: seq<ExcludedMixed>, findings: seq<RawFinding>, init: seq<SarifResult>, r: SarifResult)
    requires Exclusions(excluded, findings, init) && FindingFor(findings, r).Some?
    ensures OwnershipAt(findings, r) != Some(MixedDependencyPrimary) ==> Exclusions(excluded, findings, init + [r])
    ensures var k := SignatureAt(findings, r).value;
            OwnershipAt(findings, r) == Some(MixedDependencyPrimary) && WasExcluded(excluded, k) ==>
              Exclusions(BumpExcluded(excluded, k), findings, init + [r])
  {
    hide FindingFor, FindingSignature, CountIf, OwnershipAt, Distinct, SignatureAt, BumpExcluded, Excludes, WasExcluded;
    var k := SignatureAtIs(findings, r);
    var mixed := OwnershipAt(findings, r) == Some(MixedDependencyPrimary);
    var after := if mixed then BumpExcluded(excluded, k) else excluded;
    BumpExcludedAt(excluded, k);
    SignatureListed(excluded, k);
    assert SignaturesOf(after) == SignaturesOf(excluded);
    forall y | y in after ensures IsExclusion(y, findings, init + [r]) {
      var i :| 0 <= i < |after| && after[i] == y;
      assert excluded[i] in excluded;
      var r0 :| r0 in init && Excludes(excluded[i], r0, findings, init);
      ExcludesMore(excluded[i], r0, findings, init, r);
      assert MixedWith(findings, excluded[i].signature)(r) <==> mixed && excluded[i].signature == k;
      assert r0 in init + [r];
    }
  }

  lemma SignatureAtIs(findings: seq<RawFinding>, r: SarifResult) returns (k: Signature)
    requires FindingFor(findings, r).Some?
    ensures SignatureAt(findings, r) == Some(k)
  {
    k := FindingSignature(FindingFor(findings, r).value);
  }

  lemma ExcludeNew(excluded: seq<ExcludedMixed>, findings: seq<RawFinding>, init: seq<SarifResult>, r: SarifResult)
    requires Exclusions(excluded, findings, init) && OwnershipAt(findings, r) == Some(MixedDependencyPrimary)
    requires !WasExcluded(excluded, FindingSignature(FindingFor(findings, r).value))
    ensures Exclusions(excluded + [NewExcluded(r, FindingFor(findings, r).value)], findings, init + [r])
  {
    hide FindingFor, FindingSignature, CountIf, Distinct, WasExcluded, OwnershipOf, ProjectElements;
    var f := FindingFor(findings, r).value;
    var k, new_ := FindingSignature(f), NewExcluded(r, f);
    var after := excluded + [new_];
    SignatureListed(excluded, k);
    assert SignaturesOf(after) == SignaturesOf(excluded) + [k];
    DistinctSnoc(SignaturesOf(excluded), k);
    CountNone(init, MixedWith(findings, k));
    CountLast(init, r, MixedWith(findings, k));
    assert Excludes(new_, r, findings, init + [r]);
    forall y | y in excluded ensures IsExclusion(y, findings, init + [r]) {
      var r0 :| r0 in init && Excludes(y, r0, findings, init);
      ExcludesMore(y, r0, findings, init, r);
      var i :| 0 <= i < |excluded| && excluded[i] == y;
      assert SignaturesOf(excluded)[i] == y.signature;
      assert r0 in init + [r];
    }
    assert r in init + [r];
  }

  /** The pass leaves out each mixed finding once, with its place, its project elements and its number of results. */
  lemma {:induction false} PassExcludes(findings: seq<RawFinding>, rs: seq<SarifResult>, h: Hashing)
    requires Classified(findings, rs)
    ensures Exclusions(TallyOf(findings, rs, h).excluded, findings, rs)
  {
    hide FindingFor, SemanticId, OwnershipOf, CanonicalLocator, Exclusions, Emitted, Bump, FindingSignature, BumpExcluded, WasExcluded;
    if rs == [] {
      NothingExcluded(findings);
    } else {
      var init, r := rs[..|rs| - 1], rs[|rs| - 1];
      assert rs == init + [r];
      forall x | x in init ensures x in rs {}
      assert r in rs;
      PassExcludes(findings, init, h);
      var excluded := TallyOf(findings, init, h).excluded;
      ExcludeAgain(excluded, findings, init, r);
      if OwnershipAt(findings, r) == Some(MixedDependencyPrimary) && !WasExcluded(excluded, FindingSignature(FindingFor(findings, r).value)) {
        ExcludeNew(excluded, findings, init, r);
      }
    }
  }

  lemma NothingExcluded(findings: seq<RawFinding>)
    ensures Exclusions([], findings, [])
  {
  }
}
