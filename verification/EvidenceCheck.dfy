/** A reproducibility manifest held against the facts replayed from its evidence. */
module EvidenceCheck {
  import opened Wrappers
  import opened Cbor
  import opened MetadataBoundary
  import opened ImmutableAuthority
  import opened BytecodeReplay

  datatype Json =
    | JNull
    | JBool(b: bool)
    | JNum(n: int)
    | JStr(s: string)
    | JArr(items: seq<Json>)
    | JObj(fields: map<string, Json>)

  type Manifest = map<string, Json>

  /** `Earlier` stands for the errors of the identity, hash, git and constructor-argument checks. */
  datatype CheckError =
    | Earlier(message: string)
    | AuthorityFailure(e: AuthorityError)
    | LiveUndecoded(reason: BoundaryError)
    | LocalUndecoded(reason: BoundaryError)
    | BoundariesDisagree
    | FieldDisagrees(field: string)
    | OutsideExclusions(offsets: seq<nat>)
    | ImmutableMismatch(astId: string)
    | ArtifactManifestMissing

  datatype CheckResult = CheckResult(ok: bool, errors: seq<CheckError>, facts: Facts)

  predicate Says(m: Manifest, field: string, v: Json) {
    field in m && m[field] == v
  }

  /** The artifact manifest's fields, when it is an object; an array is one too, with no named field. */
  function ArtifactManifest(m: Manifest): Option<Manifest> {
    if "artifactManifest" !in m then None
    else
      match m["artifactManifest"]
      case JObj(fields) => Some(fields)
      case JArr(_) => Some(map[])
      case _ => None
  }

  /** Differing offsets outside both the live metadata region and every authorized range. */
  function OutsideOffsets(f: Facts, ranges: seq<ByteRange>): (outside: seq<nat>)
    requires f.liveBoundary.Accepted?
    ensures outside == [] <==> forall o :: o in f.rawDiffOffsets ==> InRegion(o, f.liveBoundary) || InAnyRange(o, ranges)
  {
    Outside(f.rawDiffOffsets, f.liveBoundary, ranges)
  }

  predicate InRegion(o: nat, b: Boundary)
    requires b.Accepted?
  {
    b.regionStart <= o < b.regionStart + b.regionSize
  }

  function Outside(offsets: seq<nat>, b: Boundary, ranges: seq<ByteRange>): (outside: seq<nat>)
    requires b.Accepted?
    ensures outside == [] <==> forall o :: o in offsets ==> InRegion(o, b) || InAnyRange(o, ranges)
  {
    if offsets == [] then []
    else
      assert offsets == [offsets[0]] + offsets[1..];
      (if InRegion(offsets[0], b) || InAnyRange(offsets[0], ranges) then [] else [offsets[0]]) +
      Outside(offsets[1..], b, ranges)
  }

  // ----- what an accepted manifest says -----------------------------------------------------

  ghost predicate ArtifactAgrees(f: Facts, am: Manifest, ev: Evidence) {
    && Says(am, "executableBytecodeMatch", JBool(f.executableBytecodeMatch))
    && Says(am, "metadataHashMatch", JBool(f.metadataHashMatch))
    && (!f.metadataHashMatch ==>
          && Says(am, "metadataTrailerBytesExcluded", JNum(f.metadataTrailerBytesExcluded))
          && (f.boundariesAgree && f.liveBoundary.Accepted? ==> Contained(f, ev)))
    && Says(am, "bytecodeHash", JStr(f.normalizedBytecodeHash))
    && (f.immutableValuesVerified.Some? ==>
          && Says(am, "immutableValuesIndependentlyVerified", JBool(f.immutableValuesVerified.value))
          && forall r :: r in f.immutableResults ==> r.matches)
  }

  /** Every differing byte is metadata's or an authorized immutable's. */
  ghost predicate Contained(f: Facts, ev: Evidence)
    requires f.liveBoundary.Accepted?
  {
    var ranges := if f.authorityOk then RangesOf(Flatten(ev.refs)) else [];
    forall o :: o in f.rawDiffOffsets ==> InRegion(o, f.liveBoundary) || InAnyRange(o, ranges)
  }

  ghost predicate SizesAgree(f: Facts, m: Manifest) {
    && Says(m, "observedRuntimeBytes", JNum(f.observedRuntimeBytes))
    && Says(m, "publicHeadRuntimeBytes", JNum(f.publicHeadRuntimeBytes))
    && Says(m, "reportedCommitRuntimeBytes", JNum(f.reportedCommitRuntimeBytes))
  }

  ghost predicate Agrees(f: Facts, m: Manifest, ev: Evidence) {
    && f.authorityOk
    && f.liveBoundary.Accepted? && f.localBoundary.Accepted? && f.boundariesAgree
    && SizesAgree(f, m)
    && match ArtifactManifest(m)
       case Some(am) => ArtifactAgrees(f, am, ev)
       case None => !Says(m, "reproducibilityStatus", JStr("reproducible"))
  }

  // ----- the check --------------------------------------------------------------------------

  method CheckSizes(f: Facts, m: Manifest) returns (errors: seq<CheckError>)
    ensures errors == [] <==> SizesAgree(f, m)
  {
    errors := [];
    if !Says(m, "observedRuntimeBytes", JNum(f.observedRuntimeBytes)) {
      errors := errors + [FieldDisagrees("observedRuntimeBytes")];
    }
    if !Says(m, "publicHeadRuntimeBytes", JNum(f.publicHeadRuntimeBytes)) {
      errors := errors + [FieldDisagrees("publicHeadRuntimeBytes")];
    }
    if !Says(m, "reportedCommitRuntimeBytes", JNum(f.reportedCommitRuntimeBytes)) {
      errors := errors + [FieldDisagrees("reportedCommitRuntimeBytes")];
    }
  }

  method CheckBoundaries(f: Facts) returns (errors: seq<CheckError>)
    ensures errors == [] <==>
            f.liveBoundary.Accepted? && f.localBoundary.Accepted? && f.boundariesAgree
  {
    errors := [];
    if f.liveBoundary.Rejected? {
      errors := errors + [LiveUndecoded(f.liveBoundary.error)];
    }
    if f.localBoundary.Rejected? {
      errors := errors + [LocalUndecoded(f.localBoundary.error)];
    }
    if f.liveBoundary.Accepted? && f.localBoundary.Accepted? && !f.boundariesAgree {
      errors := errors + [BoundariesDisagree];
    }
  }

  method CheckImmutables(f: Facts, am: Manifest) returns (errors: seq<CheckError>)
    ensures errors == [] <==>
            (f.immutableValuesVerified.Some? ==>
               && Says(am, "immutableValuesIndependentlyVerified", JBool(f.immutableValuesVerified.value))
               && forall r :: r in f.immutableResults ==> r.matches)
  {
    errors := [];
    if f.immutableValuesVerified.Some? {
      if !Says(am, "immutableValuesIndependentlyVerified", JBool(f.immutableValuesVerified.value)) {
        errors := [FieldDisagrees("immutableValuesIndependentlyVerified")];
      }
      ghost var fieldOk := errors == [];
      for i := 0 to |f.immutableResults|
        invariant errors == [] <==> fieldOk && forall r :: r in f.immutableResults[..i] ==> r.matches
      {
        var r := f.immutableResults[i];
        assert f.immutableResults[..i + 1] == f.immutableResults[..i] + [r];
        if !r.matches {
          errors := errors + [ImmutableMismatch(r.astId)];
        }
      }
      assert f.immutableResults[..|f.immutableResults|] == f.immutableResults;
    }
  }

  method CheckArtifact(f: Facts, am: Manifest, ev: Evidence) returns (errors: seq<CheckError>)
    requires f.boundariesAgree ==> f.liveBoundary.Accepted?
    ensures errors == [] <==> ArtifactAgrees(f, am, ev)
  {
    hide Flatten, InAnyRange;
    errors := [];
    if !Says(am, "executableBytecodeMatch", JBool(f.executableBytecodeMatch)) {
      errors := errors + [FieldDisagrees("executableBytecodeMatch")];
    }
    if !Says(am, "metadataHashMatch", JBool(f.metadataHashMatch)) {
      errors := errors + [FieldDisagrees("metadataHashMatch")];
    }
    if !f.metadataHashMatch {
      if !Says(am, "metadataTrailerBytesExcluded", JNum(f.metadataTrailerBytesExcluded)) {
        errors := errors + [FieldDisagrees("metadataTrailerBytesExcluded")];
      }
      if f.boundariesAgree {
        var flat := FlattenImmutableRanges(ev.refs);
        var outside := OutsideOffsets(f, if f.authorityOk then RangesOf(flat) else []);
        if outside != [] {
          errors := errors + [OutsideExclusions(outside)];
        }
      }
    }
    if !Says(am, "bytecodeHash", JStr(f.normalizedBytecodeHash)) {
      errors := errors + [FieldDisagrees("bytecodeHash")];
    }
    var immutables := CheckImmutables(f, am);
    errors := errors + immutables;
  }

  /** The check: ok exactly when nothing failed before and the manifest agrees with every replayed fact. */
  method CheckEvidenceAgainstManifest(live: array<byte>, local: array<byte>, head: array<byte>, ev: Evidence,
                                      m: Manifest, keccak: Bytes -> string, earlier: seq<CheckError>)
    returns (r: Option<CheckResult>)
    ensures r.Some? <==> Replayable(local[..], ev)
    ensures r.Some? ==>
              && r.value.facts == FactsOf(live[..], local[..], head.Length, ev, keccak)
              && (r.value.ok <==> r.value.errors == [])
              && (r.value.ok <==> earlier == [] && Agrees(r.value.facts, m, ev))
  {
    hide FactsOf, Replayable, ArtifactAgrees, SizesAgree, Authorized, Justified;
    var errors := earlier;
    var facts, authorityErrors := DeriveFacts(live, local, head, ev, keccak);
    if facts.None? {
      return None;
    }
    var f := facts.value;
    FactsBasics(live[..], local[..], head.Length, ev, keccak);
    errors := errors + seq(|authorityErrors|, i requires 0 <= i < |authorityErrors| => AuthorityFailure(authorityErrors[i]));
    var boundaryErrors := CheckBoundaries(f);
    var sizeErrors := CheckSizes(f, m);
    errors := errors + boundaryErrors + sizeErrors;
    match ArtifactManifest(m) {
      case Some(am) =>
        var artifactErrors := CheckArtifact(f, am, ev);
        errors := errors + artifactErrors;
      case None =>
        if Says(m, "reproducibilityStatus", JStr("reproducible")) {
          errors := errors + [ArtifactManifestMissing];
        }
    }
    return Some(CheckResult(errors == [], errors, f));
  }

  lemma FactsBasics(live: Bytes, local: Bytes, headSize: nat, ev: Evidence, keccak: Bytes -> string)
    ensures var f := FactsOf(live, local, headSize, ev, keccak);
            && (f.authorityOk <==> Authorized(ev.Claims(), local))
            && f.liveBoundary == DecodeBoundary(live) && f.localBoundary == DecodeBoundary(local)
            && (f.boundariesAgree <==> BoundariesAgree(f.liveBoundary, f.localBoundary))
            && (|live| == |local| ==> f.rawDiffOffsets == DiffOffsets(live, local, |live|))
  {
  }

  // ----- what acceptance gives --------------------------------------------------------------

  /** An agreeing manifest has both metadata regions decoded, and at the same place. */
  lemma AgreementLocatesMetadata(live: Bytes, local: Bytes, headSize: nat, ev: Evidence, keccak: Bytes -> string, m: Manifest)
    requires Agrees(FactsOf(live, local, headSize, ev, keccak), m, ev)
    ensures |live| == |local|
    ensures DecodeBoundary(live).Accepted? && DecodeBoundary(local).Accepted?
    ensures DecodeBoundary(live).regionStart == DecodeBoundary(local).regionStart
    ensures DecodeBoundary(live).regionSize == DecodeBoundary(local).regionSize
  {
    hide FactsOf, DecodeBoundary, Authorized;
    FactsBasics(live, local, headSize, ev, keccak);
    AgreementForcesEqualSizes(live, local);
  }

  /**
   * An agreeing artifact manifest that admits a metadata mismatch claims an executable match, and
   * rightly: outside metadata and the authorized immutables the two sides are byte-identical.
   */
  lemma MetadataMismatchForcesExecutableMatch(
      live: Bytes, local: Bytes, headSize: nat, ev: Evidence, keccak: Bytes -> string, m: Manifest)
    requires Agrees(FactsOf(live, local, headSize, ev, keccak), m, ev)
    requires ArtifactManifest(m).Some? && !Says(ArtifactManifest(m).value, "metadataHashMatch", JBool(true))
    ensures Says(ArtifactManifest(m).value, "executableBytecodeMatch", JBool(true))
    ensures |live| == |local|
    ensures forall o: nat | o < |live| && o < DecodeBoundary(live).regionStart ::
              live[o] == local[o] || InAnyRange(o, RangesOf(Flatten(ev.refs)))
  {
    hide FactsOf, DecodeBoundary, Authorized, Flatten, InAnyRange;
    var f := FactsOf(live, local, headSize, ev, keccak);
    FactsBasics(live, local, headSize, ev, keccak);
    AgreementLocatesMetadata(live, local, headSize, ev, keccak, m);
    ExecutableMatchMeans(live, local, headSize, ev, keccak);
    forall o: nat | o < |live| && live[o] != local[o]
      ensures InAnyRange(o, RangesOf(Flatten(ev.refs))) || o >= f.liveBoundary.regionStart
    {
      assert o in f.rawDiffOffsets;
    }
  }

  /**
   * An agreeing manifest states the true sizes, and has an artifact manifest if it calls itself
   * reproducible.
   */
  lemma AgreementStatesSizes(live: Bytes, local: Bytes, headSize: nat, ev: Evidence, keccak: Bytes -> string, m: Manifest)
    requires Agrees(FactsOf(live, local, headSize, ev, keccak), m, ev)
    ensures Says(m, "observedRuntimeBytes", JNum(|live|)) && Says(m, "reportedCommitRuntimeBytes", JNum(|local|))
    ensures Says(m, "publicHeadRuntimeBytes", JNum(headSize))
    ensures Says(m, "reproducibilityStatus", JStr("reproducible")) ==>
              "artifactManifest" in m && (m["artifactManifest"].JObj? || m["artifactManifest"].JArr?)
  {
    hide DecodeBoundary, Authorized, Flatten, DiffOffsets, Masked, ImmutableResults, Contained;
  }

  /**
   * An agreeing artifact manifest's hash is that of the local buffer with the authorized bytes and the
   * metadata zeroed, and if any immutable is declared it says, rightly, that each one's word is derived,
   * pinned and stands at its occurrences.
   */
  lemma AgreementStatesHashAndWords(
      live: Bytes, local: Bytes, headSize: nat, ev: Evidence, keccak: Bytes -> string, m: Manifest, masked: Bytes)
    requires Agrees(FactsOf(live, local, headSize, ev, keccak), m, ev) && ArtifactManifest(m).Some?
    requires |masked| == |local| && DecodeBoundary(local).Accepted?
    requires forall o: nat :: o < |masked| ==>
               masked[o] == if InAnyRange(o, RangesOf(Flatten(ev.refs))) || o >= DecodeBoundary(local).regionStart
                            then 0 else local[o]
    ensures Says(ArtifactManifest(m).value, "bytecodeHash", JStr(keccak(masked)))
    ensures ev.identities != [] ==>
              && Says(ArtifactManifest(m).value, "immutableValuesIndependentlyVerified", JBool(true))
              && forall i :: i in ev.identities ==> WordStands(live, ev.refs, i)
  {
    hide FactsOf, DecodeBoundary, Authorized, Flatten, InAnyRange, WordStands, Contained;
    FactsBasics(live, local, headSize, ev, keccak);
    NormalizedHashMeans(live, local, headSize, ev, keccak, masked);
    VerifiedWhenClaimed(live, local, headSize, ev, keccak);
    if ev.identities != [] {
      ImmutablesVerifiedMeans(live, local, headSize, ev, keccak);
    }
  }

  /**
   * What an agreeing artifact manifest's two booleans and, where it admits a metadata mismatch, its
   * trailer count say of the bytes: they are the truth about the buffers.
   */
  lemma AgreementIsTruth(live: Bytes, local: Bytes, headSize: nat, ev: Evidence, keccak: Bytes -> string, m: Manifest)
    requires Agrees(FactsOf(live, local, headSize, ev, keccak), m, ev) && ArtifactManifest(m).Some?
    ensures var am, b := ArtifactManifest(m).value, DecodeBoundary(live);
            && b.Accepted? && |live| == |local|
            && (Says(am, "executableBytecodeMatch", JBool(true)) <==>
                forall o: nat :: o < b.regionStart && o < |live| && live[o] != local[o] ==>
                  InAnyRange(o, RangesOf(Flatten(ev.refs))))
            && (Says(am, "metadataHashMatch", JBool(true)) <==>
                forall o: nat :: b.regionStart <= o < |live| ==> live[o] == local[o])
            && (!Says(am, "metadataHashMatch", JBool(true)) ==>
                Says(am, "metadataTrailerBytesExcluded", JNum(|MetadataDiffs(live, local, b.regionStart)|)))
  {
    hide FactsOf, DecodeBoundary, Authorized, Flatten, InAnyRange, DiffOffsets, MetadataDiffs;
    var f := FactsOf(live, local, headSize, ev, keccak);
    FactsBasics(live, local, headSize, ev, keccak);
    AgreementLocatesMetadata(live, local, headSize, ev, keccak, m);
    ExecutableMatchMeans(live, local, headSize, ev, keccak);
    TrailerCountMeans(live, local, headSize, ev, keccak);
    MetadataMatchIsSuffixEquality(live, local, headSize, ev, keccak);
  }

  lemma MetadataMatchIsSuffixEquality(live: Bytes, local: Bytes, headSize: nat, ev: Evidence, keccak: Bytes -> string)
    requires BoundariesAgree(DecodeBoundary(live), DecodeBoundary(local))
    ensures |live| == |local|
    ensures FactsOf(live, local, headSize, ev, keccak).metadataHashMatch <==>
            forall o: nat :: DecodeBoundary(live).regionStart <= o < |live| ==> live[o] == local[o]
  {
    hide DecodeBoundary, Authorized, Flatten, InAnyRange, DiffOffsets, Masked, ImmutableResults;
    AgreementForcesEqualSizes(live, local);
    AcceptedRegionEndsTheBuffer(live);
    SuffixesEqual(live, local, DecodeBoundary(live).regionStart);
  }

  // ----- what can be accepted ---------------------------------------------------------------

  /** The artifact manifest that says what the replay found. */
  function TruthfulArtifact(f: Facts): (am: Manifest)
    ensures Says(am, "executableBytecodeMatch", JBool(f.executableBytecodeMatch))
    ensures Says(am, "metadataHashMatch", JBool(f.metadataHashMatch))
    ensures Says(am, "metadataTrailerBytesExcluded", JNum(f.metadataTrailerBytesExcluded))
    ensures Says(am, "bytecodeHash", JStr(f.normalizedBytecodeHash))
    ensures Says(am, "immutableValuesIndependentlyVerified", JBool(f.immutableValuesVerified == Some(true)))
  {
    map["executableBytecodeMatch" := JBool(f.executableBytecodeMatch),
        "metadataHashMatch" := JBool(f.metadataHashMatch),
        "metadataTrailerBytesExcluded" := JNum(f.metadataTrailerBytesExcluded),
        "bytecodeHash" := JStr(f.normalizedBytecodeHash),
        "immutableValuesIndependentlyVerified" := JBool(f.immutableValuesVerified == Some(true))]
  }

  function TruthfulManifest(f: Facts): (m: Manifest)
    ensures SizesAgree(f, m) && ArtifactManifest(m) == Some(TruthfulArtifact(f))
  {
    map["observedRuntimeBytes" := JNum(f.observedRuntimeBytes),
        "publicHeadRuntimeBytes" := JNum(f.publicHeadRuntimeBytes),
        "reportedCommitRuntimeBytes" := JNum(f.reportedCommitRuntimeBytes),
        "artifactManifest" := JObj(TruthfulArtifact(f))]
  }

  /**
   * Some artifact manifest agrees with the evidence exactly when the claims are authorized, the two
   * boundaries agree, the metadata is equal or else everything before it is, the authorized
   * immutables aside, and every identity's word stands where it must: then the truthful one does.
   */
  lemma EvidenceThatCanAgree(live: Bytes, local: Bytes, headSize: nat, ev: Evidence, keccak: Bytes -> string)
    ensures var f, b := FactsOf(live, local, headSize, ev, keccak), DecodeBoundary(live);
            (exists m :: ArtifactManifest(m).Some? && Agrees(f, m, ev)) <==>
              && Authorized(ev.Claims(), local) && BoundariesAgree(b, DecodeBoundary(local))
              && (|| (forall o: nat :: b.regionStart <= o < |live| ==> live[o] == local[o])
                  || (forall o: nat :: o < b.regionStart && o < |live| && live[o] != local[o] ==>
                        InAnyRange(o, RangesOf(Flatten(ev.refs)))))
              && forall i :: i in ev.identities ==> WordStands(live, ev.refs, i)
  {
    hide FactsOf, DecodeBoundary, Authorized, Flatten, InAnyRange, DiffOffsets, Agrees, BoundariesAgree, ArtifactManifest,
      WordStands;
    var f, b := FactsOf(live, local, headSize, ev, keccak), DecodeBoundary(live);
    FactsBasics(live, local, headSize, ev, keccak);
    if BoundariesAgree(b, DecodeBoundary(local)) && Authorized(ev.Claims(), local) {
      AgreementForcesEqualSizes(live, local);
      MetadataMatchIsSuffixEquality(live, local, headSize, ev, keccak);
      ContainedMeans(live, local, headSize, ev, keccak);
    }
    TruthAgrees(f, ev);
    if m :| ArtifactManifest(m).Some? && Agrees(f, m, ev) {
      OnlyAcceptableAgree(f, m, ev);
    }
    VerifiedWhenClaimed(live, local, headSize, ev, keccak);
    if ev.identities != [] {
      ImmutablesVerifiedMeans(live, local, headSize, ev, keccak);
    }
  }

  ghost predicate Acceptable(f: Facts, ev: Evidence) {
    && f.authorityOk && f.boundariesAgree && f.liveBoundary.Accepted? && f.localBoundary.Accepted?
    && (f.metadataHashMatch || Contained(f, ev))
    && (f.immutableValuesVerified.Some? ==> forall r :: r in f.immutableResults ==> r.matches)
  }

  lemma TruthAgrees(f: Facts, ev: Evidence)
    ensures Acceptable(f, ev) && (f.immutableValuesVerified.Some? ==> f.immutableValuesVerified.value) ==>
              Agrees(f, TruthfulManifest(f), ev) && ArtifactManifest(TruthfulManifest(f)).Some?
  {
    hide Contained, SizesAgree, Says, TruthfulArtifact, ArtifactManifest, TruthfulManifest;
    var am := TruthfulArtifact(f);
    var m := TruthfulManifest(f);
  }

  lemma OnlyAcceptableAgree(f: Facts, m: Manifest, ev: Evidence)
    requires ArtifactManifest(m).Some? && Agrees(f, m, ev)
    ensures Acceptable(f, ev)
  {
    hide Contained, SizesAgree, Says, ArtifactManifest;
  }

  lemma VerifiedWhenClaimed(live: Bytes, local: Bytes, headSize: nat, ev: Evidence, keccak: Bytes -> string)
    ensures var f := FactsOf(live, local, headSize, ev, keccak);
            && (f.immutableValuesVerified.Some? <==> ev.identities != [])
            && (f.immutableValuesVerified.Some? ==>
                  (f.immutableValuesVerified.value <==> f.authorityOk && forall r :: r in f.immutableResults ==> r.matches))
            && (f.boundariesAgree ==> f.liveBoundary.Accepted? && f.localBoundary.Accepted?)
  {
  }

  lemma ContainedMeans(live: Bytes, local: Bytes, headSize: nat, ev: Evidence, keccak: Bytes -> string)
    requires Authorized(ev.Claims(), local) && BoundariesAgree(DecodeBoundary(live), DecodeBoundary(local))
    ensures |live| == |local| && DecodeBoundary(live).Accepted?
    ensures Contained(FactsOf(live, local, headSize, ev, keccak), ev) <==>
            forall o: nat :: o < DecodeBoundary(live).regionStart && o < |live| && live[o] != local[o] ==>
              InAnyRange(o, RangesOf(Flatten(ev.refs)))
  {
    hide FactsOf, DecodeBoundary, Authorized, Flatten, InAnyRange;
    var f := FactsOf(live, local, headSize, ev, keccak);
    FactsBasics(live, local, headSize, ev, keccak);
    AgreementForcesEqualSizes(live, local);
    AcceptedRegionEndsTheBuffer(live);
    assert forall o :: o in f.rawDiffOffsets <==> 0 <= o < |live| && live[o] != local[o];
  }
}
