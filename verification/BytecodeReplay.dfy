/**
 * The replay of a deployment's bytecode claims: every fact recomputed from the live runtime, the
 * deployment commit's build and the declared immutables.
 */
module BytecodeReplay {
  import opened Wrappers
  import opened Cbor
  import opened MetadataBoundary
  import opened ImmutableAuthority
  import opened Seqs

  /** A declared immutable: the word its public inputs derive, none where they throw, and the word the evidence pins. */
  datatype Identity = Identity(astId: string, derived: Option<Bytes>, pinned: Bytes)

  datatype Evidence = Evidence(refs: seq<Reference>, identities: seq<Identity>, astIds: seq<string>) {
    function Claims(): Claims {
      ImmutableAuthority.Claims(refs, seq(|identities|, i requires 0 <= i < |identities| => identities[i].astId), astIds)
    }
  }

  datatype ImmutableResult = ImmutableResult(astId: string, observed: Option<Bytes>, occurrencesAgree: bool, matches: bool)

  datatype Facts = Facts(
    observedRuntimeBytes: nat,
    reportedCommitRuntimeBytes: nat,
    publicHeadRuntimeBytes: nat,
    liveBoundary: Boundary,
    localBoundary: Boundary,
    boundariesAgree: bool,
    authorityOk: bool,
    rawDiffOffsets: seq<nat>,
    metadataTrailerBytesExcluded: nat,
    executableBytecodeMatch: bool,
    metadataHashMatch: bool,
    normalizedBytecodeHash: string,
    immutableResults: seq<ImmutableResult>,
    immutableValuesVerified: Option<bool>)

  // ----- masking ----------------------------------------------------------------------------

  /** A range a buffer of `size` bytes can be filled over; any other makes the fill throw. */
  predicate Fillable(r: ByteRange, size: nat) {
    0 <= r.start && 0 <= r.End() <= size
  }

  function Masked(buf: Bytes, ranges: seq<ByteRange>): (m: Bytes)
    ensures |m| == |buf|
    ensures forall i :: 0 <= i < |buf| ==> m[i] == if InAnyRange(i, ranges) then 0 else buf[i]
  {
    seq(|buf|, i requires 0 <= i < |buf| => if InAnyRange(i, ranges) then 0 else buf[i])
  }

  /** A copy of the buffer with every range zeroed in place, or None where a fill throws. */
  method MaskRanges(buf: array<byte>, ranges: seq<ByteRange>) returns (masked: Option<array<byte>>)
    ensures masked.Some? <==> forall r :: r in ranges ==> Fillable(r, buf.Length)
    ensures masked.Some? ==> fresh(masked.value) && masked.value[..] == Masked(buf[..], ranges)
  {
    var copy := new byte[buf.Length](i requires 0 <= i < buf.Length reads buf => buf[i]);
    for k := 0 to |ranges|
      invariant forall r :: r in ranges[..k] ==> Fillable(r, buf.Length)
      invariant forall i :: 0 <= i < buf.Length ==> copy[i] == if InAnyRange(i, ranges[..k]) then 0 else buf[i]
    {
      assert ranges[..k + 1] == ranges[..k] + [ranges[k]];
      if !Fillable(ranges[k], buf.Length) {
        return None;
      }
      Fill(copy, ranges[k]);
    }
    assert ranges[..|ranges|] == ranges;
    return Some(copy);
  }

  method Fill(buf: array<byte>, r: ByteRange)
    requires Fillable(r, buf.Length)
    modifies buf
    ensures forall i :: 0 <= i < buf.Length ==> buf[i] == if r.Contains(i) then 0 else old(buf[i])
  {
    var i := r.start;
    while i < r.End()
      invariant r.start <= i && (i <= r.End() || i == r.start)
      invariant forall j :: 0 <= j < buf.Length ==> buf[j] == if r.start <= j < i then 0 else old(buf[j])
    {
      buf[i] := 0;
      i := i + 1;
    }
  }

  // ----- the facts, specified ---------------------------------------------------------------

  predicate BoundariesAgree(a: Boundary, b: Boundary) {
    a.Accepted? && b.Accepted? && a.regionStart == b.regionStart && a.regionSize == b.regionSize
  }

  function Selected(refs: seq<Reference>, ids: seq<string>): seq<Reference> {
    if refs == [] then []
    else Selected(refs[..|refs| - 1], ids) + if refs[|refs| - 1].astId in ids then [refs[|refs| - 1]] else []
  }

  /** The references selected are those whose id is listed, in their order. */
  lemma {:induction false} SelectedAre(refs: seq<Reference>, ids: seq<string>)
    ensures forall r :: r in Selected(refs, ids) <==> r in refs && r.astId in ids
  {
    if refs != [] {
      assert refs == refs[..|refs| - 1] + [refs[|refs| - 1]];
      SelectedAre(refs[..|refs| - 1], ids);
    }
  }

  /** The exclusion zones: every reference when the authority holds, else those an identity names. */
  function AuthorizedRanges(c: Claims, authorityOk: bool): seq<ByteRange> {
    RangesOf(Flatten(if authorityOk then c.refs else Selected(c.refs, c.declaredIds)))
  }

  /** The offsets below `n` where the buffers differ, ascending. */
  function DiffOffsets(a: Bytes, b: Bytes, n: nat): (offsets: seq<nat>)
    requires n <= |a| == |b|
    ensures forall o :: o in offsets <==> 0 <= o < n && a[o] != b[o]
  {
    if n == 0 then [] else DiffOffsets(a, b, n - 1) + if a[n - 1] != b[n - 1] then [n - 1] else []
  }

  predicate InMetadata(o: nat, live: Boundary, agree: bool) {
    agree && live.Accepted? && o >= live.regionStart
  }

  /** How many of the offsets only the metadata region accounts for. */
  function TrailerBytes(offsets: seq<nat>, ranges: seq<ByteRange>, live: Boundary, agree: bool): (n: nat)
    ensures n == 0 <==> forall o :: o in offsets ==> !InMetadata(o, live, agree) || InAnyRange(o, ranges)
  {
    if offsets == [] then 0
    else
      var init, o := offsets[..|offsets| - 1], offsets[|offsets| - 1];
      assert offsets == init + [o];
      TrailerBytes(init, ranges, live, agree) + if InMetadata(o, live, agree) && !InAnyRange(o, ranges) then 1 else 0
  }

  predicate AllAccounted(offsets: seq<nat>, ranges: seq<ByteRange>, live: Boundary, agree: bool) {
    forall o :: o in offsets ==> InAnyRange(o, ranges) || InMetadata(o, live, agree)
  }

  function MaskRangesFor(ranges: seq<ByteRange>, b: Boundary, agree: bool): seq<ByteRange> {
    if agree && b.Accepted? then ranges + [ByteRange(b.regionStart, b.regionSize)] else ranges
  }

  /** subarray: bounds are clamped into the buffer, negative ones counted from its end. */
  function Clamp(at: int, size: nat): nat {
    if at < 0 then (if size + at < 0 then 0 else size + at) else if at > size then size else at
  }

  function Subarray(buf: Bytes, from: int, to: int): Bytes {
    var lo, hi := Clamp(from, |buf|), Clamp(to, |buf|);
    if lo <= hi then buf[lo..hi] else []
  }

  function ObservedAt(live: Bytes, r: ByteRange): Bytes {
    Subarray(live, r.start, r.End())
  }

  /** The ranges of the one reference with this id, if any. */
  function RangesFor(refs: seq<Reference>, id: string): seq<ByteRange> {
    if refs == [] then [] else if refs[0].astId == id then refs[0].ranges else RangesFor(refs[1..], id)
  }

  function ImmutableResultOf(live: Bytes, refs: seq<Reference>, i: Identity): ImmutableResult {
    var ranges := RangesFor(refs, i.astId);
    if ranges == [] then ImmutableResult(i.astId, None, false, false)
    else
      var first := ObservedAt(live, ranges[0]);
      var agree := forall r :: r in ranges ==> ObservedAt(live, r) == first;
      ImmutableResult(i.astId, if agree then Some(first) else None, agree,
                      agree && i.derived == Some(i.pinned) && i.derived == Some(first))
  }

  function ImmutableResults(live: Bytes, ev: Evidence): seq<ImmutableResult> {
    seq(|ev.identities|, i requires 0 <= i < |ev.identities| => ImmutableResultOf(live, ev.refs, ev.identities[i]))
  }

  /** Every identity that has a range derives its word. */
  predicate Derivable(ev: Evidence) {
    forall i :: i in ev.identities && RangesFor(ev.refs, i.astId) != [] ==> i.derived.Some?
  }

  ghost predicate RangesFit(local: Bytes, ev: Evidence) {
    var c := ev.Claims();
    forall r :: r in AuthorizedRanges(c, Authorized(c, local)) ==> Fillable(r, |local|)
  }

  /** Nothing in the replay throws: every fill is in bounds, and every word that is needed derives. */
  ghost predicate Replayable(local: Bytes, ev: Evidence) {
    RangesFit(local, ev) && Derivable(ev)
  }

  ghost function FactsOf(live: Bytes, local: Bytes, headSize: nat, ev: Evidence, keccak: Bytes -> string): Facts {
    var c := ev.Claims();
    var liveB, localB := DecodeBoundary(live), DecodeBoundary(local);
    var agree := BoundariesAgree(liveB, localB);
    var ok := Authorized(c, local);
    var ranges := AuthorizedRanges(c, ok);
    var sameSize := |live| == |local|;
    var diffs := if sameSize then DiffOffsets(live, local, |live|) else [];
    var liveMasked := if sameSize then Masked(live, MaskRangesFor(ranges, liveB, agree)) else live;
    var localMasked := Masked(local, MaskRangesFor(ranges, localB, agree));
    var results := ImmutableResults(live, ev);
    Facts(
      |live|, |local|, headSize, liveB, localB, agree, ok, diffs,
      TrailerBytes(diffs, ranges, liveB, agree),
      ok && sameSize && AllAccounted(diffs, ranges, liveB, agree)
        && liveMasked == localMasked && keccak(liveMasked) == keccak(localMasked),
      agree && sameSize && live[liveB.regionStart..] == local[localB.regionStart..],
      keccak(localMasked),
      results,
      if ev.identities == [] then None else Some(ok && forall r :: r in results ==> r.matches))
  }

  // ----- the facts, derived -----------------------------------------------------------------

  method ScanDiffs(live: array<byte>, local: array<byte>) returns (offsets: seq<nat>)
    requires live.Length == local.Length
    ensures offsets == DiffOffsets(live[..], local[..], live.Length)
  {
    offsets := [];
    for i := 0 to live.Length
      invariant offsets == DiffOffsets(live[..], local[..], i)
    {
      if live[i] != local[i] {
        offsets := offsets + [i];
      }
    }
  }

  method ClassifyDiffs(offsets: seq<nat>, ranges: seq<ByteRange>, live: Boundary, agree: bool, sameSize: bool)
    returns (excluded: nat, accounted: bool)
    ensures excluded == TrailerBytes(offsets, ranges, live, agree)
    ensures accounted <==> sameSize && AllAccounted(offsets, ranges, live, agree)
  {
    excluded, accounted := 0, sameSize;
    for i := 0 to |offsets|
      invariant excluded == TrailerBytes(offsets[..i], ranges, live, agree)
      invariant accounted <==> sameSize && AllAccounted(offsets[..i], ranges, live, agree)
    {
      assert offsets[..i + 1][..i] == offsets[..i] && offsets[..i + 1] == offsets[..i] + [offsets[i]];
      var insideImmutable := InAnyRange(offsets[i], ranges);
      var insideMetadata := InMetadata(offsets[i], live, agree);
      if insideMetadata && !insideImmutable {
        excluded := excluded + 1;
      }
      if !insideImmutable && !insideMetadata {
        accounted := false;
      }
    }
    assert offsets[..|offsets|] == offsets;
  }

  method SelectRanges(c: Claims, authorityOk: bool) returns (ranges: seq<ByteRange>)
    ensures ranges == AuthorizedRanges(c, authorityOk)
  {
    var refs := c.refs;
    if !authorityOk {
      refs := [];
      for i := 0 to |c.refs|
        invariant refs == Selected(c.refs[..i], c.declaredIds)
      {
        assert c.refs[..i + 1][..i] == c.refs[..i];
        if c.refs[i].astId in c.declaredIds {
          refs := refs + [c.refs[i]];
        }
      }
      assert c.refs[..|c.refs|] == c.refs;
    }
    var flat := FlattenImmutableRanges(refs);
    return RangesOf(flat);
  }

  lemma MaskRangesForFillable(ranges: seq<ByteRange>, buf: Bytes, agree: bool)
    ensures (forall r :: r in MaskRangesFor(ranges, DecodeBoundary(buf), agree) ==> Fillable(r, |buf|)) <==>
            (forall r :: r in ranges ==> Fillable(r, |buf|))
  {
    hide DecodeBoundary, Fillable;
    AcceptedRegionEndsTheBuffer(buf);
    var b := DecodeBoundary(buf);
    if agree && b.Accepted? {
      MetadataFillable(b, |buf|);
    }
  }

  lemma MetadataFillable(b: Boundary, size: nat)
    requires b.Accepted? && b.regionStart + b.regionSize == size
    ensures Fillable(ByteRange(b.regionStart, b.regionSize), size)
  {
  }

  /** Both sides masked; the live side only when the sizes are equal. None where a fill throws. */
  method Normalize(live: array<byte>, local: array<byte>, ranges: seq<ByteRange>, liveB: Boundary, localB: Boundary)
    returns (normalized: Option<(Bytes, Bytes)>)
    requires liveB == DecodeBoundary(live[..]) && localB == DecodeBoundary(local[..])
    ensures normalized.Some? <==> forall r :: r in ranges ==> Fillable(r, local.Length)
    ensures normalized.Some? ==>
              var agree := BoundariesAgree(liveB, localB);
              && normalized.value.0 ==
                 (if live.Length == local.Length then Masked(live[..], MaskRangesFor(ranges, liveB, agree)) else live[..])
              && normalized.value.1 == Masked(local[..], MaskRangesFor(ranges, localB, agree))
  {
    hide DecodeBoundary, Fillable, InAnyRange, BoundariesAgree, MaskRangesFor;
    var agree := BoundariesAgree(liveB, localB);
    MaskRangesForFillable(ranges, live[..], agree);
    MaskRangesForFillable(ranges, local[..], agree);
    var liveMasked := live;
    if live.Length == local.Length {
      var m := MaskRanges(live, MaskRangesFor(ranges, liveB, agree));
      if m.None? {
        return None;
      }
      liveMasked := m.value;
    }
    var localMasked := MaskRanges(local, MaskRangesFor(ranges, localB, agree));
    if localMasked.None? {
      return None;
    }
    return Some((liveMasked[..], localMasked.value[..]));
  }

  /** Every fact of the replay, or None where a fill out of bounds or a derivation throws. */
  method DeriveFacts(live: array<byte>, local: array<byte>, head: array<byte>, ev: Evidence, keccak: Bytes -> string)
    returns (facts: Option<Facts>, authorityErrors: seq<AuthorityError>)
    ensures authorityErrors == [] <==> Authorized(ev.Claims(), local[..])
    ensures forall e :: e in authorityErrors ==> Justified(e, ev.Claims(), local[..])
    ensures facts.Some? <==> Replayable(local[..], ev)
    ensures facts.Some? ==> facts.value == FactsOf(live[..], local[..], head.Length, ev, keccak)
  {
    hide DecodeBoundary, Authorized, Flatten, Selected, DiffOffsets, TrailerBytes, AllAccounted, Fillable,
      Justified, ImmutableResults, InAnyRange, AuthorizedRanges, Masked, MaskRangesFor, Derivable;
    var c := ev.Claims();
    var liveBoundary := DecodeSolcMetadataBoundary(live);
    var localBoundary := DecodeSolcMetadataBoundary(local);
    var agree := BoundariesAgree(liveBoundary, localBoundary);
    authorityErrors := ValidateImmutableAuthority(c, local);
    var ok := authorityErrors == [];
    var ranges := SelectRanges(c, ok);
    var sameSize := live.Length == local.Length;
    var diffs := [];
    if sameSize {
      diffs := ScanDiffs(live, local);
    }
    var excluded, accounted := ClassifyDiffs(diffs, ranges, liveBoundary, agree, sameSize);
    var normalized := Normalize(live, local, ranges, liveBoundary, localBoundary);
    if normalized.None? {
      return None, authorityErrors;
    }
    var (liveMasked, localMasked) := normalized.value;
    var normalizedEqual := sameSize && liveMasked == localMasked;
    AcceptedRegionEndsTheBuffer(live[..]);
    AcceptedRegionEndsTheBuffer(local[..]);
    if !Derivable(ev) {
      return None, authorityErrors;
    }
    var results := ImmutableResults(live[..], ev);
    facts := Some(Facts(
      live.Length, local.Length, head.Length, liveBoundary, localBoundary, agree, ok, diffs,
      excluded,
      ok && accounted && normalizedEqual && keccak(liveMasked) == keccak(localMasked),
      agree && sameSize && live[..][liveBoundary.regionStart..] == local[..][localBoundary.regionStart..],
      keccak(localMasked),
      results,
      if ev.identities == [] then None else Some(ok && forall r :: r in results ==> r.matches)));
  }

  // ----- what the facts mean ----------------------------------------------------------------

  lemma AgreementForcesEqualSizes(live: Bytes, local: Bytes)
    requires BoundariesAgree(DecodeBoundary(live), DecodeBoundary(local))
    ensures |live| == |local|
  {
    hide DecodeBoundary;
    AcceptedRegionEndsTheBuffer(live);
    AcceptedRegionEndsTheBuffer(local);
  }

  /** `o` is excluded from the comparison: an immutable byte, or a byte both sides call metadata. */
  predicate Excluded(o: nat, ranges: seq<ByteRange>, live: Boundary, agree: bool) {
    InAnyRange(o, ranges) || InMetadata(o, live, agree)
  }

  lemma MaskRangesForMeans(o: nat, ranges: seq<ByteRange>, buf: Bytes, agree: bool)
    requires o < |buf|
    ensures InAnyRange(o, MaskRangesFor(ranges, DecodeBoundary(buf), agree)) <==>
            Excluded(o, ranges, DecodeBoundary(buf), agree)
  {
    hide DecodeBoundary;
    AcceptedRegionEndsTheBuffer(buf);
    var b := DecodeBoundary(buf);
    if agree && b.Accepted? {
      var region := ByteRange(b.regionStart, b.regionSize);
      var all := MaskRangesFor(ranges, b, agree);
      assert forall r :: r in all <==> r in ranges || r == region;
      assert region.Contains(o) <==> o >= b.regionStart;
    }
  }

  /** The diff scan and the masked comparison are one question, whatever the ranges. */
  lemma ScanAgreesWithMasking(live: Bytes, local: Bytes, ranges: seq<ByteRange>)
    requires |live| == |local|
    ensures var liveB, localB := DecodeBoundary(live), DecodeBoundary(local);
            var agree := BoundariesAgree(liveB, localB);
            AllAccounted(DiffOffsets(live, local, |live|), ranges, liveB, agree) <==>
            Masked(live, MaskRangesFor(ranges, liveB, agree)) == Masked(local, MaskRangesFor(ranges, localB, agree))
  {
    hide DecodeBoundary, DiffOffsets, InAnyRange;
    var liveB, localB := DecodeBoundary(live), DecodeBoundary(local);
    var agree := BoundariesAgree(liveB, localB);
    var a := Masked(live, MaskRangesFor(ranges, liveB, agree));
    var b := Masked(local, MaskRangesFor(ranges, localB, agree));
    forall o: nat | o < |live| ensures a[o] == b[o] <==> live[o] == local[o] || Excluded(o, ranges, liveB, agree) {
      MaskRangesForMeans(o, ranges, live, agree);
      MaskRangesForMeans(o, ranges, local, agree);
    }
    if AllAccounted(DiffOffsets(live, local, |live|), ranges, liveB, agree) {
      forall o: nat | o < |live| ensures a[o] == b[o] {
        assert live[o] != local[o] ==> o in DiffOffsets(live, local, |live|);
      }
      assert a == b;
    }
  }

  /**
   * With authority, every range fits, and the executable bytecode matches exactly when the sizes are
   * equal and every differing byte is an authorized immutable's or metadata's; the hashes decide
   * nothing more.
   */
  lemma ExecutableMatchMeans(live: Bytes, local: Bytes, headSize: nat, ev: Evidence, keccak: Bytes -> string)
    requires Authorized(ev.Claims(), local)
    ensures var f := FactsOf(live, local, headSize, ev, keccak);
            var ranges := RangesOf(Flatten(ev.refs));
            && RangesFit(local, ev)
            && (f.executableBytecodeMatch <==>
                && |live| == |local|
                && forall o: nat :: o < |live| && live[o] != local[o] ==>
                     InAnyRange(o, ranges) || (f.boundariesAgree && o >= f.liveBoundary.regionStart))
  {
    hide DecodeBoundary, DiffOffsets, InAnyRange, Flatten, Masked;
    var ranges := RangesOf(Flatten(ev.refs));
    forall r | r in ranges ensures Fillable(r, |local|) {
      var i :| 0 <= i < |ranges| && ranges[i] == r;
      assert Flatten(ev.refs)[i].range == r;
    }
    if |live| == |local| {
      ScanAgreesWithMasking(live, local, ranges);
    }
  }

  /** Without authority the executable bytecode never matches. */
  lemma NoMatchWithoutAuthority(live: Bytes, local: Bytes, headSize: nat, ev: Evidence, keccak: Bytes -> string)
    requires !Authorized(ev.Claims(), local)
    ensures !FactsOf(live, local, headSize, ev, keccak).executableBytecodeMatch
  {
    hide DecodeBoundary, DiffOffsets, InAnyRange, Flatten, Masked, Authorized;
  }

  /** With authority, the metadata hashes match exactly when the boundaries agree and no byte is only metadata's. */
  lemma MetadataMatchMeans(live: Bytes, local: Bytes, headSize: nat, ev: Evidence, keccak: Bytes -> string)
    requires Authorized(ev.Claims(), local)
    ensures var f := FactsOf(live, local, headSize, ev, keccak);
            f.metadataHashMatch <==> f.boundariesAgree && f.metadataTrailerBytesExcluded == 0
  {
    hide DecodeBoundary, DiffOffsets, Flatten, Masked, Authorized, InAnyRange, ImmutableResults;
    var f := FactsOf(live, local, headSize, ev, keccak);
    if f.boundariesAgree {
      AgreementForcesEqualSizes(live, local);
      AcceptedRegionEndsTheBuffer(live);
      var ranges, start := RangesOf(Flatten(ev.refs)), f.liveBoundary.regionStart;
      forall o: nat | o >= start ensures !InAnyRange(o, ranges) {
        RangesStayOutsideMetadata(o, ev, local);
      }
      SuffixesEqual(live, local, start);
      if f.metadataTrailerBytesExcluded == 0 {
        forall o: nat | start <= o < |live| ensures live[o] == local[o] {
          assert live[o] != local[o] ==> o in f.rawDiffOffsets;
        }
      }
    }
  }

  lemma {:induction false} DiffsDistinct(a: Bytes, b: Bytes, n: nat)
    requires n <= |a| == |b|
    ensures Distinct(DiffOffsets(a, b, n))
  {
    if n > 0 {
      DiffsDistinct(a, b, n - 1);
      DistinctSnoc(DiffOffsets(a, b, n - 1), n - 1);
      assert DiffOffsets(a, b, n - 1) + [] == DiffOffsets(a, b, n - 1);
    }
  }

  function OnlyMetadata(offsets: seq<nat>, ranges: seq<ByteRange>, live: Boundary, agree: bool): set<nat> {
    set o | o in offsets && InMetadata(o, live, agree) && !InAnyRange(o, ranges)
  }

  lemma {:induction false} TrailerCounts(offsets: seq<nat>, ranges: seq<ByteRange>, live: Boundary, agree: bool)
    requires Distinct(offsets)
    ensures TrailerBytes(offsets, ranges, live, agree) == |OnlyMetadata(offsets, ranges, live, agree)|
  {
    hide InMetadata, InAnyRange, Distinct;
    if offsets != [] {
      var init, o := offsets[..|offsets| - 1], offsets[|offsets| - 1];
      assert offsets == init + [o];
      DistinctSnoc(init, o);
      TrailerCounts(init, ranges, live, agree);
      var before, after := OnlyMetadata(init, ranges, live, agree), OnlyMetadata(offsets, ranges, live, agree);
      if InMetadata(o, live, agree) && !InAnyRange(o, ranges) {
        assert after == before + {o};
      } else {
        assert after == before;
      }
    }
  }

  /** The metadata bytes in which two buffers of one size differ. */
  function MetadataDiffs(live: Bytes, local: Bytes, start: nat): set<nat>
    requires |live| == |local|
  {
    set o: nat | start <= o < |live| && live[o] != local[o]
  }

  /** With authority and agreeing boundaries, the trailer count is the number of differing metadata bytes. */
  lemma TrailerCountMeans(live: Bytes, local: Bytes, headSize: nat, ev: Evidence, keccak: Bytes -> string)
    requires Authorized(ev.Claims(), local) && BoundariesAgree(DecodeBoundary(live), DecodeBoundary(local))
    ensures |live| == |local|
    ensures FactsOf(live, local, headSize, ev, keccak).metadataTrailerBytesExcluded ==
            |MetadataDiffs(live, local, DecodeBoundary(live).regionStart)|
  {
    hide DecodeBoundary, DiffOffsets, Flatten, Masked, Authorized, InAnyRange, ImmutableResults, TrailerBytes, Distinct;
    AgreementForcesEqualSizes(live, local);
    var diffs, ranges, b := DiffOffsets(live, local, |live|), RangesOf(Flatten(ev.refs)), DecodeBoundary(live);
    DiffsDistinct(live, local, |live|);
    TrailerCounts(diffs, ranges, b, true);
    forall o: nat | o >= b.regionStart ensures !InAnyRange(o, ranges) {
      RangesStayOutsideMetadata(o, ev, local);
    }
    assert OnlyMetadata(diffs, ranges, b, true) == MetadataDiffs(live, local, b.regionStart);
  }

  lemma SuffixesEqual(a: Bytes, b: Bytes, start: nat)
    requires |a| == |b| && start <= |a|
    ensures a[start..] == b[start..] <==> forall o :: start <= o < |a| ==> a[o] == b[o]
  {
    if a[start..] == b[start..] {
      forall o | start <= o < |a| ensures a[o] == b[o] {
        assert a[start..][o - start] == b[start..][o - start];
      }
    }
  }

  lemma RangesStayOutsideMetadata(o: nat, ev: Evidence, local: Bytes)
    requires Authorized(ev.Claims(), local) && DecodeBoundary(local).Accepted?
    requires o >= DecodeBoundary(local).regionStart
    ensures !InAnyRange(o, RangesOf(Flatten(ev.refs)))
  {
    hide DecodeBoundary, Flatten;
    var ranges := RangesOf(Flatten(ev.refs));
    forall r | r in ranges ensures !r.Contains(o) {
      var i :| 0 <= i < |ranges| && ranges[i] == r;
      assert Flatten(ev.refs)[i].range == r;
    }
  }

  /** The word is what the buffer holds from the range's start to its end, or as far as the buffer goes. */
  ghost predicate Stands(word: Bytes, live: Bytes, r: ByteRange) {
    && 0 <= r.start <= r.End()
    && |word| == (if r.End() <= |live| then r.length else if r.start <= |live| then |live| - r.start else 0)
    && forall k :: 0 <= k < |word| ==> live[r.start + k] == word[k]
  }

  lemma ObservedStands(word: Bytes, live: Bytes, r: ByteRange)
    requires 0 <= r.start <= r.End()
    ensures ObservedAt(live, r) == word <==> Stands(word, live, r)
    ensures r.End() <= |live| ==> ObservedAt(live, r) == live[r.start..r.End()]
  {
    var seen := ObservedAt(live, r);
    if Stands(word, live, r) {
      assert |seen| == |word|;
      forall k | 0 <= k < |word| ensures seen[k] == word[k] {
      }
    }
  }

  /** The identity's word is derived, pinned and there at each occurrence the references list for it. */
  ghost predicate WordStands(live: Bytes, refs: seq<Reference>, i: Identity) {
    && i.derived == Some(i.pinned)
    && exists k: nat :: k < |refs| && Refers(refs, k, i.astId) && StandsAtAll(i.pinned, live, refs[k].ranges)
  }

  /** The first reference with the id; an object's keys are distinct, so there is no other. */
  ghost predicate Refers(refs: seq<Reference>, k: nat, id: string) {
    k < |refs| && refs[k].astId == id && forall j :: 0 <= j < k ==> refs[j].astId != id
  }

  ghost predicate StandsAtAll(word: Bytes, live: Bytes, ranges: seq<ByteRange>) {
    forall r :: r in ranges ==> Stands(word, live, r)
  }

  /**
   * The immutables are verified exactly when the claims are authorized and each identity's pinned
   * word is the derived one and stands, byte for byte, at every one of its occurrences.
   */
  lemma ImmutablesVerifiedMeans(live: Bytes, local: Bytes, headSize: nat, ev: Evidence, keccak: Bytes -> string)
    requires ev.identities != []
    ensures FactsOf(live, local, headSize, ev, keccak).immutableValuesVerified ==
            Some(Authorized(ev.Claims(), local) && forall i :: i in ev.identities ==> WordStands(live, ev.refs, i))
  {
    hide DecodeBoundary, DiffOffsets, Masked, Authorized, WordStands, ImmutableResultOf;
    var results := ImmutableResults(live, ev);
    if Authorized(ev.Claims(), local) {
      forall i | i in ev.identities ensures ImmutableResultOf(live, ev.refs, i).matches <==> WordStands(live, ev.refs, i) {
        ImmutableMatchMeans(live, local, ev, i);
      }
    }
    forall i | i in ev.identities ensures ImmutableResultOf(live, ev.refs, i) in results {
      var k :| 0 <= k < |ev.identities| && ev.identities[k] == i;
      assert results[k] == ImmutableResultOf(live, ev.refs, i);
    }
  }

  /** What one immutable's match says, once the claims are authorized. */
  lemma ImmutableMatchMeans(live: Bytes, local: Bytes, ev: Evidence, i: Identity)
    requires Authorized(ev.Claims(), local) && i in ev.identities
    ensures ImmutableResultOf(live, ev.refs, i).matches <==> WordStands(live, ev.refs, i)
  {
    hide ObservedAt, RangesFor, Stands, DecodeBoundary, Flatten, Refers;
    var k := ReferenceOf(ev, local, i);
    ObservedWhere(live, local, ev, k, i.pinned);
    FirstIsOne(ev.refs, i.astId);
  }

  lemma FirstIsOne(refs: seq<Reference>, id: string)
    ensures forall k: nat, m: nat :: Refers(refs, k, id) && Refers(refs, m, id) ==> k == m
  {
  }

  /** The word reported as observed is the one that stands at every occurrence, if there is one. */
  lemma ObservedMeans(live: Bytes, local: Bytes, ev: Evidence, i: Identity, word: Bytes) returns (k: nat)
    requires Authorized(ev.Claims(), local) && i in ev.identities
    ensures k < |ev.refs| && Refers(ev.refs, k, i.astId)
    ensures var result := ImmutableResultOf(live, ev.refs, i);
            && (result.observed == Some(word) <==> StandsAtAll(word, live, ev.refs[k].ranges))
            && (result.occurrencesAgree <==> result.observed.Some?)
  {
    hide ObservedAt, RangesFor, Stands, DecodeBoundary, Flatten, Refers;
    k := ReferenceOf(ev, local, i);
    ObservedWhere(live, local, ev, k, word);
  }

  /** Where the claims are authorized, an identity's occurrences are those of its reference, and it has some. */
  lemma ReferenceOf(ev: Evidence, local: Bytes, i: Identity) returns (k: nat)
    requires Authorized(ev.Claims(), local) && i in ev.identities
    ensures k < |ev.refs| && Refers(ev.refs, k, i.astId)
    ensures RangesFor(ev.refs, i.astId) == ev.refs[k].ranges != []
    ensures ev.refs[k].ranges[0] in ev.refs[k].ranges
  {
    hide DecodeBoundary, Flatten;
    var m :| 0 <= m < |ev.identities| && ev.identities[m] == i;
    assert ev.Claims().declaredIds[m] == i.astId;
    assert i.astId in IdsOf(ev.refs);
    k := RangesForMeans(ev.refs, i.astId);
    assert ev.refs[k] in ev.refs;
  }

  lemma {:induction false} RangesForMeans(refs: seq<Reference>, id: string) returns (k: nat)
    requires id in IdsOf(refs)
    ensures Refers(refs, k, id) && RangesFor(refs, id) == refs[k].ranges
  {
    if refs[0].astId == id {
      k := 0;
    } else {
      assert refs == [refs[0]] + refs[1..];
      k := RangesForMeans(refs[1..], id);
      k := k + 1;
      forall j | 0 <= j < k ensures refs[j].astId != id {
        assert j > 0 ==> refs[j] == refs[1..][j - 1];
      }
    }
  }

  lemma ObservedWhere(live: Bytes, local: Bytes, ev: Evidence, k: nat, word: Bytes)
    requires Authorized(ev.Claims(), local) && k < |ev.refs|
    ensures forall r :: r in ev.refs[k].ranges ==> (ObservedAt(live, r) == word <==> Stands(word, live, r))
  {
    hide ObservedAt, Stands, DecodeBoundary, Flatten;
    AuthorizedRangesHeld(ev, local);
    assert ev.refs[k] in ev.refs;
    forall r | r in ev.refs[k].ranges ensures ObservedAt(live, r) == word <==> Stands(word, live, r) {
      ObservedStands(word, live, r);
    }
  }

  /** With authority the replay throws exactly when some identity derives no word. */
  lemma ReplayableMeans(local: Bytes, ev: Evidence)
    requires Authorized(ev.Claims(), local)
    ensures Replayable(local, ev) <==> forall i :: i in ev.identities ==> i.derived.Some?
  {
    hide RangesFor, DecodeBoundary, Flatten;
    forall i | i in ev.identities ensures RangesFor(ev.refs, i.astId) != [] {
      var k := ReferenceOf(ev, local, i);
    }
    var ranges := RangesOf(Flatten(ev.refs));
    forall r | r in ranges ensures Fillable(r, |local|) {
      var i :| 0 <= i < |ranges| && ranges[i] == r;
      assert Flatten(ev.refs)[i].range == r;
    }
  }

  /** Authorized references have occurrences, each of them in order. */
  lemma AuthorizedRangesHeld(ev: Evidence, local: Bytes)
    requires Authorized(ev.Claims(), local)
    ensures forall ref :: ref in ev.refs ==> ref.ranges != [] && forall r :: r in ref.ranges ==> 0 <= r.start <= r.End() <= |local|
  {
    hide DecodeBoundary;
    forall ref, r | ref in ev.refs && r in ref.ranges ensures 0 <= r.start <= r.End() <= |local| {
      FlattenHolds(ev.refs, ref, r);
    }
  }

  lemma {:induction false} FlattenHolds(refs: seq<Reference>, ref: Reference, r: ByteRange)
    requires ref in refs && r in ref.ranges
    ensures TaggedRange(ref.astId, r) in Flatten(refs)
  {
    var init, last := refs[..|refs| - 1], refs[|refs| - 1];
    assert refs == init + [last];
    if ref in init {
      FlattenHolds(init, ref, r);
    } else {
      var k :| 0 <= k < |ref.ranges| && ref.ranges[k] == r;
      assert Tag(ref.astId, ref.ranges)[k] == TaggedRange(ref.astId, r);
    }
  }

  /** The hash the check compares is that of the local buffer with the excluded bytes zeroed, and of no other byte. */
  lemma NormalizedHashMeans(live: Bytes, local: Bytes, headSize: nat, ev: Evidence, keccak: Bytes -> string, m: Bytes)
    requires Authorized(ev.Claims(), local) && |m| == |local|
    requires var f := FactsOf(live, local, headSize, ev, keccak);
             forall o: nat :: o < |m| ==>
               m[o] == if InAnyRange(o, RangesOf(Flatten(ev.refs))) || (f.boundariesAgree && o >= f.localBoundary.regionStart)
                       then 0 else local[o]
    ensures FactsOf(live, local, headSize, ev, keccak).normalizedBytecodeHash == keccak(m)
  {
    hide DecodeBoundary, DiffOffsets, InAnyRange, Flatten;
    var liveB, localB, ranges := DecodeBoundary(live), DecodeBoundary(local), RangesOf(Flatten(ev.refs));
    var agree := BoundariesAgree(liveB, localB);
    forall o: nat | o < |m| ensures m[o] == Masked(local, MaskRangesFor(ranges, localB, agree))[o] {
      MaskRangesForMeans(o, ranges, local, agree);
    }
    assert m == Masked(local, MaskRangesFor(ranges, localB, agree));
  }

  // ----- how much is masked -----------------------------------------------------------------

  function TotalLength(ranges: seq<ByteRange>): int {
    if ranges == [] then 0 else ranges[0].length + TotalLength(ranges[1..])
  }

  function Covered(size: nat, ranges: seq<ByteRange>): set<nat> {
    set o: nat | o < size && InAnyRange(o, ranges)
  }

  function Between(lo: nat, hi: nat): (s: set<nat>)
    ensures forall o :: o in s <==> lo <= o < hi
    ensures |s| == if lo <= hi then hi - lo else 0
  {
    if hi <= lo then {} else Between(lo, hi - 1) + {hi - 1}
  }

  lemma CoveredApart(size: nat, first: ByteRange, rest: seq<ByteRange>)
    requires Fillable(first, size) && 0 <= first.length
    requires forall r :: r in rest ==> !Overlap(first, r)
    ensures |Covered(size, [first] + rest)| == first.length + |Covered(size, rest)|
  {
    var here := Between(first.start, first.End());
    forall o: nat | o < size
      ensures InAnyRange(o, [first] + rest) <==> o in here || InAnyRange(o, rest)
      ensures !(o in here && InAnyRange(o, rest))
    {
      assert first.Contains(o) <==> o in here;
    }
    assert Covered(size, [first] + rest) == here + Covered(size, rest);
  }

  /** Disjoint ranges in bounds cover as many bytes as their lengths add up to. */
  lemma {:induction false} DisjointCoverage(size: nat, ranges: seq<ByteRange>)
    requires PairwiseDisjoint(ranges)
    requires forall r :: r in ranges ==> Fillable(r, size) && 0 <= r.length
    ensures |Covered(size, ranges)| == TotalLength(ranges)
  {
    hide Overlap, Fillable;
    if ranges == [] {
      assert Covered(size, ranges) == {};
    } else {
      var first, rest := ranges[0], ranges[1..];
      assert ranges == [first] + rest;
      forall r | r in rest ensures !Overlap(first, r) {
        var i :| 0 <= i < |rest| && rest[i] == r;
        assert !Overlap(ranges[0], ranges[i + 1]);
      }
      CoveredApart(size, first, rest);
      forall i, j | 0 <= i < j < |rest| ensures !Overlap(rest[i], rest[j]) {
        assert !Overlap(ranges[i + 1], ranges[j + 1]);
      }
      DisjointCoverage(size, rest);
    }
  }

  /**
   * With authority and agreeing boundaries, exactly the immutables' bytes and the metadata region
   * are masked, in whatever order the ranges are listed.
   */
  lemma MaskedByteCount(live: Bytes, local: Bytes, ev: Evidence, listed: seq<ByteRange>)
    requires Authorized(ev.Claims(), local) && BoundariesAgree(DecodeBoundary(live), DecodeBoundary(local))
    requires multiset(listed) == multiset(RangesOf(Flatten(ev.refs)))
    ensures var b := DecodeBoundary(live);
            && |Covered(|live|, MaskRangesFor(listed, b, true))| ==
               TotalLength(RangesOf(Flatten(ev.refs))) + b.regionSize
            && Masked(live, MaskRangesFor(listed, b, true)) ==
               Masked(live, MaskRangesFor(RangesOf(Flatten(ev.refs)), b, true))
  {
    hide DecodeBoundary, Flatten;
    var b, ranges := DecodeBoundary(live), RangesOf(Flatten(ev.refs));
    AgreementForcesEqualSizes(live, local);
    AcceptedRegionEndsTheBuffer(live);
    var region := ByteRange(b.regionStart, b.regionSize);
    var all := [region] + ranges;
    forall r | r in ranges
      ensures Fillable(r, |live|) && 0 <= r.length && !Overlap(region, r)
    {
      var i :| 0 <= i < |ranges| && ranges[i] == r;
      assert Flatten(ev.refs)[i].range == r;
    }
    assert PairwiseDisjoint(all);
    DisjointCoverage(|live|, all);
    assert all[1..] == ranges;
    forall o: nat ensures InAnyRange(o, MaskRangesFor(listed, b, true)) <==> InAnyRange(o, all) {
      SameMembers(listed, ranges);
      assert forall r :: r in MaskRangesFor(listed, b, true) <==> r in all;
    }
    assert Covered(|live|, MaskRangesFor(listed, b, true)) == Covered(|live|, all);
    SameMembers(listed, ranges);
    assert forall r :: r in MaskRangesFor(listed, b, true) <==> r in MaskRangesFor(ranges, b, true);
  }
}
