/**
 * Which byte ranges may be excluded from the bytecode comparison: the immutable references that
 * are declared, that the compiler's own syntax tree confirms, and that are in bounds, outside the
 * metadata and disjoint.
 */
module ImmutableAuthority {
  import opened Cbor
  import opened MetadataBoundary
  import opened Seqs
  import opened Sorting

  datatype ByteRange = ByteRange(start: int, length: int) {
    function End(): int { start + length }

    predicate Contains(offset: int) { start <= offset < End() }
  }

  /** One key of immutableReferences: a syntax tree id and its physical occurrences. */
  datatype Reference = Reference(astId: string, ranges: seq<ByteRange>)

  datatype TaggedRange = TaggedRange(astId: string, range: ByteRange)

  /** A build's ranges, and the declarations they are held against. */
  datatype Claims = Claims(refs: seq<Reference>, declaredIds: seq<string>, astIds: seq<string>)

  datatype AuthorityError =
    | DuplicateIdentities
    | UndeclaredReference(astId: string)
    | NotInSyntaxTree(astId: string)
    | UnreferencedIdentity(astId: string)
    | NoIdentities
    | BadStart(r: TaggedRange)
    | BadLength(r: TaggedRange)
    | ExceedsBytecode(r: TaggedRange)
    | EntersMetadata(r: TaggedRange)
    | NoPhysicalReference(astId: string)
    | RangesOverlap(a: TaggedRange, b: TaggedRange)

  function IdsOf(refs: seq<Reference>): set<string> {
    set r | r in refs :: r.astId
  }

  function Tag(astId: string, ranges: seq<ByteRange>): seq<TaggedRange> {
    seq(|ranges|, i requires 0 <= i < |ranges| => TaggedRange(astId, ranges[i]))
  }

  function Flatten(refs: seq<Reference>): seq<TaggedRange> {
    if refs == [] then [] else Flatten(refs[..|refs| - 1]) + Tag(refs[|refs| - 1].astId, refs[|refs| - 1].ranges)
  }

  function RangesOf(tagged: seq<TaggedRange>): seq<ByteRange> {
    seq(|tagged|, i requires 0 <= i < |tagged| => tagged[i].range)
  }

  predicate InAnyRange(offset: int, ranges: seq<ByteRange>) {
    exists r :: r in ranges && r.Contains(offset)
  }

  ghost predicate Overlap(a: ByteRange, b: ByteRange) {
    exists o :: a.Contains(o) && b.Contains(o)
  }

  // ----- the authority, stated outright -----------------------------------------------------

  ghost predicate RangeAllowed(r: ByteRange, size: nat, b: Boundary) {
    && 0 <= r.start && 1 <= r.length <= 32 && r.End() <= size
    && (b.Accepted? ==> r.End() <= b.regionStart)
  }

  ghost predicate PairwiseDisjoint(ranges: seq<ByteRange>) {
    forall i, j :: 0 <= i < j < |ranges| ==> !Overlap(ranges[i], ranges[j])
  }

  /** Identities and references in bijection, each confirmed and occurring; ranges allowed and disjoint. */
  ghost predicate Authorized(c: Claims, local: Bytes) {
    && Distinct(c.declaredIds)
    && SetOf(c.declaredIds) == IdsOf(c.refs) <= SetOf(c.astIds)
    && (forall r :: r in c.refs ==> r.ranges != [])
    && (forall t :: t in Flatten(c.refs) ==> RangeAllowed(t.range, |local|, DecodeBoundary(local)))
    && PairwiseDisjoint(RangesOf(Flatten(c.refs)))
  }

  /** What each reported error asserts. */
  ghost predicate Justified(e: AuthorityError, c: Claims, local: Bytes) {
    var b := DecodeBoundary(local);
    match e
    case DuplicateIdentities => !Distinct(c.declaredIds)
    case UndeclaredReference(id) => id in IdsOf(c.refs) && id !in c.declaredIds
    case NotInSyntaxTree(id) => id in IdsOf(c.refs) && id !in c.astIds
    case UnreferencedIdentity(id) => id in c.declaredIds && id !in IdsOf(c.refs)
    case NoIdentities => c.declaredIds == [] && c.refs != []
    case BadStart(t) => t in Flatten(c.refs) && t.range.start < 0
    case BadLength(t) => t in Flatten(c.refs) && !(1 <= t.range.length <= 32)
    case ExceedsBytecode(t) => t in Flatten(c.refs) && t.range.End() > |local|
    case EntersMetadata(t) => t in Flatten(c.refs) && b.Accepted? && t.range.End() > b.regionStart
    case NoPhysicalReference(id) => exists r :: r in c.refs && r.astId == id && r.ranges == []
    case RangesOverlap(x, y) =>
      x in Flatten(c.refs) && y in Flatten(c.refs) && x.range.start <= y.range.start < x.range.End()
  }

  // ----- adjacent pairs after sorting -------------------------------------------------------

  predicate ByStart(a: TaggedRange, b: TaggedRange) { a.range.start <= b.range.start }

  /** The check the source makes: some neighbour in start order begins before the one before it ends. */
  ghost predicate NeighboursClash(sorted: seq<TaggedRange>) {
    exists i :: 1 <= i < |sorted| && ClashAt(sorted, i)
  }

  predicate ClashAt(sorted: seq<TaggedRange>, i: nat)
    requires 1 <= i < |sorted|
  {
    sorted[i].range.start < sorted[i - 1].range.End()
  }

  ghost predicate SomeOverlap(s: seq<TaggedRange>) {
    exists i, j :: 0 <= i < j < |s| && Overlap(s[i].range, s[j].range)
  }

  /** In start order, without a clash each range ends before every later one starts. */
  lemma {:induction false} NoClashSeparates(s: seq<TaggedRange>, i: nat, j: nat)
    requires i < j < |s| && !NeighboursClash(s)
    requires forall t :: t in s ==> 1 <= t.range.length
    ensures s[i].range.End() <= s[j].range.start
    decreases j
  {
    assert !ClashAt(s, j);
    if i < j - 1 {
      NoClashSeparates(s, i, j - 1);
    }
  }

  lemma OverlapMeans(a: ByteRange, b: ByteRange)
    requires 1 <= a.length && 1 <= b.length
    ensures Overlap(a, b) <==> a.start < b.End() && b.start < a.End()
  {
    if a.start < b.End() && b.start < a.End() {
      var o := if a.start < b.start then b.start else a.start;
      assert a.Contains(o) && b.Contains(o);
    }
  }

  lemma ClashesAreOverlaps(s: seq<TaggedRange>)
    requires Sorted(s, ByStart)
    requires forall t :: t in s ==> 1 <= t.range.length
    ensures NeighboursClash(s) <==> SomeOverlap(s)
  {
    hide Overlap;
    if NeighboursClash(s) {
      var i :| 1 <= i < |s| && ClashAt(s, i);
      assert ByStart(s[i - 1], s[i]);
      OverlapMeans(s[i - 1].range, s[i].range);
    } else {
      forall i, j | 0 <= i < j < |s| ensures !Overlap(s[i].range, s[j].range) {
        NoClashSeparates(s, i, j);
        OverlapMeans(s[i].range, s[j].range);
      }
    }
  }

  /** Whether two entries overlap does not depend on the order of the entries. */
  lemma OverlapOfPermutation(s: seq<TaggedRange>, t: seq<TaggedRange>)
    requires multiset(s) == multiset(t) && SomeOverlap(s)
    ensures SomeOverlap(t)
  {
    var i, j :| 0 <= i < j < |s| && Overlap(s[i].range, s[j].range);
    var k, l := TwoPlaces(s, t, i, j);
    OverlapSymmetric(t[k].range, t[l].range);
    if k < l {
      assert Overlap(t[k].range, t[l].range);
    } else {
      assert Overlap(t[l].range, t[k].range);
    }
  }

  lemma OverlapSymmetric(a: ByteRange, b: ByteRange)
    ensures Overlap(a, b) == Overlap(b, a)
  {
  }

  lemma TwoPlaces<T>(s: seq<T>, t: seq<T>, i: nat, j: nat) returns (k: nat, l: nat)
    requires multiset(s) == multiset(t) && i < j < |s|
    ensures k < |t| && l < |t| && k != l && t[k] == s[i] && t[l] == s[j]
  {
    assert s[i] in multiset(t);
    k :| 0 <= k < |t| && t[k] == s[i];
    var t' := RemoveAt(t, k);
    RemoveAtMultiset(s, i);
    RemoveAtMultiset(t, k);
    assert RemoveAt(s, i)[j - 1] == s[j];
    assert s[j] in multiset(RemoveAt(s, i));
    assert s[j] in multiset(t');
    var m :| 0 <= m < |t'| && t'[m] == s[j];
    l := if m < k then m else m + 1;
  }

  /** With lengths of at least one, the sorted neighbour check reports exactly when two ranges overlap. */
  lemma NeighbourCheckIsExact(s: seq<TaggedRange>)
    requires forall t :: t in s ==> 1 <= t.range.length
    ensures NeighboursClash(StableSort(s, ByStart)) <==> !PairwiseDisjoint(RangesOf(s))
  {
    hide StableSort, Overlap, NeighboursClash;
    var sorted := StableSort(s, ByStart);
    SortSorts(s, ByStart);
    SortMembers(s, ByStart);
    SortPermutes(s, ByStart);
    ClashesAreOverlaps(sorted);
    if SomeOverlap(sorted) { OverlapOfPermutation(sorted, s); }
    if SomeOverlap(s) { OverlapOfPermutation(s, sorted); }
    var r := RangesOf(s);
    assert forall i :: 0 <= i < |s| ==> r[i] == s[i].range;
    assert SomeOverlap(s) <==> !PairwiseDisjoint(r);
  }

  // ----- the check --------------------------------------------------------------------------

  method FlattenImmutableRanges(refs: seq<Reference>) returns (out: seq<TaggedRange>)
    ensures out == Flatten(refs)
  {
    out := [];
    for i := 0 to |refs|
      invariant out == Flatten(refs[..i])
    {
      ghost var before := out;
      for j := 0 to |refs[i].ranges|
        invariant out == before + Tag(refs[i].astId, refs[i].ranges)[..j]
      {
        out := out + [TaggedRange(refs[i].astId, refs[i].ranges[j])];
      }
      assert refs[..i + 1][..i] == refs[..i];
      assert Tag(refs[i].astId, refs[i].ranges)[..|refs[i].ranges|] == Tag(refs[i].astId, refs[i].ranges);
    }
    assert refs[..|refs|] == refs;
  }

  predicate Backed(r: Reference, c: Claims) {
    r.astId in c.declaredIds && r.astId in c.astIds
  }

  lemma IdentitiesMatch(c: Claims)
    ensures SetOf(c.declaredIds) == IdsOf(c.refs) <= SetOf(c.astIds) <==>
            (forall r :: r in c.refs ==> Backed(r, c)) && (forall id :: id in c.declaredIds ==> id in IdsOf(c.refs))
  {
    if SetOf(c.declaredIds) == IdsOf(c.refs) <= SetOf(c.astIds) {
      forall r | r in c.refs ensures Backed(r, c) {
        assert r.astId in IdsOf(c.refs);
      }
      forall id | id in c.declaredIds ensures id in IdsOf(c.refs) {
        assert id in SetOf(c.declaredIds);
      }
    }
  }

  method IdentityErrors(c: Claims, ghost local: Bytes) returns (errors: seq<AuthorityError>)
    ensures errors == [] <==> Distinct(c.declaredIds) && SetOf(c.declaredIds) == IdsOf(c.refs) <= SetOf(c.astIds)
    ensures forall e :: e in errors ==> Justified(e, c, local)
  {
    errors := [];
    DistinctByCount(c.declaredIds);
    if |SetOf(c.declaredIds)| != |c.declaredIds| {
      errors := errors + [DuplicateIdentities];
    }
    for i := 0 to |c.refs|
      invariant errors == [] <==> (Distinct(c.declaredIds) && forall r :: r in c.refs[..i] ==> Backed(r, c))
      invariant forall e :: e in errors ==> Justified(e, c, local)
    {
      var id := c.refs[i].astId;
      assert c.refs[..i + 1] == c.refs[..i] + [c.refs[i]];
      assert Backed(c.refs[i], c) <==> id in c.declaredIds && id in c.astIds;
      assert (forall r :: r in c.refs[..i + 1] ==> Backed(r, c)) <==>
             (forall r :: r in c.refs[..i] ==> Backed(r, c)) && Backed(c.refs[i], c);
      if id !in c.declaredIds {
        errors := errors + [UndeclaredReference(id)];
      }
      if id !in c.astIds {
        errors := errors + [NotInSyntaxTree(id)];
      }
    }
    assert c.refs[..|c.refs|] == c.refs;
    ghost var referencesOk := errors == [];
    for i := 0 to |c.declaredIds|
      invariant errors == [] <==> referencesOk && forall id :: id in c.declaredIds[..i] ==> id in IdsOf(c.refs)
      invariant forall e :: e in errors ==> Justified(e, c, local)
    {
      var id := c.declaredIds[i];
      assert c.declaredIds[..i + 1] == c.declaredIds[..i] + [id];
      if id !in c.declaredIds[..i] && id !in IdsOf(c.refs) {
        errors := errors + [UnreferencedIdentity(id)];
      }
    }
    assert c.declaredIds[..|c.declaredIds|] == c.declaredIds;
    IdentitiesMatch(c);
    if c.declaredIds == [] && c.refs != [] {
      assert c.refs[0] in c.refs && !Backed(c.refs[0], c);
      errors := errors + [NoIdentities];
    }
  }

  method RangeErrors(c: Claims, all: seq<TaggedRange>, size: nat, b: Boundary, ghost local: Bytes)
    returns (errors: seq<AuthorityError>)
    requires all == Flatten(c.refs) && size == |local| && b == DecodeBoundary(local)
    ensures errors == [] <==> forall t :: t in all ==> RangeAllowed(t.range, size, b)
    ensures forall e :: e in errors ==> Justified(e, c, local)
  {
    hide Flatten, DecodeBoundary;
    errors := [];
    for i := 0 to |all|
      invariant errors == [] <==> forall t :: t in all[..i] ==> RangeAllowed(t.range, size, b)
      invariant forall e :: e in errors ==> Justified(e, c, local)
    {
      var t := all[i];
      assert all[..i + 1] == all[..i] + [t];
      if t.range.start < 0 {
        errors := errors + [BadStart(t)];
      }
      if t.range.length < 1 || t.range.length > 32 {
        errors := errors + [BadLength(t)];
      }
      if t.range.End() > size {
        errors := errors + [ExceedsBytecode(t)];
      }
      if b.Accepted? && t.range.End() > b.regionStart {
        errors := errors + [EntersMetadata(t)];
      }
    }
    assert all[..|all|] == all;
  }

  method EmptyReferenceErrors(c: Claims, ghost local: Bytes) returns (errors: seq<AuthorityError>)
    ensures errors == [] <==> forall r :: r in c.refs ==> r.ranges != []
    ensures forall e :: e in errors ==> Justified(e, c, local)
  {
    errors := [];
    for i := 0 to |c.refs|
      invariant errors == [] <==> forall r :: r in c.refs[..i] ==> r.ranges != []
      invariant forall e :: e in errors ==> Justified(e, c, local)
    {
      assert c.refs[..i + 1] == c.refs[..i] + [c.refs[i]];
      if c.refs[i].ranges == [] {
        errors := errors + [NoPhysicalReference(c.refs[i].astId)];
      }
    }
    assert c.refs[..|c.refs|] == c.refs;
  }

  method OverlapErrors(c: Claims, all: seq<TaggedRange>, ghost local: Bytes) returns (errors: seq<AuthorityError>)
    requires all == Flatten(c.refs)
    ensures errors == [] <==> !NeighboursClash(StableSort(all, ByStart))
    ensures forall e :: e in errors ==> Justified(e, c, local)
  {
    hide Flatten, StableSort;
    var sorted := StableSort(all, ByStart);
    SortMembers(all, ByStart);
    SortSorts(all, ByStart);
    errors := [];
    var i := 1;
    while i < |sorted|
      invariant 1 <= i
      invariant errors == [] <==> forall k :: 1 <= k < i && k < |sorted| ==> !ClashAt(sorted, k)
      invariant forall e :: e in errors ==> Justified(e, c, local)
    {
      if sorted[i].range.start < sorted[i - 1].range.End() {
        assert ClashAt(sorted, i) && ByStart(sorted[i - 1], sorted[i]);
        errors := errors + [RangesOverlap(sorted[i - 1], sorted[i])];
      }
      i := i + 1;
    }
  }

  /** The authority check: silent exactly on the authorized claims, and every error it reports is so. */
  method ValidateImmutableAuthority(c: Claims, local: array<byte>) returns (errors: seq<AuthorityError>)
    ensures errors == [] <==> Authorized(c, local[..])
    ensures forall e :: e in errors ==> Justified(e, c, local[..])
  {
    hide Flatten, StableSort, DecodeBoundary, NeighboursClash, PairwiseDisjoint, Justified;
    errors := IdentityErrors(c, local[..]);
    var boundary := DecodeSolcMetadataBoundary(local);
    var all := FlattenImmutableRanges(c.refs);
    var ranges := RangeErrors(c, all, local.Length, boundary, local[..]);
    var empties := EmptyReferenceErrors(c, local[..]);
    var overlaps := OverlapErrors(c, all, local[..]);
    if ranges == [] {
      NeighbourCheckIsExact(all);
    }
    errors := errors + ranges + empties + overlaps;
  }

  // ----- what authority gives ---------------------------------------------------------------

  lemma FlattenMembers(refs: seq<Reference>)
    ensures forall t :: t in Flatten(refs) <==> exists r :: r in refs && r.astId == t.astId && t.range in r.ranges
  {
    if refs != [] {
      var init, last := refs[..|refs| - 1], refs[|refs| - 1];
      FlattenMembers(init);
      assert refs == init + [last];
      forall t ensures t in Tag(last.astId, last.ranges) <==> t.astId == last.astId && t.range in last.ranges {
        if t.astId == last.astId && t.range in last.ranges {
          var i :| 0 <= i < |last.ranges| && last.ranges[i] == t.range;
          assert Tag(last.astId, last.ranges)[i] == t;
        }
      }
    }
  }

  /** Every identity has a range, and every range belongs to an identity. */
  lemma AuthorizedIdentitiesHaveRanges(c: Claims, local: Bytes, id: string)
    requires Authorized(c, local)
    ensures id in c.declaredIds <==> exists t :: t in Flatten(c.refs) && t.astId == id
  {
    FlattenMembers(c.refs);
    if id in c.declaredIds {
      assert id in SetOf(c.declaredIds);
      var r :| r in c.refs && r.astId == id;
      var t := TaggedRange(id, r.ranges[0]);
      assert t in Flatten(c.refs);
    }
    if t :| t in Flatten(c.refs) && t.astId == id {
      assert id in IdsOf(c.refs) && id in SetOf(c.declaredIds);
    }
  }
}
