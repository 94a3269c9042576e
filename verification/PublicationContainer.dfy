/** Which commit published a receipt, and whether the receipt still describes a head. */
module PublicationContainer {
  import opened Wrappers
  import opened Seqs
  import opened Strings

  type Commit = string
  type Path = string
  type Files = map<Path, string>

  const RECEIPT_PATH := "prototype/vnext-kernel/SCANNER_EVIDENCE.json"
  const TRIAGE_PATH := "prototype/vnext-kernel/slither-triage.json"
  const CONTRACTS_PREFIX := "prototype/vnext-kernel/contracts/"
  const LOCKFILE_PATH := "package-lock.json"

  datatype CommitData = CommitData(parents: seq<Commit>, files: Files)

  datatype Receipt = Receipt(sourceSubject: Commit, sourceTree: string, triageSubject: Commit, triageTree: string)

  datatype Pin = Pin(version: string, integrity: string)

  datatype Scope = Scope(contractsTree: string, externalImportClosure: string, semanticConfig: string, openzeppelin: Pin)

  datatype VerifyError =
    | UnknownRevision(rev: Commit)
    | NotAnObjectId(value: string)
    | FileMissing(rev: Commit, path: Path)
    | ReceiptMalformed
    | TreeMismatch(rev: Commit)
    | NoContainer
    | AmbiguousContainer
    | NotAnAncestor
    | ReceiptReplaced
    | TriageChanged
    | ScopeUnavailable(rev: Commit)
    | ScopeDiffers(rev: Commit)
    | ReceiptNamesContainer

  /**
   * The repository, what `rev-list --ancestry-path` lists for a range, and the parts that are not
   * modelled: which removed paths a diff takes for renamed, and to what, tree object ids, the parsers of the
   * receipt and the lockfile, the import closure's digest for an installed version, and the scanner
   * configuration's digest.
   */
  datatype Repo = Repo(
    commits: map<Commit, CommitData>,
    ancestryPath: (Commit, Commit) -> seq<Commit>,
    renames: (Files, Files) -> map<Path, Path>,
    treeOid: Files -> string,
    parseReceipt: string -> Option<Receipt>,
    parsePin: string -> Option<Pin>,
    closureDigest: string -> Option<string>,
    configDigest: string)
  {
    ghost predicate IsPath(p: seq<Commit>) {
      && 0 < |p| && p[0] in commits
      && forall i :: 0 < i < |p| ==> p[i] in commits && p[i - 1] in commits[p[i]].parents
    }

    /** `a` is `b`, or a parent of a parent ... of `b`. */
    ghost predicate Ancestor(a: Commit, b: Commit) {
      exists p :: IsPath(p) && p[0] == a && p[|p| - 1] == b
    }

    /** On the ancestry path from `t` to `h`, `t` and its history left out. */
    ghost predicate InRange(t: Commit, h: Commit, c: Commit) {
      Ancestor(t, c) && Ancestor(c, h) && !Ancestor(c, t)
    }

    /** A renamed path is gone, the one it is renamed to is new, and no two are renamed to the same. */
    ghost predicate RenamesAreMoves() {
      && (forall a, b, q :: q in renames(a, b) ==> q in a && q !in b && renames(a, b)[q] in b && renames(a, b)[q] !in a)
      && forall a, b, q, o :: q in renames(a, b) && o in renames(a, b) && renames(a, b)[q] == renames(a, b)[o] ==> q == o
    }

    ghost predicate Valid() {
      && (forall t, h, c :: c in ancestryPath(t, h) <==> InRange(t, h, c))
      && RenamesAreMoves()
    }

    /** A file's content. */
    function Show(rev: Commit, path: Path): Option<string> {
      if rev in commits && path in commits[rev].files then Some(commits[rev].files[path]) else None
    }

    /** A file as the verifier reads it: every output of git is trimmed. */
    function Text(rev: Commit, path: Path): Option<string> {
      match Show(rev, path) case None => None case Some(content) => Some(Trim(content))
    }

    function Contracts(rev: Commit): Files
      requires rev in commits
    {
      map p | p in commits[rev].files && CONTRACTS_PREFIX <= p :: commits[rev].files[p]
    }

    /** The library's pin in the lockfile. */
    function PinAt(rev: Commit): Option<Pin> {
      match Text(rev, LOCKFILE_PATH) case None => None case Some(lock) => parsePin(lock)
    }

    function ScopeAt(rev: Commit): (scope: Option<Scope>)
      ensures scope.Some? ==> rev in commits
    {
      match PinAt(rev)
      case None => None
      case Some(pin) =>
        if Contracts(rev) == map[] then None
        else
          match closureDigest(pin.version)
          case None => None
          case Some(closure) => Some(Scope(treeOid(Contracts(rev)), closure, configDigest, pin))
    }

    /** The paths whose content differs between two commits. */
    function Changed(a: Commit, b: Commit): set<Path>
      requires a in commits && b in commits
    {
      set p | p in commits[a].files.Keys + commits[b].files.Keys && Show(a, p) != Show(b, p)
    }

    /** What a diff takes for the old names of renamed files. */
    function Sources(a: Commit, b: Commit): set<Path>
      requires a in commits && b in commits
    {
      renames(commits[a].files, commits[b].files).Keys
    }

    /** The paths a diff lists: of a renamed file, the new name alone. */
    function Listed(a: Commit, b: Commit): set<Path>
      requires a in commits && b in commits
    {
      Changed(a, b) - Sources(a, b)
    }

    /** A commit on the way to `h` whose first parent is `t` and whose only listed change to it is the receipt. */
    ghost predicate IsCandidate(t: Commit, h: Commit, c: Commit) {
      InRange(t, h, c) && Publishes(t, c)
    }

    ghost predicate OnlyCandidate(t: Commit, h: Commit, p: Commit) {
      forall c :: IsCandidate(t, h, c) <==> c == p
    }

    predicate Publishes(t: Commit, c: Commit) {
      && t in commits && c in commits
      && commits[c].parents != [] && commits[c].parents[0] == t
      && Listed(t, c) == {RECEIPT_PATH}
    }

    lemma AncestorTransitive(a: Commit, b: Commit, c: Commit)
      requires Ancestor(a, b) && Ancestor(b, c)
      ensures Ancestor(a, c)
    {
      var p :| IsPath(p) && p[0] == a && p[|p| - 1] == b;
      var q :| IsPath(q) && q[0] == b && q[|q| - 1] == c;
      var r := p + q[1..];
      forall i | 0 < i < |r| ensures r[i] in commits && r[i - 1] in commits[r[i]].parents {
        if i >= |p| {
          assert r[i] == q[i - |p| + 1] && r[i - 1] == q[i - |p|];
        }
      }
      assert IsPath(r);
    }
  }

  predicate IsObjectId(s: string) {
    |s| == 40 && forall c :: c in s ==> '0' <= c <= '9' || 'a' <= c <= 'f'
  }

  lemma ObjectIdMeans(s: string)
    ensures IsObjectId(s) <==> |s| == 40 && forall c :: c in s ==> c in "0123456789abcdef"
  {
  }

  // ----- the verification -------------------------------------------------------------------

  ghost predicate Truthful(g: Repo, subject: Commit, tree: string) {
    IsObjectId(subject) && IsObjectId(tree) && subject in g.commits && g.treeOid(g.commits[subject].files) == tree
  }

  /** The head's receipt, with subjects that are what it says, has a unique container. */
  ghost predicate Located(g: Repo, h: Commit, p: Commit) {
    && IsObjectId(h) && ReceiptAt(g, h).Some?
    && var r := ReceiptAt(g, h).value;
    && Truthful(g, r.sourceSubject, r.sourceTree) && Truthful(g, r.triageSubject, r.triageTree)
    && g.OnlyCandidate(r.triageSubject, h, p)
  }

  /** What a verified head is: its receipt's unique container, and everything still equal to it. */
  ghost predicate Verified(g: Repo, h: Commit, p: Commit) {
    && Located(g, h, p)
    && var r := ReceiptAt(g, h).value;
    && StillCurrent(g, r, p, h)
    && IsObjectId(p) && !Includes(g.Text(h, RECEIPT_PATH).value, p)
  }

  /** All is as published, but the scanner's inputs at the head are readable and others. */
  ghost predicate ScopeChanged(g: Repo, r: Receipt, p: Commit, h: Commit) {
    && TextsCurrent(g, p, h)
    && g.ScopeAt(r.sourceSubject).Some? && g.ScopeAt(p) == g.ScopeAt(r.sourceSubject)
    && g.ScopeAt(h).Some? && g.ScopeAt(h) != g.ScopeAt(p)
  }

  function ReceiptAt(g: Repo, h: Commit): (r: Option<Receipt>)
    ensures r.Some? ==> g.Text(h, RECEIPT_PATH).Some?
  {
    match g.Text(h, RECEIPT_PATH) case None => None case Some(text) => g.parseReceipt(text)
  }

  /** Receipt and triage are there at the head and read as published. */
  ghost predicate TextsCurrent(g: Repo, p: Commit, h: Commit) {
    && g.Text(h, RECEIPT_PATH).Some? && g.Text(p, RECEIPT_PATH) == g.Text(h, RECEIPT_PATH)
    && g.Text(h, TRIAGE_PATH).Some? && g.Text(p, TRIAGE_PATH) == g.Text(h, TRIAGE_PATH)
  }

  ghost predicate StillCurrent(g: Repo, r: Receipt, p: Commit, h: Commit) {
    && g.Ancestor(p, h)
    && TextsCurrent(g, p, h)
    && g.ScopeAt(r.sourceSubject).Some?
    && g.ScopeAt(p) == g.ScopeAt(r.sourceSubject) == g.ScopeAt(h)
  }

  method FindPublicationContainer(g: Repo, t: Commit, h: Commit) returns (r: Result<Commit, VerifyError>)
    requires g.Valid()
    ensures r.Success? <==> IsObjectId(t) && exists p :: g.OnlyCandidate(t, h, p)
    ensures r.Success? ==> g.OnlyCandidate(t, h, r.value)
    ensures r == Failure(NoContainer) ==> forall c :: !g.IsCandidate(t, h, c)
    ensures r.Failure? ==> r.error != NotAnAncestor
    ensures r == Failure(AmbiguousContainer) ==>
              IsObjectId(t) && exists c, d :: c != d && g.IsCandidate(t, h, c) && g.IsCandidate(t, h, d)
  {
    if !IsObjectId(t) {
      return Failure(NotAnObjectId(t));
    }
    hide Repo.Publishes, Repo.OnlyCandidate, Repo.Valid, Deduplicated;
    var reachable := Deduplicated(g.ancestryPath(t, h));
    var candidates := [];
    for i := 0 to |reachable|
      invariant Distinct(candidates)
      invariant forall c :: c in candidates <==> c in reachable[..i] && g.Publishes(t, c)
    {
      assert reachable[..i + 1] == reachable[..i] + [reachable[i]];
      assert reachable[i] !in reachable[..i];
      if g.Publishes(t, reachable[i]) {
        candidates := candidates + [reachable[i]];
      }
    }
    assert reachable[..|reachable|] == reachable;
    ListedCandidates(g, t, h, candidates);
    if |candidates| == 0 {
      return Failure(NoContainer);
    }
    if |candidates| > 1 {
      assert candidates[0] != candidates[1] && g.IsCandidate(t, h, candidates[0]) && g.IsCandidate(t, h, candidates[1]);
      return Failure(AmbiguousContainer);
    }
    return Success(candidates[0]);
  }

  /** Listed once each, the candidates show whether there is exactly one. */
  lemma ListedCandidates(g: Repo, t: Commit, h: Commit, candidates: seq<Commit>)
    requires g.Valid() && Distinct(candidates)
    requires forall c :: c in candidates <==> c in g.ancestryPath(t, h) && g.Publishes(t, c)
    ensures |candidates| == 0 ==> forall c :: !g.IsCandidate(t, h, c)
    ensures |candidates| == 1 ==> g.OnlyCandidate(t, h, candidates[0])
    ensures |candidates| != 1 ==> !exists p :: g.OnlyCandidate(t, h, p)
    ensures forall c :: c in candidates ==> g.IsCandidate(t, h, c)
  {
    hide Repo.Publishes, Repo.InRange;
    forall c ensures c in candidates <==> g.IsCandidate(t, h, c) {
      assert c in g.ancestryPath(t, h) <==> g.InRange(t, h, c);
    }
    if |candidates| == 1 {
      assert candidates == [candidates[0]];
    }
    assert |candidates| > 1 ==>
        g.IsCandidate(t, h, candidates[0]) && g.IsCandidate(t, h, candidates[1]) && candidates[0] != candidates[1];
    if p :| g.OnlyCandidate(t, h, p) {
      assert g.IsCandidate(t, h, p) && p in candidates;
    }
  }

  /** rev-list names each commit once. */
  function Deduplicated(s: seq<Commit>): (r: seq<Commit>)
    ensures Distinct(r) && forall c :: c in r <==> c in s
  {
    if s == [] then []
    else
      assert s == [s[0]] + s[1..];
      var rest := Deduplicated(s[1..]);
      if s[0] in rest then rest else [s[0]] + rest
  }

  method CheckSubject(g: Repo, subject: Commit, tree: string) returns (r: Result<(), VerifyError>)
    ensures r.Success? <==> Truthful(g, subject, tree)
    ensures r.Success? ==> IsObjectId(subject)
    ensures r.Failure? ==> r.error != NotAnAncestor
  {
    if !IsObjectId(subject) { return Failure(NotAnObjectId(subject)); }
    if !IsObjectId(tree) { return Failure(NotAnObjectId(tree)); }
    if subject !in g.commits { return Failure(UnknownRevision(subject)); }
    if g.treeOid(g.commits[subject].files) != tree { return Failure(TreeMismatch(subject)); }
    return Success(());
  }

  /** Every field must be equal; each one that is not is reported. */
  method CompareScopes(a: Scope, b: Scope) returns (differences: seq<string>)
    ensures differences == [] <==> a == b
  {
    differences := [];
    if a.contractsTree != b.contractsTree { differences := differences + ["contractsTree"]; }
    if a.externalImportClosure != b.externalImportClosure { differences := differences + ["externalImportClosureSha256"]; }
    if a.semanticConfig != b.semanticConfig { differences := differences + ["scannerSemanticConfigSha256"]; }
    if a.openzeppelin != b.openzeppelin { differences := differences + ["openzeppelin"]; }
  }

  method SameFile(g: Repo, p: Commit, h: Commit, path: Path, difference: VerifyError) returns (r: Result<(), VerifyError>)
    ensures r.Success? <==> g.Text(h, path).Some? && g.Text(p, path) == g.Text(h, path)
    ensures r.Failure? ==> r.error == difference || r.error.FileMissing?
  {
    hide Trim;
    if g.Text(p, path).None? { return Failure(FileMissing(p, path)); }
    if g.Text(h, path).None? { return Failure(FileMissing(h, path)); }
    if g.Text(p, path) != g.Text(h, path) { return Failure(difference); }
    return Success(());
  }

  /**
   * Whether the receipt at `h` is still the one `p` published. `isAncestor` is the repository's
   * answer to the ancestor query.
   */
  method AssertDescendantCurrency(g: Repo, receipt: Receipt, p: Commit, h: Commit, isAncestor: bool)
    returns (r: Result<(), VerifyError>)
    requires isAncestor <==> g.Ancestor(p, h)
    ensures r.Success? <==> StillCurrent(g, receipt, p, h)
    ensures r == Failure(NotAnAncestor) <==> !isAncestor
    ensures isAncestor && TextsCurrent(g, p, h) && g.ScopeAt(receipt.sourceSubject).Some? ==>
              && (r == Failure(ScopeDiffers(p)) <==> g.ScopeAt(p).Some? && g.ScopeAt(p) != g.ScopeAt(receipt.sourceSubject))
              && (g.ScopeAt(p) == g.ScopeAt(receipt.sourceSubject) && p != h ==>
                  (r == Failure(ScopeDiffers(h)) <==> g.ScopeAt(h).Some? && g.ScopeAt(h) != g.ScopeAt(receipt.sourceSubject)))
  {
    hide Repo.Text, Repo.ScopeAt, Repo.Ancestor;
    if !isAncestor { return Failure(NotAnAncestor); }
    var _ :- SameFile(g, p, h, RECEIPT_PATH, ReceiptReplaced);
    var _ :- SameFile(g, p, h, TRIAGE_PATH, TriageChanged);
    var declared := g.ScopeAt(receipt.sourceSubject);
    if declared.None? { return Failure(ScopeUnavailable(receipt.sourceSubject)); }
    var revs := [p, h];
    for k := 0 to |revs|
      invariant forall i :: 0 <= i < k ==> g.ScopeAt(revs[i]) == declared
    {
      assert k > 0 ==> g.ScopeAt(revs[0]) == declared;
      var scope := g.ScopeAt(revs[k]);
      if scope.None? { return Failure(ScopeUnavailable(revs[k])); }
      var differences := CompareScopes(declared.value, scope.value);
      if differences != [] { return Failure(ScopeDiffers(revs[k])); }
    }
    assert g.ScopeAt(revs[0]) == g.ScopeAt(revs[1]) == declared;
    return Success(());
  }

  /**
   * The whole verification: it succeeds exactly on verified heads, with their container. The
   * ancestor query needs no answer here: a located container is always an ancestor of the head.
   */
  method VerifyPublicationProvenance(g: Repo, h: Commit) returns (r: Result<Commit, VerifyError>)
    requires g.Valid()
    ensures r.Success? <==> exists p :: Verified(g, h, p)
    ensures r.Success? ==> Verified(g, h, r.value)
    ensures r != Failure(NotAnAncestor)
    ensures forall p :: Located(g, h, p) && p != h && ScopeChanged(g, ReceiptAt(g, h).value, p, h) ==> r == Failure(ScopeDiffers(h))
  {
    hide StillCurrent, Truthful, Repo.Text, Includes, TextsCurrent, Repo.ScopeAt;
    if !IsObjectId(h) { return Failure(NotAnObjectId(h)); }
    if g.Text(h, RECEIPT_PATH).None? { return Failure(FileMissing(h, RECEIPT_PATH)); }
    var text := g.Text(h, RECEIPT_PATH).value;
    if g.parseReceipt(text).None? { return Failure(ReceiptMalformed); }
    var receipt := g.parseReceipt(text).value;
    assert ReceiptAt(g, h) == Some(receipt);
    var _ :- CheckSubject(g, receipt.sourceSubject, receipt.sourceTree);
    var _ :- CheckSubject(g, receipt.triageSubject, receipt.triageTree);
    var container :- FindPublicationContainer(g, receipt.triageSubject, h);
    assert g.IsCandidate(receipt.triageSubject, h, container);
    forall p | g.OnlyCandidate(receipt.triageSubject, h, p) ensures p == container {
      assert g.IsCandidate(receipt.triageSubject, h, container);
    }
    var _ :- AssertDescendantCurrency(g, receipt, container, h, true);
    if !IsObjectId(container) { return Failure(NotAnObjectId(container)); }
    if Includes(text, container) { return Failure(ReceiptNamesContainer); }
    assert Verified(g, h, container);
    return Success(container);
  }

  // ----- what a candidate changed -----------------------------------------------------------

  /** A candidate differs from the triage subject in the receipt, and in at most one path, which a diff took for renamed to it. */
  lemma CandidateChanges(g: Repo, t: Commit, c: Commit)
    requires g.RenamesAreMoves() && g.Publishes(t, c)
    ensures g.Changed(t, c) == {RECEIPT_PATH} + g.Sources(t, c)
    ensures g.Show(t, RECEIPT_PATH) != g.Show(c, RECEIPT_PATH)
    ensures g.Sources(t, c) != {} ==> g.Show(t, RECEIPT_PATH).None?
    ensures |g.Sources(t, c)| <= 1
    ensures forall q :: q in g.Sources(t, c) ==> g.renames(g.commits[t].files, g.commits[c].files)[q] == RECEIPT_PATH
  {
    var a, b := g.commits[t].files, g.commits[c].files;
    assert RECEIPT_PATH in g.Listed(t, c);
    forall q | q in g.Sources(t, c) ensures q in g.Changed(t, c) {
      assert q in a && q !in b;
    }
    forall q | q in g.Sources(t, c) ensures g.renames(a, b)[q] == RECEIPT_PATH && g.Show(t, RECEIPT_PATH).None? {
      var n := g.renames(a, b)[q];
      assert n in g.Changed(t, c) && n !in g.Sources(t, c);
      assert n in g.Listed(t, c);
    }
    if q :| q in g.Sources(t, c) {
      assert g.Sources(t, c) == {q};
    }
  }

  /** A path a candidate still has, the receipt aside, is unchanged. */
  lemma CandidateKeeps(g: Repo, t: Commit, c: Commit, path: Path)
    requires g.RenamesAreMoves() && g.Publishes(t, c) && path != RECEIPT_PATH && path !in g.Sources(t, c)
    ensures g.Show(t, path) == g.Show(c, path)
  {
    assert path !in g.Listed(t, c);
  }

  lemma KeptIsNoSource(g: Repo, t: Commit, c: Commit, path: Path)
    requires g.RenamesAreMoves() && t in g.commits && c in g.commits && g.Show(c, path).Some?
    ensures path !in g.Sources(t, c)
  {
  }

  lemma ReceiptIsNoContract()
    ensures !(CONTRACTS_PREFIX <= RECEIPT_PATH)
  {
    assert CONTRACTS_PREFIX[23] == 'c' && RECEIPT_PATH[23] == 'S';
  }

  /** The contracts are the same at both exactly when no contract was taken for renamed. */
  lemma CandidateKeepsContracts(g: Repo, t: Commit, c: Commit)
    requires g.RenamesAreMoves() && g.Publishes(t, c)
    ensures g.Contracts(t) == g.Contracts(c) <==> forall q :: q in g.Sources(t, c) ==> !(CONTRACTS_PREFIX <= q)
  {
    ReceiptIsNoContract();
    var a, b := g.Contracts(t), g.Contracts(c);
    if q :| q in g.Sources(t, c) && CONTRACTS_PREFIX <= q {
      assert q in a && q !in b;
    } else {
      forall p: Path | CONTRACTS_PREFIX <= p ensures g.Show(t, p) == g.Show(c, p) {
        CandidateKeeps(g, t, c, p);
      }
      forall p ensures p in a <==> p in b {
        assert CONTRACTS_PREFIX <= p ==> g.Show(t, p) == g.Show(c, p);
      }
      forall p | p in a ensures a[p] == b[p] {
        assert g.Show(t, p) == g.Show(c, p);
      }
      assert a == b;
    }
  }

  // ----- what verification gives ------------------------------------------------------------

  /** What ties a triage subject, the container of its receipt and a head together. */
  ghost predicate Published(g: Repo, t: Commit, p: Commit, h: Commit) {
    && g.Ancestor(t, p) && g.Ancestor(p, h) && g.Publishes(t, p)
    && (forall c :: g.InRange(t, h, c) && g.Publishes(t, c) ==> c == p)
    && g.Changed(t, p) == {RECEIPT_PATH} + g.Sources(t, p)
    && (g.Show(t, RECEIPT_PATH).Some? ==> g.Sources(t, p) == {}) && |g.Sources(t, p)| <= 1
    && g.Text(p, RECEIPT_PATH) == g.Text(h, RECEIPT_PATH)
    && g.Show(t, TRIAGE_PATH) == g.Show(p, TRIAGE_PATH) && g.Text(p, TRIAGE_PATH) == g.Text(h, TRIAGE_PATH)
    && g.Show(t, LOCKFILE_PATH) == g.Show(p, LOCKFILE_PATH)
    && (g.Contracts(t) == g.Contracts(p) <==> forall q :: q in g.Sources(t, p) ==> !(CONTRACTS_PREFIX <= q))
    && g.ScopeAt(p) == g.ScopeAt(h)
  }

  /** A commit that exists, its tree the one named. */
  ghost predicate HasTree(g: Repo, subject: Commit, tree: string) {
    subject in g.commits && g.treeOid(g.commits[subject].files) == tree
  }

  /**
   * A verified head's container is the one commit on its way from the triage subject that publishes
   * the receipt: nothing else changed there but at most one path, renamed to the receipt as a diff
   * sees it, and none when the receipt existed before. The triage is the same at triage subject and
   * container and reads the same at the head; the scanner's inputs are those of the declared source at
   * container and head; and the subjects have the trees the receipt names.
   */
  lemma VerifiedMeans(g: Repo, h: Commit, p: Commit)
    requires g.RenamesAreMoves() && Verified(g, h, p)
    ensures Published(g, ReceiptAt(g, h).value.triageSubject, p, h)
    ensures g.ScopeAt(h) == g.ScopeAt(ReceiptAt(g, h).value.sourceSubject)
    ensures var r := ReceiptAt(g, h).value;
            && HasTree(g, r.sourceSubject, r.sourceTree) && HasTree(g, r.triageSubject, r.triageTree)
            && IsObjectId(h) && IsObjectId(p)
  {
    hide Repo.ScopeAt, Repo.Text, Repo.Ancestor, Repo.Listed, Repo.Changed, ReceiptAt, Repo.RenamesAreMoves;
    var t := ReceiptAt(g, h).value.triageSubject;
    assert g.IsCandidate(t, h, p);
    CandidateChanges(g, t, p);
    CandidateKeepsContracts(g, t, p);
    HasFiles(g, h, p);
    KeptIsNoSource(g, t, p, TRIAGE_PATH);
    KeptIsNoSource(g, t, p, LOCKFILE_PATH);
    CandidateKeeps(g, t, p, TRIAGE_PATH);
    CandidateKeeps(g, t, p, LOCKFILE_PATH);
    forall c | g.InRange(t, h, c) && g.Publishes(t, c) ensures c == p {
      assert g.IsCandidate(t, h, c);
    }
  }

  lemma HasFiles(g: Repo, h: Commit, p: Commit)
    requires Verified(g, h, p)
    ensures g.Show(p, TRIAGE_PATH).Some? && g.Show(p, LOCKFILE_PATH).Some?
  {
  }

  /** Reading the same lockfile pin, and contracts with the same tree, is what having the same scope comes to. */
  lemma ScopesAgree(g: Repo, a: Commit, b: Commit)
    requires g.ScopeAt(a).Some? && g.ScopeAt(b).Some?
    ensures g.ScopeAt(a) == g.ScopeAt(b) <==> g.PinAt(a) == g.PinAt(b) && g.treeOid(g.Contracts(a)) == g.treeOid(g.Contracts(b))
  {
    hide Trim;
  }

  /** What a scope holds, each where it belongs. */
  lemma ScopeHolds(g: Repo, rev: Commit)
    requires g.ScopeAt(rev).Some?
    ensures var scope := g.ScopeAt(rev).value;
            && g.PinAt(rev) == Some(scope.openzeppelin) && scope.contractsTree == g.treeOid(g.Contracts(rev))
            && g.closureDigest(scope.openzeppelin.version) == Some(scope.externalImportClosure)
            && scope.semanticConfig == g.configDigest
  {
    hide Trim;
  }

  /** No two trees have one object id. */
  ghost predicate InjectiveTrees(g: Repo) {
    forall a, b :: g.treeOid(a) == g.treeOid(b) ==> a == b
  }

  /**
   * The scanned contracts are the head's: the declared source, the container and a verified head have
   * one contracts tree, with something in it, and one pin of the library; so, tree ids telling trees
   * apart, every file under the contracts is the same at all three.
   */
  lemma VerifiedContracts(g: Repo, h: Commit, p: Commit)
    requires Verified(g, h, p)
    ensures var s := ReceiptAt(g, h).value.sourceSubject;
            && s in g.commits && p in g.commits && h in g.commits
            && g.treeOid(g.Contracts(s)) == g.treeOid(g.Contracts(p)) == g.treeOid(g.Contracts(h))
            && g.PinAt(s) == g.PinAt(p) == g.PinAt(h) && g.PinAt(h).Some?
            && (exists path :: CONTRACTS_PREFIX <= path && g.Show(h, path).Some?)
            && (InjectiveTrees(g) ==> forall path: Path :: CONTRACTS_PREFIX <= path ==>
                  g.Show(s, path) == g.Show(p, path) == g.Show(h, path))
  {
    hide Trim, Repo.Ancestor, Truthful, IsObjectId, Includes;
    var s := ReceiptAt(g, h).value.sourceSubject;
    ScopesAgree(g, s, p);
    ScopesAgree(g, p, h);
    var held :| held in g.Contracts(h);
    assert CONTRACTS_PREFIX <= held && g.Show(h, held).Some?;
    if InjectiveTrees(g) {
      assert g.Contracts(s) == g.Contracts(p) == g.Contracts(h);
      forall path: Path | CONTRACTS_PREFIX <= path ensures g.Show(s, path) == g.Show(p, path) == g.Show(h, path) {
        ContractsShow(g, s, path);
        ContractsShow(g, p, path);
        ContractsShow(g, h, path);
      }
    }
  }

  lemma ContractsShow(g: Repo, rev: Commit, path: Path)
    requires rev in g.commits && CONTRACTS_PREFIX <= path
    ensures g.Show(rev, path) == if path in g.Contracts(rev) then Some(g.Contracts(rev)[path]) else None
  {
  }

  /**
   * A head that keeps receipt and triage but edits the contracts, or the pin, is refused for its scope
   * when its container is still the only one; and it never verifies.
   */
  lemma EditedInputsRefused(g: Repo, h: Commit, p: Commit, later: Commit)
    requires Verified(g, h, p) && h in g.commits && g.Ancestor(h, later) && later != p && IsObjectId(later)
    requires TextsCurrent(g, h, later) && later in g.commits
    requires g.treeOid(g.Contracts(later)) != g.treeOid(g.Contracts(h)) || g.PinAt(later) != g.PinAt(h)
    ensures !exists q :: Verified(g, later, q)
    ensures g.ScopeAt(later).Some? && g.OnlyCandidate(ReceiptAt(g, h).value.triageSubject, later, p) ==>
              Located(g, later, p) && ScopeChanged(g, ReceiptAt(g, later).value, p, later)
  {
    hide Trim, Repo.Ancestor, Truthful, IsObjectId, Includes, Repo.ScopeAt, Repo.Publishes;
    if g.ScopeAt(later).Some? {
      ScopesAgree(g, h, later);
    }
    assert ReceiptAt(g, later) == ReceiptAt(g, h);
  }

  /** The container of a verified head is unique. */
  lemma ContainerUnique(g: Repo, h: Commit, p: Commit, q: Commit)
    requires Verified(g, h, p) && Verified(g, h, q)
    ensures p == q
  {
    assert g.IsCandidate(ReceiptAt(g, h).value.triageSubject, h, q);
  }

  /**
   * A descendant whose receipt and triage read the same, with the same scanner's inputs, verifies
   * with the same container exactly when its history adds no second candidate.
   */
  lemma DescendantVerifies(g: Repo, h: Commit, p: Commit, later: Commit)
    requires Verified(g, h, p) && g.Ancestor(h, later) && IsObjectId(later)
    requires g.Text(later, RECEIPT_PATH) == g.Text(h, RECEIPT_PATH)
    requires g.Text(later, TRIAGE_PATH) == g.Text(h, TRIAGE_PATH)
    requires g.ScopeAt(later) == g.ScopeAt(h)
    ensures Verified(g, later, p) <==>
            forall c :: g.IsCandidate(ReceiptAt(g, h).value.triageSubject, later, c) ==> c == p
    ensures (exists q :: Verified(g, later, q)) ==> Verified(g, later, p)
  {
    hide Repo.ScopeAt, Repo.Text, Repo.Ancestor, Repo.Publishes, Truthful;
    var t := ReceiptAt(g, h).value.triageSubject;
    assert g.IsCandidate(t, h, p);
    g.AncestorTransitive(p, h, later);
    assert g.IsCandidate(t, later, p);
    if q :| Verified(g, later, q) {
      assert g.OnlyCandidate(t, later, q);
    }
  }

  // ----- reading is not comparing bytes -----------------------------------------------------

  /** The bytes the documentation says are the same, at container and head. */
  ghost predicate SameBytes(g: Repo, p: Commit, h: Commit) {
    g.Show(p, RECEIPT_PATH) == g.Show(h, RECEIPT_PATH) && g.Show(p, TRIAGE_PATH) == g.Show(h, TRIAGE_PATH)
  }

  ghost predicate SameMargins(g: Repo, p: Commit, h: Commit, path: Path) {
    g.Show(p, path).Some? && g.Show(h, path).Some? && Margins(g.Show(p, path).value) == Margins(g.Show(h, path).value)
  }

  /**
   * At a verified head, receipt and triage are byte for byte those of the container exactly when the
   * whitespace around each is.
   */
  lemma VerifiedBytes(g: Repo, h: Commit, p: Commit)
    requires Verified(g, h, p)
    ensures SameBytes(g, p, h) <==> SameMargins(g, p, h, RECEIPT_PATH) && SameMargins(g, p, h, TRIAGE_PATH)
  {
    hide Trim, Margins, Repo.ScopeAt, Repo.Ancestor, Truthful;
    TrimmedAlike(g.Show(p, RECEIPT_PATH).value, g.Show(h, RECEIPT_PATH).value);
    TrimmedAlike(g.Show(p, TRIAGE_PATH).value, g.Show(h, TRIAGE_PATH).value);
  }
}
