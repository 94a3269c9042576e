/** Heads the verification accepts although bytes differ or more than the receipt changed. */
module PublicationExamples {
  import opened Wrappers
  import opened Strings
  import opened PublicationContainer

  function Id(c: char): Commit {
    seq(40, i => c)
  }

  const T := Id('a')
  const P := Id('b')
  const H := Id('c')
  const TREE := Id('d')
  const CONTRACT := "prototype/vnext-kernel/contracts/C.sol"

  /** The files of the triage subject, the triage given. */
  function Subject(triage: string): Files {
    map[TRIAGE_PATH := triage, LOCKFILE_PATH := "{}", CONTRACT := "contract C {}"]
  }

  /** A triage subject, a child that adds the receipt, and a head that rewrites the triage. */
  function Line(triage: string, rewritten: string): Repo {
    Repo(
      map[T := CommitData([], Subject(triage)),
          P := CommitData([T], Subject(triage)[RECEIPT_PATH := "{}"]),
          H := CommitData([P], Subject(rewritten)[RECEIPT_PATH := "{}"])],
      (a, b) => [], (a, b) => map[], files => TREE,
      text => Some(Receipt(T, TREE, T, TREE)), text => Some(Pin("5.0.0", "sha")), version => Some("closure"), "config")
  }

  lemma PathsDiffer()
    ensures RECEIPT_PATH != TRIAGE_PATH && RECEIPT_PATH != LOCKFILE_PATH && RECEIPT_PATH != CONTRACT
    ensures TRIAGE_PATH != LOCKFILE_PATH && TRIAGE_PATH != CONTRACT && LOCKFILE_PATH != CONTRACT
    ensures CONTRACTS_PREFIX <= CONTRACT && !(CONTRACTS_PREFIX <= RECEIPT_PATH)
  {
    assert RECEIPT_PATH[23] == 'S' && TRIAGE_PATH[23] == 's' && CONTRACT[23] == 'c' && CONTRACTS_PREFIX[23] == 'c';
    assert RECEIPT_PATH[1] == 'r' && TRIAGE_PATH[1] == 'r' && CONTRACT[1] == 'r' && LOCKFILE_PATH[1] == 'a';
  }

  lemma IdsDiffer()
    ensures T != P && T != H && P != H
    ensures IsObjectId(T) && IsObjectId(P) && IsObjectId(H) && IsObjectId(TREE)
  {
    assert T[0] == 'a' && P[0] == 'b' && H[0] == 'c';
  }

  lemma PublishesAtP(triage: string, rewritten: string)
    ensures Line(triage, rewritten).Publishes(T, P)
  {
    var g := Line(triage, rewritten);
    IdsDiffer();
    PathsDiffer();
    assert g.Changed(T, P) == {RECEIPT_PATH};
  }

  lemma AncestorsInLine(triage: string, rewritten: string)
    ensures var g := Line(triage, rewritten); g.Ancestor(T, P) && g.Ancestor(P, H) && !g.Ancestor(P, T)
  {
    hide Subject;
    var g := Line(triage, rewritten);
    IdsDiffer();
    assert g.IsPath([T, P]) && g.IsPath([P, H]);
    forall q | g.IsPath(q) && q[0] == P ensures q[|q| - 1] != T {
      if |q| > 1 {
        assert q[|q| - 2] in g.commits[q[|q| - 1]].parents;
      }
    }
  }

  lemma OnlyP(triage: string, rewritten: string)
    ensures Line(triage, rewritten).OnlyCandidate(T, H, P)
  {
    hide Repo.Listed, Repo.Ancestor, Subject;
    IdsDiffer();
    PublishesAtP(triage, rewritten);
    AncestorsInLine(triage, rewritten);
  }

  lemma ScopesAlike(triage: string, rewritten: string)
    ensures var g := Line(triage, rewritten);
            g.ScopeAt(T).Some? && g.ScopeAt(P) == g.ScopeAt(T) == g.ScopeAt(H)
  {
    hide Trim;
    var g := Line(triage, rewritten);
    IdsDiffer();
    PathsDiffer();
    assert CONTRACT in g.Contracts(T) && CONTRACT in g.Contracts(P) && CONTRACT in g.Contracts(H);
  }

  /** Any rewriting of the triage that reads the same verifies. */
  lemma RewrittenVerifies(triage: string, rewritten: string)
    requires Trim(triage) == Trim(rewritten)
    ensures Verified(Line(triage, rewritten), H, P)
    ensures Line(triage, rewritten).Show(P, TRIAGE_PATH) == Some(triage)
    ensures Line(triage, rewritten).Show(H, TRIAGE_PATH) == Some(rewritten)
  {
    hide Trim, Repo.Listed, Repo.Publishes, Repo.ScopeAt, Repo.OnlyCandidate, Repo.Ancestor;
    IdsDiffer();
    PathsDiffer();
    AncestorsInLine(triage, rewritten);
    OnlyP(triage, rewritten);
    ScopesAlike(triage, rewritten);
    BracesRead();
  }

  lemma BracesRead()
    ensures Trim("{}") == "{}" && Trim("{}\n") == "{}" && !Includes("{}", P)
  {
    assert !IsSpace('{') && !IsSpace('}') && IsSpace('\n');
    assert "{}\n"[..2] == "{}";
    assert DropTrailing("{}") == "{}";
  }

  /** A head that appends a newline to the triage verifies, though the bytes are not the published ones. */
  lemma NewlineVerifies()
    ensures var g := Line("{}", "{}\n");
            Verified(g, H, P) && g.Show(H, TRIAGE_PATH) == Some("{}\n") && g.Show(P, TRIAGE_PATH) == Some("{}")
  {
    BracesRead();
    RewrittenVerifies("{}", "{}\n");
  }

  const S := Id('e')
  const LARGER := Id('f')
  const RENAMED := "prototype/vnext-kernel/contracts/D.sol"

  function RenamedIn(a: Files, b: Files): map<Path, Path> {
    if RENAMED in a && RENAMED !in b && RECEIPT_PATH in b && RECEIPT_PATH !in a then map[RENAMED := RECEIPT_PATH] else map[]
  }

  /** The scanned source, a triage subject with one contract more, and a child that renames it to the receipt. */
  function Renaming(): Repo {
    Repo(
      map[S := CommitData([], Subject("{}")),
          T := CommitData([S], Subject("{}")[RENAMED := "{}"]),
          P := CommitData([T], Subject("{}")[RECEIPT_PATH := "{}"])],
      (a, b) => [], RenamedIn,
      (files: Files) => if RENAMED in files then LARGER else TREE,
      text => Some(Receipt(S, TREE, T, LARGER)), text => Some(Pin("5.0.0", "sha")), version => Some("closure"), "config")
  }

  lemma RenamedDiffers()
    ensures RENAMED != RECEIPT_PATH && RENAMED != TRIAGE_PATH && RENAMED != LOCKFILE_PATH && RENAMED != CONTRACT
    ensures CONTRACTS_PREFIX <= RENAMED
    ensures IsObjectId(S) && IsObjectId(LARGER) && S != T && S != P
  {
    assert RENAMED[23] == 'c' && RECEIPT_PATH[23] == 'S' && TRIAGE_PATH[23] == 's' && |LOCKFILE_PATH| != |RENAMED|;
    assert RENAMED[33] == 'D' && CONTRACT[33] == 'C';
    assert S[0] == 'e' && T[0] == 'a' && P[0] == 'b' && LARGER[0] == 'f';
  }

  lemma RenamingMoves()
    ensures Renaming().RenamesAreMoves()
  {
    hide Subject, RenamedIn;
    forall a, b {
      RenamedInMoves(a, b);
    }
    assert forall a, b :: Renaming().renames(a, b) == RenamedIn(a, b);
  }

  lemma RenamedInMoves(a: Files, b: Files)
    ensures forall q :: q in RenamedIn(a, b) ==> q == RENAMED && q in a && q !in b && RenamedIn(a, b)[q] in b && RenamedIn(a, b)[q] !in a
  {
  }

  lemma RenamingChanges()
    ensures T in Renaming().commits && P in Renaming().commits
    ensures Renaming().Changed(T, P) == {RECEIPT_PATH, RENAMED} && Renaming().Sources(T, P) == {RENAMED}
  {
    var g := Renaming();
    IdsDiffer();
    PathsDiffer();
    RenamedDiffers();
    ChangedByRenaming();
    assert g.commits[T].files == Subject("{}")[RENAMED := "{}"] && g.commits[P].files == Subject("{}")[RECEIPT_PATH := "{}"];
    assert g.Sources(T, P) == {RENAMED};
  }

  lemma ChangedByRenaming()
    requires T in Renaming().commits && P in Renaming().commits
    ensures Renaming().Changed(T, P) == {RECEIPT_PATH, RENAMED}
  {
    hide RenamedIn;
    IdsDiffer();
    PathsDiffer();
    RenamedDiffers();
    assert Renaming().Changed(T, P) == {RECEIPT_PATH, RENAMED};
  }

  /** A commit that renames a contract to the receipt publishes the receipt, as a diff lists it. */
  lemma RenamePublishes()
    ensures Renaming().RenamesAreMoves() && Renaming().Publishes(T, P)
    ensures Renaming().Changed(T, P) == {RECEIPT_PATH, RENAMED}
  {
    hide Subject, Repo.Changed, Repo.Sources, Repo.RenamesAreMoves;
    RenamingMoves();
    RenamingChanges();
    IdsDiffer();
    RenamedDiffers();
    assert Renaming().Listed(T, P) == {RECEIPT_PATH};
  }

  lemma FirstStep(g: Repo, q: seq<Commit>)
    requires g.IsPath(q) && |q| > 1
    ensures q[1] in g.commits && q[0] in g.commits[q[1]].parents
  {
  }

  lemma NoneFollowsP()
    ensures Renaming().Ancestor(T, P) && Renaming().Ancestor(P, P) && !Renaming().Ancestor(P, T)
  {
    hide Subject;
    var g := Renaming();
    IdsDiffer();
    RenamedDiffers();
    assert g.IsPath([T, P]) && g.IsPath([P]);
    forall q | g.IsPath(q) && q[0] == P ensures q[|q| - 1] != T {
      if |q| > 1 {
        FirstStep(g, q);
      }
    }
  }

  lemma RenamingOnlyP()
    ensures Renaming().OnlyCandidate(T, P, P)
  {
    hide Repo.Listed, Subject, Repo.Ancestor, Repo.RenamesAreMoves;
    IdsDiffer();
    RenamedDiffers();
    RenamePublishes();
    NoneFollowsP();
  }

  lemma RenamingScopes()
    ensures var g := Renaming();
            g.ScopeAt(S).Some? && g.ScopeAt(P) == g.ScopeAt(S) && g.Contracts(T) != g.Contracts(P)
  {
    hide Trim;
    var g := Renaming();
    IdsDiffer();
    PathsDiffer();
    RenamedDiffers();
    assert CONTRACT in g.Contracts(S) && RENAMED in g.Contracts(T) && RENAMED !in g.Contracts(P);
    assert g.Contracts(P) == g.Contracts(S);
  }

  /** It verifies, though a contract of the triage subject went with the publication. */
  lemma RenameVerifies()
    ensures Verified(Renaming(), P, P)
    ensures Renaming().Contracts(T) != Renaming().Contracts(P)
  {
    hide Trim, Repo.Listed, Repo.Publishes, Repo.ScopeAt, Repo.OnlyCandidate, Repo.Ancestor;
    IdsDiffer();
    PathsDiffer();
    RenamedDiffers();
    NoneFollowsP();
    RenamingOnlyP();
    RenamingScopes();
    BracesRead();
  }
}
