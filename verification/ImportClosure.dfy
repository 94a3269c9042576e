/** The transitive closure of external imports, walked depth first over a possibly cyclic graph. */
module ImportClosure {
  import opened Wrappers
  import opened Seqs
  import opened Sorting
  import opened Strings

  type Path = string

  const REMAP_PREFIX := "@openzeppelin/contracts/"

  /**
   * The sources: each external file's import specifiers, each project file's, and how a relative
   * specifier of a file resolves.
   */
  datatype Sources = Sources(
    external: map<Path, seq<string>>,
    projects: seq<seq<string>>,
    resolve: (Path, string) -> Path)
  {
    /** The external file an external file's specifier names, if it names one. */
    function Target(rel: Path, spec: string): Option<Path> {
      if REMAP_PREFIX <= spec then Some(spec[|REMAP_PREFIX|..])
      else if "." <= spec then Some(resolve(rel, spec))
      else None
    }

    /** A project file reaches external files through the remap only. */
    function ProjectTarget(spec: string): Option<Path> {
      if REMAP_PREFIX <= spec then Some(spec[|REMAP_PREFIX|..]) else None
    }

    /** A remapped specifier names its rest, a relative one what it resolves to, and only from an external file. */
    lemma SpecifiersName(rel: Path, rest: string)
      ensures Target(rel, "@openzeppelin/contracts/" + rest) == Some(rest) == ProjectTarget("@openzeppelin/contracts/" + rest)
      ensures Target(rel, "." + rest) == Some(resolve(rel, "." + rest)) && ProjectTarget("." + rest) == None
      ensures rest != "" && rest[0] != '@' && rest[0] != '.' ==> Target(rel, rest) == None == ProjectTarget(rest)
    {
      var remapped, relative := "@openzeppelin/contracts/" + rest, "." + rest;
      assert remapped[|REMAP_PREFIX|..] == rest;
      assert relative[0] == '.' && REMAP_PREFIX[0] == '@' && "."[0] == '.';
    }

    ghost predicate Imports(a: Path, b: Path) {
      a in external && exists spec :: spec in external[a] && Target(a, spec) == Some(b)
    }

    ghost predicate IsRoot(a: Path) {
      exists p, spec :: p in projects && spec in p && ProjectTarget(spec) == Some(a)
    }

    ghost predicate IsChain(p: seq<Path>) {
      0 < |p| && forall i :: 0 < i < |p| ==> Imports(p[i - 1], p[i])
    }

    ghost predicate Leads(a: Path, b: Path) {
      exists p :: IsChain(p) && p[0] == a && p[|p| - 1] == b
    }

    ghost predicate Reachable(b: Path) {
      exists a :: IsRoot(a) && Leads(a, b)
    }

    /** Holds the roots and, of every file it holds, the imports. */
    ghost predicate Closed(files: iset<Path>) {
      && (forall a :: IsRoot(a) ==> a in files)
      && (forall a, b :: a in files && Imports(a, b) ==> b in files)
    }

    lemma LeadsToItself(a: Path)
      ensures Leads(a, a)
    {
      assert IsChain([a]);
    }

    lemma LeadsAfterImport(a: Path, b: Path, c: Path)
      requires Imports(a, b) && Leads(b, c)
      ensures Leads(a, c)
    {
      var p :| IsChain(p) && p[0] == b && p[|p| - 1] == c;
      var q := [a] + p;
      forall i | 0 < i < |q| ensures Imports(q[i - 1], q[i]) {
        if i > 1 {
          assert Imports(p[i - 2], p[i - 1]);
        }
      }
      assert IsChain(q);
    }

    lemma LeadsThenImports(a: Path, b: Path, c: Path)
      requires Leads(a, b) && Imports(b, c)
      ensures Leads(a, c)
    {
      var p :| IsChain(p) && p[0] == a && p[|p| - 1] == b;
      assert IsChain(p + [c]);
    }

    lemma {:induction false} ChainStaysInClosed(files: iset<Path>, p: seq<Path>, i: nat)
      requires Closed(files) && IsChain(p) && p[0] in files && i < |p|
      ensures p[i] in files
    {
      if 0 < i {
        ChainStaysInClosed(files, p, i - 1);
        assert Imports(p[i - 1], p[i]);
      }
    }

    lemma ReachableIsClosed()
      ensures Closed(iset b | Reachable(b))
    {
      hide Leads, Imports, IsRoot;
      forall a | IsRoot(a) ensures Reachable(a) { LeadsToItself(a); }
      forall a, b | Reachable(a) && Imports(a, b) ensures Reachable(b) {
        var r :| IsRoot(r) && Leads(r, a);
        LeadsThenImports(r, a, b);
      }
    }

    /** The reachable files are the least set that holds the roots and is closed under imports. */
    lemma ReachableIsLeastClosed(files: iset<Path>)
      ensures Closed(iset b | Reachable(b))
      ensures Closed(files) ==> forall b :: Reachable(b) ==> b in files
    {
      hide Closed, IsRoot;
      ReachableIsClosed();
      if Closed(files) {
        forall b | Reachable(b) ensures b in files {
          var r :| IsRoot(r) && Leads(r, b);
          var p :| IsChain(p) && p[0] == r && p[|p| - 1] == b;
          RootsInClosed(files, r);
          ChainStaysInClosed(files, p, |p| - 1);
        }
      }
    }

    lemma RootsInClosed(files: iset<Path>, r: Path)
      requires Closed(files) && IsRoot(r)
      ensures r in files
    {
    }
  }

  /** One walk: the files seen so far, in the order they were first seen. */
  class ImportWalk {
    const src: Sources
    var seen: seq<Path>

    constructor (src: Sources)
      ensures this.src == src && seen == []
    {
      this.src := src;
      seen := [];
    }

    ghost function Seen(): set<Path>
      reads this
    {
      set x | x in seen
    }

    ghost function NewSince(before: set<Path>): set<Path>
      reads this
    {
      Seen() - before
    }

    /** These files were walked to the end: they exist, and everything they import is seen. */
    ghost predicate Finished(files: set<Path>)
      reads this
    {
      forall x :: x in files ==> x in src.external && forall y :: src.Imports(x, y) ==> y in Seen()
    }

    /** Whether the walk went through; when it did not, some missing file was reached. */
    method WalkExternal(rel: Path) returns (ok: bool)
      modifies this
      ensures old(Seen()) <= Seen() && old(seen) <= seen
      ensures Distinct(old(seen)) ==> Distinct(seen)
      ensures forall x :: x in NewSince(old(Seen())) ==> src.Leads(rel, x)
      ensures ok ==> rel in Seen() && Finished(NewSince(old(Seen())))
      ensures !ok ==> exists x :: src.Leads(rel, x) && x !in src.external
      decreases src.external.Keys - Seen()
    {
      hide Sources.Leads, Sources.Target;
      if rel in seen {
        return true;
      }
      ghost var before := Seen();
      seen := seen + [rel];
      src.LeadsToItself(rel);
      if rel !in src.external {
        return false;
      }
      var specs := src.external[rel];
      for i := 0 to |specs|
        invariant before + {rel} <= Seen() && old(seen) <= seen
        invariant Distinct(old(seen)) ==> Distinct(seen)
        invariant forall x :: x in NewSince(before) ==> src.Leads(rel, x)
        invariant Finished(NewSince(before) - {rel})
        invariant forall spec :: spec in specs[..i] && src.Target(rel, spec).Some? ==> src.Target(rel, spec).value in Seen()
      {
        var target := src.Target(rel, specs[i]);
        assert specs[..i + 1] == specs[..i] + [specs[i]];
        if target.Some? {
          assert src.Imports(rel, target.value);
          ghost var mid := Seen();
          var walked := WalkExternal(target.value);
          forall x | src.Leads(target.value, x) ensures src.Leads(rel, x) {
            src.LeadsAfterImport(rel, target.value, x);
          }
          if !walked {
            return false;
          }
          assert NewSince(before) == (mid - before) + NewSince(mid);
        }
      }
      assert specs[..|specs|] == specs;
      return true;
    }
  }

  /** The files seen from a list of project specifiers. */
  method WalkProject(w: ImportWalk, specs: seq<string>) returns (ok: bool)
    requires w.Finished(w.Seen()) && Distinct(w.seen)
    modifies w
    ensures old(w.Seen()) <= w.Seen() && Distinct(w.seen)
    ensures forall x :: x in w.Seen() && x !in old(w.Seen()) ==>
              exists spec :: spec in specs && w.src.ProjectTarget(spec).Some? && w.src.Leads(w.src.ProjectTarget(spec).value, x)
    ensures ok ==> w.Finished(w.Seen())
    ensures ok ==> forall spec :: spec in specs && w.src.ProjectTarget(spec).Some? ==> w.src.ProjectTarget(spec).value in w.Seen()
    ensures !ok ==> exists spec, x :: spec in specs && w.src.ProjectTarget(spec).Some? &&
                      w.src.Leads(w.src.ProjectTarget(spec).value, x) && x !in w.src.external
  {
    for i := 0 to |specs|
      invariant old(w.Seen()) <= w.Seen() && Distinct(w.seen)
      invariant w.Finished(w.Seen())
      invariant forall x :: x in w.Seen() && x !in old(w.Seen()) ==>
        exists spec :: spec in specs && w.src.ProjectTarget(spec).Some? && w.src.Leads(w.src.ProjectTarget(spec).value, x)
      invariant forall spec :: spec in specs[..i] && w.src.ProjectTarget(spec).Some? ==>
        w.src.ProjectTarget(spec).value in w.Seen()
    {
      var target := w.src.ProjectTarget(specs[i]);
      assert specs[..i + 1] == specs[..i] + [specs[i]];
      if target.Some? {
        ghost var before := w.Seen();
        var walked := w.WalkExternal(target.value);
        if !walked {
          return false;
        }
        assert w.Seen() == before + w.NewSince(before);
      }
    }
    assert specs[..|specs|] == specs;
    return true;
  }

  /**
   * The closure: exactly the reachable files, each once, sorted; it fails exactly when some
   * reachable file is missing.
   */
  method ExternalImportClosure(src: Sources) returns (r: Option<seq<Path>>)
    ensures r.Some? <==> forall x :: src.Reachable(x) ==> x in src.external
    ensures r.Some? ==> forall x :: x in r.value <==> src.Reachable(x)
    ensures r.Some? ==> Distinct(r.value) && Sorted(r.value, StringLeq)
  {
    var w := new ImportWalk(src);
    for i := 0 to |src.projects|
      invariant w.src == src && Distinct(w.seen)
      invariant w.Finished(w.Seen())
      invariant forall x :: x in w.Seen() ==> src.Reachable(x)
      invariant forall p, spec :: p in src.projects[..i] && spec in p && src.ProjectTarget(spec).Some? ==>
        src.ProjectTarget(spec).value in w.Seen()
    {
      assert src.projects[..i + 1] == src.projects[..i] + [src.projects[i]];
      var ok := WalkProject(w, src.projects[i]);
      forall spec, x | spec in src.projects[i] && src.ProjectTarget(spec).Some? &&
                       src.Leads(src.ProjectTarget(spec).value, x)
        ensures src.Reachable(x)
      {
        assert src.IsRoot(src.ProjectTarget(spec).value);
      }
      if !ok {
        return None;
      }
    }
    assert src.projects[..|src.projects|] == src.projects;
    ghost var files := iset x | x in w.seen;
    assert src.Closed(files);
    src.ReachableIsLeastClosed(files);
    StringOrder();
    SortMembers(w.seen, StringLeq);
    SortSorts(w.seen, StringLeq);
    SortPermutes(w.seen, StringLeq);
    PermutationKeepsDistinct(w.seen, StableSort(w.seen, StringLeq));
    return Some(StableSort(w.seen, StringLeq));
  }
}
