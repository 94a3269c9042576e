/**
 * The append-only proof over a commit DAG: checks on single parent edges, and what their silence
 * says about whole histories.
 */
module AppendOnlyHistory {
  import opened Wrappers

  type Commit = string
  type ObjectId = string
  type Path = string

  /**
   * A repository as the check sees it: every commit's parents, the commits `rev-list` lists from
   * HEAD, and the object at the record's path in each commit that has one.
   */
  datatype History = History(
    parents: map<Commit, seq<Commit>>,
    head: Commit,
    listed: seq<Commit>,
    objects: map<Commit, ObjectId>)
  {
    ghost predicate Valid() {
      && head in parents
      && (forall c :: c in parents ==> forall p :: p in parents[c] ==> p in parents)
      && (forall c :: c in listed <==> exists p :: IsPath(p) && p[0] == c && p[|p| - 1] == head)
    }

    /** Commits from older to newer, each a parent of the next. */
    ghost predicate IsPath(p: seq<Commit>) {
      && 0 < |p| && p[0] in parents
      && forall i :: 0 < i < |p| ==> p[i] in parents && p[i - 1] in parents[p[i]]
    }

    function At(c: Commit): Option<ObjectId> {
      if c in objects then Some(objects[c]) else None
    }
  }

  datatype Edge = Edge(commit: Commit, parent: Option<Commit>, newer: Option<ObjectId>, older: Option<ObjectId>)

  function Holding(h: History, parents: seq<Commit>): seq<Commit> {
    if parents == [] then []
    else Holding(h, parents[..|parents| - 1]) +
         if h.At(parents[|parents| - 1]).Some? then [parents[|parents| - 1]] else []
  }

  lemma HoldingMembers(h: History, parents: seq<Commit>)
    ensures forall p :: p in Holding(h, parents) <==> p in parents && h.At(p).Some?
  {
    if parents != [] {
      HoldingMembers(h, parents[..|parents| - 1]);
      assert parents == parents[..|parents| - 1] + [parents[|parents| - 1]];
    }
  }

  /**
   * An edge the check compares: against each parent that holds the record, when the object
   * differs; and an introduction, when no parent holds it.
   */
  ghost predicate IsChangedEdge(h: History, e: Edge) {
    && e.commit in h.listed && e.commit in h.parents
    && e.newer == h.At(e.commit)
    && var parents := h.parents[e.commit];
       if e.older.Some? then
         e.parent.Some? && e.parent.value in parents && h.At(e.parent.value) == e.older != e.newer
       else
         && e.newer.Some? && (forall p :: p in parents ==> h.At(p).None?)
         && e.parent == if parents == [] then None else Some(parents[0])
  }

  method EdgesOfCommit(h: History, c: Commit) returns (edges: seq<Edge>)
    requires c in h.listed && c in h.parents
    ensures forall e :: e in edges <==> IsChangedEdge(h, e) && e.commit == c
  {
    var newer, parents := h.At(c), h.parents[c];
    var holding := Holding(h, parents);
    HoldingMembers(h, parents);
    edges := [];
    if holding == [] {
      assert forall p :: p in parents ==> h.At(p).None?;
      if newer.Some? {
        edges := [Edge(c, if parents == [] then None else Some(parents[0]), newer, None)];
      }
      return;
    }
    assert holding[0] in parents && h.At(holding[0]).Some?;
    for i := 0 to |holding|
      invariant forall e :: e in edges <==>
        e.commit == c && e.newer == newer && e.parent.Some? && e.parent.value in holding[..i] &&
        h.At(e.parent.value) == e.older != newer
    {
      var older := h.At(holding[i]);
      assert holding[..i + 1] == holding[..i] + [holding[i]];
      if older != newer {
        edges := edges + [Edge(c, Some(holding[i]), newer, older)];
      }
    }
    assert holding[..|holding|] == holding;
  }

  /** Every edge to compare, and no other. */
  method ChangedEdges(h: History) returns (edges: seq<Edge>)
    requires h.Valid()
    ensures forall e :: e in edges <==> IsChangedEdge(h, e)
  {
    edges := [];
    for i := 0 to |h.listed|
      invariant forall e :: e in edges <==> IsChangedEdge(h, e) && e.commit in h.listed[..i]
    {
      ListedAreCommits(h, h.listed[i]);
      var own := EdgesOfCommit(h, h.listed[i]);
      assert h.listed[..i + 1] == h.listed[..i] + [h.listed[i]];
      edges := edges + own;
    }
    assert h.listed[..|h.listed|] == h.listed;
  }

  lemma ListedAreCommits(h: History, c: Commit)
    requires h.Valid() && c in h.listed
    ensures c in h.parents
  {
  }

  // ----- a file -----------------------------------------------------------------------------

  /** Every way the newer content fails to extend the older; None is absence. */
  type Rule = (Option<string>, Option<string>) -> seq<string>

  function ContentAt(id: Option<ObjectId>, blobs: ObjectId -> string): Option<string> {
    match id case None => None case Some(i) => Some(blobs(i))
  }

  /** The rule passes on every changed edge, and on the working tree where it differs from HEAD. */
  ghost predicate FileClean(h: History, rule: Rule, blobs: ObjectId -> string, disk: Option<string>) {
    && (forall e :: IsChangedEdge(h, e) ==> rule(ContentAt(e.older, blobs), ContentAt(e.newer, blobs)) == [])
    && (ContentAt(h.At(h.head), blobs) != disk ==> rule(ContentAt(h.At(h.head), blobs), disk) == [])
  }

  /** The file check: silent exactly on a complete history that is clean. */
  method FileHistoryErrors(h: History, shallow: bool, rule: Rule, blobs: ObjectId -> string, disk: Option<string>)
    returns (errors: seq<string>)
    requires h.Valid()
    ensures errors == [] <==> !shallow && FileClean(h, rule, blobs, disk)
  {
    if shallow {
      return ["the append-only check needs the full history"];
    }
    errors := [];
    var edges := ChangedEdges(h);
    for i := 0 to |edges|
      invariant errors == [] <==>
        forall e :: e in edges[..i] ==> rule(ContentAt(e.older, blobs), ContentAt(e.newer, blobs)) == []
    {
      assert edges[..i + 1] == edges[..i] + [edges[i]];
      errors := errors + rule(ContentAt(edges[i].older, blobs), ContentAt(edges[i].newer, blobs));
    }
    assert edges[..|edges|] == edges;
    var head := ContentAt(h.At(h.head), blobs);
    if head != disk {
      errors := errors + rule(head, disk);
    }
  }

  /** The record in a commit, if the commit has it. */
  function Record(h: History, c: Commit, blobs: ObjectId -> string): Option<string> {
    if c in h.objects then Some(blobs(h.objects[c])) else None
  }

  /** Where a parent holds the record, the commit has the same object or passes the rule against it. */
  ghost predicate ParentsPass(h: History, rule: Rule, blobs: ObjectId -> string) {
    forall c, p :: c in h.listed && c in h.parents && p in h.parents[c] && p in h.objects ==>
      (c in h.objects && h.objects[c] == h.objects[p]) || rule(Record(h, p, blobs), Record(h, c, blobs)) == []
  }

  /** Where no parent holds it, the commit's record passes against nothing. */
  ghost predicate IntroductionsPass(h: History, rule: Rule, blobs: ObjectId -> string) {
    forall c :: c in h.listed && c in h.parents && c in h.objects && (forall p :: p in h.parents[c] ==> p !in h.objects) ==>
      rule(None, Record(h, c, blobs)) == []
  }

  /** A clean history, commit by commit; and what is on disk is HEAD's or passes against it. */
  lemma FileCleanMeans(h: History, rule: Rule, blobs: ObjectId -> string, disk: Option<string>)
    ensures FileClean(h, rule, blobs, disk) <==>
            && ParentsPass(h, rule, blobs) && IntroductionsPass(h, rule, blobs)
            && (Record(h, h.head, blobs) == disk || rule(Record(h, h.head, blobs), disk) == [])
  {
    hide ParentsPass, IntroductionsPass, IsChangedEdge;
    if FileClean(h, rule, blobs, disk) {
      CleanPasses(h, rule, blobs);
    }
    if ParentsPass(h, rule, blobs) && IntroductionsPass(h, rule, blobs) {
      forall e | IsChangedEdge(h, e) ensures rule(ContentAt(e.older, blobs), ContentAt(e.newer, blobs)) == [] {
        EdgePasses(h, rule, blobs, e);
      }
    }
  }

  lemma EdgePasses(h: History, rule: Rule, blobs: ObjectId -> string, e: Edge)
    requires ParentsPass(h, rule, blobs) && IntroductionsPass(h, rule, blobs) && IsChangedEdge(h, e)
    ensures rule(ContentAt(e.older, blobs), ContentAt(e.newer, blobs)) == []
  {
    if e.older.Some? {
      assert e.parent.value in h.objects;
      assert Record(h, e.parent.value, blobs) == ContentAt(e.older, blobs) && Record(h, e.commit, blobs) == ContentAt(e.newer, blobs);
    } else {
      forall p | p in h.parents[e.commit] ensures p !in h.objects {
        assert h.At(p).None?;
      }
      assert Record(h, e.commit, blobs) == ContentAt(e.newer, blobs);
    }
  }

  lemma CleanPasses(h: History, rule: Rule, blobs: ObjectId -> string)
    requires forall e :: IsChangedEdge(h, e) ==> rule(ContentAt(e.older, blobs), ContentAt(e.newer, blobs)) == []
    ensures ParentsPass(h, rule, blobs) && IntroductionsPass(h, rule, blobs)
  {
    forall c, p | c in h.listed && c in h.parents && p in h.parents[c] && p in h.objects
      ensures (c in h.objects && h.objects[c] == h.objects[p]) || rule(Record(h, p, blobs), Record(h, c, blobs)) == []
    {
      if h.At(c) != h.At(p) {
        assert IsChangedEdge(h, Edge(c, Some(p), h.At(c), h.At(p)));
      }
    }
    forall c | c in h.listed && c in h.parents && c in h.objects && forall p :: p in h.parents[c] ==> p !in h.objects
      ensures rule(None, Record(h, c, blobs)) == []
    {
      var parent := if h.parents[c] == [] then None else Some(h.parents[c][0]);
      assert forall p :: p in h.parents[c] ==> h.At(p).None?;
      assert IsChangedEdge(h, Edge(c, parent, h.At(c), None));
    }
  }

  ghost predicate RefusesRemoval(rule: Rule) {
    forall a :: rule(Some(a), None) != []
  }

  ghost predicate Transitive(rule: Rule) {
    forall a, b, c :: rule(Some(a), Some(b)) == [] && rule(Some(b), Some(c)) == [] ==> rule(Some(a), Some(c)) == []
  }

  ghost predicate Extends(rule: Rule, older: string, newer: string) {
    older == newer || rule(Some(older), Some(newer)) == []
  }

  lemma PathStep(h: History, p: seq<Commit>, i: nat)
    requires h.Valid() && h.IsPath(p) && p[|p| - 1] == h.head && 0 < i < |p|
    ensures p[i] in h.listed && p[i] in h.parents && p[i - 1] in h.parents[p[i]]
  {
    var suffix := p[i..];
    forall j | 0 < j < |suffix| ensures suffix[j] in h.parents && suffix[j - 1] in h.parents[suffix[j]] {
      assert suffix[j] == p[i + j] && suffix[j - 1] == p[i + j - 1];
    }
    assert h.IsPath(suffix) && suffix[0] == p[i] && suffix[|suffix| - 1] == h.head;
  }

  /** One edge of a clean history: a record held by the parent is held, and extended, by the child. */
  lemma FileStep(h: History, rule: Rule, blobs: ObjectId -> string, disk: Option<string>, p: seq<Commit>, i: nat)
    requires h.Valid() && FileClean(h, rule, blobs, disk) && RefusesRemoval(rule)
    requires h.IsPath(p) && p[|p| - 1] == h.head && 0 < i < |p|
    requires h.At(p[i - 1]).Some?
    ensures h.At(p[i]).Some?
    ensures Extends(rule, blobs(h.At(p[i - 1]).value), blobs(h.At(p[i]).value))
  {
    PathStep(h, p, i);
    var e := Edge(p[i], Some(p[i - 1]), h.At(p[i]), h.At(p[i - 1]));
    if e.older != e.newer {
      assert IsChangedEdge(h, e);
    }
  }

  lemma {:induction false} FileExtendsAlongPath(
      h: History, rule: Rule, blobs: ObjectId -> string, disk: Option<string>, p: seq<Commit>, i: nat, j: nat)
    requires h.Valid() && FileClean(h, rule, blobs, disk) && RefusesRemoval(rule) && Transitive(rule)
    requires h.IsPath(p) && p[|p| - 1] == h.head && i <= j < |p|
    requires h.At(p[i]).Some?
    ensures h.At(p[j]).Some?
    ensures Extends(rule, blobs(h.At(p[i]).value), blobs(h.At(p[j]).value))
    decreases j
  {
    hide FileClean, RefusesRemoval, History.Valid, History.IsPath, History.At;
    if i < j {
      FileExtendsAlongPath(h, rule, blobs, disk, p, i, j - 1);
      FileStep(h, rule, blobs, disk, p, j);
    }
  }

  /**
   * A clean history only grows: once a commit holds the record, every commit on every path from it
   * to HEAD holds it, each version extending every earlier one, and so does the working tree.
   */
  lemma FileOnlyGrows(h: History, rule: Rule, blobs: ObjectId -> string, disk: Option<string>, p: seq<Commit>)
    requires h.Valid() && FileClean(h, rule, blobs, disk) && RefusesRemoval(rule) && Transitive(rule)
    requires h.IsPath(p) && p[|p| - 1] == h.head && h.At(p[0]).Some?
    ensures forall j :: 0 <= j < |p| ==> h.At(p[j]).Some?
    ensures forall i, j :: 0 <= i <= j < |p| ==> Extends(rule, blobs(h.At(p[i]).value), blobs(h.At(p[j]).value))
    ensures disk.Some?
    ensures forall i :: 0 <= i < |p| ==> Extends(rule, blobs(h.At(p[i]).value), disk.value)
  {
    forall j: nat | j < |p| ensures h.At(p[j]).Some? {
      FileExtendsAlongPath(h, rule, blobs, disk, p, 0, j);
    }
    forall i: nat, j: nat | i <= j < |p| ensures Extends(rule, blobs(h.At(p[i]).value), blobs(h.At(p[j]).value)) {
      FileExtendsAlongPath(h, rule, blobs, disk, p, i, j);
    }
  }

  // ----- a directory ------------------------------------------------------------------------

  type Files = map<Path, ObjectId>

  /** Which files are held to the rule, judged at the commit, or "HEAD", whose tree is the older side. */
  type Admission = (Path, Commit) -> bool

  function FilesOf(tree: Option<ObjectId>, trees: ObjectId -> Files): Files {
    match tree case None => map[] case Some(t) => trees(t)
  }

  function Admitted(files: Files, admits: Admission, commit: Commit): Files {
    map p | p in files && admits(p, commit) :: files[p]
  }

  /** Every older file is still there, byte for byte. */
  ghost predicate Kept(older: Files, newer: Files) {
    forall p :: p in older ==> p in newer && newer[p] == older[p]
  }

  datatype Loss = Removed(path: Path) | Changed(path: Path)

  method RemovedOrChanged(older: Files, newer: Files) returns (errors: seq<Loss>)
    ensures errors == [] <==> Kept(older, newer)
    ensures forall e :: e in errors <==>
              match e
              case Removed(p) => p in older && p !in newer
              case Changed(p) => p in older && p in newer && newer[p] != older[p]
  {
    errors := [];
    var todo := older.Keys;
    while todo != {}
      invariant todo <= older.Keys
      invariant errors == [] <==> forall p :: p in older && p !in todo ==> p in newer && newer[p] == older[p]
      invariant forall e :: e in errors <==>
        e.path !in todo &&
        match e
        case Removed(p) => p in older && p !in newer
        case Changed(p) => p in older && p in newer && newer[p] != older[p]
    {
      var path :| path in todo;
      todo := todo - {path};
      if path !in newer {
        errors := errors + [Removed(path)];
      } else if newer[path] != older[path] {
        errors := errors + [Changed(path)];
      }
    }
  }

  ghost predicate EdgeKept(e: Edge, trees: ObjectId -> Files, admits: Admission) {
    Kept(Admitted(FilesOf(e.older, trees), admits, if e.parent.Some? then e.parent.value else ""), FilesOf(e.newer, trees))
  }

  ghost predicate DirectoryClean(h: History, trees: ObjectId -> Files, admits: Admission, disk: Files) {
    && (forall e :: IsChangedEdge(h, e) ==> EdgeKept(e, trees, admits))
    && Kept(Admitted(FilesOf(h.At(h.head), trees), admits, "HEAD"), disk)
  }

  /** The directory check: silent exactly on a complete history that is clean. */
  method DirectoryHistoryErrors(h: History, shallow: bool, trees: ObjectId -> Files, admits: Admission, disk: Files)
    returns (errors: seq<Loss>, unavailable: bool)
    requires h.Valid()
    ensures unavailable == shallow
    ensures !shallow ==> (errors == [] <==> DirectoryClean(h, trees, admits, disk))
  {
    errors, unavailable := [], shallow;
    if shallow {
      return;
    }
    var edges := ChangedEdges(h);
    for i := 0 to |edges|
      invariant errors == [] <==> forall e :: e in edges[..i] ==> EdgeKept(e, trees, admits)
    {
      assert edges[..i + 1] == edges[..i] + [edges[i]];
      var e := edges[i];
      var side := if e.parent.Some? then e.parent.value else "";
      var lost := RemovedOrChanged(Admitted(FilesOf(e.older, trees), admits, side), FilesOf(e.newer, trees));
      assert lost == [] <==> EdgeKept(e, trees, admits);
      assert (forall e' :: e' in edges[..i + 1] ==> EdgeKept(e', trees, admits)) <==>
             (forall e' :: e' in edges[..i] ==> EdgeKept(e', trees, admits)) && EdgeKept(e, trees, admits);
      errors := errors + lost;
    }
    assert edges[..|edges|] == edges;
    var lost := RemovedOrChanged(Admitted(FilesOf(h.At(h.head), trees), admits, "HEAD"), disk);
    errors := errors + lost;
  }

  ghost predicate HasFile(h: History, trees: ObjectId -> Files, c: Commit, path: Path, id: ObjectId) {
    var files := FilesOf(h.At(c), trees);
    path in files && files[path] == id
  }

  /** Each file admitted at a parent is in the commit, with its blob. */
  ghost predicate ParentsKept(h: History, trees: ObjectId -> Files, admits: Admission) {
    forall c, p, path, id :: c in h.listed && c in h.parents && p in h.parents[c] && HasFile(h, trees, p, path, id) ==>
      admits(path, p) ==> HasFile(h, trees, c, path, id)
  }

  /** And each admitted at HEAD on disk. */
  ghost predicate HeadKept(h: History, trees: ObjectId -> Files, admits: Admission, disk: Files) {
    forall path, id :: HasFile(h, trees, h.head, path, id) ==> admits(path, "HEAD") ==> path in disk && disk[path] == id
  }

  /** A clean directory, commit by commit. */
  lemma DirectoryCleanMeans(h: History, trees: ObjectId -> Files, admits: Admission, disk: Files)
    ensures DirectoryClean(h, trees, admits, disk) <==> ParentsKept(h, trees, admits) && HeadKept(h, trees, admits, disk)
  {
    if DirectoryClean(h, trees, admits, disk) {
      forall c, p, path, id | c in h.listed && c in h.parents && p in h.parents[c] && HasFile(h, trees, p, path, id) && admits(path, p)
        ensures HasFile(h, trees, c, path, id)
      {
        var e := Edge(c, Some(p), h.At(c), h.At(p));
        if e.older != e.newer {
          assert IsChangedEdge(h, e) && EdgeKept(e, trees, admits);
          assert path in Admitted(FilesOf(e.older, trees), admits, p);
        }
      }
      forall path, id | HasFile(h, trees, h.head, path, id) && admits(path, "HEAD") ensures path in disk && disk[path] == id {
        assert path in Admitted(FilesOf(h.At(h.head), trees), admits, "HEAD");
      }
    }
    if ParentsKept(h, trees, admits) {
      forall e | IsChangedEdge(h, e) && e.older.Some? ensures EdgeKept(e, trees, admits) {
        var files := Admitted(FilesOf(e.older, trees), admits, e.parent.value);
        forall path | path in files ensures path in FilesOf(e.newer, trees) && FilesOf(e.newer, trees)[path] == files[path] {
          assert HasFile(h, trees, e.parent.value, path, files[path]);
          assert HasFile(h, trees, e.commit, path, files[path]);
        }
      }
    }
    if HeadKept(h, trees, admits, disk) {
      var files := Admitted(FilesOf(h.At(h.head), trees), admits, "HEAD");
      forall path | path in files ensures path in disk && disk[path] == files[path] {
        assert HasFile(h, trees, h.head, path, files[path]);
      }
    }
  }

  /** A file admitted at the older side of each edge up to `j` is still there, unchanged, at `j`. */
  lemma {:induction false} FileKeptAlongPath(
      h: History, trees: ObjectId -> Files, admits: Admission, disk: Files, p: seq<Commit>, j: nat, path: Path, id: ObjectId)
    requires h.Valid() && DirectoryClean(h, trees, admits, disk)
    requires h.IsPath(p) && p[|p| - 1] == h.head && j < |p|
    requires HasFile(h, trees, p[0], path, id)
    requires forall i :: 0 <= i < j ==> admits(path, p[i])
    ensures HasFile(h, trees, p[j], path, id)
    decreases j
  {
    if 0 < j {
      FileKeptAlongPath(h, trees, admits, disk, p, j - 1, path, id);
      PathStep(h, p, j);
      var e := Edge(p[j], Some(p[j - 1]), h.At(p[j]), h.At(p[j - 1]));
      if e.older != e.newer {
        assert IsChangedEdge(h, e) && EdgeKept(e, trees, admits);
        assert path in Admitted(FilesOf(e.older, trees), admits, p[j - 1]);
      }
    }
  }

  /** Once a file is admitted it stays admitted as long as it is there, up to the working tree's comparison. */
  ghost predicate Monotone(h: History, trees: ObjectId -> Files, admits: Admission) {
    && (forall c, p, path ::
          c in h.parents && p in h.parents[c] && admits(path, p) && path in FilesOf(h.At(c), trees) ==> admits(path, c))
    && (forall path :: admits(path, h.head) ==> admits(path, "HEAD"))
  }

  lemma {:induction false} AdmittedAlongPath(
      h: History, trees: ObjectId -> Files, admits: Admission, disk: Files, p: seq<Commit>, j: nat, path: Path, id: ObjectId)
    requires h.Valid() && DirectoryClean(h, trees, admits, disk) && Monotone(h, trees, admits)
    requires h.IsPath(p) && p[|p| - 1] == h.head && j < |p|
    requires HasFile(h, trees, p[0], path, id) && admits(path, p[0])
    ensures forall i :: 0 <= i <= j ==> HasFile(h, trees, p[i], path, id) && admits(path, p[i])
    decreases j
  {
    if 0 < j {
      AdmittedAlongPath(h, trees, admits, disk, p, j - 1, path, id);
      FileKeptAlongPath(h, trees, admits, disk, p, j, path, id);
      PathStep(h, p, j);
    }
  }

  /**
   * A clean directory only grows: a file admitted at a commit is in every commit on every path from
   * it to HEAD, and in the working tree, with the same blob.
   */
  lemma DirectoryOnlyGrows(
      h: History, trees: ObjectId -> Files, admits: Admission, disk: Files, p: seq<Commit>, path: Path, id: ObjectId)
    requires h.Valid() && DirectoryClean(h, trees, admits, disk) && Monotone(h, trees, admits)
    requires h.IsPath(p) && p[|p| - 1] == h.head
    requires HasFile(h, trees, p[0], path, id) && admits(path, p[0])
    ensures forall i :: 0 <= i < |p| ==> HasFile(h, trees, p[i], path, id)
    ensures path in disk && disk[path] == id
  {
    AdmittedAlongPath(h, trees, admits, disk, p, |p| - 1, path, id);
    assert path in Admitted(FilesOf(h.At(h.head), trees), admits, "HEAD");
  }
}
