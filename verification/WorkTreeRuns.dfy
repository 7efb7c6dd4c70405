/** Sequences of work-tree edits, and what they mean for the files alone. */
module WorkTreeRuns {
  import opened Wrappers
  import opened Hashes
  import opened Objects
  import opened TreeModel
  import opened TreeUpdates
  import opened WorkTrees

  datatype Edit =
    | Add(path: Path, blob: FileTree)
    | Replace(path: Path, blob: FileTree)
    | Remove(path: Path)

  type Files = Path -> Option<Hash>

  ghost function FilesOf(t: Tree): Files {
    p => Lookup(t, p)
  }

  ghost function NoFiles(): Files {
    p => None
  }

  ghost predicate Agree(f: Files, g: Files) {
    forall p :: f(p) == g(p)
  }

  /** The edit on the files: a file is set, or everything at and below a path goes. */
  ghost function EditFiles(f: Files, e: Edit): Files {
    match e
    case Add(p, b) => q => if q == p then Some(b.hash) else f(q)
    case Replace(p, b) => q => if q == p then Some(b.hash) else if Prefix(p, q) then None else f(q)
    case Remove(p) => q => if Prefix(p, q) then None else f(q)
  }

  /** The edit on the tree, where the work tree accepts it. */
  ghost function EditTree(t: Tree, e: Edit): (r: Option<Tree>)
    requires SplitPath(e.path)
  {
    match e
    case Add(p, b) => if CanAdd(t, p) then Some(Put(t, p, File(b.hash))) else None
    case Replace(p, b) => if Free(t, p) && Node(t, p).Some? then Some(Put(t, p, File(b.hash))) else None
    case Remove(p) => if Free(t, p) && Node(t, p).Some? then Some(Del(t, p)) else None
  }

  ghost predicate SplitPaths(es: seq<Edit>) {
    forall e | e in es :: SplitPath(e.path)
  }

  /** Edits that a work tree accepts as arguments. */
  ghost predicate EditsOk(h: Hasher, es: seq<Edit>) {
    && SplitPaths(es)
    && forall e | e in es && !e.Remove? :: e.blob.Blob? && e.blob.hash == BlobHash(h, e.blob.checkSum, e.blob.mode)
  }

  ghost function RunTree(t: Tree, es: seq<Edit>): Option<Tree>
    requires SplitPaths(es)
    decreases |es|
  {
    if es == [] then Some(t)
    else
      var u := EditTree(t, es[0]);
      if u.None? then None else RunTree(u.value, es[1..])
  }

  ghost function RunFiles(f: Files, es: seq<Edit>): Files
    decreases |es|
  {
    if es == [] then f else RunFiles(EditFiles(f, es[0]), es[1..])
  }

  /** A run of edits can be taken in two parts. */
  lemma {:induction false} RunTreeConcat(t: Tree, es: seq<Edit>, more: seq<Edit>)
    requires SplitPaths(es) && SplitPaths(more)
    ensures SplitPaths(es + more)
    ensures RunTree(t, es + more) == if RunTree(t, es).None? then None else RunTree(RunTree(t, es).value, more)
    decreases |es|
  {
    hide EditTree;
    if es == [] {
      assert es + more == more;
    } else {
      assert (es + more)[0] == es[0] && (es + more)[1..] == es[1..] + more;
      var u := EditTree(t, es[0]);
      RunTreeConcat(if u.Some? then u.value else t, es[1..], more);
    }
  }

  // ------------------------------------------------ nodes in terms of the files

  lemma {:induction false} NothingBelowMissing(t: Tree, p: Path, q: Path)
    requires Prefix(p, q) && Node(t, p).None?
    ensures Lookup(t, q) == None
    decreases |p|
  {
    LookupIsNode(t, q);
    assert q == p + q[|p|..];
    NodeConcat(t, p, q[|p|..]);
  }

  lemma {:induction false} NodeHasFile(t: Tree, p: Path) returns (q: Path)
    requires CanonicalRoot(t) && p != [] && Node(t, p).Some?
    ensures Prefix(p, q) && Lookup(t, q).Some?
  {
    NodeBelowRoot(t, p);
    var r := HasFile(Node(t, p).value);
    q := p + r;
    NodeConcat(t, p, r);
    LookupIsNode(t, q);
    LookupIsNode(Node(t, p).value, r);
  }

  lemma {:induction false} FreeIsNoFileAbove(t: Tree, p: Path)
    requires t.Dir?
    ensures Free(t, p) <==> forall i | 0 <= i < |p| :: Lookup(t, p[..i]) == None
    decreases |p|
  {
    if |p| > 1 && p[0] in t.kids {
      var kid := t.kids[p[0]];
      forall i | 0 < i < |p| ensures Lookup(t, p[..i]) == Lookup(kid, p[1..][..i - 1]) {
        assert p[..i][1..] == p[1..][..i - 1];
      }
      if kid.Dir? {
        FreeIsNoFileAbove(kid, p[1..]);
        if !Free(kid, p[1..]) {
          var j :| 0 <= j < |p| - 1 && Lookup(kid, p[1..][..j]) != None;
          assert Lookup(t, p[..j + 1]) != None;
        }
      } else {
        assert Lookup(t, p[..1]) == Lookup(kid, p[1..][..0]);
      }
    } else {
      forall i | 0 <= i < |p| ensures Lookup(t, p[..i]) == None {
      }
    }
  }

  /** AddLeaf accepts p exactly when no file is at p, below p or on the way to p, and
      every segment has a name. */
  lemma CanAddMeans(t: Tree, p: Path)
    requires CanonicalRoot(t) && SplitPath(p)
    ensures CanAdd(t, p) <==>
            && (forall i | 0 <= i < |p| :: Lookup(t, p[..i]) == None)
            && (forall q | Prefix(p, q) :: Lookup(t, q) == None)
            && "" !in p
  {
    FreeIsNoFileAbove(t, p);
    if Node(t, p).None? {
      forall q | Prefix(p, q) ensures Lookup(t, q) == None {
        NothingBelowMissing(t, p, q);
      }
    } else {
      var q := NodeHasFile(t, p);
    }
  }

  // ------------------------------------------------------------------- the runs

  /** An accepted edit of the tree is the edit of the files, and keeps the tree canonical. */
  lemma EditRefines(t: Tree, e: Edit)
    requires CanonicalRoot(t) && SplitPath(e.path) && EditTree(t, e).Some?
    ensures CanonicalRoot(EditTree(t, e).value)
    ensures forall q :: Lookup(EditTree(t, e).value, q) == EditFiles(FilesOf(t), e)(q)
  {
    match e {
      case Add(p, b) =>
        PutCanonical(t, p, File(b.hash));
        forall q ensures Lookup(Put(t, p, File(b.hash)), q) == if q == p then Some(b.hash) else Lookup(t, q) {
          PutLookup(t, p, b.hash, q);
          if Prefix(p, q) {
            NothingBelowMissing(t, p, q);
          }
        }
      case Replace(p, b) =>
        NodeBelowRoot(t, p);
        PutCanonical(t, p, File(b.hash));
        forall q { PutLookup(t, p, b.hash, q); }
      case Remove(p) =>
        DelCanonical(t, p);
        forall q { DelLookup(t, p, q); }
    }
  }

  lemma {:induction false} RunFilesExtensional(f: Files, g: Files, es: seq<Edit>, q: Path)
    requires Agree(f, g)
    ensures RunFiles(f, es)(q) == RunFiles(g, es)(q)
    decreases |es|
  {
    if es != [] {
      RunFilesExtensional(EditFiles(f, es[0]), EditFiles(g, es[0]), es[1..], q);
    }
  }

  lemma {:induction false} RunRefines(t: Tree, es: seq<Edit>)
    requires CanonicalRoot(t) && SplitPaths(es) && RunTree(t, es).Some?
    ensures CanonicalRoot(RunTree(t, es).value)
    ensures forall q :: Lookup(RunTree(t, es).value, q) == RunFiles(FilesOf(t), es)(q)
    decreases |es|
  {
    if es != [] {
      var u := EditTree(t, es[0]).value;
      EditRefines(t, es[0]);
      RunRefines(u, es[1..]);
      forall q ensures Lookup(RunTree(t, es).value, q) == RunFiles(FilesOf(t), es)(q) {
        RunFilesExtensional(FilesOf(u), EditFiles(FilesOf(t), es[0]), es[1..], q);
      }
    }
  }

  /** History independence: two accepted runs of edits from the empty root that end in the
      same files end in the same root hash. */
  lemma HistoryIndependence(h: Hasher, s1: Store, s2: Store, hash1: Hash, hash2: Hash, es1: seq<Edit>, es2: seq<Edit>)
    requires SplitPaths(es1) && SplitPaths(es2)
    requires RunTree(EMPTY_DIR, es1).Some? && RunTree(EMPTY_DIR, es2).Some?
    requires Represents(h, s1, hash1, RunTree(EMPTY_DIR, es1).value)
    requires Represents(h, s2, hash2, RunTree(EMPTY_DIR, es2).value)
    requires Agree(RunFiles(NoFiles(), es1), RunFiles(NoFiles(), es2))
    ensures hash1 == hash2
  {
    RunRefines(EMPTY_DIR, es1);
    RunRefines(EMPTY_DIR, es2);
    var t, u := RunTree(EMPTY_DIR, es1).value, RunTree(EMPTY_DIR, es2).value;
    forall q ensures Lookup(t, q) == Lookup(u, q) {
      RunFilesExtensional(FilesOf(EMPTY_DIR), NoFiles(), es1, q);
      RunFilesExtensional(FilesOf(EMPTY_DIR), NoFiles(), es2, q);
    }
    FilesDetermineHash(h, s1, s2, hash1, hash2, t, u);
  }

  /** A change function of the callers: edits in turn, up to the first that fails. */
  method RunEdits(workTree: WorkTree, es: seq<Edit>) returns (r: Result<()>)
    requires workTree.Valid() && EditsOk(workTree.repo.hasher, es)
    modifies workTree, workTree.repo
    ensures workTree.Valid() && Grows(old(workTree.repo.objects), workTree.repo.objects)
    ensures r.Ok? <==> RunTree(old(workTree.tree), es).Some?
    ensures r.Ok? ==> workTree.tree == RunTree(old(workTree.tree), es).value
  {
    hide WorkTree.Valid, CanAdd, Free, Put, Node, Del;
    r := Ok(());
    for i := 0 to |es|
      invariant workTree.Valid() && Grows(old(workTree.repo.objects), workTree.repo.objects)
      invariant r.Ok?
      invariant RunTree(old(workTree.tree), es) == RunTree(workTree.tree, es[i..])
    {
      assert es[i..][0] == es[i] && es[i..][1..] == es[i + 1..];
      match es[i] {
        case Add(p, b) => r := workTree.AddLeaf(p, b);
        case Replace(p, b) => r := workTree.ReplaceLeaf(p, b);
        case Remove(p) => r := workTree.RemoveEntry(p);
      }
      if r.Err? {
        return;
      }
    }
    assert es[|es|..] == [];
  }
}
