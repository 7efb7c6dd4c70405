/** Replaying a change list onto a tree (ApplyOneChange in versionmgr/worktree.go): what it
    does to the files, and exactly when it gets through. */
module Patches {
  import opened Wrappers
  import opened Hashes
  import opened Order
  import opened Objects
  import opened TreeModel
  import opened TreeUpdates
  import opened WorkTrees
  import opened WorkTreeRuns
  import opened Paths
  import opened Changes
  import opened FileMerge

  // ------------------------------------------------------------------ one change

  /** The change on the tree, where the work tree accepts it. */
  ghost function ChangeTree(t: Tree, c: Change): Option<Tree>
    requires c.Action().Ok?
  {
    match c.Action().value
    case Insert =>
      var p := c.to.value.path;
      if CanAdd(t, p) then Some(Put(t, p, File(c.to.value.hash))) else None
    case Delete =>
      var p := c.from.value.path;
      if p != [] && Free(t, p) && Node(t, p).Some? then Some(Del(t, p)) else None
    case Modify =>
      var p := c.to.value.path;
      if Free(t, p) && Node(t, p).Some? then Some(Put(t, p, File(c.to.value.hash))) else None
  }

  /** The blob that a change sets is stored. */
  ghost predicate BlobThere(objects: Store, c: Change) {
    c.to.Some? ==> c.to.value.hash in objects && objects[c.to.value.hash].Blob?
  }

  ghost predicate ChangeOk(c: Change) {
    c.Action().Ok? && SplitPath(c.At()) && (c.to.Some? ==> SplitPath(c.to.value.path))
  }

  /** Blob: the row under a hash. The source does not look at the type of the row, so a
      change of a directory is filed as a blob; the model stops there. */
  method LoadBlob(repo: FileTreeRepo, hash: Hash) returns (r: Result<FileTree>)
    requires repo.Valid()
    ensures r.Ok? <==> hash in repo.objects && repo.objects[hash].Blob?
    ensures r.Ok? ==> r.value == repo.objects[hash] && RowOk(repo.hasher, repo.objects, r.value) && r.value.hash == hash
    ensures r.Err? ==> r.error == if hash in repo.objects then DirectoryAsBlob else ObjectMissing
  {
    r := repo.Get(hash);
    if r.Ok? && r.value.TreeNode? {
      return Err(DirectoryAsBlob);
    }
  }

  /** ApplyOneChange */
  method ApplyOneChange(workTree: WorkTree, change: Change) returns (r: Result<()>)
    requires workTree.Valid() && (change.Action().Ok? ==> ChangeOk(change))
    modifies workTree, workTree.repo
    ensures workTree.Valid() && Grows(old(workTree.repo.objects), workTree.repo.objects)
    ensures change.Action().Err? ==> r == Err(change.Action().error)
    ensures change.Action().Ok? ==>
      (r.Ok? <==> BlobThere(old(workTree.repo.objects), change) && ChangeTree(old(workTree.tree), change).Some?)
    ensures change.Action().Ok? && !BlobThere(old(workTree.repo.objects), change) ==>
      r == Err(if change.to.value.hash in old(workTree.repo.objects) then DirectoryAsBlob else ObjectMissing)
    ensures r.Ok? ==> workTree.tree == ChangeTree(old(workTree.tree), change).value
    ensures r.Err? ==> workTree.tree == old(workTree.tree) && workTree.root == old(workTree.root)
  {
    hide StoreOk, CollisionFree, Free, Node, Put, Del, CanonicalRoot, CanAdd;
    var action := change.Action();
    if action.Err? {
      return Err(action.error);
    }
    match action.value {
      case Insert =>
        var blob := LoadBlob(workTree.repo, change.to.value.hash);
        if blob.Err? {
          return Err(blob.error);
        }
        r := workTree.AddLeaf(change.to.value.path, blob.value);
      case Delete =>
        r := workTree.RemoveEntry(change.from.value.path);
      case Modify =>
        var blob := LoadBlob(workTree.repo, change.to.value.hash);
        if blob.Err? {
          return Err(blob.error);
        }
        r := workTree.ReplaceLeaf(change.to.value.path, blob.value);
    }
  }

  // -------------------------------------------------------------------- a replay

  ghost predicate ActionsOk(cs: seq<Change>) {
    forall c | c in cs :: c.Action().Ok?
  }

  ghost function Replay(t: Tree, cs: seq<Change>): Option<Tree>
    requires ActionsOk(cs)
  {
    if cs == [] then Some(t)
    else
      var u := Replay(t, cs[..|cs| - 1]);
      if u.None? then None else ChangeTree(u.value, cs[|cs| - 1])
  }

  /** A replay from the front. */
  lemma {:induction false} ReplayCons(t: Tree, c: Change, cs: seq<Change>)
    requires c.Action().Ok? && ActionsOk(cs)
    ensures ActionsOk([c] + cs)
    ensures Replay(t, [c] + cs) == if ChangeTree(t, c).None? then None else Replay(ChangeTree(t, c).value, cs)
    decreases |cs|
  {
    hide ChangeTree;
    var all := [c] + cs;
    if cs == [] {
      assert all[..0] == [];
    } else {
      assert all[..|all| - 1] == [c] + cs[..|cs| - 1];
      ReplayCons(t, c, cs[..|cs| - 1]);
    }
  }

  /** The change at p is among the first k. */
  ghost predicate Done(cs: seq<Change>, k: nat, p: Path) {
    exists i :: 0 <= i < k && i < |cs| && cs[i].At() == p
  }

  /** The first k files have their new state, the others their old one. */
  ghost predicate Halfway(t: Tree, f: Files, g: Files, cs: seq<Change>, k: nat) {
    && CanonicalRoot(t)
    && forall p :: Lookup(t, p) == if Done(cs, k, p) then g(p) else f(p)
  }

  lemma DiffAt(f: Files, g: Files, cs: seq<Change>, k: nat)
    requires IsDiff(f, g, cs) && k < |cs|
    ensures cs[k].Action().Ok? && ChangeOk(cs[k]) && IsChangeOf(f, g, cs[k])
    ensures !Done(cs, k, cs[k].At())
    ensures forall p :: Done(cs, k + 1, p) <==> Done(cs, k, p) || p == cs[k].At()
  {
    assert cs[k] in cs;
    ChangeForAt(f, g, cs[k].At());
    if Done(cs, k, cs[k].At()) {
      var i :| 0 <= i < k && cs[i].At() == cs[k].At();
      StrictlySortedDistinct(Keys(cs), i, k);
    }
  }

  lemma DiffActions(f: Files, g: Files, cs: seq<Change>)
    requires IsDiff(f, g, cs)
    ensures ActionsOk(cs)
  {
    forall c | c in cs ensures c.Action().Ok? {
      ChangeForAt(f, g, c.At());
    }
  }

  /** A file has nothing below it. */
  lemma FilesPrefixFree(t: Tree, p: Path, q: Path)
    requires Lookup(t, p).Some? && p < q
    ensures Lookup(t, q).None?
  {
    LookupIsNode(t, p);
    LookupIsNode(t, q);
    var rest := q[|p|..];
    assert q == p + rest;
    NodeConcat(t, p, rest);
  }

  /** An accepted change moves one file from its old to its new state. */
  lemma ReplayStep(t: Tree, f: Files, g: Files, cs: seq<Change>, k: nat)
    requires IsDiff(f, g, cs) && k < |cs| && Halfway(t, f, g, cs, k)
    requires cs[k].Action().Ok? && ChangeTree(t, cs[k]).Some?
    ensures Halfway(ChangeTree(t, cs[k]).value, f, g, cs, k + 1)
  {
    hide IsDiff, Done, Free, Node, Put, Del, Lookup;
    DiffAt(f, g, cs, k);
    var c, p := cs[k], cs[k].At();
    var u := ChangeTree(t, c).value;
    assert Lookup(t, p) == f(p);
    ChangeMovesFile(t, c, f(p), g(p));
    forall q ensures Lookup(u, q) == if Done(cs, k + 1, q) then g(q) else f(q) {
      assert Lookup(u, q) == if q == p then g(p) else Lookup(t, q);
    }
  }

  /** A change of the file at p, from its present state b to d, touches no other file. */
  lemma ChangeMovesFile(t: Tree, c: Change, b: Option<Hash>, d: Option<Hash>)
    requires CanonicalRoot(t) && c.Action().Ok? && FilePath(c.At()) && ChangeTree(t, c).Some?
    requires Lookup(t, c.At()) == b && b != d && c == ChangeFor(_ => b, _ => d, c.At())
    ensures CanonicalRoot(ChangeTree(t, c).value)
    ensures forall q :: Lookup(ChangeTree(t, c).value, q) == if q == c.At() then d else Lookup(t, q)
  {
    hide Lookup, Canonical;
    var p := c.At();
    if d.Some? {
      PutCanonical(t, p, File(d.value));
    } else {
      DelCanonical(t, p);
    }
    forall q ensures Lookup(ChangeTree(t, c).value, q) == if q == p then d else Lookup(t, q) {
      if d.Some? {
        PutLookup(t, p, d.value, q);
      } else {
        DelLookup(t, p, q);
      }
      if Prefix(p, q) && q != p {
        if b.Some? {
          FilesPrefixFree(t, p, q);
        } else {
          NothingBelowMissing(t, p, q);
        }
      }
    }
  }

  // ------------------------------------------------------- when it gets through

  /** No file of g lies where f or g has a directory. */
  ghost predicate Completable(f: Files, g: Files) {
    forall p, q | g(p).Some? && p < q :: f(q).None? && g(q).None?
  }

  /** The replay so far: the prefix of the list has been applied. */
  lemma {:induction false} ReplayHalfway(a: Tree, g: Files, cs: seq<Change>, k: nat)
    requires CanonicalRoot(a) && IsDiff(FilesOf(a), g, cs) && k <= |cs|
    requires ActionsOk(cs) && ActionsOk(cs[..k]) && Replay(a, cs[..k]).Some?
    ensures Halfway(Replay(a, cs[..k]).value, FilesOf(a), g, cs, k)
    decreases k
  {
    hide IsDiff, ChangeTree;
    if k == 0 {
      assert cs[..0] == [];
    } else {
      assert cs[..k][..k - 1] == cs[..k - 1];
      ReplayHalfway(a, g, cs, k - 1);
      ReplayStep(Replay(a, cs[..k - 1]).value, FilesOf(a), g, cs, k - 1);
    }
  }

  /** Earlier in the list is earlier in the order of paths. */
  lemma DoneIffEarlier(f: Files, g: Files, cs: seq<Change>, k: nat, q: Path)
    requires IsDiff(f, g, cs) && k < |cs| && FilePath(q) && f(q) != g(q)
    ensures Less(JoinPath(q), cs[k].Key()) ==> Done(cs, k, q)
    ensures Less(cs[k].Key(), JoinPath(q)) ==> !Done(cs, k, q)
  {
    ChangeForAt(f, g, q);
    var i :| 0 <= i < |cs| && cs[i] == ChangeFor(f, g, q);
    assert Keys(cs)[i] == JoinPath(q) && Keys(cs)[k] == cs[k].Key();
    if Less(JoinPath(q), cs[k].Key()) {
      LessAsymmetric(JoinPath(q), cs[k].Key());
    }
    if Less(cs[k].Key(), JoinPath(q)) {
      LessAsymmetric(cs[k].Key(), JoinPath(q));
      forall j | 0 <= j < k ensures cs[j].At() != q {
        assert Less(Keys(cs)[j], Keys(cs)[k]) && Keys(cs)[j] == JoinPath(cs[j].At());
      }
    }
  }

  /** An insertion in a completable difference finds its place free: what lay on the way or
      below was removed before, or is removed nowhere because it was never there. */
  lemma InsertFits(t: Tree, f: Files, g: Files, cs: seq<Change>, k: nat)
    requires IsDiff(f, g, cs) && k < |cs| && Halfway(t, f, g, cs, k)
    requires Proper(f) && Proper(g) && Completable(f, g)
    requires f(cs[k].At()).None?
    ensures CanAdd(t, cs[k].At())
  {
    hide IsDiff, Done, CanAdd, Lookup;
    var p := cs[k].At();
    DiffAt(f, g, cs, k);
    forall i | 0 <= i < |p| ensures Lookup(t, p[..i]) == None {
      AncestorGone(t, f, g, cs, k, i);
    }
    forall q | Prefix(p, q) ensures Lookup(t, q) == None {
      if q != p {
        assert p < q;
      }
    }
    CanAddMeans(t, p);
  }

  lemma AncestorGone(t: Tree, f: Files, g: Files, cs: seq<Change>, k: nat, i: nat)
    requires IsDiff(f, g, cs) && k < |cs| && Halfway(t, f, g, cs, k)
    requires Proper(f) && Proper(g) && Completable(f, g) && f(cs[k].At()).None?
    requires i < |cs[k].At()|
    ensures Lookup(t, cs[k].At()[..i]) == None
  {
    hide Lookup;
    var p, q := cs[k].At(), cs[k].At()[..i];
    DiffAt(f, g, cs, k);
    assert q < p;
    assert g(p).Some?;
    assert g(q).None?;
    if i == 0 {
      RootIsNoFile(t);
    } else if f(q).Some? {
      ParentSortsFirst(q, p);
      DoneIffEarlier(f, g, cs, k, q);
    }
  }

  lemma RootIsNoFile(t: Tree)
    requires t.Dir?
    ensures Lookup(t, []) == None
  {
  }

  /** Each change of a completable difference is accepted in its turn. */
  lemma ChangeFits(t: Tree, f: Files, g: Files, cs: seq<Change>, k: nat)
    requires IsDiff(f, g, cs) && k < |cs| && Halfway(t, f, g, cs, k)
    requires Proper(f) && Proper(g) && Completable(f, g)
    ensures cs[k].Action().Ok? && ChangeTree(t, cs[k]).Some?
  {
    DiffAt(f, g, cs, k);
    var p := cs[k].At();
    if f(p).None? {
      InsertFits(t, f, g, cs, k);
    } else {
      assert Lookup(t, p).Some?;
      LookupIsNode(t, p);
      if !Free(t, p) {
        NotFreeNothing(t, p);
      }
    }
  }

  lemma {:induction false} ReplayCompletes(a: Tree, g: Files, cs: seq<Change>, k: nat)
    requires CanonicalRoot(a) && IsDiff(FilesOf(a), g, cs) && k <= |cs| && Proper(g)
    requires ActionsOk(cs) && ActionsOk(cs[..k]) && Completable(FilesOf(a), g)
    ensures Replay(a, cs[..k]).Some?
    decreases k
  {
    hide IsDiff, ChangeTree, Completable;
    if k > 0 {
      assert cs[..k][..k - 1] == cs[..k - 1];
      ReplayCompletes(a, g, cs, k - 1);
      ReplayHalfway(a, g, cs, k - 1);
      CanonicalIsProper(a);
      ChangeFits(Replay(a, cs[..k - 1]).value, FilesOf(a), g, cs, k - 1);
    }
  }

  /** If the replay gets through, the tree has the files of g. */
  lemma ReplayReaches(a: Tree, g: Files, cs: seq<Change>)
    requires CanonicalRoot(a) && IsDiff(FilesOf(a), g, cs) && ActionsOk(cs) && Replay(a, cs).Some?
    ensures CanonicalRoot(Replay(a, cs).value)
    ensures forall p :: Lookup(Replay(a, cs).value, p) == g(p)
  {
    hide IsDiff, ChangeTree, Replay;
    assert cs[..|cs|] == cs;
    ReplayHalfway(a, g, cs, |cs|);
    forall p ensures Done(cs, |cs|, p) || Lookup(a, p) == g(p) {
      AllDone(FilesOf(a), g, cs, p);
    }
  }

  lemma AllDone(f: Files, g: Files, cs: seq<Change>, p: Path)
    requires IsDiff(f, g, cs)
    ensures Done(cs, |cs|, p) || f(p) == g(p)
  {
    if f(p) != g(p) {
      ChangeForAt(f, g, p);
      var i :| 0 <= i < |cs| && cs[i] == ChangeFor(f, g, p);
    }
  }

  lemma {:induction false} ReplayPrefix(a: Tree, cs: seq<Change>, k: nat)
    requires ActionsOk(cs) && k <= |cs| && Replay(a, cs).Some?
    ensures ActionsOk(cs[..k]) && Replay(a, cs[..k]).Some?
    decreases |cs| - k
  {
    hide ChangeTree;
    if k == |cs| {
      assert cs[..k] == cs;
    } else {
      ReplayPrefix(a, cs, k + 1);
      assert cs[..k + 1][..k] == cs[..k];
    }
  }

  /** The file at q, below an inserted file p, is still there when p's turn comes. */
  lemma StillBelow(a: Tree, g: Files, cs: seq<Change>, p: Path, q: Path, k: nat)
    requires CanonicalRoot(a) && IsDiff(FilesOf(a), g, cs) && ActionsOk(cs) && Proper(g)
    requires g(p).Some? && Lookup(a, p).None? && p < q && Lookup(a, q).Some? && g(q).None?
    requires k < |cs| && cs[k] == ChangeFor(FilesOf(a), g, p)
    requires ActionsOk(cs[..k]) && Replay(a, cs[..k]).Some?
    ensures Lookup(Replay(a, cs[..k]).value, q).Some?
  {
    hide IsDiff, Replay, Lookup, CanonicalRoot, Canonical;
    CanonicalIsProper(a);
    assert FilesOf(a)(q).Some?;
    ChangeForAt(FilesOf(a), g, p);
    NotTheRoot(g, p);
    ParentSortsFirst(p, q);
    DoneIffEarlier(FilesOf(a), g, cs, k, q);
    ReplayHalfway(a, g, cs, k);
  }

  lemma NotTheRoot(g: Files, p: Path)
    requires Proper(g) && g(p).Some?
    ensures p != []
  {
  }

  lemma InsertionIn(f: Files, g: Files, cs: seq<Change>, p: Path) returns (k: nat)
    requires IsDiff(f, g, cs) && f(p) != g(p)
    ensures k < |cs| && cs[k] == ChangeFor(f, g, p)
  {
    k :| k < |cs| && cs[k] == ChangeFor(f, g, p);
  }

  /** With a file below p no file can be inserted at p. */
  lemma InsertRefused(t: Tree, c: Change, p: Path, q: Path)
    requires c.from.None? && c.to.Some? && c.to.value.path == p && p < q && Lookup(t, q).Some?
    ensures ChangeTree(t, c).None?
  {
    if Node(t, p).None? {
      NothingBelowMissing(t, p, q);
    }
  }

  /** A file of g at a directory of the tree is inserted while something below it is still
      there, so the replay stops. */
  lemma BlockedInsert(a: Tree, g: Files, cs: seq<Change>, p: Path, q: Path)
    requires CanonicalRoot(a) && IsDiff(FilesOf(a), g, cs) && ActionsOk(cs) && Proper(g)
    requires g(p).Some? && p < q && Lookup(a, q).Some?
    requires g(q).None?
    ensures Replay(a, cs).None?
  {
    hide IsDiff, Lookup, CanonicalRoot, Canonical, ChangeTree, Proper;
    if Lookup(a, p).Some? {
      FilesPrefixFree(a, p, q);
    }
    var k := InsertionIn(FilesOf(a), g, cs, p);
    if Replay(a, cs).Some? {
      ReplayPrefix(a, cs, k);
      ReplayPrefix(a, cs, k + 1);
      assert cs[..k + 1][..k] == cs[..k];
      StillBelow(a, g, cs, p, q, k);
      InsertRefused(Replay(a, cs[..k]).value, cs[k], p, q);
    }
  }

  /** Replaying a difference gets through exactly when no file of the result lies at a
      directory of either tree. */
  lemma ReplayIffCompletable(a: Tree, g: Files, cs: seq<Change>)
    requires CanonicalRoot(a) && IsDiff(FilesOf(a), g, cs) && ActionsOk(cs) && Proper(g)
    ensures Replay(a, cs).Some? <==> Completable(FilesOf(a), g)
  {
    hide IsDiff, ChangeTree, Replay;
    if Completable(FilesOf(a), g) {
      assert cs[..|cs|] == cs;
      ReplayCompletes(a, g, cs, |cs|);
    } else if Replay(a, cs).Some? {
      ReplayReaches(a, g, cs);
      var u := Replay(a, cs).value;
      var p, q :| g(p).Some? && p < q && !(FilesOf(a)(q).None? && g(q).None?);
      FilesPrefixFree(u, p, q);
      BlockedInsert(a, g, cs, p, q);
    }
  }

  // ------------------------------------------------------------------- patch law

  /** p is a directory of t. */
  ghost predicate IsDir(t: Tree, p: Path) {
    Node(t, p).Some? && Node(t, p).value.Dir?
  }

  lemma FileBelowDirectory(t: Tree, p: Path) returns (q: Path)
    requires CanonicalRoot(t) && p != [] && IsDir(t, p)
    ensures p < q && Lookup(t, q).Some?
  {
    q := NodeHasFile(t, p);
    LookupIsNode(t, p);
    assert q != p;
  }

  lemma CompletableAt(f: Files, g: Files, p: Path, q: Path)
    requires Completable(f, g) && g(p).Some? && p < q
    ensures f(q).None?
  {
  }

  lemma NoFileAtDirectory(x: Tree, y: Tree)
    requires CanonicalRoot(x) && CanonicalRoot(y)
    ensures Completable(FilesOf(x), FilesOf(y)) <==> forall p | Lookup(y, p).Some? :: !IsDir(x, p)
  {
    RootIsNoFile(y);
    hide Lookup, IsDir;
    if Completable(FilesOf(x), FilesOf(y)) {
      forall p | Lookup(y, p).Some? ensures !IsDir(x, p) {
        if IsDir(x, p) {
          var q := FileBelowDirectory(x, p);
          CompletableAt(FilesOf(x), FilesOf(y), p, q);
        }
      }
    }
    if forall p | Lookup(y, p).Some? :: !IsDir(x, p) {
      forall p, q | FilesOf(y)(p).Some? && p < q ensures FilesOf(x)(q).None? && FilesOf(y)(q).None? {
        FilesPrefixFree(y, p, q);
        assert Lookup(y, p).Some?;
        if Lookup(x, q).Some? {
          DirAboveFile(x, p, q);
        }
      }
    }
  }

  lemma DirAboveFile(t: Tree, p: Path, q: Path)
    requires Lookup(t, q).Some? && p < q
    ensures IsDir(t, p)
  {
    LookupIsNode(t, q);
    var rest := q[|p|..];
    assert q == p + rest;
    NodeConcat(t, p, rest);
  }

  /** Replaying the difference of two trees onto the first gives the second; it gets
      through exactly when no file of the second is a directory of the first. */
  lemma PatchLaw(x: Tree, y: Tree, cs: seq<Change>)
    requires CanonicalRoot(x) && CanonicalRoot(y) && IsDiff(FilesOf(x), FilesOf(y), cs)
    requires ActionsOk(cs)
    ensures Replay(x, cs).Some? <==> forall p | Lookup(y, p).Some? :: !IsDir(x, p)
    ensures Replay(x, cs).Some? ==> Replay(x, cs).value == y
  {
    hide IsDiff, Replay, Completable, IsDir;
    CanonicalIsProper(y);
    ReplayIffCompletable(x, FilesOf(y), cs);
    NoFileAtDirectory(x, y);
    if Replay(x, cs).Some? {
      ReplayReaches(x, FilesOf(y), cs);
      FilesDetermineTree(Replay(x, cs).value, y);
    }
  }

  /** With no path above another among the files of both trees it always gets through. */
  lemma PrefixFreePatch(x: Tree, y: Tree, cs: seq<Change>)
    requires CanonicalRoot(x) && CanonicalRoot(y) && IsDiff(FilesOf(x), FilesOf(y), cs) && ActionsOk(cs)
    requires forall p, q | Lookup(y, p).Some? && Lookup(x, q).Some? :: !(p < q)
    ensures Replay(x, cs) == Some(y)
  {
    RootIsNoFile(y);
    hide IsDiff, Replay, Lookup, Node;
    forall p | Lookup(y, p).Some? ensures !IsDir(x, p) {
      if IsDir(x, p) {
        var q := FileBelowDirectory(x, p);
      }
    }
    PatchLaw(x, y, cs);
  }

  lemma {:induction false} LookupInDir(kids: map<string, Tree>, p: Path)
    ensures Lookup(Dir(kids), p) == if p != [] && p[0] in kids then Lookup(kids[p[0]], p[1..]) else None
  {
  }

  lemma OnlyFile(b: Hash, p: Path)
    ensures Lookup(Dir(map["a" := File(b)]), p) == if p == ["a"] then Some(b) else None
    ensures Lookup(Dir(map["a" := Dir(map["b" := File(b)])]), p) == if p == ["a", "b"] then Some(b) else None
  {
    LookupInDir(map["a" := File(b)], p);
    LookupInDir(map["a" := Dir(map["b" := File(b)])], p);
    if p != [] {
      LookupInDir(map["b" := File(b)], p[1..]);
      assert p == [p[0]] + p[1..];
      if |p| > 1 {
        assert p[1..] == [p[1]] + p[2..] && p == [p[0], p[1]] + p[2..];
      }
    }
  }

  /** A file that takes the place of a directory: the insertion sorts before the removals
      and is refused. */
  lemma FileForDirectoryFails(b: Hash)
    ensures var x, y := Dir(map["a" := Dir(map["b" := File(b)])]), Dir(map["a" := File(b)]);
            var cs := [Change(None, Some(PathNode(["a"], b))), Change(Some(PathNode(["a", "b"], b)), None)];
            CanonicalRoot(x) && CanonicalRoot(y) && IsDiff(FilesOf(x), FilesOf(y), cs) && ActionsOk(cs)
                && Replay(x, cs).None?
  {
    var x, y := Dir(map["a" := Dir(map["b" := File(b)])]), Dir(map["a" := File(b)]);
    var insert, delete := Change(None, Some(PathNode(["a"], b))), Change(Some(PathNode(["a", "b"], b)), None);
    var cs := [insert, delete];
    var inner := x.kids["a"];
    assert "b" in inner.kids && NameOk("a") && NameOk("b") && Canonical(inner);
    FileForDirectoryDiff(b);
    assert IsDir(x, ["a"]) by {
      assert Node(x, ["a"]) == Node(x.kids["a"], ["a"][1..]);
    }
    OnlyFile(b, ["a"]);
    PatchLaw(x, y, cs);
  }

  lemma FileForDirectoryDiff(b: Hash)
    ensures var x, y := Dir(map["a" := Dir(map["b" := File(b)])]), Dir(map["a" := File(b)]);
            var cs := [Change(None, Some(PathNode(["a"], b))), Change(Some(PathNode(["a", "b"], b)), None)];
            IsDiff(FilesOf(x), FilesOf(y), cs) && ActionsOk(cs)
  {
    hide Lookup;
    var x, y := Dir(map["a" := Dir(map["b" := File(b)])]), Dir(map["a" := File(b)]);
    var insert, delete := Change(None, Some(PathNode(["a"], b))), Change(Some(PathNode(["a", "b"], b)), None);
    forall p { OnlyFile(b, p); }
    assert JoinPath(["a", "b"]) == "a" + "/" + JoinPath(["a", "b"][1..]);
    assert insert.Key() == "a" && delete.Key() == "a" + ("/" + "b");
    PrefixLess("a", "/" + "b");
    assert insert == ChangeFor(FilesOf(x), FilesOf(y), ["a"])
           && delete == ChangeFor(FilesOf(x), FilesOf(y), ["a", "b"]);
  }
}
