/** Reverting a tree to its base below a path prefix (the tree part of Revert in
    versionmgr/work_repo.go). */
module Reverts {
  import opened Wrappers
  import opened Hashes
  import opened Order
  import opened Objects
  import opened TreeModel
  import opened TreeUpdates
  import opened WorkNodes
  import opened WorkTrees
  import opened WorkTreeRuns
  import opened Paths
  import opened Changes
  import opened ChangeJoin
  import opened FileMerge
  import opened Patches
  import opened TrieChanges
  import opened Diffs
  import opened ThreeWay

  /** Some file that the difference looks at differs from the base. */
  ghost predicate Dirty(base: Files, cur: Files, chosen: Path -> bool) {
    exists p :: chosen(p) && base(p) != cur(p)
  }

  // ----------------------------------------------------------- the way back

  /** The change that takes c back. */
  ghost function Inverse(c: Change): Change {
    Change(c.to, c.from)
  }

  ghost function InverseAll(cs: seq<Change>): (r: seq<Change>)
    ensures |r| == |cs| && forall i | 0 <= i < |r| :: r[i] == Inverse(cs[i])
  {
    seq(|cs|, i requires 0 <= i < |cs| => Inverse(cs[i]))
  }

  /** Taking back, change by change, what differs at the chosen paths is the difference from
      the present state to the reverted one. */
  lemma InverseIsDiff(base: Files, cur: Files, chosen: Path -> bool, d: seq<Change>)
    requires IsDiff(base, Spliced(cur, base, chosen), d)
    ensures IsDiff(cur, Spliced(base, cur, chosen), InverseAll(d))
    ensures d == [] <==> !Dirty(base, cur, chosen)
  {
    var m, r, inv := Spliced(cur, base, chosen), Spliced(base, cur, chosen), InverseAll(d);
    forall p ensures base(p) != m(p) <==> cur(p) != r(p) {}
    forall p | base(p) != m(p) ensures ChangeFor(cur, r, p) == Inverse(ChangeFor(base, m, p)) {}
    forall i | 0 <= i < |d| ensures IsChangeOf(cur, r, inv[i]) && inv[i].Key() == d[i].Key() {
      assert d[i] in d;
      ChangeForAt(base, m, d[i].At());
      ChangeForAt(cur, r, d[i].At());
    }
    forall p | cur(p) != r(p) ensures ChangeFor(cur, r, p) in inv {
      var i :| 0 <= i < |d| && d[i] == ChangeFor(base, m, p);
      assert inv[i] == ChangeFor(cur, r, p);
    }
    assert Keys(inv) == Keys(d);
    if p :| chosen(p) && base(p) != cur(p) {
      assert ChangeFor(base, m, p) in d;
    }
    if d != [] {
      assert d[0] in d;
      assert chosen(d[0].At()) && base(d[0].At()) != cur(d[0].At());
    }
  }

  /** Taking one change against the base back: what came is removed, what went or changed is
      set to what the base has there, if that is a file. */
  ghost function TakeBack(base: Tree, t: Tree, c: Change): Option<Tree>
    requires c.Action().Ok?
  {
    match c.Action().value
    case Insert => ChangeTree(t, Inverse(c))
    case _ =>
      if Lookup(base, c.At()).None? then None
      else ChangeTree(t, Change(c.to, Some(PathNode(c.At(), Lookup(base, c.At()).value))))
  }

  ghost predicate TakeBackOk(c: Change) {
    && c.Action().Ok? && SplitPath(c.At()) && (c.to.Some? ==> c.to.value.path == c.At())
  }

  /** Take one change back: the body of the loop of Revert. */
  method RevertOne(baseTree: WorkTree, curTree: WorkTree, change: Change) returns (r: Result<()>)
    requires baseTree.Valid() && curTree.Valid() && baseTree != curTree && baseTree.repo == curTree.repo
    requires TakeBackOk(change)
    modifies curTree, curTree.repo
    ensures baseTree.Valid() && curTree.Valid() && Grows(old(curTree.repo.objects), curTree.repo.objects)
    ensures r.Ok? <==> TakeBack(baseTree.tree, old(curTree.tree), change).Some?
    ensures r.Ok? ==> curTree.tree == TakeBack(baseTree.tree, old(curTree.tree), change).value
  {
    hide CanonicalRoot, Canonical, Lookup, Node, Free, Put, Del, CanAdd, StoredRoot, Stored, Opens;
    ghost var h, objects := curTree.repo.hasher, curTree.repo.objects;
    GrowsReflexive(objects);
    match change.Action().value {
      case Insert =>
        r := curTree.RemoveEntry(change.At());
      case Modify =>
        var blob := baseTree.FindBlob(change.At());
        if blob.Err? {
          return Err(blob.error);
        }
        r := curTree.ReplaceLeaf(change.At(), blob.value.0);
      case Delete =>
        var blob := baseTree.FindBlob(change.At());
        if blob.Err? {
          return Err(blob.error);
        }
        r := curTree.AddLeaf(change.At(), blob.value.0);
    }
    OpensPersists(h, objects, curTree.repo.objects, baseTree.root, baseTree.tree);
  }

  ghost predicate AllTakeBackOk(d: seq<Change>) {
    forall c | c in d :: TakeBackOk(c)
  }

  /** All changes from the i-th on, taken back in turn. */
  ghost function TakeBackFrom(base: Tree, t: Tree, d: seq<Change>, i: nat): Option<Tree>
    requires AllTakeBackOk(d) && i <= |d|
    decreases |d| - i
  {
    if i == |d| then Some(t)
    else
      assert d[i] in d;
      var u := TakeBack(base, t, d[i]);
      if u.None? then None else TakeBackFrom(base, u.value, d, i + 1)
  }

  /** The loop of Revert over the changes below the prefix. */
  method RevertChanges(baseTree: WorkTree, curTree: WorkTree, d: seq<Change>) returns (r: Result<()>)
    requires baseTree.Valid() && curTree.Valid() && baseTree != curTree && baseTree.repo == curTree.repo
    requires AllTakeBackOk(d)
    modifies curTree, curTree.repo
    ensures curTree.Valid() && Grows(old(curTree.repo.objects), curTree.repo.objects)
    ensures r.Ok? <==> TakeBackFrom(baseTree.tree, old(curTree.tree), d, 0).Some?
    ensures r.Ok? ==> Some(curTree.tree) == TakeBackFrom(baseTree.tree, old(curTree.tree), d, 0)
  {
    hide WorkTree.Valid, TakeBack, TakeBackOk, Grows;
    ghost var objects, end := curTree.repo.objects, TakeBackFrom(baseTree.tree, curTree.tree, d, 0);
    GrowsReflexive(objects);
    for i := 0 to |d|
      invariant baseTree.Valid() && curTree.Valid() && Grows(objects, curTree.repo.objects)
      invariant TakeBackFrom(baseTree.tree, curTree.tree, d, i) == end
    {
      assert d[i] in d;
      ghost var before := curTree.repo.objects;
      r := RevertOne(baseTree, curTree, d[i]);
      GrowsTransitive(objects, before, curTree.repo.objects);
      if r.Err? {
        return;
      }
    }
    return Ok(());
  }

  // -------------------------------------------------------- runs of the loop

  /** Where the base has the files that the changes start from, the loop replays the
      inverse changes. */
  lemma {:induction false} TakeBackIsReplay(base: Tree, t: Tree, d: seq<Change>, i: nat)
    requires AllTakeBackOk(d) && i <= |d| && ActionsOk(InverseAll(d))
    requires forall c | c in d && c.from.Some? ::
               c.from.value == PathNode(c.At(), c.from.value.hash) && Lookup(base, c.At()) == Some(c.from.value.hash)
    ensures ActionsOk(InverseAll(d)[i..])
    ensures TakeBackFrom(base, t, d, i) == Replay(t, InverseAll(d)[i..])
    decreases |d| - i
  {
    hide ChangeTree, Replay, Lookup;
    var inv := InverseAll(d);
    if i == |d| {
      ReplayNothing(t);
      assert inv[i..] == [];
    } else {
      assert d[i] in d && inv[i] == Inverse(d[i]) && inv[i] in inv;
      assert inv[i..] == [inv[i]] + inv[i + 1..];
      var u := TakeBack(base, t, d[i]);
      TakeBackIsReplay(base, if u.Some? then u.value else t, d, i + 1);
      ReplayCons(t, inv[i], inv[i + 1..]);
    }
  }

  /** A change from something that is no file of the base ends the loop. */
  lemma {:induction false} TakeBackStops(base: Tree, t: Tree, d: seq<Change>, i: nat, k: nat)
    requires AllTakeBackOk(d) && i <= k < |d| && d[k].from.Some? && Lookup(base, d[k].At()).None?
    ensures TakeBackFrom(base, t, d, i).None?
    decreases k - i
  {
    hide ChangeTree, Lookup;
    assert d[i] in d;
    if i < k && TakeBack(base, t, d[i]).Some? {
      TakeBackStops(base, TakeBack(base, t, d[i]).value, d, i + 1, k);
    }
  }

  // --------------------------------------------------------------------- Revert

  /** The revert can be carried out: no relabelled directory is reported, there is something
      to take back, and no file of the result lies at a directory of the present tree or of
      the result. */
  ghost predicate CanRevert(h: Hasher, base: Tree, cur: Tree, prefix: string) {
    && !ReportsDirectory(h, base, cur, prefix)
    && Dirty(FilesOf(base), FilesOf(cur), Seen(h, base, cur, prefix))
    && Completable(FilesOf(cur), Spliced(FilesOf(base), FilesOf(cur), Seen(h, base, cur, prefix)))
  }

  /** u is the base at the paths that the difference looks at, and the present tree elsewhere. */
  ghost predicate IsReverted(h: Hasher, base: Tree, cur: Tree, prefix: string, u: Tree) {
    CanonicalRoot(u) && forall p :: Lookup(u, p) == Spliced(FilesOf(base), FilesOf(cur), Seen(h, base, cur, prefix))(p)
  }

  lemma TrieDiffOk(h: Hasher, objects: Store, x: Tree, y: Tree, prefix: string, d: seq<Change>)
    requires StoredRoot(h, objects, x) && StoredRoot(h, objects, y) && IsTrieDiff(h, x, y, prefix, d)
    ensures AllTakeBackOk(d) && ActionsOk(InverseAll(d))
  {
    hide StoredRoot;
    forall c | c in d ensures TakeBackOk(c) {
      TrieChangeOk(h, objects, x, y, prefix, d, c);
    }
    var inv := InverseAll(d);
    forall c | c in inv ensures c.Action().Ok? {
      var i :| 0 <= i < |inv| && inv[i] == c;
      assert d[i] in d;
    }
  }

  lemma TrieChangeOk(h: Hasher, objects: Store, x: Tree, y: Tree, prefix: string, d: seq<Change>, c: Change)
    requires StoredRoot(h, objects, x) && StoredRoot(h, objects, y) && IsTrieDiff(h, x, y, prefix, d) && c in d
    ensures TakeBackOk(c)
  {
    hide StoredRoot, HashOf, KidHashes, Visible, TrieChange, Seen;
    FileOrDirectory(h, objects, x, y, prefix, d, c);
    assert IsTrieChange(h, x, y, c);
  }

  /** Taking back the changes of files. */
  lemma FilesTakenBack(base: Tree, cur: Tree, chosen: Path -> bool, d: seq<Change>)
    requires CanonicalRoot(base) && CanonicalRoot(cur) && AllTakeBackOk(d)
    requires IsDiff(FilesOf(base), Spliced(FilesOf(cur), FilesOf(base), chosen), d)
    ensures d == [] <==> !Dirty(FilesOf(base), FilesOf(cur), chosen)
    ensures TakeBackFrom(base, cur, d, 0).Some? <==>
              Completable(FilesOf(cur), Spliced(FilesOf(base), FilesOf(cur), chosen))
    ensures TakeBackFrom(base, cur, d, 0).Some? ==>
      var u := TakeBackFrom(base, cur, d, 0).value;
      CanonicalRoot(u) && forall p :: Lookup(u, p) == Spliced(FilesOf(base), FilesOf(cur), chosen)(p)
  {
    hide IsDiff, Replay, Completable, Lookup, CanonicalRoot, Dirty, TakeBackFrom, TakeBackOk;
    var f, g, inv := FilesOf(cur), Spliced(FilesOf(base), FilesOf(cur), chosen), InverseAll(d);
    InverseIsDiff(FilesOf(base), f, chosen, d);
    DiffActions(f, g, inv);
    CanonicalIsProper(base);
    CanonicalIsProper(cur);
    SplicedIsProper(FilesOf(base), f, chosen);
    forall c | c in d && c.from.Some?
      ensures c.from.value == PathNode(c.At(), c.from.value.hash) && Lookup(base, c.At()) == Some(c.from.value.hash)
    {
      FromBase(base, Spliced(f, FilesOf(base), chosen), d, c);
    }
    TakeBackIsReplay(base, cur, d, 0);
    assert inv[0..] == inv;
    ReplayIffCompletable(cur, g, inv);
    if Replay(cur, inv).Some? {
      ReplayReaches(cur, g, inv);
    }
  }

  lemma FromBase(base: Tree, g: Files, d: seq<Change>, c: Change)
    requires IsDiff(FilesOf(base), g, d) && c in d && c.from.Some?
    ensures c.from.value == PathNode(c.At(), c.from.value.hash) && Lookup(base, c.At()) == Some(c.from.value.hash)
  {
    ChangeForAt(FilesOf(base), g, c.At());
  }

  lemma SplicedIsProper(f: Files, g: Files, chosen: Path -> bool)
    requires Proper(f) && Proper(g)
    ensures Proper(Spliced(f, g, chosen))
  {
  }

  /** The loop over a difference: it gets through exactly when no relabelled directory is
      reported and the files can be taken back. */
  lemma DiffTakenBack(h: Hasher, objects: Store, base: Tree, cur: Tree, prefix: string, d: seq<Change>)
    requires CanonicalRoot(base) && CanonicalRoot(cur) && StoredRoot(h, objects, base) && StoredRoot(h, objects, cur)
    requires IsTrieDiff(h, base, cur, prefix, d)
    ensures AllTakeBackOk(d)
    ensures d == [] ==> !CanRevert(h, base, cur, prefix)
    ensures d != [] ==> (TakeBackFrom(base, cur, d, 0).Some? <==> CanRevert(h, base, cur, prefix))
    ensures d != [] && TakeBackFrom(base, cur, d, 0).Some? ==>
              IsReverted(h, base, cur, prefix, TakeBackFrom(base, cur, d, 0).value)
    ensures d == [] <==>
              !ReportsDirectory(h, base, cur, prefix) && !Dirty(FilesOf(base), FilesOf(cur), Seen(h, base, cur, prefix))
  {
    hide IsDiff, CanonicalRoot, StoredRoot, IsTrieDiff, TakeBackFrom, Completable, Dirty, Lookup, TakeBackOk,
      DirectoryHere;
    TrieDiffOk(h, objects, base, cur, prefix, d);
    FileLevelIff(h, objects, base, cur, prefix, d);
    if p :| p != [] && DirectoryHere(h, base, cur, prefix, p) {
      var k := DirectoryStops(h, objects, base, cur, prefix, d, p);
      TakeBackStops(base, cur, d, 0, k);
    } else {
      FilesTakenBack(base, cur, Seen(h, base, cur, prefix), d);
    }
  }

  lemma DirectoryStops(h: Hasher, objects: Store, base: Tree, cur: Tree, prefix: string, d: seq<Change>, p: Path)
    returns (k: nat)
    requires CanonicalRoot(base) && StoredRoot(h, objects, base) && StoredRoot(h, objects, cur)
    requires IsTrieDiff(h, base, cur, prefix, d) && p != [] && DirectoryHere(h, base, cur, prefix, p)
    ensures k < |d| && d[k].from.Some? && Lookup(base, d[k].At()).None?
  {
    hide CanonicalRoot, StoredRoot, IsTrieDiff, Visible, RelabelledAt;
    DirectoryReported(h, objects, base, cur, prefix, d, p);
    RelabelledIsNoFile(h, base, cur, p);
    var c := DirectoryChange(h, Node(base, p).value, Node(cur, p).value, p);
    k :| k < |d| && d[k] == c;
  }

  /** The tree part of Revert with a prefix. */
  method RevertTree(repo: FileTreeRepo, baseHash: Hash, curHash: Hash, prefix: string, ghost base: Tree,
                    ghost cur: Tree)
    returns (r: Result<Hash>, ghost u: Tree)
    requires repo.Valid() && Represents(repo.hasher, repo.objects, baseHash, base)
    requires Represents(repo.hasher, repo.objects, curHash, cur)
    modifies repo
    ensures repo.Valid() && Grows(old(repo.objects), repo.objects)
    ensures r.Ok? <==> CanRevert(repo.hasher, base, cur, prefix)
    ensures r.Ok? ==> IsReverted(repo.hasher, base, cur, prefix, u) && Represents(repo.hasher, repo.objects, r.value, u)
    ensures r.Ok? ==> forall p ::
      Lookup(u, p)
      == if |prefix| <= |JoinPath(p)| && JoinPath(p)[..|prefix|] == prefix && Visible(repo.hasher, base, cur, p)
         then Lookup(base, p) else Lookup(cur, p)
    ensures !ReportsDirectory(repo.hasher, base, cur, prefix)
            && !Dirty(FilesOf(base), FilesOf(cur), Seen(repo.hasher, base, cur, prefix)) ==>
      r == Err(NotFound)
  {
    hide IsTrieDiff, StoreOk, CollisionFree, CanonicalRoot, StoredRoot, TakeBackFrom, CanRevert, IsReverted, Dirty,
      ReportsDirectory, AllTakeBackOk, Lookup, Visible, JoinPath, IsTrieChange, Less;
    var baseTree := new WorkTree(repo, baseHash, base);
    var curTree := new WorkTree(repo, curHash, cur);
    var changes := Diff(repo, baseTree.root, curTree.root, prefix, base, cur);
    DiffTakenBack(repo.hasher, repo.objects, base, cur, prefix, changes);
    u := cur;
    if |changes| == 0 {
      return Err(NotFound), u;
    }
    var done := RevertChanges(baseTree, curTree, changes);
    if done.Err? {
      return Err(done.error), u;
    }
    curTree.RootRepresents();
    u := curTree.tree;
    RevertedMeans(repo.hasher, base, cur, prefix, u);
    return Ok(curTree.RootHash()), u;
  }

  lemma RevertedMeans(h: Hasher, base: Tree, cur: Tree, prefix: string, u: Tree)
    requires IsReverted(h, base, cur, prefix, u)
    ensures CanonicalRoot(u)
    ensures forall p ::
      Lookup(u, p)
      == if |prefix| <= |JoinPath(p)| && JoinPath(p)[..|prefix|] == prefix && Visible(h, base, cur, p)
         then Lookup(base, p) else Lookup(cur, p)
  {
    hide Lookup, Visible, CanonicalRoot, JoinPath;
  }

  // ---------------------------------------------------- what a caller may expect

  /** The paths whose string has the prefix. */
  ghost function Below(prefix: string): Path -> bool {
    p => prefix <= JoinPath(p)
  }

  lemma SameChosen(f: Files, g: Files, chosen: Path -> bool, chosen': Path -> bool)
    requires forall p :: chosen(p) == chosen'(p)
    ensures Dirty(f, g, chosen) <==> Dirty(f, g, chosen')
    ensures Completable(g, Spliced(f, g, chosen)) <==> Completable(g, Spliced(f, g, chosen'))
    ensures forall p :: Spliced(f, g, chosen)(p) == Spliced(f, g, chosen')(p)
  {
    hide Completable;
    var m, m' := Spliced(f, g, chosen), Spliced(f, g, chosen');
    assert Agree(m, m') && Agree(m', m);
    if Completable(g, m) {
      CompletableExtensional(g, m, m');
    }
    if Completable(g, m') {
      CompletableExtensional(g, m', m);
    }
  }

  /** While no directory is relabelled, a revert is possible exactly when a file below the
      prefix differs and no file of the result lies at a directory, and it takes back every
      file below the prefix. */
  lemma RevertExpected(h: Hasher, base: Tree, cur: Tree, prefix: string)
    requires NoneRelabelled(h, base, cur)
    ensures CanRevert(h, base, cur, prefix)
            <==> (exists p :: prefix <= JoinPath(p) && Lookup(base, p) != Lookup(cur, p))
                 && Completable(FilesOf(cur), Spliced(FilesOf(base), FilesOf(cur), Below(prefix)))
    ensures forall u, p | IsReverted(h, base, cur, prefix, u) ::
              Lookup(u, p) == if prefix <= JoinPath(p) then Lookup(base, p) else Lookup(cur, p)
  {
    hide RelabelledAt, Lookup, CanonicalRoot, Completable, JoinPath, Dirty;
    NothingHidden(h, base, cur, prefix);
    DirtyBelow(base, cur, prefix);
    SameChosen(FilesOf(base), FilesOf(cur), Seen(h, base, cur, prefix), Below(prefix));
  }

  lemma DirtyBelow(base: Tree, cur: Tree, prefix: string)
    ensures Dirty(FilesOf(base), FilesOf(cur), Below(prefix))
            <==> exists p :: prefix <= JoinPath(p) && Lookup(base, p) != Lookup(cur, p)
  {
    hide Lookup, JoinPath, Dirty;
    if p :| prefix <= JoinPath(p) && Lookup(base, p) != Lookup(cur, p) {
      DirtyAt(FilesOf(base), FilesOf(cur), Below(prefix), p);
    }
    if Dirty(FilesOf(base), FilesOf(cur), Below(prefix)) {
      var p := DirtyPath(FilesOf(base), FilesOf(cur), Below(prefix));
      assert Lookup(base, p) != Lookup(cur, p);
    }
  }

  lemma DirtyAt(base: Files, cur: Files, chosen: Path -> bool, p: Path)
    requires chosen(p) && base(p) != cur(p)
    ensures Dirty(base, cur, chosen)
  {
  }

  lemma DirtyPath(base: Files, cur: Files, chosen: Path -> bool) returns (p: Path)
    requires Dirty(base, cur, chosen)
    ensures chosen(p) && base(p) != cur(p)
  {
    p :| chosen(p) && base(p) != cur(p);
  }

  lemma NothingHidden(h: Hasher, base: Tree, cur: Tree, prefix: string)
    requires NoneRelabelled(h, base, cur)
    ensures forall p :: Seen(h, base, cur, prefix)(p) == Below(prefix)(p)
    ensures !ReportsDirectory(h, base, cur, prefix)
  {
    hide RelabelledAt;
  }

  /** A revert that gets through leaves a file below the prefix as it is, although the base
      differs, exactly when the file lies below a relabelled directory. */
  lemma RevertMisses(h: Hasher, base: Tree, cur: Tree, prefix: string, u: Tree, p: Path)
    requires IsReverted(h, base, cur, prefix, u) && prefix <= JoinPath(p) && Lookup(base, p) != Lookup(cur, p)
    ensures Lookup(u, p) != Lookup(base, p) <==> !Visible(h, base, cur, p)
    ensures !Visible(h, base, cur, p) ==> Lookup(u, p) == Lookup(cur, p)
  {
    hide Visible, Lookup;
  }

  /** The shortcut for the empty prefix: the loop over all changes would end in the base
      tree itself, and it would get through exactly when no directory is relabelled and no
      file of the base is a directory of the present tree. */
  lemma RevertAllIsBase(h: Hasher, objects: Store, base: Tree, cur: Tree, d: seq<Change>)
    requires CanonicalRoot(base) && CanonicalRoot(cur) && StoredRoot(h, objects, base) && StoredRoot(h, objects, cur)
    requires IsTrieDiff(h, base, cur, "", d)
    ensures AllTakeBackOk(d)
    ensures TakeBackFrom(base, cur, d, 0).Some? ==> TakeBackFrom(base, cur, d, 0).value == base
    ensures TakeBackFrom(base, cur, d, 0).Some? <==>
              NoneRelabelled(h, base, cur) && forall p | Lookup(base, p).Some? :: !IsDir(cur, p)
  {
    hide IsDiff, CanonicalRoot, StoredRoot, IsTrieDiff, TakeBackFrom, Completable, Dirty, Lookup, TakeBackOk,
      DirectoryHere, IsDir, NoneRelabelled, Seen;
    TrieDiffOk(h, objects, base, cur, "", d);
    DiffIffNoneRelabelled(h, objects, base, cur, d);
    ReportsIffRelabelled(h, base, cur);
    NoFileAtDirectory(cur, base);
    var all: Path -> bool := p => true;
    if NoneRelabelled(h, base, cur) {
      SameDiff(FilesOf(base), FilesOf(cur), Spliced(FilesOf(cur), FilesOf(base), all), d);
      FilesTakenBack(base, cur, all, d);
      EverywhereBase(FilesOf(base), FilesOf(cur), all);
      if TakeBackFrom(base, cur, d, 0).Some? {
        FilesDetermineTree(TakeBackFrom(base, cur, d, 0).value, base);
      }
    } else {
      var p :| p != [] && DirectoryHere(h, base, cur, "", p);
      var k := DirectoryStops(h, objects, base, cur, "", d, p);
      TakeBackStops(base, cur, d, 0, k);
    }
  }

  lemma EverywhereBase(base: Files, cur: Files, all: Path -> bool)
    requires forall p :: all(p)
    ensures forall p :: Spliced(base, cur, all)(p) == base(p)
    ensures Completable(cur, Spliced(base, cur, all)) <==> Completable(cur, base)
  {
    var g := Spliced(base, cur, all);
    assert Agree(g, base) && Agree(base, g);
    if Completable(cur, g) {
      CompletableExtensional(cur, g, base);
    }
    if Completable(cur, base) {
      CompletableExtensional(cur, base, g);
    }
  }
}
