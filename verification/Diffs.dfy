/** The difference of two stored trees: the trie comparison of versionmgr/merkletrie/difftree.go,
    and Diff of versionmgr/worktree.go, which filters and sorts what it reports. */
module Diffs {
  import opened Wrappers
  import opened Hashes
  import opened Order
  import opened Objects
  import opened TreeModel
  import opened TreeUpdates
  import opened WorkNodes
  import opened WorkTrees
  import opened WorkTreeRuns
  import opened Paths
  import opened Changes
  import opened ChangeJoin
  import opened FileMerge
  import opened TrieChanges
  import opened TrieIters
  import opened TrieFrontiers
  import opened DoubleIters

  // ------------------------------------------------------- sorting (NewChanges)

  function InsertChange(c: Change, s: seq<Change>): (r: seq<Change>)
    ensures forall x :: x in r <==> x == c || x in s
  {
    if s == [] || Less(c.Key(), s[0].Key()) then [c] + s
    else [s[0]] + InsertChange(c, s[1..])
  }

  lemma {:induction false} InsertChangeKeys(c: Change, s: seq<Change>)
    ensures forall k :: k in Keys(InsertChange(c, s)) <==> k == c.Key() || k in Keys(s)
  {
    hide Less, JoinPath;
    if s == [] || Less(c.Key(), s[0].Key()) {
      assert Keys([c] + s) == [c.Key()] + Keys(s);
    } else {
      InsertChangeKeys(c, s[1..]);
      assert Keys([s[0]] + InsertChange(c, s[1..])) == [s[0].Key()] + Keys(InsertChange(c, s[1..]));
      KeysTail(s);
    }
  }

  lemma SortedCons(c: Change, s: seq<Change>)
    requires SortedChanges(s) && forall k | k in Keys(s) :: Less(c.Key(), k)
    ensures SortedChanges([c] + s)
  {
    assert Keys([c] + s) == [c.Key()] + Keys(s);
    assert forall i | 0 <= i < |s| :: Keys(s)[i] in Keys(s);
  }

  lemma {:induction false} InsertKeepsOrder(c: Change, s: seq<Change>)
    requires SortedChanges(s) && c.Key() !in Keys(s)
    ensures SortedChanges(InsertChange(c, s))
  {
    hide SortedChanges, Less, Keys;
    if s != [] {
      SortedTail(s);
    }
    if s == [] || Less(c.Key(), s[0].Key()) {
      forall k | k in Keys(s) ensures Less(c.Key(), k) {
        if k != s[0].Key() {
          LessTransitive(c.Key(), s[0].Key(), k);
        }
      }
      KeysOfNothing();
      SortedCons(c, s);
    } else {
      LessTotal(c.Key(), s[0].Key());
      InsertKeepsOrder(c, s[1..]);
      InsertChangeKeys(c, s[1..]);
      SortedCons(s[0], InsertChange(c, s[1..]));
    }
  }

  lemma KeysOfNothing()
    ensures Keys([]) == [] && SortedChanges([])
  {
  }

  // ------------------------------------------------------------- whole directories

  ghost function FileAhead(todo: seq<Spot>, p: Path): Option<Hash> {
    match FindSpot(todo, p)
    case None => None
    case Some(s) => FileBelow(s.tree, s.path, p)
  }

  /** The files at and below a node are in the list, or ahead. */
  ghost predicate Gathered(t: Tree, q: Path, rest: seq<Spot>, files: seq<PathNode>) {
    && Ordered(rest) && (forall i, j | 0 <= i < j < |files| :: files[i].path != files[j].path)
    && (forall n | n in files :: FindSpot(rest, n.path).None?)
    && (forall n: PathNode :: FileBelow(t, q, n.path) == Some(n.hash) <==>
          n in files || FileAhead(rest, n.path) == Some(n.hash))
  }

  lemma NothingGathered(t: Tree, q: Path)
    requires t.Dir?
    ensures Gathered(t, q, KidSpots(Spot(q, t)), [])
  {
    hide Lookup, KidSpots;
    var s := Spot(q, t);
    KidsOrdered(s);
    forall n: PathNode ensures FileBelow(t, q, n.path) == FileAhead(KidSpots(s), n.path) {
      FindKid(s, n.path);
      FileBelowKid(t, q, n.path);
    }
  }

  lemma FileBelowKid(t: Tree, q: Path, p: Path)
    requires t.Dir?
    ensures FileBelow(t, q, p) ==
            if Prefix(q, p) && |q| < |p| && p[|q|] in t.kids then FileBelow(t.kids[p[|q|]], p[..|q| + 1], p) else None
  {
    if Prefix(q, p) && |q| < |p| {
      assert p[|q|..][0] == p[|q|] && p[|q|..][1..] == p[|q| + 1..];
    }
  }

  lemma GatherOne(t: Tree, q: Path, rest: seq<Spot>, files: seq<PathNode>)
    requires Gathered(t, q, rest, files) && rest != []
    ensures Gathered(t, q, Past(rest, true),
                     if rest[0].tree.Dir? then files else files + [PathNode(rest[0].path, rest[0].tree.blob)])
  {
    hide Before, Lookup, KidSpots, Past, FindSpot, Prefix, FileBelow;
    PastOrdered(rest);
    var s := rest[0];
    forall p
      ensures FindSpot(rest, p).None? ==> FindSpot(Past(rest, true), p).None?
      ensures s.tree.Dir? ==> FileAhead(Past(rest, true), p) == FileAhead(rest, p)
      ensures s.tree.File? && p == s.path ==>
                FileAhead(rest, p) == Some(s.tree.blob) && FindSpot(Past(rest, true), p).None?
      ensures s.tree.File? && p != s.path ==> FileAhead(rest, p) == FileAhead(Past(rest, true), p)
    {
      PastFiles(rest, p);
    }
    if s.tree.File? {
      assert FileAhead(rest, s.path).Some?;
      var more := files + [PathNode(s.path, s.tree.blob)];
      forall i, j | 0 <= i < j < |more| ensures more[i].path != more[j].path {
        assert more[i] in files;
      }
    }
  }

  lemma PastFiles(rest: seq<Spot>, p: Path)
    requires Ordered(rest) && rest != []
    ensures var s := rest[0];
      && (FindSpot(rest, p).None? ==> FindSpot(Past(rest, true), p).None?)
      && (s.tree.Dir? ==> FileAhead(Past(rest, true), p) == FileAhead(rest, p))
      && (s.tree.File? && p == s.path ==>
            FileAhead(rest, p) == Some(s.tree.blob) && FindSpot(Past(rest, true), p).None?)
      && (s.tree.File? && p != s.path ==> FileAhead(rest, p) == FileAhead(Past(rest, true), p))
  {
    hide Before, KidSpots, FindSpot, Ordered;
    var s := rest[0];
    HeadGone(rest, p);
    if s.tree.Dir? {
      FindBelow(rest, p);
      FindKid(s, p);
      FileBelowKid(s.tree, s.path, p);
    }
  }

  lemma AllGathered(t: Tree, q: Path, files: seq<PathNode>)
    requires Gathered(t, q, [], files)
    ensures AreFilesAt(t, q, files)
  {
  }

  lemma OnlyThisFile(b: Hash, q: Path)
    ensures AreFilesAt(File(b), q, [PathNode(q, b)])
  {
    forall p ensures FileBelow(File(b), q, p) == if p == q then Some(b) else None {
      if Prefix(q, p) {
        assert p[|q|..] == [] <==> p == q;
      }
    }
  }

  /** addRecursive: the files at and below a node. */
  method FilesBelow(repo: FileTreeRepo, root: Noder, ghost s: Spot) returns (files: seq<PathNode>)
    requires repo.Valid() && IsAt(repo.hasher, repo.objects, root, s)
    ensures AreFilesAt(s.tree, s.path, files)
  {
    hide SpotOk, Opens, Gathered, AreFilesAt, Iter.Valid, FileTreeRepo.Valid, Past, KidSpots, CanonicalRoot, HashOf;
    DirectoryHasKids(repo.hasher, repo.objects, root.1, s);
    if !root.1.entry.isDir {
      OnlyThisFile(s.tree.blob, s.path);
      BlobHashOf(repo.hasher, s.tree);
      return [PathNode(root.0, root.1.entry.hash)];
    }
    SpotIsRoot(repo.hasher, repo.objects, s);
    var i := new Iter(repo, root.1, root.0, s.tree);
    files := [];
    ghost var rest := i.Todo();
    NothingGathered(s.tree, s.path);
    while true
      invariant repo.Valid() && i.Valid() && i.repo == repo && Gathered(s.tree, s.path, rest, files)
      invariant rest == if i.hasStarted then Past(i.Todo(), true) else i.Todo()
      decreases SpotsWeight(rest)
    {
      var current := i.Step();
      if current.None? {
        break;
      }
      GatherOne(s.tree, s.path, rest, files);
      PastIsLighter(rest, true);
      if !current.value.1.entry.isDir {
        BlobHashOf(repo.hasher, rest[0].tree);
        files := files + [PathNode(current.value.0, current.value.1.entry.hash)];
      }
      rest := Past(rest, true);
    }
    AllGathered(s.tree, s.path, files);
  }

  lemma BlobHashOf(h: Hasher, t: Tree)
    ensures t.File? ==> HashOf(h, t) == t.blob
  {
  }

  // ------------------------------------------------------------- the comparison

  /** isDiffChildrenSame: the children have the same hashes in the same order. Their names
      are not looked at. */
  method IsDiffChildrenSame(repo: FileTreeRepo, from: WorkNode, to: WorkNode, ghost a: Tree, ghost b: Tree)
    returns (same: bool)
    requires StoredRoot(repo.hasher, repo.objects, a) && Opens(repo.hasher, repo.objects, from, a)
    requires StoredRoot(repo.hasher, repo.objects, b) && Opens(repo.hasher, repo.objects, to, b)
    ensures same <==> KidHashes(repo.hasher, a) == KidHashes(repo.hasher, b)
  {
    hide Subs, Opens, StoredRoot, OpenNode;
    OpenedEntries(repo.hasher, repo.objects, from, a);
    OpenedEntries(repo.hasher, repo.objects, to, b);
    KidsOpen(repo.hasher, repo.objects, a);
    KidsOpen(repo.hasher, repo.objects, b);
    var fromChildren := Children(repo, from);
    var toChildren := Children(repo, to);
    EntriesOpen(repo.objects, from.treeNode.subObjects);
    EntriesOpen(repo.objects, to.treeNode.subObjects);
    if |fromChildren.value| != |toChildren.value| {
      return false;
    }
    for index := 0 to |fromChildren.value|
      invariant forall j | 0 <= j < index :: KidHashes(repo.hasher, a)[j] == KidHashes(repo.hasher, b)[j]
    {
      if fromChildren.value[index].entry.hash != toChildren.value[index].entry.hash {
        return false;
      }
    }
    return true;
  }

  lemma EntriesOpen(objects: Store, entries: seq<TreeEntry>)
    ensures forall i | 0 <= i < |entries| :: OpenNode(objects, entries[i]).Ok? ==>
              OpenNode(objects, entries[i]).value.entry == entries[i]
  {
  }

  /** What is ahead on both sides. */
  ghost function Load(ii: DoubleIter): nat
    reads ii, ii.fromIter, ii.toIter
  {
    SpotsWeight(ii.From()) + SpotsWeight(ii.To())
  }

  /** What is reported for the two nodes at one path, unless the comparison goes down into
      both: the cases of diffNodesSameName and diffDirs. A directory without children does
      not occur below a root. */
  method CompareNodes(repo: FileTreeRepo, status: Comparison, from: Noder, to: Noder, ghost s: Spot, ghost s': Spot)
    returns (es: seq<Change>, descend: bool)
    requires repo.Valid() && IsAt(repo.hasher, repo.objects, from, s) && IsAt(repo.hasher, repo.objects, to, s')
    requires s.path == s'.path
    requires var a, b := s.tree, s'.tree;
             status == Comparison(HashOf(repo.hasher, a) == HashOf(repo.hasher, b), a.File? && b.File?,
                                  a.Dir? != b.Dir?, a.Dir? && b.Dir?)
    ensures !descend ==> Covers(repo.hasher, Some(s.tree), Some(s'.tree), s.path, es)
    ensures descend ==>
      && es == [] && s.tree.Dir? && s'.tree.Dir? && HashOf(repo.hasher, s.tree) != HashOf(repo.hasher, s'.tree)
      && !Relabelled(repo.hasher, s.tree, s'.tree)
  {
    hide Covers, HashOf, Relabelled, NodeFits, Opens, SpotOk, StoredRoot, CanonicalRoot, FileTreeRepo.Valid, KidHashes,
      AreFilesAt, FilePath, Stored, Canonical;
    ghost var h, a, b, q := repo.hasher, s.tree, s'.tree, s.path;
    NodesHere(repo.hasher, repo.objects, from.1, s);
    NodesHere(repo.hasher, repo.objects, to.1, s');
    es, descend := [], false;
    if status.sameHash {
      SameCovers(h, repo.objects, a, b, q);
    } else if status.bothAreFiles {
      es := [Change(Some(PathNode(from.0, from.1.entry.hash)), Some(PathNode(to.0, to.1.entry.hash)))];
      FilesCover(h, a.blob, b.blob, q);
    } else if status.fileAndDir {
      var deleted := FilesBelow(repo, from, s);
      var inserted := FilesBelow(repo, to, s');
      es := Deletes(deleted) + Inserts(inserted);
      DeletesCover(h, a, q, deleted);
      InsertsCover(h, b, q, inserted);
      ExchangeCovers(h, a, b, q, Deletes(deleted), Inserts(inserted));
    } else {
      var isDirChildrenSame := IsDiffChildrenSame(repo, from.1, to.1, a, b);
      RelabelledMeans(h, a, b);
      if !isDirChildrenSame {
        return [], true;
      }
      es := [Change(Some(PathNode(from.0, from.1.entry.hash)), Some(PathNode(to.0, to.1.entry.hash)))];
      RelabelledCovers(h, a, b, q);
    }
  }

  /** diffNodesSameName */
  method DiffNodesSameName(ii: DoubleIter, ghost x: Tree, ghost y: Tree, ghost d: seq<Change>) returns (es: seq<Change>)
    requires ii.Valid() && ii.from.Some? && ii.to.Some? && ii.From()[0].path == ii.To()[0].path
    requires Progress(ii.fromIter.repo.hasher, x, y, ii.From(), ii.To(), d)
    modifies ii, ii.fromIter, ii.toIter
    ensures ii.Valid() && Load(ii) < old(Load(ii))
    ensures Progress(ii.fromIter.repo.hasher, x, y, ii.From(), ii.To(), d + es)
  {
    hide Progress, Moves, Covers, Iter.Valid, Iter.Todo, HashOf, Relabelled, SpotsWeight, IsAt, FileTreeRepo.Valid;
    ghost var h, from, to := ii.fromIter.repo.hasher, ii.From(), ii.To();
    ii.RepoValid();
    ProgressFrontier(h, x, y, from, to, d);
    var status := ii.Compare();
    var descend;
    es, descend := CompareNodes(ii.fromIter.repo, status, ii.from.value, ii.to.value, from[0], to[0]);
    PastIsLighter(from, descend);
    PastIsLighter(to, descend);
    if descend {
      StepBoth(h, from, to);
      ii.StepBoth();
    } else {
      TakeBoth(h, from, to, es);
      ii.NextBoth();
    }
    MoveOn(h, x, y, from, to, ii.From(), ii.To(), d, es);
  }

  lemma RelabelledMeans(h: Hasher, a: Tree, b: Tree)
    requires a.Dir? && b.Dir? && HashOf(h, a) != HashOf(h, b)
    ensures Relabelled(h, a, b) <==> KidHashes(h, a) == KidHashes(h, b)
  {
  }

  lemma ProgressFrontier(h: Hasher, x: Tree, y: Tree, from: seq<Spot>, to: seq<Spot>, d: seq<Change>)
    requires Progress(h, x, y, from, to, d)
    ensures Frontier(from, to)
    ensures from != [] && to != [] ==> Comparable(from[0].path, to[0].path)
  {
  }

  lemma NodesHere(h: Hasher, objects: Store, node: WorkNode, s: Spot)
    requires NodeFits(h, objects, node, s)
    ensures FilePath(s.path) && Canonical(s.tree) && Stored(h, objects, s.tree)
    ensures node.entry.hash == HashOf(h, s.tree) && (s.tree.File? ==> HashOf(h, s.tree) == s.tree.blob)
    ensures s.tree.Dir? ==> StoredRoot(h, objects, s.tree) && Opens(h, objects, node, s.tree)
  {
  }

  /** diffNodes: the node that comes first, or both nodes of one path. */
  method DiffNodes(ii: DoubleIter, ghost x: Tree, ghost y: Tree, ghost d: seq<Change>) returns (es: seq<Change>)
    requires ii.Valid() && (ii.from.Some? || ii.to.Some?)
    requires Progress(ii.fromIter.repo.hasher, x, y, ii.From(), ii.To(), d)
    modifies ii, ii.fromIter, ii.toIter
    ensures ii.Valid() && Load(ii) < old(Load(ii))
    ensures Progress(ii.fromIter.repo.hasher, x, y, ii.From(), ii.To(), d + es)
  {
    hide Progress, Moves, Covers, Iter.Valid, Iter.Todo, HashOf, SpotsWeight, NodeFits, Before, Frontier, Compare,
      FileTreeRepo.Valid;
    var repo := ii.fromIter.repo;
    ghost var h, from, to := repo.hasher, ii.From(), ii.To();
    ii.RepoValid();
    ProgressFrontier(h, x, y, from, to, d);
    if from != [] && to != [] {
      BeforeCompare(from[0].path, to[0].path);
      BeforeCompare(to[0].path, from[0].path);
    }
    if ii.to.None? || (ii.from.Some? && Compare(ii.from.value.0, ii.to.value.0) == -1) {
      NodesHere(h, repo.objects, ii.from.value.1, from[0]);
      var deleted := FilesBelow(repo, ii.from.value, from[0]);
      es := Deletes(deleted);
      DeletesCover(h, from[0].tree, from[0].path, deleted);
      TakeFrom(h, from, to, es);
      PastIsLighter(from, false);
      MoveOn(h, x, y, from, to, from[1..], to, d, es);
      ii.NextFrom();
    } else if ii.from.None? || Compare(ii.from.value.0, ii.to.value.0) == 1 {
      NodesHere(h, repo.objects, ii.to.value.1, to[0]);
      var inserted := FilesBelow(repo, ii.to.value, to[0]);
      es := Inserts(inserted);
      InsertsCover(h, to[0].tree, to[0].path, inserted);
      TakeTo(h, from, to, es);
      PastIsLighter(to, false);
      MoveOn(h, x, y, from, to, from, to[1..], d, es);
      ii.NextTo();
    } else {
      es := DiffNodesSameName(ii, x, y, d);
    }
  }

  /** DiffTree: everything that the comparison reports. No node is ever skipped. */
  method DiffTree(repo: FileTreeRepo, fromRoot: WorkNode, toRoot: WorkNode, ghost x: Tree, ghost y: Tree)
    returns (ret: seq<Change>)
    requires repo.Valid() && CanonicalRoot(x) && CanonicalRoot(y)
    requires Opens(repo.hasher, repo.objects, fromRoot, x) && Opens(repo.hasher, repo.objects, toRoot, y)
    ensures DistinctAts(ret) && forall c :: c in ret <==> IsTrieChange(repo.hasher, x, y, c)
  {
    hide Progress, Opens, CanonicalRoot, Iter.Valid, Iter.Todo, IsAt, FileTreeRepo.Valid, SpotsWeight, IsTrieChange,
      KidSpots;
    var ii := new DoubleIter(repo, fromRoot, toRoot, x, y);
    ret := [];
    RootIsDir(x);
    RootIsDir(y);
    StartOfDiff(repo.hasher, x, y);
    while ii.from.Some? || ii.to.Some?
      invariant ii.Valid() && ii.fromIter.repo == repo && fresh(ii) && fresh(ii.fromIter) && fresh(ii.toIter)
      invariant Progress(repo.hasher, x, y, ii.From(), ii.To(), ret)
      decreases Load(ii)
    {
      var es := DiffNodes(ii, x, y, ret);
      ret := ret + es;
    }
    AllReported(repo.hasher, x, y, ret);
  }

  lemma RootIsDir(t: Tree)
    requires CanonicalRoot(t)
    ensures t.Dir?
  {
  }

  lemma AllReported(h: Hasher, x: Tree, y: Tree, d: seq<Change>)
    requires Progress(h, x, y, [], [], d)
    ensures DistinctAts(d) && forall c :: c in d <==> IsTrieChange(h, x, y, c)
  {
    hide TrieChange;
  }

  // ------------------------------------------------------------------------- Diff

  /** The changes among the first i with the prefix, sorted. */
  ghost predicate SortedSoFar(changes: seq<Change>, prefix: string, i: nat, d: seq<Change>) {
    && i <= |changes| && SortedChanges(d)
    && forall c :: c in d <==> c in changes[..i] && prefix <= c.Key()
  }

  lemma NothingSorted(changes: seq<Change>, prefix: string)
    ensures SortedSoFar(changes, prefix, 0, [])
  {
    KeysOfNothing();
  }

  lemma SortOne(changes: seq<Change>, prefix: string, i: nat, d: seq<Change>)
    requires SortedSoFar(changes, prefix, i, d) && i < |changes| && DistinctAts(changes)
    requires forall c | c in changes :: FilePath(c.At())
    ensures SortedSoFar(changes, prefix, i + 1,
                        if prefix <= changes[i].Key() then InsertChange(changes[i], d) else d)
  {
    hide SortedChanges, InsertChange, FilePath, JoinPath, Keys;
    assert changes[..i + 1] == changes[..i] + [changes[i]];
    assert changes[i] in changes;
    if changes[i].Key() in Keys(d) {
      var j :| 0 <= j < |d| && Keys(d)[j] == changes[i].Key();
      assert d[j] in d;
      JoinInjective(d[j].At(), changes[i].At());
    }
    InsertKeepsOrder(changes[i], d);
  }

  lemma AllSorted(h: Hasher, x: Tree, y: Tree, prefix: string, changes: seq<Change>, d: seq<Change>)
    requires SortedSoFar(changes, prefix, |changes|, d) && forall c :: c in changes <==> IsTrieChange(h, x, y, c)
    ensures IsTrieDiff(h, x, y, prefix, d)
  {
    assert changes[..|changes|] == changes;
  }

  /** Diff of two stored trees below a prefix: what the comparison reports, filtered by the
      path string and sorted by it. */
  method Diff(repo: FileTreeRepo, fromRoot: WorkNode, toRoot: WorkNode, prefix: string, ghost x: Tree, ghost y: Tree)
    returns (d: seq<Change>)
    requires repo.Valid() && CanonicalRoot(x) && CanonicalRoot(y)
    requires Opens(repo.hasher, repo.objects, fromRoot, x) && Opens(repo.hasher, repo.objects, toRoot, y)
    ensures forall i, j | 0 <= i < j < |d| :: Less(d[i].Key(), d[j].Key())
    ensures forall c :: c in d <==>
              && IsTrieChange(repo.hasher, x, y, c)
              && |prefix| <= |c.Key()| && c.Key()[..|prefix|] == prefix
    ensures IsTrieDiff(repo.hasher, x, y, prefix, d)
  {
    hide Opens, CanonicalRoot, FileTreeRepo.Valid, TrieChange, FilePath, SortedSoFar, InsertChange, IsTrieDiff, Less;
    var changes := DiffTree(repo, fromRoot, toRoot, x, y);
    d := [];
    NothingSorted(changes, prefix);
    for i := 0 to |changes|
      invariant SortedSoFar(changes, prefix, i, d)
    {
      SortOne(changes, prefix, i, d);
      if prefix <= changes[i].Key() {
        d := InsertChange(changes[i], d);
      }
    }
    AllSorted(repo.hasher, x, y, prefix, changes, d);
    DiffMeans(repo.hasher, x, y, prefix, d);
  }

  lemma DiffMeans(h: Hasher, x: Tree, y: Tree, prefix: string, d: seq<Change>)
    requires IsTrieDiff(h, x, y, prefix, d)
    ensures forall i, j | 0 <= i < j < |d| :: Less(d[i].Key(), d[j].Key())
    ensures forall c :: c in d <==>
              IsTrieChange(h, x, y, c) && |prefix| <= |c.Key()| && c.Key()[..|prefix|] == prefix
  {
    hide IsTrieChange, Less;
    forall i, j | 0 <= i < j < |d| ensures Less(d[i].Key(), d[j].Key()) {
      assert Keys(d)[i] == d[i].Key() && Keys(d)[j] == d[j].Key();
    }
  }
}
