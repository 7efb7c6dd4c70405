/** The three-way merge of stored trees (the tree part of `merge` in
    versionmgr/work_repo.go, with ChangesMergeIter of versionmgr/changes.go). */
module ThreeWay {
  import opened Wrappers
  import opened Hashes
  import opened Order
  import opened Objects
  import opened TreeModel
  import opened TreeUpdates
  import opened WorkNodes
  import opened WorkTrees
  import opened WorkTreeRuns
  import opened Paths
  import opened Changes
  import opened ChangeJoin
  import opened FileMerge
  import opened Patches
  import opened TrieChanges
  import opened Diffs

  class ChangesMergeIter {
    const changePairIter: ChangesPairIter
    const resolver: Resolver

    ghost predicate Valid()
      reads this, changePairIter, changePairIter.leftChanges, changePairIter.rightChanges
    {
      changePairIter.Valid()
    }

    ghost function Left(): seq<Change>
      requires Valid()
      reads this, changePairIter, changePairIter.leftChanges, changePairIter.rightChanges
    {
      changePairIter.leftChanges.Rest()
    }

    ghost function Right(): seq<Change>
      requires Valid()
      reads this, changePairIter, changePairIter.leftChanges, changePairIter.rightChanges
    {
      changePairIter.rightChanges.Rest()
    }

    constructor (left: seq<Change>, right: seq<Change>, resolver: Resolver)
      ensures Valid() && fresh(changePairIter) && fresh(changePairIter.leftChanges)
              && fresh(changePairIter.rightChanges)
      ensures Left() == left && Right() == right && this.resolver == resolver
    {
      var leftChanges := new ChangeCursor(left);
      var rightChanges := new ChangeCursor(right);
      var pairs := new ChangesPairIter(leftChanges, rightChanges);
      this.changePairIter, this.resolver := pairs, resolver;
    }

    predicate Has()
      reads this, changePairIter, changePairIter.leftChanges, changePairIter.rightChanges
    {
      changePairIter.Has()
    }

    /** Next: the next pair, resolved when it is a conflict. */
    method Next() returns (r: Result<Change>)
      requires Valid() && (Left() != [] || Right() != [])
      modifies changePairIter.leftChanges, changePairIter.rightChanges
      ensures Valid()
      ensures match JoinFirst(old(Left()), old(Right()))
              case Err(e) => r == Err(e)
              case Ok(j) => JoinedOk(j) && Left() == j.left && Right() == j.right && r == MergeOne(j.pair, resolver)
    {
      JoinFirstOk(Left(), Right());
      var chPair := changePairIter.Next();
      if chPair.Err? {
        return Err(chPair.error);
      }
      var pair := chPair.value.value;
      if pair.isConflict {
        return Resolve(resolver, pair.left.value, pair.right.value);
      }
      if pair.left.Some? {
        return Ok(pair.left.value);
      }
      return Ok(pair.right.value);
    }
  }

  ghost predicate JoinedOk(j: Joined) {
    && (j.pair.left.Some? || j.pair.right.Some?)
    && (j.pair.isConflict ==> j.pair.left.Some? && j.pair.right.Some?)
  }

  lemma JoinFirstOk(left: seq<Change>, right: seq<Change>)
    requires left != [] || right != []
    ensures JoinFirst(left, right).Ok? ==> JoinedOk(JoinFirst(left, right).value)
  {
  }

  // ---------------------------------------------------------------- specification

  /** The merge can be carried out: every conflict is resolved, and no merged file lies at
      a directory of the ancestor or of the result. */
  ghost predicate CanMerge(a: Tree, s: Tree, t: Tree, resolver: Resolver) {
    && !Unresolved(FilesOf(a), FilesOf(s), FilesOf(t), resolver)
    && Completable(FilesOf(a), MergedFiles(FilesOf(a), FilesOf(s), FilesOf(t), resolver))
  }

  /** m has at every path what the three-way merge prescribes. */
  ghost predicate IsMerge(a: Tree, s: Tree, t: Tree, resolver: Resolver, m: Tree) {
    && CanonicalRoot(m)
    && forall p :: MergedFile(FilesOf(a), FilesOf(s), FilesOf(t), resolver, p) == Ok(Lookup(m, p))
  }

  /** Neither side has relabelled a directory of the ancestor, so both differences are
      differences of files. */
  ghost predicate TreesAlign(h: Hasher, a: Tree, s: Tree, t: Tree) {
    NoneRelabelled(h, a, s) && NoneRelabelled(h, a, t)
  }

  // ------------------------------------------------------------ applying two lists

  /** One change on a tree, where it is accepted and its content is the row of a blob. */
  ghost function ApplyTree(objects: Store, t: Tree, c: Change): Option<Tree> {
    if c.Action().Ok? && BlobThere(objects, c) then ChangeTree(t, c) else None
  }

  /** The tree after the merged changes of two lists, in the order of their join, if no pair
      is refused and every change is accepted. */
  ghost function RunAll(objects: Store, t: Tree, left: seq<Change>, right: seq<Change>,
                        resolver: Resolver): Option<Tree>
    decreases |left| + |right|, 0
  {
    if left == [] && right == [] then Some(t)
    else
      match JoinFirst(left, right)
      case Err(_) => None
      case Ok(j) => RunFirst(objects, t, j, resolver)
  }

  ghost function RunFirst(objects: Store, t: Tree, j: Joined, resolver: Resolver): Option<Tree>
    decreases |j.left| + |j.right|, 1
  {
    if !JoinedOk(j) || MergeOne(j.pair, resolver).Err? then None
    else
      var u := ApplyTree(objects, t, MergeOne(j.pair, resolver).value);
      if u.None? then None else RunAll(objects, u.value, j.left, j.right, resolver)
  }

  /** Changes at well-formed paths that name stored rows, as differences of stored trees do. */
  ghost predicate Applicable(objects: Store, cs: seq<Change>) {
    forall c | c in cs :: ChangeOk(c) && (c.to.Some? ==> c.to.value.hash in objects)
  }

  lemma ApplicableGrows(before: Store, after: Store, left: seq<Change>, right: seq<Change>)
    requires Grows(before, after) && Applicable(before, left) && Applicable(before, right)
    ensures Applicable(after, left) && Applicable(after, right)
  {
  }

  lemma GrowsTransitive(s1: Store, s2: Store, s3: Store)
    requires Grows(s1, s2) && Grows(s2, s3)
    ensures Grows(s1, s3)
  {
  }

  lemma GrowsReflexive(s: Store)
    ensures Grows(s, s)
  {
  }

  /** The change made from the first pair. */
  lemma FirstChange(objects: Store, left: seq<Change>, right: seq<Change>, resolver: Resolver)
    requires left != [] || right != []
    requires Applicable(objects, left) && Applicable(objects, right) && ResolverChooses(resolver)
    ensures JoinFirst(left, right).Ok? ==>
      var j := JoinFirst(left, right).value;
      && JoinedOk(j) && Applicable(objects, j.left) && Applicable(objects, j.right)
            && |j.left| + |j.right| < |left| + |right|
      && (MergeOne(j.pair, resolver).Ok? ==>
            var c := MergeOne(j.pair, resolver).value;
            ChangeOk(c) && (c.to.Some? ==> c.to.value.hash in objects))
  {
    hide ChangeOk, IsConflict, Less;
    if JoinFirst(left, right).Ok? {
      JoinFirstOk(left, right);
      var j := JoinFirst(left, right).value;
      if MergeOne(j.pair, resolver).Ok? {
        assert MergeOne(j.pair, resolver).value in left || MergeOne(j.pair, resolver).value in right;
      }
    }
  }

  /** A run does not depend on rows that came to the store since. */
  lemma {:induction false} RunAllGrows(before: Store, after: Store, t: Tree, left: seq<Change>, right: seq<Change>,
                                       resolver: Resolver)
    requires Grows(before, after) && Applicable(before, left) && Applicable(before, right) && ResolverChooses(resolver)
    ensures RunAll(after, t, left, right, resolver) == RunAll(before, t, left, right, resolver)
    decreases |left| + |right|
  {
    hide ChangeTree, ChangeOk, JoinFirst, MergeOne, Applicable, Grows, ResolverChooses;
    if (left != [] || right != []) && JoinFirst(left, right).Ok? {
      var j := JoinFirst(left, right).value;
      FirstChange(before, left, right, resolver);
      if MergeOne(j.pair, resolver).Ok? {
        var c := MergeOne(j.pair, resolver).value;
        SameBlobs(before, after, c);
        if ApplyTree(before, t, c).Some? {
          RunAllGrows(before, after, ApplyTree(before, t, c).value, j.left, j.right, resolver);
        }
      }
    }
  }

  lemma SameBlobs(before: Store, after: Store, c: Change)
    requires Grows(before, after) && (c.to.Some? ==> c.to.value.hash in before)
    ensures BlobThere(after, c) <==> BlobThere(before, c)
  {
  }

  /** Take one pair off the iterator and apply its change to the work tree. */
  method MergeStep(cmw: ChangesMergeIter, workTree: WorkTree) returns (r: Result<()>)
    requires cmw.Valid() && workTree.Valid() && ResolverChooses(cmw.resolver)
    requires cmw.Left() != [] || cmw.Right() != []
    requires Applicable(workTree.repo.objects, cmw.Left()) && Applicable(workTree.repo.objects, cmw.Right())
    modifies cmw.changePairIter.leftChanges, cmw.changePairIter.rightChanges, workTree, workTree.repo
    ensures cmw.Valid() && workTree.Valid() && Grows(old(workTree.repo.objects), workTree.repo.objects)
    ensures r.Ok? ==>
      && |cmw.Left()| + |cmw.Right()| < old(|cmw.Left()| + |cmw.Right()|)
      && Applicable(workTree.repo.objects, cmw.Left()) && Applicable(workTree.repo.objects, cmw.Right())
      && RunAll(workTree.repo.objects, workTree.tree, cmw.Left(), cmw.Right(), cmw.resolver)
         == RunAll(old(workTree.repo.objects), old(workTree.tree), old(cmw.Left()), old(cmw.Right()), cmw.resolver)
    ensures r.Err? ==>
      RunAll(old(workTree.repo.objects), old(workTree.tree), old(cmw.Left()), old(cmw.Right()), cmw.resolver).None?
  {
    hide JoinFirst, MergeOne, ChangesMergeIter.Valid, WorkTree.Valid, ChangeTree, Applicable, ChangeOk, Grows;
    ghost var objects, t, left, right := workTree.repo.objects, workTree.tree, cmw.Left(), cmw.Right();
    FirstChange(objects, left, right, cmw.resolver);
    var change := cmw.Next();
    if change.Err? {
      GrowsReflexive(objects);
      return Err(change.error);
    }
    r := ApplyOneChange(workTree, change.value);
    if r.Ok? {
      RunAllGrows(objects, workTree.repo.objects, workTree.tree, cmw.Left(), cmw.Right(), cmw.resolver);
      ApplicableGrows(objects, workTree.repo.objects, cmw.Left(), cmw.Right());
    }
  }

  /** Apply the merged changes of two lists one by one to a work tree. */
  method RunMerge(cmw: ChangesMergeIter, workTree: WorkTree) returns (r: Result<()>)
    requires cmw.Valid() && workTree.Valid() && ResolverChooses(cmw.resolver)
    requires Applicable(workTree.repo.objects, cmw.Left()) && Applicable(workTree.repo.objects, cmw.Right())
    modifies cmw.changePairIter.leftChanges, cmw.changePairIter.rightChanges, workTree, workTree.repo
    ensures workTree.Valid() && Grows(old(workTree.repo.objects), workTree.repo.objects)
    ensures r.Ok? <==>
              RunAll(old(workTree.repo.objects), old(workTree.tree), old(cmw.Left()), old(cmw.Right()),
                     cmw.resolver).Some?
    ensures r.Ok? ==>
      Some(workTree.tree) == RunAll(old(workTree.repo.objects), old(workTree.tree), old(cmw.Left()), old(cmw.Right()),
                                    cmw.resolver)
  {
    hide RunAll, WorkTree.Valid, Applicable, Grows;
    ghost var objects := workTree.repo.objects;
    ghost var end := RunAll(objects, workTree.tree, cmw.Left(), cmw.Right(), cmw.resolver);
    GrowsReflexive(objects);
    while cmw.Has()
      invariant cmw.Valid() && workTree.Valid() && Grows(objects, workTree.repo.objects)
      invariant Applicable(workTree.repo.objects, cmw.Left()) && Applicable(workTree.repo.objects, cmw.Right())
      invariant RunAll(workTree.repo.objects, workTree.tree, cmw.Left(), cmw.Right(), cmw.resolver) == end
      decreases |cmw.Left()| + |cmw.Right()|
    {
      ghost var before := workTree.repo.objects;
      r := MergeStep(cmw, workTree);
      GrowsTransitive(objects, before, workTree.repo.objects);
      if r.Err? {
        return;
      }
    }
    NothingToRun(workTree.repo.objects, workTree.tree, cmw.resolver);
    return Ok(());
  }

  lemma NothingToRun(objects: Store, t: Tree, resolver: Resolver)
    ensures RunAll(objects, t, [], [], resolver) == Some(t)
  {
  }

  // ------------------------------------------------------- runs in terms of the join

  /** The i-th pair cannot be merged, or its change names no blob. */
  ghost predicate PairStops(objects: Store, ps: seq<ChangePair>, resolver: Resolver, i: nat)
    requires Mergeable(ps)
  {
    i < |ps| && (MergeOne(ps[i], resolver).Err? || !BlobThere(objects, MergeOne(ps[i], resolver).value))
  }

  /** A run with such a pair, or with a join that fails, ends in an error. */
  lemma {:induction false} RunStops(objects: Store, t: Tree, left: seq<Change>, right: seq<Change>, resolver: Resolver)
    requires JoinAll(left, right).Ok? ==>
      Mergeable(JoinAll(left, right).value) && exists i :: PairStops(objects, JoinAll(left, right).value, resolver, i)
    ensures RunAll(objects, t, left, right, resolver).None?
    decreases |left| + |right|
  {
    hide ChangeTree, MergeOne, BlobThere, JoinFirst;
    JoinStep([], left, right);
    if (left != [] || right != []) && JoinFirst(left, right).Ok? {
      var j := JoinFirst(left, right).value;
      JoinFirstOk(left, right);
      if MergeOne(j.pair, resolver).Ok? && ApplyTree(objects, t, MergeOne(j.pair, resolver).value).Some? {
        if JoinAll(j.left, j.right).Ok? {
          var ps, rest := JoinAll(left, right).value, JoinAll(j.left, j.right).value;
          assert ps == [j.pair] + rest;
          var i: nat :| PairStops(objects, ps, resolver, i);
          assert ps[0] == j.pair && i > 0;
          assert forall p | p in rest :: p in ps;
          assert PairStops(objects, rest, resolver, i - 1);
        }
        RunStops(objects, ApplyTree(objects, t, MergeOne(j.pair, resolver).value).value, j.left, j.right, resolver);
      }
    }
  }

  /** Every pair that can be merged gives a change to a stored blob. */
  ghost predicate AllBlobs(objects: Store, ps: seq<ChangePair>, resolver: Resolver)
    requires Mergeable(ps)
  {
    forall p | p in ps && MergeOne(p, resolver).Ok? ::
      MergeOne(p, resolver).value.Action().Ok? && BlobThere(objects, MergeOne(p, resolver).value)
  }

  /** A run is the replay of the merged list. */
  lemma {:induction false} RunIsReplay(objects: Store, t: Tree, left: seq<Change>, right: seq<Change>,
                                       resolver: Resolver)
    requires JoinAll(left, right).Ok? && Mergeable(JoinAll(left, right).value)
    requires AllBlobs(objects, JoinAll(left, right).value, resolver)
    ensures var cs := MergeAll(JoinAll(left, right).value, resolver);
      && (cs.Ok? ==> ActionsOk(cs.value))
      && RunAll(objects, t, left, right, resolver) == if cs.Err? then None else Replay(t, cs.value)
    decreases |left| + |right|
  {
    hide ChangeTree, MergeOne, BlobThere, JoinFirst, Replay;
    JoinStep([], left, right);
    if left == [] && right == [] {
      ReplayNothing(t);
    } else {
      var j := JoinFirst(left, right).value;
      JoinFirstOk(left, right);
      var ps, rest := JoinAll(left, right).value, JoinAll(j.left, j.right).value;
      assert ps == [j.pair] + rest && ps[1..] == rest && j.pair in ps;
      assert forall p | p in rest :: p in ps;
      if MergeOne(j.pair, resolver).Ok? {
        var c := MergeOne(j.pair, resolver).value;
        var u := ApplyTree(objects, t, c);
        RunIsReplay(objects, if u.Some? then u.value else t, j.left, j.right, resolver);
        if MergeAll(rest, resolver).Ok? {
          ReplayCons(t, c, MergeAll(rest, resolver).value);
        }
      }
    }
  }

  lemma ReplayNothing(t: Tree)
    ensures Replay(t, []) == Some(t) && ActionsOk([])
  {
  }

  // ------------------------------------------------------- merging files of trees

  /** The three sides, their differences and the pairs of the join. */
  ghost predicate Setting(a: Tree, s: Tree, t: Tree, left: seq<Change>, right: seq<Change>, ps: seq<ChangePair>,
                          resolver: Resolver) {
    && CanonicalRoot(a) && CanonicalRoot(s) && CanonicalRoot(t)
    && IsDiff(FilesOf(a), FilesOf(s), left) && IsDiff(FilesOf(a), FilesOf(t), right)
    && IsJoin(left, right, ps) && Mergeable(ps) && ResolverChooses(resolver)
  }

  lemma SettingHolds(a: Tree, s: Tree, t: Tree, left: seq<Change>, right: seq<Change>, resolver: Resolver)
    requires CanonicalRoot(a) && CanonicalRoot(s) && CanonicalRoot(t) && ResolverChooses(resolver)
    requires IsDiff(FilesOf(a), FilesOf(s), left) && IsDiff(FilesOf(a), FilesOf(t), right)
    ensures JoinAll(left, right).Ok? && Setting(a, s, t, left, right, JoinAll(left, right).value, resolver)
  {
    NeverMismatched(FilesOf(a), FilesOf(s), FilesOf(t), left, right);
    JoinIsExact(left, right);
    JoinIsMergeable(left, right, JoinAll(left, right).value);
  }

  /** With all pairs merged the list is the difference to the merged files. */
  lemma MergedList(a: Tree, s: Tree, t: Tree, left: seq<Change>, right: seq<Change>, ps: seq<ChangePair>,
                   resolver: Resolver)
    requires Setting(a, s, t, left, right, ps, resolver)
    ensures MergeAll(ps, resolver).Ok? <==> !Unresolved(FilesOf(a), FilesOf(s), FilesOf(t), resolver)
    ensures MergeAll(ps, resolver).Ok? ==>
              IsDiff(FilesOf(a), MergedFiles(FilesOf(a), FilesOf(s), FilesOf(t), resolver),
                     MergeAll(ps, resolver).value)
    ensures Proper(MergedFiles(FilesOf(a), FilesOf(s), FilesOf(t), resolver))
  {
    hide IsDiff, IsJoin, MergeAll;
    CanonicalIsProper(a);
    CanonicalIsProper(s);
    CanonicalIsProper(t);
    MergeFailsOnConflict(FilesOf(a), FilesOf(s), FilesOf(t), left, right, ps, resolver);
    if MergeAll(ps, resolver).Ok? {
      MergeIsDiff(FilesOf(a), FilesOf(s), FilesOf(t), left, right, ps, resolver);
    }
    MergedIsProper(FilesOf(a), FilesOf(s), FilesOf(t), resolver);
  }

  lemma MergedIsProper(a: Files, s: Files, t: Files, resolver: Resolver)
    requires Proper(a) && Proper(s) && Proper(t)
    ensures Proper(MergedFiles(a, s, t, resolver))
  {
    forall p | MergedFiles(a, s, t, resolver)(p).Some? ensures FilePath(p) {
      assert a(p).Some? || s(p).Some? || t(p).Some?;
    }
  }

  lemma SettingCanonical(a: Tree, s: Tree, t: Tree, left: seq<Change>, right: seq<Change>, ps: seq<ChangePair>,
                         resolver: Resolver)
    requires Setting(a, s, t, left, right, ps, resolver)
    ensures CanonicalRoot(a) && CanonicalRoot(s) && CanonicalRoot(t) && Mergeable(ps)
  {
  }

  /** The change made from a pair sets a file to a blob of one of the two sides. */
  lemma PairChangeOk(h: Hasher, objects: Store, a: Tree, s: Tree, t: Tree, left: seq<Change>, right: seq<Change>,
                     ps: seq<ChangePair>, resolver: Resolver, pair: ChangePair)
    requires Setting(a, s, t, left, right, ps, resolver) && pair in ps && MergeOne(pair, resolver).Ok?
    requires StoredRoot(h, objects, s) && StoredRoot(h, objects, t)
    ensures MergeOne(pair, resolver).value.Action().Ok? && BlobThere(objects, MergeOne(pair, resolver).value)
  {
    hide IsDiff, IsJoin, Canonical, MergedFile, MergedFiles, MergeOne, Lookup, Stored, StoredRoot, PairOf;
    var f, g := FilesOf(a), MergedFiles(FilesOf(a), FilesOf(s), FilesOf(t), resolver);
    PairHere(left, right, ps, pair);
    PairMerges(f, FilesOf(s), FilesOf(t), left, right, pair, resolver);
    var p := PairAt(pair);
    ChangeForAt(f, g, p);
    MergedIsASide(f, FilesOf(s), FilesOf(t), resolver, p);
    FileBlobStored(h, objects, s, p);
    FileBlobStored(h, objects, t, p);
  }

  lemma PairHere(left: seq<Change>, right: seq<Change>, ps: seq<ChangePair>, pair: ChangePair)
    requires IsJoin(left, right, ps) && pair in ps
    ensures PairOf(left, right, pair)
  {
  }

  lemma MergedIsASide(a: Files, s: Files, t: Files, resolver: Resolver, p: Path)
    requires ResolverChooses(resolver) && MergedFiles(a, s, t, resolver)(p) != a(p)
    ensures MergedFiles(a, s, t, resolver)(p) == s(p) || MergedFiles(a, s, t, resolver)(p) == t(p)
  {
    OneSidedMerge(a, s, t, resolver, p);
  }

  lemma FileBlobStored(h: Hasher, objects: Store, t: Tree, p: Path)
    requires StoredRoot(h, objects, t)
    ensures FilesOf(t)(p).Some? ==> FilesOf(t)(p).value in objects && objects[FilesOf(t)(p).value].Blob?
  {
    LookupIsNode(t, p);
    if Lookup(t, p).Some? {
      NodeStoredBelowRoot(h, objects, t, p);
    }
  }

  /** The merge of the files of two sides gets through exactly when it can be carried out,
      and it ends in the merged tree. */
  lemma RunMergesFiles(h: Hasher, objects: Store, a: Tree, s: Tree, t: Tree, left: seq<Change>, right: seq<Change>,
                       resolver: Resolver)
    requires CanonicalRoot(a) && CanonicalRoot(s) && CanonicalRoot(t) && ResolverChooses(resolver)
    requires StoredRoot(h, objects, s) && StoredRoot(h, objects, t)
    requires IsDiff(FilesOf(a), FilesOf(s), left) && IsDiff(FilesOf(a), FilesOf(t), right)
    ensures RunAll(objects, a, left, right, resolver).Some? <==> CanMerge(a, s, t, resolver)
    ensures RunAll(objects, a, left, right, resolver).Some? ==>
              IsMerge(a, s, t, resolver, RunAll(objects, a, left, right, resolver).value)
  {
    hide IsDiff, JoinAll, Setting, CanonicalRoot, StoredRoot, RunAll, MergeOne, MergeAll, BlobThere, Replay,
      Completable, MergedFile, Unresolved;
    SettingHolds(a, s, t, left, right, resolver);
    var ps := JoinAll(left, right).value;
    SettingCanonical(a, s, t, left, right, ps, resolver);
    forall p | p in ps && MergeOne(p, resolver).Ok?
      ensures MergeOne(p, resolver).value.Action().Ok? && BlobThere(objects, MergeOne(p, resolver).value)
    {
      PairChangeOk(h, objects, a, s, t, left, right, ps, resolver, p);
    }
    RunIsReplay(objects, a, left, right, resolver);
    MergedList(a, s, t, left, right, ps, resolver);
    if MergeAll(ps, resolver).Ok? {
      var g, cs := MergedFiles(FilesOf(a), FilesOf(s), FilesOf(t), resolver), MergeAll(ps, resolver).value;
      ReplayIffCompletable(a, g, cs);
      if Replay(a, cs).Some? {
        ReplayReaches(a, g, cs);
        AllMerged(a, s, t, resolver, Replay(a, cs).value);
      }
    }
  }

  lemma AllMerged(a: Tree, s: Tree, t: Tree, resolver: Resolver, m: Tree)
    requires !Unresolved(FilesOf(a), FilesOf(s), FilesOf(t), resolver) && CanonicalRoot(m)
    requires forall p :: Lookup(m, p) == MergedFiles(FilesOf(a), FilesOf(s), FilesOf(t), resolver)(p)
    ensures IsMerge(a, s, t, resolver, m)
  {
    hide MergedFile, Lookup;
    forall p ensures MergedFile(FilesOf(a), FilesOf(s), FilesOf(t), resolver, p) == Ok(Lookup(m, p)) {
      assert MergedFile(FilesOf(a), FilesOf(s), FilesOf(t), resolver, p).Ok?;
    }
  }

  // ------------------------------------------------------ relabelled directories

  /** What the two sides report at a path where the first has relabelled a directory: on the
      other side nothing, another change of that directory, or a new file in its place. */
  lemma AtRelabelled(h: Hasher, objects: Store, a: Tree, s: Tree, right: seq<Change>, r: Change)
    requires StoredRoot(h, objects, a) && StoredRoot(h, objects, s) && IsTrieDiff(h, a, s, "", right) && r in right
    requires Node(a, r.At()).Some? && Node(a, r.At()).value.Dir?
    ensures r.to.Some?
    ensures r.from.Some? ==>
              Node(s, r.At()).Some? && Node(s, r.At()).value.Dir? && r.to.value.hash == HashOf(h, Node(s, r.At()).value)
  {
    hide KidHashes, StoredRoot, IsTrieDiff, HashOf, Visible;
    FileOrDirectory(h, objects, a, s, "", right, r);
    LookupIsNode(a, r.At());
  }

  lemma DirectoryIsNoBlob(h: Hasher, objects: Store, t: Tree, p: Path, c: Change)
    requires StoredRoot(h, objects, t) && p != [] && Node(t, p).Some? && Node(t, p).value.Dir?
    requires c.to.Some? && c.to.value.hash == HashOf(h, Node(t, p).value)
    ensures !BlobThere(objects, c)
  {
    NodeStoredBelowRoot(h, objects, t, p);
  }

  /** Of two changes that name no blob unless they insert, one not an insertion, the pair is
      mismatched or its merged change names no blob. */
  lemma NoBlobToMerge(objects: Store, pair: ChangePair, resolver: Resolver)
    requires ResolverChooses(resolver) && (pair.isConflict ==> pair.left.Some? && pair.right.Some?)
    requires pair.left.Some? && pair.right.Some? ==>
               IsConflict(pair.left.value, pair.right.value) == Ok(pair.isConflict)
    requires pair.left.Some? ==>
               pair.left.value.to.Some? && (pair.left.value.from.Some? ==> !BlobThere(objects, pair.left.value))
    requires pair.right.Some? ==>
               pair.right.value.to.Some? && (pair.right.value.from.Some? ==> !BlobThere(objects, pair.right.value))
    requires (pair.left.Some? && pair.left.value.from.Some?) || (pair.right.Some? && pair.right.value.from.Some?)
    ensures MergeOne(pair, resolver).Err? || !BlobThere(objects, MergeOne(pair, resolver).value)
  {
    hide BlobThere;
  }

  /** A pair with the change of a relabelled directory on its left is refused, or its merged
      change names no blob; and so on its right. */
  lemma RelabelledPairStops(h: Hasher, objects: Store, a: Tree, s: Tree, t: Tree, left: seq<Change>, right: seq<Change>,
                            ps: seq<ChangePair>, resolver: Resolver, p: Path, i: nat)
    requires StoredRoot(h, objects, a) && StoredRoot(h, objects, s) && StoredRoot(h, objects, t)
    requires ResolverChooses(resolver) && Mergeable(ps)
    requires IsTrieDiff(h, a, s, "", left) && IsTrieDiff(h, a, t, "", right) && IsJoin(left, right, ps)
    requires FilePath(p) && Node(a, p).Some? && Node(a, p).value.Dir? && i < |ps| && ps[i].Key() == JoinPath(p)
    requires (ps[i].left.Some? && ps[i].left.value.from.Some?) || (ps[i].right.Some? && ps[i].right.value.from.Some?)
    ensures PairStops(objects, ps, resolver, i)
  {
    hide StoredRoot, HashOf, BlobThere, JoinPath, Relabelled, IsTrieDiff, MergeOne, ResolverChooses, IsConflict,
      FilePath, Node;
    var pair := ps[i];
    PairHere(left, right, ps, pair);
    if pair.left.Some? {
      SideAtPath(h, objects, a, s, left, pair.left.value, p);
    }
    if pair.right.Some? {
      SideAtPath(h, objects, a, t, right, pair.right.value, p);
    }
    NoBlobToMerge(objects, pair, resolver);
  }

  lemma SideAtPath(h: Hasher, objects: Store, a: Tree, s: Tree, d: seq<Change>, c: Change, p: Path)
    requires StoredRoot(h, objects, a) && StoredRoot(h, objects, s) && IsTrieDiff(h, a, s, "", d) && c in d
    requires FilePath(p) && c.Key() == JoinPath(p) && Node(a, p).Some? && Node(a, p).value.Dir?
    ensures c.to.Some? && (c.from.Some? ==> !BlobThere(objects, c))
  {
    hide StoredRoot, HashOf, BlobThere, JoinPath, IsTrieDiff, Node;
    ChangeAtPath(h, a, s, d, c, p);
    AtRelabelled(h, objects, a, s, d, c);
    if c.from.Some? {
      DirectoryIsNoBlob(h, objects, s, p, c);
    }
  }

  lemma ChangeAtPath(h: Hasher, x: Tree, y: Tree, d: seq<Change>, c: Change, p: Path)
    requires IsTrieDiff(h, x, y, "", d) && c in d && c.Key() == JoinPath(p) && FilePath(p)
    ensures c.At() == p
  {
    hide TrieChange;
    assert IsTrieChange(h, x, y, c);
    JoinInjective(c.At(), p);
  }

  /** With a directory relabelled on one of the sides the run ends in an error. */
  lemma RelabelledStops(h: Hasher, objects: Store, a: Tree, s: Tree, t: Tree, left: seq<Change>, right: seq<Change>,
                        resolver: Resolver)
    requires StoredRoot(h, objects, a) && StoredRoot(h, objects, s) && StoredRoot(h, objects, t)
    requires CanonicalRoot(a) && ResolverChooses(resolver)
    requires IsTrieDiff(h, a, s, "", left) && IsTrieDiff(h, a, t, "", right) && !TreesAlign(h, a, s, t)
    ensures RunAll(objects, a, left, right, resolver).None?
  {
    hide StoredRoot, CanonicalRoot, NoneRelabelled, SortedChanges, JoinAll, RunAll, IsJoin, Mergeable, PairStops,
      DirectoryHere, IsTrieChange;
    if JoinAll(left, right).Ok? {
      var ps := JoinAll(left, right).value;
      JoinIsExact(left, right);
      JoinIsMergeable(left, right, ps);
      ReportsIffRelabelled(h, a, s);
      ReportsIffRelabelled(h, a, t);
      if !NoneRelabelled(h, a, s) {
        var p :| p != [] && DirectoryHere(h, a, s, "", p);
        var c := DirectoryInList(h, objects, a, s, left, p);
        var i := PairAtKey(left, right, ps, c, c.Key(), true);
        RelabelledPairStops(h, objects, a, s, t, left, right, ps, resolver, p, i);
      } else {
        var p :| p != [] && DirectoryHere(h, a, t, "", p);
        var c := DirectoryInList(h, objects, a, t, right, p);
        var i := PairAtKey(left, right, ps, c, c.Key(), false);
        RelabelledPairStops(h, objects, a, s, t, left, right, ps, resolver, p, i);
      }
    }
    RunStops(objects, a, left, right, resolver);
  }

  lemma DirectoryInList(h: Hasher, objects: Store, x: Tree, y: Tree, d: seq<Change>, p: Path) returns (c: Change)
    requires CanonicalRoot(x) && StoredRoot(h, objects, x) && StoredRoot(h, objects, y)
    requires IsTrieDiff(h, x, y, "", d) && p != [] && DirectoryHere(h, x, y, "", p)
    ensures FilePath(p) && Node(x, p).Some? && Node(x, p).value.Dir?
    ensures c in d && c.Key() == JoinPath(p) && c.from.Some?
  {
    hide IsTrieDiff, Visible, StoredRoot, CanonicalRoot;
    DirectoryReported(h, objects, x, y, "", d, p);
    NodeFilePath(x, p);
    c := DirectoryChange(h, Node(x, p).value, Node(y, p).value, p);
  }

  /** The pair of a change of one of two sorted lists. */
  lemma PairAtKey(left: seq<Change>, right: seq<Change>, ps: seq<ChangePair>, c: Change, k: string, onLeft: bool)
    returns (i: nat)
    requires SortedChanges(left) && SortedChanges(right) && IsJoin(left, right, ps)
    requires c in (if onLeft then left else right) && c.Key() == k
    ensures i < |ps| && ps[i].Key() == k && (if onLeft then ps[i].left == Some(c) else ps[i].right == Some(c))
  {
    var cs := if onLeft then left else right;
    FindIn(cs, c);
    assert k in PairKeys(ps);
    i :| i < |ps| && PairKeys(ps)[i] == k;
    assert PairOf(left, right, ps[i]);
  }

  lemma FindIn(cs: seq<Change>, c: Change)
    requires SortedChanges(cs) && c in cs
    ensures Find(cs, c.Key()) == Some(c) && c.Key() in Keys(cs)
  {
    var f := Find(cs, c.Key());
    var i :| 0 <= i < |cs| && cs[i] == c;
    assert Keys(cs)[i] == c.Key();
    var j :| 0 <= j < |cs| && cs[j] == f.value;
    StrictlySortedDistinct(Keys(cs), i, j);
  }

  // ------------------------------------------------------------------- the merge

  lemma OpensPersists(h: Hasher, before: Store, after: Store, node: WorkNode, t: Tree)
    requires Grows(before, after) && Opens(h, before, node, t)
    ensures Opens(h, after, node, t)
  {
    if t.kids != map[] {
      StoredPersists(h, before, after, t);
    }
  }

  /** The difference of two stored trees names stored rows. */
  lemma DiffApplicable(h: Hasher, objects: Store, x: Tree, y: Tree, d: seq<Change>)
    requires StoredRoot(h, objects, x) && StoredRoot(h, objects, y) && IsTrieDiff(h, x, y, "", d)
    ensures Applicable(objects, d)
  {
    hide StoredRoot, IsTrieDiff, ChangeOk;
    forall c | c in d ensures ChangeOk(c) && (c.to.Some? ==> c.to.value.hash in objects) {
      ChangeApplicable(h, objects, x, y, d, c);
    }
  }

  lemma ChangeApplicable(h: Hasher, objects: Store, x: Tree, y: Tree, d: seq<Change>, c: Change)
    requires StoredRoot(h, objects, x) && StoredRoot(h, objects, y) && IsTrieDiff(h, x, y, "", d) && c in d
    ensures ChangeOk(c) && (c.to.Some? ==> c.to.value.hash in objects)
  {
    hide StoredRoot, HashOf, KidHashes, Visible, Stored, TrieChange, Seen;
    FileOrDirectory(h, objects, x, y, "", d, c);
    assert IsTrieChange(h, x, y, c);
    if Node(y, c.At()).Some? {
      NodeIsStored(h, objects, y, c.At());
    }
    FileBlobStored(h, objects, x, c.At());
    FileBlobStored(h, objects, y, c.At());
  }

  lemma NodeIsStored(h: Hasher, objects: Store, t: Tree, p: Path)
    requires StoredRoot(h, objects, t) && p != [] && Node(t, p).Some?
    ensures HashOf(h, Node(t, p).value) in objects
  {
    NodeStoredBelowRoot(h, objects, t, p);
  }

  /** Both cases of a merge together. */
  lemma RunMergesTrees(h: Hasher, objects: Store, a: Tree, s: Tree, t: Tree, left: seq<Change>, right: seq<Change>,
                       resolver: Resolver)
    requires CanonicalRoot(a) && CanonicalRoot(s) && CanonicalRoot(t) && ResolverChooses(resolver)
    requires StoredRoot(h, objects, a) && StoredRoot(h, objects, s) && StoredRoot(h, objects, t)
    requires IsTrieDiff(h, a, s, "", left) && IsTrieDiff(h, a, t, "", right)
    ensures Applicable(objects, left) && Applicable(objects, right)
    ensures RunAll(objects, a, left, right, resolver).Some? <==> TreesAlign(h, a, s, t) && CanMerge(a, s, t, resolver)
    ensures RunAll(objects, a, left, right, resolver).Some? ==>
              IsMerge(a, s, t, resolver, RunAll(objects, a, left, right, resolver).value)
  {
    hide StoredRoot, CanonicalRoot, NoneRelabelled, IsTrieDiff, IsDiff, RunAll, CanMerge, IsMerge, Applicable;
    DiffApplicable(h, objects, a, s, left);
    DiffApplicable(h, objects, a, t, right);
    DiffIffNoneRelabelled(h, objects, a, s, left);
    DiffIffNoneRelabelled(h, objects, a, t, right);
    if TreesAlign(h, a, s, t) {
      RunMergesFiles(h, objects, a, s, t, left, right, resolver);
    } else {
      RelabelledStops(h, objects, a, s, t, left, right, resolver);
    }
  }

  /** The merge of three stored trees. While no side has relabelled a directory of the
      ancestor, it gets through exactly when it can be carried out, and the root hash it
      returns stands for the merged files. With a relabelled directory the merge stops: in an
      error of the source, or with DirectoryAsBlob where the source goes on. */
  method MergeTrees(repo: FileTreeRepo, ancestorHash: Hash, sourceHash: Hash, targetHash: Hash, resolver: Resolver,
                    ghost a: Tree, ghost s: Tree, ghost t: Tree)
    returns (r: Result<Hash>, ghost m: Tree)
    requires repo.Valid() && ResolverChooses(resolver)
    requires Represents(repo.hasher, repo.objects, ancestorHash, a)
    requires Represents(repo.hasher, repo.objects, sourceHash, s)
    requires Represents(repo.hasher, repo.objects, targetHash, t)
    modifies repo
    ensures repo.Valid() && Grows(old(repo.objects), repo.objects)
    ensures r.Ok? <==> TreesAlign(repo.hasher, a, s, t) && CanMerge(a, s, t, resolver)
    ensures r.Ok? ==> IsMerge(a, s, t, resolver, m) && Represents(repo.hasher, repo.objects, r.value, m)
  {
    hide TreesAlign, CanMerge, IsMerge, IsTrieDiff, Stored, CanonicalRoot, Grows, StoreOk, CollisionFree, RunAll,
      Applicable;
    var ancestorWorkTree := new WorkTree(repo, ancestorHash, a);
    var sourceTree := new WorkTree(repo, sourceHash, s);
    var targetTree := new WorkTree(repo, targetHash, t);
    var sourceDiff := Diff(repo, ancestorWorkTree.root, sourceTree.root, "", a, s);
    var targetDiff := Diff(repo, ancestorWorkTree.root, targetTree.root, "", a, t);
    var baseWorkTree := new WorkTree(repo, ancestorHash, a);
    RunMergesTrees(repo.hasher, repo.objects, a, s, t, sourceDiff, targetDiff, resolver);
    var cmw := new ChangesMergeIter(sourceDiff, targetDiff, resolver);
    var merged := RunMerge(cmw, baseWorkTree);
    m := baseWorkTree.tree;
    if merged.Err? {
      return Err(merged.error), m;
    }
    baseWorkTree.RootRepresents();
    return Ok(baseWorkTree.RootHash()), m;
  }

  lemma CompletableExtensional(f: Files, g: Files, g': Files)
    requires Agree(g, g') && Completable(f, g)
    ensures Completable(f, g')
  {
    forall p, q | g'(p).Some? && p < q ensures f(q).None? && g'(q).None? {
      assert g(p).Some?;
      assert g(q) == g'(q);
    }
  }

  /** What a merged tree has at each path, in terms of the three trees: the side that
      changed the file, the common value, and in a conflict one of the two sides; nothing
      appears that neither side has. */
  lemma MergedSides(a: Tree, s: Tree, t: Tree, resolver: Resolver, m: Tree, p: Path)
    requires IsMerge(a, s, t, resolver, m) && ResolverChooses(resolver)
    ensures Lookup(s, p) == Lookup(a, p) ==> Lookup(m, p) == Lookup(t, p)
    ensures Lookup(t, p) == Lookup(a, p) ==> Lookup(m, p) == Lookup(s, p)
    ensures Lookup(s, p) == Lookup(t, p) ==> Lookup(m, p) == Lookup(s, p)
    ensures Lookup(m, p) == Lookup(s, p) || Lookup(m, p) == Lookup(t, p)
  {
    hide Lookup, CanonicalRoot;
    OneSidedMerge(FilesOf(a), FilesOf(s), FilesOf(t), resolver, p);
    assert MergedFile(FilesOf(a), FilesOf(s), FilesOf(t), resolver, p) == Ok(Lookup(m, p));
  }

  /** A file that neither side touched survives every merge, and merging a side that
      changed nothing gives the other side. */
  lemma MergeKeepsUntouched(a: Tree, s: Tree, t: Tree, resolver: Resolver, m: Tree)
    requires IsMerge(a, s, t, resolver, m) && ResolverChooses(resolver) && CanonicalRoot(s) && CanonicalRoot(t)
    ensures forall p | Lookup(s, p) == Lookup(a, p) && Lookup(t, p) == Lookup(a, p) :: Lookup(m, p) == Lookup(a, p)
    ensures s == a ==> m == t
    ensures t == a ==> m == s
  {
    hide Lookup, CanonicalRoot, IsMerge;
    forall p
      ensures Lookup(s, p) == Lookup(a, p) ==> Lookup(m, p) == Lookup(t, p)
      ensures Lookup(t, p) == Lookup(a, p) ==> Lookup(m, p) == Lookup(s, p)
    {
      MergedSides(a, s, t, resolver, m, p);
    }
    MergeCanonical(a, s, t, resolver, m);
    if s == a {
      FilesDetermineTree(m, t);
    }
    if t == a {
      FilesDetermineTree(m, s);
    }
  }

  lemma MergeCanonical(a: Tree, s: Tree, t: Tree, resolver: Resolver, m: Tree)
    requires IsMerge(a, s, t, resolver, m)
    ensures CanonicalRoot(m)
  {
  }

  /** Merging with the sides swapped and a mirrored resolver succeeds or fails alike, and
      gives the same tree, so the same root hash. */
  lemma SwappedMerge(a: Tree, s: Tree, t: Tree, f: Resolver, g: Resolver)
    requires ResolverMirrors(f, g)
    ensures CanMerge(a, s, t, f) <==> CanMerge(a, t, s, g)
    ensures forall m, m' | IsMerge(a, s, t, f, m) && IsMerge(a, t, s, g, m') :: m == m'
  {
    hide Completable, MergedFile, Lookup, CanonicalRoot;
    var fa, fs, ft := FilesOf(a), FilesOf(s), FilesOf(t);
    forall p ensures MergedFile(fa, fs, ft, f, p) == MergedFile(fa, ft, fs, g, p) {
      MergeIsSymmetric(fa, fs, ft, f, g, p);
    }
    var m1, m2 := MergedFiles(fa, fs, ft, f), MergedFiles(fa, ft, fs, g);
    assert Agree(m1, m2) && Agree(m2, m1);
    if Completable(fa, m1) {
      CompletableExtensional(fa, m1, m2);
    }
    if Completable(fa, m2) {
      CompletableExtensional(fa, m2, m1);
    }
    forall m, m' | IsMerge(a, s, t, f, m) && IsMerge(a, t, s, g, m') ensures m == m' {
      forall p ensures Lookup(m, p) == Lookup(m', p) {
        assert MergedFile(fa, fs, ft, f, p) == Ok(Lookup(m, p));
        assert MergedFile(fa, ft, fs, g, p) == Ok(Lookup(m', p));
      }
      FilesDetermineTree(m, m');
    }
  }
}
