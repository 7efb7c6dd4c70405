/** Several requests in one session: what edits, commits and reverts in a row amount to. */
module SessionLaws {
  import opened Wrappers
  import opened Hashes
  import opened CommitGraph
  import opened CommitStore
  import opened CommitMerge
  import opened ThreeWay
  import opened WorkTrees
  import opened WorkTreeRuns
  import opened Tables
  import opened SessionSpec
  import opened SessionRows
  import opened Sessions
  import opened Requests
  import opened SessionRuns
  import Objects

  lemma OnWipFacts(s: State, c: Cache)
    requires OnWipTree(s, c)
    ensures c.wip.Some? && c.branch.Some? && c.state.InWip? && Current(s, c)
    ensures c.wip.value.id in s.wips && s.wips[c.wip.value.id] == c.wip.value
    ensures c.branch.value.id in s.branches && s.branches[c.branch.value.id] == c.branch.value
    ensures c.headTree == FollowsWip || c.headTree == Fixed(c.wip.value.currentTree)
  {
  }

  /** A revert of everything right after a wip was made changes nothing. */
  method RevertNewWip(session: WorkRepository) returns (w: Wip)
    requires session.Valid() && session.state.InBranch? && session.branch.Some?
    requires Current(session.repo.Now(), session.Cached())
    requires !HasWip(session.repo.Now(), session.operator.id, session.branch.value.id)
    modifies session, session.repo, session.repo.commits, session.repo.trees
    ensures session.Valid()
    ensures RowOpened(old(session.repo.Now()), session.repo.Now(), old(session.branch.value.id), session.operator)
    ensures w.id == old(session.repo.nextId) && w.id in session.repo.wips && session.repo.wips[w.id] == w
    ensures session.Cached() == Cache(InWip, FollowsWip, Some(w), old(session.branch), None)
  {
    hide RowsOk, Sound, CacheOk, Step, HasWip, RowReverted, RevertedTo, MayRevert;
    ghost var s, cache := session.repo.Now(), session.Cached();
    HeadStored(session.repo.trees.hasher, s, cache);
    var made := session.GetOrCreateWip();
    w := made.value.0;
    ghost var between := session.repo.Now();
    var back := session.Revert("");
    assert back.Ok?;
    SameTreeSet(between, session.repo.Now(), w);
  }

  lemma HeadStored(h: Objects.Hasher, s: State, c: Cache)
    requires CacheOk(h, s, c) && c.branch.Some?
    ensures HeadOk(s.commits, c.branch.value.commitHash)
  {
  }

  /** A tree column that is written with what it holds. */
  lemma SameTreeSet(s: State, s': State, w: Wip)
    requires w.id in s.wips && s.wips[w.id] == w && s'.objects == s.objects && TreeSet(s, s', w.id, w.currentTree)
    ensures s' == s
  {
    assert s.wips[w.id := w] == s.wips;
  }

  /** After a commit, a revert of everything brings back the tree of the commit, whatever was
      edited since. */
  method CommitEditRevert(session: WorkRepository, msg: string, es: seq<Edit>)
    returns (r: Result<Commit>, edited: Result<()>, back: Result<()>)
    requires session.Valid() && EditsOk(session.repo.trees.hasher, es)
    requires OnWipTree(session.repo.Now(), session.Cached())
    modifies session, session.repo, session.repo.commits, session.repo.trees
    ensures session.Valid()
    ensures r.Ok? ==>
      && back.Ok? && old(session.wip.value.id) in session.repo.wips
      && session.repo.wips[old(session.wip.value.id)] ==
         old(session.repo.wips[session.wip.value.id]).(currentTree := r.value.treeHash, baseCommit := r.value.hash)
      && r.value.treeHash == old(session.repo.wips[session.wip.value.id].currentTree)
  {
    hide RowsOk, Sound, CacheOk, Step, RevertedTo, MayRevert, Settled, EditsOk, MayEdit, EditedTo, RowTakes, RowGives,
      OnWipTree, Current, Readable, SignedBy, CommitTaken, TreeSet, Objects.Grows;
    edited, back := Err(NotFound), Err(NotFound);
    OnWipFacts(session.repo.Now(), session.Cached());
    ghost var id, row := session.wip.value.id, session.wip.value;
    r := session.CommitChanges(msg);
    if r.Err? {
      return;
    }
    OnWipFacts(session.repo.Now(), session.Cached());
    assert session.repo.wips[id] == row.(baseCommit := r.value.hash) && row.currentTree == r.value.treeHash;
    edited := session.ChangeInWip(es);
    OnWipFacts(session.repo.Now(), session.Cached());
    assert session.repo.wips[id] == row.(baseCommit := r.value.hash, currentTree := session.repo.wips[id].currentTree);
    back := session.Revert("");
  }

  /** Two calls of ChangeInWip amount to one with both lists of edits. */
  method EditTwice(session: WorkRepository, es: seq<Edit>, more: seq<Edit>) returns (r: Result<()>)
    requires session.Valid() && EditsOk(session.repo.trees.hasher, es) && EditsOk(session.repo.trees.hasher, more)
    requires OnWipTree(session.repo.Now(), session.Cached())
    modifies session, session.repo, session.repo.commits, session.repo.trees
    ensures session.Valid() && OnWipTree(session.repo.Now(), session.Cached())
    ensures r.Ok? <==>
              RowTakes(session.repo.trees.hasher, old(session.repo.Now()), old(session.wip.value.id), es + more)
    ensures r.Ok? ==>
      RowEdited(session.repo.trees.hasher, old(session.repo.Now()), session.repo.Now(), old(session.wip.value.id),
                es + more)
  {
    hide RowsOk, CommitRepo.Valid, Objects.FileTreeRepo.Valid, CacheOk, Step, EditsOk, MayEdit, EditedTo, RowTakes,
      RowGives, OnWipTree, Current, Readable,
      TreeSet, RowEdited, Sound;
    OnWipFacts(session.repo.Now(), session.Cached());
    ghost var s, h, w := session.repo.Now(), session.repo.trees.hasher, session.wip.value.id;
    SoundFacts(session.repo.commits, session.repo.trees);
    ArePaths(h, es, more);
    TakesBoth(h, s, s, w, es, more);
    r := session.ChangeInWip(es);
    if r.Err? {
      return;
    }
    OnWipFacts(session.repo.Now(), session.Cached());
    ghost var between := session.repo.Now();
    TakesBoth(h, s, between, w, es, more);
    r := session.ChangeInWip(more);
    if r.Ok? {
      EditedBoth(h, s, between, session.repo.Now(), w, es, more);
    }
  }

  lemma SoundFacts(commits: CommitRepo, trees: Objects.FileTreeRepo)
    requires Sound(commits, trees)
    ensures Objects.CollisionFree(trees.hasher)
  {
  }

  lemma ArePaths(h: Objects.Hasher, es: seq<Edit>, more: seq<Edit>)
    requires EditsOk(h, es) && EditsOk(h, more)
    ensures SplitPaths(es) && SplitPaths(more) && SplitPaths(es + more)
  {
  }

  /** The first part is taken if the whole is; after it, the second is taken exactly when the
      whole is. */
  lemma TakesBoth(h: Objects.Hasher, s: State, s1: State, w: Id, es: seq<Edit>, more: seq<Edit>)
    requires SplitPaths(es) && SplitPaths(more)
    ensures RowTakes(h, s, w, es + more) ==> RowTakes(h, s, w, es)
    ensures RowEdited(h, s, s1, w, es) ==> (RowTakes(h, s1, w, more) <==> RowTakes(h, s, w, es + more))
  {
    hide Readable, RunTree, OnlyTreeSet;
    if w in s.wips && Readable(h, s.objects, s.wips[w].currentTree) {
      RunTreeConcat(TreeAt(h, s.objects, s.wips[w].currentTree), es, more);
    }
    if RowEdited(h, s, s1, w, es) {
      assert w in s1.wips by { SetStays(s, s1, w); }
    }
  }

  lemma SetStays(s: State, s': State, w: Id)
    requires OnlyTreeSet(s, s', w)
    ensures w in s.wips && w in s'.wips
  {
  }

  lemma EditedBoth(h: Objects.Hasher, s: State, s1: State, s2: State, w: Id, es: seq<Edit>, more: seq<Edit>)
    requires Objects.CollisionFree(h) && RowEdited(h, s, s1, w, es) && RowEdited(h, s1, s2, w, more)
    ensures RowEdited(h, s, s2, w, es + more)
  {
    hide RowGives, OnlyTreeSet, Objects.CollisionFree;
    SetStays(s, s1, w);
    SetStays(s1, s2, w);
    GivesMore(h, s, s1, w, es, more, s2.objects, s2.wips[w].currentTree);
    SetTwice(s, s1, s2, w);
  }

  lemma SetTwice(s: State, s1: State, s2: State, w: Id)
    requires OnlyTreeSet(s, s1, w) && OnlyTreeSet(s1, s2, w)
    ensures OnlyTreeSet(s, s2, w)
  {
    GrowsTransitive(s.objects, s1.objects, s2.objects);
  }

  /** Edits, and then more edits with a commit: the commit has the tree after all of them. */
  method EditThenCommit(session: WorkRepository, es: seq<Edit>, msg: string, more: seq<Edit>)
    returns (edited: Result<()>, r: Result<Commit>)
    requires session.Valid() && EditsOk(session.repo.trees.hasher, es) && EditsOk(session.repo.trees.hasher, more)
    requires OnWipTree(session.repo.Now(), session.Cached())
    modifies session, session.repo, session.repo.commits, session.repo.trees
    ensures session.Valid()
    ensures edited.Ok? && r.Ok? ==>
      && RowGives(session.repo.trees.hasher, old(session.repo.Now()), old(session.wip.value.id), es + more,
                  session.repo.trees.objects, r.value.treeHash)
      && old(session.branch.value.id) in session.repo.branches
      && session.repo.branches[old(session.branch.value.id)].commitHash == r.value.hash
      && r.value.hash in session.repo.commits.commits && session.repo.commits.commits[r.value.hash] == r.value
  {
    hide RowsOk, CacheOk, Step, EditsOk, MayEdit, EditedTo, RowTakes, RowGives, OnWipTree, Current, Readable, TreeSet,
      Sound, RowCommitRefused, SignedBy, Settled, Objects.Grows;
    r := Err(NotFound);
    OnWipFacts(session.repo.Now(), session.Cached());
    ghost var s, h, w := session.repo.Now(), session.repo.trees.hasher, session.wip.value.id;
    SoundFacts(session.repo.commits, session.repo.trees);
    edited := session.ChangeInWip(es);
    if edited.Err? {
      return;
    }
    OnWipFacts(session.repo.Now(), session.Cached());
    ghost var between := session.repo.Now();
    r := session.ChangeAndCommit(msg, more);
    if r.Ok? {
      GivesMore(h, s, between, w, es, more, session.repo.trees.objects, r.value.treeHash);
    }
  }

  /** Edits after a revert. Revert does not set headTree. If it follows the wip, as after an
      edit or a commit in the session, the edits start from the reverted tree; right after a
      checkout it does not, and they start from the tree before the revert, which is lost. */
  method EditAfterRevert(session: WorkRepository, prefix: string, es: seq<Edit>)
    returns (back: Result<()>, r: Result<()>, ghost between: State)
    requires session.Valid() && EditsOk(session.repo.trees.hasher, es)
    requires OnWipTree(session.repo.Now(), session.Cached())
    modifies session, session.repo, session.repo.commits, session.repo.trees
    ensures session.Valid()
    ensures back.Ok? ==>
              RowReverted(session.repo.trees.hasher, old(session.repo.Now()), between, old(session.wip.value.id),
                          prefix)
    ensures back.Ok? && old(session.headTree).Fixed? ==>
      && (r.Ok? <==> RowTakes(session.repo.trees.hasher, old(session.repo.Now()), old(session.wip.value.id), es))
      && (r.Ok? ==>
            RowEdited(session.repo.trees.hasher, old(session.repo.Now()), session.repo.Now(),
                      old(session.wip.value.id), es))
    ensures back.Ok? && old(session.headTree).FollowsWip? ==>
      && (r.Ok? <==> RowTakes(session.repo.trees.hasher, between, old(session.wip.value.id), es))
      && (r.Ok? ==>
            RowEdited(session.repo.trees.hasher, between, session.repo.Now(), old(session.wip.value.id), es))
  {
    hide RowsOk, CacheOk, Step, EditsOk, MayEdit, EditedTo, RowTakes, RowGives, RowEdited, OnWipTree, Current,
      Readable, Objects.Grows, Sound, RevertedTo, MayRevert, RowReverted, RowReverts;
    r := Err(NotFound);
    OnWipFacts(session.repo.Now(), session.Cached());
    ghost var s, h, cache := session.repo.Now(), session.repo.trees.hasher, session.Cached();
    SoundFacts(session.repo.commits, session.repo.trees);
    back := session.Revert(prefix);
    between := session.repo.Now();
    if back.Err? {
      return;
    }
    ghost var reverted := session.Cached();
    if cache.headTree.FollowsWip? {
      FollowsOnWip(between, reverted);
    } else {
      PointsBack(h, s, between, cache, reverted, es);
    }
    r := session.ChangeInWip(es);
    if r.Ok? && cache.headTree.Fixed? {
      EditedBack(h, s, between, session.repo.Now(), cache, reverted, es, session.wip.value.currentTree);
    }
  }

  /** headTree still points to the tree before the revert. */
  lemma PointsBack(h: Objects.Hasher, s: State, s1: State, c: Cache, c1: Cache, es: seq<Edit>)
    requires Objects.CollisionFree(h) && EditsOk(h, es) && OnWipTree(s, c) && c.headTree.Fixed? && CacheOk(h, s, c)
    requires c1.wip.Some? && c1 == CacheWithTree(c, c.headTree, c1.wip.value.currentTree)
    requires Objects.Grows(s.objects, s1.objects)
    ensures MayEdit(h, s1, c1, es) <==> RowTakes(h, s, c.wip.value.id, es)
  {
    hide Readable, RunTree, Objects.CollisionFree, Objects.Grows;
    TreePersists(h, s.objects, s1.objects, c.wip.value.currentTree);
  }

  lemma EditedBack(h: Objects.Hasher, s: State, s1: State, s2: State, c: Cache, c1: Cache, es: seq<Edit>, root: Hash)
    requires Objects.CollisionFree(h) && OnWipTree(s, c) && c.headTree.Fixed? && CacheOk(h, s, c)
    requires c1.wip.Some? && c1 == CacheWithTree(c, c.headTree, c1.wip.value.currentTree)
    requires TreeSet(s, s1, c.wip.value.id, c1.wip.value.currentTree) && TreeSet(s1, s2, c.wip.value.id, root)
    requires EditedTo(h, s1, s2.objects, c1, es, root)
    ensures RowEdited(h, s, s2, c.wip.value.id, es)
  {
    hide TreeSet, OnlyTreeSet, RowGives, EditedTo, CacheOk, Objects.CollisionFree;
    OnWipFacts(s, c);
    BackSet(s, s1, s2, c.wip.value.id, c1.wip.value.currentTree, root);
    GivesBack(h, s, s1, s2.objects, c, c1, es, root);
  }

  lemma BackSet(s: State, s1: State, s2: State, w: Id, back: Hash, root: Hash)
    requires w in s.wips && TreeSet(s, s1, w, back) && TreeSet(s1, s2, w, root)
    ensures OnlyTreeSet(s, s2, w) && s2.wips[w].currentTree == root && Objects.Grows(s.objects, s1.objects)
  {
    GrowsTransitive(s.objects, s1.objects, s2.objects);
  }

  lemma GivesBack(h: Objects.Hasher, s: State, s1: State, after: Objects.Store, c: Cache, c1: Cache, es: seq<Edit>,
                  root: Hash)
    requires Objects.CollisionFree(h) && OnWipTree(s, c) && c.headTree.Fixed? && CacheOk(h, s, c)
    requires c1.wip.Some? && c1 == CacheWithTree(c, c.headTree, c1.wip.value.currentTree)
    requires Objects.Grows(s.objects, s1.objects) && EditedTo(h, s1, after, c1, es, root)
    ensures RowGives(h, s, c.wip.value.id, es, after, root)
  {
    hide Readable, RunTree, Objects.CollisionFree, Objects.Grows, CacheOk, TreeAt;
    OnWipReadable(h, s, c);
    TreePersists(h, s.objects, s1.objects, c.wip.value.currentTree);
  }

  lemma OnWipReadable(h: Objects.Hasher, s: State, c: Cache)
    requires OnWipTree(s, c) && CacheOk(h, s, c)
    ensures Readable(h, s.objects, c.wip.value.currentTree)
  {
  }
}
