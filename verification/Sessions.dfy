/** A user's working session on a repository (WorkRepository in versionmgr/work_repo.go):
    what is checked out, and the requests that change branches and wips. */
module Sessions {
  import opened Wrappers
  import opened Hashes
  import opened CommitGraph
  import opened CommitStore
  import opened CommitMerge
  import opened FileMerge
  import opened WorkTreeRuns
  import opened ThreeWay
  import opened Tables
  import opened SessionSpec
  import opened SessionRows
  import Objects

  class WorkRepository {
    const operator: User
    const repo: Database
    var state: RepoState
    var headTree: HeadTree
    var wip: Option<Wip>
    var branch: Option<Branch>
    var commit: Option<Commit>

    ghost function Cached(): Cache
      reads this
    {
      Cache(state, headTree, wip, branch, commit)
    }

    ghost predicate Valid()
      reads this, repo, repo.commits, repo.trees
    {
      repo.Valid() && CacheOk(repo.trees.hasher, repo.Now(), Cached())
    }

    constructor (operator: User, repo: Database)
      requires repo.Valid()
      ensures Valid() && this.operator == operator && this.repo == repo
      ensures Cached() == Cache(Nothing, Unset, None, None, None)
    {
      this.operator, this.repo := operator, repo;
      state, headTree, wip, branch, commit := Nothing, Unset, None, None, None;
    }

    /** commitChangeRoot: a new commit on the cached head, which becomes the head. */
    method CommitChangeRoot(root: Hash, msg: string) returns (r: Result<Commit>)
      requires Sound(repo.commits, repo.trees) && branch.Some? && HeadOk(repo.commits.commits, branch.value.commitHash)
      requires Readable(repo.trees.hasher, repo.trees.objects, root)
      modifies repo, repo.commits
      ensures r.Err? ==> r.error == CommitExists && repo.Now() == old(repo.Now())
      ensures r.Err? ==>
        CommitTaken(repo.commits.hasher, old(repo.commits.commits), operator, msg, root, branch.value.commitHash)
      ensures r.Ok? && branch.value.commitHash == EMPTY_HASH ==> r.value.parentHashes == []
      ensures r.Ok? && branch.value.commitHash != EMPTY_HASH ==> r.value.parentHashes == [branch.value.commitHash]
      ensures r.Ok? ==>
        && SignedBy(r.value, operator.name, operator.email, msg)
        && CommitOn(old(repo.commits.commits), repo.commits.commits, branch.value.commitHash, root, r.value)
        && repo.Now() == old(repo.Now()).(commits := repo.commits.commits,
                                          branches := MoveHead(old(repo.branches), branch.value.id, r.value.hash))
      ensures Sound(repo.commits, repo.trees)
    {
      hide Readable, RowsOk, Objects.CollisionFree, Objects.StoreOk, History, NeverEmpty;
      ghost var g := repo.commits.commits;
      var author := Now(Signature(operator.name, operator.email, 0));
      var committer := Now(Signature(operator.name, operator.email, 0));
      var parentHash := [];
      if branch.value.commitHash != EMPTY_HASH {
        parentHash := [branch.value.commitHash];
      }
      r := repo.commits.Insert(author, committer, msg, root, parentHash);
      if r.Err? {
        return;
      }
      NewCommitReadable(repo.trees.hasher, repo.trees.objects, g, repo.commits.commits, branch.value.commitHash, root,
                        r.value);
      repo.UpdateBranch(branch.value.id, r.value.hash);
    }

    /** CommitChanges */
    method CommitChanges(msg: string) returns (r: Result<Commit>)
      requires Valid()
      modifies this, repo, repo.commits
      ensures Valid()
      ensures r.Err? ==> repo.Now() == old(repo.Now()) && Cached() == old(Cached())
      ensures r.Err? ==> r.error == if !state.InWip? then WrongState
                                    else if branch.value.commitHash != wip.value.baseCommit then StaleBase
                                    else CommitExists
      ensures r == Err(CommitExists) ==>
        CommitTaken(repo.commits.hasher, old(repo.commits.commits), operator, msg, wip.value.currentTree,
                    branch.value.commitHash)
      ensures r.Ok? ==>
        && old(state.InWip? && branch.value.commitHash == wip.value.baseCommit)
        && SignedBy(r.value, operator.name, operator.email, msg)
        && Committed(old(repo.Now()), repo.Now(), old(branch.value), old(wip.value.id), old(wip.value.currentTree),
                     None, r.value)
        && Cached() == Cache(InWip, FollowsWip, Some(old(wip.value).(baseCommit := r.value.hash)),
                             Some(old(branch.value).(commitHash := r.value.hash)), old(commit))
      ensures old(Current(repo.Now(), Cached())) && r.Ok? ==>
        && OnWipTree(repo.Now(), Cached()) && Step(old(repo.Now()), repo.Now())
        && Settled(repo.Now(), branch.value.id, wip.value.id, r.value)
        && RowCommitted(old(repo.Now()), repo.Now(), old(branch.value.id), old(wip.value.id), operator, msg,
                        old(wip.value.currentTree), r.value)
    {
      hide Readable, RowsOk, Objects.CollisionFree, Objects.StoreOk, History, NeverEmpty, Step, CommitOn, GraphOk,
        Settled, Current;
      if !state.InWip? {
        return Err(WrongState);
      }
      if branch.value.commitHash != wip.value.baseCommit {
        return Err(StaleBase);
      }
      ghost var before, cache, h := repo.Now(), Cached(), repo.trees.hasher;
      SoundGraph(repo.commits, repo.trees);
      r := CommitChangeRoot(wip.value.currentTree, msg);
      if r.Err? {
        return;
      }
      repo.UpdateWip(wip.value.id, None, Some(r.value.hash));
      SoundGraph(repo.commits, repo.trees);
      CommitKeepsRows(h, before, repo.Now(), branch.value, wip.value.id, wip.value.currentTree, None, r.value);
      CacheAfterCommit(h, before, repo.Now(), cache, None, wip.value.currentTree, r.value);
      if Current(before, cache) {
        CommitOnRows(before, repo.Now(), cache, operator, msg, None, wip.value.currentTree, r.value);
      }
      branch := Some(branch.value.(commitHash := r.value.hash));
      wip := Some(wip.value.(baseCommit := r.value.hash));
      headTree := FollowsWip;
    }

    /** changeInWip: edit the tree that headTree points to. */
    method ChangeTree(es: seq<Edit>) returns (r: Result<Hash>)
      requires Valid() && EditsOk(repo.trees.hasher, es)
      modifies repo.trees
      ensures Sound(repo.commits, repo.trees) && Objects.Grows(old(repo.trees.objects), repo.trees.objects)
      ensures r.Ok? <==> MayEdit(repo.trees.hasher, old(repo.Now()), Cached(), es)
      ensures r.Ok? ==> EditedTo(repo.trees.hasher, old(repo.Now()), repo.trees.objects, Cached(), es, r.value)
      ensures r.Ok? ==> Readable(repo.trees.hasher, repo.trees.objects, r.value)
      ensures !state.InWip? ==> r == Err(WrongState)
    {
      hide RowsOk, Objects.CollisionFree, Objects.StoreOk, CommitRepo.Valid, Readable, Edited, TreeIs;
      if !state.InWip? {
        return Err(WrongState);
      }
      ghost var objects := repo.trees.objects;
      var treeHash := if headTree.FollowsWip? then wip.value.currentTree else headTree.hash;
      r := EditTreeAt(repo.trees, treeHash, es);
      TreesStayReadable(repo.trees.hasher, objects, repo.trees.objects, repo.commits.commits);
    }

    /** ChangeInWip */
    method ChangeInWip(es: seq<Edit>) returns (r: Result<()>)
      requires Valid() && EditsOk(repo.trees.hasher, es)
      modifies this, repo, repo.commits, repo.trees
      ensures Valid()
      ensures r.Err? ==> repo.Now() == old(repo.Now()) && Cached() == old(Cached())
      ensures r.Ok? <==> MayEdit(repo.trees.hasher, old(repo.Now()), old(Cached()), es)
      ensures r.Ok? ==>
        && wip.Some? && Cached() == CacheWithTree(old(Cached()), FollowsWip, wip.value.currentTree)
        && TreeSet(old(repo.Now()), repo.Now(), wip.value.id, wip.value.currentTree)
        && EditedTo(repo.trees.hasher, old(repo.Now()), repo.trees.objects, old(Cached()), es, wip.value.currentTree)
      ensures old(Current(repo.Now(), Cached())) && r.Ok? ==>
                Current(repo.Now(), Cached()) && Step(old(repo.Now()), repo.Now())
      ensures old(OnWipTree(repo.Now(), Cached())) ==>
        && (r.Ok? <==> RowTakes(repo.trees.hasher, old(repo.Now()), old(wip.value.id), es))
        && (r.Ok? ==>
              && OnWipTree(repo.Now(), Cached()) && wip.value.id == old(wip.value.id)
              && RowEdited(repo.trees.hasher, old(repo.Now()), repo.Now(), wip.value.id, es))
    {
      hide Readable, RowsOk, Objects.CollisionFree, Objects.StoreOk, Objects.Grows, History, NeverEmpty, Edited,
        MayEdit, EditedTo, Step, Current, CacheOk, RowTakes, RowEdited, OnWipTree;
      var start := repo.Now();
      ghost var cache, h := Cached(), repo.trees.hasher;
      CacheInWip(h, start, cache);
      if OnWipTree(start, cache) {
        OnWipMayEdit(h, start, cache, es);
      }
      var workTree := ChangeTree(es);
      if workTree.Err? {
        repo.Rollback(start);
        return Err(workTree.error);
      }
      wip := Some(wip.value.(currentTree := workTree.value));
      headTree := FollowsWip;
      repo.UpdateWip(wip.value.id, Some(workTree.value), None);
      SoundGraph(repo.commits, repo.trees);
      TreeSetKeeps(h, start, repo.Now(), cache, FollowsWip, workTree.value);
      if OnWipTree(start, cache) {
        assert Current(start, cache) by { CurrentOnWip(start, cache); }
        EditsOnRows(h, start, repo.Now(), cache, es, workTree.value);
      }
      return Ok(());
    }

    /** Revert; the prefix has been cleaned. */
    method Revert(prefix: string) returns (r: Result<()>)
      requires Valid()
      modifies this, repo, repo.commits, repo.trees
      ensures Valid()
      ensures r.Err? ==> repo.Now() == old(repo.Now()) && Cached() == old(Cached())
      ensures r.Ok? <==> old(state.InWip?) && MayRevert(repo.trees.hasher, old(repo.Now()), old(wip).value, prefix)
      ensures r.Ok? ==>
        && wip.Some? && Cached() == CacheWithTree(old(Cached()), old(headTree), wip.value.currentTree)
        && TreeSet(old(repo.Now()), repo.Now(), wip.value.id, wip.value.currentTree)
        && RevertedTo(repo.trees.hasher, old(repo.Now()), repo.trees.objects, old(wip.value), prefix,
                      wip.value.currentTree)
      ensures r.Ok? && prefix == "" ==>
        && repo.trees.objects == old(repo.trees.objects)
        && wip.value.currentTree == if old(wip.value.baseCommit) == EMPTY_HASH then EMPTY_HASH
                                    else old(repo.commits.commits)[old(wip.value.baseCommit)].treeHash
      ensures old(Current(repo.Now(), Cached())) && r.Ok? ==>
                Current(repo.Now(), Cached()) && Step(old(repo.Now()), repo.Now())
      ensures old(Current(repo.Now(), Cached()) && state.InWip?) ==>
        && (r.Ok? <==> RowReverts(repo.trees.hasher, old(repo.Now()), old(wip.value.id), prefix))
        && (r.Ok? ==> RowReverted(repo.trees.hasher, old(repo.Now()), repo.Now(), old(wip.value.id), prefix))
    {
      hide Readable, RowsOk, Objects.CollisionFree, Objects.StoreOk, Objects.Grows, History, NeverEmpty, Step, Current,
        CacheOk, MayRevert, RevertedTo, RowReverts, RowReverted;
      var start := repo.Now();
      ghost var cache, h := Cached(), repo.trees.hasher;
      CacheInWip(h, start, cache);
      if !state.InWip? {
        return Err(WrongState);
      }
      if Current(start, cache) {
        CurrentMayRevert(h, start, cache, prefix);
      }
      var baseTreeHash := EMPTY_HASH;
      if wip.value.baseCommit != EMPTY_HASH {
        baseTreeHash := repo.commits.commits[wip.value.baseCommit].treeHash;
      }
      var root: Hash;
      if prefix == "" {
        RevertedToBase(h, start, wip.value);
        GrowsReflexive(start.objects);
        root := baseTreeHash;
      } else {
        HeadReadable(h, start.objects, start.commits, wip.value.baseCommit);
        var reverted := RevertBelow(repo.trees, wip.value, prefix, baseTreeHash, start);
        TreesStayReadable(h, start.objects, repo.trees.objects, start.commits);
        if reverted.Err? {
          repo.Rollback(start);
          return Err(reverted.error);
        }
        root := reverted.value;
      }
      repo.UpdateWip(wip.value.id, Some(root), None);
      wip := Some(wip.value.(currentTree := root));
      SoundGraph(repo.commits, repo.trees);
      TreeSetKeeps(h, start, repo.Now(), cache, cache.headTree, root);
      if Current(start, cache) {
        RevertOnRows(h, start, repo.Now(), cache, prefix, root);
      }
      return Ok(());
    }

    /** ChangeAndCommit. The source dereferences the cached branch and wip first. */
    method ChangeAndCommit(msg: string, es: seq<Edit>) returns (r: Result<Commit>)
      requires Valid() && EditsOk(repo.trees.hasher, es) && branch.Some? && wip.Some?
      modifies this, repo, repo.commits, repo.trees
      ensures Valid()
      ensures r.Err? ==> repo.Now() == old(repo.Now()) && Cached() == old(Cached())
      ensures r.Err? ==>
        || (r.error == StaleBase && branch.value.commitHash != wip.value.baseCommit)
        || !MayEdit(repo.trees.hasher, old(repo.Now()), old(Cached()), es)
        || (r.error == CommitExists
            && CommitTaken(repo.commits.hasher, old(repo.commits.commits), operator, msg,
                           EditedRoot(repo.trees.hasher, old(repo.Now()), old(Cached()), es),
                           branch.value.commitHash))
      ensures r.Ok? ==>
        && old(branch.value.commitHash == wip.value.baseCommit)
        && SignedBy(r.value, operator.name, operator.email, msg)
        && Committed(old(repo.Now()), repo.Now(), old(branch.value), old(wip.value.id), r.value.treeHash,
                     Some(r.value.treeHash), r.value)
        && EditedTo(repo.trees.hasher, old(repo.Now()), repo.trees.objects, old(Cached()), es, r.value.treeHash)
        && Cached() == Cache(InWip, FollowsWip,
                             Some(old(wip.value).(currentTree := r.value.treeHash, baseCommit := r.value.hash)),
                             Some(old(branch.value).(commitHash := r.value.hash)), old(commit))
      ensures old(Current(repo.Now(), Cached())) && r.Ok? ==>
        && OnWipTree(repo.Now(), Cached()) && Step(old(repo.Now()), repo.Now())
        && Settled(repo.Now(), branch.value.id, wip.value.id, r.value)
        && RowCommitted(old(repo.Now()), repo.Now(), old(branch.value.id), old(wip.value.id), operator, msg,
                        r.value.treeHash, r.value)
      ensures old(OnWipTree(repo.Now(), Cached())) ==>
        && (r.Ok? ==>
              RowGives(repo.trees.hasher, old(repo.Now()), old(wip.value.id), es, repo.trees.objects, r.value.treeHash))
        && (r.Err? ==>
              RowCommitRefused(repo.trees.hasher, repo.commits.hasher, old(repo.Now()), old(branch.value.id),
                               old(wip.value.id), operator, msg, es))
    {
      hide Readable, RowsOk, Objects.CollisionFree, Objects.StoreOk, Objects.Grows, History, NeverEmpty, Edited,
        MayEdit, EditedTo, Step, Current, CacheOk, GraphOk, Settled, HeadOk, OnWipTree, RowGives, RowCommitRefused,
        RowCommitted, CommitTaken, SignedBy;
      var start := repo.Now();
      ghost var cache, h, ch := Cached(), repo.trees.hasher, repo.commits.hasher;
      CacheInWip(h, start, cache);
      ghost var rows := OnWipTree(start, cache);
      if branch.value.commitHash != wip.value.baseCommit {
        if rows {
          StaleRefused(h, ch, start, cache, operator, msg, es);
        }
        return Err(StaleBase);
      }
      SoundGraph(repo.commits, repo.trees);
      var workTree := ChangeTree(es);
      if workTree.Err? {
        repo.Rollback(start);
        if rows {
          EditsRefused(h, ch, start, cache, operator, msg, es);
        }
        return Err(workTree.error);
      }
      var root := workTree.value;
      EditedToRoot(h, start, repo.trees.objects, cache, es, root);
      if rows {
        OnWipEdited(h, start, repo.trees.objects, cache, es, root);
      }
      ghost var edited := repo.trees.objects;
      r := CommitChangeRoot(root, msg);
      if r.Err? {
        repo.Rollback(start);
        if rows {
          HashRefused(h, ch, start, edited, cache, operator, msg, es, root);
        }
        return;
      }
      repo.UpdateWip(wip.value.id, Some(root), Some(r.value.hash));
      wip := Some(wip.value.(currentTree := root, baseCommit := r.value.hash));
      headTree := FollowsWip;
      branch := Some(branch.value.(commitHash := r.value.hash));
      SoundGraph(repo.commits, repo.trees);
      CommitKeepsRows(h, start, repo.Now(), cache.branch.value, cache.wip.value.id, root, Some(root), r.value);
      CacheAfterCommit(h, start, repo.Now(), cache, Some(root), root, r.value);
      if Current(start, cache) {
        CommitOnRows(start, repo.Now(), cache, operator, msg, Some(root), root, r.value);
        FollowsOnWip(repo.Now(), Cached());
      }
    }

    /** CheckOut */
    method CheckOut(ref: Ref) returns (r: Result<()>)
      requires Valid()
      modifies this
      ensures Valid()
      ensures r.Ok? <==> CanCheckOut(repo.Now(), operator, ref)
      ensures r.Ok? ==> CheckedOut(repo.Now(), operator, ref, old(Cached()), Cached())
      ensures r.Err? ==> r.error == NotFound && Cached() == old(Cached())
    {
      hide Readable, RowsOk, Objects.CollisionFree, Objects.StoreOk, History, NeverEmpty, TreesReadable, CacheOk,
        HasWip, GraphOk, Current, HasBranch, CheckedOut, CanCheckOut;
      ghost var s, h, before := repo.Now(), repo.trees.hasher, Cached();
      SoundGraph(repo.commits, repo.trees);
      match ref {
        case WipOf(name) =>
          var found := repo.GetBranch(name);
          if found.Err? {
            NoBranchToOpen(s, operator, name);
            return Err(NotFound);
          }
          var row := repo.GetWip(operator.id, found.value.id);
          if row.Err? {
            NoWipToOpen(h, s, operator, found.value);
            return Err(NotFound);
          }
          OpenWip(h, s, operator, found.value, row.value, before);
          state, headTree, wip, branch, commit := InWip, Fixed(row.value.currentTree), Some(row.value),
              Some(found.value), None;
        case BranchNamed(name) =>
          var found := repo.GetBranch(name);
          if found.Err? {
            NoBranchToOpen(s, operator, name);
            return Err(NotFound);
          }
          OpenBranch(h, s, operator, found.value, before);
          var head := found.value.commitHash;
          var treeHash, tip := EMPTY_HASH, None;
          if head != EMPTY_HASH {
            tip := Some(repo.commits.commits[head]);
            treeHash := tip.value.treeHash;
          }
          state, headTree, wip, branch, commit := InBranch, Fixed(treeHash), None, Some(found.value), tip;
        case CommitAt(hash) =>
          if hash != EMPTY_HASH && hash !in repo.commits.commits {
            NoCommitToOpen(s, operator, hash);
            return Err(NotFound);
          }
          OpenCommit(h, s, operator, hash, before);
          var treeHash := EMPTY_HASH;
          if hash != EMPTY_HASH {
            treeHash := repo.commits.commits[hash].treeHash;
            state, wip, branch, commit := InCommit, None, None, Some(repo.commits.commits[hash]);
          }
          headTree := Fixed(treeHash);
          CommitOpened(s, operator, hash, before, Cached());
      }
      return Ok(());
    }

    /** GetOrCreateWip. A wip that exists is returned without being checked out. */
    method GetOrCreateWip() returns (r: Result<(Wip, bool)>)
      requires Valid()
      modifies this, repo
      ensures Valid()
      ensures r.Ok? <==> old(state.InBranch?)
      ensures r.Err? ==> r.error == WrongState && repo.Now() == old(repo.Now()) && Cached() == old(Cached())
      ensures r.Ok? ==>
        var (w, isNew) := r.value;
        && w.id in repo.wips && repo.wips[w.id] == w && w.refId == old(branch.value.id) && w.creatorId == operator.id
        && (isNew <==> !HasWip(old(repo.Now()), operator.id, old(branch.value.id)))
        && (!isNew ==> repo.Now() == old(repo.Now()) && Cached() == old(Cached()).(headTree := Fixed(w.currentTree)))
        && (isNew ==>
              && w.id == old(repo.nextId) && w.baseCommit == old(branch.value.commitHash)
              && w.currentTree == (if w.baseCommit == EMPTY_HASH then EMPTY_HASH
                                   else old(repo.commits.commits)[w.baseCommit].treeHash)
              && repo.Now() == old(repo.Now()).(wips := old(repo.wips)[w.id := w], nextId := old(repo.nextId) + 1)
              && Cached() == Cache(InWip, FollowsWip, Some(w), old(branch), None))
      ensures old(Current(repo.Now(), Cached())) ==> Current(repo.Now(), Cached()) && Step(old(repo.Now()), repo.Now())
    {
      hide Readable, RowsOk, Objects.CollisionFree, Objects.StoreOk, History, NeverEmpty, Step, CacheOk, Current,
        HasWip, GraphOk, TreesReadable;
      ghost var s, h, before := repo.Now(), repo.trees.hasher, Cached();
      SoundGraph(repo.commits, repo.trees);
      StepReflexive(h, s);
      if !state.InBranch? {
        return Err(WrongState);
      }
      BranchCache(h, s.objects, s, before);
      var found := repo.GetWip(operator.id, branch.value.id);
      if found.Ok? {
        ExistingWip(h, s, found.value, before);
        headTree := Fixed(found.value.currentTree);
        return Ok((found.value, false));
      }
      var currentTreeHash := EMPTY_HASH;
      if branch.value.commitHash != EMPTY_HASH {
        currentTreeHash := repo.commits.commits[branch.value.commitHash].treeHash;
      }
      var w := repo.InsertWip(currentTreeHash, branch.value.commitHash, branch.value.id, operator.id);
      NewWipCache(h, s, repo.Now(), w, before);
      state, headTree, wip, commit := InWip, FollowsWip, Some(w), None;
      return Ok((w, true));
    }

    /** CreateBranch: on the commit that is checked out, if one is. */
    method CreateBranch(branchName: string) returns (r: Result<Branch>)
      requires Valid()
      modifies repo
      ensures Valid()
      ensures r.Err? <==> HasBranch(old(repo.Now()), branchName)
      ensures r.Err? ==> r.error == EntryExists && repo.Now() == old(repo.Now())
      ensures r.Ok? ==>
        && r.value == Branch(old(repo.nextId), branchName, if commit.Some? then commit.value.hash else EMPTY_HASH)
        && repo.Now() == old(repo.Now()).(branches := old(repo.branches)[r.value.id := r.value],
                                          nextId := old(repo.nextId) + 1)
      ensures Step(old(repo.Now()), repo.Now())
    {
      hide Readable, Objects.CollisionFree, Objects.StoreOk, History, NeverEmpty, BranchesOk, WipsOk, Step;
      ghost var s, h := repo.Now(), repo.trees.hasher;
      SoundGraph(repo.commits, repo.trees);
      StepReflexive(h, s);
      var found := repo.GetBranch(branchName);
      if found.Ok? {
        BranchRow(s, found.value);
        return Err(EntryExists);
      }
      var b := repo.InsertBranch(branchName, if commit.Some? then commit.value.hash else EMPTY_HASH);
      NewBranchRow(h, s, repo.Now(), b);
      return Ok(b);
    }

    /** DeleteBranch: the branch of that name, and the wips on the cached branch. */
    method DeleteBranch()
      requires Valid() && branch.Some?
      modifies repo
      ensures Valid() && Step(old(repo.Now()), repo.Now())
      ensures old(Current(repo.Now(), Cached())) ==> repo.branches == old(repo.branches) - {branch.value.id}
      ensures repo.wips == map i | i in old(repo.wips) && old(repo.wips)[i].refId != branch.value.id ::
                old(repo.wips)[i]
      ensures repo.Now() == old(repo.Now()).(branches := repo.branches, wips := repo.wips)
      ensures !HasBranch(repo.Now(), branch.value.name)
      ensures forall i | i in old(repo.branches) && old(repo.branches)[i].name != branch.value.name ::
                i in repo.branches
    {
      hide Readable, Objects.CollisionFree, Objects.StoreOk, History, NeverEmpty, WipsOk, Step;
      ghost var s, h := repo.Now(), repo.trees.hasher;
      SoundGraph(repo.commits, repo.trees);
      repo.DeleteBranch(branch.value.name);
      var affected := repo.DeleteWips(branch.value.id, None);
      RowsGone(h, s, repo.Now());
    }

    /** DeleteWip: the user's own wip on the branch that is checked out. */
    method DeleteWip() returns (r: Result<()>)
      requires Valid()
      modifies repo
      ensures Valid() && Step(old(repo.Now()), repo.Now())
      ensures r.Ok? <==> old(state.InBranch? && HasWip(repo.Now(), operator.id, branch.value.id))
      ensures r.Err? ==> repo.Now() == old(repo.Now()) && r.error == if state.InBranch? then NotFound else WrongState
      ensures r.Ok? ==>
        && !HasWip(repo.Now(), operator.id, branch.value.id)
        && repo.Now() == old(repo.Now()).(wips := map i | i in old(repo.wips)
                && !(old(repo.wips)[i].refId == branch.value.id && old(repo.wips)[i].creatorId == operator.id) ::
                old(repo.wips)[i])
    {
      hide Readable, Objects.CollisionFree, Objects.StoreOk, History, NeverEmpty, BranchesOk, WipsOk, Step;
      ghost var s, h := repo.Now(), repo.trees.hasher;
      SoundGraph(repo.commits, repo.trees);
      StepReflexive(h, s);
      if !state.InBranch? {
        return Err(WrongState);
      }
      var affectRow := repo.DeleteWips(branch.value.id, Some(operator.id));
      RowsGone(h, s, repo.Now());
      if affectRow == 0 {
        assert repo.wips == s.wips;
        return Err(NotFound);
      }
      return Ok(());
    }

    /** The transaction of Merge up to the update of the branch: find the best ancestor, and
        merge over it. */
    method MergeCommits(toMerge: Hash, msg: string, resolver: Resolver) returns (r: Result<Commit>)
      requires Sound(repo.commits, repo.trees) && ResolverChooses(resolver) && branch.Some?
      requires HeadOk(repo.commits.commits, branch.value.commitHash) && HeadOk(repo.commits.commits, toMerge)
      modifies repo.commits, repo.trees
      ensures Sound(repo.commits, repo.trees)
      ensures GraphGrows(old(repo.commits.commits), repo.commits.commits)
      ensures Objects.Grows(old(repo.trees.objects), repo.trees.objects)
      ensures r.Err? ==>
        MergeRefused(repo.trees.hasher, repo.commits.hasher, old(repo.Now()), toMerge, branch.value.commitHash,
                     MergingBy(operator, msg, resolver))
      ensures r.Ok? ==>
        Joined(repo.trees.hasher, old(repo.Now()), repo.Now(), CommitOf(old(repo.commits.commits), toMerge),
               CommitOf(old(repo.commits.commits), branch.value.commitHash), resolver, r.value)
      ensures r.Ok? && r.value.hash !in old(repo.commits.commits) ==>
                SignedBy(r.value, operator.name, operator.email, msg)
    {
      hide Readable, Objects.CollisionFree, Objects.StoreOk, Acyclic, Closed, NeverEmpty, GraphOk, TreesReadable,
        Outcome, BestAncestor, Joined, SignedBy, CommitOf, MergeRefused;
      ghost var h, ch, start := repo.trees.hasher, repo.commits.hasher, repo.Now();
      SoundGraph(repo.commits, repo.trees);
      CommitOfKnown(start.commits, branch.value.commitHash);
      CommitOfKnown(start.commits, toMerge);
      var target, source := None, None;
      if branch.value.commitHash != EMPTY_HASH {
        target := Some(repo.commits.commits[branch.value.commitHash]);
      }
      if toMerge != EMPTY_HASH {
        source := Some(repo.commits.commits[toMerge]);
      }
      HeadCommit(start.commits, branch.value.commitHash);
      HeadCommit(start.commits, toMerge);
      var how := MergingBy(operator, msg, resolver);
      var best := FindBestAncestor(repo.commits, repo.trees, how.merger, source, target);
      ghost var o1, g1 := repo.trees.objects, repo.commits.commits;
      if best.Err? {
        SearchRefused(h, ch, start, o1, g1, toMerge, branch.value.commitHash, how, best.error);
        return Err(best.error);
      }
      r := CommitMerge.Merge(repo.commits, repo.trees, best.value, source, target, how);
      if r.Err? {
        OverRefused(h, ch, start, o1, repo.trees.objects, g1, repo.commits.commits, toMerge, branch.value.commitHash,
                    how, best.value, r);
        return;
      }
      MergeJoins(h, ch, start, o1, g1, repo.Now(), source, target, how, best.value, r.value);
    }

    /** Merge: another commit into the branch that is checked out. The cached branch keeps
        its old head. */
    method Merge(toMerge: Hash, msg: string, resolver: Resolver) returns (r: Result<Commit>)
      requires Valid() && ResolverChooses(resolver)
      modifies repo, repo.commits, repo.trees
      ensures Valid()
      ensures r.Err? ==> repo.Now() == old(repo.Now())
      ensures !state.InBranch? ==> r == Err(WrongState)
      ensures state.InBranch? && !HeadOk(old(repo.commits.commits), toMerge) ==> r == Err(NotFound)
      ensures r.Err? && state.InBranch? && HeadOk(old(repo.commits.commits), toMerge) ==>
        MergeRefused(repo.trees.hasher, repo.commits.hasher, old(repo.Now()), toMerge, branch.value.commitHash,
                     MergingBy(operator, msg, resolver))
      ensures state.InBranch? && HeadOk(old(repo.commits.commits), toMerge) ==>
        OverOneAsSaid(repo.trees.hasher, repo.commits.hasher, old(repo.Now()), toMerge, branch.value.commitHash,
                      MergingBy(operator, msg, resolver), r.Ok?)
      ensures r.Ok? ==>
        && state.InBranch?
        && repo.branches == MoveHead(old(repo.branches), branch.value.id, r.value.hash)
        && repo.wips == old(repo.wips) && repo.nextId == old(repo.nextId)
        && GraphGrows(old(repo.commits.commits), repo.commits.commits)
              && Objects.Grows(old(repo.trees.objects), repo.trees.objects)
        && Joined(repo.trees.hasher, old(repo.Now()), repo.Now(), CommitOf(old(repo.commits.commits), toMerge),
                  CommitOf(old(repo.commits.commits), branch.value.commitHash), resolver, r.value)
      ensures r.Ok? && r.value.hash !in old(repo.commits.commits) ==>
                SignedBy(r.value, operator.name, operator.email, msg)
      ensures old(Current(repo.Now(), Cached())) && r.Ok? ==>
        && Step(old(repo.Now()), repo.Now())
        && (Current(repo.Now(), Cached()) <==> r.value.hash == branch.value.commitHash)
    {
      hide Readable, RowsOk, Objects.CollisionFree, Objects.StoreOk, Acyclic, Closed, NeverEmpty, Step, CacheOk,
        Current, GraphOk, TreesReadable, Joined, SignedBy, CommitOf, MergeRefused, OverOneAsSaid, Objects.Grows,
        GraphGrows;
      if !state.InBranch? {
        return Err(WrongState);
      }
      var start := repo.Now();
      ghost var h, ch, cache, how := repo.trees.hasher, repo.commits.hasher, Cached(),
          MergingBy(operator, msg, resolver);
      CacheInWip(h, start, cache);
      SoundGraph(repo.commits, repo.trees);
      if toMerge != EMPTY_HASH && toMerge !in repo.commits.commits {
        return Err(NotFound);
      }
      r := MergeCommits(toMerge, msg, resolver);
      if r.Err? {
        RefusedAsSaid(h, ch, start, toMerge, branch.value.commitHash, how);
        repo.Rollback(start);
        return;
      }
      ghost var merged := repo.Now();
      JoinedAsSaid(h, ch, start, merged, toMerge, branch.value.commitHash, how, r.value);
      repo.UpdateBranch(branch.value.id, r.value.hash);
      ghost var source, target := CommitOf(start.commits, toMerge), CommitOf(start.commits, branch.value.commitHash);
      JoinedFrame(h, start, merged, repo.Now(), source, target, resolver, r.value);
      SoundGraph(repo.commits, repo.trees);
      MergedHead(h, start, repo.Now(), cache, source, resolver, r.value);
    }
  }
}
