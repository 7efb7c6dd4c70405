/** The branch and working-in-process tables of one repository (models/branch.go,
    models/wip.go), the whole database state, and how it may evolve. */
module Tables {
  import opened Wrappers
  import opened Hashes
  import opened CommitGraph
  import opened CommitStore
  import opened CommitMerge
  import Objects

  /** Keys are generated and never used twice. */
  type Id = nat

  datatype Branch = Branch(id: Id, name: string, commitHash: Hash)

  datatype Wip = Wip(id: Id, refId: Id, creatorId: Id, currentTree: Hash, baseCommit: Hash)

  datatype State = State(commits: Graph, objects: Objects.Store, branches: map<Id, Branch>, wips: map<Id, Wip>,
                         nextId: Id)

  // ------------------------------------------------------------------ invariants

  /** A stored commit, or none yet. */
  ghost predicate HeadOk(g: Graph, hash: Hash) {
    hash == EMPTY_HASH || hash in g
  }

  ghost predicate BranchesOk(s: State) {
    && (forall i | i in s.branches ::
          s.branches[i].id == i && i < s.nextId && HeadOk(s.commits, s.branches[i].commitHash))
    && (forall i, j | i in s.branches && j in s.branches && s.branches[i].name == s.branches[j].name :: i == j)
  }

  ghost predicate WipOk(h: Objects.Hasher, s: State, w: Wip) {
    w.id < s.nextId && w.refId < s.nextId && HeadOk(s.commits, w.baseCommit) && Readable(h, s.objects, w.currentTree)
  }

  ghost predicate WipsOk(h: Objects.Hasher, s: State) {
    && (forall i | i in s.wips :: s.wips[i].id == i && WipOk(h, s, s.wips[i]))
    && (forall i, j | i in s.wips && j in s.wips && SameOwner(s.wips[i], s.wips[j]) :: i == j)
  }

  /** The unique key of the wip table. */
  ghost predicate SameOwner(w: Wip, v: Wip) {
    w.refId == v.refId && w.creatorId == v.creatorId
  }

  ghost predicate RowsOk(h: Objects.Hasher, s: State) {
    BranchesOk(s) && WipsOk(h, s)
  }

  /** The base of every wip lies in the history of the head of its branch. */
  ghost predicate BasesBelowHeads(s: State) {
    forall i | i in s.wips && s.wips[i].refId in s.branches ::
        HeadAdvances(s.commits, s.wips[i].baseCommit, s.branches[s.wips[i].refId].commitHash)
  }

  ghost predicate HasBranch(s: State, name: string) {
    exists i :: i in s.branches && s.branches[i].name == name
  }

  ghost predicate HasWip(s: State, creatorId: Id, refId: Id) {
    exists i :: i in s.wips && s.wips[i].creatorId == creatorId && s.wips[i].refId == refId
  }

  // ------------------------------------------------------------------- evolution

  /** A head that is not empty only moves to a descendant. */
  ghost predicate HeadAdvances(g: Graph, from: Hash, to: Hash) {
    from != EMPTY_HASH ==> Reach(g, to, from)
  }

  ghost predicate Advances(s: State, s': State) {
    && GraphGrows(s.commits, s'.commits) && Objects.Grows(s.objects, s'.objects) && s.nextId <= s'.nextId
    && (forall b | b in s'.branches :: b in s.branches || b >= s.nextId)
    && (forall b | b in s'.branches && b in s.branches ::
          HeadAdvances(s'.commits, s.branches[b].commitHash, s'.branches[b].commitHash))
  }

  lemma AdvancesReflexive(s: State)
    requires BranchesOk(s)
    ensures Advances(s, s)
  {
    forall b | b in s.branches && s.branches[b].commitHash != EMPTY_HASH
      ensures Reach(s.commits, s.branches[b].commitHash, s.branches[b].commitHash) {
      ReachReflexive(s.commits, s.branches[b].commitHash);
    }
  }

  lemma HeadAdvancesTwice(g: Graph, g': Graph, h1: Hash, h2: Hash, h3: Hash)
    requires Closed(g) && GraphGrows(g, g') && EMPTY_HASH !in g
    requires HeadAdvances(g, h1, h2) && HeadAdvances(g', h2, h3)
    ensures HeadAdvances(g', h1, h3)
  {
    if h1 != EMPTY_HASH {
      ReachIsStored(g, g.Keys, h2, h1);
      ReachPersists(g, g', h2, h1);
      ReachTransitive(g', g'.Keys, h3, h2, h1);
    }
  }

  lemma AdvancesTransitive(s1: State, s2: State, s3: State)
    requires Advances(s1, s2) && Advances(s2, s3) && BranchesOk(s1) && Closed(s2.commits) && EMPTY_HASH !in s2.commits
    ensures Advances(s1, s3)
  {
    hide Reach, Closed;
    forall b | b in s3.branches && b in s1.branches
      ensures HeadAdvances(s3.commits, s1.branches[b].commitHash, s3.branches[b].commitHash)
    {
      assert b in s2.branches;
      HeadAdvancesTwice(s2.commits, s3.commits, s1.branches[b].commitHash, s2.branches[b].commitHash,
                        s3.branches[b].commitHash);
    }
  }

  /** When heads advance, a base that was below a head stays below it. */
  lemma BaseStaysBelow(s: State, s': State, base: Hash, b: Id)
    requires Advances(s, s') && Closed(s.commits) && EMPTY_HASH !in s.commits && b in s.branches && b in s'.branches
    requires HeadAdvances(s.commits, base, s.branches[b].commitHash)
    ensures HeadAdvances(s'.commits, base, s'.branches[b].commitHash)
  {
    HeadAdvancesTwice(s.commits, s'.commits, base, s.branches[b].commitHash, s'.branches[b].commitHash);
  }

  /** The rows of the wip table that are new or changed have their base below the head. */
  ghost predicate NewBasesBelow(s: State, s': State) {
    forall i | i in s'.wips
        && !(i in s.wips && s.wips[i].baseCommit == s'.wips[i].baseCommit && s.wips[i].refId == s'.wips[i].refId) ::
      s'.wips[i].refId in s'.branches ==>
          HeadAdvances(s'.commits, s'.wips[i].baseCommit, s'.branches[s'.wips[i].refId].commitHash)
  }

  lemma BasesStayBelow(s: State, s': State)
    requires Advances(s, s') && Closed(s.commits) && EMPTY_HASH !in s.commits && BasesBelowHeads(s)
             && NewBasesBelow(s, s')
    requires forall i | i in s.wips :: s.wips[i].refId < s.nextId
    ensures BasesBelowHeads(s')
  {
    hide HeadAdvances;
    forall i | i in s'.wips && s'.wips[i].refId in s'.branches
      ensures HeadAdvances(s'.commits, s'.wips[i].baseCommit, s'.branches[s'.wips[i].refId].commitHash)
    {
      if i in s.wips && s.wips[i].baseCommit == s'.wips[i].baseCommit && s.wips[i].refId == s'.wips[i].refId {
        BaseStaysBelow(s, s', s.wips[i].baseCommit, s.wips[i].refId);
      }
    }
  }

  // ---------------------------------------------------------------- the database

  class Database {
    const commits: CommitRepo
    const trees: Objects.FileTreeRepo
    var branches: map<Id, Branch>
    var wips: map<Id, Wip>
    var nextId: Id

    /** Everything the tables hold. */
    function Now(): State
      reads this, commits, trees
    {
      State(commits.commits, trees.objects, branches, wips, nextId)
    }

    ghost predicate Valid()
      reads this, commits, trees
    {
      Sound(commits, trees) && RowsOk(trees.hasher, Now())
    }

    constructor (commits: CommitRepo, trees: Objects.FileTreeRepo)
      requires Sound(commits, trees)
      ensures Valid() && this.commits == commits && this.trees == trees
      ensures Now() == State(commits.commits, trees.objects, map[], map[], 0)
    {
      this.commits, this.trees, branches, wips, nextId := commits, trees, map[], map[], 0;
    }

    /** Transaction with an error: every table is as it was at the start. */
    method Rollback(start: State)
      modifies this, commits, trees
      ensures Now() == start
    {
      commits.commits, trees.objects, branches, wips, nextId := start.commits, start.objects, start.branches,
          start.wips, start.nextId;
    }

    /** BranchRepo.Get by name */
    method GetBranch(name: string) returns (r: Result<Branch>)
      ensures r.Ok? ==> r.value.name == name && r.value in branches.Values
      ensures r.Err? ==> r.error == NotFound
      ensures r.Ok? <==> HasBranch(Now(), name)
    {
      var keys := branches.Keys;
      while keys != {}
        invariant keys <= branches.Keys
        invariant forall i | i in branches && i !in keys :: branches[i].name != name
        decreases |keys|
      {
        var i :| i in keys;
        if branches[i].name == name {
          return Ok(branches[i]);
        }
        keys := keys - {i};
      }
      return Err(NotFound);
    }

    /** BranchRepo.Insert */
    method InsertBranch(name: string, commitHash: Hash) returns (branch: Branch)
      modifies this
      ensures branch == Branch(old(nextId), name, commitHash)
      ensures Now() == old(Now()).(branches := old(branches)[branch.id := branch], nextId := old(nextId) + 1)
    {
      branch := Branch(nextId, name, commitHash);
      branches, nextId := branches[nextId := branch], nextId + 1;
    }

    /** BranchRepo.UpdateByID: an id that is gone is no error. */
    method UpdateBranch(id: Id, commitHash: Hash)
      modifies this
      ensures Now() == old(Now()).(branches := branches) && branches == MoveHead(old(branches), id, commitHash)
      ensures branches.Keys == old(branches).Keys
      ensures forall i | i in branches && i != id :: branches[i] == old(branches)[i]
      ensures id in branches ==> branches[id] == Branch(old(branches)[id].id, old(branches)[id].name, commitHash)
    {
      if id in branches {
        branches := branches[id := branches[id].(commitHash := commitHash)];
      }
    }

    /** BranchRepo.Delete by name */
    method DeleteBranch(name: string)
      modifies this
      ensures Now() == old(Now()).(branches := map i | i in old(branches) && old(branches)[i].name != name ::
                old(branches)[i])
    {
      branches := map i | i in branches && branches[i].name != name :: branches[i];
    }

    /** WipRepo.Get by owner and branch */
    method GetWip(creatorId: Id, refId: Id) returns (r: Result<Wip>)
      ensures r.Ok? ==> r.value.creatorId == creatorId && r.value.refId == refId && r.value in wips.Values
      ensures r.Err? ==> r.error == NotFound
      ensures r.Ok? <==> HasWip(Now(), creatorId, refId)
    {
      var keys := wips.Keys;
      while keys != {}
        invariant keys <= wips.Keys
        invariant forall i | i in wips && i !in keys :: !(wips[i].creatorId == creatorId && wips[i].refId == refId)
        decreases |keys|
      {
        var i :| i in keys;
        if wips[i].creatorId == creatorId && wips[i].refId == refId {
          return Ok(wips[i]);
        }
        keys := keys - {i};
      }
      return Err(NotFound);
    }

    /** WipRepo.Insert */
    method InsertWip(currentTree: Hash, baseCommit: Hash, refId: Id, creatorId: Id) returns (wip: Wip)
      modifies this
      ensures wip == Wip(old(nextId), refId, creatorId, currentTree, baseCommit)
      ensures Now() == old(Now()).(wips := old(wips)[wip.id := wip], nextId := old(nextId) + 1)
    {
      wip := Wip(nextId, refId, creatorId, currentTree, baseCommit);
      wips, nextId := wips[nextId := wip], nextId + 1;
    }

    /** WipRepo.UpdateByID: the given columns of the row, if it is there. */
    method UpdateWip(id: Id, currentTree: Option<Hash>, baseCommit: Option<Hash>)
      modifies this
      ensures Now() == old(Now()).(wips := wips) && wips == SetWip(old(wips), id, currentTree, baseCommit)
      ensures wips.Keys == old(wips).Keys && forall i | i in wips && i != id :: wips[i] == old(wips)[i]
      ensures id in wips ==> SameOwner(wips[id], old(wips)[id]) && wips[id].id == old(wips)[id].id
      ensures id in wips && currentTree.Some? ==> wips[id].currentTree == currentTree.value
      ensures id in wips && currentTree.None? ==> wips[id].currentTree == old(wips)[id].currentTree
      ensures id in wips && baseCommit.Some? ==> wips[id].baseCommit == baseCommit.value
      ensures id in wips && baseCommit.None? ==> wips[id].baseCommit == old(wips)[id].baseCommit
    {
      if id in wips {
        var row := wips[id];
        if currentTree.Some? {
          row := row.(currentTree := currentTree.value);
        }
        if baseCommit.Some? {
          row := row.(baseCommit := baseCommit.value);
        }
        wips := wips[id := row];
      }
    }

    /** WipRepo.Delete by branch, and by owner if one is given */
    method DeleteWips(refId: Id, creatorId: Option<Id>) returns (affected: nat)
      modifies this
      ensures Now() == old(Now()).(wips := map i | i in old(wips) && !Selected(old(wips)[i], refId, creatorId) ::
                old(wips)[i])
      ensures forall i :: i in wips <==>
                i in old(wips) && (old(wips)[i].refId != refId
                                   || (creatorId.Some? && old(wips)[i].creatorId != creatorId.value))
      ensures affected == |set i | i in old(wips) && Selected(old(wips)[i], refId, creatorId)|
      ensures affected == 0 <==> forall i | i in old(wips) :: !Selected(old(wips)[i], refId, creatorId)
    {
      var gone := set i | i in wips && Selected(wips[i], refId, creatorId);
      affected := |gone|;
      assert affected == 0 <==> gone == {};
      assert gone == {} <==> forall i | i in wips :: i !in gone;
      wips := map i | i in wips && !Selected(wips[i], refId, creatorId) :: wips[i];
    }
  }

  predicate Selected(w: Wip, refId: Id, creatorId: Option<Id>) {
    w.refId == refId && (creatorId.Some? ==> w.creatorId == creatorId.value)
  }

  ghost function MoveHead(branches: map<Id, Branch>, id: Id, commitHash: Hash): map<Id, Branch> {
    if id in branches then branches[id := branches[id].(commitHash := commitHash)] else branches
  }

  ghost function SetWip(wips: map<Id, Wip>, id: Id, currentTree: Option<Hash>, baseCommit: Option<Hash>): map<Id, Wip> {
    if id !in wips then wips
    else
      var w := wips[id];
      wips[id := w.(currentTree := if currentTree.Some? then currentTree.value else w.currentTree,
                    baseCommit := if baseCommit.Some? then baseCommit.value else w.baseCommit)]
  }
}
