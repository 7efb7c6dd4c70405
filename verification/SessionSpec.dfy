/** What the requests of a session mean for the cached rows and for the tables: the
    specification of WorkRepository, and the invariants that its requests keep. */
module SessionSpec {
  import opened Wrappers
  import opened Hashes
  import opened CommitGraph
  import opened CommitStore
  import opened CommitMerge
  import opened MergeBase
  import opened Conflicts
  import opened FileMerge
  import opened TreeModel
  import opened WorkNodes
  import opened WorkTrees
  import opened WorkTreeRuns
  import opened Paths
  import opened ThreeWay
  import opened Reverts
  import opened Tables
  import Objects

  datatype RepoState = Nothing | InWip | InBranch | InCommit

  datatype User = User(id: Id, name: string, email: string)

  /** The headTree pointer: nil, a hash of its own, or the current tree of the cached wip. */
  datatype HeadTree = Unset | Fixed(hash: Hash) | FollowsWip

  /** The cached fields of a session. */
  datatype Cache = Cache(state: RepoState, headTree: HeadTree, wip: Option<Wip>, branch: Option<Branch>,
                         commit: Option<Commit>)

  ghost predicate CacheOk(h: Objects.Hasher, s: State, c: Cache) {
    && (c.branch.Some? ==> c.branch.value.id < s.nextId && HeadOk(s.commits, c.branch.value.commitHash))
    && (c.wip.Some? ==> WipOk(h, s, c.wip.value))
    && (c.commit.Some? ==> Known(s.commits, c.commit))
    && (c.headTree.Fixed? ==> Readable(h, s.objects, c.headTree.hash))
    && (c.headTree.FollowsWip? ==> c.wip.Some?)
    && (c.state.InWip? ==>
          c.wip.Some? && c.branch.Some? && c.wip.value.refId == c.branch.value.id && !c.headTree.Unset?)
    && (c.wip.Some? ==> c.state.InWip?)
    && (c.state.InBranch? ==> c.wip.None? && c.branch.Some?)
  }

  /** The cached rows are the rows of the tables, as right after a checkout. */
  ghost predicate Current(s: State, c: Cache) {
    && (c.branch.Some? ==> c.branch.value.id in s.branches && s.branches[c.branch.value.id] == c.branch.value)
    && (c.wip.Some? ==> c.wip.value.id in s.wips && s.wips[c.wip.value.id] == c.wip.value)
  }

  lemma ReadableGrows(h: Objects.Hasher, before: Objects.Store, after: Objects.Store, hash: Hash)
    requires Objects.Grows(before, after) && Readable(h, before, hash)
    ensures Readable(h, after, hash)
  {
    SnapshotsPersist(h, before, after, hash, TreeAt(h, before, hash));
  }

  lemma WipStaysOk(h: Objects.Hasher, s: State, s': State, w: Wip)
    requires GraphGrows(s.commits, s'.commits) && Objects.Grows(s.objects, s'.objects) && s.nextId <= s'.nextId
    requires WipOk(h, s, w)
    ensures WipOk(h, s', w)
  {
    ReadableGrows(h, s.objects, s'.objects, w.currentTree);
  }

  lemma CacheStaysOk(h: Objects.Hasher, s: State, s': State, c: Cache)
    requires GraphGrows(s.commits, s'.commits) && Objects.Grows(s.objects, s'.objects) && s.nextId <= s'.nextId
    requires CacheOk(h, s, c)
    ensures CacheOk(h, s', c)
  {
    hide Readable;
    if c.wip.Some? {
      WipStaysOk(h, s, s', c.wip.value);
    }
    if c.headTree.Fixed? {
      ReadableGrows(h, s.objects, s'.objects, c.headTree.hash);
    }
  }

  lemma SoundGraph(commits: CommitRepo, trees: Objects.FileTreeRepo)
    requires Sound(commits, trees)
    ensures GraphOk(commits.commits)
  {
  }

  lemma CacheInWip(h: Objects.Hasher, s: State, c: Cache)
    requires CacheOk(h, s, c)
    ensures c.headTree.FollowsWip? ==> c.wip.Some?
    ensures c.state.InWip? ==> c.wip.Some? && c.branch.Some? && WipOk(h, s, c.wip.value)
    ensures c.state.InWip? ==> Readable(h, s.objects, HeadTreeHash(c))
    ensures c.branch.Some? ==> HeadOk(s.commits, c.branch.value.commitHash)
    ensures c.wip.Some? ==> c.state.InWip?
    ensures c.state.InBranch? ==> c.branch.Some? && c.wip.None?
  {
  }

  // ------------------------------------------------------------ steps of the state

  /** What every request on current rows keeps: heads only move to descendants, and the
      base of a wip stays in the history of its head. */
  ghost predicate Step(s: State, s': State) {
    Advances(s, s') && (BasesBelowHeads(s) ==> BasesBelowHeads(s'))
  }

  ghost predicate GraphOk(g: Graph) {
    Closed(g) && EMPTY_HASH !in g
  }

  /** The tree or the base of wips, or nothing at all, changed in the wip table. */
  ghost predicate SameRefs(before: map<Id, Wip>, after: map<Id, Wip>) {
    after.Keys <= before.Keys && forall i | i in after :: after[i].refId == before[i].refId
  }

  /** A head moved to a descendant; a base that moved is that descendant. */
  lemma HeadMoved(h: Objects.Hasher, s: State, s': State, b: Id, to: Hash)
    requires RowsOk(h, s) && GraphOk(s.commits) && GraphOk(s'.commits)
    requires GraphGrows(s.commits, s'.commits) && Objects.Grows(s.objects, s'.objects) && s'.nextId == s.nextId
    requires b in s.branches && s'.branches == MoveHead(s.branches, b, to) && to in s'.commits
    requires HeadAdvances(s'.commits, s.branches[b].commitHash, to)
    requires SameRefs(s.wips, s'.wips)
    requires forall i | i in s'.wips && s'.wips[i].baseCommit != s.wips[i].baseCommit ::
               s'.wips[i].refId == b && s'.wips[i].baseCommit == to
    ensures Step(s, s')
  {
    hide Reach, Readable;
    forall x | x in s.branches && s.branches[x].commitHash != EMPTY_HASH
      ensures Reach(s'.commits, s.branches[x].commitHash, s.branches[x].commitHash) {
      ReachReflexive(s'.commits, s.branches[x].commitHash);
    }
    ReachReflexive(s'.commits, to);
    if BasesBelowHeads(s) {
      BasesStayBelow(s, s');
    }
  }

  /** No head moved; wips changed their trees, left, or came with the head as their base. */
  lemma HeadsStayed(h: Objects.Hasher, s: State, s': State)
    requires RowsOk(h, s) && GraphOk(s.commits) && s'.commits == s.commits
    requires Objects.Grows(s.objects, s'.objects) && s.nextId <= s'.nextId
    requires forall b | b in s'.branches :: (b in s.branches && s'.branches[b] == s.branches[b]) || b >= s.nextId
    requires forall i | i in s'.wips ::
      || (i in s.wips && s'.wips[i].refId == s.wips[i].refId && s'.wips[i].baseCommit == s.wips[i].baseCommit)
      || (s'.wips[i].refId in s'.branches ==>
            s'.wips[i].baseCommit == s'.branches[s'.wips[i].refId].commitHash
                && HeadOk(s.commits, s'.wips[i].baseCommit))
    ensures Step(s, s')
  {
    hide Reach, Readable;
    forall x | x in s.commits ensures Reach(s.commits, x, x) {
      ReachReflexive(s.commits, x);
    }
    if BasesBelowHeads(s) {
      BasesStayBelow(s, s');
    }
  }

  lemma StepReflexive(h: Objects.Hasher, s: State)
    requires RowsOk(h, s)
    ensures Step(s, s)
  {
    AdvancesReflexive(s);
  }

  // ---------------------------------------------------------------------- commits

  /** A new commit of a tree on a head: the head is the parent, an empty head is none. */
  ghost predicate CommitOn(g: Graph, g': Graph, head: Hash, root: Hash, c: Commit) {
    && c.hash !in g && c.hash != EMPTY_HASH && c.treeHash == root
    && c.parentHashes == (if head == EMPTY_HASH then [] else [head])
    && g' == g[c.hash := c]
  }

  /** The user's commit of a tree on a head, made at some time, has a hash that is taken. */
  ghost predicate CommitTaken(h: CommitHasher, g: Graph, who: User, msg: string, root: Hash, head: Hash) {
    Taken(h, g, who.name, who.email, msg, root, if head == EMPTY_HASH then [] else [head])
  }

  /** A commit of a wip on branch b: the commit is the new head, and the new base of the
      wip; `wipTree` is the tree that is written to the wip, if it is written. */
  ghost predicate Committed(s: State, s': State, b: Branch, w: Id, root: Hash, wipTree: Option<Hash>, c: Commit) {
    && CommitOn(s.commits, s'.commits, b.commitHash, root, c) && s'.branches == MoveHead(s.branches, b.id, c.hash)
    && s'.wips == SetWip(s.wips, w, wipTree, Some(c.hash))
    && Objects.Grows(s.objects, s'.objects) && s'.nextId == s.nextId
  }

  lemma BranchesStayOk(s: State, s': State, b: Id, to: Hash)
    requires BranchesOk(s) && GraphGrows(s.commits, s'.commits) && s'.nextId == s.nextId && to in s'.commits
    requires s'.branches == MoveHead(s.branches, b, to)
    ensures BranchesOk(s')
  {
  }

  lemma SetWipRow(h: Objects.Hasher, s: State, s': State, w: Wip, tree: Option<Hash>, base: Option<Hash>)
    requires WipOk(h, s', w)
    requires (tree.Some? ==> Readable(h, s'.objects, tree.value)) && (base.Some? ==> HeadOk(s'.commits, base.value))
    ensures WipOk(h, s', SetWip(map[w.id := w], w.id, tree, base)[w.id])
  {
  }

  lemma WipsStayOk(h: Objects.Hasher, s: State, s': State, w: Id, tree: Option<Hash>, base: Option<Hash>)
    requires WipsOk(h, s) && GraphGrows(s.commits, s'.commits) && Objects.Grows(s.objects, s'.objects)
    requires s'.nextId == s.nextId
    requires s'.wips == SetWip(s.wips, w, tree, base)
    requires (tree.Some? ==> Readable(h, s'.objects, tree.value)) && (base.Some? ==> HeadOk(s'.commits, base.value))
    ensures WipsOk(h, s')
  {
    hide WipOk;
    forall i | i in s'.wips ensures WipOk(h, s', s'.wips[i]) && s'.wips[i].id == i {
      WipStaysOk(h, s, s', s.wips[i]);
      SetWipRow(h, s, s', s.wips[i], tree, base);
    }
  }

  lemma CommitKeepsRows(h: Objects.Hasher, s: State, s': State, b: Branch, w: Id, root: Hash, wipTree: Option<Hash>,
                        c: Commit)
    requires RowsOk(h, s) && Committed(s, s', b, w, root, wipTree, c)
    requires wipTree.Some? ==> Readable(h, s'.objects, wipTree.value)
    ensures RowsOk(h, s')
  {
    hide Readable, BranchesOk, WipsOk;
    BranchesStayOk(s, s', b.id, c.hash);
    WipsStayOk(h, s, s', w, wipTree, Some(c.hash));
  }

  lemma NewCommitReadable(h: Objects.Hasher, objects: Objects.Store, g: Graph, g': Graph, head: Hash, root: Hash,
                          c: Commit)
    requires TreesReadable(h, objects, g) && CommitOn(g, g', head, root, c) && Readable(h, objects, root)
    ensures TreesReadable(h, objects, g')
  {
  }

  lemma CommitReachesHead(g: Graph, g': Graph, head: Hash, root: Hash, c: Commit)
    requires CommitOn(g, g', head, root, c) && HeadOk(g, head)
    ensures HeadAdvances(g', head, c.hash) && c.hash in g'
  {
    hide ReachThrough;
    ReachReflexive(g', c.hash);
    if head != EMPTY_HASH {
      ReachParent(g', g'.Keys, c.hash, c.hash, head);
    }
  }

  /** A commit made from current rows advances the head; afterwards the wip is based on the
      new head and holds the tree of the new head. */
  lemma CommitSettles(h: Objects.Hasher, s: State, s': State, c: Cache, wipTree: Option<Hash>, root: Hash,
                      commit: Commit)
    requires RowsOk(h, s) && CacheOk(h, s, c) && Current(s, c) && c.state.InWip? && GraphOk(s.commits)
             && GraphOk(s'.commits)
    requires Committed(s, s', c.branch.value, c.wip.value.id, root, wipTree, commit)
    requires root == if wipTree.Some? then wipTree.value else c.wip.value.currentTree
    ensures Step(s, s')
    ensures Settled(s', c.branch.value.id, c.wip.value.id, commit)
  {
    hide Readable, HeadAdvances, Step, Closed;
    var b := c.branch.value;
    CommitReachesHead(s.commits, s'.commits, b.commitHash, root, commit);
    HeadMoved(h, s, s', b.id, commit.hash);
  }

  /** The head of the branch is the commit, the wip is based on it and has its tree. */
  ghost predicate Settled(s: State, b: Id, w: Id, commit: Commit) {
    && b in s.branches && w in s.wips && commit.hash in s.commits && s.commits[commit.hash] == commit
    && s.branches[b].commitHash == commit.hash && s.wips[w].baseCommit == commit.hash
          && s.wips[w].currentTree == commit.treeHash
  }

  ghost function CacheAfter(c: Cache, root: Hash, commit: Commit): Cache
    requires c.branch.Some? && c.wip.Some?
  {
    c.(headTree := FollowsWip, branch := Some(c.branch.value.(commitHash := commit.hash)),
       wip := Some(c.wip.value.(currentTree := root, baseCommit := commit.hash)))
  }

  lemma CacheAfterCommit(h: Objects.Hasher, s: State, s': State, c: Cache, wipTree: Option<Hash>, root: Hash,
                         commit: Commit)
    requires RowsOk(h, s) && CacheOk(h, s, c) && c.state.InWip? && GraphOk(s.commits) && GraphOk(s'.commits)
    requires Committed(s, s', c.branch.value, c.wip.value.id, root, wipTree, commit) && Readable(h, s'.objects, root)
    requires root == if wipTree.Some? then wipTree.value else c.wip.value.currentTree
    ensures CacheOk(h, s', CacheAfter(c, root, commit))
    ensures Current(s, c) ==>
              Current(s', CacheAfter(c, root, commit)) && Step(s, s')
                  && Settled(s', c.branch.value.id, c.wip.value.id, commit)
  {
    hide Readable, Step, Closed;
    CacheStaysOk(h, s, s', c);
    if Current(s, c) {
      CommitSettles(h, s, s', c, wipTree, root, commit);
    }
  }

  /** The tree under a hash, after the edits, where they are accepted. */
  ghost function Edited(h: Objects.Hasher, objects: Objects.Store, hash: Hash, es: seq<Edit>): Option<Tree>
    requires SplitPaths(es)
  {
    if Readable(h, objects, hash) then RunTree(TreeAt(h, objects, hash), es) else None
  }

  /** The tree hash that headTree points to. */
  ghost function HeadTreeHash(c: Cache): Hash
    requires c.headTree.FollowsWip? ==> c.wip.Some?
  {
    match c.headTree
    case Unset => EMPTY_HASH
    case Fixed(hash) => hash
    case FollowsWip => c.wip.value.currentTree
  }

  /** A wip is checked out and the edits are accepted by the tree that headTree points to. */
  ghost predicate MayEdit(h: Objects.Hasher, s: State, c: Cache, es: seq<Edit>) {
    SplitPaths(es) && c.state.InWip? && (c.headTree.FollowsWip? ==> c.wip.Some?)
        && Edited(h, s.objects, HeadTreeHash(c), es).Some?
  }

  /** `root` stands for that tree after the edits. */
  ghost predicate EditedTo(h: Objects.Hasher, s: State, after: Objects.Store, c: Cache, es: seq<Edit>, root: Hash) {
    MayEdit(h, s, c, es) && TreeIs(h, after, root, Edited(h, s.objects, HeadTreeHash(c), es).value)
  }

  ghost predicate TreeIs(h: Objects.Hasher, objects: Objects.Store, hash: Hash, t: Tree) {
    Readable(h, objects, hash) && TreeAt(h, objects, hash) == t
  }

  /** The root hash of that tree after the edits. */
  ghost function EditedRoot(h: Objects.Hasher, s: State, c: Cache, es: seq<Edit>): Hash {
    if MayEdit(h, s, c, es) && Edited(h, s.objects, HeadTreeHash(c), es).value.Dir?
    then RootHash(h, Edited(h, s.objects, HeadTreeHash(c), es).value) else EMPTY_HASH
  }

  lemma EditedToRoot(h: Objects.Hasher, s: State, after: Objects.Store, c: Cache, es: seq<Edit>, root: Hash)
    requires EditedTo(h, s, after, c, es, root)
    ensures root == EditedRoot(h, s, c, es)
  {
    hide Readable, Edited;
  }

  /** The tree of a wip was set, and nothing else but the objects. */
  ghost predicate TreeSet(s: State, s': State, w: Id, root: Hash) {
    && s' == s.(objects := s'.objects, wips := SetWip(s.wips, w, Some(root), None))
    && Objects.Grows(s.objects, s'.objects)
  }

  ghost function CacheWithTree(c: Cache, headTree: HeadTree, root: Hash): Cache
    requires c.wip.Some?
  {
    c.(headTree := headTree, wip := Some(c.wip.value.(currentTree := root)))
  }

  lemma TreeSetKeeps(h: Objects.Hasher, s: State, s': State, c: Cache, headTree: HeadTree, root: Hash)
    requires RowsOk(h, s) && CacheOk(h, s, c) && c.state.InWip? && GraphOk(s.commits)
    requires TreeSet(s, s', c.wip.value.id, root) && Readable(h, s'.objects, root)
    requires headTree == c.headTree || headTree.FollowsWip?
    ensures RowsOk(h, s') && CacheOk(h, s', CacheWithTree(c, headTree, root))
    ensures Current(s, c) ==> Current(s', CacheWithTree(c, headTree, root)) && Step(s, s')
  {
    hide Readable, Step, GraphOk, BranchesOk, WipsOk;
    CacheStaysOk(h, s, s', c);
    WipsStayOk(h, s, s', c.wip.value.id, Some(root), None);
    SameBranchesOk(s, s');
    HeadsStayed(h, s, s');
  }

  lemma SameBranchesOk(s: State, s': State)
    requires BranchesOk(s) && s'.commits == s.commits && s'.branches == s.branches && s'.nextId >= s.nextId
    ensures BranchesOk(s')
  {
  }

  /** The tree of a head, or of the base of a wip; without a commit it is the empty tree. */
  ghost function HeadTreeOf(g: Graph, head: Hash): Hash
    requires HeadOk(g, head)
  {
    if head == EMPTY_HASH then EMPTY_HASH else g[head].treeHash
  }

  /** The revert of a wip is possible: its base and present tree are read from the tables. */
  ghost predicate MayRevert(h: Objects.Hasher, s: State, w: Wip, prefix: string) {
    && HeadOk(s.commits, w.baseCommit) && Readable(h, s.objects, HeadTreeOf(s.commits, w.baseCommit))
          && Readable(h, s.objects, w.currentTree)
    && (prefix == ""
        || CanRevert(h, TreeAt(h, s.objects, HeadTreeOf(s.commits, w.baseCommit)), TreeAt(h, s.objects, w.currentTree),
                     prefix))
  }

  /** `root` stands for the base tree; with a prefix, for the base tree at the paths below it
      that a difference looks at and the present tree elsewhere. */
  ghost predicate RevertedTo(h: Objects.Hasher, s: State, after: Objects.Store, w: Wip, prefix: string, root: Hash) {
    && MayRevert(h, s, w, prefix) && Readable(h, after, root)
    && var base, u := TreeAt(h, s.objects, HeadTreeOf(s.commits, w.baseCommit)), TreeAt(h, after, root);
       if prefix == "" then u == base else IsReverted(h, base, TreeAt(h, s.objects, w.currentTree), prefix, u)
  }

  lemma RevertedToBase(h: Objects.Hasher, s: State, w: Wip)
    requires Objects.CollisionFree(h) && TreesReadable(h, s.objects, s.commits) && WipOk(h, s, w)
    ensures Readable(h, s.objects, HeadTreeOf(s.commits, w.baseCommit)) && MayRevert(h, s, w, "")
    ensures RevertedTo(h, s, s.objects, w, "", HeadTreeOf(s.commits, w.baseCommit))
  {
    hide Readable;
    HeadReadable(h, s.objects, s.commits, w.baseCommit);
  }

  /** Revert below a prefix that is not empty. */
  method RevertBelow(trees: Objects.FileTreeRepo, w: Wip, prefix: string, baseTreeHash: Hash,
                     ghost s: State) returns (r: Result<Hash>)
    requires trees.Valid() && trees.objects == s.objects && WipOk(trees.hasher, s, w) && prefix != ""
    requires Readable(trees.hasher, trees.objects, baseTreeHash) && baseTreeHash == HeadTreeOf(s.commits, w.baseCommit)
    modifies trees
    ensures trees.Valid() && Objects.Grows(s.objects, trees.objects)
    ensures r.Ok? <==> MayRevert(trees.hasher, s, w, prefix)
    ensures r.Ok? ==> Readable(trees.hasher, trees.objects, r.value)
    ensures r.Ok? ==> RevertedTo(trees.hasher, s, trees.objects, w, prefix, r.value)
  {
    hide Objects.CollisionFree, Objects.StoreOk, CanRevert, IsReverted, Objects.Grows, Represents, Readable;
    ghost var h, objects := trees.hasher, trees.objects;
    ghost var u;
    r, u := RevertTree(trees, baseTreeHash, w.currentTree, prefix, TreeAt(h, objects, baseTreeHash),
                       TreeAt(h, objects, w.currentTree));
    if r.Ok? {
      TreeIsUnique(h, trees.objects, r.value, u);
    }
  }

  /** Open the tree under a hash and edit it. */
  method EditTreeAt(trees: Objects.FileTreeRepo, hash: Hash, es: seq<Edit>) returns (r: Result<Hash>)
    requires trees.Valid() && Readable(trees.hasher, trees.objects, hash) && EditsOk(trees.hasher, es)
    modifies trees
    ensures trees.Valid() && Objects.Grows(old(trees.objects), trees.objects)
    ensures r.Ok? <==> Edited(trees.hasher, old(trees.objects), hash, es).Some?
    ensures r.Ok? ==> Readable(trees.hasher, trees.objects, r.value)
    ensures r.Ok? ==>
              TreeIs(trees.hasher, trees.objects, r.value, Edited(trees.hasher, old(trees.objects), hash, es).value)
  {
    hide Objects.CollisionFree, Objects.StoreOk, Opens, CanonicalRoot, Represents, Readable, RunTree, Objects.Grows;
    ghost var tree := TreeAt(trees.hasher, trees.objects, hash);
    var workTree := new WorkTree(trees, hash, tree);
    var edited := RunEdits(workTree, es);
    if edited.Err? {
      return Err(edited.error);
    }
    workTree.RootRepresents();
    TreeIsUnique(trees.hasher, trees.objects, workTree.RootHash(), workTree.tree);
    return Ok(workTree.RootHash());
  }

  // --------------------------------------------------------- checkout and branches

  /** What can be checked out; tags are not part of this model. */
  datatype Ref = WipOf(branch: string) | BranchNamed(name: string) | CommitAt(hash: Hash)

  ghost predicate CanCheckOut(s: State, user: User, ref: Ref) {
    match ref
    case WipOf(name) => exists i :: i in s.branches && s.branches[i].name == name && HasWip(s, user.id, i)
    case BranchNamed(name) => HasBranch(s, name)
    case CommitAt(hash) => HeadOk(s.commits, hash)
  }

  /** The session after a checkout. An empty commit hash changes headTree alone. */
  ghost predicate CheckedOut(s: State, user: User, ref: Ref, before: Cache, after: Cache) {
    match ref
    case WipOf(name) =>
      && after.state.InWip? && after.branch.Some? && after.branch.value.name == name && after.wip.Some?
            && after.commit.None?
      && after.wip.value.creatorId == user.id && after.wip.value.refId == after.branch.value.id
      && after.headTree == Fixed(after.wip.value.currentTree) && Current(s, after)
    case BranchNamed(name) =>
      && after.state.InBranch? && after.branch.Some? && after.branch.value.name == name && after.wip.None?
      && Current(s, after)
      && var head := after.branch.value.commitHash;
         && (head == EMPTY_HASH ==> after.commit.None? && after.headTree == Fixed(EMPTY_HASH))
         && (head != EMPTY_HASH ==>
               head in s.commits && after.commit == Some(s.commits[head])
                   && after.headTree == Fixed(s.commits[head].treeHash))
    case CommitAt(hash) =>
      && (hash == EMPTY_HASH ==> after == before.(headTree := Fixed(EMPTY_HASH)))
      && (hash != EMPTY_HASH ==>
            hash in s.commits
                && after == Cache(InCommit, Fixed(s.commits[hash].treeHash), None, None, Some(s.commits[hash])))
  }

  ghost function CommitOf(g: Graph, head: Hash): Option<Commit> {
    if head in g && head != EMPTY_HASH then Some(g[head]) else None
  }

  lemma HeadCommit(g: Graph, head: Hash)
    requires GraphOk(g) && HeadOk(g, head)
    ensures CommitOf(g, head) == if head == EMPTY_HASH then None else Some(g[head])
  {
  }

  lemma BranchRow(s: State, b: Branch)
    requires BranchesOk(s) && b in s.branches.Values
    ensures b.id in s.branches && s.branches[b.id] == b && HeadOk(s.commits, b.commitHash) && b.id < s.nextId
  {
  }

  lemma OnlyBranch(s: State, b: Branch)
    requires BranchesOk(s) && b in s.branches.Values
    ensures forall i | i in s.branches && s.branches[i].name == b.name :: i == b.id
  {
  }

  lemma WipRow(h: Objects.Hasher, s: State, w: Wip)
    requires WipsOk(h, s) && w in s.wips.Values
    ensures w.id in s.wips && s.wips[w.id] == w && WipOk(h, s, w)
  {
  }

  lemma HeadReadable(h: Objects.Hasher, objects: Objects.Store, g: Graph, head: Hash)
    requires Objects.CollisionFree(h) && TreesReadable(h, objects, g) && HeadOk(g, head)
    ensures Readable(h, objects, HeadTreeOf(g, head)) && Readable(h, objects, EMPTY_HASH)
  {
    EmptyIsReadable(h, objects);
  }

  lemma OpenWip(h: Objects.Hasher, s: State, user: User, b: Branch, w: Wip, before: Cache)
    requires RowsOk(h, s) && b in s.branches.Values && w in s.wips.Values && w.creatorId == user.id && w.refId == b.id
    ensures var after := Cache(InWip, Fixed(w.currentTree), Some(w), Some(b), None);
            CacheOk(h, s, after) && CheckedOut(s, user, WipOf(b.name), before, after)
                && CanCheckOut(s, user, WipOf(b.name))
  {
    hide Readable;
    BranchRow(s, b);
    WipRow(h, s, w);
  }

  lemma NoWipToOpen(h: Objects.Hasher, s: State, user: User, b: Branch)
    requires RowsOk(h, s) && b in s.branches.Values && !HasWip(s, user.id, b.id)
    ensures !CanCheckOut(s, user, WipOf(b.name))
  {
    OnlyBranch(s, b);
  }

  lemma NoBranchToOpen(s: State, user: User, name: string)
    requires !HasBranch(s, name)
    ensures !CanCheckOut(s, user, WipOf(name)) && !CanCheckOut(s, user, BranchNamed(name))
  {
  }

  lemma OpenBranch(h: Objects.Hasher, s: State, user: User, b: Branch, before: Cache)
    requires RowsOk(h, s) && b in s.branches.Values && Objects.CollisionFree(h)
    requires TreesReadable(h, s.objects, s.commits) && GraphOk(s.commits)
    ensures HeadOk(s.commits, b.commitHash)
    ensures var after := Cache(InBranch, Fixed(HeadTreeOf(s.commits, b.commitHash)), None, Some(b),
                               CommitOf(s.commits, b.commitHash));
            CacheOk(h, s, after) && CheckedOut(s, user, BranchNamed(b.name), before, after)
                && CanCheckOut(s, user, BranchNamed(b.name))
  {
    hide Readable;
    BranchRow(s, b);
    HeadReadable(h, s.objects, s.commits, b.commitHash);
  }

  lemma CommitOpened(s: State, user: User, hash: Hash, before: Cache, after: Cache)
    requires HeadOk(s.commits, hash)
    requires after == if hash == EMPTY_HASH then before.(headTree := Fixed(EMPTY_HASH))
                      else Cache(InCommit, Fixed(s.commits[hash].treeHash), None, None, Some(s.commits[hash]))
    ensures CheckedOut(s, user, CommitAt(hash), before, after)
  {
  }

  lemma NoCommitToOpen(s: State, user: User, hash: Hash)
    requires !HeadOk(s.commits, hash)
    ensures !CanCheckOut(s, user, CommitAt(hash))
  {
  }

  lemma OpenCommit(h: Objects.Hasher, s: State, user: User, hash: Hash, before: Cache)
    requires CacheOk(h, s, before) && HeadOk(s.commits, hash)
    requires Objects.CollisionFree(h) && TreesReadable(h, s.objects, s.commits) && GraphOk(s.commits)
    ensures forall after | CheckedOut(s, user, CommitAt(hash), before, after) :: CacheOk(h, s, after)
    ensures CanCheckOut(s, user, CommitAt(hash))
  {
    hide Readable;
    HeadReadable(h, s.objects, s.commits, hash);
  }

  /** A row for a new wip on a branch. */
  lemma NewWipRow(h: Objects.Hasher, s: State, s': State, w: Wip)
    requires RowsOk(h, s) && GraphOk(s.commits) && s' == s.(wips := s.wips[w.id := w], nextId := s.nextId + 1)
    requires w.id == s.nextId && w.refId < s.nextId && HeadOk(s.commits, w.baseCommit)
    requires Readable(h, s.objects, w.currentTree)
    requires !HasWip(s, w.creatorId, w.refId)
    ensures RowsOk(h, s')
    ensures (w.refId in s.branches ==> s.branches[w.refId].commitHash == w.baseCommit) ==> Step(s, s')
  {
    hide Readable, GraphOk, Step;
    SameBranchesOk(s, s');
    GrowsReflexive(s.objects);
    if w.refId in s.branches ==> s.branches[w.refId].commitHash == w.baseCommit {
      HeadsStayed(h, s, s');
    }
  }

  /** The session on a new wip. */
  lemma NewWipCache(h: Objects.Hasher, s: State, s': State, w: Wip, c: Cache)
    requires RowsOk(h, s) && CacheOk(h, s, c) && c.state.InBranch?
    requires s' == s.(wips := s.wips[w.id := w], nextId := s.nextId + 1)
    requires w == Wip(s.nextId, c.branch.value.id, w.creatorId, HeadTreeOf(s.commits, c.branch.value.commitHash),
                      c.branch.value.commitHash)
    requires Readable(h, s.objects, w.currentTree) && !HasWip(s, w.creatorId, w.refId) && GraphOk(s.commits)
    ensures RowsOk(h, s') && CacheOk(h, s', Cache(InWip, FollowsWip, Some(w), c.branch, None))
    ensures Current(s, c) ==> Current(s', Cache(InWip, FollowsWip, Some(w), c.branch, None)) && Step(s, s')
  {
    hide Readable, Step, HasWip, GraphOk, RowsOk;
    NewWipRow(h, s, s', w);
  }

  lemma ExistingWip(h: Objects.Hasher, s: State, w: Wip, c: Cache)
    requires RowsOk(h, s) && CacheOk(h, s, c) && w in s.wips.Values
    ensures w.id in s.wips && s.wips[w.id] == w
    ensures CacheOk(h, s, c.(headTree := Fixed(w.currentTree)))
            && (Current(s, c) ==> Current(s, c.(headTree := Fixed(w.currentTree))))
  {
    hide Readable;
    WipRow(h, s, w);
  }

  lemma BranchCache(h: Objects.Hasher, objects: Objects.Store, s: State, c: Cache)
    requires CacheOk(h, s, c) && c.state.InBranch? && objects == s.objects
    requires Objects.CollisionFree(h) && TreesReadable(h, objects, s.commits)
    ensures c.branch.Some? && HeadOk(s.commits, c.branch.value.commitHash)
    ensures Readable(h, objects, HeadTreeOf(s.commits, c.branch.value.commitHash))
  {
    hide Readable;
    HeadReadable(h, objects, s.commits, c.branch.value.commitHash);
  }

  lemma NewBranchRow(h: Objects.Hasher, s: State, s': State, b: Branch)
    requires RowsOk(h, s) && GraphOk(s.commits) && s' == s.(branches := s.branches[b.id := b], nextId := s.nextId + 1)
    requires b.id == s.nextId && HeadOk(s.commits, b.commitHash) && !HasBranch(s, b.name)
    ensures RowsOk(h, s') && Step(s, s')
  {
    hide Readable, GraphOk, Step;
    GrowsReflexive(s.objects);
    HeadsStayed(h, s, s');
  }

  /** Rows left the tables, and nothing else happened. */
  lemma RowsGone(h: Objects.Hasher, s: State, s': State)
    requires RowsOk(h, s) && GraphOk(s.commits) && s' == s.(branches := s'.branches, wips := s'.wips)
    requires forall i | i in s'.branches :: i in s.branches && s'.branches[i] == s.branches[i]
    requires forall i | i in s'.wips :: i in s.wips && s'.wips[i] == s.wips[i]
    ensures RowsOk(h, s') && Step(s, s')
  {
    hide Readable, GraphOk, Step;
    GrowsReflexive(s.objects);
    HeadsStayed(h, s, s');
  }

  // ----------------------------------------------------------------------- merging

  /** A merge that a user asks for. */
  function MergingBy(user: User, msg: string, resolver: Resolver): Merging {
    Merging(Signature(user.name, user.email, 0), msg, resolver)
  }

  ghost predicate MergedOver(h: Objects.Hasher, s: State, s': State, source: Commit, target: Commit,
                             resolver: Resolver, c: Commit, over: Commit) {
    && Acyclic(s.commits) && source.hash in s.commits && target.hash in s.commits
    && AncestorFor(h, s'.objects, s.commits, s'.commits, source.hash, target.hash, over)
    && IsMergeCommit(h, s'.objects, s'.objects, over, source, target, resolver, c)
  }

  /** c joins the histories: a new commit with both parents on the merge over their best
      ancestor when the commits have diverged, and otherwise the later one of them. */
  ghost predicate Joined(h: Objects.Hasher, s: State, s': State, source: Option<Commit>, target: Option<Commit>,
                         resolver: Resolver, c: Commit) {
    && Known(s'.commits, Some(c))
    && (source.Some? ==> Reach(s'.commits, c.hash, source.value.hash))
    && (target.Some? ==> Reach(s'.commits, c.hash, target.value.hash))
    && if source.Some? && target.Some? && Diverged(s.commits, source.value.hash, target.value.hash)
       then c.hash !in s.commits && exists over :: MergedOver(h, s, s', source.value, target.value, resolver, c, over)
       else s'.commits == s.commits && (source == Some(c) || target == Some(c))
  }

  /** Why two commits that have diverged cannot be merged: the search for what to merge them
      over, from the present objects and commits, ends in an error, or what it finds is
      something that they do not merge over. */
  ghost predicate CannotMerge(h: Objects.Hasher, ch: CommitHasher, s: State, source: Commit, target: Commit,
                              how: Merging)
    requires Acyclic(s.commits) && source.hash in s.commits && target.hash in s.commits
  {
    && Diverged(s.commits, source.hash, target.hash)
    && exists o1: Objects.Store, g1: Graph, r: Result<Commit> ::
         Searched(h, ch, how.merger, s.objects, o1, s.commits, g1, source.hash, target.hash, r)
         && (r.Ok? ==> MergeFails(h, ch, o1, g1, r.value, source, target, how))
  }

  /** Of two commits that have diverged from one best common ancestor, the merge fails when
      their trees do not merge over it, or the hash of the merge is taken; without a common
      ancestor it fails. */
  lemma CannotMergeOverOne(h: Objects.Hasher, ch: CommitHasher, s: State, source: Commit, target: Commit, how: Merging)
    requires History(s.commits) && Known(s.commits, Some(source)) && Known(s.commits, Some(target))
    requires Diverged(s.commits, source.hash, target.hash)
    ensures forall x | SingleBest(s.commits, source.hash, target.hash, x) ::
              CannotMerge(h, ch, s, source, target, how)
              <==> MergeFails(h, ch, s.objects, s.commits, s.commits[x], source, target, how)
    ensures NothingInCommon(s.commits, source.hash, target.hash) ==> CannotMerge(h, ch, s, source, target, how)
  {
    hide Acyclic, Closed, Reach, Searched, MergeFails, BestCommonAncestor, NothingInCommon, SingleBest;
    var g, o, a, b := s.commits, s.objects, source.hash, target.hash;
    forall x | SingleBest(g, a, b, x)
      ensures x in g
      ensures CannotMerge(h, ch, s, source, target, how) <==> MergeFails(h, ch, o, g, g[x], source, target, how)
    {
      OneIsStored(g, a, b, x);
      forall o1, g1, r
        ensures Searched(h, ch, how.merger, o, o1, g, g1, a, b, r) <==> r == Ok(g[x]) && Unchanged(o, o1, g, g1)
      {
        SearchFinds(h, ch, how.merger, o, o1, g, g1, a, b, x, r);
      }
      if MergeFails(h, ch, o, g, g[x], source, target, how) {
        assert Searched(h, ch, how.merger, o, o, g, g, a, b, Ok(g[x]));
      }
    }
    if NothingInCommon(g, a, b) {
      SearchFails(h, ch, how.merger, o, o, g, g, a, b, Err(NoCommonAncestor));
      assert Searched(h, ch, how.merger, o, o, g, g, a, b, Err(NoCommonAncestor));
    }
  }

  lemma OneIsStored(g: Graph, a: Hash, b: Hash, x: Hash)
    requires SingleBest(g, a, b, x)
    ensures x in g
  {
  }

  /** And commits that were merged over one best common ancestor have trees that merge over
      it. */
  lemma JoinedOverOne(h: Objects.Hasher, s: State, s': State, source: Commit, target: Commit, resolver: Resolver,
                      c: Commit, x: Hash)
    requires History(s.commits) && Known(s.commits, Some(source)) && Known(s.commits, Some(target))
    requires Objects.CollisionFree(h) && TreesReadable(h, s.objects, s.commits)
    requires GraphGrows(s.commits, s'.commits) && Objects.Grows(s.objects, s'.objects)
    requires Joined(h, s, s', Some(source), Some(target), resolver, c) && Diverged(s.commits, source.hash, target.hash)
    requires SingleBest(s.commits, source.hash, target.hash, x)
    ensures TreesMerge(h, s.objects, s.commits[x], source, target, resolver)
  {
    hide Acyclic, Closed, Reach, BestCommonAncestor, TreesMerge, Readable, Objects.CollisionFree, Objects.Grows,
      Diverged;
    var over :| MergedOver(h, s, s', source, target, resolver, c, over);
    SearchCases(s.commits, source.hash, target.hash);
    OverIsSingle(h, s'.objects, s.commits, s'.commits, source.hash, target.hash, over, x);
    TreesMergePersists(h, s.objects, s'.objects, s.commits[x], source, target, resolver);
  }

  lemma OverIsSingle(h: Objects.Hasher, after: Objects.Store, g: Graph, g': Graph, a: Hash, b: Hash, over: Commit,
                     x: Hash)
    requires Acyclic(g) && a in g && b in g && AncestorFor(h, after, g, g', a, b, over) && GraphGrows(g, g')
    requires SingleBest(g, a, b, x)
    ensures over == g[x]
  {
    hide Reach, Acyclic, TheRank, BestCommonAncestor;
    SearchCases(g, a, b);
  }

  /** When one of two commits is in the history of the other, no virtual commit is made. */
  lemma FastForwardIsQuiet(h: Objects.Hasher, ch: CommitHasher, merger: Signature, o: Objects.Store, o': Objects.Store,
                           g: Graph, g': Graph, a: Hash, b: Hash, r: Result<Commit>)
    requires History(g) && a in g && b in g && Searched(h, ch, merger, o, o', g, g', a, b, r) && !Diverged(g, a, b)
    ensures r.Ok? && Unchanged(o, o', g, g')
  {
    hide Reach, Searched;
    if Reach(g, a, b) {
      AncestorIsBest(g, a, b);
      OnlyBase(g, a, b, b);
      SearchFinds(h, ch, merger, o, o', g, g', a, b, b, r);
    } else {
      AncestorIsBest(g, b, a);
      OnlyBase(g, a, b, a);
      SearchFinds(h, ch, merger, o, o', g, g', a, b, a, r);
    }
  }

  lemma OnlyBase(g: Graph, a: Hash, b: Hash, x: Hash)
    requires AreMergeBases(g, a, b, [x])
    ensures SingleBest(g, a, b, x)
  {
    hide Reach;
    assert x in [x];
    ReachStored(g, a, x);
  }

  lemma DivergedPersists(g: Graph, g': Graph, a: Hash, b: Hash)
    requires Closed(g) && GraphGrows(g, g') && a in g && b in g
    ensures Diverged(g', a, b) <==> Diverged(g, a, b)
  {
    ReachPersists(g, g', a, b);
    ReachPersists(g, g', b, a);
  }

  /** What finding the best ancestor and merging over it add up to. */
  lemma MergeJoins(h: Objects.Hasher, ch: CommitHasher, s: State, o1: Objects.Store, g1: Graph, s': State,
                   source: Option<Commit>, target: Option<Commit>, how: Merging, best: Commit, c: Commit)
    requires History(s.commits) && Closed(g1) && Closed(s'.commits) && Objects.CollisionFree(h)
    requires GraphGrows(s.commits, g1) && GraphGrows(g1, s'.commits) && Known(s.commits, source)
             && Known(s.commits, target)
    requires BestAncestor(h, ch, how.merger, s.objects, o1, s.commits, g1, source, target, Ok(best))
    requires Outcome(h, ch, o1, s'.objects, g1, s'.commits, best, source, target, how, Ok(c))
    ensures Joined(h, s, s', source, target, how.resolver, c)
    ensures c.hash !in s.commits ==> c.hash !in g1 && SignedBy(c, how.merger.name, how.merger.email, how.msg)
  {
    hide Searched, AncestorFor, Reach, IsMergeCommit, Objects.CollisionFree, Objects.Grows, Closed, Acyclic, HashedBy,
      SignedBy;
    MergeJoinsHistories(h, ch, o1, s'.objects, g1, s'.commits, best, source, target, how, c);
    if source.Some? && target.Some? {
      var a, b := source.value.hash, target.value.hash;
      DivergedPersists(s.commits, g1, a, b);
      if Diverged(s.commits, a, b) {
        GrowsReflexive(s'.objects);
        MergeCommitPersists(h, o1, s'.objects, s'.objects, best, source.value, target.value, how.resolver, c);
        SearchIsAncestor(h, ch, how.merger, s.objects, o1, s.commits, g1, a, b, Ok(best));
        AncestorPersists(h, o1, s'.objects, s.commits, g1, s'.commits, a, b, best);
        assert MergedOver(h, s, s', source.value, target.value, how.resolver, c, best);
      } else {
        FastForwardIsQuiet(h, ch, how.merger, s.objects, o1, s.commits, g1, a, b, Ok(best));
      }
    }
  }

  /** Why the merge of a commit into a head is refused: neither exists yet, or both do and
      cannot be merged. In all other cases the merge goes through. */
  ghost predicate MergeRefused(h: Objects.Hasher, ch: CommitHasher, s: State, toMerge: Hash, head: Hash, how: Merging) {
    var source, target := CommitOf(s.commits, toMerge), CommitOf(s.commits, head);
    if source.None? || target.None? then source.None? && target.None?
    else
      && Acyclic(s.commits) && source.value.hash in s.commits && target.value.hash in s.commits
      && CannotMerge(h, ch, s, source.value, target.value, how)
  }

  /** A failed search for the ancestor is a cause. */
  lemma SearchRefused(h: Objects.Hasher, ch: CommitHasher, s: State, o1: Objects.Store, g1: Graph, toMerge: Hash,
                      head: Hash, how: Merging, e: Error)
    requires History(s.commits) && GraphOk(s.commits)
    requires Known(s.commits, CommitOf(s.commits, toMerge)) && Known(s.commits, CommitOf(s.commits, head))
    requires BestAncestor(h, ch, how.merger, s.objects, o1, s.commits, g1, CommitOf(s.commits, toMerge),
                          CommitOf(s.commits, head), Err(e))
    ensures MergeRefused(h, ch, s, toMerge, head, how)
  {
    hide Searched, Diverged, Acyclic, Closed, MergeFails;
    var source, target := CommitOf(s.commits, toMerge), CommitOf(s.commits, head);
    if source.Some? && target.Some? && !Diverged(s.commits, source.value.hash, target.value.hash) {
      FastForwardIsQuiet(h, ch, how.merger, s.objects, o1, s.commits, g1, source.value.hash, target.value.hash, Err(e));
    }
  }

  /** And so is a failed merge over the ancestor that was found. */
  lemma OverRefused(h: Objects.Hasher, ch: CommitHasher, s: State, o1: Objects.Store, o2: Objects.Store, g1: Graph,
                    g2: Graph, toMerge: Hash, head: Hash, how: Merging, best: Commit, r: Result<Commit>)
    requires History(s.commits) && GraphOk(s.commits) && GraphGrows(s.commits, g1)
    requires Known(s.commits, CommitOf(s.commits, toMerge)) && Known(s.commits, CommitOf(s.commits, head))
    requires BestAncestor(h, ch, how.merger, s.objects, o1, s.commits, g1, CommitOf(s.commits, toMerge),
                          CommitOf(s.commits, head), Ok(best))
    requires Outcome(h, ch, o1, o2, g1, g2, best, CommitOf(s.commits, toMerge), CommitOf(s.commits, head), how, r)
             && r.Err?
    ensures MergeRefused(h, ch, s, toMerge, head, how)
  {
    hide Searched, Acyclic, Closed, Objects.Grows, Reach, TreesMerge, MergeTaken, MergeFails;
    var source, target := CommitOf(s.commits, toMerge), CommitOf(s.commits, head);
    if source.Some? && target.Some? {
      DivergedPersists(s.commits, g1, source.value.hash, target.value.hash);
      assert Searched(h, ch, how.merger, s.objects, o1, s.commits, g1, source.value.hash, target.value.hash, Ok(best));
    }
  }

  /** The outcome of a merge of commits that have diverged from one best common ancestor, in
      terms of the state before: it needs trees that merge over the ancestor, and then it
      goes through unless the hash of the merge is taken. */
  ghost predicate OverOneAsSaid(h: Objects.Hasher, ch: CommitHasher, s: State, toMerge: Hash, head: Hash, how: Merging,
                                ok: bool) {
    forall x | toMerge in s.commits && head in s.commits && Diverged(s.commits, toMerge, head)
        && SingleBest(s.commits, toMerge, head, x) ::
      var over, source, target := s.commits[x], s.commits[toMerge], s.commits[head];
      && (ok ==> TreesMerge(h, s.objects, over, source, target, how.resolver))
      && (!MergeFails(h, ch, s.objects, s.commits, over, source, target, how) ==> ok)
  }

  lemma RefusedAsSaid(h: Objects.Hasher, ch: CommitHasher, s: State, toMerge: Hash, head: Hash, how: Merging)
    requires History(s.commits) && GraphOk(s.commits) && MergeRefused(h, ch, s, toMerge, head, how)
    ensures OverOneAsSaid(h, ch, s, toMerge, head, how, false)
  {
    hide Acyclic, Closed, CannotMerge, SingleBest, Diverged, MergeFails;
    CommitOfKnown(s.commits, toMerge);
    CommitOfKnown(s.commits, head);
    forall x | toMerge in s.commits && head in s.commits && Diverged(s.commits, toMerge, head)
        && SingleBest(s.commits, toMerge, head, x)
      ensures x in s.commits
      ensures MergeFails(h, ch, s.objects, s.commits, s.commits[x], s.commits[toMerge], s.commits[head], how)
    {
      OneIsStored(s.commits, toMerge, head, x);
      HashOfRow(s.commits, toMerge);
      HashOfRow(s.commits, head);
      CannotMergeOverOne(h, ch, s, s.commits[toMerge], s.commits[head], how);
    }
  }

  lemma JoinedAsSaid(h: Objects.Hasher, ch: CommitHasher, s: State, s': State, toMerge: Hash, head: Hash, how: Merging,
                     c: Commit)
    requires History(s.commits) && GraphOk(s.commits)
    requires Objects.CollisionFree(h) && TreesReadable(h, s.objects, s.commits)
    requires GraphGrows(s.commits, s'.commits) && Objects.Grows(s.objects, s'.objects)
    requires Joined(h, s, s', CommitOf(s.commits, toMerge), CommitOf(s.commits, head), how.resolver, c)
    ensures OverOneAsSaid(h, ch, s, toMerge, head, how, true)
  {
    hide Acyclic, Closed, Joined, SingleBest, Diverged, TreesMerge, MergeTaken, Objects.CollisionFree, TreesReadable,
      Objects.Grows, GraphGrows;
    CommitOfKnown(s.commits, toMerge);
    CommitOfKnown(s.commits, head);
    forall x | toMerge in s.commits && head in s.commits && Diverged(s.commits, toMerge, head)
        && SingleBest(s.commits, toMerge, head, x)
      ensures x in s.commits
      ensures TreesMerge(h, s.objects, s.commits[x], s.commits[toMerge], s.commits[head], how.resolver)
    {
      OneIsStored(s.commits, toMerge, head, x);
      HashOfRow(s.commits, toMerge);
      HashOfRow(s.commits, head);
      JoinedOverOne(h, s, s', s.commits[toMerge], s.commits[head], how.resolver, c, x);
    }
  }

  lemma CommitOfKnown(g: Graph, head: Hash)
    requires GraphOk(g)
    ensures Known(g, CommitOf(g, head))
  {
  }

  lemma JoinedFrame(h: Objects.Hasher, s: State, s1: State, s2: State, source: Option<Commit>, target: Option<Commit>,
                    resolver: Resolver, c: Commit)
    requires Joined(h, s, s1, source, target, resolver, c) && s2.commits == s1.commits && s2.objects == s1.objects
    ensures Joined(h, s, s2, source, target, resolver, c)
  {
    hide Reach, AncestorFor, IsMergeCommit, Acyclic;
    if source.Some? && target.Some? && Diverged(s.commits, source.value.hash, target.value.hash) {
      var over :| MergedOver(h, s, s1, source.value, target.value, resolver, c, over);
      assert MergedOver(h, s, s2, source.value, target.value, resolver, c, over);
    }
  }

  /** A merge into the branch that is checked out. */
  lemma MergedHead(h: Objects.Hasher, s: State, s': State, c: Cache, source: Option<Commit>, resolver: Resolver,
                   commit: Commit)
    requires RowsOk(h, s) && CacheOk(h, s, c) && c.state.InBranch? && GraphOk(s.commits) && GraphOk(s'.commits)
    requires GraphGrows(s.commits, s'.commits) && Objects.Grows(s.objects, s'.objects) && s'.wips == s.wips
    requires s'.nextId == s.nextId
    requires s'.branches == MoveHead(s.branches, c.branch.value.id, commit.hash)
    requires Joined(h, s, s', source, CommitOf(s.commits, c.branch.value.commitHash), resolver, commit)
    ensures RowsOk(h, s') && CacheOk(h, s', c)
    ensures Current(s, c) ==> Step(s, s') && (Current(s', c) <==> commit.hash == c.branch.value.commitHash)
  {
    hide Readable, Step, GraphOk, BranchesOk, WipsOk, Reach;
    var b := c.branch.value;
    JoinedAdvances(h, s, s', source, b.commitHash, resolver, commit);
    BranchesStayOk(s, s', b.id, commit.hash);
    SameWipsOk(h, s, s');
    CacheStaysOk(h, s, s', c);
    if Current(s, c) {
      HeadMoved(h, s, s', b.id, commit.hash);
    }
  }

  lemma JoinedAdvances(h: Objects.Hasher, s: State, s': State, source: Option<Commit>, head: Hash,
                       resolver: Resolver, c: Commit)
    requires GraphOk(s.commits) && HeadOk(s.commits, head)
    requires Joined(h, s, s', source, CommitOf(s.commits, head), resolver, c)
    ensures HeadAdvances(s'.commits, head, c.hash) && c.hash in s'.commits
  {
  }

  lemma SameWipsOk(h: Objects.Hasher, s: State, s': State)
    requires WipsOk(h, s) && GraphGrows(s.commits, s'.commits) && Objects.Grows(s.objects, s'.objects)
    requires s'.wips == s.wips && s'.nextId == s.nextId
    ensures WipsOk(h, s')
  {
    hide Readable;
    forall i | i in s.wips ensures WipOk(h, s', s.wips[i]) {
      WipStaysOk(h, s, s', s.wips[i]);
    }
  }
}
