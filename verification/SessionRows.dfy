/** What the requests of a session do to the rows of the tables, for a session that works on
    current rows: which columns of which rows get which values, and when. */
module SessionRows {
  import opened Wrappers
  import opened Hashes
  import opened CommitGraph
  import opened CommitStore
  import opened CommitMerge
  import opened FileMerge
  import opened TreeModel
  import opened TreeUpdates
  import opened WorkNodes
  import opened WorkTrees
  import opened WorkTreeRuns
  import opened Paths
  import opened TrieChanges
  import opened Reverts
  import opened Tables
  import opened SessionSpec
  import Objects

  /** A wip is checked out, the cached rows are current, and headTree points to the tree of
      the wip, as after a checkout of the wip. */
  ghost predicate OnWipTree(s: State, c: Cache) {
    && c.state.InWip? && c.wip.Some? && c.branch.Some? && Current(s, c)
    && (c.headTree == FollowsWip || c.headTree == Fixed(c.wip.value.currentTree))
  }

  // ----------------------------------------------------------------------- edits

  /** One wip got another tree, objects may have come, and nothing else changed. */
  ghost predicate OnlyTreeSet(s: State, s': State, w: Id) {
    && w in s.wips && w in s'.wips && Objects.Grows(s.objects, s'.objects)
    && s' == s.(objects := s'.objects,
                wips := s.wips[w := s.wips[w].(currentTree := s'.wips[w].currentTree)])
  }

  /** The tree of the wip accepts the edits. */
  ghost predicate RowTakes(h: Objects.Hasher, s: State, w: Id, es: seq<Edit>) {
    && w in s.wips && SplitPaths(es) && Readable(h, s.objects, s.wips[w].currentTree)
    && RunTree(TreeAt(h, s.objects, s.wips[w].currentTree), es).Some?
  }

  /** `root` stands for the tree of the wip after the edits. */
  ghost predicate RowGives(h: Objects.Hasher, s: State, w: Id, es: seq<Edit>, after: Objects.Store, root: Hash) {
    && RowTakes(h, s, w, es) && Readable(h, after, root)
    && TreeAt(h, after, root) == RunTree(TreeAt(h, s.objects, s.wips[w].currentTree), es).value
  }

  /** The wip has its tree after the edits. */
  ghost predicate RowEdited(h: Objects.Hasher, s: State, s': State, w: Id, es: seq<Edit>) {
    OnlyTreeSet(s, s', w) && RowGives(h, s, w, es, s'.objects, s'.wips[w].currentTree)
  }

  lemma OnWipMayEdit(h: Objects.Hasher, s: State, c: Cache, es: seq<Edit>)
    requires OnWipTree(s, c) && CacheOk(h, s, c) && SplitPaths(es)
    ensures MayEdit(h, s, c, es) <==> RowTakes(h, s, c.wip.value.id, es)
  {
    hide Readable, RunTree;
  }

  lemma OnWipEdited(h: Objects.Hasher, s: State, after: Objects.Store, c: Cache, es: seq<Edit>, root: Hash)
    requires OnWipTree(s, c) && CacheOk(h, s, c) && EditedTo(h, s, after, c, es, root)
    ensures RowGives(h, s, c.wip.value.id, es, after, root)
  {
    hide Readable, RunTree;
  }

  lemma FollowsOnWip(s: State, c: Cache)
    requires c.state.InWip? && c.wip.Some? && c.branch.Some? && c.headTree.FollowsWip? && Current(s, c)
    ensures OnWipTree(s, c)
  {
  }

  lemma CurrentOnWip(s: State, c: Cache)
    requires OnWipTree(s, c)
    ensures Current(s, c)
  {
  }

  /** A tree that was set, in terms of the rows. */
  lemma TreeSetRow(s: State, s': State, c: Cache, root: Hash)
    requires Current(s, c) && c.wip.Some? && TreeSet(s, s', c.wip.value.id, root)
    ensures OnlyTreeSet(s, s', c.wip.value.id) && s'.wips[c.wip.value.id].currentTree == root
  {
  }

  /** ChangeInWip on current rows. */
  lemma EditsOnRows(h: Objects.Hasher, s: State, s': State, c: Cache, es: seq<Edit>, root: Hash)
    requires OnWipTree(s, c) && CacheOk(h, s, c) && TreeSet(s, s', c.wip.value.id, root)
    requires EditedTo(h, s, s'.objects, c, es, root) && Current(s', CacheWithTree(c, FollowsWip, root))
    ensures RowEdited(h, s, s', c.wip.value.id, es) && OnWipTree(s', CacheWithTree(c, FollowsWip, root))
  {
    hide CacheOk, Current, TreeSet, OnlyTreeSet, RowGives, EditedTo;
    TreeSetRow(s, s', c, root);
    OnWipEdited(h, s, s'.objects, c, es, root);
  }

  // --------------------------------------------------------------------- reverts

  /** The revert of a wip to the base tree under `base` can be carried out. */
  ghost predicate BaseReverts(h: Objects.Hasher, s: State, w: Wip, base: Hash, prefix: string) {
    && Readable(h, s.objects, base) && Readable(h, s.objects, w.currentTree)
    && CanRevert(h, TreeAt(h, s.objects, base), TreeAt(h, s.objects, w.currentTree), prefix)
  }

  ghost predicate RowReverts(h: Objects.Hasher, s: State, w: Id, prefix: string) {
    && w in s.wips
    && (prefix == ""
        || (s.wips[w].baseCommit == EMPTY_HASH && BaseReverts(h, s, s.wips[w], EMPTY_HASH, prefix))
        || (s.wips[w].baseCommit != EMPTY_HASH && s.wips[w].baseCommit in s.commits
            && BaseReverts(h, s, s.wips[w], s.commits[s.wips[w].baseCommit].treeHash, prefix)))
  }

  /** `root` has the base's files below the prefix and the present ones elsewhere; nothing
      below a relabelled directory is taken back. */
  ghost predicate FilesReverted(h: Objects.Hasher, s: State, w: Wip, from: Hash, prefix: string, after: Objects.Store,
                                root: Hash) {
    && BaseReverts(h, s, w, from, prefix) && Readable(h, after, root)
    && var base, cur, u := TreeAt(h, s.objects, from), TreeAt(h, s.objects, w.currentTree), TreeAt(h, after, root);
       && CanonicalRoot(u)
       && forall p ::
            Lookup(u, p)
            == if prefix <= JoinPath(p) && Visible(h, base, cur, p) then Lookup(base, p) else Lookup(cur, p)
  }

  /** The wip has the tree of its base, or with a prefix the files of its base below it. */
  ghost predicate RowReverted(h: Objects.Hasher, s: State, s': State, w: Id, prefix: string) {
    && OnlyTreeSet(s, s', w)
    && var row, root := s.wips[w], s'.wips[w].currentTree;
       if row.baseCommit == EMPTY_HASH then
         if prefix == "" then root == EMPTY_HASH && s'.objects == s.objects
         else FilesReverted(h, s, row, EMPTY_HASH, prefix, s'.objects, root)
       else
         && row.baseCommit in s.commits
         && if prefix == "" then root == s.commits[row.baseCommit].treeHash && s'.objects == s.objects
            else FilesReverted(h, s, row, s.commits[row.baseCommit].treeHash, prefix, s'.objects, root)
  }

  lemma MayRevertRow(h: Objects.Hasher, s: State, w: Wip, prefix: string)
    requires w.id in s.wips && s.wips[w.id] == w && WipOk(h, s, w) && Objects.CollisionFree(h)
    requires TreesReadable(h, s.objects, s.commits)
    ensures MayRevert(h, s, w, prefix) <==> RowReverts(h, s, w.id, prefix)
  {
    hide Readable, CanRevert;
    HeadReadable(h, s.objects, s.commits, w.baseCommit);
  }

  lemma FilesTaken(h: Objects.Hasher, s: State, w: Wip, base: Hash, prefix: string, after: Objects.Store, root: Hash)
    requires BaseReverts(h, s, w, base, prefix) && Readable(h, after, root)
    requires IsReverted(h, TreeAt(h, s.objects, base), TreeAt(h, s.objects, w.currentTree), prefix,
                        TreeAt(h, after, root))
    ensures FilesReverted(h, s, w, base, prefix, after, root)
  {
    hide Readable, CanRevert, Lookup, Visible, CanonicalRoot, JoinPath, Represents;
  }

  lemma CurrentMayRevert(h: Objects.Hasher, s: State, c: Cache, prefix: string)
    requires Current(s, c) && CacheOk(h, s, c) && c.wip.Some? && Objects.CollisionFree(h)
    requires TreesReadable(h, s.objects, s.commits)
    ensures MayRevert(h, s, c.wip.value, prefix) <==> RowReverts(h, s, c.wip.value.id, prefix)
  {
    hide WipOk, MayRevert, RowReverts, TreesReadable;
    MayRevertRow(h, s, c.wip.value, prefix);
  }

  /** Revert on current rows. */
  lemma RevertOnRows(h: Objects.Hasher, s: State, s': State, c: Cache, prefix: string, root: Hash)
    requires Current(s, c) && c.wip.Some? && CacheOk(h, s, c) && TreeSet(s, s', c.wip.value.id, root)
    requires RevertedTo(h, s, s'.objects, c.wip.value, prefix, root)
    requires prefix == "" ==> root == HeadTreeOf(s.commits, c.wip.value.baseCommit) && s'.objects == s.objects
    ensures RowReverted(h, s, s', c.wip.value.id, prefix)
  {
    hide Readable, CanRevert, IsReverted, TreeSet, FilesReverted, OnlyTreeSet, CacheOk;
    TreeSetRow(s, s', c, root);
    if prefix != "" {
      FilesTaken(h, s, c.wip.value, HeadTreeOf(s.commits, c.wip.value.baseCommit), prefix, s'.objects, root);
    }
    assert OnlyTreeSet(s, s', c.wip.value.id) && s.wips[c.wip.value.id] == c.wip.value;
  }

  // --------------------------------------------------------------------- commits

  /** A new commit of a tree, made by the user on the head of branch b, became the head, and
      the wip w, which was based on the old head, is based on it and has its tree. */
  ghost predicate RowCommitted(s: State, s': State, b: Id, w: Id, who: User, msg: string, root: Hash, c: Commit) {
    && b in s.branches && w in s.wips && s.wips[w].baseCommit == s.branches[b].commitHash
    && c.hash !in s.commits && c.hash != EMPTY_HASH && c.treeHash == root && SignedBy(c, who.name, who.email, msg)
    && (s.branches[b].commitHash == EMPTY_HASH ==> c.parentHashes == [])
    && (s.branches[b].commitHash != EMPTY_HASH ==> c.parentHashes == [s.branches[b].commitHash])
    && Objects.Grows(s.objects, s'.objects)
    && s' == State(s.commits[c.hash := c], s'.objects, s.branches[b := s.branches[b].(commitHash := c.hash)],
                   s.wips[w := s.wips[w].(currentTree := root, baseCommit := c.hash)], s.nextId)
  }

  /** A commit on current rows. */
  lemma CommitOnRows(s: State, s': State, c: Cache, who: User, msg: string, wipTree: Option<Hash>, root: Hash,
                     commit: Commit)
    requires Current(s, c) && c.wip.Some? && c.branch.Some? && c.wip.value.baseCommit == c.branch.value.commitHash
    requires Committed(s, s', c.branch.value, c.wip.value.id, root, wipTree, commit)
    requires root == if wipTree.Some? then wipTree.value else c.wip.value.currentTree
    requires SignedBy(commit, who.name, who.email, msg)
    ensures RowCommitted(s, s', c.branch.value.id, c.wip.value.id, who, msg, root, commit)
  {
    hide SignedBy, Objects.Grows;
  }

  /** Why the edits of a wip are not committed: the wip is not based on the head, its tree
      does not accept them, or the hash of the user's commit of the result is taken. */
  ghost predicate RowCommitRefused(h: Objects.Hasher, ch: CommitHasher, s: State, b: Id, w: Id, who: User, msg: string,
                                   es: seq<Edit>) {
    && b in s.branches && w in s.wips
    && (s.wips[w].baseCommit != s.branches[b].commitHash
        || !RowTakes(h, s, w, es)
        || (var edited := RunTree(TreeAt(h, s.objects, s.wips[w].currentTree), es).value;
            edited.Dir? && CommitTaken(ch, s.commits, who, msg, RootHash(h, edited), s.branches[b].commitHash)))
  }

  lemma StaleRefused(h: Objects.Hasher, ch: CommitHasher, s: State, c: Cache, who: User, msg: string, es: seq<Edit>)
    requires OnWipTree(s, c) && c.branch.value.commitHash != c.wip.value.baseCommit
    ensures RowCommitRefused(h, ch, s, c.branch.value.id, c.wip.value.id, who, msg, es)
  {
    hide RowTakes, CommitTaken;
  }

  lemma EditsRefused(h: Objects.Hasher, ch: CommitHasher, s: State, c: Cache, who: User, msg: string, es: seq<Edit>)
    requires OnWipTree(s, c) && CacheOk(h, s, c) && SplitPaths(es) && !MayEdit(h, s, c, es)
    ensures RowCommitRefused(h, ch, s, c.branch.value.id, c.wip.value.id, who, msg, es)
  {
    hide RowTakes, CommitTaken, MayEdit, CacheOk;
    OnWipMayEdit(h, s, c, es);
  }

  lemma HashRefused(h: Objects.Hasher, ch: CommitHasher, s: State, after: Objects.Store, c: Cache, who: User,
                    msg: string, es: seq<Edit>, root: Hash)
    requires OnWipTree(s, c) && CacheOk(h, s, c) && EditedTo(h, s, after, c, es, root)
    requires CommitTaken(ch, s.commits, who, msg, root, c.branch.value.commitHash)
    ensures RowCommitRefused(h, ch, s, c.branch.value.id, c.wip.value.id, who, msg, es)
  {
    hide CommitTaken, EditedTo, CacheOk, Readable, RunTree;
    OnWipEdited(h, s, after, c, es, root);
    RootOf(h, after, root);
  }

  lemma RootOf(h: Objects.Hasher, objects: Objects.Store, root: Hash)
    requires Readable(h, objects, root)
    ensures TreeAt(h, objects, root).Dir? && RootHash(h, TreeAt(h, objects, root)) == root
  {
  }

  // ---------------------------------------------------------------------- merges

  /** The head of branch b became a commit that joins it with another; commits and objects
      came, and no other row changed. */
  ghost predicate RowMerged(h: Objects.Hasher, s: State, s': State, b: Id, who: User, toMerge: Hash, msg: string,
                            resolver: Resolver, c: Commit) {
    && b in s.branches && HeadOk(s.commits, toMerge)
    && GraphGrows(s.commits, s'.commits) && Objects.Grows(s.objects, s'.objects)
    && s' == State(s'.commits, s'.objects, s.branches[b := s.branches[b].(commitHash := c.hash)], s.wips, s.nextId)
    && Joined(h, s, s', CommitOf(s.commits, toMerge), CommitOf(s.commits, s.branches[b].commitHash), resolver, c)
    && (c.hash !in s.commits ==> SignedBy(c, who.name, who.email, msg))
  }
}
