/** Merging commits: fast-forward, three-way merge, and the virtual ancestor of a
    criss-cross history (`merge` and `findBestAncestor` in versionmgr/work_repo.go). */
module CommitMerge {
  import opened Wrappers
  import opened Hashes
  import opened CommitGraph
  import opened CommitStore
  import opened MergeBase
  import opened MergeBaseLaws
  import opened Conflicts
  import opened FileMerge
  import opened ThreeWay
  import opened TreeModel
  import Objects

  /** Commits and trees of a repository in good order. */
  ghost predicate Sound(commits: CommitRepo, trees: Objects.FileTreeRepo)
    reads commits, trees
  {
    && commits.Valid() && trees.Valid()
    && TreesReadable(trees.hasher, trees.objects, commits.commits)
  }

  /** An optional commit that is stored. */
  ghost predicate Known(g: Graph, c: Option<Commit>) {
    c.Some? ==> c.value.hash in g && g[c.value.hash] == c.value
  }

  /** time.Now(): nothing is assumed about the clock. */
  method Now(who: Signature) returns (s: Signature)
    ensures s.name == who.name && s.email == who.email
  {
    var when: int := *;
    s := who.(when := when);
  }

  /** Neither commit is in the history of the other. */
  ghost predicate Diverged(g: Graph, a: Hash, b: Hash) {
    !Reach(g, a, b) && !Reach(g, b, a)
  }

  lemma CommitTreeReadable(h: Objects.Hasher, objects: Objects.Store, g: Graph, c: Commit)
    requires TreesReadable(h, objects, g) && Known(g, Some(c))
    ensures Readable(h, objects, c.treeHash)
  {
  }

  /** Who merges, with which message, and how conflicts are resolved. */
  datatype Merging = Merging(merger: Signature, msg: string, resolver: Resolver)

  /** The trees of three commits can be read. */
  ghost predicate ThreeReadable(h: Objects.Hasher, objects: Objects.Store, ancestor: Commit, source: Commit,
                                target: Commit) {
    Readable(h, objects, ancestor.treeHash) && Readable(h, objects, source.treeHash)
        && Readable(h, objects, target.treeHash)
  }

  /** The trees of three commits can be merged, and the differences to be merged are those of
      files. */
  ghost predicate TreesMerge(h: Objects.Hasher, objects: Objects.Store, ancestor: Commit, source: Commit,
                             target: Commit, resolver: Resolver) {
    && ThreeReadable(h, objects, ancestor, source, target)
    && var a, s, t := TreeAt(h, objects, ancestor.treeHash), TreeAt(h, objects, source.treeHash),
          TreeAt(h, objects, target.treeHash);
       TreesAlign(h, a, s, t) && CanMerge(a, s, t, resolver)
  }

  /** c is a commit on the merge of source and target over the ancestor. */
  ghost predicate IsMergeCommit(h: Objects.Hasher, objects: Objects.Store, objects': Objects.Store, ancestor: Commit,
                                source: Commit, target: Commit, resolver: Resolver, c: Commit) {
    && c.parentHashes == [source.hash, target.hash]
    && TreesMerge(h, objects, ancestor, source, target, resolver) && Readable(h, objects', c.treeHash)
    && IsMerge(TreeAt(h, objects, ancestor.treeHash), TreeAt(h, objects, source.treeHash),
               TreeAt(h, objects, target.treeHash),
               resolver, TreeAt(h, objects', c.treeHash))
  }

  /** The commit of the merged tree m that is made at this time has a hash that is taken. */
  ghost predicate MergeTakenAt(h: Objects.Hasher, ch: CommitHasher, g: Graph, source: Commit, target: Commit,
                               how: Merging, m: Tree, when: int) {
    var who := how.merger.(when := when);
    m.Dir? && TakenAs(ch, g, who, who, how.msg, RootHash(h, m), [source.hash, target.hash])
  }

  /** The commit of the merged tree, made at some time, has a hash that is taken. */
  ghost predicate MergeTaken(h: Objects.Hasher, ch: CommitHasher, objects: Objects.Store, g: Graph, ancestor: Commit,
                             source: Commit, target: Commit, how: Merging) {
    && ThreeReadable(h, objects, ancestor, source, target)
    && exists m: Tree, when: int :: MergeTakenAt(h, ch, g, source, target, how, m, when)
         && IsMerge(TreeAt(h, objects, ancestor.treeHash), TreeAt(h, objects, source.treeHash),
                    TreeAt(h, objects, target.treeHash), how.resolver, m)
  }

  /** The two commits cannot be merged over this ancestor: their trees do not merge, or the
      hash of the new commit is taken. */
  ghost predicate MergeFails(h: Objects.Hasher, ch: CommitHasher, objects: Objects.Store, g: Graph, ancestor: Commit,
                             source: Commit, target: Commit, how: Merging) {
    !TreesMerge(h, objects, ancestor, source, target, how.resolver)
        || MergeTaken(h, ch, objects, g, ancestor, source, target, how)
  }

  /** A new commit with its hash, made by this person with this message at one time. */
  ghost predicate IsNewCommit(ch: CommitHasher, g: Graph, g': Graph, how: Merging, c: Commit) {
    && c.hash !in g && c.hash != EMPTY_HASH && g' == g[c.hash := c] && HashedBy(ch, c)
    && SignedBy(c, how.merger.name, how.merger.email, how.msg) && c.committer == c.author
  }

  /** The outcome for two commits that have diverged: a new commit, or an error that leaves
      the commits alone. */
  ghost predicate DivergedOutcome(h: Objects.Hasher, ch: CommitHasher, objects: Objects.Store, objects': Objects.Store,
                                  g: Graph, g': Graph, ancestor: Commit, source: Commit, target: Commit, how: Merging,
                                  r: Result<Commit>) {
    && Objects.Grows(objects, objects')
    && match r
       case Ok(c) =>
         IsNewCommit(ch, g, g', how, c)
             && IsMergeCommit(h, objects, objects', ancestor, source, target, how.resolver, c)
       case Err(e) =>
         && g' == g && MergeFails(h, ch, objects, g, ancestor, source, target, how)
         && (TreesMerge(h, objects, ancestor, source, target, how.resolver) ==> e == CommitExists)
  }

  /** The outcome of merge. */
  ghost predicate Outcome(h: Objects.Hasher, ch: CommitHasher, objects: Objects.Store, objects': Objects.Store,
                          g: Graph, g': Graph, ancestor: Commit, source: Option<Commit>, target: Option<Commit>,
                          how: Merging, r: Result<Commit>) {
    if source.None? && target.None? then r == Err(NilCommit) && Unchanged(objects, objects', g, g')
    else if target.None? then r == Ok(source.value) && Unchanged(objects, objects', g, g')
    else if source.None? then r == Ok(target.value) && Unchanged(objects, objects', g, g')
    else if Reach(g, source.value.hash, target.value.hash) then r == Ok(source.value)
        && Unchanged(objects, objects', g, g')
    else if Reach(g, target.value.hash, source.value.hash) then r == Ok(target.value)
        && Unchanged(objects, objects', g, g')
    else DivergedOutcome(h, ch, objects, objects', g, g', ancestor, source.value, target.value, how, r)
  }

  ghost predicate Unchanged(objects: Objects.Store, objects': Objects.Store, g: Graph, g': Graph) {
    objects' == objects && g' == g
  }

  /** The part of merge after the fast-forward exits: merge the trees, insert the commit. */
  method MergeDiverged(commits: CommitRepo, trees: Objects.FileTreeRepo, bestAncestor: Commit, source: Commit,
                       target: Commit, how: Merging) returns (r: Result<Commit>)
    requires Sound(commits, trees) && ResolverChooses(how.resolver)
    requires Known(commits.commits, Some(bestAncestor)) && Known(commits.commits, Some(source))
    requires Known(commits.commits, Some(target))
    modifies commits, trees
    ensures Sound(commits, trees)
    ensures GraphGrows(old(commits.commits), commits.commits) && Objects.Grows(old(trees.objects), trees.objects)
    ensures DivergedOutcome(trees.hasher, commits.hasher, old(trees.objects), trees.objects, old(commits.commits),
                            commits.commits, bestAncestor, source, target, how, r)
  {
    hide CanMerge, IsMerge, TreesAlign, Readable, Represents, Objects.CollisionFree, Objects.StoreOk, Acyclic, Closed,
      NeverEmpty, Objects.Grows, TakenAs, HashedBy, MergeTaken;
    ghost var h, g := trees.hasher, commits.commits;
    CommitTreeReadable(h, trees.objects, g, bestAncestor);
    CommitTreeReadable(h, trees.objects, g, source);
    CommitTreeReadable(h, trees.objects, g, target);
    ghost var a, s, t := TreeAt(h, trees.objects, bestAncestor.treeHash), TreeAt(h, trees.objects, source.treeHash),
        TreeAt(h, trees.objects, target.treeHash);
    var merged;
    ghost var m;
    merged, m := MergeTrees(trees, bestAncestor.treeHash, source.treeHash, target.treeHash, how.resolver, a, s, t);
    TreesStayReadable(h, old(trees.objects), trees.objects, g);
    if merged.Err? {
      return Err(merged.error);
    }
    TreeIsUnique(h, trees.objects, merged.value, m);
    var author := Now(how.merger);
    r := commits.Insert(author, author, how.msg, merged.value, [source.hash, target.hash]);
    if r.Err? {
      HashIsTaken(h, commits.hasher, old(trees.objects), trees.objects, g, bestAncestor, source, target, how, m,
                  merged.value, author);
    }
  }

  lemma HashIsTaken(h: Objects.Hasher, ch: CommitHasher, objects: Objects.Store, objects': Objects.Store, g: Graph,
                    ancestor: Commit, source: Commit, target: Commit, how: Merging, m: Tree, root: Hash, who: Signature)
    requires ThreeReadable(h, objects, ancestor, source, target) && Represents(h, objects', root, m)
    requires IsMerge(TreeAt(h, objects, ancestor.treeHash), TreeAt(h, objects, source.treeHash),
                     TreeAt(h, objects, target.treeHash), how.resolver, m)
    requires who.name == how.merger.name && who.email == how.merger.email
    requires TakenAs(ch, g, who, who, how.msg, root, [source.hash, target.hash])
    ensures MergeTaken(h, ch, objects, g, ancestor, source, target, how)
  {
    hide IsMerge, Readable;
    assert who == how.merger.(when := who.when);
    assert MergeTakenAt(h, ch, g, source, target, how, m, who.when);
  }

  /** merge: nil inputs, fast-forward either way, or a new commit with both parents. */
  method Merge(commits: CommitRepo, trees: Objects.FileTreeRepo, bestAncestor: Commit, source: Option<Commit>,
               target: Option<Commit>, how: Merging) returns (r: Result<Commit>)
    requires Sound(commits, trees) && ResolverChooses(how.resolver)
    requires Known(commits.commits, Some(bestAncestor)) && Known(commits.commits, source)
             && Known(commits.commits, target)
    modifies commits, trees
    ensures Sound(commits, trees)
    ensures GraphGrows(old(commits.commits), commits.commits) && Objects.Grows(old(trees.objects), trees.objects)
    ensures Outcome(trees.hasher, commits.hasher, old(trees.objects), trees.objects, old(commits.commits),
                    commits.commits, bestAncestor, source, target, how, r)
  {
    hide DivergedOutcome, Reach, TreesReadable, Acyclic, Closed, NeverEmpty, Objects.CollisionFree, Objects.StoreOk;
    if source.None? && target.None? {
      return Err(NilCommit);
    }
    if target.None? {
      return Ok(source.value);
    }
    if source.None? {
      return Ok(target.value);
    }
    var mergeIsAncestorOfBase := IsAncestor(commits.commits, target.value.hash, source.value.hash);
    if mergeIsAncestorOfBase {
      return Ok(source.value);
    }
    var baseIsAncestorOfMerge := IsAncestor(commits.commits, source.value.hash, target.value.hash);
    if baseIsAncestorOfMerge {
      return Ok(target.value);
    }
    r := MergeDiverged(commits, trees, bestAncestor, source.value, target.value, how);
  }

  /** Whenever merge returns a commit, it is stored and has every input in its history; it is
      a new commit exactly when there are two inputs and neither is in the other's history. */
  lemma MergeJoinsHistories(h: Objects.Hasher, ch: CommitHasher, objects: Objects.Store, objects': Objects.Store,
                            g: Graph, g': Graph, ancestor: Commit, source: Option<Commit>, target: Option<Commit>,
                            how: Merging, c: Commit)
    requires Closed(g) && Closed(g') && Known(g, source) && Known(g, target)
    requires Outcome(h, ch, objects, objects', g, g', ancestor, source, target, how, Ok(c))
    ensures Known(g', Some(c)) && GraphGrows(g, g')
    ensures source.Some? ==> Reach(g', c.hash, source.value.hash)
    ensures target.Some? ==> Reach(g', c.hash, target.value.hash)
    ensures c.hash !in g <==> source.Some? && target.Some? && Diverged(g, source.value.hash, target.value.hash)
  {
    hide ReachThrough, TreesMerge, Readable, IsMerge, HashedBy, Objects.Grows;
    if source.Some? && target.Some? && Diverged(g, source.value.hash, target.value.hash) {
      ReachReflexive(g', c.hash);
      ReachParent(g', g'.Keys, c.hash, c.hash, source.value.hash);
      ReachParent(g', g'.Keys, c.hash, c.hash, target.value.hash);
    } else {
      ReachReflexive(g', c.hash);
    }
  }

  // ------------------------------------------------------------ the best ancestor

  ghost function TheRank(g: Graph): (rank: map<Hash, nat>)
    requires Acyclic(g)
    ensures Ranked(g, rank)
  {
    var rank :| Ranked(g, rank);
    rank
  }

  ghost function Age(g: Graph, c: Option<Commit>): nat
    requires Acyclic(g) && Known(g, c)
  {
    if c.None? then 0 else TheRank(g)[c.value.hash]
  }

  /** Two different commits that are both best common ancestors of a and b. */
  ghost predicate TwoBest(g: Graph, a: Hash, b: Hash, x: Hash, y: Hash) {
    BestCommonAncestor(g, a, b, x) && BestCommonAncestor(g, a, b, y) && x != y
  }

  /** x is the only best common ancestor. */
  ghost predicate SingleBest(g: Graph, a: Hash, b: Hash, x: Hash) {
    x in g && BestCommonAncestor(g, a, b, x) && forall y | BestCommonAncestor(g, a, b, y) :: y == x
  }

  ghost predicate NothingInCommon(g: Graph, a: Hash, b: Hash) {
    forall x :: !CommonAncestor(g, a, b, x)
  }

  lemma TwoBestAreOlder(g: Graph, a: Hash, b: Hash, x: Hash, y: Hash)
    requires Acyclic(g) && TwoBest(g, a, b, x, y)
    ensures a in g && b in g && x in g && y in g
    ensures TheRank(g)[x] < TheRank(g)[a] && TheRank(g)[y] < TheRank(g)[b]
  {
    hide Reach, TheRank, Ranked, Acyclic;
    var rank := TheRank(g);
    RankedIsStored(g, rank);
    ReachRank(g, rank, a, x);
    ReachRank(g, rank, b, x);
    ReachRank(g, rank, a, y);
    ReachRank(g, rank, b, y);
    assert !StrictlyReach(g, x, y) && !StrictlyReach(g, y, x);
  }

  lemma RankedIsStored(g: Graph, rank: map<Hash, nat>)
    requires Ranked(g, rank)
    ensures rank.Keys == g.Keys
  {
  }

  /** How the commit for a criss-cross history is made. */
  ghost function VirtualMerging(merger: Signature): Merging {
    Merging(merger, "virtual commit", Some(ForbidResolver))
  }

  /** A search that met two best common ancestors x and y ends: the search for theirs, which
      led to o1 and g1, failed, or they are merged over what it found. */
  ghost predicate VirtualEnd(h: Objects.Hasher, ch: CommitHasher, merger: Signature, o1: Objects.Store,
                             o2: Objects.Store, g: Graph, g1: Graph, g2: Graph, x: Hash, y: Hash, sub: Result<Commit>,
                             r: Result<Commit>) {
    && x in g && y in g
    && if sub.Err? then r == sub && Unchanged(o1, o2, g1, g2)
       else DivergedOutcome(h, ch, o1, o2, g1, g2, sub.value, g[x], g[y], VirtualMerging(merger), r)
  }

  /** The search for what a and b are merged over may end in r, with these objects and
      commits: nothing is made where there is one best common ancestor or none; of two or
      more, two are merged over what the same search finds for them. */
  ghost predicate Searched(h: Objects.Hasher, ch: CommitHasher, merger: Signature, o: Objects.Store, o': Objects.Store,
                           g: Graph, g': Graph, a: Hash, b: Hash, r: Result<Commit>)
    requires Acyclic(g) && a in g && b in g
    decreases TheRank(g)[a] + TheRank(g)[b]
  {
    || (NothingInCommon(g, a, b) && r == Err(NoCommonAncestor) && Unchanged(o, o', g, g'))
    || (r.Ok? && SingleBest(g, a, b, r.value.hash) && r.value == g[r.value.hash] && Unchanged(o, o', g, g'))
    || exists x: Hash, y: Hash, o1: Objects.Store, g1: Graph, sub: Result<Commit> ::
         TwoBest(g, a, b, x, y) && VirtualEnd(h, ch, merger, o1, o', g, g1, g', x, y, sub, r)
         && (TwoBestAreOlder(g, a, b, x, y); Searched(h, ch, merger, o, o1, g, g1, x, y, sub))
  }

  /** The cases of a search exclude one another. */
  lemma SearchCases(g: Graph, a: Hash, b: Hash)
    ensures NothingInCommon(g, a, b) ==> forall x :: !BestCommonAncestor(g, a, b, x)
    ensures forall x | SingleBest(g, a, b, x) :: forall y, z :: !TwoBest(g, a, b, y, z)
    ensures forall x, y | SingleBest(g, a, b, x) && SingleBest(g, a, b, y) :: x == y
  {
    hide Reach;
  }

  /** With one best common ancestor the search finds it and makes nothing. */
  lemma SearchFinds(h: Objects.Hasher, ch: CommitHasher, merger: Signature, o: Objects.Store, o': Objects.Store,
                    g: Graph, g': Graph, a: Hash, b: Hash, x: Hash, r: Result<Commit>)
    requires Acyclic(g) && Closed(g) && a in g && b in g && SingleBest(g, a, b, x)
    ensures Searched(h, ch, merger, o, o', g, g', a, b, r) <==> r == Ok(g[x]) && Unchanged(o, o', g, g')
  {
    hide Reach, Acyclic, TheRank, BestCommonAncestor, VirtualEnd;
    SearchCases(g, a, b);
  }

  lemma SearchFails(h: Objects.Hasher, ch: CommitHasher, merger: Signature, o: Objects.Store, o': Objects.Store,
                    g: Graph, g': Graph, a: Hash, b: Hash, r: Result<Commit>)
    requires Acyclic(g) && a in g && b in g && NothingInCommon(g, a, b)
    ensures Searched(h, ch, merger, o, o', g, g', a, b, r) <==> r == Err(NoCommonAncestor) && Unchanged(o, o', g, g')
  {
    hide Reach, Acyclic, TheRank, BestCommonAncestor, VirtualEnd;
    SearchCases(g, a, b);
  }

  /** c is a commit made for a criss-cross history: a new commit whose parents are the two
      best common ancestors x and y, on their merge over `over` with every conflict refused. */
  ghost predicate VirtualOver(h: Objects.Hasher, after: Objects.Store, g: Graph, a: Hash, b: Hash, c: Commit,
                              over: Commit, x: Hash, y: Hash) {
    && TwoBest(g, a, b, x, y) && x in g && y in g
    && c.hash !in g && c.message == "virtual commit"
    && IsMergeCommit(h, after, after, over, g[x], g[y], Some(ForbidResolver), c)
  }

  /** c is what a and b are merged over: their only best common ancestor, or the virtual
      commit of two of several, which themselves are merged over the one that is so for
      them. */
  ghost predicate AncestorFor(h: Objects.Hasher, after: Objects.Store, g: Graph, g': Graph, a: Hash, b: Hash, c: Commit)
    requires Acyclic(g) && a in g && b in g
    decreases TheRank(g)[a] + TheRank(g)[b]
  {
    && Known(g', Some(c))
    && (SingleBest(g, a, b, c.hash)
        || exists over: Commit, x: Hash, y: Hash :: VirtualOver(h, after, g, a, b, c, over, x, y)
             && (TwoBestAreOlder(g, a, b, x, y); AncestorFor(h, after, g, g', x, y, over)))
  }

  /** What a merge commit is of stays so while the store grows. */
  lemma MergeCommitPersists(h: Objects.Hasher, o1: Objects.Store, o2: Objects.Store, o3: Objects.Store, over: Commit,
                            x: Commit, y: Commit, resolver: Resolver, c: Commit)
    requires Objects.CollisionFree(h) && Objects.Grows(o1, o3) && Objects.Grows(o2, o3)
    requires IsMergeCommit(h, o1, o2, over, x, y, resolver, c)
    ensures IsMergeCommit(h, o3, o3, over, x, y, resolver, c)
  {
    hide CanMerge, IsMerge, TreesAlign, Readable, Objects.CollisionFree, Objects.Grows;
    TreePersists(h, o1, o3, over.treeHash);
    TreePersists(h, o1, o3, x.treeHash);
    TreePersists(h, o1, o3, y.treeHash);
    TreePersists(h, o2, o3, c.treeHash);
  }

  /** And trees that do not merge do not start to. */
  lemma TreesMergePersists(h: Objects.Hasher, o1: Objects.Store, o2: Objects.Store, over: Commit, x: Commit,
                           y: Commit, resolver: Resolver)
    requires Objects.CollisionFree(h) && Objects.Grows(o1, o2) && ThreeReadable(h, o1, over, x, y)
    ensures TreesMerge(h, o2, over, x, y, resolver) <==> TreesMerge(h, o1, over, x, y, resolver)
  {
    hide CanMerge, TreesAlign, Readable, Objects.CollisionFree, Objects.Grows;
    TreePersists(h, o1, o2, over.treeHash);
    TreePersists(h, o1, o2, x.treeHash);
    TreePersists(h, o1, o2, y.treeHash);
  }

  /** The ancestor that was found stays one while the stores grow. */
  lemma {:induction false} AncestorPersists(h: Objects.Hasher, o1: Objects.Store, o2: Objects.Store, g: Graph,
                                            g1: Graph, g2: Graph, a: Hash, b: Hash, c: Commit)
    requires Acyclic(g) && a in g && b in g && AncestorFor(h, o1, g, g1, a, b, c)
    requires Objects.CollisionFree(h) && Objects.Grows(o1, o2) && GraphGrows(g1, g2)
    ensures AncestorFor(h, o2, g, g2, a, b, c)
    decreases TheRank(g)[a] + TheRank(g)[b]
  {
    hide Acyclic, TheRank, BestCommonAncestor, TwoBest, IsMergeCommit, Objects.CollisionFree, Objects.Grows;
    if !SingleBest(g, a, b, c.hash) {
      var over: Commit, x: Hash, y: Hash :| VirtualOver(h, o1, g, a, b, c, over, x, y)
        && (TwoBestAreOlder(g, a, b, x, y); AncestorFor(h, o1, g, g1, x, y, over));
      TwoBestAreOlder(g, a, b, x, y);
      AncestorPersists(h, o1, o2, g, g1, g2, x, y, over);
      MergeCommitPersists(h, o1, o1, o2, over, g[x], g[y], Some(ForbidResolver), c);
      assert VirtualOver(h, o2, g, a, b, c, over, x, y);
    }
  }

  /** What a search finds is what a and b are merged over; on its way the stores only grow. */
  lemma {:induction false} SearchIsAncestor(h: Objects.Hasher, ch: CommitHasher, merger: Signature, o: Objects.Store,
                                            o': Objects.Store, g: Graph, g': Graph, a: Hash, b: Hash, r: Result<Commit>)
    requires Acyclic(g) && Closed(g) && a in g && b in g && Searched(h, ch, merger, o, o', g, g', a, b, r)
    requires Objects.CollisionFree(h)
    ensures Objects.Grows(o, o') && GraphGrows(g, g')
    ensures r.Ok? ==> AncestorFor(h, o', g, g', a, b, r.value)
    decreases TheRank(g)[a] + TheRank(g)[b]
  {
    hide Acyclic, Closed, TheRank, BestCommonAncestor, TwoBest, Objects.CollisionFree, Objects.Grows, NothingInCommon,
      VirtualEnd, AncestorFor, GraphGrows;
    if r.Ok? && SingleBest(g, a, b, r.value.hash) && r.value == g[r.value.hash] && Unchanged(o, o', g, g') {
      NothingGrew(o, g);
      SingleIsAncestor(h, o', g, a, b, r.value);
    } else if NothingInCommon(g, a, b) && r == Err(NoCommonAncestor) && Unchanged(o, o', g, g') {
      NothingGrew(o, g);
    } else {
      var x: Hash, y: Hash, o1: Objects.Store, g1: Graph, sub: Result<Commit> :|
        TwoBest(g, a, b, x, y) && VirtualEnd(h, ch, merger, o1, o', g, g1, g', x, y, sub, r)
        && (TwoBestAreOlder(g, a, b, x, y); Searched(h, ch, merger, o, o1, g, g1, x, y, sub));
      TwoBestAreOlder(g, a, b, x, y);
      SearchIsAncestor(h, ch, merger, o, o1, g, g1, x, y, sub);
      VirtualEndIsAncestor(h, ch, merger, o, o1, o', g, g1, g', a, b, x, y, sub, r);
    }
  }

  lemma NothingGrew(o: Objects.Store, g: Graph)
    ensures Objects.Grows(o, o) && GraphGrows(g, g)
  {
  }

  lemma OutcomeGrows(h: Objects.Hasher, ch: CommitHasher, o: Objects.Store, o1: Objects.Store, o2: Objects.Store,
                     g: Graph, g1: Graph, g2: Graph, over: Commit, x: Commit, y: Commit, how: Merging,
                     r: Result<Commit>)
    requires Objects.Grows(o, o1) && GraphGrows(g, g1) && DivergedOutcome(h, ch, o1, o2, g1, g2, over, x, y, how, r)
    ensures Objects.Grows(o, o2) && Objects.Grows(o1, o2) && GraphGrows(g, g2) && GraphGrows(g1, g2)
    ensures r.Ok? ==> Known(g2, Some(r.value)) && r.value.hash !in g && r.value.message == how.msg
    ensures r.Ok? ==> IsMergeCommit(h, o1, o2, over, x, y, how.resolver, r.value)
  {
    hide IsMergeCommit, MergeFails, TreesMerge, HashedBy, Objects.Grows;
    GrowsTransitive(o, o1, o2);
  }

  lemma VirtualEndIsAncestor(h: Objects.Hasher, ch: CommitHasher, merger: Signature, o: Objects.Store,
                             o1: Objects.Store, o2: Objects.Store, g: Graph, g1: Graph, g2: Graph, a: Hash, b: Hash,
                             x: Hash, y: Hash, sub: Result<Commit>, r: Result<Commit>)
    requires Acyclic(g) && a in g && b in g && TwoBest(g, a, b, x, y) && x in g && y in g
    requires Objects.CollisionFree(h) && Objects.Grows(o, o1) && GraphGrows(g, g1)
    requires sub.Ok? ==> AncestorFor(h, o1, g, g1, x, y, sub.value)
    requires VirtualEnd(h, ch, merger, o1, o2, g, g1, g2, x, y, sub, r)
    ensures Objects.Grows(o, o2) && GraphGrows(g, g2)
    ensures r.Ok? ==> AncestorFor(h, o2, g, g2, a, b, r.value)
  {
    hide Acyclic, TheRank, TwoBest, IsMergeCommit, Objects.CollisionFree, Objects.Grows, DivergedOutcome, AncestorFor,
      GraphGrows, Known;
    if sub.Ok? {
      OutcomeGrows(h, ch, o, o1, o2, g, g1, g2, sub.value, g[x], g[y], VirtualMerging(merger), r);
      if r.Ok? {
        AncestorPersists(h, o1, o2, g, g1, g2, x, y, sub.value);
        NothingGrew(o2, g2);
        MergeCommitPersists(h, o1, o2, o2, sub.value, g[x], g[y], Some(ForbidResolver), r.value);
        VirtualIsAncestor(h, o2, g, g2, a, b, r.value, sub.value, x, y);
      }
    }
  }

  lemma SingleIsAncestor(h: Objects.Hasher, after: Objects.Store, g: Graph, a: Hash, b: Hash, c: Commit)
    requires Acyclic(g) && a in g && b in g && SingleBest(g, a, b, c.hash) && c == g[c.hash]
    ensures AncestorFor(h, after, g, g, a, b, c)
  {
    hide Acyclic, TheRank, BestCommonAncestor;
  }

  lemma VirtualIsAncestor(h: Objects.Hasher, after: Objects.Store, g: Graph, g': Graph, a: Hash, b: Hash, c: Commit,
                          over: Commit, x: Hash, y: Hash)
    requires Acyclic(g) && a in g && b in g && x in g && y in g && AncestorFor(h, after, g, g', x, y, over)
    requires VirtualOver(h, after, g, a, b, c, over, x, y) && Known(g', Some(c))
    ensures AncestorFor(h, after, g, g', a, b, c)
  {
    hide Acyclic, TheRank, VirtualOver, BestCommonAncestor;
  }

  // --------------------------------------------------------------- findBestAncestor

  ghost predicate BestAncestor(h: Objects.Hasher, ch: CommitHasher, merger: Signature, o: Objects.Store,
                               o': Objects.Store, g: Graph, g': Graph, base: Option<Commit>, toMerge: Option<Commit>,
                               r: Result<Commit>)
    requires Acyclic(g) && Known(g, base) && Known(g, toMerge)
  {
    if base.None? && toMerge.None? then r == Err(NilCommit) && Unchanged(o, o', g, g')
    else if base.None? then r == Ok(toMerge.value) && Unchanged(o, o', g, g')
    else if toMerge.None? then r == Ok(base.value) && Unchanged(o, o', g, g')
    else Searched(h, ch, merger, o, o', g, g', base.value.hash, toMerge.value.hash, r)
  }

  lemma FewBases(h: Objects.Hasher, ch: CommitHasher, merger: Signature, o: Objects.Store, g: Graph, a: Hash, b: Hash,
                 best: seq<Hash>)
    requires Acyclic(g) && Closed(g) && a in g && b in g && AreMergeBases(g, a, b, best)
    ensures |best| == 0 ==> Searched(h, ch, merger, o, o, g, g, a, b, Err(NoCommonAncestor))
    ensures |best| == 1 ==> best[0] in g && Searched(h, ch, merger, o, o, g, g, a, b, Ok(g[best[0]]))
  {
    hide Reach, Ranked, Searched;
    if |best| == 1 {
      assert best[0] in best;
      ReachStored(g, a, best[0]);
      SearchFinds(h, ch, merger, o, o, g, g, a, b, best[0], Ok(g[best[0]]));
    } else if |best| == 0 {
      forall x ensures !BestCommonAncestor(g, a, b, x) {
        assert x !in best;
      }
      NoBestNothingInCommon(g, a, b);
      SearchFails(h, ch, merger, o, o, g, g, a, b, Err(NoCommonAncestor));
    }
  }

  lemma NoBestNothingInCommon(g: Graph, a: Hash, b: Hash)
    requires Acyclic(g) && forall x :: !BestCommonAncestor(g, a, b, x)
    ensures NothingInCommon(g, a, b)
  {
    hide Reach, Ranked;
    var rank :| Ranked(g, rank);
    if x :| CommonAncestor(g, a, b, x) {
      ReachRank(g, rank, a, x);
      var k := BestAbove(g, rank, a, b, x);
    }
  }

  lemma BasesStored(g: Graph, a: Hash, b: Hash, best: seq<Hash>)
    requires AreMergeBases(g, a, b, best) && Closed(g)
    ensures forall x | x in best :: Known(g, Some(g[x]))
    ensures forall x | x in best :: x in g && g[x].hash == x && BestCommonAncestor(g, a, b, x)
    ensures |best| > 1 ==> TwoBest(g, a, b, best[0], best[1])
  {
    hide Reach;
    forall x | x in best ensures x in g && BestCommonAncestor(g, a, b, x) {
      ReachStored(g, a, x);
    }
  }

  lemma BasesApart(g: Graph, a: Hash, b: Hash, x: Hash, y: Hash)
    requires TwoBest(g, a, b, x, y)
    ensures !Reach(g, x, y) && !Reach(g, y, x)
  {
    hide Reach;
    assert !StrictlyReach(g, x, y) && !StrictlyReach(g, y, x);
  }

  /** Two merge bases never fast-forward: their merge makes the virtual commit or fails, and
      that ends the search. */
  lemma VirtualMerge(h: Objects.Hasher, ch: CommitHasher, merger: Signature, o: Objects.Store, o1: Objects.Store,
                     o2: Objects.Store, g: Graph, g1: Graph, g2: Graph, a: Hash, b: Hash, x: Hash, y: Hash,
                     over: Commit, r: Result<Commit>)
    requires Acyclic(g) && Closed(g) && a in g && b in g && TwoBest(g, a, b, x, y) && x in g && y in g
    requires GraphGrows(g, g1) && Searched(h, ch, merger, o, o1, g, g1, x, y, Ok(over))
    requires Outcome(h, ch, o1, o2, g1, g2, over, Some(g[x]), Some(g[y]), VirtualMerging(merger), r)
    ensures Searched(h, ch, merger, o, o2, g, g2, a, b, r)
    ensures r.Ok? ==> Known(g2, Some(r.value)) && r.value.hash !in g
  {
    hide Reach, Closed, BestCommonAncestor, Acyclic, TheRank, Searched, DivergedOutcome;
    assert g[x].hash == x && g[y].hash == y by { HashOfRow(g, x); HashOfRow(g, y); }
    BasesApart(g, a, b, x, y);
    ReachPersists(g, g1, x, y);
    ReachPersists(g, g1, y, x);
    assert VirtualEnd(h, ch, merger, o1, o2, g, g1, g2, x, y, Ok(over), r);
    VirtualSearch(h, ch, merger, o, o1, o2, g, g1, g2, a, b, x, y, Ok(over), r);
    NothingGrew(o1, g);
    OutcomeGrows(h, ch, o1, o1, o2, g, g1, g2, over, g[x], g[y], VirtualMerging(merger), r);
  }

  lemma HashOfRow(g: Graph, x: Hash)
    requires Closed(g) && x in g
    ensures g[x].hash == x
  {
  }

  lemma VirtualSearch(h: Objects.Hasher, ch: CommitHasher, merger: Signature, o: Objects.Store, o1: Objects.Store,
                      o2: Objects.Store, g: Graph, g1: Graph, g2: Graph, a: Hash, b: Hash, x: Hash, y: Hash,
                      sub: Result<Commit>, r: Result<Commit>)
    requires Acyclic(g) && a in g && b in g && x in g && y in g && TwoBest(g, a, b, x, y)
    requires Searched(h, ch, merger, o, o1, g, g1, x, y, sub)
             && VirtualEnd(h, ch, merger, o1, o2, g, g1, g2, x, y, sub, r)
    ensures Searched(h, ch, merger, o, o2, g, g2, a, b, r)
  {
    hide Acyclic, TheRank, TwoBest, VirtualEnd, NothingInCommon, SingleBest;
  }

  /** findBestAncestor. It ends because the two commits it recurses on are strict ancestors
      of both arguments. */
  method FindBestAncestor(commits: CommitRepo, trees: Objects.FileTreeRepo, merger: Signature,
                          baseCommit: Option<Commit>, toMergeCommit: Option<Commit>) returns (r: Result<Commit>)
    requires Sound(commits, trees)
    requires Known(commits.commits, baseCommit) && Known(commits.commits, toMergeCommit)
    modifies commits, trees
    ensures Sound(commits, trees)
    ensures GraphGrows(old(commits.commits), commits.commits) && Objects.Grows(old(trees.objects), trees.objects)
    ensures r.Ok? ==> Known(commits.commits, Some(r.value))
    ensures BestAncestor(trees.hasher, commits.hasher, merger, old(trees.objects), trees.objects, old(commits.commits),
                         commits.commits, baseCommit, toMergeCommit, r)
    decreases Age(commits.commits, baseCommit) + Age(commits.commits, toMergeCommit)
  {
    hide Reach, NeverEmpty, Objects.CollisionFree, Objects.StoreOk, Ranked, Acyclic, Closed, Readable, Searched,
      AreMergeBases, TheRank, Outcome, TwoBest, DivergedOutcome;
    if baseCommit.None? && toMergeCommit.None? {
      return Err(NilCommit);
    }
    if baseCommit.None? {
      return Ok(toMergeCommit.value);
    }
    if toMergeCommit.None? {
      return Ok(baseCommit.value);
    }
    var a, b := baseCommit.value.hash, toMergeCommit.value.hash;
    ghost var o, g, h, ch := trees.objects, commits.commits, trees.hasher, commits.hasher;
    var best := MergeBase.MergeBase(commits.commits, a, b);
    FewBases(h, ch, merger, o, g, a, b, best);
    if |best| == 0 {
      return Err(NoCommonAncestor);
    }
    BasesStored(g, a, b, best);
    if |best| == 1 {
      return Ok(commits.commits[best[0]]);
    }
    var first, second := commits.commits[best[0]], commits.commits[best[1]];
    TwoBestAreOlder(g, a, b, best[0], best[1]);
    var sub := FindBestAncestor(commits, trees, merger, Some(first), Some(second));
    ghost var o1, g1 := trees.objects, commits.commits;
    if sub.Err? {
      VirtualSearch(h, ch, merger, o, o1, o1, g, g1, g1, a, b, first.hash, second.hash, sub, sub);
      return Err(sub.error);
    }
    ResolversChoose(true, map[]);
    r := Merge(commits, trees, sub.value, Some(first), Some(second),
               Merging(merger, "virtual commit", Some(ForbidResolver)));
    VirtualMerge(h, ch, merger, o, o1, trees.objects, g, g1, commits.commits, a, b, first.hash, second.hash, sub.value,
                 r);
  }
}
