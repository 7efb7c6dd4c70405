/** Requests from stale caches (Merge and CommitChanges in versionmgr/work_repo.go): a second
    merge in one session, and a commit in a second session, start from the head that was
    cached, and can lose what was done since. */
module StaleSessions {
  import opened Wrappers
  import opened Hashes
  import opened CommitGraph
  import opened CommitStore
  import opened CommitMerge
  import opened MergeBase
  import opened FileMerge
  import opened ThreeWay
  import opened Tables
  import opened SessionSpec
  import opened Sessions
  import Objects

  lemma ReachViaParent(g: Graph, a: Hash, b: Hash) returns (p: Hash)
    requires Reach(g, a, b) && a != b
    ensures a in g && p in g[a].parentHashes && Reach(g, p, b)
  {
    var c :| ChainFromTo(g, g.Keys, c, a, b);
    p := c[1];
    assert ChainFromTo(g, g.Keys, c[1..], p, b);
  }

  /** Merge leaves the cached branch at its old head. A second merge from the same session
      then starts from that old head: the branch keeps what the first merge brought, c1,
      exactly when the second merged commit has it in its own history. */
  lemma SecondMergeForgets(h: Objects.Hasher, s: State, s': State, head: Commit, c1: Hash, source: Commit,
                           resolver: Resolver, c2: Commit)
    requires History(s.commits) && Closed(s'.commits) && GraphGrows(s.commits, s'.commits)
    requires Known(s.commits, Some(head)) && Known(s.commits, Some(source)) && StrictlyReach(s.commits, c1, head.hash)
    requires Joined(h, s, s', Some(source), Some(head), resolver, c2)
    ensures Reach(s'.commits, c2.hash, c1) <==> Reach(s.commits, source.hash, c1)
  {
    hide ReachThrough, AncestorFor, Acyclic, TreesMerge;
    ReachIsStored(s.commits, s.commits.Keys, c1, head.hash);
    ReachPersists(s.commits, s'.commits, source.hash, c1);
    ReachPersists(s.commits, s'.commits, head.hash, c1);
    if Reach(s.commits, head.hash, c1) {
      ReachAntisymmetric(s.commits, head.hash, c1);
    }
    if Reach(s.commits, source.hash, c1) {
      ReachTransitive(s'.commits, s'.commits.Keys, c2.hash, source.hash, c1);
    }
    if Diverged(s.commits, source.hash, head.hash) && Reach(s'.commits, c2.hash, c1) {
      var p := ReachViaParent(s'.commits, c2.hash, c1);
    }
  }

  /** Whether what the first merge brings into a branch with this head is still in the
      branch after the second: the first one moved nothing, or it fast-forwarded to a commit
      that is in the history of the second. A merge commit made by the first is lost. */
  ghost predicate Kept(g: Graph, head: Hash, first: Hash, second: Hash) {
    || first == EMPTY_HASH
    || (head != EMPTY_HASH && Reach(g, head, first))
    || (second != EMPTY_HASH && (head == EMPTY_HASH || Reach(g, first, head)) && Reach(g, second, first))
  }

  lemma JoinedOne(h: Objects.Hasher, s: State, s': State, source: Option<Commit>, target: Option<Commit>,
                  resolver: Resolver, c: Commit)
    requires Joined(h, s, s', source, target, resolver, c) && (source.None? || target.None?)
    ensures source == Some(c) || target == Some(c)
  {
  }

  /** A merge that moves no head returns the head, one that fast-forwards its source, and
      any other a new commit. */
  lemma JoinedTwo(h: Objects.Hasher, s: State, s': State, source: Commit, target: Commit, resolver: Resolver, c: Commit)
    requires History(s.commits) && Known(s.commits, Some(source)) && Known(s.commits, Some(target))
    requires Joined(h, s, s', Some(source), Some(target), resolver, c)
    ensures Reach(s.commits, target.hash, source.hash) ==> c == target
    ensures !Reach(s.commits, target.hash, source.hash) && Reach(s.commits, source.hash, target.hash) ==> c == source
    ensures !Reach(s.commits, target.hash, source.hash) && !Reach(s.commits, source.hash, target.hash) ==>
              c.hash !in s.commits
  {
    hide Reach, Acyclic, MergedOver;
    if Reach(s.commits, target.hash, source.hash) && c == source {
      ReachAntisymmetric(s.commits, target.hash, source.hash);
    }
    if Reach(s.commits, source.hash, target.hash) && c == target {
      assert s'.commits == s.commits || c.hash !in s.commits;
    }
  }

  /** What two merges in a row leave of the first, in terms of the history before them. */
  lemma TwoMerges(h: Objects.Hasher, s: State, s1: State, s2: State, head: Hash, first: Hash, second: Hash,
                  resolver: Resolver,
                  c1: Commit, c2: Commit)
    requires History(s.commits) && GraphOk(s.commits) && History(s1.commits) && Closed(s2.commits)
    requires GraphGrows(s.commits, s1.commits) && GraphGrows(s1.commits, s2.commits) && EMPTY_HASH !in s1.commits
    requires HeadOk(s.commits, head) && HeadOk(s.commits, first) && HeadOk(s.commits, second)
    requires Joined(h, s, s1, CommitOf(s.commits, first), CommitOf(s.commits, head), resolver, c1)
    requires Joined(h, s1, s2, CommitOf(s1.commits, second), CommitOf(s1.commits, head), resolver, c2)
    ensures Reach(s2.commits, c2.hash, c1.hash) <==> Kept(s.commits, head, first, second)
  {
    hide Reach, Acyclic, Joined, Closed;
    FirstMerge(h, s, s1, head, first, resolver, c1);
    SecondMerge(h, s1, s2, head, second, resolver, c1, c2);
    if head != EMPTY_HASH {
      ReachPersists(s.commits, s1.commits, head, c1.hash);
    }
    if second != EMPTY_HASH {
      ReachPersists(s.commits, s1.commits, second, c1.hash);
      if Reach(s.commits, second, c1.hash) {
        ReachStored(s.commits, second, c1.hash);
      }
    }
    if head != EMPTY_HASH {
      ReachReflexive(s.commits, head);
    }
  }

  /** Where the first merge leads. */
  lemma FirstMerge(h: Objects.Hasher, s: State, s1: State, head: Hash, first: Hash, resolver: Resolver, c1: Commit)
    requires History(s.commits) && GraphOk(s.commits) && HeadOk(s.commits, head) && HeadOk(s.commits, first)
    requires Joined(h, s, s1, CommitOf(s.commits, first), CommitOf(s.commits, head), resolver, c1)
    ensures c1.hash in s1.commits && (head != EMPTY_HASH ==> Reach(s1.commits, c1.hash, head))
    ensures first == EMPTY_HASH ==> c1.hash == head && head != EMPTY_HASH
    ensures first != EMPTY_HASH && head == EMPTY_HASH ==> c1.hash == first
    ensures first != EMPTY_HASH && head != EMPTY_HASH ==>
              if Reach(s.commits, head, first) then c1.hash == head
              else if Reach(s.commits, first, head) then c1.hash == first else c1.hash !in s.commits
  {
    hide Reach, Acyclic, MergedOver;
    var source, target := CommitOf(s.commits, first), CommitOf(s.commits, head);
    CommitOfKnown(s.commits, first);
    CommitOfKnown(s.commits, head);
    if source.None? || target.None? {
      JoinedOne(h, s, s1, source, target, resolver, c1);
    } else {
      JoinedTwo(h, s, s1, source.value, target.value, resolver, c1);
    }
  }

  /** What the second merge, from the old head, reaches. */
  lemma SecondMerge(h: Objects.Hasher, s: State, s': State, head: Hash, second: Hash, resolver: Resolver, c1: Commit,
                    c2: Commit)
    requires History(s.commits) && EMPTY_HASH !in s.commits && Closed(s'.commits) && GraphGrows(s.commits, s'.commits)
    requires HeadOk(s.commits, head) && HeadOk(s.commits, second) && c1.hash in s.commits
    requires head != EMPTY_HASH ==> Reach(s.commits, c1.hash, head)
    requires Joined(h, s, s', CommitOf(s.commits, second), CommitOf(s.commits, head), resolver, c2)
    ensures Reach(s'.commits, c2.hash, c1.hash) <==>
              || (head != EMPTY_HASH && c1.hash == head)
              || (second != EMPTY_HASH && Reach(s.commits, second, c1.hash))
  {
    hide Reach, Acyclic, MergedOver;
    var source, target := CommitOf(s.commits, second), CommitOf(s.commits, head);
    CommitOfKnown(s.commits, second);
    CommitOfKnown(s.commits, head);
    if source.Some? && target.Some? {
      if c1.hash == head {
        ReachPersists(s.commits, s'.commits, head, c1.hash);
      } else {
        SecondMergeForgets(h, s, s', target.value, c1.hash, source.value, resolver, c2);
      }
    } else {
      JoinedOne(h, s, s', source, target, resolver, c2);
      if source.Some? {
        ReachPersists(s.commits, s'.commits, second, c1.hash);
      } else {
        OnlyDown(s.commits, s'.commits, head, c1.hash);
      }
    }
  }

  /** A head reaches a commit above it only when they are the same. */
  lemma OnlyDown(g: Graph, g': Graph, head: Hash, c1: Hash)
    requires History(g) && GraphGrows(g, g') && head in g && Reach(g, c1, head)
    ensures Reach(g', head, c1) <==> c1 == head
  {
    hide Reach, Acyclic;
    ReachPersists(g, g', head, c1);
    ReachReflexive(g, head);
    if Reach(g, head, c1) {
      ReachAntisymmetric(g, head, c1);
    }
  }

  /** Two merges in one session. The row ends at the second commit. Over the history between
      the calls, which may have the commits that the first one made, what the first merge
      brought is in the history of the end exactly when it was the head already or the second
      merged commit reaches it; so merging the first result itself keeps it. Over the history
      before the calls, this is what Kept says. */
  method MergeTwice(session: WorkRepository, first: Hash, second: Hash, msg: string, resolver: Resolver)
    returns (r1: Result<Commit>, r2: Result<Commit>, ghost between: State)
    requires session.Valid() && session.state.InBranch? && Current(session.repo.Now(), session.Cached())
    requires ResolverChooses(resolver)
    modifies session.repo, session.repo.commits, session.repo.trees
    ensures session.Valid() && session.branch.Some? && session.branch.value.id in session.repo.branches
    ensures r1.Ok? && r2.Ok? ==> session.repo.branches[session.branch.value.id].commitHash == r2.value.hash
    ensures r1.Ok? && r2.Ok? ==>
      (Reach(session.repo.commits.commits, r2.value.hash, r1.value.hash)
       <==> r1.value.hash == session.branch.value.commitHash
            || (second != EMPTY_HASH && Reach(between.commits, second, r1.value.hash)))
    ensures r1.Ok? && r2.Ok? && second == r1.value.hash ==>
              Reach(session.repo.commits.commits, r2.value.hash, r1.value.hash)
    ensures r1.Ok? && r2.Ok? && HeadOk(old(session.repo.commits.commits), second) ==>
      (Reach(session.repo.commits.commits, r2.value.hash, r1.value.hash)
       <==> Kept(old(session.repo.commits.commits), session.branch.value.commitHash, first, second))
    ensures r1.Err? && HeadOk(old(session.repo.commits.commits), first) ==>
      MergeRefused(session.repo.trees.hasher, session.repo.commits.hasher, old(session.repo.Now()), first,
                   session.branch.value.commitHash, MergingBy(session.operator, msg, resolver))
    ensures r2.Err? && HeadOk(between.commits, second) ==>
      MergeRefused(session.repo.trees.hasher, session.repo.commits.hasher, between, second,
                   session.branch.value.commitHash, MergingBy(session.operator, msg, resolver))
  {
    hide RowsOk, CacheOk, Reach, Closed, Acyclic, NeverEmpty, Objects.CollisionFree, Objects.StoreOk, Joined, Kept,
      Step, TreesReadable, MergeRefused, OverOneAsSaid;
    SessionFacts(session.repo.trees.hasher, session.repo.Now(), session.Cached());
    ghost var h, s, head := session.repo.trees.hasher, session.repo.Now(), session.branch.value.commitHash;
    SoundGraph(session.repo.commits, session.repo.trees);
    r1 := session.Merge(first, msg, resolver);
    between := session.repo.Now();
    SoundGraph(session.repo.commits, session.repo.trees);
    r2 := session.Merge(second, msg, resolver);
    ghost var s2 := session.repo.Now();
    SoundGraph(session.repo.commits, session.repo.trees);
    if r1.Ok? && r2.Ok? {
      AfterTwo(h, s, between, s2, head, first, second, resolver, r1.value, r2.value);
      if HeadOk(s.commits, second) {
        TwoMerges(h, s, between, s2, head, first, second, resolver, r1.value, r2.value);
      }
    }
  }

  /** What the second merge reaches, over the history between the two. */
  lemma AfterTwo(h: Objects.Hasher, s: State, s1: State, s2: State, head: Hash, first: Hash, second: Hash,
                 resolver: Resolver, c1: Commit, c2: Commit)
    requires History(s.commits) && GraphOk(s.commits) && History(s1.commits) && Closed(s2.commits)
    requires GraphGrows(s.commits, s1.commits) && GraphGrows(s1.commits, s2.commits) && EMPTY_HASH !in s1.commits
    requires HeadOk(s.commits, head) && HeadOk(s.commits, first) && HeadOk(s1.commits, second)
    requires Joined(h, s, s1, CommitOf(s.commits, first), CommitOf(s.commits, head), resolver, c1)
    requires Joined(h, s1, s2, CommitOf(s1.commits, second), CommitOf(s1.commits, head), resolver, c2)
    ensures Reach(s2.commits, c2.hash, c1.hash)
            <==> c1.hash == head || (second != EMPTY_HASH && Reach(s1.commits, second, c1.hash))
    ensures second == c1.hash ==> Reach(s2.commits, c2.hash, c1.hash)
  {
    hide Reach, Acyclic, Joined, Closed;
    FirstMerge(h, s, s1, head, first, resolver, c1);
    SecondMerge(h, s1, s2, head, second, resolver, c1, c2);
    ReachReflexive(s1.commits, c1.hash);
  }

  lemma SessionFacts(h: Objects.Hasher, s: State, c: Cache)
    requires CacheOk(h, s, c) && c.state.InBranch? && Current(s, c)
    ensures c.branch.Some? && HeadOk(s.commits, c.branch.value.commitHash) && c.branch.value.id in s.branches
  {
  }

  // ------------------------------------------------------------------- a merge lost

  /** Two children of one commit. */
  ghost predicate Fork(g: Graph, r: Hash, x: Hash, y: Hash) {
    && r in g && x in g && y in g && x != y && r != EMPTY_HASH
    && g[x].parentHashes == [r] && g[y].parentHashes == [r]
  }

  lemma ForkReach(g: Graph, r: Hash, x: Hash, y: Hash)
    requires History(g) && Fork(g, r, x, y)
    ensures Reach(g, x, r) && Reach(g, y, r) && !Reach(g, r, x) && !Reach(g, r, y) && !Reach(g, y, x)
    ensures x != EMPTY_HASH && y != EMPTY_HASH ==> !Kept(g, r, x, y)
  {
    hide ReachThrough, Acyclic;
    ReachReflexive(g, x);
    ReachReflexive(g, y);
    ReachParent(g, g.Keys, x, x, r);
    ReachParent(g, g.Keys, y, y, r);
    NoLoop(g, x, r);
    NoLoop(g, y, r);
    if Reach(g, y, x) {
      var p := ReachViaParent(g, y, x);
    }
  }

  lemma NoLoop(g: Graph, child: Hash, p: Hash)
    requires History(g) && child in g && p in g[child].parentHashes && Reach(g, child, p)
    ensures !Reach(g, p, child)
  {
    var rank :| Ranked(g, rank);
    if Reach(g, p, child) {
      ReachRank(g, rank, p, child);
    }
  }

  /** A fast-forward is never refused. */
  lemma FastForwardGoes(h: Objects.Hasher, ch: CommitHasher, s: State, toMerge: Hash, head: Hash, how: Merging)
    requires GraphOk(s.commits) && toMerge != EMPTY_HASH && head != EMPTY_HASH && toMerge in s.commits
             && head in s.commits
    requires Reach(s.commits, toMerge, head)
    ensures !MergeRefused(h, ch, s, toMerge, head, how)
  {
    hide Reach, Acyclic, Searched;
  }

  /** With a branch on the parent of a fork checked out, both merges get through: the first
      moves the branch to x, the second moves it to y, which does not have x. */
  method LoseAMerge(session: WorkRepository, x: Hash, y: Hash, msg: string, resolver: Resolver)
    returns (ghost between: Hash)
    requires session.Valid() && session.state.InBranch? && Current(session.repo.Now(), session.Cached())
    requires ResolverChooses(resolver)
    requires session.branch.Some? && Fork(session.repo.commits.commits, session.branch.value.commitHash, x, y)
    modifies session.repo, session.repo.commits, session.repo.trees
    ensures session.Valid() && session.branch.Some? && session.branch.value.id in session.repo.branches
    ensures between == x && session.repo.branches[session.branch.value.id].commitHash == y
    ensures !Reach(session.repo.commits.commits, y, x)
  {
    hide RowsOk, CacheOk, Reach, Closed, Acyclic, NeverEmpty, Objects.CollisionFree, Objects.StoreOk, Joined, Kept,
      Step, TreesReadable, MergeRefused, OverOneAsSaid;
    SessionFacts(session.repo.trees.hasher, session.repo.Now(), session.Cached());
    ghost var h, ch, s, head := session.repo.trees.hasher, session.repo.commits.hasher, session.repo.Now(),
        session.branch.value.commitHash;
    ghost var how := MergingBy(session.operator, msg, resolver);
    SoundGraph(session.repo.commits, session.repo.trees);
    ForkReach(s.commits, head, x, y);
    FastForwardGoes(h, ch, s, x, head, how);
    var r1 := session.Merge(x, msg, resolver);
    ghost var s1 := session.repo.Now();
    FirstMerge(h, s, s1, head, x, resolver, r1.value);
    FastForwardStays(h, s, s1, head, x, resolver, r1.value);
    between := session.repo.branches[session.branch.value.id].commitHash;
    SoundGraph(session.repo.commits, session.repo.trees);
    FastForwardGoes(h, ch, s1, y, head, how);
    var r2 := session.Merge(y, msg, resolver);
    FirstMerge(h, s1, session.repo.Now(), head, y, resolver, r2.value);
    FastForwardStays(h, s1, session.repo.Now(), head, y, resolver, r2.value);
  }

  /** A fast-forward makes no commit. */
  lemma FastForwardStays(h: Objects.Hasher, s: State, s': State, head: Hash, first: Hash, resolver: Resolver, c: Commit)
    requires GraphOk(s.commits) && head in s.commits && first in s.commits && Reach(s.commits, first, head)
    requires Joined(h, s, s', CommitOf(s.commits, first), CommitOf(s.commits, head), resolver, c)
    ensures s'.commits == s.commits
  {
    hide Reach, Acyclic, MergedOver;
  }

  /** Such a fork, in full. */
  lemma SmallestFork()
    ensures var who := Signature("", "", 0);
            var g := map["r" := Commit("r", who, who, "", EMPTY_HASH, []),
                         "x" := Commit("x", who, who, "", EMPTY_HASH, ["r"]),
                         "y" := Commit("y", who, who, "", EMPTY_HASH, ["r"])];
            History(g) && Fork(g, "r", "x", "y") && !Kept(g, "r", "x", "y") && !Kept(g, "r", "y", "x")
  {
    hide Kept;
    var who := Signature("", "", 0);
    var g := map["r" := Commit("r", who, who, "", EMPTY_HASH, []), "x" := Commit("x", who, who, "", EMPTY_HASH, ["r"]),
                 "y" := Commit("y", who, who, "", EMPTY_HASH, ["r"])];
    var rank: map<Hash, nat> := map["r" := 0, "x" := 1, "y" := 1];
    assert Ranked(g, rank);
    ForkReach(g, "r", "x", "y");
    ForkReach(g, "r", "y", "x");
  }

  // ------------------------------------------------------------------ a commit lost

  /** A commit on a head that was cached before another commit was made does not have it in
      its history. */
  lemma CommitForgets(g: Graph, g1: Graph, g2: Graph, head: Hash, root: Hash, c1: Commit, c2: Commit)
    requires Closed(g) && Closed(g1) && Closed(g2) && HeadOk(g, head) && GraphGrows(g, g1)
    requires c1.hash in g1 && c1.hash !in g && CommitOn(g1, g2, head, root, c2)
    ensures !Reach(g2, c2.hash, c1.hash)
  {
    hide ReachThrough, Closed;
    if Reach(g2, c2.hash, c1.hash) {
      var p := ReachViaParent(g2, c2.hash, c1.hash);
      ReachPersists(g1, g2, head, c1.hash);
      ReachPersists(g, g1, head, c1.hash);
      ReachIsStored(g, g.Keys, head, c1.hash);
    }
  }

  /** Two sessions that have each checked out a wip on one branch commit, the second without
      a new checkout. Each gets through whenever its wip is based on the head that it has
      cached, unless the hash is taken, whatever the other did; if both get through, the
      branch ends at the second commit, which does not have the first in its history. */
  method CommitTwice(session: WorkRepository, other: WorkRepository, msg: string, otherMsg: string)
    returns (r1: Result<Commit>, r2: Result<Commit>)
    requires session.Valid() && other.Valid() && session != other && session.repo == other.repo
    requires session.state.InWip? && other.state.InWip? && session.branch.value.id == other.branch.value.id
    requires session.branch.value.id in session.repo.branches
    modifies session, other, session.repo, session.repo.commits
    ensures session.repo.Valid() && other.Valid()
    ensures r1.Err? ==>
      || old(session.branch.value.commitHash != session.wip.value.baseCommit)
      || CommitTaken(session.repo.commits.hasher, old(session.repo.commits.commits), session.operator, msg,
                     old(session.wip.value.currentTree), old(session.branch.value.commitHash))
    ensures r2.Ok? ==> old(other.branch.value.commitHash == other.wip.value.baseCommit)
    ensures r2.Err? ==>
      || old(other.branch.value.commitHash != other.wip.value.baseCommit)
      || CommitTaken(session.repo.commits.hasher, session.repo.commits.commits, other.operator, otherMsg,
                     old(other.wip.value.currentTree), old(other.branch.value.commitHash))
    ensures r1.Ok? && r2.Ok? ==>
      && old(session.branch.value.id) in session.repo.branches
      && session.repo.branches[old(session.branch.value.id)].commitHash == r2.value.hash
      && r1.value.hash in session.repo.commits.commits
      && !Reach(session.repo.commits.commits, r2.value.hash, r1.value.hash)
  {
    hide RowsOk, Reach, Acyclic, Closed, NeverEmpty, Objects.CollisionFree, Objects.StoreOk, Step, TreesReadable,
      Settled, CommitTaken, Readable, CacheOk, Current, HashedBy;
    ghost var repo, s, h := session.repo, session.repo.Now(), session.repo.trees.hasher;
    ghost var c := other.Cached();
    CacheInWip(h, s, c);
    ghost var head := other.branch.value.commitHash;
    SoundGraph(repo.commits, repo.trees);
    r1 := session.CommitChanges(msg);
    ghost var s1 := repo.Now();
    SoundGraph(repo.commits, repo.trees);
    GrowsReflexive(s.objects);
    CacheStaysOk(h, s, s1, c);
    r2 := other.CommitChanges(otherMsg);
    SoundGraph(repo.commits, repo.trees);
    if r1.Ok? && r2.Ok? {
      CommitForgets(s.commits, s1.commits, repo.commits.commits, head, r2.value.treeHash, r1.value, r2.value);
    }
  }
}
