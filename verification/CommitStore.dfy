/** The commit table, and the trees that its commits refer to (models/commit.go). */
module CommitStore {
  import opened Wrappers
  import opened Hashes
  import opened CommitGraph
  import opened TreeModel
  import opened TreeUpdates
  import Objects

  /** What GetHash feeds to the hasher. */
  datatype CommitContent = CommitContent(author: Signature, committer: Signature, message: string, treeHash: Hash,
                                         parentHashes: seq<Hash>)

  type CommitHasher = CommitContent -> Hash

  /** A digest is not empty. Collisions need no assumption: Insert refuses a taken hash. */
  ghost predicate NeverEmpty(h: CommitHasher) {
    forall c :: h(c) != EMPTY_HASH
  }

  /** The commit with this content has a hash that is taken. */
  ghost predicate TakenAs(h: CommitHasher, g: Graph, author: Signature, committer: Signature, message: string,
                          treeHash: Hash, parentHashes: seq<Hash>) {
    h(CommitContent(author, committer, message, treeHash, parentHashes)) in g
  }

  /** A commit of this tree on these parents that this person makes with this message, at
      some time, has a hash that is taken. */
  ghost predicate Taken(h: CommitHasher, g: Graph, name: string, email: string, message: string, treeHash: Hash,
                        parentHashes: seq<Hash>) {
    exists authored, committed ::
      TakenAs(h, g, Signature(name, email, authored), Signature(name, email, committed), message, treeHash,
              parentHashes)
  }

  /** The hash of a commit is that of its content. */
  ghost predicate HashedBy(h: CommitHasher, c: Commit) {
    c.hash == h(CommitContent(c.author, c.committer, c.message, c.treeHash, c.parentHashes))
  }

  /** Who made the commit, and why; the times are arbitrary. */
  ghost predicate SignedBy(c: Commit, name: string, email: string, message: string) {
    && c.message == message
    && c.author.name == name && c.author.email == email && c.committer.name == name && c.committer.email == email
  }

  ghost predicate GraphGrows(before: Graph, after: Graph) {
    forall h | h in before :: h in after && after[h] == before[h]
  }

  class CommitRepo {
    const hasher: CommitHasher
    var commits: Graph

    ghost predicate Valid()
      reads this
    {
      NeverEmpty(hasher) && History(commits) && EMPTY_HASH !in commits
    }

    constructor (hasher: CommitHasher)
      requires NeverEmpty(hasher)
      ensures Valid() && commits == map[] && this.hasher == hasher
    {
      this.hasher, commits := hasher, map[];
      new;
      var none: map<Hash, nat> := map[];
      assert Ranked(commits, none);
    }

    /** Commit: the commit under a hash; in a good store it knows its hash, and its parents
        can be read too. */
    method Commit(hash: Hash) returns (r: Result<Commit>)
      ensures r.Ok? <==> hash in commits
      ensures r.Ok? ==> r.value == commits[hash]
      ensures r.Ok? && Valid() ==>
                r.value.hash == hash && hash != EMPTY_HASH && forall p | p in r.value.parentHashes :: p in commits
      ensures r.Err? ==> r.error == NotFound
    {
      if hash !in commits {
        return Err(NotFound);
      }
      return Ok(commits[hash]);
    }

    /** Hash a new commit and insert it; a hash that is taken is refused by the table, and
        only that. */
    method Insert(author: Signature, committer: Signature, message: string, treeHash: Hash, parentHashes: seq<Hash>)
      returns (r: Result<Commit>)
      requires Valid() && forall p | p in parentHashes :: p in commits
      modifies this
      ensures Valid() && GraphGrows(old(commits), commits)
      ensures r.Ok? <==> !TakenAs(hasher, old(commits), author, committer, message, treeHash, parentHashes)
      ensures r.Err? ==> r.error == CommitExists && commits == old(commits)
      ensures r.Ok? ==>
        && HashedBy(hasher, r.value) && r.value.hash !in old(commits)
              && commits == old(commits)[r.value.hash := r.value]
        && r.value.hash != EMPTY_HASH
        && r.value.treeHash == treeHash && r.value.parentHashes == parentHashes
        && r.value.author == author && r.value.committer == committer && r.value.message == message
    {
      var hash := hasher(CommitContent(author, committer, message, treeHash, parentHashes));
      if hash in commits {
        return Err(CommitExists);
      }
      var commit := CommitGraph.Commit(hash, author, committer, message, treeHash, parentHashes);
      InsertKeepsHistory(commits, commit);
      commits := commits[hash := commit];
      return Ok(commit);
    }
  }

  // ------------------------------------------------------ inserting into a history

  ghost function MaxRank(rank: map<Hash, nat>, hs: seq<Hash>): (m: nat)
    requires forall h | h in hs :: h in rank
    ensures forall h | h in hs :: rank[h] <= m
  {
    if hs == [] then 0
    else
      var m := MaxRank(rank, hs[1..]);
      if rank[hs[0]] > m then rank[hs[0]] else m
  }

  /** A commit with a new hash and stored parents keeps the store closed and acyclic. */
  lemma InsertKeepsHistory(g: Graph, c: Commit)
    requires History(g) && c.hash !in g && forall p | p in c.parentHashes :: p in g
    ensures History(g[c.hash := c])
  {
    var rank :| Ranked(g, rank);
    var g' := g[c.hash := c];
    var rank' := rank[c.hash := MaxRank(rank, c.parentHashes) + 1];
    assert Ranked(g', rank');
  }

  /** Reachability from an old commit is not changed by insertions. */
  lemma ReachPersists(g: Graph, g': Graph, a: Hash, b: Hash)
    requires Closed(g) && GraphGrows(g, g') && a in g
    ensures Reach(g', a, b) <==> Reach(g, a, b)
  {
    if Reach(g, a, b) {
      var c :| ChainFromTo(g, g.Keys, c, a, b);
      assert ChainFromTo(g', g'.Keys, c, a, b);
    }
    if Reach(g', a, b) {
      var c :| ChainFromTo(g', g'.Keys, c, a, b);
      OldChain(g, g', c);
      assert ChainFromTo(g, g.Keys, c, a, b);
    }
  }

  lemma {:induction false} OldChain(g: Graph, g': Graph, c: seq<Hash>)
    requires Closed(g) && GraphGrows(g, g') && Chain(g', g'.Keys, c) && c[0] in g
    ensures Chain(g, g.Keys, c)
    decreases |c|
  {
    if |c| > 1 {
      OldChain(g, g', c[1..]);
    }
  }

  // ------------------------------------------------------------- trees of commits

  ghost predicate Readable(h: Objects.Hasher, objects: Objects.Store, hash: Hash) {
    exists t :: Represents(h, objects, hash, t)
  }

  /** The tree a readable root hash stands for. */
  ghost function TreeAt(h: Objects.Hasher, objects: Objects.Store, hash: Hash): (t: Tree)
    requires Readable(h, objects, hash)
    ensures Represents(h, objects, hash, t)
  {
    var t :| Represents(h, objects, hash, t);
    t
  }

  lemma TreeIsUnique(h: Objects.Hasher, objects: Objects.Store, hash: Hash, t: Tree)
    requires Objects.CollisionFree(h) && Represents(h, objects, hash, t)
    ensures Readable(h, objects, hash) && TreeAt(h, objects, hash) == t
  {
    RootDeterminesTree(h, objects, hash, t, TreeAt(h, objects, hash));
  }

  /** What a root hash stands for never changes. */
  lemma TreePersists(h: Objects.Hasher, before: Objects.Store, after: Objects.Store, hash: Hash)
    requires Objects.CollisionFree(h) && Objects.Grows(before, after) && Readable(h, before, hash)
    ensures Readable(h, after, hash) && TreeAt(h, after, hash) == TreeAt(h, before, hash)
  {
    var t := TreeAt(h, before, hash);
    SnapshotsPersist(h, before, after, hash, t);
    TreeIsUnique(h, after, hash, t);
  }

  lemma EmptyIsReadable(h: Objects.Hasher, objects: Objects.Store)
    requires Objects.CollisionFree(h)
    ensures Readable(h, objects, EMPTY_HASH) && TreeAt(h, objects, EMPTY_HASH) == EMPTY_DIR
  {
    assert Represents(h, objects, EMPTY_HASH, EMPTY_DIR);
    TreeIsUnique(h, objects, EMPTY_HASH, EMPTY_DIR);
  }

  /** Every commit's tree can be read. */
  ghost predicate TreesReadable(h: Objects.Hasher, objects: Objects.Store, g: Graph) {
    forall c | c in g :: Readable(h, objects, g[c].treeHash)
  }

  lemma TreesStayReadable(h: Objects.Hasher, before: Objects.Store, after: Objects.Store, g: Graph)
    requires Objects.CollisionFree(h) && Objects.Grows(before, after) && TreesReadable(h, before, g)
    ensures TreesReadable(h, after, g)
  {
    forall c | c in g ensures Readable(h, after, g[c].treeHash) {
      TreePersists(h, before, after, g[c].treeHash);
    }
  }
}
