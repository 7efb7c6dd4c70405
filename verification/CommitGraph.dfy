/** The commit store of one repository (models/commit.go) and reachability in it. */
module CommitGraph {
  import opened Hashes

  datatype Signature = Signature(name: string, email: string, when: int)

  datatype Commit = Commit(
    hash: Hash,
    author: Signature,
    committer: Signature,
    message: string,
    treeHash: Hash,
    parentHashes: seq<Hash>)

  type Graph = map<Hash, Commit>

  /** Every parent named by a stored commit is stored. */
  ghost predicate Closed(g: Graph) {
    && (forall h | h in g :: g[h].hash == h)
    && (forall h, p | h in g && p in g[h].parentHashes :: p in g)
  }

  ghost predicate Ranked(g: Graph, rank: map<Hash, nat>) {
    && rank.Keys == g.Keys
    && (forall h, p | h in g && p in g[h].parentHashes :: p in rank && rank[p] < rank[h])
  }

  /** A finite parent relation has no cycle exactly when it can be ranked. */
  ghost predicate Acyclic(g: Graph) {
    exists rank :: Ranked(g, rank)
  }

  ghost predicate History(g: Graph) {
    Closed(g) && Acyclic(g)
  }

  /** A walk from child to parent; every commit but the last lies in `through`. */
  ghost predicate Chain(g: Graph, through: set<Hash>, c: seq<Hash>) {
    && c != []
    && (forall i | 0 <= i < |c| :: c[i] in g)
    && (forall i | 0 <= i < |c| - 1 :: c[i] in through && c[i + 1] in g[c[i]].parentHashes)
  }

  ghost predicate ChainFromTo(g: Graph, through: set<Hash>, c: seq<Hash>, a: Hash, b: Hash) {
    Chain(g, through, c) && c[0] == a && c[|c| - 1] == b
  }

  ghost predicate ReachThrough(g: Graph, through: set<Hash>, a: Hash, b: Hash) {
    exists c :: ChainFromTo(g, through, c, a, b)
  }

  /** b is a or an ancestor of a. */
  ghost predicate Reach(g: Graph, a: Hash, b: Hash) {
    ReachThrough(g, g.Keys, a, b)
  }

  ghost predicate StrictlyReach(g: Graph, a: Hash, b: Hash) {
    a != b && Reach(g, a, b)
  }

  lemma ReachSelf(g: Graph, through: set<Hash>, a: Hash)
    requires a in g
    ensures ReachThrough(g, through, a, a)
  {
    assert ChainFromTo(g, through, [a], a, a);
  }

  lemma ReachReflexive(g: Graph, a: Hash)
    requires a in g
    ensures Reach(g, a, a)
  {
    ReachSelf(g, g.Keys, a);
  }

  lemma ReachParent(g: Graph, through: set<Hash>, a: Hash, b: Hash, p: Hash)
    requires ReachThrough(g, through, a, b) && b in through
    requires b in g && p in g && p in g[b].parentHashes
    ensures ReachThrough(g, through, a, p)
  {
    var c :| ChainFromTo(g, through, c, a, b);
    assert ChainFromTo(g, through, c + [p], a, p);
  }

  lemma ReachMore(g: Graph, through: set<Hash>, more: set<Hash>, a: Hash, b: Hash)
    requires ReachThrough(g, through, a, b) && through <= more
    ensures ReachThrough(g, more, a, b)
  {
    var c :| ChainFromTo(g, through, c, a, b);
    assert ChainFromTo(g, more, c, a, b);
  }

  lemma ReachTransitive(g: Graph, through: set<Hash>, a: Hash, b: Hash, d: Hash)
    requires ReachThrough(g, through, a, b) && ReachThrough(g, through, b, d)
    ensures ReachThrough(g, through, a, d)
  {
    var c :| ChainFromTo(g, through, c, a, b);
    var e :| ChainFromTo(g, through, e, b, d);
    var f := c + e[1..];
    forall i | 0 <= i < |f| - 1 ensures f[i] in through && f[i + 1] in g[f[i]].parentHashes {
      if i >= |c| - 1 {
        assert f[i] == e[i - |c| + 1] && f[i + 1] == e[i - |c| + 2];
      }
    }
    assert ChainFromTo(g, through, f, a, d);
  }

  /** A set that holds the start and, for each of its commits in `through`, all the
      parents, holds everything reachable through `through`. */
  lemma {:induction false} ClosedSetHoldsChain(g: Graph, through: set<Hash>, s: set<Hash>, c: seq<Hash>)
    requires Chain(g, through, c) && c[0] in s
    requires forall v, p | v in s && v in through && v in g && p in g[v].parentHashes :: p in s
    ensures c[|c| - 1] in s
    decreases |c|
  {
    if |c| > 1 {
      ClosedSetHoldsChain(g, through, s, c[1..]);
    }
  }

  lemma ClosedSetHolds(g: Graph, through: set<Hash>, s: set<Hash>, a: Hash, b: Hash)
    requires ReachThrough(g, through, a, b) && a in s
    requires forall v, p | v in s && v in through && v in g && p in g[v].parentHashes :: p in s
    ensures b in s
  {
    var c :| ChainFromTo(g, through, c, a, b);
    ClosedSetHoldsChain(g, through, s, c);
  }

  lemma {:induction false} RankFalls(g: Graph, rank: map<Hash, nat>, through: set<Hash>, c: seq<Hash>)
    requires Ranked(g, rank) && Chain(g, through, c)
    ensures |c| > 1 ==> rank[c[|c| - 1]] < rank[c[0]]
    decreases |c|
  {
    if |c| > 1 {
      RankFalls(g, rank, through, c[1..]);
    }
  }

  /** Strict ancestors have smaller rank. */
  lemma ReachRank(g: Graph, rank: map<Hash, nat>, a: Hash, b: Hash)
    requires Ranked(g, rank) && Reach(g, a, b)
    ensures a in rank && b in rank && (a == b || rank[b] < rank[a])
  {
    var c :| ChainFromTo(g, g.Keys, c, a, b);
    RankFalls(g, rank, g.Keys, c);
  }

  /** In an acyclic history two commits that reach each other are one commit. */
  lemma ReachAntisymmetric(g: Graph, a: Hash, b: Hash)
    requires Acyclic(g) && Reach(g, a, b) && Reach(g, b, a)
    ensures a == b
  {
    var rank :| Ranked(g, rank);
    ReachRank(g, rank, a, b);
    ReachRank(g, rank, b, a);
  }

  lemma ReachIsStored(g: Graph, through: set<Hash>, a: Hash, b: Hash)
    requires ReachThrough(g, through, a, b)
    ensures a in g && b in g
  {
    var c :| ChainFromTo(g, through, c, a, b);
  }
}
