/** Consequences of the merge-base specification that the rest of the engine relies on. */
module MergeBaseLaws {
  import opened Hashes
  import opened CommitGraph
  import opened MergeBase

  /** Every common ancestor lies at or below a best one. */
  lemma {:induction false} BestAbove(g: Graph, rank: map<Hash, nat>, a: Hash, b: Hash, x: Hash) returns (k: Hash)
    requires Ranked(g, rank) && CommonAncestor(g, a, b, x)
    requires a in rank && x in rank && rank[x] <= rank[a]
    ensures BestCommonAncestor(g, a, b, k) && Reach(g, k, x)
    decreases rank[a] - rank[x]
  {
    hide Reach, Ranked;
    if y :| CommonAncestor(g, a, b, y) && StrictlyReach(g, y, x) {
      ReachRank(g, rank, y, x);
      ReachRank(g, rank, a, y);
      k := BestAbove(g, rank, a, b, y);
      ReachVia(g, k, y, x);
    } else {
      k := x;
      ReachStored(g, a, x);
      ReachReflexive(g, x);
    }
  }

  lemma ReachVia(g: Graph, a: Hash, b: Hash, c: Hash)
    requires Reach(g, a, b) && Reach(g, b, c)
    ensures Reach(g, a, c)
  {
    ReachTransitive(g, g.Keys, a, b, c);
  }

  lemma MergeBasesCover(g: Graph, a: Hash, b: Hash, res: seq<Hash>, x: Hash)
    requires Acyclic(g) && AreMergeBases(g, a, b, res) && CommonAncestor(g, a, b, x)
    ensures exists k :: k in res && Reach(g, k, x)
  {
    var rank :| Ranked(g, rank);
    ReachRank(g, rank, a, x);
    var k := BestAbove(g, rank, a, b, x);
  }

  /** No merge base is reachable from another. */
  lemma MergeBasesApart(g: Graph, a: Hash, b: Hash, res: seq<Hash>, x: Hash, y: Hash)
    requires AreMergeBases(g, a, b, res) && x in res && y in res
    ensures !StrictlyReach(g, x, y)
  {
    assert BestCommonAncestor(g, a, b, x) && BestCommonAncestor(g, a, b, y);
  }

  /** The same commits with the same parents; dates, trees and messages are free. */
  ghost predicate SameShape(g: Graph, g': Graph) {
    g.Keys == g'.Keys && forall h | h in g :: g[h].parentHashes == g'[h].parentHashes
  }

  lemma ReachIgnoresDates(g: Graph, g': Graph, a: Hash, b: Hash)
    requires SameShape(g, g') && Reach(g, a, b)
    ensures Reach(g', a, b)
  {
    var c :| ChainFromTo(g, g.Keys, c, a, b);
    assert ChainFromTo(g', g'.Keys, c, a, b);
  }

  /** The set of merge bases depends neither on dates nor on the order of the arguments. */
  lemma MergeBaseDetermined(g: Graph, g': Graph, a: Hash, b: Hash, res: seq<Hash>, res': seq<Hash>)
    requires SameShape(g, g') && AreMergeBases(g, a, b, res) && AreMergeBases(g', b, a, res')
    ensures forall x :: x in res <==> x in res'
    ensures multiset(res) == multiset(res')
  {
    forall x, y ensures Reach(g, x, y) <==> Reach(g', x, y) {
      if Reach(g, x, y) {
        ReachIgnoresDates(g, g', x, y);
      }
      if Reach(g', x, y) {
        ReachIgnoresDates(g', g, x, y);
      }
    }
    forall x ensures BestCommonAncestor(g, a, b, x) <==> BestCommonAncestor(g', b, a, x) {
      hide Reach;
      assert forall y :: CommonAncestor(g, a, b, y) <==> CommonAncestor(g', b, a, y);
    }
    DistinctSameMultiset(res, res');
  }

  lemma {:induction false} DistinctMultiplicity(s: seq<Hash>, x: Hash)
    requires Distinct(s)
    ensures multiset(s)[x] == if x in s then 1 else 0
  {
    if s != [] {
      assert s == [s[0]] + s[1..];
      DistinctMultiplicity(s[1..], x);
    }
  }

  lemma DistinctSameMultiset(s: seq<Hash>, t: seq<Hash>)
    requires Distinct(s) && Distinct(t) && forall x :: x in s <==> x in t
    ensures multiset(s) == multiset(t)
  {
    forall x ensures multiset(s)[x] == multiset(t)[x] {
      DistinctMultiplicity(s, x);
      DistinctMultiplicity(t, x);
    }
  }

  /** With two or more merge bases, each is a strict ancestor of both commits, so it has
      a smaller rank than either. */
  lemma CrissCrossBasesAreOlder(g: Graph, rank: map<Hash, nat>, a: Hash, b: Hash, res: seq<Hash>, i: nat)
    requires Ranked(g, rank) && AreMergeBases(g, a, b, res) && |res| > 1 && i < |res|
    ensures StrictlyReach(g, a, res[i]) && StrictlyReach(g, b, res[i])
    ensures a in rank && b in rank && res[i] in rank && rank[res[i]] < rank[a] && rank[res[i]] < rank[b]
  {
    hide Reach, Ranked;
    var j := if i == 0 then 1 else 0;
    assert res[i] != res[j];
    assert res[i] in res && res[j] in res;
    assert BestCommonAncestor(g, a, b, res[i]) && BestCommonAncestor(g, a, b, res[j]);
    ReachRank(g, rank, a, res[i]);
    ReachRank(g, rank, b, res[i]);
    assert !StrictlyReach(g, res[i], res[j]) && Reach(g, a, res[j]) && Reach(g, b, res[j]);
  }

  /** The merge bases of a criss-cross history do not reach each other. */
  lemma CrissCrossBasesApart(g: Graph, a: Hash, b: Hash, res: seq<Hash>)
    requires AreMergeBases(g, a, b, res) && |res| > 1
    ensures !Reach(g, res[0], res[1]) && !Reach(g, res[1], res[0])
  {
    assert res[0] != res[1] && res[0] in res && res[1] in res;
    MergeBasesApart(g, a, b, res, res[0], res[1]);
    MergeBasesApart(g, a, b, res, res[1], res[0]);
  }
}
