/** Common ancestors (versionmgr/merge_base.go). */
module MergeBase {
  import opened Hashes
  import opened CommitGraph
  import opened Traversal
  import opened CommitWalkers
  import opened FilteredWalk

  // ------------------------------------------------------------- specification

  ghost predicate Distinct(s: seq<Hash>) {
    forall i, j | 0 <= i < j < |s| :: s[i] != s[j]
  }

  /** res lists, once each, the members of cs that are no strict ancestor of a member. */
  ghost predicate AreIndependents(g: Graph, cs: seq<Hash>, res: seq<Hash>) {
    && Distinct(res)
    && forall x :: x in res <==> x in cs && forall d | d in cs :: !StrictlyReach(g, d, x)
  }

  ghost predicate CommonAncestor(g: Graph, a: Hash, b: Hash, x: Hash) {
    Reach(g, a, x) && Reach(g, b, x)
  }

  ghost predicate BestCommonAncestor(g: Graph, a: Hash, b: Hash, x: Hash) {
    CommonAncestor(g, a, b, x) && forall y | CommonAncestor(g, a, b, y) :: !StrictlyReach(g, y, x)
  }

  /** res lists, once each, the maximal common ancestors of a and b. */
  ghost predicate AreMergeBases(g: Graph, a: Hash, b: Hash, res: seq<Hash>) {
    && Distinct(res)
    && forall x :: x in res <==> BestCommonAncestor(g, a, b, x)
  }

  /** Every member of cs lies at or below some member of ks. */
  ghost predicate Covers(g: Graph, ks: seq<Hash>, cs: seq<Hash>) {
    forall x | x in cs :: exists k :: k in ks && Reach(g, k, x)
  }

  /** No commit of `seen` has a member of cs as a strict ancestor. */
  ghost predicate Apart(g: Graph, seen: set<Hash>, cs: seq<Hash>) {
    forall s, x | s in seen && x in cs :: !StrictlyReach(g, s, x)
  }

  // -------------------------------------------------------------- list helpers

  /** removeDuplicated */
  method RemoveDuplicated(commits: seq<Hash>) returns (res: seq<Hash>)
    ensures Distinct(res) && forall x :: x in res <==> x in commits
  {
    var seen: set<Hash> := {};
    res := [];
    for i := 0 to |commits|
      invariant forall x :: x in seen <==> x in commits[..i]
      invariant forall x :: x in seen <==> x in res
      invariant Distinct(res)
    {
      assert commits[..i + 1] == commits[..i] + [commits[i]];
      if commits[i] !in seen {
        seen := seen + {commits[i]};
        res := res + [commits[i]];
      }
    }
    assert commits[..|commits|] == commits;
  }

  /** remove */
  method Remove(commits: seq<Hash>, toDelete: Hash) returns (res: seq<Hash>)
    ensures res == Minus(commits, {toDelete})
  {
    res := [];
    for i := 0 to |commits|
      invariant res == Minus(commits[..i], {toDelete})
    {
      assert commits[..i + 1] == commits[..i] + [commits[i]];
      MinusLast(commits[..i], commits[i], {toDelete});
      if commits[i] != toDelete {
        res := res + [commits[i]];
      }
    }
    assert commits[..|commits|] == commits;
  }

  /** indexOf: the first position of target, or -1 */
  method IndexOf(commits: seq<Hash>, target: Hash) returns (index: int)
    ensures -1 <= index < |commits|
    ensures index >= 0 ==> commits[index] == target
    ensures forall i | 0 <= i < |commits| && commits[i] == target :: 0 <= index <= i
  {
    for i := 0 to |commits|
      invariant forall j | 0 <= j < i :: commits[j] != target
    {
      if commits[i] == target {
        return i;
      }
    }
    return -1;
  }

  ghost predicate NewestFirst(g: Graph, s: seq<Hash>)
    requires Stored(g, s)
  {
    forall i, j | 0 <= i < j < |s| :: g[s[i]].committer.when >= g[s[j]].committer.when
  }

  function InsertByDate(g: Graph, c: Hash, s: seq<Hash>): (r: seq<Hash>)
    requires c in g && Stored(g, s)
    ensures |r| == |s| + 1 && forall x :: x in r <==> x == c || x in s
  {
    if s == [] || g[s[0]].committer.when < g[c].committer.when then [c] + s
    else [s[0]] + InsertByDate(g, c, s[1..])
  }

  lemma {:induction false} InsertKeepsOrder(g: Graph, c: Hash, s: seq<Hash>)
    requires c in g && Stored(g, s) && NewestFirst(g, s)
    ensures Stored(g, InsertByDate(g, c, s)) && NewestFirst(g, InsertByDate(g, c, s))
  {
    if s != [] && g[s[0]].committer.when >= g[c].committer.when {
      var tail := InsertByDate(g, c, s[1..]);
      InsertKeepsOrder(g, c, s[1..]);
      forall i | 0 <= i < |tail| ensures g[s[0]].committer.when >= g[tail[i]].committer.when {
        assert tail[i] in tail;
      }
    }
  }

  lemma {:induction false} InsertKeepsMultiset(g: Graph, c: Hash, s: seq<Hash>)
    requires c in g && Stored(g, s)
    ensures multiset(InsertByDate(g, c, s)) == multiset{c} + multiset(s)
  {
    if s != [] && g[s[0]].committer.when >= g[c].committer.when {
      InsertKeepsMultiset(g, c, s[1..]);
      assert s == [s[0]] + s[1..];
    }
  }

  /** sortByCommitDateDesc: arranged by date, newest first. */
  method SortByCommitDateDesc(g: Graph, commits: seq<Hash>) returns (sorted: seq<Hash>)
    requires Stored(g, commits)
    ensures multiset(sorted) == multiset(commits)
    ensures |sorted| == |commits| && forall x :: x in sorted <==> x in commits
    ensures Stored(g, sorted) && NewestFirst(g, sorted)
  {
    sorted := [];
    for i := 0 to |commits|
      invariant |sorted| == i && multiset(sorted) == multiset(commits[..i])
      invariant forall x :: x in sorted <==> x in commits[..i]
      invariant Stored(g, sorted) && NewestFirst(g, sorted)
    {
      assert commits[..i + 1] == commits[..i] + [commits[i]];
      InsertKeepsOrder(g, commits[i], sorted);
      InsertKeepsMultiset(g, commits[i], sorted);
      sorted := InsertByDate(g, commits[i], sorted);
    }
    assert commits[..|commits|] == commits;
  }

  // -------------------------------------------------------------- Independents

  lemma {:induction false} MinusMinus(s: seq<Hash>, a: set<Hash>, b: set<Hash>)
    ensures Minus(Minus(s, a), b) == Minus(s, a + b)
  {
    if s != [] {
      MinusMinus(s[1..], a, b);
    }
  }

  lemma {:induction false} MinusNothing(s: seq<Hash>, drop: set<Hash>)
    requires forall x | x in s :: x !in drop
    ensures Minus(s, drop) == s
  {
    if s != [] {
      MinusNothing(s[1..], drop);
      assert s == [s[0]] + s[1..];
    }
  }

  lemma {:induction false} MinusDistinct(s: seq<Hash>, drop: set<Hash>)
    requires Distinct(s)
    ensures Distinct(Minus(s, drop)) && |Minus(s, drop)| <= |s|
  {
    if s != [] {
      MinusDistinct(s[1..], drop);
      assert forall i | 0 <= i < |Minus(s[1..], drop)| :: Minus(s[1..], drop)[i] in s[1..];
    }
  }

  /** Whatever reaches a remaining candidate has been ruled out for the commits seen by
      an exhausted traversal as well, although that traversal stopped at the commits
      seen before it: a chain into an earlier traversal cannot end at a candidate. */
  lemma TraversalKeepsApart(g: Graph, from: Hash, seen: set<Hash>, reached: set<Hash>, limited: set<Hash>,
                            cs: seq<Hash>, rest: seq<Hash>)
    requires History(g) && Apart(g, seen, cs)
    requires forall x | x in reached :: Reach(g, from, x)
    requires forall v, p | v in reached && v in g && v !in limited && p in g[v].parentHashes :: p in reached
    requires limited <= seen
    requires forall x | x in rest :: x in cs && (x == from || x !in reached)
    ensures Apart(g, seen + reached, rest)
  {
    forall s, x | s in seen + reached && x in rest ensures !StrictlyReach(g, s, x) {
      if s !in seen && StrictlyReach(g, s, x) {
        if x == from {
          ReachAntisymmetric(g, s, from);
        }
        var c :| ChainFromTo(g, g.Keys, c, s, x);
        ChainStaysOpen(g, seen, cs, c);
        ClosedSetHoldsChain(g, g.Keys - seen, reached, c);
      }
    }
  }

  /** A chain that ends at a candidate does not pass a commit seen before. */
  lemma EarlierReachesLast(g: Graph, rank: map<Hash, nat>, c: seq<Hash>, i: nat)
    requires Ranked(g, rank) && Chain(g, g.Keys, c) && i < |c| - 1
    ensures StrictlyReach(g, c[i], c[|c| - 1])
  {
    assert ChainFromTo(g, g.Keys, c[i..], c[i], c[|c| - 1]);
    RankFalls(g, rank, g.Keys, c[i..]);
  }

  lemma ChainStaysOpen(g: Graph, seen: set<Hash>, cs: seq<Hash>, c: seq<Hash>)
    requires Acyclic(g) && Apart(g, seen, cs)
    requires Chain(g, g.Keys, c) && c[|c| - 1] in cs
    ensures Chain(g, g.Keys - seen, c)
  {
    hide StrictlyReach, Ranked;
    var rank :| Ranked(g, rank);
    forall i | 0 <= i < |c| - 1 ensures c[i] !in seen {
      EarlierReachesLast(g, rank, c, i);
    }
  }

  lemma CoverOf(g: Graph, ks: seq<Hash>, cs: seq<Hash>, x: Hash) returns (k: Hash)
    requires Covers(g, ks, cs) && x in cs
    ensures k in ks && Reach(g, k, x)
  {
    k :| k in ks && Reach(g, k, x);
  }

  /** Candidates that cover the input and lie apart are exactly the independent ones. */
  lemma ApartIsIndependent(g: Graph, cs: seq<Hash>, res: seq<Hash>)
    requires History(g) && Distinct(res) && Covers(g, res, cs) && Stored(g, cs)
    requires forall x | x in res :: x in cs
    requires forall x, y | x in res && y in res :: !StrictlyReach(g, x, y)
    ensures AreIndependents(g, cs, res)
  {
    hide ReachThrough, Covers;
    forall x, d | x in res && d in cs ensures !StrictlyReach(g, d, x) {
      var k := CoverOf(g, res, cs, d);
      if StrictlyReach(g, d, x) {
        ReachTransitive(g, g.Keys, k, d, x);
        assert k == x || StrictlyReach(g, k, x);
        ReachAntisymmetric(g, d, x);
      }
    }
    forall x | x in cs && x !in res ensures exists k :: k in cs && StrictlyReach(g, k, x) {
      var k := CoverOf(g, res, cs, x);
      assert StrictlyReach(g, k, x);
    }
  }

  lemma {:induction false} MinusMember(s: seq<Hash>, drop: set<Hash>, x: Hash)
    requires x !in s
    ensures Minus(s, drop + {x}) == Minus(s, drop)
  {
    if s != [] {
      MinusMember(s[1..], drop, x);
    }
  }

  /** The callback of Independents on one visited commit: it is struck off both lists
      when it is another candidate. */
  method StrikeOff(candidates: seq<Hash>, others: seq<Hash>, visited: Hash) returns (candidates': seq<Hash>,
                   others': seq<Hash>)
    ensures candidates' == if visited in others then Minus(candidates, {visited}) else candidates
    ensures others' == Minus(others, {visited})
  {
    candidates', others' := candidates, others;
    MinusNothing(others[..0], {visited});
    for i := 0 to |others|
      invariant visited !in others[..i] ==> candidates' == candidates && others' == others
      invariant visited in others[..i] ==>
                  candidates' == Minus(candidates, {visited}) && others' == Minus(others, {visited})
    {
      assert others[..i + 1] == others[..i] + [others[i]];
      if visited == others[i] {
        ghost var before, before' := candidates', others';
        candidates' := Remove(candidates', others[i]);
        others' := Remove(others', others[i]);
        MinusMinus(candidates, {visited}, {visited});
        MinusMinus(others, {visited}, {visited});
        assert {visited} + {visited} == {visited};
      }
    }
    assert others[..|others|] == others;
    if visited !in others {
      MinusNothing(others, {visited});
    }
  }

  ghost function Struck(candidates: seq<Hash>, from: Hash, reached: set<Hash>): set<Hash> {
    set x | x in candidates && x != from && x in reached
  }

  lemma StrikeStep(candidates: seq<Hash>, from: Hash, reached: set<Hash>, f: Hash)
    ensures var gone, gone' := Struck(candidates, from, reached), Struck(candidates, from, reached + {f});
            var rest, others := Minus(candidates, gone), Minus(candidates, gone + {from});
            && Minus(candidates, gone') == (if f in others then Minus(rest, {f}) else rest)
            && Minus(candidates, gone' + {from}) == Minus(others, {f})
  {
    var gone, gone' := Struck(candidates, from, reached), Struck(candidates, from, reached + {f});
    var rest, others := Minus(candidates, gone), Minus(candidates, gone + {from});
    MinusMinus(candidates, gone, {f});
    MinusMinus(candidates, gone + {from}, {f});
    if f in candidates && f != from {
      assert gone' == gone + {f} && gone' + {from} == gone + {from} + {f};
      if f in gone {
        assert gone' == gone;
      }
    } else {
      assert gone' == gone;
      MinusNothing(others, {f});
    }
  }

  lemma StruckReached(g: Graph, from: Hash, reached: set<Hash>, candidates: seq<Hash>)
    requires forall x | x in reached :: Reach(g, from, x)
    ensures forall x | x in Struck(candidates, from, reached) :: StrictlyReach(g, from, x)
  {
  }

  lemma StruckApart(g: Graph, from: Hash, seen: set<Hash>, reached: set<Hash>, limited: set<Hash>, cs: seq<Hash>)
    requires History(g) && Apart(g, seen, cs)
    requires forall x | x in reached :: Reach(g, from, x)
    requires forall v, p | v in reached && v in g && v !in limited && p in g[v].parentHashes :: p in reached
    requires limited <= seen
    ensures Apart(g, seen + reached, Minus(cs, Struck(cs, from, reached)))
    ensures forall x | x in Struck(cs, from, reached) :: StrictlyReach(g, from, x)
  {
    TraversalKeepsApart(g, from, seen, reached, limited, cs, Minus(cs, Struck(cs, from, reached)));
  }

  /** One traversal of Independents: from one candidate, not past commits seen before,
      striking off the other candidates it meets. It may end early with `from` alone. */
  method StrikeOffHistory(g: Graph, from: Hash, candidates: seq<Hash>, seen: HashSet) returns (rest: seq<Hash>,
                          ghost gone: set<Hash>)
    requires History(g) && Stored(g, candidates) && from in candidates
    requires Apart(g, seen.elems, candidates)
    modifies seen
    ensures rest == Minus(candidates, gone) && from !in gone
    ensures forall x | x in gone :: StrictlyReach(g, from, x)
    ensures |rest| == 1 || (Apart(g, seen.elems, rest) && seen.elems >= old(seen.elems) + {from})
  {
    hide Apart, StrictlyReach, Reach, Minus, FilterCommitIter.Valid;
    rest, gone := candidates, {};
    MinusNothing(candidates, {});
    var others := Remove(candidates, from);
    var it := new FilterCommitIter(g, from, null, seen);
    assert gone + {from} == {from};
    while true
      invariant it.Valid() && fresh(it) && it.g == g && it.from == from && it.isLimit == seen && it.isValid == null
      invariant seen.elems == old(seen.elems) + it.reached && it.limited <= old(seen.elems)
      invariant gone == Struck(candidates, from, it.reached)
      invariant rest == Minus(candidates, gone) && others == Minus(candidates, gone + {from})
      decreases !it.closed, g.Keys - it.reached
    {
      ghost var reached := it.reached;
      var f := it.Next();
      it.ReachedIsHistory();
      if f.None? {
        assert it.reached == reached;
        break;
      }
      assert it.reached == reached + {f.value};
      StrikeStep(candidates, from, reached, f.value);
      rest, others := StrikeOff(rest, others, f.value);
      gone := Struck(candidates, from, it.reached);
      if |rest| == 1 {
        StruckReached(g, from, it.reached, candidates);
        return;
      }
      seen.Add(f.value);
    }
    StruckApart(g, from, old(seen.elems), it.reached, it.limited, candidates);
  }

  lemma {:induction false} FirstIndex(before: seq<Hash>, x: Hash, after: seq<Hash>, index: int)
    requires x !in before
    requires forall i | 0 <= i < |before + [x] + after| && (before + [x] + after)[i] == x :: 0 <= index <= i
    requires index < |before + [x] + after| && (index >= 0 ==> (before + [x] + after)[index] == x)
    ensures index == |before|
  {
    var s := before + [x] + after;
    assert s[|before|] == x;
    assert forall i | 0 <= i < |before| :: s[i] == before[i] && before[i] in before;
  }

  /** After striking off `gone`, the candidates behind `from` are those that were behind
      it before, less the struck ones. */
  lemma SplitCandidates(candidates: seq<Hash>, pos: nat, gone: set<Hash>)
    requires pos < |candidates| && candidates[pos] !in gone && Distinct(candidates)
    ensures Minus(candidates, gone)
         == Minus(candidates[..pos], gone) + [candidates[pos]] + Minus(candidates[pos + 1..], gone)
    ensures |Minus(candidates[pos + 1..], gone)| <= |candidates| - pos - 1
    ensures candidates[pos] !in Minus(candidates[..pos], gone)
  {
    hide Minus;
    var before, from, after := candidates[..pos], candidates[pos], candidates[pos + 1..];
    assert candidates == before + [from] + after;
    MinusConcat(before + [from], after, gone);
    MinusLast(before, from, gone);
    MinusDistinct(after, gone);
  }

  lemma StrikingKeepsCover(g: Graph, from: Hash, candidates: seq<Hash>, gone: set<Hash>, cs: seq<Hash>)
    requires Covers(g, candidates, cs) && from in candidates && from !in gone
    requires forall x | x in gone :: StrictlyReach(g, from, x)
    ensures Covers(g, Minus(candidates, gone), cs)
  {
    hide ReachThrough;
    forall x | x in cs ensures exists k :: k in Minus(candidates, gone) && Reach(g, k, x) {
      var k := CoverOf(g, candidates, cs, x);
      if k in gone {
        ReachTransitive(g, g.Keys, from, k, x);
      }
    }
  }

  lemma CoversItself(g: Graph, cs: seq<Hash>, commits: seq<Hash>)
    requires Stored(g, commits) && forall x | x in commits :: x in cs
    ensures Covers(g, cs, commits)
  {
    forall x | x in commits ensures x in cs && Reach(g, x, x) {
      ReachSelf(g, g.Keys, x);
    }
  }

  lemma AllSeenIsIndependent(g: Graph, cs: seq<Hash>, candidates: seq<Hash>, seen: set<Hash>)
    requires History(g) && Stored(g, cs) && Distinct(candidates) && Covers(g, candidates, cs)
    requires forall x | x in candidates :: x in cs
    requires |candidates| <= 1 || (Apart(g, seen, candidates) && forall x | x in candidates :: x in seen)
    ensures AreIndependents(g, cs, candidates)
  {
    hide ReachThrough, Covers, AreIndependents;
    ApartIsIndependent(g, cs, candidates);
  }

  /** The scan of Independents before it looks at position `pos`: the candidates cover
      the input, and those at earlier positions have been traversed. */
  ghost predicate Scanning(g: Graph, commits: seq<Hash>, candidates: seq<Hash>, pos: nat, seen: set<Hash>) {
    && Distinct(candidates) && (forall x | x in candidates :: x in commits)
    && Covers(g, candidates, commits) && Apart(g, seen, candidates)
    && (forall i | 0 <= i < pos && i < |candidates| :: candidates[i] in seen)
  }

  /** What one traversal does to the lists around the current candidate. */
  lemma IndexAfterStriking(candidates: seq<Hash>, pos: nat, gone: set<Hash>, index: int, seen: set<Hash>)
    requires pos < |candidates| && candidates[pos] !in gone && Distinct(candidates)
    requires forall i | 0 <= i < pos :: candidates[i] in seen
    requires var rest := Minus(candidates, gone);
             && -1 <= index < |rest| && (index >= 0 ==> rest[index] == candidates[pos])
             && forall i | 0 <= i < |rest| && rest[i] == candidates[pos] :: 0 <= index <= i
    ensures var rest := Minus(candidates, gone);
            && 0 <= index < |rest| && rest[index] == candidates[pos]
            && |rest| - index <= |candidates| - pos
            && forall i | 0 <= i < index :: rest[i] in seen
  {
    var kept, after := Minus(candidates[..pos], gone), Minus(candidates[pos + 1..], gone);
    SplitCandidates(candidates, pos, gone);
    FirstIndex(kept, candidates[pos], after, index);
    forall i | 0 <= i < index ensures kept[i] in seen {
      assert kept[i] in candidates[..pos];
    }
  }

  /** One round of the scan. */
  method ScanOne(g: Graph, commits: seq<Hash>, candidates: seq<Hash>, pos: nat, seen: HashSet)
    returns (rest: seq<Hash>, nextPos: nat)
    requires History(g) && Stored(g, commits)
    requires Scanning(g, commits, candidates, pos, seen.elems) && pos < |candidates|
    modifies seen
    ensures nextPos <= |rest| && |rest| - nextPos < |candidates| - pos
    ensures Scanning(g, commits, rest, nextPos, seen.elems)
            || (|rest| == 1 == nextPos && Scanning(g, commits, rest, 0, {}))
  {
    hide Covers, Reach, Closed, Acyclic, StrictlyReach;
    var from := candidates[pos];
    ghost var gone;
    rest, gone := StrikeOffHistory(g, from, candidates, seen);
    StrikingKeepsCover(g, from, candidates, gone, commits);
    MinusDistinct(candidates, gone);
    var index := IndexOf(rest, from);
    IndexAfterStriking(candidates, pos, gone, index, old(seen.elems));
    nextPos := index + 1;
  }

  /** Independents: whatever the dates, exactly the members that no other member has as
      an ancestor. The candidates behind the current one only get fewer, although the
      position itself may move back. */
  method Independents(g: Graph, commits: seq<Hash>) returns (res: seq<Hash>)
    requires History(g) && Stored(g, commits)
    ensures AreIndependents(g, commits, res)
  {
    hide Covers, AreIndependents, Reach, NewestFirst, Closed, Acyclic, StrictlyReach;
    var sorted := SortByCommitDateDesc(g, commits);
    var candidates := RemoveDuplicated(sorted);
    CoversItself(g, candidates, commits);
    if |candidates| < 2 {
      AllSeenIsIndependent(g, commits, candidates, {});
      return candidates;
    }
    var seen := new HashSet();
    var pos: nat := 0;
    while true
      invariant fresh(seen) && pos < |candidates|
      invariant Scanning(g, commits, candidates, pos, seen.elems)
      decreases |candidates| - pos
    {
      var nextPos: nat;
      candidates, nextPos := ScanOne(g, commits, candidates, pos, seen);
      if nextPos >= |candidates| {
        break;
      }
      pos := nextPos;
    }
    AllSeenIsIndependent(g, commits, candidates, seen.elems);
    return candidates;
  }

  // ----------------------------------------------------------------- MergeBase

  /** ancestorsIndex: the history of `starting`, unless `excluded` is part of it. */
  method AncestorsIndex(g: Graph, excluded: Hash, starting: Hash) returns (isReachable: bool, history: set<Hash>)
    requires Closed(g) && starting in g
    ensures isReachable == Reach(g, starting, excluded)
    ensures !isReachable ==> forall x :: x in history <==> Reach(g, starting, x)
  {
    hide Reach, Closed, Search;
    SearchAll(g, BreadthFirst, starting);
    ReachReflexive(g, starting);
    history := {};
    if excluded == starting {
      return true, history;
    }
    var it := new BfsCommitIterator(g, starting, {}, []);
    ghost var all := it.Remaining();
    ghost var noIgnore: seq<Hash> := [];
    assert {} + (set h | h in noIgnore) == {};
    while true
      invariant fresh(it) && it.Valid() && it.g == g
      invariant forall x :: x in all <==> x in history || x in it.Remaining()
      invariant excluded !in history
      decreases |it.Remaining()|
    {
      var c := it.Next();
      if c.None? {
        return false, history;
      }
      if c.value == excluded {
        return true, history;
      }
      history := history + {c.value};
    }
  }

  /** IsAncestor: a walk over the history of `other` that stops when it meets c. */
  method IsAncestor(g: Graph, c: Hash, other: Hash) returns (found: bool)
    requires Closed(g) && other in g
    ensures found == Reach(g, other, c)
  {
    hide Reach, Closed, Search;
    SearchAll(g, DepthFirst, other);
    var it := new CommitPreIterator(g, other, {}, []);
    ghost var all := it.Remaining();
    ghost var noIgnore: seq<Hash> := [];
    assert {} + (set h | h in noIgnore) == {};
    while true
      invariant fresh(it) && it.Valid() && it.g == g
      invariant c in all <==> c in it.Remaining()
      decreases |it.Remaining()|
    {
      var comm := it.Next();
      if comm.None? {
        return false;
      }
      if comm.value == c {
        return true;
      }
    }
  }

  /** A walk down from a visited commit to a commit of `stop` meets a visited commit of
      `stop`, if the visited commits outside `stop` have all their parents visited. */
  lemma {:induction false} ChainMeets(g: Graph, reached: set<Hash>, stop: set<Hash>, c: seq<Hash>) returns (k: Hash)
    requires Chain(g, g.Keys, c) && c[0] in reached && c[|c| - 1] in stop
    requires forall v, p | v in reached && v in g && v !in stop && p in g[v].parentHashes :: p in reached
    ensures k in reached && k in stop && Reach(g, k, c[|c| - 1])
    decreases |c|
  {
    if c[0] in stop {
      k := c[0];
      assert ChainFromTo(g, g.Keys, c, k, c[|c| - 1]);
    } else {
      k := ChainMeets(g, reached, stop, c[1..]);
    }
  }

  /** Every common ancestor lies at or below a commit where the walk down from `older`
      first enters the history of `newer`. */
  lemma EntryPointsCover(g: Graph, newer: Hash, older: Hash, history: set<Hash>, reached: set<Hash>, res: seq<Hash>)
    requires older in reached
    requires forall x :: x in history <==> Reach(g, newer, x)
    requires forall v, p | v in reached && v in g && v !in history && p in g[v].parentHashes :: p in reached
    requires forall x | x in reached && x in history :: x in res
    ensures forall x | CommonAncestor(g, newer, older, x) :: exists k :: k in res && Reach(g, k, x)
  {
    forall x | CommonAncestor(g, newer, older, x) ensures exists k :: k in res && Reach(g, k, x) {
      var c :| ChainFromTo(g, g.Keys, c, older, x);
      var k := ChainMeets(g, reached, history, c);
    }
  }

  /** The independent ones among common ancestors that cover all common ancestors are
      the best common ancestors. */
  lemma IndependentsAreBest(g: Graph, a: Hash, b: Hash, res: seq<Hash>, best: seq<Hash>)
    requires History(g) && AreIndependents(g, res, best)
    requires forall x | x in res :: CommonAncestor(g, a, b, x)
    requires forall x | CommonAncestor(g, a, b, x) :: exists k :: k in res && Reach(g, k, x)
    ensures AreMergeBases(g, a, b, best)
  {
    hide ReachThrough, Acyclic, Closed;
    forall x, y | x in best && CommonAncestor(g, a, b, y) ensures !StrictlyReach(g, y, x) {
      var k :| k in res && Reach(g, k, y);
      if StrictlyReach(g, y, x) {
        ReachTransitive(g, g.Keys, k, y, x);
        assert k == x || StrictlyReach(g, k, x);
        ReachAntisymmetric(g, x, y);
      }
    }
    forall x | BestCommonAncestor(g, a, b, x) ensures x in best {
      var k :| k in res && Reach(g, k, x);
      assert k == x by {
        assert CommonAncestor(g, a, b, k);
      }
    }
  }

  /** When one commit is in the history of the other it is their only merge base. */
  lemma AncestorIsBest(g: Graph, a: Hash, b: Hash)
    requires History(g) && Reach(g, a, b)
    ensures AreMergeBases(g, a, b, [b]) && AreMergeBases(g, b, a, [b])
  {
    hide ReachThrough, Acyclic, Closed;
    ReachStored(g, a, b);
    ReachReflexive(g, b);
    forall y | CommonAncestor(g, a, b, y) ensures !StrictlyReach(g, y, b) {
      if StrictlyReach(g, y, b) {
        ReachAntisymmetric(g, y, b);
      }
    }
    forall x | BestCommonAncestor(g, a, b, x) ensures x == b {
      assert CommonAncestor(g, a, b, b);
    }
    BestIsSymmetric(g, a, b, [b]);
  }

  lemma ReachStored(g: Graph, a: Hash, b: Hash)
    requires Reach(g, a, b)
    ensures a in g && b in g
  {
    ReachIsStored(g, g.Keys, a, b);
  }

  lemma BestIsSymmetric(g: Graph, a: Hash, b: Hash, res: seq<Hash>)
    requires AreMergeBases(g, a, b, res)
    ensures AreMergeBases(g, b, a, res)
  {
    forall x ensures BestCommonAncestor(g, a, b, x) <==> BestCommonAncestor(g, b, a, x) {
      assert forall y :: CommonAncestor(g, a, b, y) <==> CommonAncestor(g, b, a, y);
    }
  }

  /** Collect the commits where the walk down from `older` enters `history`. */
  method EntryPoints(g: Graph, newer: Hash, older: Hash, history: set<Hash>) returns (res: seq<Hash>)
    requires Closed(g) && older in g
    requires forall x :: x in history <==> Reach(g, newer, x)
    ensures forall x | x in res :: x in g && CommonAncestor(g, newer, older, x)
    ensures forall x | CommonAncestor(g, newer, older, x) :: exists k :: k in res && Reach(g, k, x)
  {
    hide FilterCommitIter.Valid, Reach;
    var inNewerHistory := new HashSet();
    inNewerHistory.elems := history;
    var it := new FilterCommitIter(g, older, inNewerHistory, inNewerHistory);
    res := [];
    while true
      invariant fresh(it) && it.Valid() && it.g == g && it.from == older
      invariant it.isValid == it.isLimit == inNewerHistory && inNewerHistory.elems == history
      invariant forall x :: x in res <==> x in it.reached && x in history
      invariant forall x | x in it.reached :: x in it.limited <==> x in history
      decreases !it.closed, g.Keys - it.reached
    {
      var c := it.Next();
      it.ReachedIsHistory();
      if c.None? {
        break;
      }
      res := res + [c.value];
    }
    EntryPointsCover(g, newer, older, history, it.reached, res);
  }

  /** MergeBase: exactly the maximal common ancestors, whatever the dates. */
  method MergeBase(g: Graph, c: Hash, other: Hash) returns (res: seq<Hash>)
    requires History(g) && c in g && other in g
    ensures AreMergeBases(g, c, other, res)
  {
    hide AreMergeBases, AreIndependents, Reach;
    var sorted := SortByCommitDateDesc(g, [c, other]);
    var newer, older := sorted[0], sorted[1];
    SortedPair(c, other, sorted);
    var isReachable, newerHistory := AncestorsIndex(g, older, newer);
    if isReachable {
      AncestorIsBest(g, newer, older);
      return [older];
    }
    var entries := EntryPoints(g, newer, older, newerHistory);
    res := Independents(g, entries);
    IndependentsAreBest(g, newer, older, entries, res);
    BestIsSymmetric(g, newer, older, res);
  }

  lemma SortedPair(a: Hash, b: Hash, s: seq<Hash>)
    requires multiset(s) == multiset([a, b]) && |s| == 2
    ensures (s[0] == a && s[1] == b) || (s[0] == b && s[1] == a)
  {
    assert s == [s[0], s[1]];
    assert s[0] in multiset(s) && s[1] in multiset(s);
    assert multiset{s[0], s[1]} == multiset{a, b};
    assert multiset{s[0], s[1]} - multiset{s[0]} == multiset{s[1]};
  }
}
