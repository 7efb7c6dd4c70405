/** What the two list disciplines of a traversal mean: a stack gives the recursive
    depth-first order, a queue gives the order of distance from the start. */
module TraversalOrder {
  import opened Hashes
  import opened CommitGraph
  import opened Traversal

  // ---------------------------------------------------------------- depth first

  ghost function Branches(order: Order, ps: seq<Hash>): (r: seq<Hash>)
    ensures forall x :: x in r <==> x in ps
  {
    if order.DepthFirstReversed? then Reverse(ps) else ps
  }

  /** Recursive depth-first order of the trees hanging below `todo`, with the set of
      seen commits threaded through, and that set at the end. */
  ghost function Dfs(g: Graph, order: Order, todo: seq<Hash>, seen: set<Hash>): (r: (seq<Hash>, set<Hash>))
    requires Closed(g) && Stored(g, todo)
    ensures seen <= r.1
    decreases g.Keys - seen, |todo|
  {
    if todo == [] then ([], seen)
    else if todo[0] in seen then Dfs(g, order, todo[1..], seen)
    else
      assert todo[0] in g.Keys - seen;
      var below := Dfs(g, order, Branches(order, g[todo[0]].parentHashes), seen + {todo[0]});
      var beside := Dfs(g, order, todo[1..], below.1);
      ([todo[0]] + below.0 + beside.0, beside.1)
  }

  lemma DfsNothing(g: Graph, order: Order, seen: set<Hash>)
    requires Closed(g)
    ensures Dfs(g, order, [], seen) == ([], seen)
  {
  }

  /** One step of Dfs. */
  lemma DfsStep(g: Graph, order: Order, todo: seq<Hash>, seen: set<Hash>)
    requires Closed(g) && Stored(g, todo) && todo != []
    ensures todo[0] in seen ==> Dfs(g, order, todo, seen) == Dfs(g, order, todo[1..], seen)
    ensures todo[0] !in seen ==>
              var below := Dfs(g, order, Branches(order, g[todo[0]].parentHashes), seen + {todo[0]});
              var beside := Dfs(g, order, todo[1..], below.1);
              Dfs(g, order, todo, seen) == ([todo[0]] + below.0 + beside.0, beside.1)
  {
  }

  lemma {:induction false} StackIsRecursion(g: Graph, order: Order, a: seq<Hash>, b: seq<Hash>, seen: set<Hash>)
    requires Closed(g) && Stored(g, a + b) && Stored(g, a) && Stored(g, b) && !order.BreadthFirst?
    ensures Search(g, order, a + b, seen)
         == Dfs(g, order, a, seen).0 + Search(g, order, b, Dfs(g, order, a, seen).1)
    decreases g.Keys - seen, |a|
  {
    hide Search, Dfs;
    if a == [] {
      assert a + b == b;
      DfsNothing(g, order, seen);
    } else {
      SearchStep(g, order, a + b, seen);
      DfsStep(g, order, a, seen);
      var c := a[0];
      assert (a + b)[0] == c && (a + b)[1..] == a[1..] + b;
      if c in seen {
        StackIsRecursion(g, order, a[1..], b, seen);
      } else {
        assert c in g.Keys - seen;
        var ps := Branches(order, g[c].parentHashes);
        assert Join(order, g[c].parentHashes, a[1..] + b) == ps + (a[1..] + b);
        StackIsRecursion(g, order, ps, a[1..] + b, seen + {c});
        StackIsRecursion(g, order, a[1..], b, Dfs(g, order, ps, seen + {c}).1);
      }
    }
  }

  /** A stack visits commits in the recursive depth-first order. */
  lemma SearchIsDfs(g: Graph, order: Order, start: Hash, seen: set<Hash>)
    requires Closed(g) && start in g && !order.BreadthFirst?
    ensures Search(g, order, [start], seen) == Dfs(g, order, [start], seen).0
  {
    StackIsRecursion(g, order, [start], [], seen);
    assert [start] + [] == [start];
  }

  // -------------------------------------------------------------- breadth first

  ghost predicate HasChain(g: Graph, seen: set<Hash>, a: Hash, b: Hash, n: nat) {
    exists c :: ChainFromTo(g, g.Keys - seen, c, a, b) && |c| == n + 1
  }

  /** n is the least number of parent steps from a to b through unseen commits. */
  ghost predicate Distance(g: Graph, seen: set<Hash>, a: Hash, b: Hash, n: nat) {
    && HasChain(g, seen, a, b, n)
    && forall c | ChainFromTo(g, g.Keys - seen, c, a, b) :: n < |c|
  }

  ghost predicate Ascending(s: seq<nat>) {
    forall i, j | 0 <= i < j < |s| :: s[i] <= s[j]
  }

  /** p waits in the queue with a label of at most n. */
  ghost predicate Waiting(todo: seq<Hash>, labels: seq<nat>, p: Hash, n: nat) {
    exists i :: 0 <= i < |todo| && i < |labels| && todo[i] == p && labels[i] <= n
  }

  ghost predicate ReachedBy(todo: seq<Hash>, labels: seq<nat>, done: map<Hash, nat>, p: Hash, n: nat) {
    (p in done && done[p] <= n) || Waiting(todo, labels, p, n)
  }

  /** The queue in mid walk: labels ascend and differ by at most one, each is the length
      of a walk, and every parent of a visited commit is visited or waits in time. */
  ghost predicate InOrder(g: Graph, seen: set<Hash>, todo: seq<Hash>, labels: seq<nat>, done: map<Hash, nat>) {
    && Closed(g) && Stored(g, todo) && |labels| == |todo| && Ascending(labels)
    && done.Keys <= g.Keys && done.Keys !! seen
    && (forall i | 0 <= i < |labels| :: labels[i] <= labels[0] + 1)
    && (forall v | v in done && todo != [] :: done[v] <= labels[0])
  }

  ghost predicate Walks(g: Graph, start: Hash, seen: set<Hash>, todo: seq<Hash>, labels: seq<nat>)
    requires |labels| == |todo|
  {
    forall i | 0 <= i < |todo| :: HasChain(g, seen, start, todo[i], labels[i])
  }

  ghost predicate InTime(g: Graph, start: Hash, seen: set<Hash>, todo: seq<Hash>, labels: seq<nat>,
                         done: map<Hash, nat>) {
    && ReachedBy(todo, labels, done, start, 0)
    && (forall v, p | v in done && v in g && p in g[v].parentHashes && p !in seen ::
          ReachedBy(todo, labels, done, p, done[v] + 1))
  }

  ghost predicate Queued(g: Graph, start: Hash, seen: set<Hash>, todo: seq<Hash>, labels: seq<nat>,
                         done: map<Hash, nat>) {
    && InOrder(g, seen, todo, labels, done)
    && Walks(g, start, seen, todo, labels)
    && InTime(g, start, seen, todo, labels, done)
  }

  /** No walk to the unseen commit at the front of the queue is shorter than its label. */
  lemma FrontIsNearest(g: Graph, start: Hash, seen: set<Hash>, todo: seq<Hash>, labels: seq<nat>, done: map<Hash, nat>,
                       c: seq<Hash>)
    requires Queued(g, start, seen, todo, labels, done)
    requires todo != [] && todo[0] !in seen && todo[0] !in done
    requires ChainFromTo(g, g.Keys - seen, c, start, todo[0])
    ensures labels[0] < |c|
  {
    var j := 0;
    while j < |c| - 1 && c[j] in done && done[c[j]] <= j
      invariant 0 <= j < |c|
      invariant ReachedBy(todo, labels, done, c[j], j)
    {
      j := j + 1;
    }
    assert Waiting(todo, labels, c[j], j);
  }

  lemma FrontDistance(g: Graph, start: Hash, seen: set<Hash>, todo: seq<Hash>, labels: seq<nat>, done: map<Hash, nat>)
    requires Queued(g, start, seen, todo, labels, done)
    requires todo != [] && todo[0] !in seen && todo[0] !in done
    ensures Distance(g, seen, start, todo[0], labels[0])
  {
    forall w | ChainFromTo(g, g.Keys - seen, w, start, todo[0]) ensures labels[0] < |w| {
      FrontIsNearest(g, start, seen, todo, labels, done, w);
    }
  }

  lemma QueuedIsStored(g: Graph, start: Hash, seen: set<Hash>, todo: seq<Hash>, labels: seq<nat>, done: map<Hash, nat>)
    requires Queued(g, start, seen, todo, labels, done)
    ensures Closed(g) && Stored(g, todo) && |labels| == |todo|
    ensures forall i | 0 <= i < |labels| :: labels[0] <= labels[i]
  {
  }

  lemma ExtendChain(g: Graph, seen: set<Hash>, start: Hash, b: Hash, p: Hash, n: nat)
    requires Closed(g) && HasChain(g, seen, start, b, n) && b in g && b !in seen && p in g[b].parentHashes
    ensures HasChain(g, seen, start, p, n + 1)
  {
    var c :| ChainFromTo(g, g.Keys - seen, c, start, b) && |c| == n + 1;
    assert ChainFromTo(g, g.Keys - seen, c + [p], start, p);
  }

  /** Dropping a stale front entry keeps the queue in order. */
  lemma DropFront(g: Graph, start: Hash, seen: set<Hash>, todo: seq<Hash>, labels: seq<nat>, done: map<Hash, nat>)
    requires Queued(g, start, seen, todo, labels, done) && todo != []
    requires todo[0] in seen || todo[0] in done
    requires start !in seen
    ensures Queued(g, start, seen, todo[1..], labels[1..], done)
  {
    forall p, n: nat | ReachedBy(todo, labels, done, p, n) && p !in seen
      ensures ReachedBy(todo[1..], labels[1..], done, p, n)
    {
      KeepWaiting(todo, labels, done, p, n);
    }
  }

  lemma KeepWaiting(todo: seq<Hash>, labels: seq<nat>, done: map<Hash, nat>, p: Hash, n: nat)
    requires |labels| == |todo| && todo != []
    requires ReachedBy(todo, labels, done, p, n)
    requires p == todo[0] ==> p in done && done[p] <= labels[0]
    requires Ascending(labels)
    ensures ReachedBy(todo[1..], labels[1..], done, p, n)
  {
    if !(p in done && done[p] <= n) {
      var i :| 0 <= i < |todo| && i < |labels| && todo[i] == p && labels[i] <= n;
      assert i > 0;
      assert todo[1..][i - 1] == p && labels[1..][i - 1] == labels[i];
    }
  }

  ghost function Repeat(n: nat, k: nat): (r: seq<nat>)
    ensures |r| == k && forall i | 0 <= i < k :: r[i] == n
  {
    seq(k, i => n)
  }

  /** Visiting the front commit and queueing its parents keeps the queue in order. */
  lemma VisitFront(g: Graph, start: Hash, seen: set<Hash>, todo: seq<Hash>, labels: seq<nat>, done: map<Hash, nat>)
    requires Queued(g, start, seen, todo, labels, done) && todo != [] && start !in seen
    requires todo[0] !in seen && todo[0] !in done
    ensures var ps := g[todo[0]].parentHashes;
            Queued(g, start, seen, todo[1..] + ps, labels[1..] + Repeat(labels[0] + 1, |ps|),
                   done[todo[0] := labels[0]])
  {
    var c, l := todo[0], labels[0];
    var ps := g[c].parentHashes;
    VisitKeepsWalks(g, start, seen, todo, labels, ps);
    VisitKeepsTime(g, start, seen, todo, labels, done, ps);
    hide Walks, InTime;
    assert forall p | p in ps :: p in g;
  }

  lemma VisitKeepsWalks(g: Graph, start: Hash, seen: set<Hash>, todo: seq<Hash>, labels: seq<nat>, ps: seq<Hash>)
    requires Closed(g) && |labels| == |todo| && todo != [] && Walks(g, start, seen, todo, labels)
    requires todo[0] in g && todo[0] !in seen && ps == g[todo[0]].parentHashes
    ensures Walks(g, start, seen, todo[1..] + ps, labels[1..] + Repeat(labels[0] + 1, |ps|))
  {
    hide HasChain;
    var todo', labels' := todo[1..] + ps, labels[1..] + Repeat(labels[0] + 1, |ps|);
    forall i | 0 <= i < |todo'| ensures HasChain(g, seen, start, todo'[i], labels'[i]) {
      if i < |todo| - 1 {
        assert todo'[i] == todo[i + 1] && labels'[i] == labels[i + 1];
      } else {
        assert todo'[i] in ps;
        ExtendChain(g, seen, start, todo[0], todo'[i], labels[0]);
      }
    }
  }

  lemma VisitKeepsTime(g: Graph, start: Hash, seen: set<Hash>, todo: seq<Hash>, labels: seq<nat>, done: map<Hash, nat>,
                       ps: seq<Hash>)
    requires InOrder(g, seen, todo, labels, done) && todo != [] && InTime(g, start, seen, todo, labels, done)
    requires todo[0] !in seen && todo[0] !in done && ps == g[todo[0]].parentHashes
    ensures InTime(g, start, seen, todo[1..] + ps, labels[1..] + Repeat(labels[0] + 1, |ps|),
                   done[todo[0] := labels[0]])
  {
    hide ReachedBy;
    var todo', labels', done' := todo[1..] + ps, labels[1..] + Repeat(labels[0] + 1, |ps|), done[todo[0] := labels[0]];
    forall p, n: nat | ReachedBy(todo, labels, done, p, n) ensures ReachedBy(todo', labels', done', p, n) {
      StillReached(todo, labels, done, ps, p, n);
    }
    forall p | p in ps ensures ReachedBy(todo', labels', done', p, labels[0] + 1) {
      ParentWaits(todo[1..], labels[1..], done', ps, labels[0] + 1, p);
    }
  }

  lemma ParentWaits(todo: seq<Hash>, labels: seq<nat>, done: map<Hash, nat>, ps: seq<Hash>, n: nat, p: Hash)
    requires |labels| == |todo| && p in ps
    ensures ReachedBy(todo + ps, labels + Repeat(n, |ps|), done, p, n)
  {
    var i :| 0 <= i < |ps| && ps[i] == p;
    assert (todo + ps)[|todo| + i] == p && (labels + Repeat(n, |ps|))[|todo| + i] == n;
  }

  lemma StillReached(todo: seq<Hash>, labels: seq<nat>, done: map<Hash, nat>, ps: seq<Hash>, p: Hash, n: nat)
    requires |labels| == |todo| && todo != [] && Ascending(labels) && todo[0] !in done
    requires ReachedBy(todo, labels, done, p, n)
    ensures ReachedBy(todo[1..] + ps, labels[1..] + Repeat(labels[0] + 1, |ps|), done[todo[0] := labels[0]], p, n)
  {
    var todo', labels' := todo[1..] + ps, labels[1..] + Repeat(labels[0] + 1, |ps|);
    if p != todo[0] && p !in done {
      var i :| 0 <= i < |todo| && i < |labels| && todo[i] == p && labels[i] <= n;
      assert todo'[i - 1] == p && labels'[i - 1] == labels[i];
    } else if p == todo[0] {
      var i :| 0 <= i < |todo| && i < |labels| && todo[i] == p && labels[i] <= n;
      assert labels[0] <= labels[i];
    } else if done[p] > n {
      var i :| 0 <= i < |todo| && i < |labels| && todo[i] == p && labels[i] <= n;
      assert todo'[i - 1] == p && labels'[i - 1] == labels[i];
    }
  }

  lemma {:induction false} QueueOrder(g: Graph, start: Hash, seen: set<Hash>, todo: seq<Hash>, labels: seq<nat>,
                                      done: map<Hash, nat>)
    returns (out: seq<nat>)
    requires Queued(g, start, seen, todo, labels, done) && start !in seen
    ensures |out| == |Search(g, BreadthFirst, todo, seen + done.Keys)|
    ensures forall i | 0 <= i < |out| ::
              Distance(g, seen, start, Search(g, BreadthFirst, todo, seen + done.Keys)[i], out[i])
    ensures Ascending(out) && forall i | 0 <= i < |out| :: todo != [] && labels[0] <= out[i]
    decreases g.Keys - (seen + done.Keys), |todo|
  {
    hide Queued, Distance;
    QueuedIsStored(g, start, seen, todo, labels, done);
    if todo == [] {
      out := [];
    } else if todo[0] in seen + done.Keys {
      DropFront(g, start, seen, todo, labels, done);
      out := QueueOrder(g, start, seen, todo[1..], labels[1..], done);
    } else {
      var c, ps := todo[0], g[todo[0]].parentHashes;
      VisitFront(g, start, seen, todo, labels, done);
      assert seen + done[c := labels[0]].Keys == seen + done.Keys + {c};
      assert c in g.Keys - (seen + done.Keys);
      var rest := QueueOrder(g, start, seen, todo[1..] + ps, labels[1..] + Repeat(labels[0] + 1, |ps|),
                             done[c := labels[0]]);
      FrontDistance(g, start, seen, todo, labels, done);
      out := [labels[0]] + rest;
    }
  }

  /** A queue visits commits in non-decreasing distance from the start. */
  lemma BreadthFirstByDistance(g: Graph, start: Hash, seen: set<Hash>) returns (distances: seq<nat>)
    requires Closed(g) && start in g && start !in seen
    ensures |distances| == |Search(g, BreadthFirst, [start], seen)|
    ensures forall i | 0 <= i < |distances| ::
              Distance(g, seen, start, Search(g, BreadthFirst, [start], seen)[i], distances[i])
    ensures Ascending(distances)
  {
    assert ChainFromTo(g, g.Keys - seen, [start], start, start);
    assert HasChain(g, seen, start, start, 0);
    assert Waiting([start], [0], start, 0) by { assert [start][0] == start; }
    var none: map<Hash, nat> := map[];
    assert Queued(g, start, seen, [start], [0], none);
    assert seen + none.Keys == seen;
    distances := QueueOrder(g, start, seen, [start], [0], none);
  }
}
