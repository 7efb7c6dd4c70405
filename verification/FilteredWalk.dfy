/** The breadth-first walk with a validity and a limit filter
    (versionmgr/commit_walker_bfs_filtered.go). */
module FilteredWalk {
  import opened Wrappers
  import opened Hashes
  import opened CommitGraph
  import opened Traversal
  import opened TraversalOrder

  /** A Go map used as a set. Filters keep a reference to it, so a caller may go on
      adding to it while an iterator that filters by it is running. */
  class HashSet {
    var elems: set<Hash>

    constructor ()
      ensures elems == {}
    {
      elems := {};
    }

    method Add(h: Hash)
      modifies this
      ensures elems == old(elems) + {h}
    {
      elems := elems + {h};
    }
  }

  ghost function Elems(s: seq<Hash>): set<Hash> {
    set x | x in s
  }

  /** The history as a walk sees it that does not go past the commits of `limits`. */
  ghost function Cut(g: Graph, limits: set<Hash>): (r: Graph)
    ensures r.Keys == g.Keys
    ensures Closed(g) ==> Closed(r)
  {
    map h | h in g :: if h in limits then g[h].(parentHashes := []) else g[h]
  }

  /** After `trail` the walk goes on from `todo` as the breadth-first search from `from`
      does. */
  ghost predicate OrderFor(g: Graph, from: Hash, limits: set<Hash>, todo: seq<Hash>, reached: set<Hash>,
                           trail: seq<Hash>) {
    && Closed(g) && from in g && Stored(g, todo)
    && trail + Search(Cut(g, limits), BreadthFirst, todo, reached) == Search(Cut(g, limits), BreadthFirst, [from], {})
  }

  lemma OrderAtStart(g: Graph, from: Hash, limits: set<Hash>)
    requires Closed(g) && from in g
    ensures OrderFor(g, from, limits, [from], {}, [])
  {
    var all := Search(Cut(g, limits), BreadthFirst, [from], {});
    assert [] + all == all;
  }

  lemma OrderAfterDrop(g: Graph, from: Hash, limits: set<Hash>, todo: seq<Hash>, reached: set<Hash>, trail: seq<Hash>)
    requires OrderFor(g, from, limits, todo, reached, trail) && todo != [] && todo[0] in reached
    ensures OrderFor(g, from, limits, todo[1..], reached, trail)
  {
    SearchStep(Cut(g, limits), BreadthFirst, todo, reached);
  }

  lemma OrderAfterVisit(g: Graph, from: Hash, limits: set<Hash>, c: Hash, rest: seq<Hash>, reached: set<Hash>,
                        trail: seq<Hash>)
    requires OrderFor(g, from, limits, [c] + rest, reached, trail) && c !in reached
    ensures c in g
    ensures OrderFor(g, from, limits, rest + if c in limits then [] else Minus(g[c].parentHashes, reached + {c}),
                     reached + {c}, trail + [c])
  {
    hide Search;
    var cut, todo := Cut(g, limits), [c] + rest;
    assert c in todo && todo[1..] == rest;
    SearchStep(cut, BreadthFirst, todo, reached);
    var ps, now := cut[c].parentHashes, reached + {c};
    assert Join(BreadthFirst, ps, rest) == rest + ps == rest + ps + [];
    forall x | x in rest + ps ensures x in g {
      assert x in rest ==> x in todo;
    }
    DropUnseen(cut, BreadthFirst, rest, ps, [], now, now);
    assert rest + Minus(ps, now) + [] == rest + Minus(ps, now);
    assert (trail + [c]) + Search(cut, BreadthFirst, rest + Minus(ps, now), now)
        == trail + ([c] + Search(cut, BreadthFirst, rest + Minus(ps, now), now));
  }

  lemma KnownFirst(reached: set<Hash>, todo: seq<Hash>)
    requires todo != []
    ensures reached + Elems(todo) == reached + {todo[0]} + Elems(todo[1..])
    ensures todo[0] in reached ==> reached + Elems(todo) == reached + Elems(todo[1..])
  {
    assert todo == [todo[0]] + todo[1..];
  }

  class FilterCommitIter {
    const g: Graph
    const from: Hash
    const isValid: HashSet?  // null: every commit is valid
    const isLimit: HashSet?  // null: no commit is a limit
    var visited: set<Hash>
    var queue: seq<Hash>
    var closed: bool
    ghost var reached: set<Hash>  // every commit ever visited
    ghost var limited: set<Hash>  // those that were a limit when visited
    ghost var trail: seq<Hash>  // the visited commits in the order of their visits

    /** Every commit in `known` is stored and reachable without passing a limit. */
    ghost predicate Sound(known: set<Hash>)
      reads `reached, `limited
    {
      && Closed(g) && from in known && known <= g.Keys
      && limited <= reached <= known
      && (forall x | x in known :: ReachThrough(g, reached - limited, from, x))
    }

    /** The parents of visited commits that were no limit are in `known`. */
    ghost predicate Expanded(known: set<Hash>)
      reads `reached, `limited
    {
      forall v, p | v in reached && v in g && v !in limited && p in g[v].parentHashes :: p in known
    }

    ghost predicate Holds(known: set<Hash>)
      reads `reached, `limited
    {
      Sound(known) && Expanded(known)
    }

    /** The limits of a walk, as far as they have been asked for. */
    ghost predicate Agrees(limits: set<Hash>)
      reads `reached, `limited
    {
      forall v | v in reached :: v in limits <==> v in limited
    }

    /** The visits so far are the beginning of a breadth-first search, and `todo` is what
        that search goes on with, whatever the limits among the commits not visited yet. */
    ghost predicate InOrder(todo: seq<Hash>)
      reads `reached, `limited, `trail
    {
      && (forall x :: x in trail <==> x in reached)
      && forall limits: set<Hash> :: Agrees(limits) ==> OrderFor(g, from, limits, todo, reached, trail)
    }

    ghost predicate Valid()
      reads this
    {
      && InOrder(queue)
      && Holds(reached + Elems(queue))
      && (if closed then queue == [] else visited == reached)
    }

    /** As Valid, while the commit c is neither queued nor visited. */
    ghost predicate Holding(c: Hash)
      reads this
    {
      && InOrder([c] + queue)
      && Holds(reached + {c} + Elems(queue))
      && !closed && visited == reached && c !in reached
    }

    constructor (g: Graph, from: Hash, isValid: HashSet?, isLimit: HashSet?)
      requires Closed(g) && from in g
      ensures Valid() && fresh(this)
      ensures this.g == g && this.from == from && this.isValid == isValid && this.isLimit == isLimit
      ensures reached == {} == limited && trail == [] && !closed
    {
      this.g, this.from, this.isValid, this.isLimit := g, from, isValid, isLimit;
      visited, queue, closed := {}, [from], false;
      reached, limited, trail := {}, {}, [];
      new;
      forall limits: set<Hash> ensures OrderFor(g, from, limits, queue, reached, trail) {
        OrderAtStart(g, from, limits);
      }
      ReachSelf(g, reached - limited, from);
    }

    predicate PassesValid(h: Hash)
      reads isValid
    {
      isValid == null || h in isValid.elems
    }

    predicate IsLimit(h: Hash)
      reads isLimit
    {
      isLimit != null && h in isLimit.elems
    }

    /** Dropping a queued commit that was visited meanwhile. */
    lemma DropKeepsOrder(todo: seq<Hash>)
      requires InOrder(todo) && todo != [] && todo[0] in reached
      ensures InOrder(todo[1..])
    {
      forall limits: set<Hash> | Agrees(limits) ensures OrderFor(g, from, limits, todo[1..], reached, trail) {
        OrderAfterDrop(g, from, limits, todo, reached, trail);
      }
    }

    /** popNewFromQueue: the first queued commit that was not visited meanwhile; those
        before it are dropped. */
    method PopNewFromQueue() returns (r: Option<Hash>, ghost k: nat)
      requires Valid() && !closed
      modifies this`queue
      ensures r.Some? ==> Holding(r.value)
      ensures r.None? ==> Valid() && queue == [] && forall x | x in old(queue) :: x in visited
      ensures r.Some? ==> FirstUnvisited(old(queue), k) && old(queue)[k] == r.value && queue == old(queue)[k + 1..]
    {
      hide InOrder, Holds, Elems;
      k := 0;
      while queue != []
        invariant Valid() && !closed
        invariant 0 <= k <= |old(queue)| && queue == old(queue)[k..]
        invariant forall i | 0 <= i < k :: old(queue)[i] in visited
        decreases |queue|
      {
        var first := queue[0];
        ghost var todo := queue;
        KnownFirst(reached, todo);
        queue := queue[1..];
        assert todo == [first] + queue;
        if first !in visited {
          assert FirstUnvisited(old(queue), k);
          return Some(first), k;
        }
        DropKeepsOrder(todo);
        k := k + 1;
      }
      return None, k;
    }

    ghost predicate FirstUnvisited(s: seq<Hash>, k: nat)
      reads `visited
    {
      k < |s| && s[k] !in visited && forall i | 0 <= i < k :: s[i] in visited
    }

    /** addToQueue: append the parents that were not visited yet, in order. */
    method AddToQueue(hashes: seq<Hash>)
      requires !closed
      modifies this`queue
      ensures queue == old(queue) + Minus(hashes, visited)
      ensures forall q :: q in queue <==> q in old(queue) || (q in hashes && q !in visited)
    {
      for i := 0 to |hashes|
        invariant queue == old(queue) + Minus(hashes[..i], visited)
      {
        assert hashes[..i + 1] == hashes[..i] + [hashes[i]];
        MinusLast(hashes[..i], hashes[i], visited);
        if hashes[i] !in visited {
          queue := queue + [hashes[i]];
        }
      }
      assert hashes[..|hashes|] == hashes;
    }

    /** Visit one commit that was taken from the queue. */
    method Visit(c: Hash)
      requires Holding(c)
      modifies this
      ensures Valid() && !closed
      ensures reached == old(reached) + {c} && trail == old(trail) + [c]
      ensures limited == old(limited) + if IsLimit(c) then {c} else {}
      ensures c in g && c !in old(reached)
      ensures queue == old(queue) + if IsLimit(c) then [] else Minus(g[c].parentHashes, reached)
    {
      hide OrderFor, ReachThrough, Closed, Minus;
      HoldsStored(c);
      ghost var before, queue0, trail0 := reached, queue, trail;
      visited := visited + {c};
      reached := reached + {c};
      if !IsLimit(c) {
        AddToQueue(g[c].parentHashes);
      } else {
        limited := limited + {c};
      }
      trail := trail + [c];
      forall limits: set<Hash> | Agrees(limits) ensures OrderFor(g, from, limits, queue, reached, trail) {
        assert c in reached;
        assert old(Agrees(limits));
        assert OrderFor(g, from, limits, [c] + queue0, before, trail0);
        assert c in limits <==> IsLimit(c);
        assert queue0 + [] == queue0;
        OrderAfterVisit(g, from, limits, c, queue0, before, trail0);
      }
      assert limited - {c} == old(limited);
      VisitHolds(c, before, old(limited), queue0);
    }

    /** The commit c, its parents queued unless it is a limit, was reached like the others. */
    lemma VisitHolds(c: Hash, before: set<Hash>, limited0: set<Hash>, queue0: seq<Hash>)
      requires Closed(g) && from in before + {c} + Elems(queue0) && before + {c} + Elems(queue0) <= g.Keys
      requires limited0 <= before && c !in before
      requires forall x | x in before + {c} + Elems(queue0) :: ReachThrough(g, before - limited0, from, x)
      requires forall v, p | v in before && v in g && v !in limited0 && p in g[v].parentHashes ::
                 p in before + {c} + Elems(queue0)
      requires reached == before + {c} && limited == limited0 + if c in limited then {c} else {}
      requires forall q :: q in queue <==>
                 q in queue0 || (c !in limited && c in g && q in g[c].parentHashes && q !in reached)
      ensures Holds(reached + Elems(queue))
    {
      hide ReachThrough;
      forall x | x in reached || x in queue
        ensures x in g && ReachThrough(g, reached - limited, from, x)
      {
        var via := if x in before || x == c || x in queue0 then x else c;
        ReachMore(g, before - limited0, reached - limited, from, via);
        if x != via {
          ReachParent(g, reached - limited, from, c, x);
        }
      }
      forall v, p | v in reached && v in g && v !in limited && p in g[v].parentHashes
        ensures p in reached + Elems(queue)
      {
        assert v == c || p in before + {c} + Elems(queue0);
      }
    }

    lemma HoldsStored(c: Hash)
      requires Holding(c)
      ensures c in g && Closed(g) && limited <= reached && c !in limited && c !in reached
    {
    }

    /** Close forgets the walk; only the ghost record of it remains. */
    method Close()
      requires Valid() && queue == []
      modifies this`visited, this`closed
      ensures Valid() && closed
    {
      visited, closed := {}, true;
    }

    /** One turn of the loop in Next. */
    method Step() returns (c: Option<Hash>)
      requires Valid() && !closed
      modifies this
      ensures Valid() && closed == c.None?
      ensures c.Some? ==> c.value in g && c.value !in old(reached) && c.value !in old(limited)
      ensures reached == old(reached) + if c.Some? then {c.value} else {}
      ensures limited == old(limited) + if c.Some? && IsLimit(c.value) then {c.value} else {}
      ensures trail == old(trail) + if c.Some? then [c.value] else []
    {
      ghost var k;
      c, k := PopNewFromQueue();
      if c.None? {
        Close();
      } else {
        Visit(c.value);
      }
    }

    /** What was visited since the sets were `reached0` and `limited0`: each new commit
        is classified by the limit filter, the old classification stands. */
    ghost predicate Since(reached0: set<Hash>, limited0: set<Hash>)
      reads this, isLimit
    {
      && reached0 <= reached
      && (forall v | v in reached0 :: v in limited <==> v in limited0)
      && (forall v | v in reached && v !in reached0 :: v in limited <==> isLimit != null && v in isLimit.elems)
    }

    ghost predicate AllInvalid(reached0: set<Hash>, but: set<Hash>)
      reads this, isValid
    {
      forall v | v in reached && v !in reached0 && v !in but :: isValid != null && v !in isValid.elems
    }

    /** Next visits commits until one passes the validity filter; the ones skipped on
        the way are recorded as visited, and each visited commit that was no limit has
        had all its parents queued. */
    method Next() returns (r: Option<Hash>)
      requires Valid()
      modifies this
      ensures Valid()
      ensures Since(old(reached), old(limited))
      ensures r.Some? ==> !closed && r.value in reached && r.value !in old(reached)
      ensures r.Some? ==> isValid == null || r.value in isValid.elems
      ensures r.Some? ==> AllInvalid(old(reached), {r.value})
      ensures old(trail) <= trail && (r.Some? ==> trail != [] && trail[|trail| - 1] == r.value)
      ensures r.None? ==> closed && AllInvalid(old(reached), {})
      ensures old(closed) ==> r.None? && reached == old(reached)
    {
      hide Valid;
      while !closed
        invariant Valid()
        invariant Since(old(reached), old(limited)) && AllInvalid(old(reached), {})
        invariant old(closed) ==> closed && reached == old(reached)
        invariant old(trail) <= trail
        decreases !closed, g.Keys - reached
      {
        var c := Step();
        if c.Some? && PassesValid(c.value) {
          return c;
        }
      }
      return None;
    }

    lemma ReachedIsHistory()
      requires Valid()
      ensures reached <= g.Keys && limited <= reached
      ensures forall x | x in reached :: Reach(g, from, x)
      ensures closed ==> from in reached
      ensures closed ==> forall v, p | v in reached && v in g && v !in limited && p in g[v].parentHashes :: p in reached
    {
      forall x | x in reached ensures Reach(g, from, x) {
        ReachMore(g, reached - limited, g.Keys, from, x);
      }
    }

    /** Once the walk has ended it has visited exactly the commits reachable from the
        start through commits that were no limit. */
    lemma Exhausted()
      requires Valid() && closed
      ensures forall x :: x in reached <==> ReachThrough(g, reached - limited, from, x)
    {
      forall x | ReachThrough(g, reached - limited, from, x) ensures x in reached {
        ClosedSetHolds(g, reached - limited, reached, from, x);
      }
    }

    /** Once the walk has ended, it has visited the commits in the breadth-first order of
        the history cut off at the limits: in non-decreasing distance from the start, where
        the distance is measured without going past a limit. */
    lemma EndedInOrder() returns (distances: seq<nat>)
      requires Valid() && closed
      ensures trail == Search(Cut(g, limited), BreadthFirst, [from], {})
      ensures |distances| == |trail| && Ascending(distances)
      ensures forall i | 0 <= i < |trail| :: Distance(Cut(g, limited), {}, from, trail[i], distances[i])
    {
      hide Search, Distance, Ascending;
      assert Agrees(limited);
      assert OrderFor(g, from, limited, queue, reached, trail);
      NothingToSearch(g, limited, reached);
      assert trail + [] == trail;
      distances := BreadthFirstByDistance(Cut(g, limited), from, {});
    }
  }

  lemma NothingToSearch(g: Graph, limits: set<Hash>, reached: set<Hash>)
    requires Closed(g)
    ensures Search(Cut(g, limits), BreadthFirst, [], reached) == []
  {
  }
}
