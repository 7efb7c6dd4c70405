/** A reference definition of graph traversal: a work list, a set of commits already
    seen, and the order in which a commit's parents join the list. The walkers of the
    repository are proved against it, and it is proved against reachability. */
module Traversal {
  import opened Hashes
  import opened CommitGraph

  datatype Order = DepthFirst | DepthFirstReversed | BreadthFirst

  ghost function Reverse(s: seq<Hash>): (r: seq<Hash>)
    ensures |r| == |s| && forall x :: x in r <==> x in s
  {
    if s == [] then [] else Reverse(s[1..]) + [s[0]]
  }

  /** The work list after the commit with parents `ps` was taken off its front. */
  ghost function Join(order: Order, ps: seq<Hash>, rest: seq<Hash>): (r: seq<Hash>)
    ensures forall x :: x in r <==> x in ps || x in rest
  {
    match order
    case DepthFirst => ps + rest
    case DepthFirstReversed => Reverse(ps) + rest
    case BreadthFirst => rest + ps
  }

  ghost predicate Stored(g: Graph, todo: seq<Hash>) {
    forall x | x in todo :: x in g
  }

  /** The commits visited, in order, from the work list `todo`. */
  ghost function Search(g: Graph, order: Order, todo: seq<Hash>, seen: set<Hash>): seq<Hash>
    requires Closed(g) && Stored(g, todo)
    decreases g.Keys - seen, |todo|
  {
    if todo == [] then []
    else if todo[0] in seen then Search(g, order, todo[1..], seen)
    else
      assert todo[0] in g.Keys - seen;
      [todo[0]] + Search(g, order, Join(order, g[todo[0]].parentHashes, todo[1..]), seen + {todo[0]})
  }

  /** One step of Search. */
  lemma SearchStep(g: Graph, order: Order, todo: seq<Hash>, seen: set<Hash>)
    requires Closed(g) && Stored(g, todo) && todo != []
    ensures todo[0] in seen ==> Search(g, order, todo, seen) == Search(g, order, todo[1..], seen)
    ensures todo[0] !in seen ==>
              Search(g, order, todo, seen)
              == [todo[0]] + Search(g, order, Join(order, g[todo[0]].parentHashes, todo[1..]), seen + {todo[0]})
  {
  }

  /** No commit is visited twice, and none that was seen before. */
  lemma {:induction false} SearchDistinct(g: Graph, order: Order, todo: seq<Hash>, seen: set<Hash>)
    requires Closed(g) && Stored(g, todo)
    ensures forall x | x in Search(g, order, todo, seen) :: x in g && x !in seen
    ensures forall i, j | 0 <= i < j < |Search(g, order, todo, seen)| ::
              Search(g, order, todo, seen)[i] != Search(g, order, todo, seen)[j]
    decreases g.Keys - seen, |todo|
  {
    if todo != [] {
      if todo[0] in seen {
        SearchDistinct(g, order, todo[1..], seen);
      } else {
        assert todo[0] in g.Keys - seen;
        SearchDistinct(g, order, Join(order, g[todo[0]].parentHashes, todo[1..]), seen + {todo[0]});
      }
    }
  }

  /** Everything on the work list, and every parent of a visited commit, ends up seen. */
  lemma {:induction false} SearchClosed(g: Graph, order: Order, todo: seq<Hash>, seen: set<Hash>)
    requires Closed(g) && Stored(g, todo)
    ensures forall x | x in todo :: x in Search(g, order, todo, seen) || x in seen
    ensures forall v, p | v in Search(g, order, todo, seen) && v in g && p in g[v].parentHashes ::
              p in Search(g, order, todo, seen) || p in seen
    decreases g.Keys - seen, |todo|
  {
    if todo != [] {
      var c := todo[0];
      assert todo == [c] + todo[1..];
      if c in seen {
        SearchClosed(g, order, todo[1..], seen);
      } else {
        assert c in g.Keys - seen;
        SearchClosed(g, order, Join(order, g[c].parentHashes, todo[1..]), seen + {c});
      }
    }
  }

  /** Every visited commit is reached from the work list through unseen commits. */
  lemma {:induction false} SearchSound(g: Graph, order: Order, todo: seq<Hash>, seen: set<Hash>, x: Hash)
    returns (t: Hash)
    requires Closed(g) && Stored(g, todo) && x in Search(g, order, todo, seen)
    ensures t in todo && ReachThrough(g, g.Keys - seen, t, x)
    decreases g.Keys - seen, |todo|
  {
    var c, rest := todo[0], todo[1..];
    assert todo == [c] + rest;
    if c in seen {
      t := SearchSound(g, order, rest, seen, x);
    } else if x == c {
      t := c;
      ReachSelf(g, g.Keys - seen, c);
    } else {
      assert c in g.Keys - seen;
      var u := SearchSound(g, order, Join(order, g[c].parentHashes, rest), seen + {c}, x);
      ReachMore(g, g.Keys - (seen + {c}), g.Keys - seen, u, x);
      if u in rest {
        t := u;
      } else {
        t := c;
        ReachSelf(g, g.Keys - seen, c);
        ReachParent(g, g.Keys - seen, c, c, u);
        ReachTransitive(g, g.Keys - seen, c, u, x);
      }
    }
  }

  /** Whatever the order, a walk from `start` visits exactly the unseen commits that can
      be reached through unseen commits. */
  lemma SearchExact(g: Graph, order: Order, start: Hash, seen: set<Hash>)
    requires Closed(g) && start in g
    ensures forall x :: x in Search(g, order, [start], seen) <==>
                          x !in seen && start !in seen && ReachThrough(g, g.Keys - seen, start, x)
  {
    var out := Search(g, order, [start], seen);
    SearchDistinct(g, order, [start], seen);
    SearchClosed(g, order, [start], seen);
    forall x | x in out ensures start !in seen && ReachThrough(g, g.Keys - seen, start, x) {
      var t := SearchSound(g, order, [start], seen, x);
      var c :| ChainFromTo(g, g.Keys - seen, c, start, x);
      assert c[0] == x || c[0] in g.Keys - seen;
    }
    forall x | x !in seen && start !in seen && ReachThrough(g, g.Keys - seen, start, x) ensures x in out {
      ClosedSetHolds(g, g.Keys - seen, (set v | v in out) + seen, start, x);
    }
  }

  /** A walk from `start` with nothing ignored visits exactly its history. */
  lemma SearchAll(g: Graph, order: Order, start: Hash)
    requires Closed(g) && start in g
    ensures forall x :: x in Search(g, order, [start], {}) <==> Reach(g, start, x)
  {
    SearchExact(g, order, start, {});
    assert g.Keys - {} == g.Keys;
  }

  /** Entries of the work list that were seen already may be dropped: the walkers do so
      when they queue parents. */
  lemma {:induction false} DropSeen(g: Graph, order: Order, a: seq<Hash>, x: Hash, b: seq<Hash>, seen: set<Hash>)
    requires Closed(g) && Stored(g, a + [x] + b) && x in seen
    ensures Stored(g, a + b) && Search(g, order, a + [x] + b, seen) == Search(g, order, a + b, seen)
    decreases g.Keys - seen, |a|
  {
    hide Search;
    var all, less := a + [x] + b, a + b;
    SearchStep(g, order, all, seen);
    assert forall y | y in less :: y in all;
    if a == [] {
      assert all[1..] == b && less == b;
    } else {
      SearchStep(g, order, less, seen);
      assert all[0] == a[0] == less[0];
      assert all[1..] == a[1..] + [x] + b && less[1..] == a[1..] + b;
      if a[0] in seen {
        DropSeen(g, order, a[1..], x, b, seen);
      } else {
        assert a[0] in g.Keys - seen;
        var a', b' := JoinAround(order, g[a[0]].parentHashes, a[1..], x, b);
        DropSeen(g, order, a', x, b', seen + {a[0]});
      }
    }
  }

  /** Joining parents to a work list leaves its elements where they are relative to one
      another. */
  lemma JoinAround(order: Order, ps: seq<Hash>, a: seq<Hash>, x: Hash, b: seq<Hash>)
    returns (a': seq<Hash>, b': seq<Hash>)
    ensures Join(order, ps, a + [x] + b) == a' + [x] + b'
    ensures Join(order, ps, a + b) == a' + b'
  {
    match order {
      case DepthFirst => a', b' := ps + a, b;
      case DepthFirstReversed => a', b' := Reverse(ps) + a, b;
      case BreadthFirst => a', b' := a, b + ps;
    }
  }

  /** The elements of s outside `seen`, in order. */
  function Minus(s: seq<Hash>, seen: set<Hash>): (r: seq<Hash>)
    ensures forall x :: x in r <==> x in s && x !in seen
  {
    if s == [] then []
    else if s[0] in seen then Minus(s[1..], seen)
    else [s[0]] + Minus(s[1..], seen)
  }

  lemma {:induction false} MinusConcat(a: seq<Hash>, b: seq<Hash>, drop: set<Hash>)
    ensures Minus(a + b, drop) == Minus(a, drop) + Minus(b, drop)
  {
    if a == [] {
      assert a + b == b;
    } else {
      assert (a + b)[1..] == a[1..] + b;
      MinusConcat(a[1..], b, drop);
    }
  }

  lemma MinusLast(s: seq<Hash>, x: Hash, drop: set<Hash>)
    ensures Minus(s + [x], drop) == Minus(s, drop) + if x in drop then [] else [x]
  {
    MinusConcat(s, [x], drop);
  }

  lemma {:induction false} DropUnseen(g: Graph, order: Order, a: seq<Hash>, s: seq<Hash>, b: seq<Hash>,
                                      drop: set<Hash>, seen: set<Hash>)
    requires Closed(g) && Stored(g, a + s + b) && drop <= seen
    ensures Stored(g, a + Minus(s, drop) + b)
    ensures Search(g, order, a + s + b, seen) == Search(g, order, a + Minus(s, drop) + b, seen)
    decreases |s|
  {
    hide Search;
    if s != [] {
      assert a + s + b == a + [s[0]] + (s[1..] + b);
      if s[0] in drop {
        DropSeen(g, order, a, s[0], s[1..] + b, seen);
        assert a + (s[1..] + b) == a + s[1..] + b;
        DropUnseen(g, order, a, s[1..], b, drop, seen);
      } else {
        assert a + s + b == (a + [s[0]]) + s[1..] + b;
        DropUnseen(g, order, a + [s[0]], s[1..], b, drop, seen);
        assert a + ([s[0]] + Minus(s[1..], drop)) + b == (a + [s[0]]) + Minus(s[1..], drop) + b;
      }
    }
  }
}
