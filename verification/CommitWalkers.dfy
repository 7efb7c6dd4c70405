/** The unfiltered walkers (versionmgr/commit_walker.go, commit_walker_bfs.go). Each
    iterator holds the rest of one traversal: Next returns its first commit and leaves
    the others. */
module CommitWalkers {
  import opened Wrappers
  import opened Hashes
  import opened CommitGraph
  import opened Traversal

  /** arraryCommitIter (versionmgr/commit_node.go): a list and the index last read. */
  datatype ArrayIter = ArrayIter(commits: seq<Hash>, idx: int) {
    ghost predicate Valid() {
      -1 <= idx && (idx < |commits| || (commits == [] && idx == -1))
    }

    ghost function Rest(): seq<Hash>
      requires Valid()
    {
      commits[idx + 1..]
    }
  }

  ghost predicate AllValid(stack: seq<ArrayIter>) {
    forall i | 0 <= i < |stack| :: stack[i].Valid()
  }

  /** What the iterators on the stack still hold, the top one (the last) first. */
  ghost function Pending(stack: seq<ArrayIter>): seq<Hash>
    requires AllValid(stack)
  {
    if stack == [] then []
    else stack[|stack| - 1].Rest() + Pending(stack[..|stack| - 1])
  }

  lemma PushPending(stack: seq<ArrayIter>, top: ArrayIter)
    requires AllValid(stack) && top.Valid()
    ensures AllValid(stack + [top])
    ensures Pending(stack + [top]) == top.Rest() + Pending(stack)
  {
    assert (stack + [top])[..|stack|] == stack;
  }

  /** What is pending when the top iterator is advanced, or popped because it is used up. */
  lemma TopOfStack(stack: seq<ArrayIter>)
    requires AllValid(stack) && stack != []
    ensures var top, below := stack[|stack| - 1], stack[..|stack| - 1];
            && AllValid(below) && -1 <= top.idx
            && if top.idx < |top.commits| - 1 then
                 var stack' := below + [top.(idx := top.idx + 1)];
                 AllValid(stack') && Pending(stack) == [top.commits[top.idx + 1]] + Pending(stack')
               else Pending(stack) == Pending(below)
  {
    hide Pending;
    var top, below := stack[|stack| - 1], stack[..|stack| - 1];
    assert stack == below + [top];
    PushPending(below, top);
    if top.idx < |top.commits| - 1 {
      var more := top.(idx := top.idx + 1);
      PushPending(below, more);
      assert top.Rest() == [top.commits[top.idx + 1]] + more.Rest();
    } else {
      assert top.Rest() == [];
    }
  }

  lemma PendingNothing()
    ensures Pending([]) == []
  {
  }

  /** Pre-order: a stack of iterators over parents. */
  class CommitPreIterator {
    const g: Graph
    const seenExternal: set<Hash>
    var seen: set<Hash>
    var stack: seq<ArrayIter>
    var start: Option<Hash>

    ghost function Todo(): seq<Hash>
      requires AllValid(stack)
      reads this
    {
      (if start.Some? then [start.value] else []) + Pending(stack)
    }

    ghost predicate Valid()
      reads this
    {
      Closed(g) && AllValid(stack) && Stored(g, Todo())
    }

    /** The commits this iterator will still return, in order. */
    ghost function Remaining(): seq<Hash>
      requires Valid()
      reads this
    {
      Search(g, DepthFirst, Todo(), seen + seenExternal)
    }

    constructor (g: Graph, c: Hash, seenExternal: set<Hash>, ignore: seq<Hash>)
      requires Closed(g) && c in g
      ensures Valid() && this.g == g
      ensures Remaining() == Search(g, DepthFirst, [c], seenExternal + set h | h in ignore)
    {
      this.g, this.seenExternal := g, seenExternal;
      seen := set h | h in ignore;
      stack, start := [], Some(c);
      new;
      assert Todo() == [c];
      assert seen + seenExternal == seenExternal + set h | h in ignore;
    }

    /** Take the next candidate commit from the start or from the top iterator; iterators
        that are used up are popped. */
    method Take() returns (c: Option<Hash>)
      requires Valid()
      modifies this`stack, this`start
      ensures Valid() && start.None?
      ensures c.None? ==> old(Todo()) == [] && Todo() == []
      ensures c.Some? ==> old(Todo()) == [c.value] + Todo()
    {
      hide Pending, Search;
      PendingNothing();
      if start.Some? {
        c := start;
        start := None;
        assert old(Todo()) == [c.value] + Todo();
        return;
      }
      while stack != []
        invariant Valid() && start.None? && Todo() == old(Todo())
        decreases |stack|
      {
        var current := |stack| - 1;
        var top, below := stack[current], stack[..current];
        TopOfStack(stack);
        if top.idx < |top.commits| - 1 {
          c := Some(top.commits[top.idx + 1]);
          stack := below + [top.(idx := top.idx + 1)];
          return;
        }
        stack := below;
      }
      return None;
    }

    method Next() returns (r: Option<Hash>)
      requires Valid()
      modifies this
      ensures Valid()
      ensures r.None? ==> old(Remaining()) == [] && Remaining() == []
      ensures r.Some? ==> old(Remaining()) == [r.value] + Remaining()
    {
      while true
        invariant Valid() && Remaining() == old(Remaining())
        decreases |Todo()|
      {
        var c := Take();
        if c.None? {
          return None;
        }
        if c.value !in seen && c.value !in seenExternal {
          Visit(c.value);
          return c;
        }
      }
    }

    /** Mark c as seen and push an iterator over its unseen parents. */
    method Visit(c: Hash)
      requires Valid() && start.None? && c in g && c !in seen && c !in seenExternal
      modifies this`seen, this`stack
      ensures Valid() && start.None?
      ensures Search(g, DepthFirst, [c] + old(Todo()), old(seen) + seenExternal) == [c] + Remaining()
    {
      hide Pending;
      ghost var before, rest := seen + seenExternal, Todo();
      seen := seen + {c};
      var ps := g[c].parentHashes;
      if |ps| > 0 {
        PushPending(stack, ArrayIter(Minus(ps, seen), -1));
        stack := stack + [ArrayIter(Minus(ps, seen), -1)];
      }
      assert Todo() == [] + Minus(ps, seen) + rest;
      assert before + {c} == seen + seenExternal;
      assert ([c] + rest)[1..] == rest;
      assert [] + ps + rest == ps + rest;
      DropUnseen(g, DepthFirst, [], ps, rest, seen, before + {c});
    }
  }

  lemma {:induction false} ReverseConcat(a: seq<Hash>, b: seq<Hash>)
    ensures Reverse(a + b) == Reverse(b) + Reverse(a)
  {
    if a == [] {
      assert a + b == b;
    } else {
      assert (a + b)[1..] == a[1..] + b;
      ReverseConcat(a[1..], b);
    }
  }

  /** "Post-order": a single stack of commits, parents pushed in their listed order. */
  class CommitPostIterator {
    const g: Graph
    var stack: seq<Hash>
    var seen: set<Hash>

    ghost predicate Valid()
      reads this
    {
      Closed(g) && Stored(g, stack)
    }

    ghost function Remaining(): seq<Hash>
      requires Valid()
      reads this
    {
      Search(g, DepthFirstReversed, Reverse(stack), seen)
    }

    constructor (g: Graph, c: Hash, ignore: seq<Hash>)
      requires Closed(g) && c in g
      ensures Valid() && this.g == g
      ensures Remaining() == Search(g, DepthFirstReversed, [c], set h | h in ignore)
    {
      this.g := g;
      seen := set h | h in ignore;
      stack := [c];
      new;
      assert Reverse(stack) == [c];
    }

    method Next() returns (r: Option<Hash>)
      requires Valid()
      modifies this
      ensures Valid()
      ensures r.None? ==> old(Remaining()) == [] && Remaining() == []
      ensures r.Some? ==> old(Remaining()) == [r.value] + Remaining()
    {
      while stack != []
        invariant Valid() && Remaining() == old(Remaining())
        decreases |stack|
      {
        var c, below := stack[|stack| - 1], stack[..|stack| - 1];
        assert stack == below + [c];
        ReverseConcat(below, [c]);
        assert Reverse([c]) == [c] && (Reverse(below + [c]))[1..] == Reverse(below);
        stack := below;
        if c !in seen {
          seen := seen + {c};
          stack := stack + g[c].parentHashes;
          ReverseConcat(below, g[c].parentHashes);
          return Some(c);
        }
      }
      return None;
    }
  }

  /** Breadth-first: a queue of commits. */
  class BfsCommitIterator {
    const g: Graph
    const seenExternal: set<Hash>
    var seen: set<Hash>
    var queue: seq<Hash>

    ghost predicate Valid()
      reads this
    {
      Closed(g) && Stored(g, queue)
    }

    ghost function Remaining(): seq<Hash>
      requires Valid()
      reads this
    {
      Search(g, BreadthFirst, queue, seen + seenExternal)
    }

    constructor (g: Graph, c: Hash, seenExternal: set<Hash>, ignore: seq<Hash>)
      requires Closed(g) && c in g
      ensures Valid() && this.g == g
      ensures Remaining() == Search(g, BreadthFirst, [c], seenExternal + set h | h in ignore)
    {
      this.g, this.seenExternal := g, seenExternal;
      seen := set h | h in ignore;
      queue := [c];
      new;
      assert seen + seenExternal == seenExternal + set h | h in ignore;
    }

    /** appendHash for each parent: those seen already are not queued. */
    method AppendHashes(hashes: seq<Hash>)
      modifies this`queue
      ensures queue == old(queue) + Minus(hashes, seen + seenExternal)
    {
      for i := 0 to |hashes|
        invariant queue == old(queue) + Minus(hashes[..i], seen + seenExternal)
      {
        assert hashes[..i + 1] == hashes[..i] + [hashes[i]];
        MinusLast(hashes[..i], hashes[i], seen + seenExternal);
        if hashes[i] !in seen && hashes[i] !in seenExternal {
          queue := queue + [hashes[i]];
        }
      }
      assert hashes[..|hashes|] == hashes;
    }

    method Next() returns (r: Option<Hash>)
      requires Valid()
      modifies this
      ensures Valid()
      ensures r.None? ==> old(Remaining()) == [] && Remaining() == []
      ensures r.Some? ==> old(Remaining()) == [r.value] + Remaining()
    {
      while queue != []
        invariant Valid() && Remaining() == old(Remaining())
        decreases |queue|
      {
        var c := queue[0];
        queue := queue[1..];
        if c !in seen && c !in seenExternal {
          ghost var rest, before := queue, seen + seenExternal;
          seen := seen + {c};
          var ps := g[c].parentHashes;
          AppendHashes(ps);
          assert before + {c} == seen + seenExternal;
          DropUnseen(g, BreadthFirst, rest, ps, [], before + {c}, before + {c});
          assert rest + ps + [] == rest + ps;
          assert rest + Minus(ps, before + {c}) + [] == queue;
          return Some(c);
        }
      }
      return None;
    }
  }
}
