/** The walk by committer time (versionmgr/commit_walker_ctime.go). The binary heap is that
    of a library: it is modelled by what its Pop promises, some newest element. */
module TimeWalk {
  import opened Wrappers
  import opened Hashes
  import opened CommitGraph
  import opened Traversal
  import opened MergeBase

  ghost predicate NoParentIsNewer(g: Graph) {
    forall c, p | c in g && p in g && p in g[c].parentHashes :: g[p].committer.when <= g[c].committer.when
  }

  /** Pop: some newest commit is taken out of the heap. */
  method PopNewest(g: Graph, heap: seq<Hash>) returns (c: Hash, rest: seq<Hash>)
    requires Stored(g, heap) && heap != []
    ensures multiset(heap) == multiset{c} + multiset(rest)
    ensures c in heap && forall x | x in heap :: g[x].committer.when <= g[c].committer.when
    ensures forall x :: x in heap <==> x == c || x in rest
    ensures |rest| < |heap|
  {
    var best := 0;
    for i := 0 to |heap|
      invariant 0 <= best < |heap|
      invariant forall j | 0 <= j < i :: g[heap[j]].committer.when <= g[heap[best]].committer.when
    {
      if g[heap[best]].committer.when < g[heap[i]].committer.when {
        best := i;
      }
    }
    c, rest := heap[best], heap[..best] + heap[best + 1..];
    assert heap == heap[..best] + [c] + heap[best + 1..];
  }

  /** What has been emitted, what waits in the heap and what is never visited, in one walk. */
  ghost predicate Walking(g: Graph, start: Hash, skip: set<Hash>, heap: seq<Hash>, emitted: seq<Hash>) {
    && Closed(g) && start in g && Stored(g, heap) && Stored(g, emitted) && Distinct(emitted)
    && (forall x | x in emitted :: x !in skip)
    && (forall x | x in heap || x in emitted :: ReachThrough(g, g.Keys - skip, start, x))
    && (start in heap || start in emitted || start in skip)
    && (forall v, p | v in emitted && p in g[v].parentHashes :: p in heap || p in emitted || p in skip)
  }

  /** The commits come in falling order of time, and nothing newer waits in the heap. */
  ghost predicate Falling(g: Graph, heap: seq<Hash>, emitted: seq<Hash>)
    requires Stored(g, heap) && Stored(g, emitted)
  {
    && (forall i, j | 0 <= i < j < |emitted| :: g[emitted[j]].committer.when <= g[emitted[i]].committer.when)
    && (forall x, e | x in heap && e in emitted :: g[x].committer.when <= g[e].committer.when)
  }

  /** A commit popped again is dropped. */
  lemma DropPopped(g: Graph, start: Hash, skip: set<Hash>, heap: seq<Hash>, emitted: seq<Hash>, c: Hash,
                   rest: seq<Hash>)
    requires Walking(g, start, skip, heap, emitted) && (c in emitted || c in skip)
    requires forall x :: x in heap <==> x == c || x in rest
    ensures Walking(g, start, skip, rest, emitted)
    ensures Falling(g, heap, emitted) ==> Falling(g, rest, emitted)
  {
    hide ReachThrough;
  }

  /** A commit popped for the first time is emitted, and its parents wait. */
  lemma EmitPopped(g: Graph, start: Hash, skip: set<Hash>, heap: seq<Hash>, emitted: seq<Hash>, c: Hash,
                   rest: seq<Hash>, heap': seq<Hash>)
    requires Walking(g, start, skip, heap, emitted) && c !in emitted && c !in skip
    requires c in heap && forall x | x in heap :: g[x].committer.when <= g[c].committer.when
    requires forall x :: x in heap <==> x == c || x in rest
    requires forall x :: x in heap' <==> x in rest || (x in g[c].parentHashes && x !in emitted && x != c && x !in skip)
    ensures Walking(g, start, skip, heap', emitted + [c])
    ensures Falling(g, heap, emitted) && NoParentIsNewer(g) ==> Falling(g, heap', emitted + [c])
  {
    forall x | x in heap' || x in emitted + [c] ensures ReachThrough(g, g.Keys - skip, start, x) {
      if x !in heap && x !in emitted {
        ReachParent(g, g.Keys - skip, start, c, x);
      }
    }
    hide ReachThrough;
    if Falling(g, heap, emitted) && NoParentIsNewer(g) {
      var more := emitted + [c];
      forall i, j | 0 <= i < j < |more| ensures g[more[j]].committer.when <= g[more[i]].committer.when {
        assert more[i] in emitted;
      }
    }
  }

  /** A walk that has run dry has emitted exactly what can be reached without entering the
      skipped commits. */
  lemma WalkIsExact(g: Graph, start: Hash, skip: set<Hash>, emitted: seq<Hash>)
    requires Walking(g, start, skip, [], emitted)
    ensures forall x :: x in emitted <==> x !in skip && start !in skip && ReachThrough(g, g.Keys - skip, start, x)
  {
    forall x | x in emitted ensures start !in skip {
      var c :| ChainFromTo(g, g.Keys - skip, c, start, x);
      assert c[0] == x || c[0] in g.Keys - skip;
    }
    forall x | x !in skip && start !in skip && ReachThrough(g, g.Keys - skip, start, x) ensures x in emitted {
      ClosedSetHolds(g, g.Keys - skip, (set v | v in emitted) + skip, start, x);
    }
  }

  class CommitIteratorByCTime {
    const g: Graph
    const seenExternal: set<Hash>
    var seen: set<Hash>
    var heap: seq<Hash>
    ghost const start: Hash
    ghost const ignored: set<Hash>
    ghost var emitted: seq<Hash>

    ghost function Skipped(): set<Hash> {
      ignored + seenExternal
    }

    ghost predicate Valid()
      reads this
    {
      && Walking(g, start, Skipped(), heap, emitted)
      && (forall x :: x in seen <==> x in ignored || x in emitted)
      && (NoParentIsNewer(g) ==> Falling(g, heap, emitted))
    }

    constructor (g: Graph, c: Hash, seenExternal: set<Hash>, ignore: seq<Hash>)
      requires Closed(g) && c in g
      ensures Valid() && emitted == [] && this.g == g && start == c
      ensures Skipped() == seenExternal + set h | h in ignore
    {
      this.g, this.seenExternal, this.start, this.ignored := g, seenExternal, c, set h | h in ignore;
      seen, heap, emitted := (set h | h in ignore), [c], [];
      new;
      ReachSelf(g, g.Keys - Skipped(), c);
    }

    /** Push the parents that have not been seen. */
    method PushParents(ps: seq<Hash>)
      modifies this`heap
      ensures forall x :: x in heap <==> x in old(heap) || (x in ps && x !in seen && x !in seenExternal)
    {
      for i := 0 to |ps|
        invariant forall x :: x in heap <==> x in old(heap) || (x in ps[..i] && x !in seen && x !in seenExternal)
      {
        assert ps[..i + 1] == ps[..i] + [ps[i]];
        if ps[i] !in seen && ps[i] !in seenExternal {
          heap := heap + [ps[i]];
        }
      }
      assert ps[..|ps|] == ps;
    }

    method Next() returns (r: Option<Hash>)
      requires Valid()
      modifies this
      ensures Valid()
      ensures r.Some? ==> emitted == old(emitted) + [r.value]
      ensures r.None? ==> emitted == old(emitted) && heap == []
    {
      hide Walking, Falling, NoParentIsNewer, Stored, Closed;
      while heap != []
        invariant Valid() && emitted == old(emitted)
        decreases |heap|
      {
        WalkingStored(g, start, Skipped(), heap, emitted);
        ghost var before := heap;
        var c, rest := PopNewest(g, heap);
        heap := rest;
        if c in seen || c in seenExternal {
          DropPopped(g, start, Skipped(), before, emitted, c, rest);
        } else {
          seen := seen + {c};
          PushParents(g[c].parentHashes);
          EmitPopped(g, start, Skipped(), before, emitted, c, rest, heap);
          emitted := emitted + [c];
          return Some(c);
        }
      }
      return None;
    }
  }

  lemma WalkingStored(g: Graph, start: Hash, skip: set<Hash>, heap: seq<Hash>, emitted: seq<Hash>)
    requires Walking(g, start, skip, heap, emitted)
    ensures Stored(g, heap) && Stored(g, emitted) && forall x | x in heap :: x in g
  {
  }

  lemma LastIsNew(g: Graph, cs: seq<Hash>)
    requires cs != [] && Distinct(cs) && Stored(g, cs)
    ensures cs[|cs| - 1] in g && cs[|cs| - 1] !in cs[..|cs| - 1]
  {
    assert cs[|cs| - 1] in cs;
  }

  /** A whole walk with nothing ignored: every commit of the history once, the newest first
      if no parent is newer than its child. */
  method WalkByTime(g: Graph, start: Hash) returns (cs: seq<Hash>)
    requires Closed(g) && start in g
    ensures Distinct(cs) && forall x :: x in cs <==> Reach(g, start, x)
    ensures NoParentIsNewer(g) ==> Stored(g, cs) && NewestFirst(g, cs)
  {
    var it := new CommitIteratorByCTime(g, start, {}, []);
    cs := [];
    var c := Some(start);
    ghost var left := g.Keys;
    while c.Some?
      invariant it.Valid() && it.g == g && it.start == start && it.Skipped() == {} && fresh(it)
      invariant it.emitted == cs && (c.None? ==> it.heap == [])
      invariant left == g.Keys - set x | x in cs
      decreases c.Some?, left
    {
      c := it.Next();
      if c.Some? {
        cs := cs + [c.value];
        LastIsNew(g, cs);
        assert c.value in left;
        left := left - {c.value};
      }
    }
    WalkIsExact(g, start, {}, cs);
    assert g.Keys - {} == g.Keys;
  }
}
