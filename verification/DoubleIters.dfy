/** The pair of iterators that the comparison of two tries reads in parallel
    (versionmgr/merkletrie/doubleiter.go). */
module DoubleIters {
  import opened Wrappers
  import opened Hashes
  import opened Objects
  import opened TreeModel
  import opened WorkNodes
  import opened TrieChanges
  import opened TrieIters

  type Noder = (Path, WorkNode)

  /** The node that the iterator is at. */
  ghost predicate IsCurrent(iter: Iter, c: Option<Noder>)
    reads iter, iter.repo
  {
    && (c.None? <==> iter.Todo() == [])
    && (c.Some? ==> iter.hasStarted && IsAt(iter.repo.hasher, iter.repo.objects, c.value, iter.Todo()[0]))
  }

  ghost predicate IsAt(h: Hasher, objects: Store, n: Noder, s: Spot) {
    n.0 == s.path && NodeFits(h, objects, n.1, s)
  }

  /** Move one iterator, down into its node or past it; at the start, to its first node. */
  method Move(iter: Iter, descend: bool) returns (c: Option<Noder>)
    requires iter.Valid()
    modifies iter
    ensures iter.Valid() && IsCurrent(iter, c)
    ensures iter.Todo() == if old(iter.hasStarted) then Past(old(iter.Todo()), descend) else old(iter.Todo())
  {
    hide NodeFits, Iter.Valid, Iter.Todo;
    if descend {
      c := iter.Step();
    } else {
      c := iter.Next();
    }
  }

  lemma NothingBehind(todo: seq<Spot>)
    ensures todo == [] ==> Past(todo, true) == [] && Past(todo, false) == []
  {
  }

  /** What two nodes of one path have in common. */
  datatype Comparison = Comparison(sameHash: bool, bothAreFiles: bool, fileAndDir: bool, bothAreDirs: bool)

  class DoubleIter {
    const fromIter: Iter
    const toIter: Iter
    var from: Option<Noder>
    var to: Option<Noder>

    ghost predicate Valid()
      reads this, fromIter, toIter, fromIter.repo, toIter.repo
    {
      && fromIter != toIter && fromIter.repo == toIter.repo
      && fromIter.Valid() && toIter.Valid() && IsCurrent(fromIter, from) && IsCurrent(toIter, to)
    }

    ghost function From(): seq<Spot>
      reads this, fromIter
    {
      fromIter.Todo()
    }

    ghost function To(): seq<Spot>
      reads this, toIter
    {
      toIter.Todo()
    }

    constructor (repo: FileTreeRepo, fromRoot: WorkNode, toRoot: WorkNode, ghost x: Tree, ghost y: Tree)
      requires repo.Valid() && CanonicalRoot(x) && CanonicalRoot(y)
      requires Opens(repo.hasher, repo.objects, fromRoot, x) && Opens(repo.hasher, repo.objects, toRoot, y)
      ensures Valid() && fresh(fromIter) && fresh(toIter) && fromIter.repo == repo
      ensures From() == KidSpots(Spot([], x)) && To() == KidSpots(Spot([], y))
    {
      hide Opens, CanonicalRoot, FileTreeRepo.Valid, Iter.Valid, Iter.Todo, IsAt, IsCurrent;
      var fromIter := new Iter(repo, fromRoot, [], x);
      var from := Move(fromIter, false);
      var toIter := new Iter(repo, toRoot, [], y);
      var to := Move(toIter, false);
      this.fromIter, this.toIter, this.from, this.to := fromIter, toIter, from, to;
    }

    lemma RepoValid()
      requires Valid()
      ensures fromIter.repo.Valid()
    {
    }

    method MoveFrom(descend: bool)
      requires Valid()
      modifies `from, fromIter
      ensures Valid() && From() == Past(old(From()), descend) && To() == old(To())
    {
      hide Iter.Valid, Iter.Todo, IsAt;
      NothingBehind(From());
      from := Move(fromIter, descend);
    }

    method MoveTo(descend: bool)
      requires Valid()
      modifies `to, toIter
      ensures Valid() && From() == old(From()) && To() == Past(old(To()), descend)
    {
      hide Iter.Valid, Iter.Todo, IsAt;
      NothingBehind(To());
      to := Move(toIter, descend);
    }

    /** nextFrom */
    method NextFrom()
      requires Valid()
      modifies `from, fromIter
      ensures Valid() && From() == Past(old(From()), false) && To() == old(To())
    {
      MoveFrom(false);
    }

    /** nextTo */
    method NextTo()
      requires Valid()
      modifies `to, toIter
      ensures Valid() && From() == old(From()) && To() == Past(old(To()), false)
    {
      MoveTo(false);
    }

    /** nextBoth */
    method NextBoth()
      requires Valid()
      modifies this, fromIter, toIter
      ensures Valid() && From() == Past(old(From()), false) && To() == Past(old(To()), false)
    {
      NextFrom();
      NextTo();
    }

    /** stepBoth: down on both sides. */
    method StepBoth()
      requires Valid()
      modifies this, fromIter, toIter
      ensures Valid() && From() == Past(old(From()), true) && To() == Past(old(To()), true)
    {
      MoveFrom(true);
      MoveTo(true);
    }

    /** compare */
    method Compare() returns (s: Comparison)
      requires Valid() && from.Some? && to.Some?
      ensures var h, a, b := fromIter.repo.hasher, From()[0].tree, To()[0].tree;
              s == Comparison(HashOf(h, a) == HashOf(h, b), a.File? && b.File?, a.Dir? != b.Dir?, a.Dir? && b.Dir?)
    {
      hide SpotOk, HashOf, Opens;
      var fromIsDir, toIsDir := from.value.1.entry.isDir, to.value.1.entry.isDir;
      var bothAreDirs, bothAreFiles := fromIsDir && toIsDir, !fromIsDir && !toIsDir;
      s := Comparison(from.value.1.entry.hash == to.value.1.entry.hash, bothAreFiles, !bothAreDirs && !bothAreFiles,
                      bothAreDirs);
    }
  }
}
