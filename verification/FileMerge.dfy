/** The three-way merge of files: from two change lists against one ancestor to one change
    list (ChangesMergeIter in versionmgr/changes.go). */
module FileMerge {
  import opened Wrappers
  import opened Hashes
  import opened Order
  import opened TreeModel
  import opened WorkTrees
  import opened WorkTreeRuns
  import opened Paths
  import opened Changes
  import opened ChangeJoin
  import opened Conflicts

  // ---------------------------------------------------------------- differences

  ghost function End(f: Files, p: Path): Option<PathNode> {
    match f(p)
    case None => None
    case Some(b) => Some(PathNode(p, b))
  }

  ghost function ChangeFor(f: Files, g: Files, p: Path): Change {
    Change(End(f, p), End(g, p))
  }

  /** Files sit at file paths only. */
  ghost predicate Proper(f: Files) {
    forall p :: f(p).Some? ==> FilePath(p)
  }

  ghost predicate IsChangeOf(f: Files, g: Files, c: Change) {
    FilePath(c.At()) && f(c.At()) != g(c.At()) && c == ChangeFor(f, g, c.At())
  }

  /** d is the file-level difference of f and g: one change per file that differs, sorted
      by path. */
  ghost predicate IsDiff(f: Files, g: Files, d: seq<Change>) {
    && SortedChanges(d)
    && (forall c | c in d :: IsChangeOf(f, g, c))
    && (forall p | f(p) != g(p) :: ChangeFor(f, g, p) in d)
  }

  lemma CanonicalIsProper(t: Tree)
    requires CanonicalRoot(t)
    ensures Proper(FilesOf(t))
  {
    forall p | Lookup(t, p).Some? ensures FilePath(p) {
      LookupIsNode(t, p);
      NodeBelowRoot(t, p);
    }
  }

  lemma ChangeForAt(f: Files, g: Files, p: Path)
    requires f(p) != g(p)
    ensures ChangeFor(f, g, p).At() == p && ChangeFor(f, g, p).Key() == JoinPath(p)
    ensures ChangeFor(f, g, p).Action().Ok?
  {
  }

  /** Looking a path up in a difference. */
  lemma DiffFind(f: Files, g: Files, d: seq<Change>, p: Path)
    requires IsDiff(f, g, d) && FilePath(p)
    ensures Find(d, JoinPath(p)) == if f(p) != g(p) then Some(ChangeFor(f, g, p)) else None
  {
    var r := Find(d, JoinPath(p));
    if r.Some? {
      JoinInjective(r.value.At(), p);
    }
    if f(p) != g(p) {
      ChangeForAt(f, g, p);
      var i :| 0 <= i < |d| && d[i] == ChangeFor(f, g, p);
      assert Keys(d)[i] == JoinPath(p);
    }
  }

  // -------------------------------------------------------------------- conflicts

  /** For two differences from one ancestor the mismatch errors cannot occur, and two
      changes of one file conflict exactly when they lead to different files. */
  lemma SameAncestorConflict(a: Files, s: Files, t: Files, p: Path)
    requires s(p) != a(p) && t(p) != a(p)
    ensures IsConflict(ChangeFor(a, s, p), ChangeFor(a, t, p)) == Ok(s(p) != t(p))
  {
  }

  lemma NeverMismatched(a: Files, s: Files, t: Files, left: seq<Change>, right: seq<Change>)
    requires IsDiff(a, s, left) && IsDiff(a, t, right)
    ensures JoinAll(left, right).Ok?
  {
    JoinFailsOnMismatch(left, right);
    forall k ensures !Mismatched(left, right, k) {
      var l, r := Find(left, k), Find(right, k);
      if l.Some? && r.Some? {
        JoinInjective(l.value.At(), r.value.At());
        SameAncestorConflict(a, s, t, l.value.At());
      }
    }
  }

  // ------------------------------------------------------------------------ merge

  type Resolver = Option<ConflictResolver>

  function Resolve(resolver: Resolver, left: Change, right: Change): Result<Change> {
    if resolver.Some? then resolver.value(left, right) else Err(Conflict)
  }

  ghost predicate ResolverChooses(resolver: Resolver) {
    resolver.Some? ==> Chooses(resolver.value)
  }

  /** ChangesMergeIter.Next on one pair. */
  ghost function MergeOne(pair: ChangePair, resolver: Resolver): Result<Change>
    requires pair.left.Some? || pair.right.Some?
    requires pair.isConflict ==> pair.left.Some? && pair.right.Some?
  {
    if pair.isConflict then Resolve(resolver, pair.left.value, pair.right.value)
    else if pair.left.Some? then Ok(pair.left.value)
    else Ok(pair.right.value)
  }

  /** What the merge should make of the file at p: the side that changed it, the common
      result, or the resolver's choice. */
  ghost function MergedFile(a: Files, s: Files, t: Files, resolver: Resolver, p: Path): Result<Option<Hash>> {
    if s(p) == a(p) then Ok(t(p))
    else if t(p) == a(p) || s(p) == t(p) then Ok(s(p))
    else
      match Resolve(resolver, ChangeFor(a, s, p), ChangeFor(a, t, p))
      case Err(e) => Err(e)
      case Ok(c) => Ok(if c.to.Some? then Some(c.to.value.hash) else None)
  }

  ghost function MergedFiles(a: Files, s: Files, t: Files, resolver: Resolver): Files {
    p => if MergedFile(a, s, t, resolver, p).Ok? then MergedFile(a, s, t, resolver, p).value else a(p)
  }

  /** Where the two sides of a pair are. */
  ghost function PairAt(pair: ChangePair): Path
    requires pair.left.Some? || pair.right.Some?
  {
    if pair.left.Some? then pair.left.value.At() else pair.right.value.At()
  }

  /** A pair of the join carries the two sides' changes of one file. */
  lemma PairIsFile(a: Files, s: Files, t: Files, left: seq<Change>, right: seq<Change>, pair: ChangePair)
    requires IsDiff(a, s, left) && IsDiff(a, t, right) && PairOf(left, right, pair)
    ensures var p := PairAt(pair);
            && FilePath(p) && JoinPath(p) == pair.Key() && (s(p) != a(p) || t(p) != a(p))
            && pair.left == (if s(p) != a(p) then Some(ChangeFor(a, s, p)) else None)
            && pair.right == (if t(p) != a(p) then Some(ChangeFor(a, t, p)) else None)
            && pair.isConflict == (s(p) != a(p) && t(p) != a(p) && s(p) != t(p))
  {
    var p := PairAt(pair);
    DiffFind(a, s, left, p);
    DiffFind(a, t, right, p);
    if s(p) != a(p) && t(p) != a(p) {
      SameAncestorConflict(a, s, t, p);
    }
  }

  /** Merging one pair gives the change of that file to its merged state. */
  lemma PairMerges(a: Files, s: Files, t: Files, left: seq<Change>, right: seq<Change>, pair: ChangePair,
                   resolver: Resolver)
    requires IsDiff(a, s, left) && IsDiff(a, t, right) && PairOf(left, right, pair) && ResolverChooses(resolver)
    ensures var p := PairAt(pair);
            && FilePath(p) && JoinPath(p) == pair.Key()
            && (MergeOne(pair, resolver).Err? <==> MergedFile(a, s, t, resolver, p).Err?)
            && (MergeOne(pair, resolver).Ok? ==>
                  && MergedFiles(a, s, t, resolver)(p) != a(p)
                  && MergeOne(pair, resolver) == Ok(ChangeFor(a, MergedFiles(a, s, t, resolver), p)))
  {
    PairIsFile(a, s, t, left, right, pair);
  }

  ghost predicate Mergeable(ps: seq<ChangePair>) {
    forall p | p in ps :: (p.left.Some? || p.right.Some?) && (p.isConflict ==> p.left.Some? && p.right.Some?)
  }

  /** The merged change list, or the first resolver error. */
  ghost function MergeAll(ps: seq<ChangePair>, resolver: Resolver): Result<seq<Change>>
    requires Mergeable(ps)
  {
    if ps == [] then Ok([])
    else
      var c := MergeOne(ps[0], resolver);
      if c.Err? then Err(c.error)
      else
        var rest := MergeAll(ps[1..], resolver);
        if rest.Err? then Err(rest.error) else Ok([c.value] + rest.value)
  }

  lemma {:induction false} MergeAllAt(ps: seq<ChangePair>, resolver: Resolver)
    requires Mergeable(ps)
    ensures MergeAll(ps, resolver).Err? <==> exists i :: 0 <= i < |ps| && MergeOne(ps[i], resolver).Err?
    ensures MergeAll(ps, resolver).Ok? ==>
              && |MergeAll(ps, resolver).value| == |ps|
              && forall i | 0 <= i < |ps| :: MergeOne(ps[i], resolver) == Ok(MergeAll(ps, resolver).value[i])
  {
    if ps != [] {
      MergeAllAt(ps[1..], resolver);
      assert forall i | 0 < i < |ps| :: ps[i] == ps[1..][i - 1];
      if MergeAll(ps[1..], resolver).Err? {
        var i :| 0 <= i < |ps| - 1 && MergeOne(ps[1..][i], resolver).Err?;
        assert MergeOne(ps[i + 1], resolver).Err?;
      }
    }
  }

  lemma JoinIsMergeable(left: seq<Change>, right: seq<Change>, ps: seq<ChangePair>)
    requires IsJoin(left, right, ps)
    ensures Mergeable(ps)
  {
    forall p | p in ps ensures PairOf(left, right, p) {}
  }

  /** A merged pair exists for every file that one of the sides changed. */
  lemma PairFor(a: Files, s: Files, t: Files, left: seq<Change>, right: seq<Change>, ps: seq<ChangePair>,
                p: Path) returns (i: nat)
    requires IsDiff(a, s, left) && IsDiff(a, t, right) && IsJoin(left, right, ps)
    requires FilePath(p) && (s(p) != a(p) || t(p) != a(p))
    ensures i < |ps| && (ps[i].left.Some? || ps[i].right.Some?) && PairAt(ps[i]) == p
  {
    DiffFind(a, s, left, p);
    DiffFind(a, t, right, p);
    assert JoinPath(p) in PairKeys(ps);
    i :| i < |ps| && PairKeys(ps)[i] == JoinPath(p);
    assert ps[i] in ps && PairOf(left, right, ps[i]);
    PairIsFile(a, s, t, left, right, ps[i]);
    JoinInjective(PairAt(ps[i]), p);
  }

  /** The merged list is the difference from the ancestor to the merged files. */
  lemma MergeIsDiff(a: Files, s: Files, t: Files, left: seq<Change>, right: seq<Change>, ps: seq<ChangePair>,
                    resolver: Resolver)
    requires IsDiff(a, s, left) && IsDiff(a, t, right) && IsJoin(left, right, ps) && ResolverChooses(resolver)
    requires Proper(a) && Proper(s) && Proper(t)
    requires Mergeable(ps) && MergeAll(ps, resolver).Ok?
    ensures IsDiff(a, MergedFiles(a, s, t, resolver), MergeAll(ps, resolver).value)
  {
    hide PairOf, MergedFiles, MergedFile, MergeOne, Proper;
    var m, cs := MergedFiles(a, s, t, resolver), MergeAll(ps, resolver).value;
    MergeAllAt(ps, resolver);
    forall i | 0 <= i < |ps|
      ensures cs[i] == ChangeFor(a, m, PairAt(ps[i])) && IsChangeOf(a, m, cs[i]) && cs[i].Key() == ps[i].Key() {
      assert ps[i] in ps;
      PairMerges(a, s, t, left, right, ps[i], resolver);
      ChangeForAt(a, m, PairAt(ps[i]));
    }
    assert Keys(cs) == PairKeys(ps);
    forall p | m(p) != a(p) ensures ChangeFor(a, m, p) in cs {
      MergedChanged(a, s, t, resolver, p);
      var i := PairFor(a, s, t, left, right, ps, p);
      assert cs[i] in cs;
    }
  }

  lemma MergedChanged(a: Files, s: Files, t: Files, resolver: Resolver, p: Path)
    requires MergedFiles(a, s, t, resolver)(p) != a(p) && Proper(a) && Proper(s) && Proper(t)
    ensures FilePath(p) && (s(p) != a(p) || t(p) != a(p))
  {
  }

  /** The resolver fails for some file that both sides changed differently. */
  ghost predicate Unresolved(a: Files, s: Files, t: Files, resolver: Resolver) {
    exists p :: MergedFile(a, s, t, resolver, p).Err?
  }

  /** Merging the pairs fails exactly when a conflict is left unresolved. */
  lemma MergeFailsOnConflict(a: Files, s: Files, t: Files, left: seq<Change>, right: seq<Change>,
                             ps: seq<ChangePair>, resolver: Resolver)
    requires IsDiff(a, s, left) && IsDiff(a, t, right) && IsJoin(left, right, ps) && ResolverChooses(resolver)
    requires Proper(a) && Proper(s) && Proper(t) && Mergeable(ps)
    ensures MergeAll(ps, resolver).Err? <==> Unresolved(a, s, t, resolver)
  {
    hide PairOf, MergeOne, Proper, IsDiff;
    MergeAllAt(ps, resolver);
    forall i | 0 <= i < |ps|
      ensures MergeOne(ps[i], resolver).Err? <==> MergedFile(a, s, t, resolver, PairAt(ps[i])).Err? {
      assert ps[i] in ps;
      PairMerges(a, s, t, left, right, ps[i], resolver);
    }
    if p :| MergedFile(a, s, t, resolver, p).Err? {
      ConflictIsFile(a, s, t, resolver, p);
      var i := PairFor(a, s, t, left, right, ps, p);
      assert MergeOne(ps[i], resolver).Err?;
    }
  }

  lemma ConflictIsFile(a: Files, s: Files, t: Files, resolver: Resolver, p: Path)
    requires MergedFile(a, s, t, resolver, p).Err? && Proper(a) && Proper(s) && Proper(t)
    ensures FilePath(p) && s(p) != a(p)
  {
  }

  // --------------------------------------------------------------- swapping sides

  ghost predicate ResolverMirrors(f: Resolver, g: Resolver) {
    (f.None? <==> g.None?) && (f.Some? ==> Mirrors(f.value, g.value))
  }

  /** With the sides swapped and a mirrored resolver every file merges to the same. */
  lemma MergeIsSymmetric(a: Files, s: Files, t: Files, f: Resolver, g: Resolver, p: Path)
    requires ResolverMirrors(f, g)
    ensures MergedFile(a, s, t, f, p) == MergedFile(a, t, s, g, p)
  {
    if s(p) != a(p) && t(p) != a(p) && s(p) != t(p) {
      var left, right := ChangeFor(a, s, p), ChangeFor(a, t, p);
      ChangeForAt(a, s, p);
      ChangeForAt(a, t, p);
      if f.Some? {
        assert left.from == right.from && left.to != right.to && SameHashSameEnd(left, right);
        assert f.value(left, right) == g.value(right, left);
      }
    }
  }

  /** Keeping one side when the other did not change it. */
  lemma OneSidedMerge(a: Files, s: Files, t: Files, resolver: Resolver, p: Path)
    ensures s(p) == a(p) ==> MergedFile(a, s, t, resolver, p) == Ok(t(p))
    ensures t(p) == a(p) ==> MergedFile(a, s, t, resolver, p) == Ok(s(p))
    ensures s(p) == t(p) ==> MergedFile(a, s, t, resolver, p) == Ok(s(p))
    ensures ResolverChooses(resolver) && MergedFile(a, s, t, resolver, p).Ok? ==>
              MergedFile(a, s, t, resolver, p).value == s(p) || MergedFile(a, s, t, resolver, p).value == t(p)
  {
  }

  /** What each resolver makes of a file that the two sides changed differently: nothing,
      the chosen side, or of two blobs the one with the smaller hash and of a blob and a
      deletion the blob. */
  lemma ConflictingFile(a: Files, s: Files, t: Files, p: Path, useLeft: bool, sides: map<string, string>)
    requires s(p) != a(p) && t(p) != a(p) && s(p) != t(p)
    ensures MergedFile(a, s, t, None, p) == Err(Conflict)
            && MergedFile(a, s, t, Some(ForbidResolver), p) == Err(Conflict)
    ensures MergedFile(a, s, t, Some(OneSideResolver(useLeft)), p) == Ok(if useLeft then s(p) else t(p))
    ensures MergedFile(a, s, t, Some(ResolveFromSelector(sides)), p)
         == Ok(if JoinPath(p) in sides && sides[JoinPath(p)] == "left" then s(p) else t(p))
    ensures var r := MergedFile(a, s, t, Some(LeastHashResolve), p);
            && r.Ok? && r.value.Some? && (r.value == s(p) || r.value == t(p))
            && (s(p).Some? ==> !Less(s(p).value, r.value.value)) && (t(p).Some? ==> !Less(t(p).value, r.value.value))
  {
    ChangeForAt(a, s, p);
    ChangeForAt(a, t, p);
    if s(p).Some? {
      LessIrreflexive(s(p).value);
    }
    if t(p).Some? {
      LessIrreflexive(t(p).value);
    }
    if s(p).Some? && t(p).Some? {
      OneIsEarlier(s(p).value, t(p).value);
    }
  }
}
