/** Where a comparison of two tries stands: what is ahead on either side, what it will still
    report, and what each step of the comparison does to that
    (versionmgr/merkletrie/difftree.go). */
module TrieFrontiers {
  import opened Wrappers
  import opened Hashes
  import opened Order
  import opened Objects
  import opened TreeModel
  import opened TreeUpdates
  import opened WorkTrees
  import opened WorkTreeRuns
  import opened Paths
  import opened Changes
  import opened FileMerge
  import opened TrieChanges
  import opened TrieIters

  // ------------------------------------------------------------ the order of paths

  /** Path.Compare: segment by segment, a path before everything below it. */
  function Compare(p: Path, q: Path): int
    decreases |p|
  {
    if p == [] && q == [] then 0
    else if q == [] then 1
    else if p == [] then -1
    else if p[0] == q[0] then Compare(p[1..], q[1..])
    else if Less(p[0], q[0]) then -1
    else 1
  }

  /** p and q part at some segment, and p goes first there. */
  ghost predicate Before(p: Path, q: Path)
    decreases |p|
  {
    p != [] && q != [] && if p[0] == q[0] then Before(p[1..], q[1..]) else Less(p[0], q[0])
  }

  lemma {:induction false} BeforeCompare(p: Path, q: Path)
    ensures Before(p, q) ==> Compare(p, q) == -1 && Compare(q, p) == 1 && p != q
    ensures Compare(p, p) == 0
    decreases |p|
  {
    if p != [] {
      if q != [] && p[0] != q[0] && Less(p[0], q[0]) {
        LessAsymmetric(p[0], q[0]);
      }
      BeforeCompare(p[1..], if q == [] then [] else q[1..]);
    }
  }

  lemma {:induction false} BeforeTransitive(p: Path, q: Path, r: Path)
    requires Before(p, q) && Before(q, r)
    ensures Before(p, r)
    decreases |p|
  {
    if p[0] == q[0] && q[0] == r[0] {
      BeforeTransitive(p[1..], q[1..], r[1..]);
    } else if p[0] != q[0] && q[0] != r[0] {
      LessTransitive(p[0], q[0], r[0]);
      LessAsymmetric(p[0], r[0]);
    }
  }

  lemma {:induction false} BeforeExtends(p: Path, q: Path, e: Path, f: Path)
    requires Before(p, q)
    ensures Before(p + e, q + f)
    decreases |p|
  {
    if p[0] == q[0] {
      assert (p + e)[1..] == p[1..] + e && (q + f)[1..] == q[1..] + f;
      BeforeExtends(p[1..], q[1..], e, f);
    }
  }

  lemma {:induction false} BeforeParts(p: Path, q: Path, r: Path)
    requires Before(p, q)
    ensures !(Prefix(p, r) && Prefix(q, r))
    decreases |p|
  {
    if Prefix(p, r) && Prefix(q, r) {
      assert p[0] == r[0] && q[0] == r[0];
      assert p[1..] <= r[1..] && q[1..] <= r[1..];
      BeforeParts(p[1..], q[1..], r[1..]);
    }
  }

  lemma {:induction false} BeforeSiblings(p: Path, m: string, n: string)
    requires Less(m, n)
    ensures Before(p + [m], p + [n])
    decreases |p|
  {
    if p == [] {
      LessAsymmetric(m, n);
    } else {
      assert (p + [m])[1..] == p[1..] + [m] && (p + [n])[1..] == p[1..] + [n];
      BeforeSiblings(p[1..], m, n);
    }
  }

  // ---------------------------------------------------------------- what is ahead

  /** The spot at or above p. */
  ghost function FindSpot(todo: seq<Spot>, p: Path): (r: Option<Spot>)
    ensures r.Some? ==> r.value in todo && Prefix(r.value.path, p)
    ensures r.None? ==> forall s | s in todo :: !Prefix(s.path, p)
  {
    if todo == [] then None
    else if Prefix(todo[0].path, p) then Some(todo[0])
    else FindSpot(todo[1..], p)
  }

  ghost predicate Ordered(todo: seq<Spot>) {
    forall i, j | 0 <= i < j < |todo| :: Before(todo[i].path, todo[j].path)
  }

  ghost predicate Comparable(p: Path, q: Path) {
    p == q || Before(p, q) || Before(q, p)
  }

  ghost predicate Frontier(from: seq<Spot>, to: seq<Spot>) {
    && Ordered(from) && Ordered(to)
    && forall a, b | a in from && b in to :: Comparable(a.path, b.path)
  }

  lemma FrontierTails(from: seq<Spot>, to: seq<Spot>)
    requires Frontier(from, to)
    ensures from != [] ==> Frontier(from[1..], to)
    ensures to != [] ==> Frontier(from, to[1..])
    ensures from != [] && to != [] ==> Frontier(from[1..], to[1..])
  {
    hide Comparable, Before;
  }

  /** Taking the first spot away. */
  lemma HeadGone(todo: seq<Spot>, p: Path)
    requires Ordered(todo) && todo != []
    ensures if Prefix(todo[0].path, p) then FindSpot(todo, p) == Some(todo[0]) && FindSpot(todo[1..], p).None?
            else FindSpot(todo, p) == FindSpot(todo[1..], p)
  {
    if Prefix(todo[0].path, p) {
      forall s | s in todo[1..] ensures !Prefix(s.path, p) {
        BeforeParts(todo[0].path, s.path, p);
      }
    }
  }

  /** Nothing at or above a path below q is ahead on a side that starts after q. */
  lemma NotAhead(todo: seq<Spot>, q: Path, p: Path)
    requires Ordered(todo) && (todo != [] ==> Before(q, todo[0].path)) && Prefix(q, p)
    ensures FindSpot(todo, p).None?
  {
    forall s | s in todo ensures !Prefix(s.path, p) {
      if s != todo[0] {
        BeforeTransitive(q, todo[0].path, s.path);
      }
      BeforeParts(q, s.path, p);
    }
  }

  /** The child that is at or above p. */
  lemma FindKid(s: Spot, p: Path)
    requires s.tree.Dir?
    ensures FindSpot(KidSpots(s), p) ==
            if Prefix(s.path, p) && |s.path| < |p| && p[|s.path|] in s.tree.kids
            then Some(Spot(p[..|s.path| + 1], s.tree.kids[p[|s.path|]])) else None
  {
    hide KidSpots;
    var r := FindSpot(KidSpots(s), p);
    if r.Some? {
      var n := KidSpotIs(s, r.value);
      OneMore(s.path, n, p);
    } else if Prefix(s.path, p) && |s.path| < |p| && p[|s.path|] in s.tree.kids {
      KidSpotHere(s, p[|s.path|]);
      OneMore(s.path, p[|s.path|], p);
    }
  }

  lemma OneMore(q: Path, n: string, p: Path)
    ensures Prefix(q + [n], p) <==> Prefix(q, p) && |q| < |p| && p[|q|] == n
    ensures Prefix(q + [n], p) ==> q + [n] == p[..|q| + 1]
  {
    if Prefix(q, p) && |q| < |p| && p[|q|] == n {
      assert p[..|q| + 1] == q + [n];
    }
    if Prefix(q + [n], p) {
      assert p[..|q| + 1] == q + [n];
      assert p[..|q| + 1][..|q|] == q;
    }
  }

  lemma {:induction false} FindConcat(a: seq<Spot>, b: seq<Spot>, p: Path)
    ensures FindSpot(a + b, p) == if FindSpot(a, p).Some? then FindSpot(a, p) else FindSpot(b, p)
    decreases |a|
  {
    if a == [] {
      assert a + b == b;
    } else {
      assert (a + b)[1..] == a[1..] + b;
      FindConcat(a[1..], b, p);
    }
  }

  /** Going down into the first spot. */
  lemma FindBelow(todo: seq<Spot>, p: Path)
    requires Ordered(todo) && todo != [] && todo[0].tree.Dir?
    ensures FindSpot(Past(todo, true), p) ==
            if Prefix(todo[0].path, p) then FindSpot(KidSpots(todo[0]), p) else FindSpot(todo, p)
  {
    hide KidSpots;
    FindConcat(KidSpots(todo[0]), todo[1..], p);
    HeadGone(todo, p);
    FindKid(todo[0], p);
  }

  lemma KidsOrdered(s: Spot)
    requires s.tree.Dir?
    ensures Ordered(KidSpots(s))
    ensures forall k, q | k in KidSpots(s) && Before(s.path, q) :: Before(k.path, q)
    ensures forall k, q | k in KidSpots(s) && Before(q, s.path) :: Before(q, k.path)
  {
    hide Less, Before;
    var names := SortedNames(s.tree.kids.Keys);
    forall i, j | 0 <= i < j < |names| ensures Before(KidSpots(s)[i].path, KidSpots(s)[j].path) {
      BeforeSiblings(s.path, names[i], names[j]);
    }
    forall k, q | k in KidSpots(s) && Before(s.path, q) ensures Before(k.path, q) {
      var i :| 0 <= i < |names| && KidSpots(s)[i] == k;
      BeforeExtends(s.path, q, [names[i]], []);
      assert q + [] == q;
    }
    forall k, q | k in KidSpots(s) && Before(q, s.path) ensures Before(q, k.path) {
      var i :| 0 <= i < |names| && KidSpots(s)[i] == k;
      BeforeExtends(q, s.path, [], [names[i]]);
      assert q + [] == q;
    }
  }

  lemma PastOrdered(todo: seq<Spot>)
    requires Ordered(todo) && todo != []
    ensures Ordered(Past(todo, true)) && Ordered(Past(todo, false))
  {
    hide Before, KidSpots;
    if todo[0].tree.Dir? {
      KidsOrdered(todo[0]);
      var kids := KidSpots(todo[0]);
      forall i: int, j: int | 0 <= i < |kids| && 0 < j < |todo| ensures Before(kids[i].path, todo[j].path) {
        assert kids[i] in kids;
      }
    }
  }

  lemma SiblingsComparable(a: Spot, b: Spot)
    requires a.tree.Dir? && b.tree.Dir? && a.path == b.path
    ensures forall k, l | k in KidSpots(a) && l in KidSpots(b) :: Comparable(k.path, l.path)
  {
    forall k, l | k in KidSpots(a) && l in KidSpots(b) ensures Comparable(k.path, l.path) {
      var m, n := k.path[|a.path|], l.path[|a.path|];
      assert k.path == a.path + [m] && l.path == a.path + [n];
      LessTotal(m, n);
      if Less(m, n) {
        BeforeSiblings(a.path, m, n);
      } else if Less(n, m) {
        BeforeSiblings(a.path, n, m);
      }
    }
  }

  /** Going down on both sides at once keeps the sides comparable. */
  lemma FrontierBelow(from: seq<Spot>, to: seq<Spot>)
    requires Frontier(from, to) && from != [] && to != [] && from[0].path == to[0].path
    requires from[0].tree.Dir? && to[0].tree.Dir?
    ensures Frontier(Past(from, true), Past(to, true))
  {
    hide Before, KidSpots;
    var a, b := from[0], to[0];
    PastOrdered(from);
    PastOrdered(to);
    KidsOrdered(a);
    KidsOrdered(b);
    SiblingsComparable(a, b);
    forall k, l | k in Past(from, true) && l in Past(to, true) ensures Comparable(k.path, l.path) {
      if k in KidSpots(a) && l in to[1..] {
        assert Before(b.path, l.path);
      } else if k in from[1..] && l in KidSpots(b) {
        assert Before(a.path, k.path);
      }
    }
  }

  // -------------------------------------------------------------------- termination

  ghost function Weight(t: Tree): nat
    decreases t, 1, 0
  {
    match t
    case File(_) => 1
    case Dir(kids) => 1 + KidsWeight(t, SortedNames(kids.Keys))
  }

  ghost function KidsWeight(t: Tree, names: seq<string>): nat
    requires t.Dir? && forall n | n in names :: n in t.kids
    decreases t, 0, |names|
  {
    if names == [] then 0 else Weight(t.kids[names[0]]) + KidsWeight(t, names[1..])
  }

  ghost function SpotsWeight(todo: seq<Spot>): nat {
    if todo == [] then 0 else Weight(todo[0].tree) + SpotsWeight(todo[1..])
  }

  lemma {:induction false} SpotsWeightConcat(a: seq<Spot>, b: seq<Spot>)
    ensures SpotsWeight(a + b) == SpotsWeight(a) + SpotsWeight(b)
    decreases |a|
  {
    if a == [] {
      assert a + b == b;
    } else {
      assert (a + b)[1..] == a[1..] + b;
      SpotsWeightConcat(a[1..], b);
    }
  }

  lemma {:induction false} KidSpotsWeight(s: Spot, i: nat)
    requires s.tree.Dir? && i <= |KidSpots(s)|
    ensures var names := SortedNames(s.tree.kids.Keys);
            && (forall n | n in names[i..] :: n in s.tree.kids)
            && SpotsWeight(KidSpots(s)[i..]) == KidsWeight(s.tree, names[i..])
    decreases |KidSpots(s)| - i
  {
    hide KidSpots, SortedNames, StrictlySorted, Weight;
    var names, kids := SortedNames(s.tree.kids.Keys), KidSpots(s);
    if i < |kids| {
      KidSpotsWeight(s, i + 1);
      assert kids[i..][0] == kids[i] && kids[i..][1..] == kids[i + 1..];
      assert names[i..][0] == names[i] && names[i..][1..] == names[i + 1..];
    }
  }

  lemma PastIsLighter(todo: seq<Spot>, descend: bool)
    requires todo != []
    ensures SpotsWeight(Past(todo, descend)) < SpotsWeight(todo)
  {
    if descend && todo[0].tree.Dir? {
      var s := todo[0];
      SpotsWeightConcat(KidSpots(s), todo[1..]);
      KidSpotsWeight(s, 0);
      assert KidSpots(s)[0..] == KidSpots(s);
      assert SortedNames(s.tree.kids.Keys)[0..] == SortedNames(s.tree.kids.Keys);
    }
  }

  // ----------------------------------------------------------- what is to be reported

  ghost function SpotTree(s: Option<Spot>): Option<Tree> {
    if s.None? then None else Some(s.value.tree)
  }

  ghost predicate Waiting(from: seq<Spot>, to: seq<Spot>, p: Path) {
    FindSpot(from, p).Some? || FindSpot(to, p).Some?
  }

  /** The change that the rest of the comparison reports at p. */
  ghost function Pending(h: Hasher, from: seq<Spot>, to: seq<Spot>, p: Path): Option<Change> {
    var a, b := FindSpot(from, p), FindSpot(to, p);
    if a.None? && b.None? then None
    else
      var q := if a.Some? then a.value.path else b.value.path;
      ChangeBelow(h, SpotTree(a), SpotTree(b), p, p[|q|..])
  }

  ghost predicate DistinctAts(d: seq<Change>) {
    forall i, j | 0 <= i < j < |d| :: d[i].At() != d[j].At()
  }

  /** The list has what was reported; everything else is still to be reported. */
  ghost predicate Progress(h: Hasher, x: Tree, y: Tree, from: seq<Spot>, to: seq<Spot>, d: seq<Change>) {
    && Frontier(from, to) && DistinctAts(d)
    && (forall p | Waiting(from, to, p) :: Pending(h, from, to, p) == TrieChange(h, x, y, p))
    && (forall c | c in d :: IsTrieChange(h, x, y, c) && !Waiting(from, to, c.At()))
    && (forall p | !Waiting(from, to, p) && TrieChange(h, x, y, p).Some? :: TrieChange(h, x, y, p).value in d)
  }

  /** Going from one frontier to the next reports es and leaves the rest as it is. */
  ghost predicate Moves(h: Hasher, from: seq<Spot>, to: seq<Spot>, from': seq<Spot>, to': seq<Spot>, es: seq<Change>) {
    && Frontier(from', to') && DistinctAts(es)
    && (forall p | Waiting(from', to', p) ::
          Waiting(from, to, p) && Pending(h, from', to', p) == Pending(h, from, to, p))
    && (forall p | Waiting(from, to, p) && !Waiting(from', to', p) && Pending(h, from, to, p).Some? ::
          Pending(h, from, to, p).value in es)
    && (forall c | c in es :: FilePath(c.At()) && Waiting(from, to, c.At()) && !Waiting(from', to', c.At())
                              && Pending(h, from, to, c.At()) == Some(c))
  }

  lemma MoveOn(h: Hasher, x: Tree, y: Tree, from: seq<Spot>, to: seq<Spot>, from': seq<Spot>, to': seq<Spot>,
               d: seq<Change>, es: seq<Change>)
    requires Progress(h, x, y, from, to, d) && Moves(h, from, to, from', to', es)
    ensures Progress(h, x, y, from', to', d + es)
  {
    hide Frontier, Waiting, Pending, TrieChange;
    forall i, j | 0 <= i < j < |d + es| ensures (d + es)[i].At() != (d + es)[j].At() {
      if i < |d| <= j {
        assert d[i] in d && es[j - |d|] in es;
      }
    }
  }

  /** es is what the comparison of two nodes at q, and of what is below them, reports. */
  ghost predicate Covers(h: Hasher, a: Option<Tree>, b: Option<Tree>, q: Path, es: seq<Change>) {
    && DistinctAts(es)
    && (forall p | Prefix(q, p) && ChangeBelow(h, a, b, p, p[|q|..]).Some? ::
          ChangeBelow(h, a, b, p, p[|q|..]).value in es)
    && (forall c | c in es ::
          FilePath(c.At()) && Prefix(q, c.At()) && ChangeBelow(h, a, b, c.At(), c.At()[|q|..]) == Some(c))
  }

  lemma TakeFrom(h: Hasher, from: seq<Spot>, to: seq<Spot>, es: seq<Change>)
    requires Frontier(from, to) && from != [] && (to != [] ==> Before(from[0].path, to[0].path))
    requires Covers(h, Some(from[0].tree), None, from[0].path, es)
    ensures Moves(h, from, to, from[1..], to, es)
  {
    hide ChangeBelow, Before, Comparable, FindSpot, Prefix;
    FrontierTails(from, to);
    forall p
      ensures if Prefix(from[0].path, p) then FindSpot(from, p) == Some(from[0]) && FindSpot(from[1..], p).None?
              && FindSpot(to, p).None?
              else FindSpot(from, p) == FindSpot(from[1..], p)
    {
      HeadGone(from, p);
      if Prefix(from[0].path, p) {
        NotAhead(to, from[0].path, p);
      }
    }
  }

  lemma TakeTo(h: Hasher, from: seq<Spot>, to: seq<Spot>, es: seq<Change>)
    requires Frontier(from, to) && to != [] && (from != [] ==> Before(to[0].path, from[0].path))
    requires Covers(h, None, Some(to[0].tree), to[0].path, es)
    ensures Moves(h, from, to, from, to[1..], es)
  {
    hide ChangeBelow, Before, Comparable, FindSpot, Prefix;
    FrontierTails(from, to);
    forall p
      ensures if Prefix(to[0].path, p) then FindSpot(to, p) == Some(to[0]) && FindSpot(to[1..], p).None?
              && FindSpot(from, p).None?
              else FindSpot(to, p) == FindSpot(to[1..], p)
    {
      HeadGone(to, p);
      if Prefix(to[0].path, p) {
        NotAhead(from, to[0].path, p);
      }
    }
  }

  lemma TakeBoth(h: Hasher, from: seq<Spot>, to: seq<Spot>, es: seq<Change>)
    requires Frontier(from, to) && from != [] && to != [] && from[0].path == to[0].path
    requires Covers(h, Some(from[0].tree), Some(to[0].tree), from[0].path, es)
    ensures Moves(h, from, to, from[1..], to[1..], es)
  {
    hide ChangeBelow, Before, Comparable, FindSpot, Prefix;
    FrontierTails(from, to);
    forall p
      ensures if Prefix(from[0].path, p)
              then FindSpot(from, p) == Some(from[0]) && FindSpot(to, p) == Some(to[0])
                   && FindSpot(from[1..], p).None? && FindSpot(to[1..], p).None?
              else FindSpot(from, p) == FindSpot(from[1..], p) && FindSpot(to, p) == FindSpot(to[1..], p)
    {
      HeadGone(from, p);
      HeadGone(to, p);
    }
  }

  lemma ChangeStep(h: Hasher, a: Tree, b: Tree, q: Path, p: Path)
    requires a.Dir? && b.Dir? && HashOf(h, a) != HashOf(h, b) && !Relabelled(h, a, b) && Prefix(q, p)
    ensures ChangeBelow(h, Some(a), Some(b), p, p[|q|..]) ==
            if |q| == |p| then None
            else ChangeBelow(h, Kid(Some(a), p[|q|]), Kid(Some(b), p[|q|]), p, p[|q| + 1..])
  {
    hide Relabelled, HashOf;
    if |q| < |p| {
      assert p[|q|..][0] == p[|q|] && p[|q|..][1..] == p[|q| + 1..];
    }
  }

  /** What is pending below two directories is pending at their children. */
  lemma PendingBelow(h: Hasher, from: seq<Spot>, to: seq<Spot>, p: Path)
    requires Frontier(from, to) && from != [] && to != [] && from[0].path == to[0].path
    requires from[0].tree.Dir? && to[0].tree.Dir?
    requires HashOf(h, from[0].tree) != HashOf(h, to[0].tree) && !Relabelled(h, from[0].tree, to[0].tree)
    ensures Waiting(Past(from, true), Past(to, true), p) ==> Waiting(from, to, p)
    ensures Waiting(Past(from, true), Past(to, true), p) ==>
              Pending(h, Past(from, true), Past(to, true), p) == Pending(h, from, to, p)
    ensures Waiting(from, to, p) && !Waiting(Past(from, true), Past(to, true), p) ==> Pending(h, from, to, p).None?
  {
    hide Before, Comparable, FindSpot, Relabelled, KidSpots, Past, HashOf, ChangeBelow;
    FindBelow(from, p);
    FindBelow(to, p);
    HeadGone(from, p);
    HeadGone(to, p);
    if Prefix(from[0].path, p) {
      FindKid(from[0], p);
      FindKid(to[0], p);
      ChangeStep(h, from[0].tree, to[0].tree, from[0].path, p);
      NothingHere(h, p, p[|from[0].path|..]);
      if |from[0].path| < |p| {
        NothingHere(h, p, p[|from[0].path| + 1..]);
      }
    }
  }

  lemma NothingHere(h: Hasher, full: Path, rest: Path)
    ensures ChangeBelow(h, None, None, full, rest) == None
  {
  }

  lemma StepBoth(h: Hasher, from: seq<Spot>, to: seq<Spot>)
    requires Frontier(from, to) && from != [] && to != [] && from[0].path == to[0].path
    requires from[0].tree.Dir? && to[0].tree.Dir?
    requires HashOf(h, from[0].tree) != HashOf(h, to[0].tree) && !Relabelled(h, from[0].tree, to[0].tree)
    ensures Moves(h, from, to, Past(from, true), Past(to, true), [])
  {
    hide Frontier, Waiting, Pending, Relabelled, Past;
    FrontierBelow(from, to);
    forall p
      ensures Waiting(Past(from, true), Past(to, true), p) ==> Waiting(from, to, p)
      ensures Waiting(Past(from, true), Past(to, true), p) ==>
                Pending(h, Past(from, true), Past(to, true), p) == Pending(h, from, to, p)
      ensures Waiting(from, to, p) && !Waiting(Past(from, true), Past(to, true), p) ==> Pending(h, from, to, p).None?
    {
      PendingBelow(h, from, to, p);
    }
  }

  lemma PendingAtStart(h: Hasher, x: Tree, y: Tree, p: Path)
    requires x.Dir? && y.Dir?
    ensures var from, to := KidSpots(Spot([], x)), KidSpots(Spot([], y));
            if Waiting(from, to, p) then Pending(h, from, to, p) == TrieChange(h, x, y, p)
            else TrieChange(h, x, y, p).None?
  {
    hide FindSpot, KidSpots, ChangeBelow;
    FindKid(Spot([], x), p);
    FindKid(Spot([], y), p);
    NothingHere(h, p, if p == [] then [] else p[1..]);
  }

  /** The start: the children of both roots. */
  lemma StartOfDiff(h: Hasher, x: Tree, y: Tree)
    requires x.Dir? && y.Dir?
    ensures Progress(h, x, y, KidSpots(Spot([], x)), KidSpots(Spot([], y)), [])
  {
    hide Before, Comparable, FindSpot, KidSpots, Waiting, Pending, TrieChange;
    var a, b := Spot([], x), Spot([], y);
    KidsOrdered(a);
    KidsOrdered(b);
    SiblingsComparable(a, b);
    forall p
      ensures if Waiting(KidSpots(a), KidSpots(b), p)
              then Pending(h, KidSpots(a), KidSpots(b), p) == TrieChange(h, x, y, p) else TrieChange(h, x, y, p).None?
    {
      PendingAtStart(h, x, y, p);
    }
  }

  // ------------------------------------------------------- what one step reports

  ghost function FileBelow(t: Tree, q: Path, p: Path): Option<Hash> {
    if Prefix(q, p) then Lookup(t, p[|q|..]) else None
  }

  /** The files at and below a node at q, each once. */
  ghost predicate AreFilesAt(t: Tree, q: Path, files: seq<PathNode>) {
    && (forall i, j | 0 <= i < j < |files| :: files[i].path != files[j].path)
    && (forall n :: n in files <==> FileBelow(t, q, n.path) == Some(n.hash))
  }

  function Deletes(files: seq<PathNode>): (r: seq<Change>)
    ensures |r| == |files| && forall i | 0 <= i < |r| :: r[i] == Change(Some(files[i]), None)
  {
    seq(|files|, i requires 0 <= i < |files| => Change(Some(files[i]), None))
  }

  function Inserts(files: seq<PathNode>): (r: seq<Change>)
    ensures |r| == |files| && forall i | 0 <= i < |r| :: r[i] == Change(None, Some(files[i]))
  {
    seq(|files|, i requires 0 <= i < |files| => Change(None, Some(files[i])))
  }

  lemma FilesArePaths(t: Tree, q: Path, files: seq<PathNode>)
    requires FilePath(q) && Canonical(t) && AreFilesAt(t, q, files)
    ensures forall n | n in files :: FilePath(n.path) && Prefix(q, n.path) && Lookup(t, n.path[|q|..]) == Some(n.hash)
  {
    hide Lookup, Canonical;
    forall n | n in files ensures FilePath(n.path) {
      var rest := n.path[|q|..];
      LookupIsNode(t, rest);
      NodeNames(t, rest);
      assert n.path == q + rest;
    }
  }

  lemma NodeNames(t: Tree, p: Path)
    requires Canonical(t) && Node(t, p).Some?
    ensures NamesOk(p)
  {
    if p != [] {
      NodeBelowRoot(t, p);
    }
  }

  lemma DeletesCover(h: Hasher, t: Tree, q: Path, files: seq<PathNode>)
    requires FilePath(q) && Canonical(t) && AreFilesAt(t, q, files)
    ensures Covers(h, Some(t), None, q, Deletes(files))
  {
    hide Lookup, Canonical, FilePath;
    FilesArePaths(t, q, files);
    var es := Deletes(files);
    forall p | Prefix(q, p) && ChangeBelow(h, Some(t), None, p, p[|q|..]).Some?
      ensures ChangeBelow(h, Some(t), None, p, p[|q|..]).value in es
    {
      var n := PathNode(p, Lookup(t, p[|q|..]).value);
      var i :| 0 <= i < |files| && files[i] == n;
      assert es[i] == Change(Some(n), None);
    }
    forall c | c in es
      ensures FilePath(c.At()) && Prefix(q, c.At()) && ChangeBelow(h, Some(t), None, c.At(), c.At()[|q|..]) == Some(c)
    {
      var i :| 0 <= i < |es| && es[i] == c;
      assert files[i] in files;
    }
  }

  lemma InsertsCover(h: Hasher, t: Tree, q: Path, files: seq<PathNode>)
    requires FilePath(q) && Canonical(t) && AreFilesAt(t, q, files)
    ensures Covers(h, None, Some(t), q, Inserts(files))
  {
    hide Lookup, Canonical, FilePath;
    FilesArePaths(t, q, files);
    var es := Inserts(files);
    forall p | Prefix(q, p) && ChangeBelow(h, None, Some(t), p, p[|q|..]).Some?
      ensures ChangeBelow(h, None, Some(t), p, p[|q|..]).value in es
    {
      var n := PathNode(p, Lookup(t, p[|q|..]).value);
      var i :| 0 <= i < |files| && files[i] == n;
      assert es[i] == Change(None, Some(n));
    }
    forall c | c in es
      ensures FilePath(c.At()) && Prefix(q, c.At()) && ChangeBelow(h, None, Some(t), c.At(), c.At()[|q|..]) == Some(c)
    {
      var i :| 0 <= i < |es| && es[i] == c;
      assert files[i] in files;
    }
  }

  /** A file against a directory: one side has a file at q only, the other only below it. */
  lemma ExchangeCovers(h: Hasher, a: Tree, b: Tree, q: Path, ds: seq<Change>, es: seq<Change>)
    requires a.Dir? != b.Dir?
    requires Covers(h, Some(a), None, q, ds) && Covers(h, None, Some(b), q, es)
    ensures Covers(h, Some(a), Some(b), q, ds + es)
  {
    hide Prefix, FilePath;
    forall rest ensures Lookup(a, rest).None? || Lookup(b, rest).None? {}
    forall i, j | 0 <= i < |ds| && 0 <= j < |es| ensures ds[i].At() != es[j].At() {
      assert ds[i] in ds && es[j] in es;
    }
    var all := ds + es;
    forall i, j | 0 <= i < j < |all| ensures all[i].At() != all[j].At() {
      if i < |ds| <= j {
        assert ds[i].At() != es[j - |ds|].At();
      }
    }
  }

  /** Nodes with one hash: nothing. */
  lemma SameCovers(h: Hasher, objects: Store, a: Tree, b: Tree, q: Path)
    requires Stored(h, objects, a) && Stored(h, objects, b) && HashOf(h, a) == HashOf(h, b)
    ensures Covers(h, Some(a), Some(b), q, [])
  {
    HashDeterminesTree(h, objects, a, b);
  }

  lemma FilesCover(h: Hasher, a: Hash, b: Hash, q: Path)
    requires FilePath(q) && a != b
    ensures Covers(h, Some(File(a)), Some(File(b)), q, [Change(Some(PathNode(q, a)), Some(PathNode(q, b)))])
  {
    forall p | Prefix(q, p) ensures p[|q|..] == [] <==> p == q {}
  }

  lemma RelabelledCovers(h: Hasher, a: Tree, b: Tree, q: Path)
    requires FilePath(q) && Relabelled(h, a, b)
    ensures Covers(h, Some(a), Some(b), q, [DirectoryChange(h, a, b, q)])
  {
    forall p | Prefix(q, p) ensures p[|q|..] == [] <==> p == q {}
  }
}
