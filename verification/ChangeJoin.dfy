/** What the pair iterator yields over a whole run (versionmgr/changes.go). */
module ChangeJoin {
  import opened Wrappers
  import opened Order
  import opened Changes

  /** All pairs of the join of two sorted lists, in the order of the iterator. */
  ghost function JoinAll(left: seq<Change>, right: seq<Change>): Result<seq<ChangePair>>
    decreases |left| + |right|
  {
    if left == [] && right == [] then Ok([])
    else
      match JoinFirst(left, right)
      case Err(e) => Err(e)
      case Ok(j) =>
        match JoinAll(j.left, j.right)
        case Err(e) => Err(e)
        case Ok(rest) => Ok([j.pair] + rest)
  }

  ghost function Prepend(done: seq<ChangePair>, rest: Result<seq<ChangePair>>): Result<seq<ChangePair>> {
    match rest
    case Err(e) => Err(e)
    case Ok(ps) => Ok(done + ps)
  }

  lemma JoinStep(done: seq<ChangePair>, left: seq<Change>, right: seq<Change>)
    ensures left == [] && right == [] ==> Prepend(done, JoinAll(left, right)) == Ok(done)
    ensures left != [] || right != [] ==>
              match JoinFirst(left, right)
              case Err(e) => Prepend(done, JoinAll(left, right)) == Err(e)
              case Ok(j) =>
                && Prepend(done, JoinAll(left, right)) == Prepend(done + [j.pair], JoinAll(j.left, j.right))
                && |j.left| + |j.right| < |left| + |right|
  {
    if left == [] && right == [] {
      assert done + [] == done;
    } else if JoinFirst(left, right).Ok? {
      var j := JoinFirst(left, right).value;
      if JoinAll(j.left, j.right).Ok? {
        assert done + ([j.pair] + JoinAll(j.left, j.right).value) == (done + [j.pair]) + JoinAll(j.left, j.right).value;
      }
    }
  }

  /** Running the pair iterator to its end, as GetMergeState does. */
  method CollectPairs(iter: ChangesPairIter) returns (r: Result<seq<ChangePair>>)
    requires iter.Valid()
    modifies iter.leftChanges, iter.rightChanges
    ensures r == JoinAll(old(iter.leftChanges.Rest()), old(iter.rightChanges.Rest()))
  {
    hide JoinFirst, JoinAll, Prepend;
    var pairs: seq<ChangePair> := [];
    ghost var all := JoinAll(iter.leftChanges.Rest(), iter.rightChanges.Rest());
    PrependNothing(all);
    while iter.Has()
      invariant iter.Valid()
      invariant all == Prepend(pairs, JoinAll(iter.leftChanges.Rest(), iter.rightChanges.Rest()))
      decreases |iter.leftChanges.Rest()| + |iter.rightChanges.Rest()|
    {
      ghost var left, right := iter.leftChanges.Rest(), iter.rightChanges.Rest();
      JoinStep(pairs, left, right);
      var pair := iter.Next();
      if pair.Err? {
        return Err(pair.error);
      }
      pairs := pairs + [pair.value.value];
    }
    JoinStep(pairs, [], []);
    return Ok(pairs);
  }

  lemma PrependNothing(r: Result<seq<ChangePair>>)
    ensures Prepend([], r) == r
  {
    if r.Ok? {
      assert [] + r.value == r.value;
    }
  }

  /** The change with the given path, if the list has one. */
  ghost function Find(cs: seq<Change>, k: string): (r: Option<Change>)
    ensures r.None? <==> k !in Keys(cs)
    ensures r.Some? ==> r.value in cs && r.value.Key() == k
  {
    if cs == [] then None
    else if cs[0].Key() == k then
      assert Keys(cs)[0] == k;
      Some(cs[0])
    else
      var r := Find(cs[1..], k);
      assert Keys(cs) == [cs[0].Key()] + Keys(cs[1..]);
      r
  }

  ghost function PairKeys(ps: seq<ChangePair>): (r: seq<string>)
    ensures |r| == |ps| && forall i | 0 <= i < |ps| :: r[i] == ps[i].Key()
  {
    seq(|ps|, i requires 0 <= i < |ps| => ps[i].Key())
  }

  ghost predicate SortedChanges(cs: seq<Change>) {
    StrictlySorted(Keys(cs))
  }

  /** The pair of the changes that the two lists have at one path. */
  ghost predicate PairOf(left: seq<Change>, right: seq<Change>, p: ChangePair) {
    && p.left == Find(left, p.Key()) && p.right == Find(right, p.Key())
    && (p.left.Some? || p.right.Some?)
    && (p.left.Some? && p.right.Some? ==> IsConflict(p.left.value, p.right.value) == Ok(p.isConflict))
    && (p.left.None? || p.right.None? ==> !p.isConflict)
  }

  /** One pair per path of either list, in increasing order, with exactly the changes that
      the lists have there. */
  ghost predicate IsJoin(left: seq<Change>, right: seq<Change>, ps: seq<ChangePair>) {
    && StrictlySorted(PairKeys(ps))
    && (forall k :: k in PairKeys(ps) <==> k in Keys(left) || k in Keys(right))
    && (forall p | p in ps :: PairOf(left, right, p))
  }

  lemma KeysTail(cs: seq<Change>)
    requires cs != []
    ensures Keys(cs) == [cs[0].Key()] + Keys(cs[1..])
  {
  }

  /** The tail of a sorted list lies behind its head and loses just that. */
  lemma SortedTail(cs: seq<Change>)
    requires SortedChanges(cs) && cs != []
    ensures SortedChanges(cs[1..])
    ensures forall k | k in Keys(cs[1..]) :: Less(cs[0].Key(), k)
    ensures forall k :: k in Keys(cs) <==> k == cs[0].Key() || k in Keys(cs[1..])
    ensures forall k :: Find(cs, k) == if k == cs[0].Key() then Some(cs[0]) else Find(cs[1..], k)
  {
    hide Less, Keys;
    KeysTail(cs);
    var a, b := Keys(cs), Keys(cs[1..]);
    assert forall i | 0 <= i < |b| :: b[i] == a[i + 1];
  }

  /** What taking the first pair off two sorted lists does. */
  ghost predicate Splits(left: seq<Change>, right: seq<Change>, j: Joined) {
    && SortedChanges(j.left) && SortedChanges(j.right)
    && PairOf(left, right, j.pair)
    && (forall k | k in Keys(j.left) || k in Keys(j.right) :: Less(j.pair.Key(), k))
    && (forall k :: k in Keys(left) || k in Keys(right) <==>
          k == j.pair.Key() || k in Keys(j.left) || k in Keys(j.right))
    && (forall k | k != j.pair.Key() :: Find(left, k) == Find(j.left, k) && Find(right, k) == Find(j.right, k))
  }

  lemma FirstPairSplits(left: seq<Change>, right: seq<Change>)
    requires SortedChanges(left) && SortedChanges(right) && (left != [] || right != [])
    requires JoinFirst(left, right).Ok?
    ensures Splits(left, right, JoinFirst(left, right).value)
  {
    if left != [] {
      SortedTail(left);
    }
    if right != [] {
      SortedTail(right);
    }
    if left != [] && right != [] {
      var a, b := left[0].Key(), right[0].Key();
      LessTotal(a, b);
      LessIrreflexive(a);
      LessIrreflexive(b);
      forall k | k in Keys(left[1..]) && Less(b, a) ensures Less(b, k) {
        LessTransitive(b, a, k);
      }
      forall k | k in Keys(right[1..]) && Less(a, b) ensures Less(a, k) {
        LessTransitive(a, b, k);
      }
      if Less(a, b) {
        LessAsymmetric(a, b);
      } else if Less(b, a) {
        LessAsymmetric(b, a);
      }
    }
  }

  lemma IsJoinCons(left: seq<Change>, right: seq<Change>, j: Joined, rest: seq<ChangePair>)
    requires Splits(left, right, j) && IsJoin(j.left, j.right, rest)
    ensures IsJoin(left, right, [j.pair] + rest)
  {
    hide IsConflict, Find, Less;
    var ps := [j.pair] + rest;
    assert PairKeys(ps) == [j.pair.Key()] + PairKeys(rest);
    forall i | 0 <= i < |rest| ensures Less(j.pair.Key(), rest[i].Key()) {
      assert PairKeys(rest)[i] in PairKeys(rest);
    }
    forall p | p in rest ensures PairOf(left, right, p) {
      var i :| 0 <= i < |rest| && rest[i] == p;
      LessIrreflexive(p.Key());
    }
  }

  /** The iterator computes an exact ordered join, although it reads ahead and puts back. */
  lemma {:induction false} JoinIsExact(left: seq<Change>, right: seq<Change>)
    requires SortedChanges(left) && SortedChanges(right) && JoinAll(left, right).Ok?
    ensures IsJoin(left, right, JoinAll(left, right).value)
    decreases |left| + |right|
  {
    hide SortedChanges, IsJoin, Splits, JoinFirst;
    if left == [] && right == [] {
      NothingJoined();
    } else {
      JoinStep([], left, right);
      var j := JoinFirst(left, right).value;
      FirstPairSplits(left, right);
      SplitSorted(left, right, j);
      JoinIsExact(j.left, j.right);
      IsJoinCons(left, right, j, JoinAll(j.left, j.right).value);
    }
  }

  lemma NothingJoined()
    ensures IsJoin([], [], [])
  {
  }

  lemma SplitSorted(left: seq<Change>, right: seq<Change>, j: Joined)
    requires Splits(left, right, j)
    ensures SortedChanges(j.left) && SortedChanges(j.right)
  {
  }

  /** Some path has changes in both lists that the iterator rejects as mismatched. */
  ghost predicate Mismatched(left: seq<Change>, right: seq<Change>, k: string) {
    Find(left, k).Some? && Find(right, k).Some? && IsConflict(Find(left, k).value, Find(right, k).value).Err?
  }

  /** The run ends in an error exactly when some path has mismatched changes. */
  lemma {:induction false} JoinFailsOnMismatch(left: seq<Change>, right: seq<Change>)
    requires SortedChanges(left) && SortedChanges(right)
    ensures JoinAll(left, right).Err? <==> exists k :: Mismatched(left, right, k)
    decreases |left| + |right|
  {
    hide SortedChanges, IsConflict, Less;
    if left == [] && right == [] {
    } else if JoinFirst(left, right).Err? {
      assert Mismatched(left, right, left[0].Key());
    } else {
      var j := JoinFirst(left, right).value;
      JoinStep([], left, right);
      FirstPairSplits(left, right);
      JoinFailsOnMismatch(j.left, j.right);
      forall k ensures Mismatched(left, right, k) <==> Mismatched(j.left, j.right, k) {
        SplitMismatch(left, right, j, k);
      }
    }
  }

  lemma SplitMismatch(left: seq<Change>, right: seq<Change>, j: Joined, k: string)
    requires Splits(left, right, j)
    ensures Mismatched(left, right, k) <==> Mismatched(j.left, j.right, k)
  {
    if k == j.pair.Key() {
      LessIrreflexive(k);
    }
  }
}
