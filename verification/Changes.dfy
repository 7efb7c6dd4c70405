/** File changes between two trees, and the sorted join of two change lists
    (versionmgr/changes.go). */
module Changes {
  import opened Wrappers
  import opened Hashes
  import opened Order
  import opened TreeModel
  import opened Paths

  /** The end of a noder path: where a file is and which blob it holds. */
  datatype PathNode = PathNode(path: Path, hash: Hash)

  datatype Action = Insert | Delete | Modify

  datatype Change = Change(from: Option<PathNode>, to: Option<PathNode>) {
    function Action(): Result<Action> {
      if from.None? && to.None? then Err(MalformedChange)
      else if from.None? then Ok(Insert)
      else if to.None? then Ok(Delete)
      else Ok(Modify)
    }

    /** Where the change is; a malformed change is nowhere. */
    function At(): Path {
      if from.Some? then from.value.path
      else if to.Some? then to.value.path
      else []
    }

    /** Path() of the source: the string that change lists are sorted and joined by. */
    function Key(): string {
      JoinPath(At())
    }
  }

  /** isConflict */
  function IsConflict(left: Change, right: Change): Result<bool> {
    if left.Action().Err? then Err(left.Action().error)
    else if right.Action().Err? then Err(right.Action().error)
    else
      match (left.Action().value, right.Action().value)
      case (Insert, Delete) => Err(ActionMismatch)
      case (Insert, Modify) => Err(ActionMismatch)
      case (Insert, Insert) => Ok(left.to.value.hash != right.to.value.hash)
      case (Delete, Delete) => Ok(false)
      case (Delete, Insert) => Err(ActionMismatch)
      case (Delete, Modify) => Ok(true)
      case (Modify, Insert) => Err(ActionMismatch)
      case (Modify, Delete) => Ok(true)
      case (Modify, Modify) => Ok(left.to.value.hash != right.to.value.hash)
  }

  /** What an action is, and when two changes of one path conflict: an insertion fits only an
      insertion, and fitting changes conflict when they lead to different ends. */
  lemma ConflictMeans(left: Change, right: Change)
    requires (left.from.Some? || left.to.Some?) && (right.from.Some? || right.to.Some?)
    ensures left.Action() == Ok(if left.from.None? then Insert else if left.to.None? then Delete else Modify)
    ensures left.from.None? != right.from.None? ==> IsConflict(left, right) == Err(ActionMismatch)
    ensures left.from.None? == right.from.None? && left.to.Some? && right.to.Some? ==>
              IsConflict(left, right) == Ok(left.to.value.hash != right.to.value.hash)
    ensures left.from.Some? && right.from.Some? && (left.to.None? || right.to.None?) ==>
              IsConflict(left, right) == Ok(left.to.Some? || right.to.Some?)
  {
  }

  ghost function Keys(cs: seq<Change>): (r: seq<string>)
    ensures |r| == |cs| && forall i | 0 <= i < |cs| :: r[i] == cs[i].Key()
  {
    seq(|cs|, i requires 0 <= i < |cs| => cs[i].Key())
  }

  // ---------------------------------------------------------------- the cursor

  /** Changes: a list and the index last read. */
  class ChangeCursor {
    const changes: seq<Change>
    var idx: int

    ghost predicate Valid()
      reads this
    {
      -1 <= idx && (idx < |changes| || (idx == -1 && changes == []))
    }

    ghost function Rest(): seq<Change>
      requires Valid()
      reads this
    {
      changes[idx + 1..]
    }

    constructor (changes: seq<Change>)
      ensures Valid() && this.changes == changes && Rest() == changes
    {
      this.changes, idx := changes, -1;
    }

    predicate Has()
      reads this
    {
      idx < |changes| - 1
    }

    method Next() returns (c: Option<Change>)
      requires Valid()
      modifies this
      ensures Valid()
      ensures c.None? ==> old(Rest()) == [] && idx == old(idx)
      ensures c.Some? ==> idx == old(idx) + 1 && old(Rest()) == [c.value] + Rest()
    {
      if idx < |changes| - 1 {
        idx := idx + 1;
        return Some(changes[idx]);
      }
      return None;
    }

    /** Back: un-read the last element. */
    method Back()
      requires Valid()
      modifies this
      ensures Valid()
      ensures old(idx) >= 0 ==> idx == old(idx) - 1 && Rest() == [changes[old(idx)]] + old(Rest())
      ensures old(idx) == -1 ==> Rest() == old(Rest())
    {
      if idx > -1 {
        idx := idx - 1;
      }
    }
  }

  // ------------------------------------------------------------- the sorted join

  datatype ChangePair = ChangePair(left: Option<Change>, right: Option<Change>, isConflict: bool) {
    ghost function Key(): string {
      if left.Some? then left.value.Key()
      else if right.Some? then right.value.Key()
      else ""
    }
  }

  datatype Joined = Joined(pair: ChangePair, left: seq<Change>, right: seq<Change>)

  /** The first pair of two sorted lists that are not both empty, and what is left. */
  ghost function JoinFirst(left: seq<Change>, right: seq<Change>): Result<Joined>
    requires left != [] || right != []
  {
    if left == [] then Ok(Joined(ChangePair(None, Some(right[0]), false), left, right[1..]))
    else if right == [] then Ok(Joined(ChangePair(Some(left[0]), None, false), left[1..], right))
    else if left[0].Key() == right[0].Key() then
      var c := IsConflict(left[0], right[0]);
      if c.Err? then Err(c.error)
      else Ok(Joined(ChangePair(Some(left[0]), Some(right[0]), c.value), left[1..], right[1..]))
    else if Less(left[0].Key(), right[0].Key()) then
      Ok(Joined(ChangePair(Some(left[0]), None, false), left[1..], right))
    else Ok(Joined(ChangePair(None, Some(right[0]), false), left, right[1..]))
  }

  /** strings.Compare(a, b) > 0 */
  predicate After(a: string, b: string) {
    Less(b, a)
  }

  lemma OneIsEarlier(a: string, b: string)
    ensures After(a, b) ==> a != b && !Less(a, b)
    ensures !After(a, b) && a != b ==> Less(a, b)
  {
    LessTotal(a, b);
    if Less(b, a) {
      LessAsymmetric(b, a);
    }
  }

  class ChangesPairIter {
    const leftChanges: ChangeCursor
    const rightChanges: ChangeCursor

    ghost predicate Valid()
      reads this, leftChanges, rightChanges
    {
      leftChanges != rightChanges && leftChanges.Valid() && rightChanges.Valid()
    }

    constructor (leftChanges: ChangeCursor, rightChanges: ChangeCursor)
      requires leftChanges != rightChanges && leftChanges.Valid() && rightChanges.Valid()
      ensures Valid() && this.leftChanges == leftChanges && this.rightChanges == rightChanges
    {
      this.leftChanges, this.rightChanges := leftChanges, rightChanges;
    }

    predicate Has()
      reads this, leftChanges, rightChanges
    {
      leftChanges.Has() || rightChanges.Has()
    }

    /** Next: read both lists, put back the change that comes later. */
    method Next() returns (r: Result<Option<ChangePair>>)
      requires Valid()
      modifies leftChanges, rightChanges
      ensures Valid()
      ensures old(leftChanges.Rest()) == [] && old(rightChanges.Rest()) == [] ==> r == Ok(None)
      ensures old(leftChanges.Rest()) != [] || old(rightChanges.Rest()) != [] ==>
        match JoinFirst(old(leftChanges.Rest()), old(rightChanges.Rest()))
        case Err(e) => r == Err(e)
        case Ok(j) => r == Ok(Some(j.pair)) && leftChanges.Rest() == j.left && rightChanges.Rest() == j.right
    {
      hide Less, IsConflict;
      var leftNode := leftChanges.Next();
      var rightNode := rightChanges.Next();
      if leftNode.None? && rightNode.None? {
        return Ok(None);
      }
      if leftNode.None? {
        return Ok(Some(ChangePair(None, rightNode, false)));
      }
      if rightNode.None? {
        return Ok(Some(ChangePair(leftNode, None, false)));
      }
      OneIsEarlier(leftNode.value.Key(), rightNode.value.Key());
      if After(leftNode.value.Key(), rightNode.value.Key()) {
        leftChanges.Back();
        return Ok(Some(ChangePair(None, rightNode, false)));
      } else if leftNode.value.Key() == rightNode.value.Key() {
        var isConflict := IsConflict(leftNode.value, rightNode.value);
        if isConflict.Err? {
          return Err(isConflict.error);
        }
        return Ok(Some(ChangePair(leftNode, rightNode, isConflict.value)));
      }
      rightChanges.Back();
      return Ok(Some(ChangePair(leftNode, None, false)));
    }
  }
}
