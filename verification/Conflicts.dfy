/** Conflict resolvers (versionmgr/conflict.go). */
module Conflicts {
  import opened Wrappers
  import opened Order
  import opened Changes

  type ConflictResolver = (Change, Change) -> Result<Change>

  /** LeastHashResolve: a change that keeps the file beats a deletion, otherwise the one
      with the smaller hash wins. */
  function LeastHashResolve(left: Change, right: Change): Result<Change> {
    if left.Action().Err? then Err(left.Action().error)
    else if right.Action().Err? then Err(right.Action().error)
    else if left.Action().value.Delete? then Ok(right)
    else if right.Action().value.Delete? then Ok(left)
    else if Less(left.to.value.hash, right.to.value.hash) then Ok(left)
    else Ok(right)
  }

  function ForbidResolver(left: Change, right: Change): Result<Change> {
    Err(Conflict)
  }

  function OneSideResolver(useLeft: bool): ConflictResolver {
    (left, right) => Ok(if useLeft then left else right)
  }

  function ResolveFromSelector(resolveMsg: map<string, string>): ConflictResolver {
    (left: Change, right: Change) =>
      Ok(if left.Key() in resolveMsg && resolveMsg[left.Key()] == "left" then left else right)
  }

  /** The resolver answers with one of its two arguments, if it answers. */
  ghost predicate Chooses(f: ConflictResolver) {
    forall left, right :: f(left, right).Ok? ==> f(left, right).value == left || f(left, right).value == right
  }

  /** The resolvers g and f make the same choices with the sides swapped, wherever two
      changes disagree about one file of a common ancestor. */
  ghost predicate Mirrors(f: ConflictResolver, g: ConflictResolver) {
    forall left: Change, right: Change ::
      left.from == right.from && left.to != right.to && left.Key() == right.Key()
      && left.Action().Ok? && right.Action().Ok? && SameHashSameEnd(left, right)
      ==> f(left, right) == g(right, left)
  }

  /** Different ends are different blobs. */
  ghost predicate SameHashSameEnd(left: Change, right: Change) {
    left.to.Some? && right.to.Some? && left.to.value.hash == right.to.value.hash ==> left.to == right.to
  }

  lemma ResolversChoose(useLeft: bool, resolveMsg: map<string, string>)
    ensures Chooses(LeastHashResolve) && Chooses(ForbidResolver)
    ensures Chooses(OneSideResolver(useLeft)) && Chooses(ResolveFromSelector(resolveMsg))
  {
  }

  /** Choosing the least hash does not depend on the sides; choosing one side is mirrored
      by choosing the other. */
  lemma ResolversMirror(useLeft: bool)
    ensures Mirrors(LeastHashResolve, LeastHashResolve)
    ensures Mirrors(ForbidResolver, ForbidResolver)
    ensures Mirrors(OneSideResolver(useLeft), OneSideResolver(!useLeft))
  {
    forall left: Change, right: Change | left.from == right.from && left.to != right.to && left.Action().Ok?
        && right.Action().Ok?
        && SameHashSameEnd(left, right)
      ensures LeastHashResolve(left, right) == LeastHashResolve(right, left)
    {
      if left.to.Some? && right.to.Some? {
        OneIsEarlier(left.to.value.hash, right.to.value.hash);
      }
    }
  }
}
