/** The requests that users send, and what each leaves in the tables: an effect on the rows,
    or nothing at all and a cause. */
module Requests {
  import opened Wrappers
  import opened Hashes
  import opened CommitGraph
  import opened CommitStore
  import opened CommitMerge
  import opened FileMerge
  import opened WorkTreeRuns
  import opened Tables
  import opened SessionSpec
  import opened SessionRows
  import Objects

  datatype Operation =
    | CommitWip(msg: string)
    | ChangeWip(edits: seq<Edit>)
    | ChangeAndCommit(msg: string, edits: seq<Edit>)
    | RevertWip(prefix: string)
    | MergeCommit(hash: Hash, msg: string, resolver: Resolver)
    | OpenWip
    | DropWip
    | DropBranch
    | NewBranch(name: string)
    | RebaseWip(base: Hash)

  /** What a user asks to do on a branch. */
  datatype Request = Request(user: User, branch: string, op: Operation)

  ghost predicate RequestOk(h: Objects.Hasher, q: Request) {
    match q.op
    case ChangeWip(es) => EditsOk(h, es)
    case ChangeAndCommit(_, es) => EditsOk(h, es)
    case MergeCommit(_, _, resolver) => ResolverChooses(resolver)
    case _ => true
  }

  /** The request is about the branch b. */
  ghost predicate AboutBranch(s: State, q: Request, b: Id) {
    b in s.branches && s.branches[b].name == q.branch
  }

  /** The request is about the user's wip w on the branch b. */
  ghost predicate AboutWip(s: State, q: Request, b: Id, w: Id) {
    AboutBranch(s, q, b) && w in s.wips && s.wips[w].creatorId == q.user.id && s.wips[w].refId == b
  }

  ghost predicate NeedsWip(op: Operation) {
    op.CommitWip? || op.ChangeWip? || op.ChangeAndCommit? || op.RevertWip? || op.DropWip? || op.RebaseWip?
  }

  // --------------------------------------------------------------------- effects

  /** A request about a wip has this effect. A commit request commits the tree of the wip,
      changes give the wip its tree after the edits, and changes with a commit do both; a
      revert takes the wip back to its base. */
  ghost predicate WipEffect(h: Objects.Hasher, s: State, q: Request, b: Id, w: Id, c: Option<Commit>, s': State) {
    && AboutWip(s, q, b, w)
    && match q.op
       case CommitWip(msg) =>
         && c.Some? && s'.objects == s.objects
         && RowCommitted(s, s', b, w, q.user, msg, s.wips[w].currentTree, c.value)
       case ChangeWip(es) => RowEdited(h, s, s', w, es)
       case ChangeAndCommit(msg, es) =>
         && c.Some? && RowCommitted(s, s', b, w, q.user, msg, c.value.treeHash, c.value)
         && RowGives(h, s, w, es, s'.objects, c.value.treeHash)
       case RevertWip(prefix) => RowReverted(h, s, s', w, prefix)
       case DropWip => s' == s.(wips := s.wips - {w})
       case RebaseWip(base) =>
         HeadOk(s.commits, base) && s' == s.(wips := s.wips[w := s.wips[w].(baseCommit := base)])
       case _ => false
  }

  /** The user got a new wip on the head of the branch, with the tree of the head. */
  ghost predicate RowOpened(s: State, s': State, b: Id, who: User) {
    && b in s.branches && HeadOk(s.commits, s.branches[b].commitHash)
    && var head := s.branches[b].commitHash;
       var tree := if head == EMPTY_HASH then EMPTY_HASH else s.commits[head].treeHash;
       s' == s.(wips := s.wips[s.nextId := Wip(s.nextId, b, who.id, tree, head)], nextId := s.nextId + 1)
  }

  /** A request about a branch has this effect. A merge request moves the head to a commit
      that joins it with the other; a wip is opened unless there is one; a branch leaves
      with all wips on it; a new branch starts at the head. */
  ghost predicate BranchEffect(h: Objects.Hasher, s: State, q: Request, b: Id, c: Option<Commit>, s': State) {
    && AboutBranch(s, q, b)
    && match q.op
       case MergeCommit(hash, msg, resolver) =>
         c.Some? && RowMerged(h, s, s', b, q.user, hash, msg, resolver, c.value)
       case OpenWip => if HasWip(s, q.user.id, b) then s' == s else RowOpened(s, s', b, q.user)
       case DropBranch =>
         s' == s.(branches := s.branches - {b}, wips := map i | i in s.wips && s.wips[i].refId != b :: s.wips[i])
       case NewBranch(name) =>
         && !HasBranch(s, name)
         && s' == s.(branches := s.branches[s.nextId := Branch(s.nextId, name, s.branches[b].commitHash)],
                     nextId := s.nextId + 1)
       case _ => false
  }

  ghost predicate Effect(h: Objects.Hasher, s: State, q: Request, b: Id, w: Id, c: Option<Commit>, s': State) {
    if NeedsWip(q.op) then WipEffect(h, s, q, b, w, c, s') else BranchEffect(h, s, q, b, c, s')
  }

  // -------------------------------------------------------------------- refusals

  /** Why a request about a wip is refused. */
  ghost predicate WipRefuses(h: Objects.Hasher, ch: CommitHasher, s: State, q: Request, b: Id, w: Id)
    requires AboutWip(s, q, b, w)
  {
    match q.op
    case CommitWip(msg) =>
      || s.wips[w].baseCommit != s.branches[b].commitHash
      || CommitTaken(ch, s.commits, q.user, msg, s.wips[w].currentTree, s.branches[b].commitHash)
    case ChangeWip(es) => !RowTakes(h, s, w, es)
    case ChangeAndCommit(msg, es) => RowCommitRefused(h, ch, s, b, w, q.user, msg, es)
    case RevertWip(prefix) => !RowReverts(h, s, w, prefix)
    case RebaseWip(base) => !HeadOk(s.commits, base)
    case _ => false
  }

  /** Why a request about a branch is refused. */
  ghost predicate BranchRefuses(h: Objects.Hasher, ch: CommitHasher, s: State, q: Request, b: Id)
    requires AboutBranch(s, q, b)
  {
    match q.op
    case MergeCommit(hash, msg, resolver) =>
      || !HeadOk(s.commits, hash)
      || MergeRefused(h, ch, s, hash, s.branches[b].commitHash, MergingBy(q.user, msg, resolver))
    case NewBranch(name) => HasBranch(s, name)
    case _ => false
  }

  /** There is a cause to refuse the request: there is no such branch or no such wip, or the
      request cannot be carried out on it. */
  ghost predicate Refused(h: Objects.Hasher, ch: CommitHasher, s: State, q: Request) {
    if NeedsWip(q.op) then forall b, w | AboutWip(s, q, b, w) :: WipRefuses(h, ch, s, q, b, w)
    else forall b | AboutBranch(s, q, b) :: BranchRefuses(h, ch, s, q, b)
  }

  /** A request is about one branch, and about one wip at most. */
  lemma OnlyWip(h: Objects.Hasher, s: State, q: Request, b: Id, w: Id)
    requires RowsOk(h, s) && AboutWip(s, q, b, w)
    ensures forall b', w' | AboutWip(s, q, b', w') :: b' == b && w' == w
  {
    hide Readable;
    forall b', w' | AboutWip(s, q, b', w') ensures b' == b && w' == w {
      assert s.branches[b'].name == s.branches[b].name;
      assert SameOwner(s.wips[w'], s.wips[w]);
    }
  }

  lemma OnlyBranchOfName(h: Objects.Hasher, s: State, q: Request, b: Id)
    requires RowsOk(h, s) && AboutBranch(s, q, b)
    ensures forall b' | AboutBranch(s, q, b') :: b' == b
  {
    hide WipsOk;
    forall b' | AboutBranch(s, q, b') ensures b' == b {
      assert s.branches[b'].name == s.branches[b].name;
    }
  }

  lemma WipRefused(h: Objects.Hasher, ch: CommitHasher, s: State, q: Request, b: Id, w: Id)
    requires RowsOk(h, s) && AboutWip(s, q, b, w) && NeedsWip(q.op) && WipRefuses(h, ch, s, q, b, w)
    ensures Refused(h, ch, s, q)
  {
    hide WipRefuses, RowsOk, AboutWip;
    OnlyWip(h, s, q, b, w);
  }

  lemma BranchRefused(h: Objects.Hasher, ch: CommitHasher, s: State, q: Request, b: Id)
    requires RowsOk(h, s) && AboutBranch(s, q, b) && !NeedsWip(q.op) && BranchRefuses(h, ch, s, q, b)
    ensures Refused(h, ch, s, q)
  {
    hide BranchRefuses, RowsOk, AboutBranch;
    OnlyBranchOfName(h, s, q, b);
  }

  /** Without the branch or the wip there is nothing to do. */
  lemma NoBranchThere(h: Objects.Hasher, ch: CommitHasher, s: State, q: Request)
    requires !CanCheckOut(s, q.user, BranchNamed(q.branch))
    ensures Refused(h, ch, s, q)
  {
    hide WipRefuses, BranchRefuses;
  }

  lemma NoWipThere(h: Objects.Hasher, ch: CommitHasher, s: State, q: Request)
    requires NeedsWip(q.op) && !CanCheckOut(s, q.user, WipOf(q.branch))
    ensures Refused(h, ch, s, q)
  {
    hide WipRefuses, BranchRefuses;
    forall b, w | AboutWip(s, q, b, w) ensures HasWip(s, q.user.id, b) {}
  }

  /** Except for a hash that is taken at one time and not at another, the cause decides: a
      request that has its effect had no cause to be refused. */
  lemma EffectOrCause(h: Objects.Hasher, ch: CommitHasher, s: State, q: Request, b: Id, w: Id, c: Option<Commit>,
                      s': State)
    requires RowsOk(h, s) && Effect(h, s, q, b, w, c, s') && !q.op.MergeCommit?
    requires q.op.CommitWip? ==>
               !CommitTaken(ch, s.commits, q.user, q.op.msg, s.wips[w].currentTree, s.branches[b].commitHash)
    requires q.op.ChangeAndCommit? ==>
               !CommitTaken(ch, s.commits, q.user, q.op.msg, c.value.treeHash, s.branches[b].commitHash)
    ensures !Refused(h, ch, s, q)
  {
    assert AboutBranch(s, q, b);
  }
}
