/** Runs of requests against one repository. Each opens a session, checks out what it works
    on and performs one operation, as the handlers in controller/ do; RebaseWip writes to the
    wip table directly, as the handler in controller/wip_ctl.go does. */
module SessionRuns {
  import opened Wrappers
  import opened Hashes
  import opened CommitGraph
  import opened CommitStore
  import opened CommitMerge
  import opened FileMerge
  import opened TreeModel
  import opened WorkTrees
  import opened WorkTreeRuns
  import opened Tables
  import opened SessionSpec
  import opened SessionRows
  import opened Requests
  import opened Sessions
  import Objects

  // --------------------------------------------------------------- moving a base

  /** If the request moves the base of a wip, then to a commit in the history of the head. */
  ghost predicate Fits(s: State, q: Request) {
    q.op.RebaseWip? && HeadOk(s.commits, q.op.base) ==>
      forall b, w | AboutWip(s, q, b, w) :: HeadAdvances(s.commits, q.op.base, s.branches[b].commitHash)
  }

  /** The part of UpdateWip (controller/wip_ctl.go) that sets the base: to any stored commit,
      or to none. */
  method Rebase(repo: Database, q: Request) returns (done: bool, ghost b: Id, ghost w: Id)
    requires repo.Valid() && q.op.RebaseWip?
    modifies repo
    ensures repo.Valid() && Advances(old(repo.Now()), repo.Now())
    ensures done <==>
              CanCheckOut(old(repo.Now()), q.user, WipOf(q.branch)) && HeadOk(old(repo.commits.commits), q.op.base)
    ensures done ==> Effect(repo.trees.hasher, old(repo.Now()), q, b, w, None, repo.Now())
    ensures !done ==> repo.Now() == old(repo.Now())
    ensures !done ==> Refused(repo.trees.hasher, repo.commits.hasher, old(repo.Now()), q)
    ensures BasesBelowHeads(old(repo.Now())) ==> (BasesBelowHeads(repo.Now()) <==> Fits(old(repo.Now()), q))
  {
    hide RowsOk, Sound, CanCheckOut, Advances, BasesBelowHeads, Fits, HasWip, HasBranch, Refused, Effect,
      CacheOk, Current, WipRefuses;
    b, w := 0, 0;
    ghost var s, h, ch := repo.Now(), repo.trees.hasher, repo.commits.hasher;
    StepReflexive(h, s);
    var branch := repo.GetBranch(q.branch);
    if branch.Err? {
      NoBranchToOpen(s, q.user, q.branch);
      NoWipThere(h, ch, s, q);
      NothingToMove(h, ch, s, q);
      return false, b, w;
    }
    var wip := repo.GetWip(q.user.id, branch.value.id);
    if wip.Err? {
      NoWipToOpen(h, s, q.user, branch.value);
      NoWipThere(h, ch, s, q);
      NothingToMove(h, ch, s, q);
      return false, b, w;
    }
    SessionSpec.OpenWip(h, s, q.user, branch.value, wip.value, Cache(Nothing, Unset, None, None, None));
    RowsByKey(h, s, branch.value, wip.value);
    if q.op.base != EMPTY_HASH && q.op.base !in repo.commits.commits {
      NoSuchBase(h, ch, s, q, branch.value.id, wip.value.id);
      NothingToMove(h, ch, s, q);
      return false, b, w;
    }
    repo.UpdateWip(wip.value.id, None, Some(q.op.base));
    b, w, done := branch.value.id, wip.value.id, true;
    Rebased(h, s, repo.Now(), q, b, w);
  }

  lemma NoSuchBase(h: Objects.Hasher, ch: CommitHasher, s: State, q: Request, b: Id, w: Id)
    requires RowsOk(h, s) && AboutWip(s, q, b, w) && q.op.RebaseWip? && !HeadOk(s.commits, q.op.base)
    ensures Refused(h, ch, s, q)
  {
    hide RowsOk, AboutWip, Refused;
    WipRefused(h, ch, s, q, b, w);
  }

  lemma RowsByKey(h: Objects.Hasher, s: State, b: Branch, w: Wip)
    requires RowsOk(h, s) && b in s.branches.Values && w in s.wips.Values
    ensures b.id in s.branches && s.branches[b.id] == b && w.id in s.wips && s.wips[w.id] == w
  {
    BranchRow(s, b);
    WipRow(h, s, w);
  }

  lemma NothingToMove(h: Objects.Hasher, ch: CommitHasher, s: State, q: Request)
    requires q.op.RebaseWip? && Refused(h, ch, s, q)
    ensures Fits(s, q)
  {
    hide HeadAdvances;
  }

  /** A base that was moved: heads are where they were, and bases lie below heads afterwards
      exactly when the new one does. */
  lemma Rebased(h: Objects.Hasher, s: State, s': State, q: Request, b: Id, w: Id)
    requires RowsOk(h, s) && q.op.RebaseWip? && HeadOk(s.commits, q.op.base) && AboutWip(s, q, b, w)
    requires s' == s.(wips := s.wips[w := s.wips[w].(baseCommit := q.op.base)])
    ensures RowsOk(h, s') && Advances(s, s') && Effect(h, s, q, b, w, None, s')
    ensures BasesBelowHeads(s) ==> (BasesBelowHeads(s') <==> Fits(s, q))
  {
    hide Readable, HeadAdvances, Advances, BasesBelowHeads, Fits;
    RebasedRows(h, s, s', q, b, w);
    AdvancesReflexive(s);
    SameHeadsAdvance(s, s');
    OnlyWip(h, s, q, b, w);
    RebasedBelow(s, s', q, b, w);
  }

  lemma RebasedRows(h: Objects.Hasher, s: State, s': State, q: Request, b: Id, w: Id)
    requires RowsOk(h, s) && q.op.RebaseWip? && HeadOk(s.commits, q.op.base) && AboutWip(s, q, b, w)
    requires s' == s.(wips := s.wips[w := s.wips[w].(baseCommit := q.op.base)])
    ensures RowsOk(h, s')
  {
    hide Readable;
  }

  lemma SameHeadsAdvance(s: State, s': State)
    requires Advances(s, s) && s' == s.(wips := s'.wips)
    ensures Advances(s, s')
  {
  }

  lemma RebasedBelow(s: State, s': State, q: Request, b: Id, w: Id)
    requires q.op.RebaseWip? && HeadOk(s.commits, q.op.base) && AboutWip(s, q, b, w)
    requires forall b', w' | AboutWip(s, q, b', w') :: b' == b && w' == w
    requires s' == s.(wips := s.wips[w := s.wips[w].(baseCommit := q.op.base)])
    ensures BasesBelowHeads(s) ==> (BasesBelowHeads(s') <==> Fits(s, q))
  {
    hide HeadAdvances;
    if BasesBelowHeads(s') {
      assert w in s'.wips && s'.wips[w].refId in s'.branches;
    }
  }

  // --------------------------------------------------------------- one request

  predicate OnWip(op: Operation) {
    op.CommitWip? || op.ChangeWip? || op.ChangeAndCommit? || op.RevertWip?
  }

  /** The session has checked out the user's wip on the branch. */
  ghost predicate WipReady(s: State, q: Request, c: Cache) {
    OnWipTree(s, c) && AboutWip(s, q, c.branch.value.id, c.wip.value.id)
  }

  lemma WipIsReady(s: State, q: Request, before: Cache, c: Cache)
    requires CheckedOut(s, q.user, WipOf(q.branch), before, c)
    ensures WipReady(s, q, c)
  {
  }

  /** The session has checked out the branch. */
  ghost predicate BranchReady(s: State, q: Request, c: Cache) {
    && c.state.InBranch? && c.branch.Some? && Current(s, c) && AboutBranch(s, q, c.branch.value.id)
    && c.commit == CommitOf(s.commits, c.branch.value.commitHash)
  }

  lemma BranchIsReady(s: State, q: Request, before: Cache, c: Cache)
    requires CheckedOut(s, q.user, BranchNamed(q.branch), before, c) && GraphOk(s.commits)
    ensures BranchReady(s, q, c)
  {
  }

  /** A request in a session that has checked out the wip. */
  method PerformOnWip(session: WorkRepository, q: Request) returns (done: bool, ghost c: Option<Commit>)
    requires session.Valid() && RequestOk(session.repo.trees.hasher, q) && session.operator == q.user && OnWip(q.op)
    requires WipReady(session.repo.Now(), q, session.Cached())
    modifies session, session.repo, session.repo.commits, session.repo.trees
    ensures session.repo.Valid() && Step(old(session.repo.Now()), session.repo.Now())
    ensures done ==>
      Effect(session.repo.trees.hasher, old(session.repo.Now()), q, old(session.branch.value.id),
             old(session.wip.value.id), c, session.repo.Now())
    ensures !done ==> session.repo.Now() == old(session.repo.Now())
    ensures !done ==> Refused(session.repo.trees.hasher, session.repo.commits.hasher, old(session.repo.Now()), q)
  {
    hide RowsOk, Step, Settled, Current, EditsOk, Sound, MayEdit, EditedTo, MayRevert, RevertedTo, TreeSet, Readable,
      RowCommitted, RowEdited, RowGives, RowTakes, RowReverted, RowReverts, RowCommitRefused, CommitTaken, CacheOk,
      SignedBy, Refused;
    ghost var s, h, ch, cache := session.repo.Now(), session.repo.trees.hasher, session.repo.commits.hasher,
        session.Cached();
    ghost var b, w := session.branch.value.id, session.wip.value.id;
    StepReflexive(h, s);
    ReadyRows(s, q, cache);
    done, c := false, None;
    match q.op {
      case CommitWip(msg) =>
        var r := session.CommitChanges(msg);
        done, c := r.Ok?, if r.Ok? then Some(r.value) else None;
      case ChangeWip(edits) =>
        var r := session.ChangeInWip(edits);
        done := r.Ok?;
      case ChangeAndCommit(msg, edits) =>
        var r := session.ChangeAndCommit(msg, edits);
        done, c := r.Ok?, if r.Ok? then Some(r.value) else None;
      case RevertWip(prefix) =>
        var r := session.Revert(prefix);
        done := r.Ok?;
    }
    if !done {
      WipRefused(h, ch, s, q, b, w);
    }
  }

  lemma ReadyRows(s: State, q: Request, c: Cache)
    requires WipReady(s, q, c)
    ensures s.wips[c.wip.value.id] == c.wip.value && s.branches[c.branch.value.id] == c.branch.value && Current(s, c)
    ensures c.state.InWip?
  {
  }

  /** A request in a session that has checked out the branch. */
  method PerformOnBranch(session: WorkRepository, q: Request) returns (done: bool, ghost w: Id, ghost c: Option<Commit>)
    requires session.Valid() && RequestOk(session.repo.trees.hasher, q) && session.operator == q.user
    requires !OnWip(q.op) && !q.op.RebaseWip? && BranchReady(session.repo.Now(), q, session.Cached())
    modifies session, session.repo, session.repo.commits, session.repo.trees
    ensures session.repo.Valid() && Step(old(session.repo.Now()), session.repo.Now())
    ensures done ==>
      Effect(session.repo.trees.hasher, old(session.repo.Now()), q, old(session.branch.value.id), w, c,
             session.repo.Now())
    ensures !done ==> session.repo.Now() == old(session.repo.Now())
    ensures !done ==> Refused(session.repo.trees.hasher, session.repo.commits.hasher, old(session.repo.Now()), q)
  {
    hide RowsOk, Step, Current, Sound, Joined, Readable, CacheOk, SignedBy, Refused, MergeRefused, OverOneAsSaid,
      HasWip, HasBranch, Objects.Grows, GraphGrows, CommitOf, GraphOk;
    ghost var s, h, ch, cache := session.repo.Now(), session.repo.trees.hasher, session.repo.commits.hasher,
        session.Cached();
    ghost var b := session.branch.value.id;
    StepReflexive(h, s);
    SoundGraph(session.repo.commits, session.repo.trees);
    ReadyBranch(h, s, q, cache);
    done, w, c := false, 0, None;
    match q.op {
      case MergeCommit(hash, msg, resolver) =>
        var r := session.Merge(hash, msg, resolver);
        done, c := r.Ok?, if r.Ok? then Some(r.value) else None;
        if done {
          MergeOnRows(h, s, session.repo.Now(), cache, q.user, hash, msg, resolver, r.value);
        }
      case OpenWip =>
        var r := session.GetOrCreateWip();
        done := r.Ok?;
      case DropWip =>
        var r := session.DeleteWip();
        done := r.Ok?;
        w := DroppedWip(h, ch, s, q, b);
      case DropBranch =>
        session.DeleteBranch();
        done := true;
      case NewBranch(name) =>
        var r := session.CreateBranch(name);
        done := r.Ok?;
    }
    if !done && !q.op.DropWip? {
      BranchRefused(h, ch, s, q, b);
    }
  }

  lemma ReadyBranch(h: Objects.Hasher, s: State, q: Request, c: Cache)
    requires BranchReady(s, q, c) && CacheOk(h, s, c) && GraphOk(s.commits)
    ensures c.branch.value.id in s.branches && s.branches[c.branch.value.id] == c.branch.value && Current(s, c)
    ensures HeadOk(s.commits, c.branch.value.commitHash)
    ensures (if c.commit.Some? then c.commit.value.hash else EMPTY_HASH) == c.branch.value.commitHash
  {
    hide Readable;
    HeadCommit(s.commits, c.branch.value.commitHash);
  }

  lemma MergeOnRows(h: Objects.Hasher, s: State, s': State, c: Cache, who: User, toMerge: Hash, msg: string,
                    resolver: Resolver, commit: Commit)
    requires c.branch.Some? && c.branch.value.id in s.branches && s.branches[c.branch.value.id] == c.branch.value
    requires HeadOk(s.commits, toMerge)
    requires s'.branches == MoveHead(s.branches, c.branch.value.id, commit.hash) && s'.wips == s.wips
    requires s'.nextId == s.nextId && GraphGrows(s.commits, s'.commits) && Objects.Grows(s.objects, s'.objects)
    requires Joined(h, s, s', CommitOf(s.commits, toMerge), CommitOf(s.commits, c.branch.value.commitHash), resolver,
                    commit)
    requires commit.hash !in s.commits ==> SignedBy(commit, who.name, who.email, msg)
    ensures RowMerged(h, s, s', c.branch.value.id, who, toMerge, msg, resolver, commit)
  {
    hide Joined, SignedBy, Objects.Grows, GraphGrows, CommitOf;
  }

  /** The wip that a request to drop it is about, if there is one. */
  lemma DroppedWip(h: Objects.Hasher, ch: CommitHasher, s: State, q: Request, b: Id) returns (w: Id)
    requires RowsOk(h, s) && AboutBranch(s, q, b) && q.op.DropWip?
    ensures HasWip(s, q.user.id, b) ==>
              && AboutWip(s, q, b, w)
              && s.wips - {w} == map i | i in s.wips && !(s.wips[i].refId == b && s.wips[i].creatorId == q.user.id) ::
                   s.wips[i]
    ensures !HasWip(s, q.user.id, b) ==> Refused(h, ch, s, q)
  {
    hide Readable;
    w := 0;
    if HasWip(s, q.user.id, b) {
      w :| w in s.wips && s.wips[w].creatorId == q.user.id && s.wips[w].refId == b;
      OnlyWip(h, s, q, b, w);
      assert forall i | i in s.wips :: s.wips[i].refId == b && s.wips[i].creatorId == q.user.id ==>
               AboutWip(s, q, b, i);
    } else {
      OnlyBranchOfName(h, s, q, b);
    }
  }

  /** One request: it has its effect on the rows, or it changes nothing, for a cause. */
  method Serve(repo: Database, q: Request) returns (done: bool, ghost b: Id, ghost w: Id, ghost c: Option<Commit>)
    requires repo.Valid() && RequestOk(repo.trees.hasher, q)
    modifies repo, repo.commits, repo.trees
    ensures repo.Valid() && Advances(old(repo.Now()), repo.Now())
    ensures BasesBelowHeads(old(repo.Now())) ==> (BasesBelowHeads(repo.Now()) <==> Fits(old(repo.Now()), q))
    ensures done ==> Effect(repo.trees.hasher, old(repo.Now()), q, b, w, c, repo.Now())
    ensures !done ==> repo.Now() == old(repo.Now())
    ensures !done ==> Refused(repo.trees.hasher, repo.commits.hasher, old(repo.Now()), q)
  {
    hide RowsOk, Sound, RequestOk, CanCheckOut, CheckedOut, Effect, Refused, Advances, BasesBelowHeads, WipReady,
      BranchReady, Current, CacheOk, GraphOk;
    StepReflexive(repo.trees.hasher, repo.Now());
    b, w, c := 0, 0, None;
    if q.op.RebaseWip? {
      done, b, w := Rebase(repo, q);
      return;
    }
    ghost var s, h, ch := repo.Now(), repo.trees.hasher, repo.commits.hasher;
    SoundGraph(repo.commits, repo.trees);
    var session := new WorkRepository(q.user, repo);
    ghost var before := session.Cached();
    if OnWip(q.op) {
      var ready := session.CheckOut(WipOf(q.branch));
      if ready.Err? {
        NoWipThere(h, ch, s, q);
        return false, b, w, c;
      }
      WipIsReady(s, q, before, session.Cached());
      ReadyIds(s, q, session.Cached());
      b, w := session.branch.value.id, session.wip.value.id;
      done, c := PerformOnWip(session, q);
    } else {
      var ready := session.CheckOut(BranchNamed(q.branch));
      if ready.Err? {
        NoBranchThere(h, ch, s, q);
        return false, b, w, c;
      }
      BranchIsReady(s, q, before, session.Cached());
      ReadyId(s, q, session.Cached());
      b := session.branch.value.id;
      done, w, c := PerformOnBranch(session, q);
    }
  }

  lemma ReadyIds(s: State, q: Request, c: Cache)
    requires WipReady(s, q, c)
    ensures c.branch.Some? && c.wip.Some?
  {
  }

  lemma ReadyId(s: State, q: Request, c: Cache)
    requires BranchReady(s, q, c)
    ensures c.branch.Some?
  {
  }

  // ------------------------------------------------------------------------- runs

  /** What one request of a run does to the state: it has its effect, or it changes nothing,
      for a cause. Bases stay below heads exactly when it moves none out of its history. */
  ghost predicate Served(h: Objects.Hasher, ch: CommitHasher, s: State, q: Request, s': State) {
    && ((s' == s && Refused(h, ch, s, q)) || exists b, w, c :: Effect(h, s, q, b, w, c, s'))
    && Advances(s, s') && (BasesBelowHeads(s) ==> (BasesBelowHeads(s') <==> Fits(s, q)))
  }

  /** Rows in good order, with heads that are stored. */
  ghost predicate StateOk(h: Objects.Hasher, s: State) {
    RowsOk(h, s) && GraphOk(s.commits)
  }

  /** The states between the requests of a run. */
  ghost predicate IsRun(h: Objects.Hasher, ch: CommitHasher, states: seq<State>, requests: seq<Request>) {
    && |states| == |requests| + 1
    && (forall i | 0 <= i < |states| :: StateOk(h, states[i]))
    && forall i | 0 <= i < |requests| :: Served(h, ch, states[i], requests[i], states[i + 1])
  }

  /** Every move of a base among the first n requests fits the state that it meets. */
  ghost predicate AllFit(states: seq<State>, requests: seq<Request>, n: nat) {
    n <= |requests| <= |states| && forall i | 0 <= i < n :: Fits(states[i], requests[i])
  }

  lemma MoreStates(h: Objects.Hasher, ch: CommitHasher, states: seq<State>, requests: seq<Request>, i: nat, s: State)
    requires i < |requests| && IsRun(h, ch, states, requests[..i])
    requires Served(h, ch, states[i], requests[i], s) && StateOk(h, s)
    ensures IsRun(h, ch, states + [s], requests[..i + 1])
  {
    hide Served, StateOk;
    var more := states + [s];
    forall j | 0 <= j < i + 1 ensures Served(h, ch, more[j], requests[..i + 1][j], more[j + 1]) {
      assert j < i ==> requests[..i][j] == requests[j] && more[j + 1] == states[j + 1];
    }
  }

  lemma {:induction false} RunAdvances(h: Objects.Hasher, ch: CommitHasher, states: seq<State>,
                                       requests: seq<Request>, i: nat, j: nat)
    requires IsRun(h, ch, states, requests) && i <= j < |states|
    ensures Advances(states[i], states[j])
    decreases j - i
  {
    hide Advances, Effect, Refused, BasesBelowHeads, Fits, BranchesOk, WipsOk, Closed;
    assert StateOk(h, states[i]);
    if i == j {
      AdvancesReflexive(states[i]);
    } else {
      RunAdvances(h, ch, states, requests, i, j - 1);
      assert Served(h, ch, states[j - 1], requests[j - 1], states[j]) && StateOk(h, states[j - 1]);
      AdvancesTransitive(states[i], states[j - 1], states[j]);
    }
  }

  /** No commit that is made in a run is lost: as long as its branch exists, it is in the
      history of the head. */
  lemma RunKeepsCommits(h: Objects.Hasher, ch: CommitHasher, states: seq<State>, requests: seq<Request>, i: nat,
                        j: nat, b: Id, w: Id, c: Commit)
    requires IsRun(h, ch, states, requests) && i < j < |states|
    requires Effect(h, states[i], requests[i], b, w, Some(c), states[i + 1])
    requires requests[i].op.CommitWip? || requests[i].op.ChangeAndCommit? || requests[i].op.MergeCommit?
    requires b in states[j].branches
    ensures Reach(states[j].commits, states[j].branches[b].commitHash, c.hash)
  {
    hide Reach, Effect, BasesBelowHeads, Fits, StateOk, Refused;
    RunAdvances(h, ch, states, requests, i + 1, j);
    CommitIsHead(h, states[i], requests[i], b, w, c, states[i + 1]);
  }

  lemma CommitIsHead(h: Objects.Hasher, s: State, q: Request, b: Id, w: Id, c: Commit, s': State)
    requires Effect(h, s, q, b, w, Some(c), s')
    requires q.op.CommitWip? || q.op.ChangeAndCommit? || q.op.MergeCommit?
    ensures b in s'.branches && s'.branches[b].commitHash == c.hash && c.hash in s'.commits
    ensures q.op.CommitWip? || q.op.ChangeAndCommit? ==> c.hash != EMPTY_HASH
    ensures StateOk(h, s') ==> c.hash != EMPTY_HASH
  {
    hide Reach, MergedOver, RowGives, Objects.Grows, BranchesOk, WipsOk, Closed;
  }

  /** While all moves fit, the base of every wip stays in the history of its head. */
  lemma {:induction false} FittingRunKeepsBases(h: Objects.Hasher, ch: CommitHasher, states: seq<State>,
                                                requests: seq<Request>, i: nat)
    requires IsRun(h, ch, states, requests) && AllFit(states, requests, i) && BasesBelowHeads(states[0])
    ensures BasesBelowHeads(states[i])
  {
    hide BasesBelowHeads, Fits, Advances, Effect, Refused, StateOk;
    if i > 0 {
      FittingRunKeepsBases(h, ch, states, requests, i - 1);
      assert Served(h, ch, states[i - 1], requests[i - 1], states[i]);
    }
  }

  /** And the first move that does not fit ends that. */
  lemma FirstMisfitBreaksBases(h: Objects.Hasher, ch: CommitHasher, states: seq<State>, requests: seq<Request>, i: nat)
    requires IsRun(h, ch, states, requests) && i < |requests| && AllFit(states, requests, i)
    requires BasesBelowHeads(states[0]) && !Fits(states[i], requests[i])
    ensures !BasesBelowHeads(states[i + 1])
  {
    hide BasesBelowHeads, Fits, Advances, Effect, Refused, StateOk;
    FittingRunKeepsBases(h, ch, states, requests, i);
    assert Served(h, ch, states[i], requests[i], states[i + 1]);
  }

  // ------------------------------------------------------------- a wip in a run

  /** The request is one about the wip w. */
  ghost predicate Touches(s: State, q: Request, w: Id) {
    NeedsWip(q.op) && exists b :: AboutWip(s, q, b, w)
  }

  /** A request that is not about a wip leaves it as it is, or drops its branch and the wip
      with it. */
  lemma OthersLeaveWip(h: Objects.Hasher, s: State, q: Request, b: Id, v: Id, c: Option<Commit>, s': State, w: Id)
    requires Effect(h, s, q, b, v, c, s') && w < s.nextId && !Touches(s, q, w)
    ensures w in s'.wips <==> w in s.wips && !(q.op.DropBranch? && s.wips[w].refId == b)
    ensures w in s'.wips ==> s'.wips[w] == s.wips[w]
  {
    hide RowGives, FilesReverted, Joined, CommitOf, Objects.Grows, GraphGrows, SignedBy, HasBranch, HasWip, HeadOk;
  }

  /** What a user has in a wip stays until the next request about it: whatever the others do,
      the row is as it was, or its branch is gone. */
  lemma {:induction false} RunLeavesWip(h: Objects.Hasher, ch: CommitHasher, states: seq<State>,
                                        requests: seq<Request>, i: nat, j: nat, w: Id)
    requires IsRun(h, ch, states, requests) && i <= j < |states| && w in states[i].wips
    requires forall k | i <= k < j :: !Touches(states[k], requests[k], w)
    ensures w in states[j].wips ==> states[j].wips[w] == states[i].wips[w]
    ensures w !in states[j].wips ==> exists k :: i <= k < j && requests[k].op.DropBranch?
    ensures w < states[j].nextId
    decreases j - i
  {
    hide Advances, Effect, Refused, BasesBelowHeads, Fits, BranchesOk, GraphOk, Readable, Touches;
    assert StateOk(h, states[i]);
    if i < j {
      RunLeavesWip(h, ch, states, requests, i, j - 1, w);
      var s, q, s' := states[j - 1], requests[j - 1], states[j];
      assert Served(h, ch, s, q, s');
      IdsGrow(s, s');
      if b, v, c :| Effect(h, s, q, b, v, c, s') {
        OthersLeaveWip(h, s, q, b, v, c, s', w);
      }
    }
  }

  lemma IdsGrow(s: State, s': State)
    requires Advances(s, s')
    ensures s.nextId <= s'.nextId && Objects.Grows(s.objects, s'.objects)
  {
  }

  /** Edits on top of edits. */
  lemma GivesMore(h: Objects.Hasher, s: State, s': State, w: Id, es: seq<Edit>, more: seq<Edit>, after: Objects.Store,
                  root: Hash)
    requires Objects.CollisionFree(h) && w in s'.wips && RowGives(h, s, w, es, s'.objects, s'.wips[w].currentTree)
    requires RowGives(h, s', w, more, after, root)
    ensures RowGives(h, s, w, es + more, after, root)
  {
    hide Readable, RunTree, Objects.CollisionFree;
    RunTreeConcat(TreeAt(h, s.objects, s.wips[w].currentTree), es, more);
  }

  /** The tree that a change request has left in a wip is still there, while the wip is, when
      the next request about the wip comes. */
  lemma EditsStay(h: Objects.Hasher, ch: CommitHasher, states: seq<State>, requests: seq<Request>, i: nat, j: nat,
                  b: Id, w: Id, c: Option<Commit>)
    requires IsRun(h, ch, states, requests) && i < j < |states| && Objects.CollisionFree(h)
    requires requests[i].op.ChangeWip? && Effect(h, states[i], requests[i], b, w, c, states[i + 1])
    requires forall k | i < k < j :: !Touches(states[k], requests[k], w)
    requires w in states[j].wips
    ensures RowGives(h, states[i], w, requests[i].op.edits, states[j].objects, states[j].wips[w].currentTree)
  {
    hide Advances, Served, StateOk, RowGives, Objects.CollisionFree, Objects.Grows, Touches, AboutWip;
    RunLeavesWip(h, ch, states, requests, i + 1, j, w);
    RunAdvances(h, ch, states, requests, i + 1, j);
    IdsGrow(states[i + 1], states[j]);
    GivesLater(h, states[i], w, requests[i].op.edits, states[i + 1].objects, states[j].objects,
               states[i + 1].wips[w].currentTree);
  }

  lemma GivesLater(h: Objects.Hasher, s: State, w: Id, es: seq<Edit>, after: Objects.Store, later: Objects.Store,
                   root: Hash)
    requires Objects.CollisionFree(h) && RowGives(h, s, w, es, after, root) && Objects.Grows(after, later)
    ensures RowGives(h, s, w, es, later, root)
  {
    hide Readable, RunTree, Objects.CollisionFree, Objects.Grows;
    TreePersists(h, after, later, root);
  }

  /** Two change requests for one wip, with any requests between that are not about it, amount
      to one with both lists of edits. */
  lemma EditsAddUp(h: Objects.Hasher, ch: CommitHasher, states: seq<State>, requests: seq<Request>, i: nat, j: nat,
                   b: Id, b': Id, w: Id, c: Option<Commit>, c': Option<Commit>)
    requires IsRun(h, ch, states, requests) && i < j < |requests| && Objects.CollisionFree(h)
    requires requests[i].op.ChangeWip? && Effect(h, states[i], requests[i], b, w, c, states[i + 1])
    requires requests[j].op.ChangeWip? && Effect(h, states[j], requests[j], b', w, c', states[j + 1])
    requires forall k | i < k < j :: !Touches(states[k], requests[k], w)
    ensures w in states[j + 1].wips
    ensures RowGives(h, states[i], w, requests[i].op.edits + requests[j].op.edits, states[j + 1].objects,
                     states[j + 1].wips[w].currentTree)
  {
    hide Served, StateOk, RunTree, Readable, Objects.CollisionFree, Objects.Grows, Touches, RowGives;
    assert w in states[j].wips;
    EditsStay(h, ch, states, requests, i, j, b, w, c);
    GivesMore(h, states[i], states[j], w, requests[i].op.edits, requests[j].op.edits, states[j + 1].objects,
              states[j + 1].wips[w].currentTree);
  }

  /** And what a later commit request commits is the tree after the edits. */
  lemma EditsGetCommitted(h: Objects.Hasher, ch: CommitHasher, states: seq<State>, requests: seq<Request>, i: nat,
                          j: nat, b: Id, b': Id, w: Id, c: Option<Commit>, c': Commit)
    requires IsRun(h, ch, states, requests) && i < j < |requests| && Objects.CollisionFree(h)
    requires requests[i].op.ChangeWip? && Effect(h, states[i], requests[i], b, w, c, states[i + 1])
    requires requests[j].op.CommitWip? && Effect(h, states[j], requests[j], b', w, Some(c'), states[j + 1])
    requires forall k | i < k < j :: !Touches(states[k], requests[k], w)
    ensures RowGives(h, states[i], w, requests[i].op.edits, states[j + 1].objects, c'.treeHash)
    ensures b' in states[j + 1].branches && states[j + 1].branches[b'].commitHash == c'.hash
  {
    hide Served, StateOk, RunTree, Readable, Objects.CollisionFree, Objects.Grows, Touches, RowGives, SignedBy;
    assert w in states[j].wips;
    EditsStay(h, ch, states, requests, i, j, b, w, c);
  }

  // ---------------------------------------------------------------------- the run

  /** Over every run of requests a head that is not empty only moves to descendants and
      nothing stored is lost or changed. The base of every wip stays in the history of its
      head as long as no request moves a base out of it. */
  method Run(repo: Database, requests: seq<Request>) returns (ghost states: seq<State>)
    requires repo.Valid() && forall q | q in requests :: RequestOk(repo.trees.hasher, q)
    modifies repo, repo.commits, repo.trees
    ensures repo.Valid() && Advances(old(repo.Now()), repo.Now())
    ensures IsRun(repo.trees.hasher, repo.commits.hasher, states, requests)
    ensures states[0] == old(repo.Now()) && states[|requests|] == repo.Now()
    ensures BasesBelowHeads(old(repo.Now())) && AllFit(states, requests, |requests|) ==> BasesBelowHeads(repo.Now())
  {
    hide RowsOk, Sound, RequestOk, GraphOk, StateOk, Advances, BasesBelowHeads, Effect, Refused, Fits, IsRun, AllFit,
      Served;
    ghost var start, h, ch := repo.Now(), repo.trees.hasher, repo.commits.hasher;
    states := [start];
    SoundGraph(repo.commits, repo.trees);
    NoStates(h, ch, start, requests);
    for i := 0 to |requests|
      invariant repo.Valid()
      invariant |states| == i + 1 && IsRun(h, ch, states, requests[..i]) && states[0] == start
      invariant states[i] == repo.Now()
    {
      assert requests[i] in requests;
      ghost var before := repo.Now();
      var done, b, w, c := Serve(repo, requests[i]);
      SoundGraph(repo.commits, repo.trees);
      ServedNow(h, ch, before, requests[i], repo.Now(), done, b, w, c);
      MoreStates(h, ch, states, requests, i, repo.Now());
      states := states + [repo.Now()];
    }
    assert requests[..|requests|] == requests;
    RunIsWhole(h, ch, states, requests);
  }

  lemma RunIsWhole(h: Objects.Hasher, ch: CommitHasher, states: seq<State>, requests: seq<Request>)
    requires IsRun(h, ch, states, requests)
    ensures |states| == |requests| + 1 && Advances(states[0], states[|requests|])
    ensures BasesBelowHeads(states[0]) && AllFit(states, requests, |requests|) ==> BasesBelowHeads(states[|requests|])
  {
    hide Advances, BasesBelowHeads, AllFit, Served, StateOk;
    RunAdvances(h, ch, states, requests, 0, |requests|);
    if BasesBelowHeads(states[0]) && AllFit(states, requests, |requests|) {
      FittingRunKeepsBases(h, ch, states, requests, |requests|);
    }
  }

  lemma ServedNow(h: Objects.Hasher, ch: CommitHasher, s: State, q: Request, s': State, done: bool, b: Id, w: Id,
                  c: Option<Commit>)
    requires RowsOk(h, s') && GraphOk(s'.commits) && Advances(s, s')
    requires BasesBelowHeads(s) ==> (BasesBelowHeads(s') <==> Fits(s, q))
    requires if done then Effect(h, s, q, b, w, c, s') else s' == s && Refused(h, ch, s, q)
    ensures Served(h, ch, s, q, s') && StateOk(h, s')
  {
    hide Effect, Refused, BasesBelowHeads, Fits, Advances, BranchesOk, WipsOk, GraphOk;
  }

  lemma NoStates(h: Objects.Hasher, ch: CommitHasher, s: State, requests: seq<Request>)
    requires RowsOk(h, s) && GraphOk(s.commits)
    ensures IsRun(h, ch, [s], requests[..0])
  {
    hide RowsOk, GraphOk;
  }

  // ------------------------------------------------------------ who gets to commit

  /** After a commit every other wip on the branch is stale: its base is no longer the head,
      so no commit from it gets through before it is renewed. */
  lemma OtherWipsAreStale(h: Objects.Hasher, s: State, s': State, b: Branch, w: Id, root: Hash,
                          wipTree: Option<Hash>, c: Commit, v: Id)
    requires RowsOk(h, s) && Committed(s, s', b, w, root, wipTree, c) && b.id in s.branches
    requires v in s.wips && v != w
    ensures v in s'.wips && s'.wips[v] == s.wips[v] && s'.wips[v].baseCommit != s'.branches[b.id].commitHash
  {
    hide Readable;
    assert WipOk(h, s, s.wips[v]);
  }
}
