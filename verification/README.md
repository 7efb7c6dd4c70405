# A model of the version-control engine of jiaozifs

jiaozifs keeps data repositories the way git does: commits form a graph, every commit names
the root hash of a content-addressed directory tree, branches name commits, and a user edits
a working copy (a "wip") before committing it. This project models that engine
(`versionmgr/` and the tables of `models/` below it) in Dafny and states what it guarantees.

The files, in the order in which they build on one another:

- `Hashes`, `Wrappers`, `Order`, `Paths`: hashes, outcomes, the byte-wise order of strings,
  and paths as the strings that change lists are sorted by.
- `CommitGraph`, `Traversal`, `TraversalOrder`: the commit store as a finite map, reachability
  along parents, a reference definition of graph traversal and what it visits in which order.
- `CommitWalkers`, `FilteredWalk`, `TimeWalk`: the iterators over commits, as classes whose
  `Next` is proved against the reference traversal or against reachability.
- `MergeBase`, `MergeBaseLaws`: common ancestors, and that they depend on the shape of the
  history only, never on dates.
- `Objects`, `TreeModel`, `TreeUpdates`: the insert-if-absent object store, the abstract tree a
  root hash stands for, its canonical form, and the updates on it.
- `WorkNodes`, `WorkTrees`, `WorkTreeRuns`: the work tree class whose edits rebuild the
  directories from the edited one to the root, and runs of edits.
- `LexicalPaths`, `FileWalks`: paths as `path.Join` builds them, the explicit-stack walk over a
  tree, the manifest.
- `Changes`, `ChangeJoin`, `Conflicts`, `FileMerge`: change lists, their sorted join, conflict
  resolution, and what merging does to one file.
- `TrieChanges`, `TrieIters`, `TrieFrontiers`, `DoubleIters`, `Diffs`: what the trie comparison
  reports for two trees, path by path, and when that is the difference of their files; the
  iterator with its stack of frames, the pair of iterators, and the comparison that reads them.
- `Patches`, `ThreeWay`, `DirectoryChanges`: replaying changes onto a tree, the three-way merge,
  and what the change of a whole directory does to merge and revert.
- `CommitStore`, `CommitMerge`: inserting commits, `merge` and `findBestAncestor`.
- `Reverts`, `Tables`, `SessionSpec`, `SessionRows`, `Sessions`, `SessionLaws`: revert, the
  branch and wip tables with transactions, the session class `WorkRepository`, what its
  requests do to the rows of the tables, and what several requests in one session amount to.
- `Requests`, `SessionRuns`, `StaleSessions`: the effect of every request on the rows and the
  causes to refuse it, whole runs of requests, and requests from a head that is no longer the
  head.

Three abstractions run through everything. A commit store is a finite map from hashes to
commits that is closed under parents and acyclic (`History`). A tree is a nested map
(`Tree`), and `Represents` ties it to a root hash and a store; `Lookup` flattens it to the
map from paths to blob hashes. The state of the database is one value (`State`), and
`Advances` and `Step` say how it may evolve.

Two assumptions are stated where they are used: the object hasher has no collisions and no
empty digest (`CollisionFree`), and the commit hasher has no empty digest (`NeverEmpty`).
Dates are arbitrary integers; the clock and the iteration order of Go maps are arbitrary.

Where the code does not do what a reader may expect, the model follows the code and says
exactly when the expectation holds:

- The comparison of two trees reports a directory as one change, with the two directory hashes,
  when both have it, it differs, and its entries have the same hashes in the same order: when
  nothing but names differ. Such a directory is called relabelled here; renaming the only file
  of a directory makes one. The comparison gives the difference of the files exactly when no
  directory is relabelled (`DiffIffNoneRelabelled`). In a merge the change of a relabelled
  directory can be a conflict that the files do not have (`RelabelledConflict`,
  `WrongConflict`), or it is applied by filing the directory as a blob. The root hash is then
  that of the right tree, whatever else is merged (`FiledRun`), but the files of the directory
  cannot be found (`FiledHides`, `WrongMerge`), and once the row with the wrong flag is stored
  the right tree cannot be stored any more (`FiledPoisons`; a right row that was there before
  stays, `FiledLucky`). The model does not follow the source into a store with wrong flags: at
  that point it stops with `DirectoryAsBlob`. So `MergeTrees` and everything built on it say
  when a merge gets through while no directory is relabelled (`TreesAlign`); with a relabelled
  directory the model ends in an error, and where that is `DirectoryAsBlob` the source goes on.
  A revert looks for a blob at such a directory and fails, and it does not look below one
  (`CanRevert`, `RevertMisses`, `WrongRevert`); that is modelled without exception.
- Replaying a difference of files, merging and reverting do not always get through: an inserted
  file sorts before the removals below it, so a file cannot take the place of a directory
  (`FileForDirectoryFails`). They get through exactly when no file of the result is a directory
  of the starting tree (`PatchLaw`, `ReplayIffCompletable`, `CanMerge`, `CanRevert`).
- `Merge` moves the branch in the table but not the branch cached in the session. A second
  merge from the same session starts from the old head, and what the first one brought stays
  in the branch exactly when the first moved nothing or fast-forwarded to a commit in the
  history of the second, or the second merges what the first made (`MergeTwice`; in `LoseAMerge`
  it is lost). In the same way two sessions that checked out wips on one branch can both commit,
  and the first commit is then not in the branch (`CommitTwice`). Requests that check out first
  are not affected (`Run`, `RunKeepsCommits`).
- The walk over the files joins names with `path.Join`, which resolves "." and "..", and
  `AddLeaf` accepts such names. An entry is reported under its full path exactly when that
  path is lexically clean, and the manifest is right exactly when the paths it concerns are
  (`WalkReports`, `ListedIffClean`; `DotsInNames` is a case where it is wrong).
- The request that updates a wip may set its base to any stored commit. The base of every wip
  stays in the history of its head exactly as long as no such request moves one out of it
  (`Run`, `FirstMisfitBreaksBases`).
- `Revert` does not set the tree that the session edits. Right after a checkout, edits that
  follow a revert in the same session start from the tree before it, and the revert is lost;
  after an edit or a commit in the session they start from the reverted tree
  (`EditAfterRevert`).
- The prefix of a difference or a revert is one of the string, not of whole segments: reverting
  "a" takes back "ab" (`RevertTakesLongerName`).
- `GetOrCreateWip` on a wip that exists leaves the session on the branch, and a checkout of the
  empty commit hash changes nothing but the cached tree hash.
- The `isDir` flag of an entry is not part of the hash of its directory. The stored child
  decides it, so two stored directories with one hash are still the same (`SameHashSameRow`).

## Model

| member | source | states |
|---|---|---|
| CommitGraph.ReachAntisymmetric | versionmgr/merge_base.go:43-59 | in an acyclic history two commits that are ancestors of each other are one commit, so "is ancestor" orders commits |
| CommitGraph.ReachRank | versionmgr/work_repo.go:878-907 | a strict ancestor has a smaller rank than its descendant |
| Traversal.SearchExact | versionmgr/commit_walker.go:26-86 | whatever the order of a walk, it visits exactly the unseen commits reachable through unseen commits |
| Traversal.SearchDistinct | versionmgr/commit_walker.go:46-86 | no commit is visited twice and none that was seen before the walk |
| Traversal.SearchAll | versionmgr/merge_base.go:46-59 | a walk with nothing ignored visits exactly the history of its start |
| Traversal.DropUnseen | versionmgr/commit_walker_bfs.go:44-54 | leaving out parents that were seen already when they would be queued changes nothing about the walk |
| TraversalOrder.SearchIsDfs | versionmgr/commit_walker.go:46-86 | a walk with a stack visits commits in the recursive depth-first order over a shared seen set, parents first to last or last to first |
| TraversalOrder.BreadthFirstByDistance | versionmgr/commit_walker_bfs.go:56-80 | a walk with a queue visits commits in non-decreasing distance from the start, the distance measured without entering seen commits, although the queue holds duplicates |
| CommitWalkers.CommitPreIterator.constructor | versionmgr/commit_walker.go:26-44 | the iterator will return the depth-first search from its start outside the ignored and externally seen commits |
| CommitWalkers.CommitPreIterator.Next | versionmgr/commit_walker.go:46-86 | the stack of parent iterators returns the commits of that search one by one and in order |
| CommitWalkers.CommitPostIterator.constructor | versionmgr/commit_walker.go:136-147 | the iterator will return the search that takes parents last to first |
| CommitWalkers.CommitPostIterator.Next | versionmgr/commit_walker.go:149-173 | the single stack returns the commits of that search one by one and in order |
| CommitWalkers.BfsCommitIterator.constructor | versionmgr/commit_walker_bfs.go:25-42 | the iterator will return the breadth-first search from its start |
| CommitWalkers.BfsCommitIterator.AppendHashes | versionmgr/commit_walker_bfs.go:44-54 | of a commit's parents those not seen are queued, in order |
| CommitWalkers.BfsCommitIterator.Next | versionmgr/commit_walker_bfs.go:56-80 | the queue returns the commits of that search one by one and in order |
| FilteredWalk.FilterCommitIter.PopNewFromQueue | versionmgr/commit_walker_bfs_filtered.go:141-160 | takes the first queued commit that was not visited and leaves what is behind it, or finds that all were visited |
| FilteredWalk.FilterCommitIter.AddToQueue | versionmgr/commit_walker_bfs_filtered.go:164-183 | appends those of the commits that were not visited, in their order |
| FilteredWalk.FilterCommitIter.Next | versionmgr/commit_walker_bfs_filtered.go:69-91 | returns a commit that passes the validity filter and was not visited before, as the last of its visits, after visiting only commits that fail it; keeps the visits the beginning of a breadth-first search, whatever the limits among the commits not visited yet |
| FilteredWalk.FilterCommitIter.EndedInOrder | versionmgr/commit_walker_bfs_filtered.go:11-22 | a walk that has ended has visited commits in breadth-first order, in non-decreasing distance from the start, the distance measured without going past a limit |
| FilteredWalk.FilterCommitIter.Exhausted | versionmgr/commit_walker_bfs_filtered.go:69-91 | a walk that has ended has visited exactly the commits reachable from the start through commits that were no limit |
| FilteredWalk.FilterCommitIter.ReachedIsHistory | versionmgr/commit_walker_bfs_filtered.go:69-91 | only ancestors of the start are visited, and after the end every visited commit that was no limit has all its parents visited |
| TimeWalk.CommitIteratorByCTime.Next | versionmgr/commit_walker_ctime.go:55-83 | emits one more commit and keeps the walk sound and, if no parent is newer than its child, in falling order of time; ends only with an empty heap |
| TimeWalk.WalkIsExact | versionmgr/commit_walker_ctime.go:55-83 | a finished walk has emitted exactly the commits reachable without entering the skipped ones |
| TimeWalk.EmitPopped | versionmgr/commit_walker_ctime.go:65-81 | emitting the newest commit of the heap and pushing its unseen parents keeps the invariant, and the order when no parent is newer than its child |
| TimeWalk.WalkByTime | versionmgr/commit_walker_ctime.go:28-105 | a whole walk emits every commit of the history once, newest first if no parent is newer than its child |
| MergeBase.RemoveDuplicated | versionmgr/merge_base.go:186-201 | the same commits, each once |
| MergeBase.Remove | versionmgr/merge_base.go:170-183 | the list without the commit, in the same order |
| MergeBase.IndexOf | versionmgr/merge_base.go:159-167 | the first position of the commit, or -1 exactly when it is not there |
| MergeBase.SortByCommitDateDesc | versionmgr/merge_base.go:148-156 | the same commits, newest first |
| MergeBase.StrikeOffHistory | versionmgr/merge_base.go:106-123 | one traversal that stops at commits seen by earlier ones still strikes off every candidate below its start, and no candidate that is not below it |
| MergeBase.StrikingKeepsCover | versionmgr/merge_base.go:106-123 | every original commit stays at or below some remaining candidate |
| MergeBase.ScanOne | versionmgr/merge_base.go:105-135 | one turn of the scan keeps "no seen commit has a remaining candidate as a strict ancestor", and leaves fewer candidates behind the position |
| MergeBase.Independents | versionmgr/merge_base.go:89-138 | returns exactly, and once each, the members that are no strict ancestor of another member; it ends although the position may move back |
| MergeBase.AncestorsIndex | versionmgr/merge_base.go:64-85 | reports whether one commit is in the history of the other, and otherwise returns that history exactly |
| MergeBase.IsAncestor | versionmgr/merge_base.go:46-59 | answers whether the commit is the other or an ancestor of it |
| MergeBase.EntryPoints | versionmgr/merge_base.go:32-38 | the commits where the walk down from the older commit enters the history of the newer one are common ancestors, and every common ancestor lies at or below one of them |
| MergeBase.IndependentsAreBest | versionmgr/merge_base.go:32-40 | the independent ones among common ancestors that cover all common ancestors are exactly the best common ancestors |
| MergeBase.MergeBase | versionmgr/merge_base.go:17-41 | returns exactly, and once each, the common ancestors that are no strict ancestor of another common ancestor |
| MergeBaseLaws.MergeBasesCover | versionmgr/merge_base.go:17-41 | every common ancestor lies at or below some merge base |
| MergeBaseLaws.MergeBasesApart | versionmgr/merge_base.go:17-41 | no merge base is reachable from another |
| MergeBaseLaws.MergeBaseDetermined | versionmgr/merge_base.go:17-41 | the set of merge bases depends neither on dates, trees and messages nor on the order of the two commits |
| MergeBaseLaws.CrissCrossBasesAreOlder | versionmgr/work_repo.go:889-903 | when there are two or more merge bases, each is a strict ancestor of both commits and has a smaller rank than either |
| MergeBaseLaws.CrissCrossBasesApart | versionmgr/work_repo.go:889-903 | the first two merge bases do not reach each other |
| Objects.SameHashSameRow | models/tree.go:193-222 | two directories with stored children and one hash are the same row, although the flag of an entry is not hashed |
| Objects.FileTreeRepo.Insert | models/tree.go:319-328 | a row is added if its hash is free; nothing stored changes, and afterwards the row is held |
| Objects.InsertThenGet | models/tree.go:319-343 | what is inserted can be got: under its hash the same content is found, whether or not the hash was taken before |
| Objects.FileTreeRepo.Get | models/tree.go:330-343 | finds a row exactly when one is stored under the hash; in a good store the row has that hash and its children are stored |
| Objects.SortSubObjects | models/tree.go:37-42 | the same entries in order of name, strictly so when the names differ |
| Objects.NewTreeNode | models/tree.go:161-179 | a row of the same entries in order of name, under the hash of that content |
| TreeModel.SnapshotsPersist | models/tree.go:319-328 | a root hash that stands for a tree goes on standing for it however the store grows |
| TreeModel.SubsMembers | models/tree.go:161-179 | the entry list of a directory has exactly one entry per child |
| TreeModel.SubsUnique | models/tree.go:37-42 | a list in strict order of name with one entry per child is the entry list |
| TreeUpdates.PutLookup | versionmgr/worktree.go:209-340 | setting a file at a path gives that path the blob, removes what was below it and leaves every other path alone |
| TreeUpdates.DelLookup | versionmgr/worktree.go:353-412 | removing a path removes it and everything below it and leaves every other path alone |
| TreeUpdates.PutCanonical | versionmgr/worktree.go:209-340 | setting a file keeps the canonical form: names non-empty, no empty directory below the root |
| TreeUpdates.DelCanonical | versionmgr/worktree.go:353-412 | removal keeps the canonical form, because directories left empty go too |
| TreeUpdates.FilesDetermineTree | models/tree.go:193-222 | two canonical trees with the same files are the same tree |
| TreeUpdates.FilesDetermineHash | models/tree.go:193-222 | the root hash is a function of the files alone, in whatever store |
| TreeUpdates.RootDeterminesTree | models/tree.go:193-222 | in one store a root hash stands for one tree |
| WorkNodes.OpenStored | versionmgr/tree_node.go:21-32 | the entry of a stored directory opens it, the empty hash opens the empty root |
| WorkNodes.SubEntryIsKid | versionmgr/tree_node.go:78-85 | looking a name up in an opened directory finds exactly the entry of the child of that name |
| WorkNodes.Children | versionmgr/tree_node.go:103-113 | one node per entry, in order; it succeeds when every row is there |
| WorkNodes.AppendDirectEntry | versionmgr/worktree.go:84-107 | the row of the directory with the new child, stored, or "exists" when the name is taken; at most one row is added |
| WorkNodes.DeleteDirectEntry | versionmgr/worktree.go:109-132 | the row of the directory without the child, stored, or none when the directory is left empty |
| WorkNodes.ReplaceSubTreeEntry | versionmgr/worktree.go:134-160 | for a name that is there, the row of the directory with the other child in its place, stored |
| WorkTrees.FindNodeByPath | versionmgr/worktree.go:162-206 | succeeds exactly when no file lies on the way; reports the entries that exist and the segments that are missing |
| WorkTrees.ReplaceUp | versionmgr/worktree.go:265-285 | rebuilds every directory from a given depth to the root around the changed subtree, inserting at most one row per level |
| WorkTrees.BuildMissing | versionmgr/worktree.go:225-257 | makes the missing directories bottom-up around the blob, and fails exactly when a missing segment has no name |
| WorkTrees.RemoveUp | versionmgr/worktree.go:364-404 | removes the object from its directory and carries the change to the root, removing emptied directories, at most one row per level |
| WorkTrees.WorkTree.AddLeaf | versionmgr/worktree.go:209-287 | succeeds exactly when nothing is at the path, no file is on the way and every segment has a name; then the tree has that file in addition; an error names its cause and leaves the root alone; at most one row per segment and one blob are inserted |
| WorkTrees.WorkTree.ReplaceLeaf | versionmgr/worktree.go:290-340 | succeeds exactly when the path exists; then the blob is there instead; an error names its cause and leaves the root alone; same bound on insertions |
| WorkTrees.WorkTree.RemoveEntry | versionmgr/worktree.go:353-412 | succeeds exactly when the path exists; then it, everything below it and directories left empty are gone; an error names its cause and leaves root and store alone |
| WorkTrees.WorkTree.FindBlob | versionmgr/worktree.go:508-525 | finds the stored blob and the name of the file exactly when the path is a file |
| WorkTreeRuns.CanAddMeans | versionmgr/worktree.go:209-287 | in terms of files alone: AddLeaf accepts a path exactly when no file is at it, below it or on the way to it and every segment has a name |
| WorkTreeRuns.EditRefines | versionmgr/worktree.go:209-412 | an accepted edit of the tree is the edit of the path map and keeps the tree canonical |
| WorkTreeRuns.RunRefines | versionmgr/worktree.go:209-412 | the same for every run of accepted edits |
| WorkTreeRuns.HistoryIndependence | versionmgr/worktree.go:209-412 | two runs of accepted edits from the empty root that end in the same files end in the same root hash, in whatever stores |
| WorkTreeRuns.RunEdits | versionmgr/work_repo.go:443-454 | a change function applied to a work tree has the effect of the run of edits, and fails exactly when an edit is refused |
| FileWalks.Walk | versionmgr/files_walk.go:32-75 | the explicit stack reports the entries in the reference order, the entries of a directory and then its subdirectories in turn, each under its path as path.Join builds it |
| FileWalks.WalkExact | versionmgr/files_walk.go:32-75 | every file and directory is reported exactly once, a directory before anything below it (under which string, see WalkReports) |
| FileWalks.WalkReports | versionmgr/files_walk.go:51-67 | an entry is reported under its full path exactly when that path is lexically clean, and entries with clean paths are reported under different strings |
| LexicalPaths.ReportedExact | versionmgr/files_walk.go:51-67 | joining the names of a path one by one gives the path itself exactly when it has no "." (unless it is just ".") and ".." only in a leading run |
| LexicalPaths.ReportedAsIfClean | versionmgr/files_walk.go:51-67 | whatever the names, the joined string is the one that some clean path is reported under |
| LexicalPaths.DotsResolve | versionmgr/files_walk.go:51-67 | in what is reported, "." goes, and a name goes with the ".." behind it |
| FileWalks.DotsInNames | versionmgr/worktree.go:227-230 | AddLeaf accepts a/../b beside b; both files are then reported as b, and a list of all files is wrong |
| FileWalks.GetTreeManifest | versionmgr/worktree.go:451-476 | lists the joined path of every file whose joined path matches, and the total size of these files |
| FileWalks.ListedIffClean | versionmgr/worktree.go:451-476 | the list has exactly the full paths of the matching files, each once, exactly when every file whose path matches, or is reported as one that matches, has a lexically clean path |
| Paths.JoinInjective | versionmgr/changes.go:57-63 | two file paths with the same string are the same path |
| Paths.ParentSortsFirst | versionmgr/changes.go:57-63 | a path sorts before everything below it |
| TrieIters.NewFrame | versionmgr/merkletrie/internal/frame/frame.go:28-40 | one node per child of a directory, each open on that child, in order of name |
| TrieIters.Iter.Current | versionmgr/merkletrie/iter.go:176-197 | the node ahead that comes first, and its full path put together from the first siblings of all frames |
| TrieIters.Iter.Drop | versionmgr/merkletrie/iter.go:201-215 | dropping the current node and every frame that this leaves empty takes exactly the first node off what is ahead |
| TrieIters.Iter.Advance | versionmgr/merkletrie/iter.go:138-174 | what is ahead loses its first node, which on request is replaced by its children; at the start it stays as it is |
| DoubleIters.DoubleIter.Compare | versionmgr/merkletrie/doubleiter.go:136-160 | whether the two current nodes have the same hash, and which of them are directories, in terms of the trees they stand for |
| DoubleIters.DoubleIter.StepBoth | versionmgr/merkletrie/doubleiter.go:95-103 | goes down on both sides, or past a node without children |
| TrieFrontiers.BeforeCompare | versionmgr/merkletrie/noder/path.go:78-98 | two paths of which neither is above the other are compared at the segment where they part |
| TrieFrontiers.FrontierBelow | versionmgr/merkletrie/difftree.go:429-460 | going down on both sides at once keeps every two paths ahead equal or parted, so the order of paths decides which side comes first |
| TrieFrontiers.StepBoth | versionmgr/merkletrie/difftree.go:449-453 | what is still to be reported for two directories is what is to be reported for their children |
| TrieFrontiers.MoveOn | versionmgr/merkletrie/difftree.go:288-343 | each step of the comparison keeps the invariant: everything is reported, once, or still to be reported |
| Diffs.FilesBelow | versionmgr/merkletrie/change.go:131-157 | the files at and below a node, each once, with their full paths |
| Diffs.IsDiffChildrenSame | versionmgr/merkletrie/difftree.go:465-486 | holds exactly when the children have the same hashes in the same order, whatever their names |
| Diffs.CompareNodes | versionmgr/merkletrie/difftree.go:376-460 | what is reported for two nodes of one path: nothing for equal hashes, a change for two files, deletions and insertions for a file against a directory, one change for a relabelled directory; otherwise the comparison goes down |
| Diffs.DiffNodes | versionmgr/merkletrie/difftree.go:346-374 | the node that comes first is reported as a whole, two nodes of one path are compared; the rest of the comparison gets smaller |
| Diffs.DiffTree | versionmgr/merkletrie/difftree.go:265-344 | the comparison reports exactly the change that each path has between the two trees, one per path |
| Diffs.Diff | versionmgr/worktree.go:551-575 | exactly the reported changes whose path starts with the characters of the prefix, in increasing order of path |
| TrieChanges.TrieChangeIs | versionmgr/merkletrie/difftree.go:376-427 | in closed form: below a relabelled directory nothing is reported, at one the change of the directory, and elsewhere the change of a file that differs |
| TrieChanges.FileLevelIff | versionmgr/worktree.go:551-575 | the changes with a prefix are the difference of the files that are looked at exactly when no relabelled directory has the prefix |
| TrieChanges.DiffIffNoneRelabelled | versionmgr/merkletrie/difftree.go:407-418 | the comparison gives the difference of the files of two trees exactly when no directory of both differs and has the same hashes in the same order |
| Changes.ChangeCursor.Next | versionmgr/changes.go:81-87 | returns the first unread change and leaves the rest, or nothing at the end |
| Changes.ChangeCursor.Back | versionmgr/changes.go:109-113 | puts the change last read back in front of the unread ones; with none read it does nothing |
| Changes.ChangesPairIter.Next | versionmgr/changes.go:167-213 | advancing both cursors and putting the later change back takes exactly the first pair of the sorted join off the two lists |
| ChangeJoin.CollectPairs | versionmgr/work_repo.go:725-733 | reading the iterator to its end gives the whole join |
| ChangeJoin.JoinIsExact | versionmgr/changes.go:167-213 | a complete run gives one pair per path of either list, in increasing order, with exactly the changes the lists have there and the conflict flag they deserve |
| ChangeJoin.JoinFailsOnMismatch | versionmgr/changes.go:215-261 | a run ends in an error exactly when some path has changes whose actions do not fit |
| Conflicts.ResolversChoose | versionmgr/conflict.go:15-70 | every resolver that answers returns one of its two arguments |
| Conflicts.ResolversMirror | versionmgr/conflict.go:15-61 | choosing the least hash does not depend on the sides, and choosing one side mirrors choosing the other |
| FileMerge.ConflictingFile | versionmgr/conflict.go:15-70 | what each resolver makes of a file that both sides changed differently: an error, the chosen side, the smaller of two hashes, the blob rather than a deletion |
| FileMerge.SameAncestorConflict | versionmgr/changes.go:215-261 | two changes of one file of a common ancestor never mismatch, and conflict exactly when they lead to different files |
| FileMerge.NeverMismatched | versionmgr/changes.go:215-261 | joining two differences from one ancestor never fails |
| FileMerge.PairMerges | versionmgr/changes.go:290-314 | the change made from a pair takes that file from the ancestor to its merged state, and fails exactly when the file cannot be merged |
| FileMerge.MergeIsDiff | versionmgr/changes.go:290-314 | the merged change list is the difference from the ancestor to the merged files |
| FileMerge.MergeFailsOnConflict | versionmgr/changes.go:290-314 | merging the lists fails exactly when some file is in a conflict that the resolver does not resolve |
| ThreeWay.MergedSides | versionmgr/work_repo.go:964-996 | at every path the merged tree has what the side that changed it has, the common value where both agree, and in a conflict what one of the sides has |
| ThreeWay.MergeKeepsUntouched | versionmgr/work_repo.go:964-996 | files that no side touched stay, and merging with a side that changed nothing gives the other side's tree |
| FileMerge.MergeIsSymmetric | versionmgr/changes.go:215-314 | with the sides swapped and a mirrored resolver every file merges to the same |
| Patches.ApplyOneChange | versionmgr/worktree.go:527-549 | a change is applied exactly when the row it names is that of a blob and the tree accepts it, with its effect on the tree; otherwise it leaves the root alone, with a missing row as an error, and the row of a directory as the end of the model |
| Patches.ReplayReaches | versionmgr/worktree.go:527-549 | a difference that is replayed to its end leaves exactly the files it leads to |
| Patches.ReplayIffCompletable | versionmgr/worktree.go:527-549 | the replay gets through exactly when no file of the result lies at a directory of the start or of the result |
| Patches.PatchLaw | versionmgr/worktree.go:527-549 | replaying the difference of two trees onto the first gives the second, and gets through exactly when no file of the second is a directory of the first |
| Patches.PrefixFreePatch | versionmgr/worktree.go:527-549 | it always gets through when no file path of the second tree is above a file path of the first |
| Patches.FileForDirectoryFails | versionmgr/worktree.go:527-549 | a concrete difference that is refused: a file in the place of a directory |
| ThreeWay.ChangesMergeIter.Next | versionmgr/changes.go:290-303 | takes the first pair of the join off the two lists and returns its merged change or the resolver's error |
| ThreeWay.RunMerge | versionmgr/work_repo.go:979-996 | for any two lists of changes that name stored rows: the loop gets through exactly when no pair of their join is refused and every merged change is accepted in its turn, and ends in the tree with all of them |
| ThreeWay.RunAllGrows | versionmgr/work_repo.go:979-996 | rows that come to the store do not change what such a loop does |
| ThreeWay.RunMergesFiles | versionmgr/work_repo.go:964-996 | over differences of files it gets through exactly when the files can be merged, and ends in the merged tree |
| ThreeWay.RelabelledStops | versionmgr/work_repo.go:964-996 | with a directory relabelled on either side some pair is refused or its change names a directory |
| ThreeWay.MergeTrees | versionmgr/work_repo.go:964-996 | while no side has relabelled a directory of the ancestor: succeeds exactly when every conflict is resolved and no merged file lies at a directory; the returned root hash stands for the tree with the merged file at every path. With a relabelled directory the model ends in an error, of the source or where the source goes on to file a directory as a blob |
| DirectoryChanges.FiledHash | models/tree.go:193-222 | filing a directory as a blob under its hash gives the same root hash as putting the directory there |
| DirectoryChanges.FiledChange | versionmgr/worktree.go:527-549 | a change that a tree with directories filed as blobs accepts is accepted by the tree with the directories, and what comes out differs in filed directories alone |
| DirectoryChanges.FiledRun | versionmgr/work_repo.go:964-996 | whatever list of changes is applied with directories filed as blobs: if it gets through, the root hash is that of the tree with the whole directories of the two sides in their places |
| DirectoryChanges.FiledHides | versionmgr/worktree.go:290-340 | and no file of the directory can be found any more |
| DirectoryChanges.FiledPoisons | models/tree.go:319-328 | once the row around it is stored with the wrong flag, no later store has the tree with the directory in it |
| DirectoryChanges.FiledLucky | models/tree.go:319-328 | with the right row in the store before, insert-if-absent leaves that one in place |
| DirectoryChanges.RelabelledConflict | versionmgr/merkletrie/difftree.go:407-418 | a directory that both sides have relabelled differently is a conflict, whatever its files |
| DirectoryChanges.WrongMerge | versionmgr/work_repo.go:964-996 | a concrete merge of files without conflict whose changes, applied as the source does, lose a file under the root hash of the right tree |
| DirectoryChanges.WrongConflict | versionmgr/work_repo.go:964-996 | a concrete merge of files without conflict that is refused with a conflict on their directory |
| ThreeWay.SwappedMerge | versionmgr/work_repo.go:964-996 | with the sides swapped and a mirrored resolver the merge succeeds or fails alike and gives the same tree |
| CommitStore.CommitRepo.Insert | models/commit.go:157-166 | a commit on stored parents is added under the hash of its content and the store stays closed and acyclic; it is refused, and nothing changes, only when that hash is taken |
| CommitStore.CommitRepo.Commit | models/commit.go:146-155 | finds a commit exactly when one is stored under the hash; in a good store it knows that hash and all its parents can be found too |
| CommitStore.InsertKeepsHistory | models/commit.go:157-166 | a new commit on stored parents keeps the history closed and acyclic |
| CommitStore.ReachPersists | models/commit.go:157-166 | insertions change nothing about what an old commit reaches |
| CommitStore.TreePersists | models/tree.go:319-328 | the tree of a readable root hash never changes |
| CommitMerge.Merge | versionmgr/work_repo.go:912-1026 | nil inputs, the two fast-forward exits in their order, or a new commit with parents source and target on the merge of their trees, under the hash of its content, signed by the merger with the given message; an error leaves the commits alone and means that the trees do not merge over the ancestor, or that the hash of the commit of the merged tree by this merger is taken at some time |
| CommitMerge.MergeJoinsHistories | versionmgr/work_repo.go:912-1026 | a returned commit has every input in its history, and is new exactly when there are two inputs and neither is in the history of the other |
| CommitMerge.FindBestAncestor | versionmgr/work_repo.go:859-908 | runs as Searched says, from the objects and commits before it: one best common ancestor is returned and nothing is made; none is an error; of several, two are merged, with every conflict refused, over what the same search finds for them, and its error or that of the merge is the error; the recursion ends |
| CommitMerge.SearchFinds | versionmgr/work_repo.go:880-907 | where there is one best common ancestor the search can only return it and leaves objects and commits alone |
| CommitMerge.SearchIsAncestor | versionmgr/work_repo.go:859-908 | what a search finds is the only best common ancestor or the virtual commit of two, which are in turn merged over the one that is so for them; the stores only grow |
| CommitMerge.AncestorPersists | versionmgr/work_repo.go:859-908 | the commit that was found to merge over stays that while both stores grow |
| CommitMerge.TwoBestAreOlder | versionmgr/work_repo.go:893-898 | two best common ancestors are older than both commits, which ends the recursion |
| CommitMerge.VirtualMerge | versionmgr/work_repo.go:893-905 | merging two best common ancestors never takes a fast-forward exit: it makes the virtual commit or fails, and either ends the search |
| Reverts.InverseIsDiff | versionmgr/work_repo.go:268-311 | the inverse changes are the difference from the present files to the reverted ones, and there are none exactly when nothing that was looked at differs |
| Reverts.RevertOne | versionmgr/work_repo.go:276-311 | what was inserted is removed; what was deleted or modified is set to what the base has at the path, and that fails when the base has no file there |
| Reverts.RevertTree | versionmgr/work_repo.go:258-311 | succeeds exactly when no relabelled directory has the prefix, something that is looked at below the prefix differs, and no file of the result lies at a directory; the result agrees with the base where the difference looks, below the prefix but not below a relabelled directory, and with the present tree elsewhere |
| Reverts.RevertExpected | versionmgr/work_repo.go:258-311 | while no directory is relabelled, the revert succeeds exactly when some path that starts with the prefix has a different file and no file of the result lies at a directory; the result agrees with the base at the paths that start with the prefix and with the present tree elsewhere |
| Reverts.RevertMisses | versionmgr/work_repo.go:258-311 | a revert that succeeds leaves a file below the prefix different from the base exactly when the file lies below a relabelled directory |
| DirectoryChanges.WrongRevert | versionmgr/work_repo.go:276-301 | a concrete revert that fails although the files could be taken back: the only file of the directory was renamed |
| DirectoryChanges.RevertTakesLongerName | versionmgr/worktree.go:569-571 | the prefix need not end at a segment: with another blob under "ab" a revert of "a" gets through, and only the base can be its result |
| Reverts.RevertAllIsBase | versionmgr/work_repo.go:248-256 | for the empty prefix the loop over all changes would end in the base tree itself, and would get through exactly when no directory is relabelled and no file of the base is a directory of the present tree |
| Tables.Database.Rollback | models/repo.go:57-65 | after an error in a transaction every table is as it was |
| Tables.Database.GetBranch | models/branch.go:152-173 | a branch of that name exactly when there is one |
| Tables.Database.UpdateBranch | models/branch.go:231-238 | the row with that id keeps its id and name and gets the new head; no other row differs, none comes or goes, and an id that is gone is no error |
| Tables.Database.GetWip | models/wip.go:172-197 | the wip of that user on that branch exactly when there is one |
| Tables.Database.UpdateWip | models/wip.go:252-271 | the row with that id gets the tree and the base that are given and keeps the one that is not, its id and its owner; no other row differs, none comes or goes |
| Tables.Database.DeleteWips | models/wip.go:223-250 | removes the selected rows and counts them |
| Tables.AdvancesTransitive | versionmgr/work_repo.go:456-495 | heads that only move to descendants in each step do so over both steps |
| Tables.BasesStayBelow | versionmgr/work_repo.go:344-495 | while heads advance, the base of every wip stays in the history of its branch's head |
| Sessions.WorkRepository.CheckOut | versionmgr/work_repo.go:173-230 | succeeds exactly when the branch, wip or commit exists. The cached rows are then those of the tables, and headTree is the tree of the wip, of the head commit (the empty tree without one), or of the commit; an empty commit hash changes headTree alone |
| Sessions.WorkRepository.CommitChangeRoot | versionmgr/work_repo.go:456-495 | a new commit of the tree, signed by the user, with the cached head as its only parent, or none when the head is empty; it becomes the head of the branch row |
| Sessions.WorkRepository.CommitChanges | versionmgr/work_repo.go:344-382 | succeeds only on a wip whose base is the head. Then the head is a new commit of the wip's tree with the old head as its parent, signed by the user, and the base of the wip; on current rows these columns change and nothing else. Every error has its cause (wrong state, stale base, the hash of this user's commit of this tree taken at some time) and changes nothing |
| SessionSpec.CommitSettles | versionmgr/work_repo.go:344-441 | a commit from current rows moves the head to a descendant, and afterwards the wip is based on the head and holds the head's tree |
| Sessions.WorkRepository.ChangeInWip | versionmgr/work_repo.go:385-396 | with a wip checked out and current, succeeds exactly when the tree in the row of the wip accepts the edits; then the row has the tree they make of it, the session is again on the tree of the wip, and nothing else but objects changed. In any session: the tree edited is the one that headTree points to. An error changes nothing |
| Sessions.WorkRepository.ChangeAndCommit | versionmgr/work_repo.go:399-441 | both at once: the new head is a commit, with the old head as parent, of the tree that the edits make of the tree in the row of the wip, and the row has that tree and that base. An error means a stale base, edits that the tree does not accept, or that the hash of this user's commit of the edited tree is taken, and changes nothing |
| Sessions.WorkRepository.Revert | versionmgr/work_repo.go:233-323 | without a prefix the wip gets the tree of the commit that it is based on, or the empty one; with one it afterwards has the files of that commit at the paths that start with the prefix, but not below a relabelled directory, and its own elsewhere. It fails exactly when the trees cannot be reverted, and then changes nothing; headTree is not set |
| Sessions.WorkRepository.Merge | versionmgr/work_repo.go:738-781 | the head becomes a commit that joins the two histories: the later of the two, or a new commit with both parents on the merge over their best ancestor. An error changes nothing and means a wrong state, an unknown commit, no commits at all, or diverged commits whose search from the present tables fails or finds an ancestor that they do not merge over. With one best ancestor: the merge needs trees that merge over it in the tables as they are, and with these it goes through unless the hash of its commit is taken. The cached branch is current afterwards exactly when the head did not move. Relabelled directories as for MergeTrees |
| SessionSpec.CannotMergeOverOne | versionmgr/work_repo.go:880-887 | diverged commits with one best common ancestor cannot be merged exactly when their trees do not merge over it, in the present objects, or the hash of the merge is taken among the present commits; without a common ancestor they cannot |
| SessionSpec.JoinedOverOne | versionmgr/work_repo.go:738-781 | commits that were merged over one best ancestor had trees that merge over it |
| SessionSpec.MergeJoins | versionmgr/work_repo.go:738-781 | what finding the best ancestor and merging over it add up to, in terms of the tables before and after |
| SessionSpec.FastForwardIsQuiet | versionmgr/work_repo.go:859-908 | no virtual commit is made when one commit is in the history of the other |
| Sessions.WorkRepository.GetOrCreateWip | versionmgr/work_repo.go:591-633 | the user's wip on the branch; if there was none, a new row based on the head, with the tree of the head commit, or the empty tree without one |
| Sessions.WorkRepository.CreateBranch | versionmgr/work_repo.go:498-522 | refused exactly when the name is taken; otherwise a new row on the commit that is checked out |
| Sessions.WorkRepository.DeleteBranch | versionmgr/work_repo.go:525-543 | the branch of that name is gone and exactly the wips on the cached branch; every other row stays |
| Sessions.WorkRepository.DeleteWip | versionmgr/work_repo.go:326-340 | exactly the user's own wip on the branch is gone and every other row stays, or "not found" when there is none |
| SessionLaws.RevertNewWip | versionmgr/work_repo.go:233-256 | a revert of everything right after a wip was made changes nothing |
| SessionLaws.CommitEditRevert | versionmgr/work_repo.go:233-256 | after a commit and any edits, accepted or not, a revert of everything succeeds and leaves the wip with the tree of the commit and based on it |
| SessionLaws.EditTwice | versionmgr/work_repo.go:385-396 | two calls of ChangeInWip in one session get through, and leave the row, as one call with both lists of edits |
| SessionLaws.EditThenCommit | versionmgr/work_repo.go:385-441 | after ChangeInWip, ChangeAndCommit commits the tree after both lists of edits |
| SessionLaws.EditAfterRevert | versionmgr/work_repo.go:149-170 | edits after a revert start from the reverted tree if headTree follows the wip, and otherwise from the tree before the revert, which is then lost |
| Requests.EffectOrCause | versionmgr/work_repo.go:173-633 | effects and causes exclude each other: a request other than a merge that has its effect had no cause to be refused, save for the hash of its commit, which depends on the time |
| SessionRuns.Serve | versionmgr/work_repo.go:173-781 | one of the ten requests, after a checkout. It has its effect on the rows, or it changes nothing, for a cause. Effects: a commit of the wip's tree with the message, the wip's tree after the edits, both, the base's files below the prefix, a head that joins two histories, a new wip on the head with its tree, the wip gone, the branch and its wips gone, a new branch at the head, another base. Causes: no such branch or wip, and for each request its own. Heads advance, and bases stay below heads exactly when the request moves none out of its history |
| SessionRuns.Rebase | controller/wip_ctl.go:202-279 | moves the base of the user's wip to any stored commit or to none; bases lie below heads afterwards exactly when the new one is in the history of the head |
| Requests.OnlyWip | versionmgr/work_repo.go:173-186 | a request is about one branch, and about one wip at most |
| SessionRuns.Run | versionmgr/work_repo.go:173-781 | over every run of these requests each has its effect on the rows or changes nothing for a cause, a head that is not empty only moves to descendants and nothing stored is lost or changed; the base of every wip stays in the history of its head while every move of a base fits |
| SessionRuns.RunKeepsCommits | versionmgr/work_repo.go:344-781 | a commit or merge made in a run stays in the history of its branch as long as the branch exists |
| SessionRuns.FirstMisfitBreaksBases | controller/wip_ctl.go:243-258 | the first move of a base out of the history of the head leaves a base that is not below its head |
| SessionRuns.OthersLeaveWip | versionmgr/work_repo.go:173-781 | a request that is not about a wip leaves its row as it is, or drops its branch and the wip with it |
| SessionRuns.RunLeavesWip | versionmgr/work_repo.go:173-781 | over a run, the row of a wip stays as it is until the next request about it, whatever the others do, unless a branch is dropped |
| SessionRuns.EditsAddUp | versionmgr/work_repo.go:385-396 | in a run, two change requests for one wip amount to one with both lists of edits, whatever requests about other things come between |
| SessionRuns.EditsGetCommitted | versionmgr/work_repo.go:344-396 | in a run, the commit request that follows a change request for the wip puts the tree after those edits at the head of the branch |
| SessionRuns.OtherWipsAreStale | versionmgr/work_repo.go:349-351 | after a commit every other wip on the branch has a base that is not the head, so no commit from it gets through |
| StaleSessions.SecondMergeForgets | versionmgr/work_repo.go:738-781 | a merge from a stale head keeps a commit above that head exactly when the merged commit has it in its history |
| StaleSessions.TwoMerges | versionmgr/work_repo.go:738-781 | what two merges from one cached head leave of the first, as a condition on the history before both |
| StaleSessions.MergeTwice | versionmgr/work_repo.go:738-781 | the branch row after two merges in one session has what the first brought exactly when that is the old head or the second merged commit reaches it, so merging the result of the first keeps it; over the history before the calls: exactly when the first moved nothing or fast-forwarded to a commit in the history of the second |
| StaleSessions.LoseAMerge | versionmgr/work_repo.go:738-781 | on a fork r, x, y with r checked out, merging x and then y gets through both times and leaves the branch at y, without x |
| StaleSessions.SmallestFork | versionmgr/work_repo.go:738-781 | such a history, in full |
| StaleSessions.FastForwardGoes | versionmgr/work_repo.go:951-962 | a fast-forward is never refused |
| StaleSessions.CommitForgets | versionmgr/work_repo.go:456-495 | a commit on a head that was cached before another commit was made does not have that one in its history |
| StaleSessions.CommitTwice | versionmgr/work_repo.go:344-382 | two sessions with wips on one branch commit without a new checkout: each gets through when its wip is based on the head it has cached and the hash is free, and if both do the branch ends without the first commit |

## Left out

- ThreeWay.MergeTrees: where the source files a directory as a blob the model stops with `DirectoryAsBlob`, and so do `CommitMerge.Merge` and the merges of a session; the rows that the source stores then have a wrong flag, and no store of this model has one. What that does to the tree and to later stores is stated in `DirectoryChanges`.
- Patches.ApplyOneChange: the same, for one change.
- CommitMerge.Merge: the same; the error that a relabelled directory causes can be the end of the model and not an error of the source.
- CommitMerge.FindBestAncestor: the same, for the virtual commits.
- Sessions.WorkRepository.Merge: the same; `MergeRefused` counts relabelled directories among the causes.
- ThreeWay.RunMerge: takes lists whose changes name stored rows, as every difference of stored trees does; a row that is missing is an error of `ApplyOneChange`.
- TrieIters.NewFrame: takes the children in the order of the stored entries, which are sorted; the source sorts them once more, and keeps them in reverse.
- Diffs.DiffTree: cancellation, `Skip` (no node is skipped), and empty directories below a root, which no stored tree has.
- Objects.FileTreeRepo.Insert: bytes and MD5 are abstracted to a hasher without collisions; the property map of an object is its mode alone.
- CommitStore.CommitRepo.Insert: the hash input is a record; that the source concatenates its fields without separators does not matter, because a taken hash is refused.
- Changes.ChangesPairIter.Next: the action of a change is computed from which ends it has; rename detection does not exist in the source.
- FileWalks.Walk: callbacks are modelled as the list of what they receive; a callback that fails or stops the walk early is not modelled.
- FileWalks.GetTreeManifest: the glob is an arbitrary predicate on paths.
- CommitWalkers.CommitPreIterator.Next: the iterators on its stack are values, so sharing one parent iterator between two walks is not captured.
- TimeWalk.CommitIteratorByCTime.Next: the binary heap of the library is modelled by "some newest element"; which of several equally new commits comes first is left open.
- WorkNodes.ReplaceSubTreeEntry: only for a name that is in the directory, as its callers use it; on an absent name the source would overwrite the last entry.
- Sessions.WorkRepository.CommitChanges: the author's name, which the source reads from the user table, is the operator's, and time stamps are arbitrary.
- Sessions.WorkRepository.ChangeInWip: a change function is a list of edits; one that reads the tree to decide its edits is covered by the list it ends up making.
- Sessions.WorkRepository.CheckOut: tags are left out, as are `RootTree` on a session without a checkout, `CreateTag` and `DeleteTag`.
- SessionRuns.Rebase: the request can also set the tree of the wip to any stored directory; that half is left out.
- SessionRuns.Serve: for a new branch the handler checks out the head commit of the source branch by its hash, here the branch itself is checked out; the new row is the same.
- SessionRuns.Run: the ten requests of `Operation`, one after another, each after a checkout; requests from a stale cache are in `StaleSessions`.
- Sessions.WorkRepository.DeleteBranch: called with a branch checked out; without one the source dereferences nil, as `ChangeAndCommit` does without a wip.
- Cleaning of paths (`CleanPath`) and splitting of strings: a path is its list of segments; the prefix test of revert is on the joined string.
- SQL, missing rows, storage and network errors, several repositories in one database.
- `Ls`, `GetMergeState` beyond its join, `DiffCommit`, `GetCommitChanges`, archives, upload and download, block adapters.
- HTTP controllers, generated API, command line, configuration, authentication, access control, members and groups, merge requests as rows.
