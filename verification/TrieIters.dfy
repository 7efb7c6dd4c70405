/** The iterator over a trie (versionmgr/merkletrie/iter.go and its frames). */
module TrieIters {
  import opened Wrappers
  import opened Hashes
  import opened Order
  import opened Objects
  import opened TreeModel
  import opened TreeUpdates
  import opened WorkNodes
  import opened WorkTrees
  import opened FileWalks
  import opened Paths

  // ---------------------------------------------------------------- what is ahead

  /** A node of a tree, and where it is. */
  datatype Spot = Spot(path: Path, tree: Tree)

  /** The children of a directory in order of name. */
  ghost function KidSpots(s: Spot): (r: seq<Spot>)
    requires s.tree.Dir?
    ensures |r| == |SortedNames(s.tree.kids.Keys)|
    ensures forall i | 0 <= i < |r| :: SortedNames(s.tree.kids.Keys)[i] in s.tree.kids
    ensures forall i | 0 <= i < |r| ::
              r[i] == Spot(s.path + [SortedNames(s.tree.kids.Keys)[i]], s.tree.kids[SortedNames(s.tree.kids.Keys)[i]])
  {
    var names := SortedNames(s.tree.kids.Keys);
    assert forall i | 0 <= i < |names| :: names[i] in names;
    seq(|names|, i requires 0 <= i < |names| => Spot(s.path + [names[i]], s.tree.kids[names[i]]))
  }

  /** Past the first node, or down into it. */
  ghost function Past(todo: seq<Spot>, descend: bool): seq<Spot> {
    if todo == [] then []
    else if descend && todo[0].tree.Dir? then KidSpots(todo[0]) + todo[1..]
    else todo[1..]
  }

  ghost predicate SpotOk(h: Hasher, objects: Store, s: Spot) {
    FilePath(s.path) && Canonical(s.tree) && Stored(h, objects, s.tree)
  }

  ghost predicate SpotsOk(h: Hasher, objects: Store, todo: seq<Spot>) {
    forall s | s in todo :: SpotOk(h, objects, s)
  }

  lemma KidSpotHere(s: Spot, n: string)
    requires s.tree.Dir? && n in s.tree.kids
    ensures Spot(s.path + [n], s.tree.kids[n]) in KidSpots(s)
  {
    var names := SortedNames(s.tree.kids.Keys);
    var i :| 0 <= i < |names| && names[i] == n;
    assert KidSpots(s)[i] == Spot(s.path + [n], s.tree.kids[n]);
  }

  lemma KidSpotIs(s: Spot, k: Spot) returns (n: string)
    requires s.tree.Dir? && k in KidSpots(s)
    ensures n in s.tree.kids && k == Spot(s.path + [n], s.tree.kids[n])
  {
    var i :| 0 <= i < |KidSpots(s)| && KidSpots(s)[i] == k;
    n := SortedNames(s.tree.kids.Keys)[i];
  }

  lemma KidSpotsOk(h: Hasher, objects: Store, s: Spot)
    requires CanonicalRoot(s.tree) && StoredRoot(h, objects, s.tree) && (s.path == [] || FilePath(s.path))
    ensures SpotsOk(h, objects, KidSpots(s))
  {
    hide SpotOk, KidSpots, CanonicalRoot, StoredRoot, FilePath;
    RootIsDirectory(s.tree);
    forall k | k in KidSpots(s) ensures SpotOk(h, objects, k) {
      var n := KidSpotIs(s, k);
      KidSpotOk(h, objects, s, n);
    }
  }

  lemma RootIsDirectory(t: Tree)
    requires CanonicalRoot(t)
    ensures t.Dir?
  {
  }

  lemma KidSpotOk(h: Hasher, objects: Store, s: Spot, n: string)
    requires CanonicalRoot(s.tree) && StoredRoot(h, objects, s.tree) && (s.path == [] || FilePath(s.path))
    requires n in s.tree.kids
    ensures SpotOk(h, objects, Spot(s.path + [n], s.tree.kids[n]))
  {
    forall m | m in s.path + [n] ensures m != "" && '/' !in m {
      assert m in s.path || m == n;
    }
  }

  lemma SpotIsRoot(h: Hasher, objects: Store, s: Spot)
    requires SpotOk(h, objects, s) && s.tree.Dir?
    ensures CanonicalRoot(s.tree) && StoredRoot(h, objects, s.tree) && FilePath(s.path)
  {
  }

  // --------------------------------------------------------------------- frames

  /** Siblings that are still to be visited, in order of name. */
  type Frame = seq<WorkNode>

  /** The node is open on what is at the spot. */
  ghost predicate NodeFits(h: Hasher, objects: Store, node: WorkNode, s: Spot) {
    && SpotOk(h, objects, s) && node.entry == EntryOf(h, s.path[|s.path| - 1], s.tree)
    && (if s.tree.Dir? then Opens(h, objects, node, s.tree) else node.treeNode.Blob?)
  }

  ghost predicate FrameFits(h: Hasher, objects: Store, frame: Frame, spots: seq<Spot>, at: Path) {
    && |spots| == |frame|
    && forall i | 0 <= i < |frame| ::
          spots[i].path == at + [frame[i].entry.name] && NodeFits(h, objects, frame[i], spots[i])
  }

  /** frame.New: the children of a node. */
  method NewFrame(repo: FileTreeRepo, node: WorkNode, ghost s: Spot) returns (frame: Frame)
    requires repo.Valid() && CanonicalRoot(s.tree) && Opens(repo.hasher, repo.objects, node, s.tree)
    requires s.path == [] || FilePath(s.path)
    ensures FrameFits(repo.hasher, repo.objects, frame, KidSpots(s), s.path)
    ensures node.treeNode.TreeNode? && |frame| == |node.treeNode.subObjects|
  {
    hide StoreOk, CollisionFree, Stored, Canonical, Subs, HashOf, CanonicalRoot, Opens, NodeFits, KidSpots, OpenNode;
    OpenedEntries(repo.hasher, repo.objects, node, s.tree);
    KidsOpen(repo.hasher, repo.objects, s.tree);
    SubsMembers(repo.hasher, s.tree);
    var children := Children(repo, node);
    AllOpen(repo.hasher, repo.objects, s);
    frame := children.value;
    forall i | 0 <= i < |frame|
      ensures KidSpots(s)[i].path == s.path + [frame[i].entry.name]
      ensures NodeFits(repo.hasher, repo.objects, frame[i], KidSpots(s)[i])
    {
      KidNodeFits(repo.hasher, repo.objects, s, i);
    }
  }

  lemma AllOpen(h: Hasher, objects: Store, s: Spot)
    requires s.tree.Dir? && forall e: TreeEntry | e in Subs(h, s.tree) :: e.hash in objects
    ensures forall e: TreeEntry | e in Subs(h, s.tree) ::
              OpenNode(objects, e).Ok? && OpenNode(objects, e).value.entry == e
    ensures forall i | 0 <= i < |Subs(h, s.tree)| :: Subs(h, s.tree)[i] in Subs(h, s.tree)
  {
  }

  lemma KidNodeFits(h: Hasher, objects: Store, s: Spot, i: nat)
    requires CollisionFree(h) && CanonicalRoot(s.tree) && StoredRoot(h, objects, s.tree)
    requires (s.path == [] || FilePath(s.path)) && i < |Subs(h, s.tree)|
    ensures i < |KidSpots(s)| && OpenNode(objects, Subs(h, s.tree)[i]).Ok?
    ensures NodeFits(h, objects, OpenNode(objects, Subs(h, s.tree)[i]).value, KidSpots(s)[i])
    ensures KidSpots(s)[i].path == s.path + [Subs(h, s.tree)[i].name]
  {
    hide Subs, HashOf, CollisionFree, Canonical, SpotOk, Stored;
    SubDirOpens(h, objects, s.tree, i);
    KidSpotsOk(h, objects, s);
    assert KidSpots(s)[i] in KidSpots(s);
    var e := Subs(h, s.tree)[i];
    if !e.isDir {
      BlobOpens(h, objects, s.tree, e.name);
    }
  }

  lemma BlobOpens(h: Hasher, objects: Store, t: Tree, n: string)
    requires CanonicalRoot(t) && StoredRoot(h, objects, t) && n in t.kids && t.kids[n].File?
    ensures OpenNode(objects, EntryOf(h, n, t.kids[n])).Ok?
    ensures OpenNode(objects, EntryOf(h, n, t.kids[n])).value.treeNode.Blob?
    ensures OpenNode(objects, EntryOf(h, n, t.kids[n])).value.entry == EntryOf(h, n, t.kids[n])
  {
    assert Stored(h, objects, t.kids[n]);
  }

  /** The names of the first siblings of the frames: where the iterator is. */
  function Firsts(frames: seq<Frame>): (r: Path)
    requires forall i | 0 <= i < |frames| :: frames[i] != []
    ensures |r| == |frames| && forall i | 0 <= i < |frames| :: r[i] == frames[i][0].entry.name
  {
    seq(|frames|, i requires 0 <= i < |frames| => frames[i][0].entry.name)
  }

  ghost predicate StackFits(h: Hasher, objects: Store, frames: seq<Frame>, spots: seq<seq<Spot>>, base: Path) {
    && |spots| == |frames|
    && (forall i | 0 <= i < |frames| - 1 :: frames[i] != [])
    && forall i | 0 <= i < |frames| :: FrameFits(h, objects, frames[i], spots[i], base + Firsts(frames[..i]))
  }

  /** The first spot of the last frame, then its siblings, then what follows the first spot
      of each frame before it. */
  ghost function Behind(spots: seq<seq<Spot>>): seq<Spot> {
    if spots == [] then []
    else (if spots[|spots| - 1] == [] then [] else spots[|spots| - 1][1..]) + Behind(spots[..|spots| - 1])
  }

  ghost function Ahead(spots: seq<seq<Spot>>): seq<Spot> {
    if spots == [] then [] else spots[|spots| - 1] + Behind(spots[..|spots| - 1])
  }

  /** Iter */
  class Iter {
    const repo: FileTreeRepo
    const base: Path
    var hasStarted: bool
    var frameStack: seq<Frame>
    ghost var spots: seq<seq<Spot>>

    ghost predicate Valid()
      reads this, repo
    {
      && repo.Valid() && StackFits(repo.hasher, repo.objects, frameStack, spots, base)
      && (|frameStack| > 1 ==> frameStack[|frameStack| - 1] != [])
    }

    /** The nodes ahead, the current one first. */
    ghost function Todo(): seq<Spot>
      reads this
    {
      Ahead(spots)
    }

    /** NewIter and NewIterFromPath: over what is below a node. */
    constructor (repo: FileTreeRepo, root: WorkNode, base: Path, ghost tree: Tree)
      requires repo.Valid() && CanonicalRoot(tree) && Opens(repo.hasher, repo.objects, root, tree)
      requires base == [] || FilePath(base)
      ensures Valid() && !hasStarted && Todo() == KidSpots(Spot(base, tree)) && this.repo == repo
    {
      this.repo, this.base, hasStarted := repo, base, false;
      var frame := NewFrame(repo, root, Spot(base, tree));
      frameStack, spots := [frame], [KidSpots(Spot(base, tree))];
      new;
      OneFrame(repo.hasher, repo.objects, frame, KidSpots(Spot(base, tree)), base);
    }

    /** current: the path of the first node of the last frame, and the node. */
    method Current() returns (r: Option<(Path, WorkNode)>)
      requires Valid()
      ensures r.None? <==> Todo() == []
      ensures r.Some? ==> frameStack != [] && frameStack[|frameStack| - 1] != []
      ensures r.Some? ==> r.value.0 == Todo()[0].path && NodeFits(repo.hasher, repo.objects, r.value.1, Todo()[0])
    {
      hide NodeFits, FileTreeRepo.Valid;
      LastFrame(repo.hasher, repo.objects, frameStack, spots, base);
      var top := |frameStack| - 1;
      if top < 0 || frameStack[top] == [] {
        return None;
      }
      return Some((base + Firsts(frameStack), frameStack[top][0]));
    }

    /** drop: the current node, and all frames that this leaves empty. */
    method Drop()
      requires Valid()
      modifies `frameStack, `spots
      ensures Valid() && Todo() == Past(old(Todo()), false)
      decreases |frameStack|
    {
      hide StackFits, FrameFits, NodeFits, FileTreeRepo.Valid, Ahead;
      LastFrame(repo.hasher, repo.objects, frameStack, spots, base);
      var top := |frameStack| - 1;
      if top < 0 || frameStack[top] == [] {
        return;
      }
      var frame := frameStack[top][1..];
      ghost var before := spots;
      if frame == [] && top > 0 {
        PopFrame(repo.hasher, repo.objects, frameStack, spots, base);
        frameStack, spots := frameStack[..top], spots[..top];
        Drop();
      } else {
        DropFirst(repo.hasher, repo.objects, frameStack, spots, base);
        frameStack, spots := frameStack[..top] + [frame], spots[..top] + [spots[top][1..]];
      }
    }

    /** advance: to the first child of the current node or past the node. */
    method Advance(wantDescend: bool) returns (r: Option<(Path, WorkNode)>)
      requires Valid()
      modifies this
      ensures Valid()
      ensures Todo() == if old(hasStarted) then Past(old(Todo()), wantDescend) else old(Todo())
      ensures hasStarted == (old(hasStarted) || old(Todo()) != [])
      ensures r.None? <==> Todo() == []
      ensures r.Some? ==> r.value.0 == Todo()[0].path && NodeFits(repo.hasher, repo.objects, r.value.1, Todo()[0])
    {
      hide StackFits, FileTreeRepo.Valid, NodeFits, FrameFits, Ahead, Opens, Stored, Canonical, CanonicalRoot, Subs;
      r := Current();
      if r.None? {
        return;
      }
      if !hasStarted {
        hasStarted := true;
        return;
      }
      ghost var s := Todo()[0];
      var node := r.value.1;
      DirectoryHasKids(repo.hasher, repo.objects, node, s);
      var numChildren := if node.treeNode.TreeNode? then |node.treeNode.subObjects| else 0;
      if numChildren != 0 && wantDescend {
        SpotIsRoot(repo.hasher, repo.objects, s);
        var frame := NewFrame(repo, node, s);
        PushFrame(repo.hasher, repo.objects, frameStack, spots, base, frame, KidSpots(s));
        frameStack, spots := frameStack + [frame], spots + [KidSpots(s)];
      } else {
        Drop();
      }
      r := Current();
    }

    /** Next: without going down into the current node. */
    method Next() returns (r: Option<(Path, WorkNode)>)
      requires Valid()
      modifies this
      ensures Valid()
      ensures Todo() == if old(hasStarted) then Past(old(Todo()), false) else old(Todo())
      ensures hasStarted == (old(hasStarted) || old(Todo()) != [])
      ensures r.None? <==> Todo() == []
      ensures r.Some? ==> r.value.0 == Todo()[0].path && NodeFits(repo.hasher, repo.objects, r.value.1, Todo()[0])
    {
      r := Advance(false);
    }

    /** Step: down into the current node if it has children. */
    method Step() returns (r: Option<(Path, WorkNode)>)
      requires Valid()
      modifies this
      ensures Valid()
      ensures Todo() == if old(hasStarted) then Past(old(Todo()), true) else old(Todo())
      ensures hasStarted == (old(hasStarted) || old(Todo()) != [])
      ensures r.None? <==> Todo() == []
      ensures r.Some? ==> r.value.0 == Todo()[0].path && NodeFits(repo.hasher, repo.objects, r.value.1, Todo()[0])
    {
      r := Advance(true);
    }
  }

  lemma OneFrame(h: Hasher, objects: Store, frame: Frame, spots: seq<Spot>, base: Path)
    requires FrameFits(h, objects, frame, spots, base)
    ensures StackFits(h, objects, [frame], [spots], base) && Ahead([spots]) == spots
  {
    hide NodeFits;
    assert [frame][..0] == [] && base + [] == base;
    assert [spots][..0] == [];
  }

  lemma LastFrame(h: Hasher, objects: Store, frames: seq<Frame>, spots: seq<seq<Spot>>, base: Path)
    requires StackFits(h, objects, frames, spots, base) && (|frames| > 1 ==> frames[|frames| - 1] != [])
    ensures frames == [] || frames[|frames| - 1] == [] ==> Ahead(spots) == []
    ensures frames != [] && frames[|frames| - 1] != [] ==>
      && Ahead(spots) != [] && NodeFits(h, objects, frames[|frames| - 1][0], Ahead(spots)[0])
      && (forall i | 0 <= i < |frames| :: frames[i] != [])
      && Ahead(spots)[0].path == base + Firsts(frames)
  {
    hide NodeFits;
    if frames != [] {
      var top := |frames| - 1;
      assert FrameFits(h, objects, frames[top], spots[top], base + Firsts(frames[..top]));
      if frames[top] != [] {
        assert Firsts(frames) == Firsts(frames[..top]) + [frames[top][0].entry.name];
      } else {
        assert spots[..top] == [];
      }
    }
  }

  /** Frames below the last one. */
  lemma LowerFrames(h: Hasher, objects: Store, frames: seq<Frame>, spots: seq<seq<Spot>>, base: Path)
    requires StackFits(h, objects, frames, spots, base) && frames != []
    ensures var top := |frames| - 1;
      && |spots| == |frames|
      && StackFits(h, objects, frames[..top], spots[..top], base) && (forall i | 0 <= i < top :: frames[..top][i] != [])
      && FrameFits(h, objects, frames[top], spots[top], base + Firsts(frames[..top]))
      && (frames[top] != [] ==> |spots[top]| == |frames[top]| && Ahead(spots) == [spots[top][0]] + Behind(spots))
  {
    hide FrameFits;
    var top := |frames| - 1;
    assert forall i | 0 <= i < top :: frames[..top][..i] == frames[..i];
    SameSize(h, objects, frames[top], spots[top], base + Firsts(frames[..top]));
  }

  lemma SameSize(h: Hasher, objects: Store, frame: Frame, spots: seq<Spot>, at: Path)
    requires FrameFits(h, objects, frame, spots, at)
    ensures |spots| == |frame|
    ensures frame != [] ==> FrameFits(h, objects, frame[1..], spots[1..], at)
  {
    hide NodeFits;
  }

  lemma AddFrame(h: Hasher, objects: Store, frames: seq<Frame>, spots: seq<seq<Spot>>, base: Path, frame: Frame,
                 kids: seq<Spot>)
    requires StackFits(h, objects, frames, spots, base) && forall i | 0 <= i < |frames| :: frames[i] != []
    requires FrameFits(h, objects, frame, kids, base + Firsts(frames))
    ensures StackFits(h, objects, frames + [frame], spots + [kids], base)
    ensures Ahead(spots + [kids]) == kids + Behind(spots)
  {
    hide FrameFits;
    var frames', spots' := frames + [frame], spots + [kids];
    assert forall i | 0 <= i < |frames| :: frames'[..i] == frames[..i];
    assert frames'[..|frames|] == frames && spots'[..|spots|] == spots;
  }

  lemma PopFrame(h: Hasher, objects: Store, frames: seq<Frame>, spots: seq<seq<Spot>>, base: Path)
    requires StackFits(h, objects, frames, spots, base) && |frames| > 1 && |frames[|frames| - 1]| == 1
    ensures var top := |frames| - 1;
      && |spots| == |frames|
      && StackFits(h, objects, frames[..top], spots[..top], base) && frames[..top][top - 1] != []
      && Ahead(spots) != [] && Ahead(spots[..top]) != [] && Ahead(spots)[1..] == Ahead(spots[..top])[1..]
  {
    hide FrameFits, StackFits;
    var top := |frames| - 1;
    LowerFrames(h, objects, frames, spots, base);
    LowerFrames(h, objects, frames[..top], spots[..top], base);
    SameSize(h, objects, frames[top], spots[top], base + Firsts(frames[..top]));
  }

  lemma DropFirst(h: Hasher, objects: Store, frames: seq<Frame>, spots: seq<seq<Spot>>, base: Path)
    requires StackFits(h, objects, frames, spots, base) && frames != [] && frames[|frames| - 1] != []
    ensures var top := |frames| - 1;
      && |spots| == |frames| && |spots[top]| == |frames[top]|
      && StackFits(h, objects, frames[..top] + [frames[top][1..]], spots[..top] + [spots[top][1..]], base)
      && Ahead(spots) != [] && Ahead(spots[..top] + [spots[top][1..]]) == Ahead(spots)[1..]
  {
    hide FrameFits;
    var top := |frames| - 1;
    LowerFrames(h, objects, frames, spots, base);
    SameSize(h, objects, frames[top], spots[top], base + Firsts(frames[..top]));
    AddFrame(h, objects, frames[..top], spots[..top], base, frames[top][1..], spots[top][1..]);
  }

  lemma PushFrame(h: Hasher, objects: Store, frames: seq<Frame>, spots: seq<seq<Spot>>, base: Path, frame: Frame,
                  kids: seq<Spot>)
    requires StackFits(h, objects, frames, spots, base) && frames != [] && frames[|frames| - 1] != []
    requires Ahead(spots) != [] && FrameFits(h, objects, frame, kids, Ahead(spots)[0].path)
    ensures StackFits(h, objects, frames + [frame], spots + [kids], base)
    ensures Ahead(spots + [kids]) == kids + Ahead(spots)[1..]
  {
    hide FrameFits, NodeFits;
    LowerFrames(h, objects, frames, spots, base);
    LastFrame(h, objects, frames, spots, base);
    AddFrame(h, objects, frames, spots, base, frame, kids);
  }

  /** A directory that is no root has children, a blob has none. */
  lemma DirectoryHasKids(h: Hasher, objects: Store, node: WorkNode, s: Spot)
    requires NodeFits(h, objects, node, s)
    ensures s.tree.Dir? <==> node.treeNode.TreeNode?
    ensures s.tree.Dir? ==> node.treeNode.subObjects == Subs(h, s.tree) && |Subs(h, s.tree)| > 0
    ensures s.tree.Dir? ==> Opens(h, objects, node, s.tree)
    ensures SpotOk(h, objects, s)
  {
    if s.tree.Dir? {
      OpenedEntries(h, objects, node, s.tree);
      SubsMembers(h, s.tree);
      var n :| n in s.tree.kids;
      assert EntryOf(h, n, s.tree.kids[n]) in Subs(h, s.tree);
    }
  }
}
