/** The work tree: path lookup and the three edits, each of which rebuilds the
    directories from the edited one up to the root (versionmgr/worktree.go). */
module WorkTrees {
  import opened Wrappers
  import opened Hashes
  import opened Objects
  import opened TreeModel
  import opened TreeUpdates
  import opened WorkNodes

  datatype FullObject = FullObject(node: FileTree, entry: TreeEntry)

  /** A path as strings.Split returns it: at least one segment, none with a slash. */
  ghost predicate SplitPath(p: Path) {
    p != [] && forall n | n in p :: '/' !in n
  }

  // ---------------------------------------------------------------- path facts

  lemma {:induction false} FreeAt(t: Tree, p: Path, i: nat)
    requires Free(t, p) && i < |p| && Node(t, p[..i]).Some?
    ensures Node(t, p[..i]).value.Dir?
  {
    if i > 0 {
      assert p[..i][1..] == p[1..][..i - 1];
      FreeAt(t.kids[p[0]], p[1..], i - 1);
    }
  }

  /** The walk down p met directories only, up to depth k, where it ended or fell off. */
  lemma {:induction false} FreeIfDirs(t: Tree, p: Path, k: nat)
    requires k < |p| && Node(t, p[..k]).Some? && Node(t, p[..k]).value.Dir?
    requires k + 1 == |p| || Node(t, p[..k + 1]).None?
    ensures Free(t, p)
    decreases k
  {
    if k == 0 {
      assert p[..1][1..] == [];
      assert Node(t, p[..1]) == if p[0] in t.kids then Some(t.kids[p[0]]) else None;
    } else {
      assert p[..k][1..] == p[1..][..k - 1] && p[..k + 1][1..] == p[1..][..k];
      FreeIfDirs(t.kids[p[0]], p[1..], k - 1);
    }
  }

  lemma NodeStep(t: Tree, p: Path, i: nat)
    requires i < |p|
    ensures Node(t, p[..i + 1]) ==
            if Node(t, p[..i]).Some? && Node(t, p[..i]).value.Dir? && p[i] in Node(t, p[..i]).value.kids
            then Some(Node(t, p[..i]).value.kids[p[i]]) else None
  {
    assert p[..i + 1] == p[..i] + [p[i]];
    NodeConcat(t, p[..i], [p[i]]);
  }

  lemma {:induction false} NodeCanonical(t: Tree, p: Path)
    requires Canonical(t) && Node(t, p).Some?
    ensures Canonical(Node(t, p).value)
    decreases |p|
  {
    if p != [] {
      NodeCanonical(t.kids[p[0]], p[1..]);
    }
  }

  lemma NodeBelowRoot(t: Tree, p: Path)
    requires CanonicalRoot(t) && p != [] && Node(t, p).Some?
    ensures Canonical(Node(t, p).value) && NamesOk(p)
    decreases |p|
  {
    if |p| > 1 {
      NodeBelowRoot(t.kids[p[0]], p[1..]);
      assert p == [p[0]] + p[1..];
    } else {
      assert p == [p[0]];
    }
  }

  lemma {:induction false} NodeStored(h: Hasher, objects: Store, t: Tree, p: Path)
    requires Stored(h, objects, t) && Node(t, p).Some?
    ensures Stored(h, objects, Node(t, p).value)
    decreases |p|
  {
    if p != [] {
      NodeStored(h, objects, t.kids[p[0]], p[1..]);
    }
  }

  lemma NodeStoredBelowRoot(h: Hasher, objects: Store, t: Tree, p: Path)
    requires StoredRoot(h, objects, t) && Node(t, p).Some?
    ensures p == [] || Stored(h, objects, Node(t, p).value)
  {
    if p != [] {
      NodeStored(h, objects, t, p);
    }
  }

  /** A directory below a canonical root is not empty, so its entry opens it. */
  lemma OpenBelowRoot(h: Hasher, objects: Store, t: Tree, p: Path, name: string)
    requires CollisionFree(h) && CanonicalRoot(t) && StoredRoot(h, objects, t)
    requires p != [] && Node(t, p).Some? && Node(t, p).value.Dir?
    ensures var d := Node(t, p).value;
            && OpenNode(objects, EntryOf(h, name, d)).Ok?
            && OpenNode(objects, EntryOf(h, name, d)).value.entry == EntryOf(h, name, d)
            && Opens(h, objects, OpenNode(objects, EntryOf(h, name, d)).value, d)
  {
    NodeBelowRoot(t, p);
    NodeStoredBelowRoot(h, objects, t, p);
    OpenStored(h, objects, EntryOf(h, name, Node(t, p).value), Node(t, p).value);
  }

  // -------------------------------------------------------------- findNodeByPath

  /** exist lists the entries met on the way down p, one per segment that exists. */
  ghost predicate EntriesMet(h: Hasher, t: Tree, p: Path, exist: seq<FullObject>) {
    |exist| <= |p| && forall i | 0 <= i < |exist| :: MetAt(h, t, p, i, exist[i].entry)
  }

  ghost predicate MetAt(h: Hasher, t: Tree, p: Path, i: nat, e: TreeEntry) {
    i < |p| && Node(t, p[..i + 1]).Some? && e == EntryOf(h, p[i], Node(t, p[..i + 1]).value)
  }

  ghost predicate Met(h: Hasher, objects: Store, t: Tree, p: Path, exist: seq<FullObject>) {
    && EntriesMet(h, t, p, exist)
    && forall i | 0 <= i < |exist| :: exist[i].entry.hash in objects && exist[i].node == objects[exist[i].entry.hash]
  }

  lemma MetMore(h: Hasher, objects: Store, t: Tree, p: Path, exist: seq<FullObject>, o: FullObject)
    requires Met(h, objects, t, p, exist) && |exist| < |p| && Node(t, p[..|exist| + 1]).Some?
    requires o.entry == EntryOf(h, p[|exist|], Node(t, p[..|exist| + 1]).value)
    requires o.entry.hash in objects && o.node == objects[o.entry.hash]
    ensures Met(h, objects, t, p, exist + [o])
  {
  }

  /** curNode is open on the directory at depth `index` of the path. */
  ghost predicate OpenAt(h: Hasher, objects: Store, t: Tree, p: Path, index: nat, curNode: WorkNode) {
    && index < |p| && Node(t, p[..index]).Some? && Node(t, p[..index]).value.Dir?
    && Opens(h, objects, curNode, Node(t, p[..index]).value)
  }

  /** One step of the walk: the entry found is that of the node one segment further. */
  lemma WalkStep(h: Hasher, objects: Store, t: Tree, p: Path, index: nat, curNode: WorkNode)
    requires CollisionFree(h) && CanonicalRoot(t) && StoredRoot(h, objects, t)
    requires OpenAt(h, objects, t, p, index, curNode)
    ensures curNode.treeNode.TreeNode?
    ensures var next, entry := Node(t, p[..index + 1]), SubEntry(curNode.treeNode.subObjects, p[index]);
            if next.None? then entry.None? && Free(t, p)
            else
              && entry == Some(EntryOf(h, p[index], next.value))
              && entry.value.hash in objects
              && (index + 1 == |p| ==> Free(t, p))
              && (next.value.File? && index + 1 < |p| ==> !Free(t, p))
              && (next.value.Dir? ==>
                    && OpenNode(objects, entry.value).Ok?
                    && OpenNode(objects, entry.value).value.treeNode == objects[entry.value.hash]
                    && Opens(h, objects, OpenNode(objects, entry.value).value, next.value))
  {
    NodeStep(t, p, index);
    SubEntryIsKid(h, objects, curNode, Node(t, p[..index]).value, p[index]);
    if Node(t, p[..index + 1]).None? || index + 1 == |p| {
      FreeIfDirs(t, p, index);
    } else if Node(t, p[..index + 1]).value.File? && Free(t, p) {
      FreeAt(t, p, index + 1);
    }
    if Node(t, p[..index + 1]).Some? {
      NodeStoredBelowRoot(h, objects, t, p[..index + 1]);
      if Node(t, p[..index + 1]).value.Dir? {
        OpenBelowRoot(h, objects, t, p[..index + 1], p[index]);
      }
    }
  }

  /** findNodeByPath: what exists of the path and what is missing of it. */
  method FindNodeByPath(repo: FileTreeRepo, root: WorkNode, pathSegs: Path, ghost tree: Tree)
    returns (r: Result<(seq<FullObject>, Path)>)
    requires repo.Valid() && pathSegs != []
    requires CanonicalRoot(tree) && Opens(repo.hasher, repo.objects, root, tree)
    ensures r.Ok? <==> Free(tree, pathSegs)
    ensures r.Err? ==> r.error == BlobMustBeLeaf
    ensures r.Ok? ==>
      var (exist, missing) := r.value;
      && Met(repo.hasher, repo.objects, tree, pathSegs, exist)
      && missing == pathSegs[|exist|..]
      && (missing != [] ==> Node(tree, pathSegs[..|exist|]).Some? && Node(tree, pathSegs[..|exist|]).value.Dir?)
      && (missing != [] ==> Node(tree, pathSegs[..|exist| + 1]).None?)
  {
    hide Met, Free, CanonicalRoot, Canonical, Opens, StoreOk, CollisionFree, OpenNode, SubEntry, StoredRoot;
    var curNode := root;
    var existNodes: seq<FullObject> := [];
    StartAtRoot(repo.hasher, repo.objects, tree, pathSegs, root);
    for index := 0 to |pathSegs|
      invariant |existNodes| == index && Met(repo.hasher, repo.objects, tree, pathSegs, existNodes)
      invariant if index < |pathSegs| then OpenAt(repo.hasher, repo.objects, tree, pathSegs, index, curNode)
                else Free(tree, pathSegs)
    {
      WalkStep(repo.hasher, repo.objects, tree, pathSegs, index, curNode);
      var entry := SubEntry(curNode.treeNode.subObjects, pathSegs[index]);
      if entry.None? {
        return Ok((existNodes, pathSegs[index..]));
      }
      var row := repo.Get(entry.value.hash);
      MetMore(repo.hasher, repo.objects, tree, pathSegs, existNodes, FullObject(row.value, entry.value));
      existNodes := existNodes + [FullObject(row.value, entry.value)];
      if entry.value.isDir {
        curNode := OpenNode(repo.objects, entry.value).value;
      } else if index != |pathSegs| - 1 {
        return Err(BlobMustBeLeaf);
      }
    }
    return Ok((existNodes, []));
  }

  lemma StartAtRoot(h: Hasher, objects: Store, t: Tree, p: Path, root: WorkNode)
    requires Opens(h, objects, root, t) && p != []
    ensures OpenAt(h, objects, t, p, 0, root) && StoredRoot(h, objects, t) && Met(h, objects, t, p, [])
  {
  }

  // ------------------------------------------------------- how much is inserted

  /** At most n rows were added. */
  ghost predicate AddsAtMost(before: Store, after: Store, n: nat) {
    |after.Keys| <= |before.Keys| + n
  }

  lemma AddOne(s1: Store, s2: Store, s3: Store, hash: Hash, n: nat)
    requires AddsAtMost(s1, s2, n) && s3.Keys <= s2.Keys + {hash}
    ensures AddsAtMost(s1, s3, n + 1)
  {
    MoreKeys(s3.Keys, s2.Keys + {hash});
  }

  lemma AddsTogether(s1: Store, s2: Store, s3: Store, n: nat, m: nat)
    requires AddsAtMost(s1, s2, n) && AddsAtMost(s2, s3, m)
    ensures AddsAtMost(s1, s3, n + m)
  {
  }

  lemma AddsNothing(s: Store, n: nat)
    ensures AddsAtMost(s, s, n)
  {
  }

  lemma AddsMore(s1: Store, s2: Store, n: nat, m: nat)
    requires AddsAtMost(s1, s2, n) && n <= m
    ensures AddsAtMost(s1, s2, m)
  {
  }

  lemma {:induction false} MoreKeys(a: set<Hash>, b: set<Hash>)
    requires a <= b
    ensures |a| <= |b|
    decreases a
  {
    if x :| x in a {
      MoreKeys(a - {x}, b - {x});
    }
  }

  // ------------------------------------------------------- rebuilding the spine

  ghost function At(t: Tree, q: Path): Tree {
    if Node(t, q).Some? then Node(t, q).value else EMPTY_DIR
  }

  /** The subtree at depth d of p, once x has been put at the end of p. */
  ghost function Rebuilt(t: Tree, p: Path, d: nat, x: Tree): Tree
    requires d <= |p|
  {
    Put(At(t, p[..d]), p[d..], x)
  }

  lemma RebuiltStep(t: Tree, p: Path, d: nat, x: Tree)
    requires d < |p| && At(t, p[..d]).Dir?
    ensures Rebuilt(t, p, d, x) == WithKid(At(t, p[..d]), p[d], Rebuilt(t, p, d + 1, x))
  {
    NodeStep(t, p, d);
    assert p[d..][1..] == p[d + 1..] && p[d..][0] == p[d];
  }

  lemma RebuiltEnds(t: Tree, p: Path, x: Tree)
    ensures Rebuilt(t, p, |p|, x) == x && Rebuilt(t, p, 0, x) == Put(t, p, x)
  {
    assert p[..0] == [] && p[0..] == p && p[|p|..] == [];
  }

  ghost function NameAt(p: Path, d: nat): string
    requires d <= |p|
  {
    if d == 0 then "" else p[d - 1]
  }

  /** Open the directory at depth d of the path, as the edits do on their way up. */
  method OpenLevel(repo: FileTreeRepo, rootHash: Hash, p: Path, exist: seq<FullObject>, d: nat, ghost t: Tree)
    returns (node: WorkNode)
    requires repo.Valid() && Represents(repo.hasher, repo.objects, rootHash, t)
    requires EntriesMet(repo.hasher, t, p, exist) && d <= |exist|
    requires At(t, p[..d]).Dir?
    ensures Opens(repo.hasher, repo.objects, node, At(t, p[..d]))
    ensures node.entry.name == NameAt(p, d)
  {
    assert p[..0] == [];
    var entry := if d == 0 then RootEntry(rootHash) else exist[d - 1].entry;
    if d == 0 {
      OpenStored(repo.hasher, repo.objects, entry, t);
    } else {
      OpenBelowRoot(repo.hasher, repo.objects, t, p[..d], p[d - 1]);
    }
    node := OpenNode(repo.objects, entry).value;
  }

  lemma DirsAbove(t: Tree, p: Path, d: nat)
    requires d < |p| && Node(t, p[..d + 1]).Some?
    ensures Node(t, p[..d]).Some? && At(t, p[..d]).Dir? && p[d] in At(t, p[..d]).kids
  {
    NodeStep(t, p, d);
  }

  /** Put the rebuilt subtree of depth `depth` into its directory, that one into the next,
      and so on up to the root. */
  method ReplaceUp(repo: FileTreeRepo, rootHash: Hash, p: Path, exist: seq<FullObject>, depth: nat, entry: TreeEntry,
                   ghost t: Tree, ghost x: Tree)
    returns (lastEntry: TreeEntry)
    requires repo.Valid() && Represents(repo.hasher, repo.objects, rootHash, t)
    requires EntriesMet(repo.hasher, t, p, exist) && depth <= |exist|
    requires entry == EntryOf(repo.hasher, NameAt(p, depth), Rebuilt(t, p, depth, x))
    requires Stored(repo.hasher, repo.objects, Rebuilt(t, p, depth, x))
    modifies repo
    ensures repo.Valid() && Grows(old(repo.objects), repo.objects)
    ensures lastEntry == EntryOf(repo.hasher, NameAt(p, 0), Rebuilt(t, p, 0, x))
    ensures Stored(repo.hasher, repo.objects, Rebuilt(t, p, 0, x))
    ensures AddsAtMost(old(repo.objects), repo.objects, depth)
  {
    hide CollisionFree, StoreOk, Stored, StoredRoot, CanonicalRoot, Canonical, Opens, Rebuilt, At, Node;
    lastEntry := entry;
    var d := depth;
    while d > 0
      invariant 0 <= d <= depth && repo.Valid() && Grows(old(repo.objects), repo.objects)
      invariant lastEntry == EntryOf(repo.hasher, NameAt(p, d), Rebuilt(t, p, d, x))
      invariant Stored(repo.hasher, repo.objects, Rebuilt(t, p, d, x))
      invariant AddsAtMost(old(repo.objects), repo.objects, depth - d)
    {
      ghost var before := repo.objects;
      d := d - 1;
      SnapshotsPersist(repo.hasher, old(repo.objects), repo.objects, rootHash, t);
      assert exist[d].entry.name == p[d];
      DirsAbove(t, p, d);
      RebuiltStep(t, p, d, x);
      var node := OpenLevel(repo, rootHash, p, exist, d, t);
      var newNode := ReplaceSubTreeEntry(repo, node, lastEntry, At(t, p[..d]), Rebuilt(t, p, d + 1, x));
      AddOne(old(repo.objects), before, repo.objects, newNode.value.hash, depth - d - 1);
      lastEntry := TreeEntry(node.entry.name, true, newNode.value.hash);
    }
  }

  /** Add the new entry to the last directory that exists and rebuild those above it. */
  method AttachEntry(repo: FileTreeRepo, rootHash: Hash, p: Path, exist: seq<FullObject>, entry: TreeEntry,
                     ghost t: Tree, ghost x: Tree)
    returns (lastEntry: TreeEntry)
    requires repo.Valid() && Represents(repo.hasher, repo.objects, rootHash, t)
    requires EntriesMet(repo.hasher, t, p, exist) && |exist| < |p|
    requires At(t, p[..|exist|]).Dir? && p[|exist|] !in At(t, p[..|exist|]).kids
    requires entry == EntryOf(repo.hasher, p[|exist|], Rebuilt(t, p, |exist| + 1, x))
    requires Stored(repo.hasher, repo.objects, Rebuilt(t, p, |exist| + 1, x))
    modifies repo
    ensures repo.Valid() && Grows(old(repo.objects), repo.objects)
    ensures lastEntry == EntryOf(repo.hasher, NameAt(p, 0), Rebuilt(t, p, 0, x))
    ensures Stored(repo.hasher, repo.objects, Rebuilt(t, p, 0, x))
    ensures AddsAtMost(old(repo.objects), repo.objects, |exist| + 1)
  {
    hide CollisionFree, StoreOk, Stored, StoredRoot, CanonicalRoot, Canonical, Opens, Rebuilt, At, Node;
    var e := |exist|;
    RebuiltStep(t, p, e, x);
    var node := OpenLevel(repo, rootHash, p, exist, e, t);
    var newNode := AppendDirectEntry(repo, node, entry, At(t, p[..e]), Rebuilt(t, p, e + 1, x));
    AddsNothing(old(repo.objects), 0);
    AddOne(old(repo.objects), old(repo.objects), repo.objects, newNode.value.hash, 0);
    SnapshotsPersist(repo.hasher, old(repo.objects), repo.objects, rootHash, t);
    lastEntry := ReplaceUp(repo, rootHash, p, exist, e, TreeEntry(node.entry.name, true, newNode.value.hash), t, x);
  }

  /** One missing directory, holding just the entry made before. */
  method MissingLevel(repo: FileTreeRepo, p: Path, existing: nat, d: nat, entry: TreeEntry, ghost t: Tree,
                      ghost x: Tree)
    returns (lastEntry: TreeEntry)
    requires repo.Valid() && existing < d < |p| && Node(t, p[..existing + 1]).None?
    requires entry == EntryOf(repo.hasher, p[d], Rebuilt(t, p, d + 1, x))
    requires Stored(repo.hasher, repo.objects, Rebuilt(t, p, d + 1, x))
    modifies repo
    ensures repo.Valid() && Grows(old(repo.objects), repo.objects)
    ensures lastEntry == EntryOf(repo.hasher, p[d - 1], Rebuilt(t, p, d, x))
    ensures Stored(repo.hasher, repo.objects, Rebuilt(t, p, d, x))
    ensures repo.objects.Keys <= old(repo.objects).Keys + {lastEntry.hash}
  {
    hide CollisionFree, StoreOk, Rebuilt, At, Node, Stored, HashOf;
    MissingStaysMissing(t, p, existing, d);
    RebuiltStep(t, p, d, x);
    SingleEntry(repo.hasher, entry, Rebuilt(t, p, d + 1, x));
    var newTree := NewTreeNode(repo.hasher, DIR_MODE, [entry]);
    RowIsDirectory(repo.hasher, Rebuilt(t, p, d, x), [entry], newTree);
    InsertDirectory(repo, newTree, Rebuilt(t, p, d, x));
    return TreeEntry(p[d - 1], true, newTree.hash);
  }

  /** Make the missing directories bottom-up, each holding just the entry made before. A
      segment without a name stops the work; what was inserted until then stays. */
  method BuildMissing(repo: FileTreeRepo, p: Path, existing: nat, blob: FileTree, ghost t: Tree)
    returns (r: Result<TreeEntry>)
    requires repo.Valid() && blob.Blob? && RowOk(repo.hasher, repo.objects, blob) && blob.hash in repo.objects
    requires existing < |p| && Node(t, p[..existing + 1]).None?
    modifies repo
    ensures repo.Valid() && Grows(old(repo.objects), repo.objects)
    ensures r == if "" in p[existing..] then Err(NameIsEmpty)
                 else Ok(EntryOf(repo.hasher, p[existing], Rebuilt(t, p, existing + 1, File(blob.hash))))
    ensures r.Ok? ==> Stored(repo.hasher, repo.objects, Rebuilt(t, p, existing + 1, File(blob.hash)))
    ensures AddsAtMost(old(repo.objects), repo.objects, |p| - 1 - existing)
  {
    hide CollisionFree, StoreOk, Rebuilt, At, Node, Stored, EntryOf, Named;
    ghost var x := File(blob.hash);
    RebuiltEnds(t, p, x);
    NamedFrom(p, existing);
    var d := |p| - 1;
    NamedStep(p, d);
    if p[d] == "" {
      NotNamed(p, d, existing);
      return Err(NameIsEmpty);
    }
    repo.Insert(blob);
    var lastEntry := TreeEntry(p[d], false, blob.hash);
    BlobEntry(repo.hasher, repo.objects, p[d], blob.hash);
    while d > existing
      invariant existing <= d < |p| && repo.Valid() && Grows(old(repo.objects), repo.objects)
      invariant lastEntry == EntryOf(repo.hasher, p[d], Rebuilt(t, p, d + 1, x))
      invariant Stored(repo.hasher, repo.objects, Rebuilt(t, p, d + 1, x))
      invariant Named(p, d)
      invariant AddsAtMost(old(repo.objects), repo.objects, |p| - 1 - d)
    {
      NamedStep(p, d - 1);
      if p[d - 1] == "" {
        NotNamed(p, d - 1, existing);
        return Err(NameIsEmpty);
      }
      ghost var before := repo.objects;
      lastEntry := MissingLevel(repo, p, existing, d, lastEntry, t, x);
      AddOne(old(repo.objects), before, repo.objects, lastEntry.hash, |p| - 1 - d);
      d := d - 1;
    }
    return Ok(lastEntry);
  }

  /** Every segment from d on has a name. */
  ghost predicate Named(p: Path, d: nat)
    requires d <= |p|
  {
    "" !in p[d..]
  }

  lemma NamedFrom(p: Path, d: nat)
    requires d <= |p|
    ensures Named(p, d) <==> "" !in p[d..]
  {
  }

  lemma NamedStep(p: Path, d: nat)
    requires d < |p|
    ensures Named(p, d) <==> p[d] != "" && Named(p, d + 1)
    ensures Named(p, |p|)
  {
    assert p[d..] == [p[d]] + p[d + 1..];
  }

  lemma NotNamed(p: Path, d: nat, existing: nat)
    requires existing <= d < |p| && p[d] == ""
    ensures !Named(p, existing)
  {
    assert p[existing..][d - existing] == "";
  }

  lemma BlobEntry(h: Hasher, objects: Store, name: string, b: Hash)
    requires b in objects && objects[b].Blob?
    ensures EntryOf(h, name, File(b)) == TreeEntry(name, false, b) && Stored(h, objects, File(b))
  {
  }

  lemma {:induction false} MissingStaysMissing(t: Tree, p: Path, existing: nat, d: nat)
    requires existing < d <= |p| && Node(t, p[..existing + 1]).None?
    ensures At(t, p[..d]) == EMPTY_DIR && Node(t, p[..d]).None?
    decreases d
  {
    if d > existing + 1 {
      MissingStaysMissing(t, p, existing, d - 1);
      NodeStep(t, p, d - 1);
    }
  }

  lemma SingleEntry(h: Hasher, e: TreeEntry, kid: Tree)
    requires e == EntryOf(h, e.name, kid)
    ensures DistinctNames([e])
    ensures var t := WithKid(EMPTY_DIR, e.name, kid);
            forall x :: x in [e] <==> x.name in t.kids && x == EntryOf(h, x.name, t.kids[x.name])
  {
  }

  // ----------------------------------------------------- rebuilding after removal

  /** What is left of the subtree at depth d of p, once the node at p has been removed. */
  ghost function Remains(t: Tree, p: Path, d: nat): (r: Tree)
    requires d < |p| && Node(t, p).Some?
    ensures r.Dir?
  {
    RemainsDefined(t, p, d);
    Del(At(t, p[..d]), p[d..])
  }

  lemma RemainsDefined(t: Tree, p: Path, d: nat)
    requires d < |p| && Node(t, p).Some?
    ensures Node(t, p[..d]).Some? && Node(At(t, p[..d]), p[d..]).Some?
    ensures At(t, p[..d]).Dir? && p[d] in At(t, p[..d]).kids
  {
    assert p == p[..d] + p[d..];
    NodeConcat(t, p[..d], p[d..]);
  }

  /** An emptied directory is removed from its own directory in turn. */
  lemma RemainsStep(t: Tree, p: Path, d: nat)
    requires d < |p| && Node(t, p).Some?
    ensures At(t, p[..d]).Dir? && p[d] in At(t, p[..d]).kids
    ensures Remains(t, p, d) ==
            if d + 1 == |p| || Remains(t, p, d + 1).kids == map[] then WithoutKid(At(t, p[..d]), p[d])
            else WithKid(At(t, p[..d]), p[d], Remains(t, p, d + 1))
  {
    RemainsDefined(t, p, d);
    NodeStep(t, p, d);
    assert p[d..][1..] == p[d + 1..] && p[d..][0] == p[d];
  }

  lemma RemainsEnds(t: Tree, p: Path)
    requires p != [] && Node(t, p).Some?
    ensures Remains(t, p, 0) == Del(t, p)
  {
    assert p[..0] == [] && p[0..] == p;
  }

  /** The removal has been carried up to depth d. */
  ghost predicate RemovedUpTo(h: Hasher, objects: Store, t: Tree, p: Path, d: nat, lastEntry: TreeEntry, isEmpty: bool)
    requires Node(t, p).Some? && p != []
  {
    && d <= |p|
    && (d == |p| ==> lastEntry.name == p[|p| - 1])
    && (d < |p| ==>
          && lastEntry == TreeEntry(NameAt(p, d), true, RootHash(h, Remains(t, p, d)))
          && (isEmpty <==> Remains(t, p, d).kids == map[])
          && StoredRoot(h, objects, Remains(t, p, d)))
  }

  /** One directory on the way up: drop the child, or put what remains of it in its place. */
  method RemoveLevel(repo: FileTreeRepo, rootHash: Hash, p: Path, exist: seq<FullObject>, d: nat, entry: TreeEntry,
                     ghost t: Tree, ghost wasEmpty: bool)
    returns (lastEntry: TreeEntry, isEmpty: bool)
    requires repo.Valid() && Represents(repo.hasher, repo.objects, rootHash, t)
    requires p != [] && EntriesMet(repo.hasher, t, p, exist) && |exist| == |p| && Node(t, p).Some? && d < |p|
    requires RemovedUpTo(repo.hasher, repo.objects, t, p, d + 1, entry, wasEmpty)
    modifies repo
    ensures repo.Valid() && Grows(old(repo.objects), repo.objects)
    ensures RemovedUpTo(repo.hasher, repo.objects, t, p, d, lastEntry, isEmpty)
    ensures repo.objects.Keys <= old(repo.objects).Keys + {lastEntry.hash}
  {
    hide StoreOk, Stored, CanonicalRoot, Canonical, Opens, Remains, At, Node;
    RemainsStep(t, p, d);
    var node := OpenLevel(repo, rootHash, p, exist, d, t);
    if d == |p| - 1 || entry.hash == EMPTY_HASH {
      var newNode := DeleteDirectEntry(repo, node, entry.name, At(t, p[..d]));
      isEmpty := newNode.None?;
      lastEntry := TreeEntry(node.entry.name, true, if newNode.Some? then newNode.value.hash else EMPTY_HASH);
    } else {
      var newNode := ReplaceSubTreeEntry(repo, node, entry, At(t, p[..d]), Remains(t, p, d + 1));
      isEmpty := false;
      lastEntry := TreeEntry(node.entry.name, true, newNode.value.hash);
    }
  }

  /** Take the object at p out of its directory and carry the change up to the root. */
  method RemoveUp(repo: FileTreeRepo, rootHash: Hash, p: Path, exist: seq<FullObject>, ghost t: Tree)
    returns (lastEntry: TreeEntry, isEmpty: bool)
    requires repo.Valid() && Represents(repo.hasher, repo.objects, rootHash, t)
    requires p != [] && EntriesMet(repo.hasher, t, p, exist) && |exist| == |p| && Node(t, p).Some?
    modifies repo
    ensures repo.Valid() && Grows(old(repo.objects), repo.objects)
    ensures isEmpty <==> Remains(t, p, 0).kids == map[]
    ensures lastEntry == TreeEntry("", true, RootHash(repo.hasher, Remains(t, p, 0)))
    ensures StoredRoot(repo.hasher, repo.objects, Remains(t, p, 0))
    ensures AddsAtMost(old(repo.objects), repo.objects, |p|)
  {
    hide StoreOk, StoredRoot, CanonicalRoot, Canonical, Remains, Node, CollisionFree, Represents;
    LastMet(repo.hasher, t, p, exist);
    lastEntry := exist[|p| - 1].entry;
    var d := |p|;
    isEmpty := false;
    while d > 0
      invariant 0 <= d <= |p| && repo.Valid() && Grows(old(repo.objects), repo.objects)
      invariant RemovedUpTo(repo.hasher, repo.objects, t, p, d, lastEntry, isEmpty)
      invariant AddsAtMost(old(repo.objects), repo.objects, |p| - d)
    {
      ghost var before := repo.objects;
      d := d - 1;
      SnapshotsPersist(repo.hasher, old(repo.objects), repo.objects, rootHash, t);
      lastEntry, isEmpty := RemoveLevel(repo, rootHash, p, exist, d, lastEntry, t, isEmpty);
      AddOne(old(repo.objects), before, repo.objects, lastEntry.hash, |p| - d - 1);
    }
  }

  lemma LastMet(h: Hasher, t: Tree, p: Path, exist: seq<FullObject>)
    requires EntriesMet(h, t, p, exist) && p != [] && |exist| == |p|
    ensures exist[|p| - 1].entry.name == p[|p| - 1]
  {
    assert MetAt(h, t, p, |p| - 1, exist[|p| - 1].entry);
  }

  // ------------------------------------------------------------- the work tree

  /** The paths a work tree accepts for a new file: nothing is there, no file lies on the
      way, and every segment has a name. */
  ghost predicate CanAdd(t: Tree, p: Path) {
    Free(t, p) && Node(t, p).None? && "" !in p
  }

  /** A missing path with a name for each missing segment is made of good names. */
  lemma NamesOfMissing(t: Tree, p: Path, existing: nat)
    requires CanonicalRoot(t) && SplitPath(p) && existing < |p|
    requires Node(t, p[..existing]).Some? && "" !in p[existing..]
    ensures NamesOk(p) && "" !in p
  {
    assert p == p[..existing] + p[existing..];
    if existing > 0 {
      NodeBelowRoot(t, p[..existing]);
    }
  }

  lemma OneRowMore(before: Store, row: FileTree, after: Store)
    requires after == if row.hash in before then before else before[row.hash := row]
    ensures AddsAtMost(before, after, 1)
  {
    AddOne(before, before, after, row.hash, 0);
  }

  method InsertBlob(repo: FileTreeRepo, blob: FileTree)
    requires repo.Valid() && blob.Blob? && RowOk(repo.hasher, repo.objects, blob)
    modifies repo
    ensures repo.Valid() && Grows(old(repo.objects), repo.objects) && Holds(repo.objects, blob)
    ensures AddsAtMost(old(repo.objects), repo.objects, 1)
  {
    hide StoreOk, CollisionFree, AddsAtMost, RowOk, Holds, Grows;
    repo.Insert(blob);
    OneRowMore(old(repo.objects), blob, repo.objects);
  }

  /** Insert the blob and the missing directories, and rebuild those that exist. */
  method GrowLeaf(repo: FileTreeRepo, rootHash: Hash, p: Path, exist: seq<FullObject>, blob: FileTree, ghost t: Tree)
    returns (r: Result<TreeEntry>)
    requires repo.Valid() && Represents(repo.hasher, repo.objects, rootHash, t) && SplitPath(p)
    requires blob.Blob? && RowOk(repo.hasher, repo.objects, blob)
    requires EntriesMet(repo.hasher, t, p, exist) && |exist| < |p|
    requires Node(t, p[..|exist|]).Some? && Node(t, p[..|exist| + 1]).None?
    requires At(t, p[..|exist|]).Dir? && p[|exist|] !in At(t, p[..|exist|]).kids
    modifies repo
    ensures repo.Valid() && Grows(old(repo.objects), repo.objects)
    ensures r.Ok? <==> "" !in p
    ensures r.Err? ==> r.error == NameIsEmpty
    ensures r.Ok? ==> NamesOk(p) && r.value == EntryOf(repo.hasher, "", Put(t, p, File(blob.hash)))
    ensures r.Ok? ==> Stored(repo.hasher, repo.objects, Put(t, p, File(blob.hash)))
    ensures AddsAtMost(old(repo.objects), repo.objects, |p| + 1)
  {
    hide StoreOk, Stored, CollisionFree, Canonical, Node, At, Rebuilt, CanonicalRoot, StoredRoot, Put, HashOf,
      Represents, SplitPath, NamesOk, EntriesMet;
    var e := |exist|;
    ghost var x := File(blob.hash);
    InsertBlob(repo, blob);
    ghost var withBlob := repo.objects;
    var made := BuildMissing(repo, p, e, blob, t);
    ghost var withDirs := repo.objects;
    AddsTogether(old(repo.objects), withBlob, withDirs, 1, |p| - 1 - e);
    if made.Err? {
      assert "" in p;
      AddsMore(old(repo.objects), withDirs, |p| - e, |p| + 1);
      return Err(made.error);
    }
    SnapshotsPersist(repo.hasher, old(repo.objects), repo.objects, rootHash, t);
    NamesOfMissing(t, p, e);
    var lastEntry := AttachEntry(repo, rootHash, p, exist, made.value, t, x);
    AddsTogether(old(repo.objects), withDirs, repo.objects, |p| - e, e + 1);
    RebuiltEnds(t, p, x);
    return Ok(lastEntry);
  }

  class WorkTree {
    const repo: FileTreeRepo
    var root: WorkNode
    ghost var tree: Tree

    ghost predicate Valid()
      reads this, repo
    {
      && repo.Valid() && CanonicalRoot(tree)
      && Opens(repo.hasher, repo.objects, root, tree)
    }

    /** NewWorkTree on the root hash of a stored tree. */
    constructor (repo: FileTreeRepo, rootHash: Hash, ghost tree: Tree)
      requires repo.Valid() && Represents(repo.hasher, repo.objects, rootHash, tree)
      ensures Valid() && this.repo == repo && this.tree == tree
      ensures root.entry == TreeEntry("", true, rootHash) && RootHash() == rootHash
    {
      OpenStored(repo.hasher, repo.objects, RootEntry(rootHash), tree);
      this.repo := repo;
      this.root := OpenNode(repo.objects, RootEntry(rootHash)).value;
      this.tree := tree;
    }

    function RootHash(): Hash
      reads this
    {
      root.entry.hash
    }

    lemma RootRepresents()
      requires Valid()
      ensures Represents(repo.hasher, repo.objects, RootHash(), tree)
    {
    }

    /** The root still stands for its tree in a store that has grown. */
    lemma RootPersists(before: Store, t: Tree)
      requires repo.Valid() && Grows(before, repo.objects) && CanonicalRoot(t) && tree == t
      requires Opens(repo.hasher, before, root, t)
      ensures Valid()
    {
      if t.kids != map[] {
        StoredPersists(repo.hasher, before, repo.objects, t);
      }
    }

    /** Make the directory behind lastEntry the new root. */
    method SetRoot(lastEntry: TreeEntry, ghost t: Tree)
      requires repo.Valid() && lastEntry.name == "" && Represents(repo.hasher, repo.objects, lastEntry.hash, t)
      modifies this
      ensures Valid() && tree == t
    {
      OpenStored(repo.hasher, repo.objects, lastEntry, t);
      root := OpenNode(repo.objects, lastEntry).value;
      tree := t;
    }

    /** AddLeaf: a new file, with the directories it needs. */
    method AddLeaf(fullPath: Path, blob: FileTree) returns (r: Result<()>)
      requires Valid() && SplitPath(fullPath)
      requires blob.Blob? && RowOk(repo.hasher, repo.objects, blob)
      modifies this, repo
      ensures Valid() && Grows(old(repo.objects), repo.objects)
      ensures r.Ok? <==> CanAdd(old(tree), fullPath)
      ensures r.Ok? ==> tree == Put(old(tree), fullPath, File(blob.hash))
      ensures r.Err? ==> tree == old(tree) && root == old(root)
      ensures r.Err? ==> r.error == if !Free(tree, fullPath) then BlobMustBeLeaf
                                    else if Node(tree, fullPath).Some? then EntryExists else NameIsEmpty
      ensures AddsAtMost(old(repo.objects), repo.objects, |fullPath| + 1)
    {
      hide StoreOk, Stored, Free, CollisionFree, Canonical, Node, At, Rebuilt, AddsAtMost;
      AddsNothing(repo.objects, |fullPath| + 1);
      var found := FindNodeByPath(repo, root, fullPath, tree);
      if found.Err? {
        return Err(found.error);
      }
      var (existNode, missingPath) := found.value;
      WhatIsMissing(repo.hasher, repo.objects, tree, fullPath, existNode);
      if missingPath == [] {
        return Err(EntryExists);
      }
      ghost var t := tree;
      RootRepresents();
      var lastEntry := GrowLeaf(repo, RootHash(), fullPath, existNode, blob, t);
      if lastEntry.Err? {
        RootPersists(old(repo.objects), t);
        return Err(lastEntry.error);
      }
      PutIsRoot(repo.hasher, repo.objects, t, fullPath, File(blob.hash));
      SetRoot(lastEntry.value, Put(t, fullPath, File(blob.hash)));
      return Ok(());
    }

    /** ReplaceLeaf: another blob at a path that exists; a directory there is replaced too. */
    method ReplaceLeaf(fullPath: Path, blob: FileTree) returns (r: Result<()>)
      requires Valid() && SplitPath(fullPath)
      requires blob.Blob? && RowOk(repo.hasher, repo.objects, blob)
      modifies this, repo
      ensures Valid() && Grows(old(repo.objects), repo.objects)
      ensures r.Ok? <==> Free(old(tree), fullPath) && Node(old(tree), fullPath).Some?
      ensures r.Ok? ==> tree == Put(old(tree), fullPath, File(blob.hash))
      ensures r.Err? ==> tree == old(tree) && root == old(root)
      ensures r.Err? ==> r.error == if !Free(tree, fullPath) then BlobMustBeLeaf else PathNotFound
      ensures AddsAtMost(old(repo.objects), repo.objects, |fullPath| + 1)
    {
      hide StoreOk, Stored, Free, CollisionFree, Canonical, Node, At, Rebuilt;
      var found := FindNodeByPath(repo, root, fullPath, tree);
      if found.Err? {
        return Err(found.error);
      }
      var (existNode, missingPath) := found.value;
      WhatIsMissing(repo.hasher, repo.objects, tree, fullPath, existNode);
      if |missingPath| > 0 {
        return Err(PathNotFound);
      }
      ghost var t, x := tree, File(blob.hash);
      RootRepresents();
      InsertBlob(repo, blob);
      ghost var withBlob := repo.objects;
      SnapshotsPersist(repo.hasher, old(repo.objects), repo.objects, RootHash(), t);
      RebuiltEnds(t, fullPath, x);
      BlobStored(repo.hasher, repo.objects, blob.hash);
      var entry := TreeEntry(existNode[|existNode| - 1].entry.name, false, blob.hash);
      var lastEntry := ReplaceUp(repo, RootHash(), fullPath, existNode, |fullPath|, entry, t, x);
      AddsTogether(old(repo.objects), withBlob, repo.objects, 1, |fullPath|);
      NodeBelowRoot(t, fullPath);
      PutIsRoot(repo.hasher, repo.objects, t, fullPath, x);
      SetRoot(lastEntry, Put(t, fullPath, x));
      return Ok(());
    }

    /** RemoveEntry: a file or a whole directory, with the directories left empty. */
    method RemoveEntry(fullPath: Path) returns (r: Result<()>)
      requires Valid() && SplitPath(fullPath)
      modifies this, repo
      ensures Valid() && Grows(old(repo.objects), repo.objects)
      ensures r.Ok? <==> Free(old(tree), fullPath) && Node(old(tree), fullPath).Some?
      ensures r.Ok? ==> tree == Del(old(tree), fullPath)
      ensures r.Err? ==> tree == old(tree) && root == old(root) && repo.objects == old(repo.objects)
      ensures r.Err? ==> r.error == if !Free(tree, fullPath) then BlobMustBeLeaf else PathNotFound
      ensures AddsAtMost(old(repo.objects), repo.objects, |fullPath|)
    {
      hide StoreOk, Stored, Free, CollisionFree, Canonical, Node, At, Remains;
      var found := FindNodeByPath(repo, root, fullPath, tree);
      if found.Err? {
        return Err(found.error);
      }
      var (existNode, missingPath) := found.value;
      WhatIsMissing(repo.hasher, repo.objects, tree, fullPath, existNode);
      if |missingPath| > 0 {
        return Err(PathNotFound);
      }
      ghost var t := tree;
      RootRepresents();
      var lastEntry, isEmpty := RemoveUp(repo, RootHash(), fullPath, existNode, t);
      RemainsEnds(t, fullPath);
      DelCanonical(t, fullPath);
      if isEmpty {
        SetRoot(TreeEntry("", false, EMPTY_HASH), Del(t, fullPath));
      } else {
        SetRoot(lastEntry, Del(t, fullPath));
      }
      return Ok(());
    }

    /** FindBlob: the blob and the name of the file at a path. */
    method FindBlob(fullPath: Path) returns (r: Result<(FileTree, string)>)
      requires Valid() && SplitPath(fullPath)
      ensures r.Ok? <==> Lookup(tree, fullPath).Some?
      ensures r.Ok? ==> r.value.0.Blob? && r.value.0.hash == Lookup(tree, fullPath).value
      ensures r.Ok? ==> r.value.0.hash in repo.objects && r.value.0 == repo.objects[r.value.0.hash]
      ensures r.Ok? ==> r.value.1 == fullPath[|fullPath| - 1]
      ensures r.Err? ==> r.error == if !Free(tree, fullPath) then BlobMustBeLeaf else PathNotFound
    {
      LookupIsNode(tree, fullPath);
      var found := FindNodeByPath(repo, root, fullPath, tree);
      if found.Err? {
        NotFreeNothing(tree, fullPath);
        return Err(found.error);
      }
      var (existNode, missingPath) := found.value;
      WhatIsMissing(repo.hasher, repo.objects, tree, fullPath, existNode);
      if |missingPath| > 0 {
        return Err(PathNotFound);
      }
      var lastNode := existNode[|existNode| - 1];
      assert fullPath[..|fullPath|] == fullPath;
      NodeStoredBelowRoot(repo.hasher, repo.objects, tree, fullPath);
      if !lastNode.node.Blob? {
        return Err(PathNotFound);
      }
      return Ok((lastNode.node, lastNode.entry.name));
    }
  }

  lemma BlobStored(h: Hasher, objects: Store, b: Hash)
    requires b in objects && objects[b].Blob?
    ensures Stored(h, objects, File(b))
  {
  }

  lemma {:induction false} NotFreeNothing(t: Tree, p: Path)
    requires !Free(t, p)
    ensures Node(t, p).None?
    decreases |p|
  {
    if t.Dir? {
      NotFreeNothing(t.kids[p[0]], p[1..]);
    }
  }

  /** What findNodeByPath reports as missing is missing, and what it met exists. */
  lemma WhatIsMissing(h: Hasher, objects: Store, t: Tree, p: Path, exist: seq<FullObject>)
    requires Met(h, objects, t, p, exist) && p != []
    ensures EntriesMet(h, t, p, exist)
    ensures |exist| == |p| ==> Node(t, p).Some?
    ensures Node(t, p[..|exist|]).Some? ==> At(t, p[..|exist|]) == Node(t, p[..|exist|]).value
    ensures |exist| < |p| && Node(t, p[..|exist| + 1]).None? ==> Node(t, p).None?
    ensures |exist| < |p| && Node(t, p[..|exist| + 1]).None? && At(t, p[..|exist|]).Dir? ==>
              p[|exist|] !in At(t, p[..|exist|]).kids
  {
    assert p[..|p|] == p;
    assert |exist| == |p| ==> exist[|p| - 1].entry.hash in objects;
    if |exist| < |p| && Node(t, p[..|exist| + 1]).None? {
      NodeStep(t, p, |exist|);
      MissingStaysMissing(t, p, |exist|, |p|);
    }
  }

  lemma PutIsRoot(h: Hasher, objects: Store, t: Tree, p: Path, x: Tree)
    requires CanonicalRoot(t) && p != [] && Free(t, p) && NamesOk(p) && Canonical(x)
    requires Stored(h, objects, Put(t, p, x))
    ensures Represents(h, objects, HashOf(h, Put(t, p, x)), Put(t, p, x))
  {
    PutCanonical(t, p, x);
  }
}
