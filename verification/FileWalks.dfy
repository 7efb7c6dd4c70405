/** The explicit-stack walk over a stored tree (versionmgr/files_walk.go) and the manifest
    built from it (GetTreeManifest in versionmgr/worktree.go). */
module FileWalks {
  import opened Wrappers
  import opened Hashes
  import opened Order
  import opened Objects
  import opened TreeModel
  import opened TreeUpdates
  import opened WorkNodes
  import opened WorkTrees
  import opened Paths
  import opened LexicalPaths

  /** An entry, and where in the tree it is. */
  datatype Item = Item(path: Path, entry: TreeEntry)

  /** What the callback is given: the path as path.Join builds it, and the entry. */
  datatype Report = Report(path: string, entry: TreeEntry)

  ghost function ReportOf(item: Item): Report {
    Report(Reported(item.path), item.entry)
  }

  ghost predicate AreReports(items: seq<Item>, out: seq<Report>) {
    |out| == |items| && forall i | 0 <= i < |out| :: out[i] == ReportOf(items[i])
  }

  // ------------------------------------------------------------- specification

  ghost function Items(entries: seq<TreeEntry>, path: Path): (r: seq<Item>)
    ensures |r| == |entries|
    ensures forall i | 0 <= i < |r| :: r[i] == Item(path + [entries[i].name], entries[i])
  {
    seq(|entries|, i requires 0 <= i < |entries| => Item(path + [entries[i].name], entries[i]))
  }

  /** The order of the walk: the entries of a directory, then its subdirectories in turn. */
  ghost function Emit(h: Hasher, t: Tree, path: Path): seq<Item>
    requires t.Dir?
    decreases t, 1, 0
  {
    Items(Subs(h, t), path) + EmitKids(h, t, SortedNames(t.kids.Keys), path)
  }

  ghost function EmitKids(h: Hasher, t: Tree, names: seq<string>, path: Path): seq<Item>
    requires t.Dir? && forall n | n in names :: n in t.kids
    decreases t, 0, |names|
  {
    if names == [] then []
    else
      var kid := t.kids[names[0]];
      (if kid.Dir? then Emit(h, kid, path + [names[0]]) else []) + EmitKids(h, t, names[1..], path)
  }

  /** An item for the node at p below the directory t. */
  ghost predicate ItemFor(h: Hasher, t: Tree, path: Path, p: Path, item: Item) {
    && p != [] && item.path == path + p && Node(t, p).Some?
    && item.entry == EntryOf(h, p[|p| - 1], Node(t, p).value)
  }

  /** Nothing is reported below or at a path before that path itself. */
  ghost predicate ParentsFirst(s: seq<Item>) {
    forall i, j | 0 <= i < j < |s| :: !Prefix(s[j].path, s[i].path)
  }

  // -------------------------------------------------------- what is reported

  /** An item for a node below a child is an item for that node below the directory. */
  lemma ItemBelow(h: Hasher, t: Tree, n: string, path: Path, q: Path, item: Item)
    requires t.Dir? && n in t.kids && ItemFor(h, t.kids[n], path + [n], q, item)
    ensures ItemFor(h, t, path, [n] + q, item) && |q| > 0
  {
    hide EntryOf;
    var p := [n] + q;
    assert p[1..] == q && path + p == path + [n] + q;
    assert p[|p| - 1] == q[|q| - 1];
  }

  lemma ItemHere(h: Hasher, t: Tree, path: Path, i: nat)
    requires t.Dir? && i < |Subs(h, t)|
    ensures i < |SortedNames(t.kids.Keys)|
    ensures ItemFor(h, t, path, [SortedNames(t.kids.Keys)[i]], Items(Subs(h, t), path)[i])
  {
    hide EntryOf, Subs, Node;
    SubsMembers(h, t);
    var n := SortedNames(t.kids.Keys)[i];
    assert Subs(h, t)[i] in Subs(h, t);
    NodeOfKid(t, n);
  }

  lemma NodeOfKid(t: Tree, n: string)
    requires t.Dir? && n in t.kids
    ensures Node(t, [n]) == Some(t.kids[n])
  {
    assert [n][1..] == [];
  }

  lemma {:induction false} EmitSound(h: Hasher, t: Tree, path: Path, item: Item) returns (p: Path)
    requires t.Dir? && item in Emit(h, t, path)
    ensures ItemFor(h, t, path, p, item)
    decreases t, 1, 0
  {
    hide ItemFor, EntryOf, Subs, Items;
    var items, names := Items(Subs(h, t), path), SortedNames(t.kids.Keys);
    if item in items {
      var i :| 0 <= i < |items| && items[i] == item;
      ItemHere(h, t, path, i);
      p := [names[i]];
    } else {
      p := EmitKidsSound(h, t, names, path, item);
    }
  }

  lemma {:induction false} EmitKidsSound(h: Hasher, t: Tree, names: seq<string>, path: Path, item: Item)
    returns (p: Path)
    requires t.Dir? && (forall n | n in names :: n in t.kids) && item in EmitKids(h, t, names, path)
    ensures ItemFor(h, t, path, p, item) && |p| > 1 && p[0] in names
    decreases t, 0, |names|
  {
    hide ItemFor, EntryOf, Subs, Items, Emit;
    var kid := t.kids[names[0]];
    if kid.Dir? && item in Emit(h, kid, path + [names[0]]) {
      var q := EmitSound(h, kid, path + [names[0]], item);
      ItemBelow(h, t, names[0], path, q, item);
      p := [names[0]] + q;
    } else {
      p := EmitKidsSound(h, t, names[1..], path, item);
    }
  }

  lemma KidHasItem(h: Hasher, t: Tree, path: Path, n: string)
    requires t.Dir? && n in t.kids
    ensures Item(path + [n], EntryOf(h, n, t.kids[n])) in Items(Subs(h, t), path)
  {
    SubsMembers(h, t);
    var items, e := Items(Subs(h, t), path), EntryOf(h, n, t.kids[n]);
    assert e in Subs(h, t);
    var i :| 0 <= i < |items| && Subs(h, t)[i] == e;
    assert items[i] == Item(path + [n], e);
  }

  lemma {:induction false} EmitComplete(h: Hasher, t: Tree, path: Path, p: Path)
    requires t.Dir? && p != [] && Node(t, p).Some?
    ensures Item(path + p, EntryOf(h, p[|p| - 1], Node(t, p).value)) in Emit(h, t, path)
    decreases |p|
  {
    hide Subs, EntryOf, EmitKids;
    var items, names := Items(Subs(h, t), path), SortedNames(t.kids.Keys);
    if |p| == 1 {
      KidHasItem(h, t, path, p[0]);
      assert p == [p[0]] && p[1..] == [];
    } else {
      var kid := t.kids[p[0]];
      EmitComplete(h, kid, path + [p[0]], p[1..]);
      assert path + [p[0]] + p[1..] == path + p;
      EmitKidsHolds(h, t, names, path, p[0]);
    }
  }

  lemma {:induction false} EmitKidsHolds(h: Hasher, t: Tree, names: seq<string>, path: Path, n: string)
    requires t.Dir? && (forall m | m in names :: m in t.kids) && n in names && t.kids[n].Dir?
    ensures forall x | x in Emit(h, t.kids[n], path + [n]) :: x in EmitKids(h, t, names, path)
    decreases |names|
  {
    if names[0] != n {
      EmitKidsHolds(h, t, names[1..], path, n);
    }
  }

  // --------------------------------------------------------------- in what order

  /** The entries of one directory are reported under different names. */
  lemma ItemsApart(h: Hasher, t: Tree, path: Path)
    requires t.Dir?
    ensures ParentsFirst(Items(Subs(h, t), path))
  {
    hide Subs, EntryOf;
    var items, names := Items(Subs(h, t), path), SortedNames(t.kids.Keys);
    SubsMembers(h, t);
    forall i, j | 0 <= i < j < |items| ensures !Prefix(items[j].path, items[i].path) {
      assert items[i].path[|path|] == names[i] && items[j].path[|path|] == names[j];
      LessIrreflexive(names[i]);
    }
  }

  lemma {:induction false} EmitOrder(h: Hasher, t: Tree, path: Path)
    requires t.Dir?
    ensures ParentsFirst(Emit(h, t, path))
    decreases t, 1, 0
  {
    hide Subs, EntryOf, EmitKids, ParentsFirst;
    var items, names := Items(Subs(h, t), path), SortedNames(t.kids.Keys);
    var below := EmitKids(h, t, names, path);
    EmitKidsOrder(h, t, names, path);
    ItemsApart(h, t, path);
    forall i: int, j: int | 0 <= i < |items| && 0 <= j < |below| ensures !Prefix(below[j].path, items[i].path) {
      var p := EmitKidsSound(h, t, names, path, below[j]);
      assert |below[j].path| > |items[i].path|;
    }
    ParentsFirstConcat(items, below);
  }

  lemma {:induction false} EmitKidsOrder(h: Hasher, t: Tree, names: seq<string>, path: Path)
    requires t.Dir? && (forall n | n in names :: n in t.kids) && StrictlySorted(names)
    ensures ParentsFirst(EmitKids(h, t, names, path))
    decreases t, 0, |names|
  {
    hide Subs, EntryOf, Emit;
    if names != [] {
      var kid := t.kids[names[0]];
      var first: seq<Item> := if kid.Dir? then Emit(h, kid, path + [names[0]]) else [];
      var rest: seq<Item> := EmitKids(h, t, names[1..], path);
      if kid.Dir? {
        EmitOrder(h, kid, path + [names[0]]);
      }
      EmitKidsOrder(h, t, names[1..], path);
      forall i: int, j: int | 0 <= i < |first| && 0 <= j < |rest| ensures !Prefix(rest[j].path, first[i].path) {
        var p := EmitSound(h, kid, path + [names[0]], first[i]);
        var q := EmitKidsSound(h, t, names[1..], path, rest[j]);
        assert first[i].path[|path|] == names[0] && rest[j].path[|path|] == q[0];
        LessIrreflexive(names[0]);
      }
      ParentsFirstConcat(first, rest);
    }
  }

  lemma ParentsFirstConcat(a: seq<Item>, b: seq<Item>)
    requires ParentsFirst(a) && ParentsFirst(b)
    requires forall i: int, j: int | 0 <= i < |a| && 0 <= j < |b| :: !Prefix(b[j].path, a[i].path)
    ensures ParentsFirst(a + b)
  {
    var all: seq<Item> := a + b;
    forall i: int, j: int | 0 <= i < j < |all| ensures !Prefix(all[j].path, all[i].path) {
      if i < |a| <= j {
        assert all[i] == a[i] && all[j] == b[j - |a|];
      }
    }
  }

  // -------------------------------------------------------------------- the walk

  /** A node on the stack, its path as joined so far, and where in the tree it is. */
  datatype NodeWithPath = NodeWithPath(curNode: WorkNode, path: string, at: Path)

  /** The stack entries are open on the trees, all of which are stored. */
  ghost predicate StackOpens(h: Hasher, objects: Store, stack: seq<NodeWithPath>, trees: seq<Tree>) {
    && SameLength(stack, trees)
    && forall i | 0 <= i < |stack| :: StackedOn(h, objects, stack[i], trees[i])
  }

  ghost predicate StackedOn(h: Hasher, objects: Store, node: NodeWithPath, t: Tree) {
    CanonicalRoot(t) && Opens(h, objects, node.curNode, t) && node.path == Reported(node.at)
  }

  ghost predicate SameLength(stack: seq<NodeWithPath>, trees: seq<Tree>) {
    |trees| == |stack| && forall i | 0 <= i < |trees| :: trees[i].Dir?
  }

  /** What the walk of the whole stack, front first, still reports. */
  ghost function EmitStack(h: Hasher, stack: seq<NodeWithPath>, trees: seq<Tree>): seq<Item>
    requires SameLength(stack, trees)
    decreases |stack|
  {
    if stack == [] then []
    else Emit(h, trees[0], stack[0].at) + EmitStack(h, stack[1..], trees[1..])
  }

  lemma EmitKidsStep(h: Hasher, t: Tree, names: seq<string>, i: nat, path: Path)
    requires t.Dir? && (forall n | n in names :: n in t.kids) && i < |names|
    ensures EmitKids(h, t, names[i..], path) ==
            (if t.kids[names[i]].Dir? then Emit(h, t.kids[names[i]], path + [names[i]]) else [])
            + EmitKids(h, t, names[i + 1..], path)
  {
    assert names[i..][0] == names[i] && names[i..][1..] == names[i + 1..];
  }

  /** An entry of an opened directory that is itself a directory opens. */
  lemma SubDirOpens(h: Hasher, objects: Store, t: Tree, i: nat)
    requires CollisionFree(h) && CanonicalRoot(t) && StoredRoot(h, objects, t) && i < |Subs(h, t)|
    ensures |Subs(h, t)| == |SortedNames(t.kids.Keys)|
    ensures var e := Subs(h, t)[i];
            && e.name == SortedNames(t.kids.Keys)[i] && e.name in t.kids
            && e == EntryOf(h, e.name, t.kids[e.name]) && e.hash in objects
            && (e.isDir ==> OpenNode(objects, e).Ok?)
            && (e.isDir ==>
                  CanonicalRoot(t.kids[e.name]) && Opens(h, objects, OpenNode(objects, e).value, t.kids[e.name]))
  {
    var names, e := SortedNames(t.kids.Keys), Subs(h, t)[i];
    EntriesAt(h, t, names, i);
    KidsOpen(h, objects, t);
    assert e in Subs(h, t);
    if e.isDir {
      OpenStored(h, objects, e, t.kids[e.name]);
    }
  }

  lemma NodeStacked(h: Hasher, objects: Store, node: NodeWithPath, t: Tree)
    requires CanonicalRoot(t) && Opens(h, objects, node.curNode, t) && node.path == Reported(node.at)
    ensures StackedOn(h, objects, node, t)
  {
  }

  lemma StackPush(h: Hasher, objects: Store, stack: seq<NodeWithPath>, trees: seq<Tree>, node: NodeWithPath, t: Tree)
    requires StackOpens(h, objects, stack, trees)
    requires StackedOn(h, objects, node, t)
    ensures StackOpens(h, objects, [node] + stack, [t] + trees) && SameLength([node] + stack, [t] + trees)
    ensures EmitStack(h, [node] + stack, [t] + trees) == Emit(h, t, node.at) + EmitStack(h, stack, trees)
  {
    assert ([node] + stack)[1..] == stack && ([t] + trees)[1..] == trees;
  }

  /** The i-th entry of the directory t: pushing it, when it is a directory, puts what is
      below it in front of what is below the later entries. */
  lemma PushOne(h: Hasher, objects: Store, t: Tree, i: nat, path: Path, stack: seq<NodeWithPath>, trees: seq<Tree>,
                rest: seq<Item>)
    requires CollisionFree(h) && CanonicalRoot(t) && StoredRoot(h, objects, t) && t.Dir? && i < |Subs(h, t)|
    requires StackOpens(h, objects, stack, trees) && SameLength(stack, trees)
    requires EmitStack(h, stack, trees) == EmitBelow(h, t, i + 1, path) + rest
    ensures var e := Subs(h, t)[i];
            if !e.isDir then EmitStack(h, stack, trees) == EmitBelow(h, t, i, path) + rest
            else
              && OpenNode(objects, e).Ok? && e.name in t.kids
              && var node := NodeWithPath(OpenNode(objects, e).value, PathJoin(Reported(path), e.name),
                                          path + [e.name]);
                 var kid := t.kids[e.name];
                 && StackOpens(h, objects, [node] + stack, [kid] + trees) && SameLength([node] + stack, [kid] + trees)
                 && EmitStack(h, [node] + stack, [kid] + trees) == EmitBelow(h, t, i, path) + rest
  {
    hide Reported, PathJoin, StackedOn, Stored, StoredRoot, Canonical, CanonicalRoot, CollisionFree, Opens, OpenNode,
      Subs, Emit, EmitKids, EmitStack, StackOpens, SameLength, HashOf;
    var e := Subs(h, t)[i];
    SubDirOpens(h, objects, t, i);
    EmitKidsStep(h, t, SortedNames(t.kids.Keys), i, path);
    if e.isDir {
      var node := NodeWithPath(OpenNode(objects, e).value, PathJoin(Reported(path), e.name), path + [e.name]);
      ReportedStep(path, e.name);
      NodeStacked(h, objects, node, t.kids[e.name]);
      StackPush(h, objects, stack, trees, node, t.kids[e.name]);
      var here, later := Emit(h, t.kids[e.name], node.at), EmitBelow(h, t, i + 1, path);
      assert here + (later + rest) == (here + later) + rest;
    }
  }

  /** What lies below the entries from the i-th on. */
  ghost function EmitBelow(h: Hasher, t: Tree, i: nat, path: Path): seq<Item>
    requires t.Dir? && i <= |Subs(h, t)|
  {
    EmitKids(h, t, SortedNames(t.kids.Keys)[i..], path)
  }

  lemma EmitBelowEnds(h: Hasher, t: Tree, path: Path)
    requires t.Dir?
    ensures EmitBelow(h, t, |Subs(h, t)|, path) == []
    ensures EmitBelow(h, t, 0, path) == EmitKids(h, t, SortedNames(t.kids.Keys), path)
  {
    var names := SortedNames(t.kids.Keys);
    assert names[|names|..] == [] && names[0..] == names;
  }

  /** Push the subdirectories of one directory, last first. */
  method PushSubDirs(repo: FileTreeRepo, cur: NodeWithPath, stack: seq<NodeWithPath>, ghost t: Tree,
                     ghost trees: seq<Tree>)
    returns (stack': seq<NodeWithPath>, ghost trees': seq<Tree>)
    requires repo.Valid() && StackedOn(repo.hasher, repo.objects, cur, t)
    requires StackOpens(repo.hasher, repo.objects, stack, trees) && SameLength(stack, trees)
    ensures StackOpens(repo.hasher, repo.objects, stack', trees') && SameLength(stack', trees')
    ensures EmitStack(repo.hasher, stack', trees')
         == EmitKids(repo.hasher, t, SortedNames(t.kids.Keys), cur.at) + EmitStack(repo.hasher, stack, trees)
    ensures |stack'| <= |stack| + |Subs(repo.hasher, t)|
  {
    hide StoreOk, StoredRoot, Stored, CanonicalRoot, Canonical, Emit, EmitKids, EmitStack, EmitBelow, Subs, StackOpens,
      SameLength, Opens, CollisionFree;
    OpenedEntries(repo.hasher, repo.objects, cur.curNode, t);
    EmitBelowEnds(repo.hasher, t, cur.at);
    var subNodes := cur.curNode.treeNode.subObjects;
    ghost var rest := EmitStack(repo.hasher, stack, trees);
    stack', trees' := stack, trees;
    var i := |subNodes|;
    while i > 0
      invariant 0 <= i <= |subNodes| && |stack'| <= |stack| + |subNodes| - i
      invariant StackOpens(repo.hasher, repo.objects, stack', trees') && SameLength(stack', trees')
      invariant EmitStack(repo.hasher, stack', trees') == EmitBelow(repo.hasher, t, i, cur.at) + rest
    {
      i := i - 1;
      PushOne(repo.hasher, repo.objects, t, i, cur.at, stack', trees', rest);
      if subNodes[i].isDir {
        var treeNode := OpenNode(repo.objects, subNodes[i]).value;
        stack' := [NodeWithPath(treeNode, PathJoin(cur.path, subNodes[i].name), cur.at + [subNodes[i].name])] + stack';
        trees' := [t.kids[subNodes[i].name]] + trees';
      }
    }
  }

  /** Report the entries of one directory; a blob that is missing is an error. */
  method ReportEntries(repo: FileTreeRepo, cur: NodeWithPath, ghost t: Tree)
    returns (r: Result<(seq<Report>, seq<Item>)>)
    requires repo.Valid() && StackedOn(repo.hasher, repo.objects, cur, t)
    ensures r.Ok? && r.value.1 == Items(Subs(repo.hasher, t), cur.at) && AreReports(r.value.1, r.value.0)
  {
    hide StoreOk, StoredRoot, Stored, CanonicalRoot, Canonical, Subs, Reported, PathJoin;
    OpenedEntries(repo.hasher, repo.objects, cur.curNode, t);
    KidsOpen(repo.hasher, repo.objects, t);
    var subNodes := cur.curNode.treeNode.subObjects;
    var out: seq<Report> := [];
    var items: seq<Item> := [];
    for i := 0 to |subNodes|
      invariant |items| == i && forall j | 0 <= j < i :: items[j] == Item(cur.at + [subNodes[j].name], subNodes[j])
      invariant AreReports(items, out)
    {
      if !subNodes[i].isDir {
        assert subNodes[i] in subNodes;
        var blob := repo.Get(subNodes[i].hash);
        assert blob.Ok?;
      }
      ReportedStep(cur.at, subNodes[i].name);
      out := out + [Report(PathJoin(cur.path, subNodes[i].name), subNodes[i])];
      items := items + [Item(cur.at + [subNodes[i].name], subNodes[i])];
    }
    assert items == Items(subNodes, cur.at);
    return Ok((out, items));
  }

  /** Walk: every entry of the tree in the reference order, under its joined path. */
  method Walk(repo: FileTreeRepo, curNode: WorkNode, ghost tree: Tree) returns (out: seq<Report>, items: seq<Item>)
    requires repo.Valid() && CanonicalRoot(tree) && Opens(repo.hasher, repo.objects, curNode, tree)
    ensures items == Emit(repo.hasher, tree, []) && AreReports(items, out)
  {
    hide StoreOk, StoredRoot, Stored, CanonicalRoot, Canonical, Subs, Opens, CollisionFree, Emit, EmitKids, EmitStack,
      StackOpens, StackedOn, PathJoin;
    out, items := [], [];
    var cache := [NodeWithPath(curNode, "", [])];
    ghost var trees := [tree];
    StackOfOne(repo.hasher, repo.objects, cache[0], tree);
    while cache != []
      invariant StackOpens(repo.hasher, repo.objects, cache, trees) && SameLength(cache, trees)
      invariant items + EmitStack(repo.hasher, cache, trees) == Emit(repo.hasher, tree, []) && AreReports(items, out)
      decreases 2 * |EmitStack(repo.hasher, cache, trees)| + |cache|
    {
      var cur := cache[0];
      ghost var t := trees[0];
      StackPop(repo.hasher, repo.objects, cache, trees);
      var reported := ReportEntries(repo, cur, t);
      cache, trees := PushSubDirs(repo, cur, cache[1..], t, trees[1..]);
      out, items := out + reported.value.0, items + reported.value.1;
    }
    EmitNothing(repo.hasher);
  }

  lemma EmitNothing(h: Hasher)
    ensures EmitStack(h, [], []) == []
  {
  }

  lemma StackOfOne(h: Hasher, objects: Store, node: NodeWithPath, t: Tree)
    requires CanonicalRoot(t) && Opens(h, objects, node.curNode, t) && node.at == [] && node.path == ""
    ensures StackOpens(h, objects, [node], [t]) && SameLength([node], [t])
    ensures EmitStack(h, [node], [t]) == Emit(h, t, node.at)
  {
    StackPush(h, objects, [], [], node, t);
    assert [node] + [] == [node] && [t] + [] == [t];
  }

  lemma StackPop(h: Hasher, objects: Store, stack: seq<NodeWithPath>, trees: seq<Tree>)
    requires StackOpens(h, objects, stack, trees) && stack != []
    ensures StackedOn(h, objects, stack[0], trees[0])
    ensures StackOpens(h, objects, stack[1..], trees[1..]) && SameLength(stack[1..], trees[1..])
    ensures EmitStack(h, stack, trees)
         == Items(Subs(h, trees[0]), stack[0].at) + EmitKids(h, trees[0], SortedNames(trees[0].kids.Keys), stack[0].at)
            + EmitStack(h, stack[1..], trees[1..])
  {
  }

  // ---------------------------------------------------------------- the manifest

  /** Files of the tree whose blobs are stored. */
  ghost predicate AreFiles(objects: Store, t: Tree, files: seq<Path>) {
    forall p | p in files :: Lookup(t, p).Some? && Lookup(t, p).value in objects && objects[Lookup(t, p).value].Blob?
  }

  /** How large the files of a list are together. */
  ghost function TotalSize(objects: Store, t: Tree, files: seq<Path>): int
    requires AreFiles(objects, t, files)
  {
    if files == [] then 0
    else objects[Lookup(t, files[0]).value].size + TotalSize(objects, t, files[1..])
  }

  lemma {:induction false} TotalSizeConcat(objects: Store, t: Tree, files: seq<Path>, p: Path)
    requires AreFiles(objects, t, files + [p])
    ensures AreFiles(objects, t, files) && p in files + [p]
    ensures TotalSize(objects, t, files + [p]) == TotalSize(objects, t, files) + objects[Lookup(t, p).value].size
  {
    assert (files + [p])[|files|] == p;
    if files == [] {
      assert files + [p] == [p];
    } else {
      assert (files + [p])[1..] == files[1..] + [p];
      TotalSizeConcat(objects, t, files[1..], p);
    }
  }

  /** Items are exactly the nodes of the tree, each once, a directory before its contents. */
  lemma WalkExact(h: Hasher, t: Tree, item: Item)
    requires t.Dir?
    ensures ParentsFirst(Emit(h, t, []))
    ensures item in Emit(h, t, []) <==>
              item.path != [] && Node(t, item.path).Some?
                  && item.entry == EntryOf(h, item.path[|item.path| - 1], Node(t, item.path).value)
  {
    hide Emit, ParentsFirst, EntryOf;
    EmitOrder(h, t, []);
    if item in Emit(h, t, []) {
      var p := EmitSound(h, t, [], item);
      assert [] + p == p;
    }
    if item.path != [] && Node(t, item.path).Some? {
      EmitComplete(h, t, [], item.path);
      assert [] + item.path == item.path;
    }
  }

  /** A file item of the walk is a file of the tree, whose blob is stored. */
  lemma FileItem(h: Hasher, objects: Store, t: Tree, item: Item)
    requires StoredRoot(h, objects, t) && item in Emit(h, t, [])
    ensures item.path != [] && Node(t, item.path).Some? && (item.entry.isDir <==> Node(t, item.path).value.Dir?)
    ensures !item.entry.isDir ==>
              Lookup(t, item.path) == Some(item.entry.hash) && item.entry.hash in objects
                  && objects[item.entry.hash].Blob?
    ensures item.entry.isDir ==> Lookup(t, item.path).None?
  {
    hide Emit, ParentsFirst;
    WalkExact(h, t, item);
    LookupIsNode(t, item.path);
    NodeStoredBelowRoot(h, objects, t, item.path);
  }

  lemma FileHasItem(h: Hasher, t: Tree, p: Path)
    requires t.Dir? && Lookup(t, p).Some?
    ensures exists item :: item in Emit(h, t, []) && item.path == p && !item.entry.isDir
  {
    hide Emit, ParentsFirst;
    LookupIsNode(t, p);
    WalkExact(h, t, Item(p, EntryOf(h, p[|p| - 1], Node(t, p).value)));
  }

  ghost predicate DistinctPaths(files: seq<Path>) {
    forall i, j | 0 <= i < j < |files| :: files[i] != files[j]
  }

  /** The matching files among the first i items. */
  ghost predicate MatchedSoFar(items: seq<Item>, i: nat, matches: Path -> bool, files: seq<Path>) {
    && i <= |items| && DistinctPaths(files)
    && forall p :: p in files <==> exists j :: 0 <= j < i && items[j].path == p && !items[j].entry.isDir && matches(p)
  }

  lemma MatchOne(items: seq<Item>, i: nat, matches: Path -> bool, files: seq<Path>)
    requires MatchedSoFar(items, i, matches, files) && i < |items| && ParentsFirst(items)
    ensures MatchedSoFar(items, i + 1, matches,
              if !items[i].entry.isDir && matches(items[i].path) then files + [items[i].path] else files)
  {
    forall j | 0 <= j < i ensures items[j].path != items[i].path {
      assert !Prefix(items[i].path, items[j].path);
    }
    assert forall j | 0 <= j < |files| :: files[j] in files;
  }

  lemma AllMatched(h: Hasher, objects: Store, t: Tree, items: seq<Item>, matches: Path -> bool, files: seq<Path>)
    requires StoredRoot(h, objects, t) && items == Emit(h, t, []) && MatchedSoFar(items, |items|, matches, files)
    ensures DistinctPaths(files) && forall p :: p in files <==> Lookup(t, p).Some? && matches(p)
  {
    hide Emit, Stored, Node, Lookup;
    forall p | p in files ensures Lookup(t, p).Some? && matches(p) {
      var j :| 0 <= j < |items| && items[j].path == p && !items[j].entry.isDir;
      FileItem(h, objects, t, items[j]);
    }
    forall p | Lookup(t, p).Some? && matches(p) ensures p in files {
      FileHasItem(h, t, p);
    }
  }

  // ------------------------------------------------ reported and actual paths

  ghost predicate DistinctStrings(s: seq<string>) {
    forall i, j | 0 <= i < j < |s| :: s[i] != s[j]
  }

  ghost predicate AreReported(places: seq<Path>, files: seq<string>) {
    |files| == |places| && forall i | 0 <= i < |files| :: files[i] == Reported(places[i])
  }

  /** What a reader expects of a file list: the full paths of exactly the files whose path
      matches, each once. */
  ghost predicate ListsFiles(t: Tree, matches: string -> bool, files: seq<string>) {
    && DistinctStrings(files)
    && (forall i | 0 <= i < |files| :: IsFileNamed(t, files[i]) && matches(files[i]))
    && (forall p | Lookup(t, p).Some? && matches(JoinPath(p)) :: JoinPath(p) in files)
  }

  ghost predicate IsFileNamed(t: Tree, f: string) {
    exists p :: Lookup(t, p).Some? && JoinPath(p) == f
  }

  /** Every file whose path matches, or is reported as one that matches, has a path that is
      lexically clean. */
  ghost predicate CleanWhereMatched(t: Tree, matches: string -> bool) {
    forall p | Lookup(t, p).Some? && (matches(Reported(p)) || matches(JoinPath(p))) :: LexicallyClean(p)
  }

  ghost predicate PlacesMatch(t: Tree, matches: string -> bool, places: seq<Path>) {
    && DistinctPaths(places)
    && forall p :: p in places <==> Lookup(t, p).Some? && matches(Reported(p))
  }

  lemma FileIsFilePath(t: Tree, p: Path)
    requires CanonicalRoot(t) && Lookup(t, p).Some?
    ensures FilePath(p)
  {
    LookupIsNode(t, p);
    NodeBelowRoot(t, p);
  }

  /** Where the matched files are clean, the list is right. */
  lemma CleanIsListed(t: Tree, matches: string -> bool, places: seq<Path>, files: seq<string>)
    requires CanonicalRoot(t) && PlacesMatch(t, matches, places) && AreReported(places, files)
    requires CleanWhereMatched(t, matches)
    ensures ListsFiles(t, matches, files)
  {
    hide Lookup, CanonicalRoot, Reported, JoinPath, FilePath, LexicallyClean;
    forall i | 0 <= i < |files|
      ensures files[i] == JoinPath(places[i]) && FilePath(places[i]) && Lookup(t, places[i]).Some? {
      assert places[i] in places;
      FileIsFilePath(t, places[i]);
      ReportedExact(places[i]);
    }
    forall i, j | 0 <= i < j < |files| ensures files[i] != files[j] {
      if files[i] == files[j] {
        JoinInjective(places[i], places[j]);
      }
    }
    forall p | Lookup(t, p).Some? && matches(JoinPath(p)) ensures JoinPath(p) in files {
      FileIsFilePath(t, p);
      ReportedExact(p);
      var i :| 0 <= i < |places| && places[i] == p;
      assert files[i] == JoinPath(p);
    }
  }

  /** A file that is reported under another name makes the list wrong: that name is no
      file, or it is listed twice. */
  lemma UncleanReported(t: Tree, matches: string -> bool, places: seq<Path>, files: seq<string>, p: Path)
    requires CanonicalRoot(t) && PlacesMatch(t, matches, places) && AreReported(places, files)
    requires ListsFiles(t, matches, files)
    requires Lookup(t, p).Some? && matches(Reported(p))
    ensures LexicallyClean(p)
  {
    hide Lookup, CanonicalRoot, Reported, JoinPath, FilePath, LexicallyClean;
    FileIsFilePath(t, p);
    var i :| 0 <= i < |places| && places[i] == p;
    var q :| Lookup(t, q).Some? && JoinPath(q) == files[i];
    FileIsFilePath(t, q);
    var c := ReportedAsIfClean(p);
    JoinInjective(c, q);
    var j :| 0 <= j < |places| && places[j] == q;
    assert files[j] == files[i];
    assert i == j;
  }

  /** A matching file that is not clean is missing from the list. */
  lemma UncleanMissing(t: Tree, matches: string -> bool, places: seq<Path>, files: seq<string>, p: Path)
    requires CanonicalRoot(t) && PlacesMatch(t, matches, places) && AreReported(places, files)
    requires ListsFiles(t, matches, files)
    requires Lookup(t, p).Some? && matches(JoinPath(p))
    ensures LexicallyClean(p)
  {
    hide Lookup, CanonicalRoot, Reported, JoinPath, FilePath, LexicallyClean;
    FileIsFilePath(t, p);
    var i :| 0 <= i < |files| && files[i] == JoinPath(p);
    assert places[i] in places;
    FileIsFilePath(t, places[i]);
    var c := ReportedAsIfClean(places[i]);
    JoinInjective(c, p);
  }

  /** The list is what a reader expects exactly when the paths concerned are lexically
      clean. */
  lemma ListedIffClean(t: Tree, matches: string -> bool, places: seq<Path>, files: seq<string>)
    requires CanonicalRoot(t) && PlacesMatch(t, matches, places) && AreReported(places, files)
    ensures ListsFiles(t, matches, files) <==> CleanWhereMatched(t, matches)
  {
    hide Lookup, CanonicalRoot, PlacesMatch, AreReported, ListsFiles, LexicallyClean;
    if CleanWhereMatched(t, matches) {
      CleanIsListed(t, matches, places, files);
    }
    if ListsFiles(t, matches, files) {
      forall p | Lookup(t, p).Some? && (matches(Reported(p)) || matches(JoinPath(p))) ensures LexicallyClean(p) {
        if matches(Reported(p)) {
          UncleanReported(t, matches, places, files, p);
        } else {
          UncleanMissing(t, matches, places, files, p);
        }
      }
    }
  }

  /** The walk reports an entry under its full path exactly when that path is lexically
      clean; entries with clean paths are reported under different paths. */
  lemma WalkReports(h: Hasher, t: Tree, items: seq<Item>, out: seq<Report>, i: nat)
    requires CanonicalRoot(t) && items == Emit(h, t, []) && AreReports(items, out) && i < |out|
    ensures out[i].entry == items[i].entry
    ensures out[i].path == JoinPath(items[i].path) <==> LexicallyClean(items[i].path)
    ensures forall j | 0 <= j < |out| && j != i && LexicallyClean(items[i].path) && LexicallyClean(items[j].path) ::
              out[j].path != out[i].path
  {
    hide Emit, CanonicalRoot, Node, Reported, JoinPath, LexicallyClean, EntryOf, FilePath;
    ItemPathOk(h, t, items[i]);
    ReportedExact(items[i].path);
    EmitOrder(h, t, []);
    forall j | 0 <= j < |out| && j != i && LexicallyClean(items[i].path) && LexicallyClean(items[j].path)
      ensures out[j].path != out[i].path
    {
      ItemPathOk(h, t, items[j]);
      ReportedExact(items[j].path);
      ItemsDiffer(items, i, j);
      if out[j].path == out[i].path {
        JoinInjective(items[i].path, items[j].path);
      }
    }
  }

  lemma ItemsDiffer(items: seq<Item>, i: nat, j: nat)
    requires ParentsFirst(items) && i < |items| && j < |items| && i != j
    ensures items[i].path != items[j].path
  {
    assert i < j ==> !Prefix(items[j].path, items[i].path);
    assert j < i ==> !Prefix(items[i].path, items[j].path);
  }

  lemma ItemPathOk(h: Hasher, t: Tree, item: Item)
    requires CanonicalRoot(t) && item in Emit(h, t, [])
    ensures FilePath(item.path) && t.Dir?
  {
    WalkExact(h, t, item);
    NodeBelowRoot(t, item.path);
  }

  /** GetTreeManifest: the joined paths that match, one for each file so reported, and the
      total size of these files. */
  method GetTreeManifest(repo: FileTreeRepo, root: WorkNode, matches: string -> bool, ghost tree: Tree)
    returns (size: int, files: seq<string>, ghost places: seq<Path>)
    requires repo.Valid() && CanonicalRoot(tree) && Opens(repo.hasher, repo.objects, root, tree)
    ensures PlacesMatch(tree, matches, places) && AreReported(places, files)
    ensures AreFiles(repo.objects, tree, places) && size == TotalSize(repo.objects, tree, places)
    ensures ListsFiles(tree, matches, files) <==> CleanWhereMatched(tree, matches)
  {
    hide Emit, StoreOk, Stored, CanonicalRoot, Node, Lookup, ParentsFirst, CollisionFree, Reported, Counted, ListsFiles,
      CleanWhereMatched, AreReports, PlacesMatch, AreReported, EntryOf, StoredRoot;
    ghost var matched := (p: Path) => matches(Reported(p));
    OpenedEntries(repo.hasher, repo.objects, root, tree);
    var reports, items := Walk(repo, root, tree);
    EmitOrder(repo.hasher, tree, []);
    size, files, places := 0, [], [];
    NothingCounted(repo.objects, tree, items, matched);
    for i := 0 to |items|
      invariant Counted(repo.objects, tree, items, i, matched, places, files, size)
    {
      FileItem(repo.hasher, repo.objects, tree, items[i]);
      CountOne(repo.objects, tree, items, reports, i, matched, places, files, size);
      if !reports[i].entry.isDir && matches(reports[i].path) {
        places := places + [items[i].path];
        files := files + [reports[i].path];
        size := size + repo.objects[reports[i].entry.hash].size;
      }
    }
    AllCounted(repo.hasher, repo.objects, tree, items, matches, places, files, size);
    ListedIffClean(tree, matches, places, files);
  }

  /** The matching files among the first i items, their reported paths and total size. */
  ghost predicate Counted(objects: Store, t: Tree, items: seq<Item>, i: nat, matched: Path -> bool, places: seq<Path>,
                          files: seq<string>, size: int) {
    && MatchedSoFar(items, i, matched, places) && AreReported(places, files)
    && AreFiles(objects, t, places) && size == TotalSize(objects, t, places)
  }

  lemma NothingCounted(objects: Store, t: Tree, items: seq<Item>, matched: Path -> bool)
    ensures Counted(objects, t, items, 0, matched, [], [], 0)
  {
  }

  lemma CountOne(objects: Store, t: Tree, items: seq<Item>, out: seq<Report>, i: nat, matched: Path -> bool,
                 places: seq<Path>,
                 files: seq<string>, size: int)
    requires Counted(objects, t, items, i, matched, places, files, size) && i < |items| && ParentsFirst(items)
    requires AreReports(items, out)
    requires !items[i].entry.isDir ==> Lookup(t, items[i].path) == Some(items[i].entry.hash)
                                       && items[i].entry.hash in objects && objects[items[i].entry.hash].Blob?
    ensures i < |out| && out[i] == ReportOf(items[i])
    ensures var item := items[i];
            if !item.entry.isDir && matched(item.path) then
              Counted(objects, t, items, i + 1, matched, places + [item.path], files + [out[i].path],
                      size + objects[item.entry.hash].size)
            else Counted(objects, t, items, i + 1, matched, places, files, size)
  {
    hide Lookup, Reported, MatchedSoFar, ParentsFirst;
    MatchOne(items, i, matched, places);
    if !items[i].entry.isDir && matched(items[i].path) {
      TotalSizeConcat(objects, t, places, items[i].path);
    }
  }

  lemma AllCounted(h: Hasher, objects: Store, t: Tree, items: seq<Item>, matches: string -> bool, places: seq<Path>,
                   files: seq<string>, size: int)
    requires StoredRoot(h, objects, t) && items == Emit(h, t, [])
    requires Counted(objects, t, items, |items|, (p: Path) => matches(Reported(p)), places, files, size)
    ensures PlacesMatch(t, matches, places)
    ensures AreReported(places, files) && AreFiles(objects, t, places) && size == TotalSize(objects, t, places)
  {
    hide Emit, Lookup, Reported, MatchedSoFar, StoredRoot;
    AllMatched(h, objects, t, items, (p: Path) => matches(Reported(p)), places);
  }

  /** Names of dots: AddLeaf accepts a/../b beside b. The tree is canonical, both files are
      reported as "b", and a list of all files is wrong. */
  lemma DotsInNames(x: Hash, y: Hash, places: seq<Path>, files: seq<string>)
    ensures var t := Dir(map["b" := File(x)]);
            var u := Put(t, ["a", "..", "b"], File(y));
            && CanonicalRoot(t) && CanonicalRoot(u) && CanAdd(t, ["a", "..", "b"])
            && Lookup(u, ["b"]) == Some(x) && Lookup(u, ["a", "..", "b"]) == Some(y)
            && Reported(["b"]) == Reported(["a", "..", "b"]) == "b"
            && (PlacesMatch(u, _ => true, places) && AreReported(places, files) ==> !ListsFiles(u, _ => true, files))
  {
    hide Reported;
    var p, q := ["a", "..", "b"], ["b"];
    var t := Dir(map["b" := File(x)]);
    var u := Put(t, p, File(y));
    assert NameOk("a") && NameOk("b") && NameOk("..");
    assert Canonical(t) && "b" in t.kids;
    PutCanonical(t, p, File(y));
    PutLookup(t, p, y, p);
    PutLookup(t, p, y, q);
    assert Lookup(t, q) == Some(x) by {
      assert q[1..] == [];
    }
    DotsReported();
    assert !LexicallyClean(p) by {
      assert p[1] == ".." && p[0] != "..";
    }
    assert !CleanWhereMatched(u, _ => true);
    if PlacesMatch(u, _ => true, places) && AreReported(places, files) {
      ListedIffClean(u, _ => true, places, files);
    }
  }

  lemma DotsReported()
    ensures Reported(["b"]) == "b" && Reported(["a", "..", "b"]) == "b"
  {
    var p := ["a", "..", "b"];
    assert p[..2] == ["a", ".."] && p[..2][..1] == ["a"] && p[..2][..1][..0] == [];
    ReportedIsReduced(p);
    ReportedIsReduced(["b"]);
    ReduceLast(p);
    ReduceLast(p[..2]);
    ReduceLast(["a"]);
    ReduceLast(["b"]);
    assert ["a"][..0] == [] && ["b"][..0] == [];
  }
}
