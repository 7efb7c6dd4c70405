/** Nodes opened from the store and the edits of a single directory
    (versionmgr/tree_node.go and the direct-entry helpers of versionmgr/worktree.go). */
module WorkNodes {
  import opened Wrappers
  import opened Hashes
  import opened Order
  import opened Objects
  import opened TreeModel

  /** The TreeNode of versionmgr: an entry and the row it was opened on. */
  datatype WorkNode = WorkNode(entry: TreeEntry, treeNode: FileTree)

  const EMPTY_ROOT: FileTree := FileTree.TreeNode(EMPTY_HASH, [], 0)

  function RootEntry(hash: Hash): TreeEntry {
    TreeEntry("", true, hash)
  }

  /** NewTreeNode: the unnamed entry with the empty hash opens the shared empty root, any
      other entry opens the row under its hash. */
  function OpenNode(objects: Store, entry: TreeEntry): Result<WorkNode> {
    if entry.hash == EMPTY_HASH && entry.name == "" then Ok(WorkNode(entry, EMPTY_ROOT))
    else if entry.hash in objects then Ok(WorkNode(entry, objects[entry.hash]))
    else Err(ObjectMissing)
  }

  /** node was opened on the directory t. */
  ghost predicate Opens(h: Hasher, objects: Store, node: WorkNode, t: Tree) {
    && StoredRoot(h, objects, t) && node.entry.hash == RootHash(h, t)
    && node.treeNode == if t.kids == map[] then EMPTY_ROOT else RowOf(h, t)
  }

  lemma OpenStored(h: Hasher, objects: Store, entry: TreeEntry, t: Tree)
    requires CollisionFree(h) && StoredRoot(h, objects, t) && entry.hash == RootHash(h, t)
    requires t.kids == map[] ==> entry.name == ""
    ensures OpenNode(objects, entry).Ok? && OpenNode(objects, entry).value.entry == entry
    ensures Opens(h, objects, OpenNode(objects, entry).value, t)
  {
  }

  /** SubEntry: the first entry with the name. */
  function SubEntry(subObjects: seq<TreeEntry>, name: string): Option<TreeEntry> {
    if subObjects == [] then None
    else if subObjects[0].name == name then Some(subObjects[0])
    else SubEntry(subObjects[1..], name)
  }

  lemma {:induction false} SubEntryFinds(subObjects: seq<TreeEntry>, name: string)
    ensures SubEntry(subObjects, name).Some? ==>
              SubEntry(subObjects, name).value in subObjects && SubEntry(subObjects, name).value.name == name
    ensures SubEntry(subObjects, name).None? ==> forall e | e in subObjects :: e.name != name
  {
    if subObjects != [] && subObjects[0].name != name {
      SubEntryFinds(subObjects[1..], name);
      assert subObjects == [subObjects[0]] + subObjects[1..];
    }
  }

  lemma OpenedEntries(h: Hasher, objects: Store, node: WorkNode, t: Tree)
    requires Opens(h, objects, node, t)
    ensures t.Dir? && node.treeNode.TreeNode? && node.treeNode.subObjects == Subs(h, t)
    ensures StoredRoot(h, objects, t)
  {
    if t.kids == map[] {
      assert SortedNames({}) == [];
      assert t.kids.Keys == {};
    }
  }

  /** A lookup in an opened node is a lookup among the children. */
  lemma SubEntryIsKid(h: Hasher, objects: Store, node: WorkNode, t: Tree, name: string)
    requires Opens(h, objects, node, t)
    ensures node.treeNode.TreeNode?
    ensures SubEntry(node.treeNode.subObjects, name)
         == if name in t.kids then Some(EntryOf(h, name, t.kids[name])) else None
  {
    OpenedEntries(h, objects, node, t);
    SubsMembers(h, t);
    SubEntryFinds(node.treeNode.subObjects, name);
    if name in t.kids {
      assert EntryOf(h, name, t.kids[name]) in node.treeNode.subObjects;
    }
  }

  // ------------------------------------------------------ direct-entry helpers

  /** Entries with distinct names, one per child, sort to the entry list. */
  lemma RowIsDirectory(h: Hasher, t: Tree, entries: seq<TreeEntry>, row: FileTree)
    requires t.Dir? && DistinctNames(entries)
    requires forall e :: e in entries <==> e.name in t.kids && e == EntryOf(h, e.name, t.kids[e.name])
    requires row.TreeNode? && row.mode == DIR_MODE && row.hash == TreeHash(h, row.subObjects, DIR_MODE)
    requires StrictlySorted(Names(row.subObjects)) && forall e :: e in row.subObjects <==> e in entries
    ensures row == RowOf(h, t)
  {
    forall n | n in t.kids ensures exists e :: e in row.subObjects && e.name == n {
      assert EntryOf(h, n, t.kids[n]) in row.subObjects;
    }
    SubsUnique(h, t, row.subObjects);
  }

  /** The row of a directory whose children are stored is a good row. */
  lemma DirectoryRowOk(h: Hasher, objects: Store, t: Tree)
    requires t.Dir? && StoreOk(h, objects) && forall n | n in t.kids :: Stored(h, objects, t.kids[n])
    ensures RowOk(h, objects, RowOf(h, t))
  {
    SubsMembers(h, t);
    forall e | e in Subs(h, t) ensures e.hash in objects && (objects[e.hash].TreeNode? <==> e.isDir) {
      assert Stored(h, objects, t.kids[e.name]);
    }
  }

  /** Insert the row of t, whose children are stored already. */
  method InsertDirectory(repo: FileTreeRepo, row: FileTree, ghost t: Tree)
    requires repo.Valid() && t.Dir? && row == RowOf(repo.hasher, t)
    requires forall n | n in t.kids :: Stored(repo.hasher, repo.objects, t.kids[n])
    modifies repo
    ensures repo.Valid() && Grows(old(repo.objects), repo.objects)
    ensures Stored(repo.hasher, repo.objects, t)
    ensures repo.objects.Keys <= old(repo.objects).Keys + {row.hash}
  {
    DirectoryRowOk(repo.hasher, repo.objects, t);
    repo.Insert(row);
    forall n | n in t.kids ensures Stored(repo.hasher, repo.objects, t.kids[n]) {
      StoredPersists(repo.hasher, old(repo.objects), repo.objects, t.kids[n]);
    }
  }

  lemma SubsDistinct(h: Hasher, t: Tree)
    requires t.Dir?
    ensures DistinctNames(Subs(h, t))
  {
    SubsMembers(h, t);
    var names := SortedNames(t.kids.Keys);
    forall i, j | 0 <= i < j < |Subs(h, t)| ensures Subs(h, t)[i].name != Subs(h, t)[j].name {
      LessIrreflexive(names[i]);
    }
  }

  /** Children opens every entry, so it fails when a child's row is missing. */
  method Children(repo: FileTreeRepo, node: WorkNode) returns (r: Result<seq<WorkNode>>)
    requires node.treeNode.TreeNode?
    ensures (forall e: TreeEntry | e in node.treeNode.subObjects :: e.hash in repo.objects) ==> r.Ok?
    ensures r.Ok? ==> |r.value| == |node.treeNode.subObjects|
    ensures r.Ok? ==>
              forall i | 0 <= i < |r.value| :: OpenNode(repo.objects, node.treeNode.subObjects[i]) == Ok(r.value[i])
  {
    var subs := node.treeNode.subObjects;
    var children: seq<WorkNode> := [];
    for i := 0 to |subs|
      invariant |children| == i
      invariant forall j | 0 <= j < i :: OpenNode(repo.objects, subs[j]) == Ok(children[j])
    {
      var child := OpenNode(repo.objects, subs[i]);
      if child.Err? {
        return Err(child.error);
      }
      children := children + [child.value];
    }
    return Ok(children);
  }

  ghost function WithKid(t: Tree, name: string, kid: Tree): (r: Tree)
    requires t.Dir?
    ensures r.Dir?
  {
    Dir(t.kids[name := kid])
  }

  ghost function WithoutKid(t: Tree, name: string): (r: Tree)
    requires t.Dir?
    ensures r.Dir?
  {
    Dir(t.kids - {name})
  }

  /** AppendDirectEntry: add one child; a name that is taken is an error. */
  method AppendDirectEntry(repo: FileTreeRepo, node: WorkNode, treeEntry: TreeEntry, ghost t: Tree, ghost kid: Tree)
    returns (r: Result<FileTree>)
    requires repo.Valid() && Opens(repo.hasher, repo.objects, node, t)
    requires treeEntry == EntryOf(repo.hasher, treeEntry.name, kid) && Stored(repo.hasher, repo.objects, kid)
    modifies repo
    ensures repo.Valid() && Grows(old(repo.objects), repo.objects)
    ensures r == if treeEntry.name in t.kids then Err(EntryExists)
                 else Ok(RowOf(repo.hasher, WithKid(t, treeEntry.name, kid)))
    ensures r.Ok? ==> Stored(repo.hasher, repo.objects, WithKid(t, treeEntry.name, kid))
    ensures r.Err? ==> repo.objects == old(repo.objects)
    ensures r.Ok? ==> repo.objects.Keys <= old(repo.objects).Keys + {r.value.hash}
  {
    hide Stored, StoreOk, CollisionFree, Subs, DistinctNames;
    OpenedEntries(repo.hasher, repo.objects, node, t);
    KidsOpen(repo.hasher, repo.objects, t);
    NamesAreKids(repo.hasher, t, treeEntry.name);
    var children := Children(repo, node);
    assert children.Ok?;
    var taken := HasName(children.value, treeEntry.name);
    if taken {
      return Err(EntryExists);
    }
    AppendedEntries(repo.hasher, t, treeEntry, kid);
    var row := NewTreeNode(repo.hasher, DIR_MODE, node.treeNode.subObjects + [treeEntry]);
    RowIsDirectory(repo.hasher, WithKid(t, treeEntry.name, kid), node.treeNode.subObjects + [treeEntry], row);
    InsertDirectory(repo, row, WithKid(t, treeEntry.name, kid));
    return Ok(row);
  }

  method HasName(nodes: seq<WorkNode>, name: string) returns (taken: bool)
    ensures taken <==> exists i :: 0 <= i < |nodes| && nodes[i].entry.name == name
  {
    for i := 0 to |nodes|
      invariant forall j | 0 <= j < i :: nodes[j].entry.name != name
    {
      if nodes[i].entry.name == name {
        return true;
      }
    }
    return false;
  }

  lemma NamesAreKids(h: Hasher, t: Tree, name: string)
    requires t.Dir?
    ensures name in t.kids <==> exists i :: 0 <= i < |Subs(h, t)| && Subs(h, t)[i].name == name
  {
    SubsMembers(h, t);
    if name in t.kids {
      assert EntryOf(h, name, t.kids[name]) in Subs(h, t);
    }
    if i :| 0 <= i < |Subs(h, t)| && Subs(h, t)[i].name == name {
      assert Subs(h, t)[i] in Subs(h, t);
    }
  }

  lemma AppendedEntries(h: Hasher, t: Tree, e: TreeEntry, kid: Tree)
    requires t.Dir? && e.name !in t.kids && e == EntryOf(h, e.name, kid)
    ensures DistinctNames(Subs(h, t) + [e])
    ensures var t' := WithKid(t, e.name, kid);
            forall x :: x in Subs(h, t) + [e] <==> x.name in t'.kids && x == EntryOf(h, x.name, t'.kids[x.name])
  {
    hide Subs, EntryOf;
    SubsMembers(h, t);
    SubsDistinct(h, t);
    assert forall i | 0 <= i < |Subs(h, t)| :: Subs(h, t)[i] in Subs(h, t);
  }

  lemma KidsOpen(h: Hasher, objects: Store, t: Tree)
    requires StoredRoot(h, objects, t)
    ensures forall n | n in t.kids :: Stored(h, objects, t.kids[n])
    ensures forall e: TreeEntry | e in Subs(h, t) :: e.hash in objects
  {
    SubsMembers(h, t);
    forall e | e in Subs(h, t) ensures e.hash in objects {
      assert Stored(h, objects, t.kids[e.name]);
    }
  }

  /** The entries whose name is not `name`. */
  ghost function WithoutName(entries: seq<TreeEntry>, name: string): (r: seq<TreeEntry>)
    ensures forall e :: e in r <==> e in entries && e.name != name
  {
    if entries == [] then []
    else if entries[0].name == name then WithoutName(entries[1..], name)
    else [entries[0]] + WithoutName(entries[1..], name)
  }

  lemma {:induction false} WithoutNameDistinct(entries: seq<TreeEntry>, name: string)
    requires DistinctNames(entries)
    ensures DistinctNames(WithoutName(entries, name))
  {
    if entries != [] {
      var tail := WithoutName(entries[1..], name);
      WithoutNameDistinct(entries[1..], name);
      forall i | 0 <= i < |tail| ensures tail[i].name != entries[0].name {
        assert tail[i] in tail;
      }
    }
  }

  lemma {:induction false} WithoutNameConcat(a: seq<TreeEntry>, b: seq<TreeEntry>, name: string)
    ensures WithoutName(a + b, name) == WithoutName(a, name) + WithoutName(b, name)
  {
    if a == [] {
      assert a + b == b;
    } else {
      assert (a + b)[1..] == a[1..] + b;
      WithoutNameConcat(a[1..], b, name);
    }
  }

  lemma RemainingEntries(h: Hasher, t: Tree, name: string)
    requires t.Dir?
    ensures DistinctNames(WithoutName(Subs(h, t), name))
    ensures var t' := WithoutKid(t, name);
            && (forall x :: x in WithoutName(Subs(h, t), name) <==>
                  x.name in t'.kids && x == EntryOf(h, x.name, t'.kids[x.name]))
            && (WithoutName(Subs(h, t), name) == [] <==> t'.kids == map[])
  {
    SubsMembers(h, t);
    SubsDistinct(h, t);
    var rest, t' := WithoutName(Subs(h, t), name), WithoutKid(t, name);
    WithoutNameDistinct(Subs(h, t), name);
    assert rest != [] ==> rest[0] in rest && rest[0].name in t'.kids;
    forall n | n in t'.kids ensures EntryOf(h, n, t.kids[n]) in rest {
      assert EntryOf(h, n, t.kids[n]) in Subs(h, t);
    }
  }

  method FilterName(subs: seq<TreeEntry>, name: string) returns (subObjects: seq<TreeEntry>)
    ensures subObjects == WithoutName(subs, name)
  {
    subObjects := [];
    for i := 0 to |subs|
      invariant subObjects == WithoutName(subs[..i], name)
    {
      assert subs[..i + 1] == subs[..i] + [subs[i]];
      WithoutNameConcat(subs[..i], [subs[i]], name);
      if subs[i].name != name {
        subObjects := subObjects + [subs[i]];
      }
    }
    assert subs[..|subs|] == subs;
  }

  /** DeleteDirectEntry: drop the child; nothing is stored for a directory left empty. */
  method DeleteDirectEntry(repo: FileTreeRepo, node: WorkNode, name: string, ghost t: Tree)
    returns (r: Option<FileTree>)
    requires repo.Valid() && Opens(repo.hasher, repo.objects, node, t)
    modifies repo
    ensures repo.Valid() && Grows(old(repo.objects), repo.objects)
    ensures r == if WithoutKid(t, name).kids == map[] then None else Some(RowOf(repo.hasher, WithoutKid(t, name)))
    ensures r.Some? ==> Stored(repo.hasher, repo.objects, WithoutKid(t, name))
    ensures r.None? ==> repo.objects == old(repo.objects)
    ensures r.Some? ==> repo.objects.Keys <= old(repo.objects).Keys + {r.value.hash}
  {
    hide Stored, StoreOk, CollisionFree, Subs, DistinctNames;
    OpenedEntries(repo.hasher, repo.objects, node, t);
    RemainingEntries(repo.hasher, t, name);
    KidsOpen(repo.hasher, repo.objects, t);
    var subObjects := FilterName(node.treeNode.subObjects, name);
    if |subObjects| == 0 {
      return None;
    }
    var row := NewTreeNode(repo.hasher, node.treeNode.mode, subObjects);
    RowIsDirectory(repo.hasher, WithoutKid(t, name), subObjects, row);
    InsertDirectory(repo, row, WithoutKid(t, name));
    return Some(row);
  }

  lemma ReplacedMembers(s: seq<TreeEntry>, index: nat, e: TreeEntry)
    requires DistinctNames(s) && index < |s| && s[index].name == e.name
    ensures DistinctNames(s[index := e])
    ensures forall x :: x in s[index := e] <==> x == e || (x in s && x.name != e.name)
  {
    var s' := s[index := e];
    assert s'[index] == e;
    forall x | x in s && x.name != e.name ensures x in s' {
      var i :| 0 <= i < |s| && s[i] == x;
      assert s'[i] == x;
    }
    forall x | x in s' && x != e ensures x in s && x.name != e.name {
      var i :| 0 <= i < |s'| && s'[i] == x;
      assert s[i] == x;
    }
  }

  lemma ReplacedEntries(h: Hasher, t: Tree, index: nat, e: TreeEntry, kid: Tree)
    requires t.Dir? && index < |Subs(h, t)| && Subs(h, t)[index].name == e.name && e == EntryOf(h, e.name, kid)
    ensures DistinctNames(Subs(h, t)[index := e])
    ensures var t' := WithKid(t, e.name, kid);
            forall x :: x in Subs(h, t)[index := e] <==> x.name in t'.kids && x == EntryOf(h, x.name, t'.kids[x.name])
  {
    hide Subs, EntryOf, DistinctNames;
    SubsMembers(h, t);
    SubsDistinct(h, t);
    ReplacedMembers(Subs(h, t), index, e);
  }

  /** ReplaceSubTreeEntry, for a name that is there: put another child in its place. */
  method ReplaceSubTreeEntry(repo: FileTreeRepo, node: WorkNode, treeEntry: TreeEntry, ghost t: Tree, ghost kid: Tree)
    returns (r: Result<FileTree>)
    requires repo.Valid() && Opens(repo.hasher, repo.objects, node, t)
    requires treeEntry == EntryOf(repo.hasher, treeEntry.name, kid) && Stored(repo.hasher, repo.objects, kid)
    requires treeEntry.name in t.kids
    modifies repo
    ensures repo.Valid() && Grows(old(repo.objects), repo.objects)
    ensures r == Ok(RowOf(repo.hasher, WithKid(t, treeEntry.name, kid)))
    ensures Stored(repo.hasher, repo.objects, WithKid(t, treeEntry.name, kid))
    ensures repo.objects.Keys <= old(repo.objects).Keys + {r.value.hash}
  {
    hide Stored, StoreOk, CollisionFree, Subs, DistinctNames;
    OpenedEntries(repo.hasher, repo.objects, node, t);
    NamesAreKids(repo.hasher, t, treeEntry.name);
    KidsOpen(repo.hasher, repo.objects, t);
    var subs := node.treeNode.subObjects;
    var index := 0;
    while subs[index].name != treeEntry.name
      invariant 0 <= index < |subs|
      invariant forall i | 0 <= i < index :: subs[i].name != treeEntry.name
      decreases |subs| - index
    {
      index := index + 1;
    }
    ReplacedEntries(repo.hasher, t, index, treeEntry, kid);
    var row := NewTreeNode(repo.hasher, node.treeNode.mode, subs[index := treeEntry]);
    RowIsDirectory(repo.hasher, WithKid(t, treeEntry.name, kid), subs[index := treeEntry], row);
    InsertDirectory(repo, row, WithKid(t, treeEntry.name, kid));
    return Ok(row);
  }
}
