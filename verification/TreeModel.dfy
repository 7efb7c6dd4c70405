/** The abstract directory tree a root hash stands for: its files, its canonical stored
    form, and the updates that the work tree performs on it. */
module TreeModel {
  import opened Wrappers
  import opened Hashes
  import opened Order
  import opened Objects

  datatype Tree = File(blob: Hash) | Dir(kids: map<string, Tree>)

  /** The segments of a path, as strings.Split(path, "/") returns them. */
  type Path = seq<string>

  const EMPTY_DIR := Dir(map[])

  // ------------------------------------------------------------ files and nodes

  /** The abstraction: which blob, if any, a path names. */
  ghost function Lookup(t: Tree, p: Path): Option<Hash> {
    match t
    case File(b) => if p == [] then Some(b) else None
    case Dir(kids) => if p != [] && p[0] in kids then Lookup(kids[p[0]], p[1..]) else None
  }

  ghost function Node(t: Tree, p: Path): Option<Tree> {
    if p == [] then Some(t)
    else if t.Dir? && p[0] in t.kids then Node(t.kids[p[0]], p[1..])
    else None
  }

  lemma {:induction false} NodeConcat(t: Tree, p: Path, q: Path)
    ensures Node(t, p + q) == if Node(t, p).Some? then Node(Node(t, p).value, q) else None
  {
    if p == [] {
      assert p + q == q;
    } else {
      assert (p + q)[1..] == p[1..] + q;
      if t.Dir? && p[0] in t.kids {
        NodeConcat(t.kids[p[0]], p[1..], q);
      }
    }
  }

  lemma {:induction false} LookupIsNode(t: Tree, p: Path)
    ensures Lookup(t, p) == match Node(t, p) { case Some(File(b)) => Some(b) case _ => None }
  {
    if p != [] && t.Dir? && p[0] in t.kids {
      LookupIsNode(t.kids[p[0]], p[1..]);
    }
  }

  // ------------------------------------------------------------- canonical form

  ghost predicate NameOk(name: string) {
    name != "" && '/' !in name
  }

  /** No empty directory, and every name is a non-empty segment. */
  ghost predicate Canonical(t: Tree) {
    t.Dir? ==> t.kids != map[] && forall n | n in t.kids :: NameOk(n) && Canonical(t.kids[n])
  }

  /** The root alone may be an empty directory. */
  ghost predicate CanonicalRoot(t: Tree) {
    t.Dir? && forall n | n in t.kids :: NameOk(n) && Canonical(t.kids[n])
  }

  // --------------------------------------------------------------- stored form

  ghost function HashOf(h: Hasher, t: Tree): Hash
    decreases t, 1, 0
  {
    match t
    case File(b) => b
    case Dir(kids) => TreeHash(h, EntriesOf(h, t, SortedNames(kids.Keys)), DIR_MODE)
  }

  ghost function EntriesOf(h: Hasher, t: Tree, names: seq<string>): (s: seq<TreeEntry>)
    requires t.Dir? && forall n | n in names :: n in t.kids
    ensures |s| == |names|
    decreases t, 0, |names|
  {
    if names == [] then []
    else
      var kid := t.kids[names[0]];
      [TreeEntry(names[0], kid.Dir?, HashOf(h, kid))] + EntriesOf(h, t, names[1..])
  }

  ghost function EntryOf(h: Hasher, name: string, t: Tree): TreeEntry {
    TreeEntry(name, t.Dir?, HashOf(h, t))
  }

  /** The sub objects of a directory: one entry per child, in order of name. */
  ghost function Subs(h: Hasher, t: Tree): seq<TreeEntry>
    requires t.Dir?
  {
    EntriesOf(h, t, SortedNames(t.kids.Keys))
  }

  ghost function RowOf(h: Hasher, t: Tree): FileTree
    requires t.Dir?
  {
    TreeNode(HashOf(h, t), Subs(h, t), DIR_MODE)
  }

  /** The hash a root has: an empty root has the empty hash, not that of an empty node. */
  ghost function RootHash(h: Hasher, t: Tree): Hash
    requires t.Dir?
  {
    if t.kids == map[] then EMPTY_HASH else HashOf(h, t)
  }

  /** Every node of t is in the store. */
  ghost predicate Stored(h: Hasher, objects: Store, t: Tree) {
    match t
    case File(b) => b in objects && objects[b].Blob?
    case Dir(kids) =>
      && HashOf(h, t) in objects && objects[HashOf(h, t)] == RowOf(h, t)
      && forall n | n in kids :: Stored(h, objects, kids[n])
  }

  ghost predicate StoredRoot(h: Hasher, objects: Store, t: Tree) {
    && t.Dir?
    && (t.kids == map[] || Stored(h, objects, t))
  }

  /** The root hash `hash` stands for t in this store. */
  ghost predicate Represents(h: Hasher, objects: Store, hash: Hash, t: Tree) {
    CanonicalRoot(t) && StoredRoot(h, objects, t) && hash == RootHash(h, t)
  }

  /** Snapshots persist: what could be read stays readable while the store grows. */
  lemma {:induction false} StoredPersists(h: Hasher, before: Store, after: Store, t: Tree)
    requires Grows(before, after) && Stored(h, before, t)
    ensures Stored(h, after, t)
  {
    if t.Dir? {
      forall n | n in t.kids ensures Stored(h, after, t.kids[n]) {
        StoredPersists(h, before, after, t.kids[n]);
      }
    }
  }

  lemma SnapshotsPersist(h: Hasher, before: Store, after: Store, hash: Hash, t: Tree)
    requires Grows(before, after) && Represents(h, before, hash, t)
    ensures Represents(h, after, hash, t)
  {
    if t.kids != map[] {
      StoredPersists(h, before, after, t);
    }
  }

  // ----------------------------------------- entry lists determine directories

  lemma {:induction false} EntriesAt(h: Hasher, t: Tree, names: seq<string>, i: nat)
    requires t.Dir? && (forall n | n in names :: n in t.kids) && i < |names|
    ensures EntriesOf(h, t, names)[i] == EntryOf(h, names[i], t.kids[names[i]])
  {
    if i > 0 {
      EntriesAt(h, t, names[1..], i - 1);
    }
  }

  /** The entry list of a directory holds exactly one entry for each child. */
  lemma SubsMembers(h: Hasher, t: Tree)
    requires t.Dir?
    ensures forall e: TreeEntry :: e in Subs(h, t) <==> e.name in t.kids && e == EntryOf(h, e.name, t.kids[e.name])
    ensures |Subs(h, t)| == |SortedNames(t.kids.Keys)|
    ensures forall i | 0 <= i < |Subs(h, t)| :: Subs(h, t)[i].name == SortedNames(t.kids.Keys)[i]
  {
    var names, s := SortedNames(t.kids.Keys), Subs(h, t);
    forall i | 0 <= i < |s| ensures s[i] == EntryOf(h, names[i], t.kids[names[i]]) {
      EntriesAt(h, t, names, i);
    }
    forall e: TreeEntry | e.name in t.kids && e == EntryOf(h, e.name, t.kids[e.name]) ensures e in s {
      var i :| 0 <= i < |names| && names[i] == e.name;
      assert s[i] == e;
    }
  }

  /** A list in order of name with one entry per child, and no other, is the entry list. */
  lemma SubsUnique(h: Hasher, t: Tree, s: seq<TreeEntry>)
    requires t.Dir? && StrictlySorted(Names(s))
    requires forall e | e in s :: e.name in t.kids && e == EntryOf(h, e.name, t.kids[e.name])
    requires forall n | n in t.kids :: exists e :: e in s && e.name == n
    ensures s == Subs(h, t)
  {
    var names := SortedNames(t.kids.Keys);
    forall n ensures n in Names(s) <==> n in names {
      if n in Names(s) {
        var i :| 0 <= i < |s| && Names(s)[i] == n;
        assert s[i] in s;
      }
      if n in names {
        var e :| e in s && e.name == n;
        var i :| 0 <= i < |s| && s[i] == e;
        assert Names(s)[i] == n;
      }
    }
    StrictlySortedUnique(Names(s), names);
    forall i | 0 <= i < |s| ensures s[i] == Subs(h, t)[i] {
      assert s[i] in s;
      EntriesAt(h, t, names, i);
    }
  }
}
