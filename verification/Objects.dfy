/** Rows of the object table, their hashes, and the insert-if-absent store (models/tree.go). */
module Objects {
  import opened Wrappers
  import opened Hashes
  import opened Order

  type FileMode = nat

  const DIR_MODE: FileMode := 0x4000  // filemode.Dir, octal 40000

  datatype TreeEntry = TreeEntry(name: string, isDir: bool, hash: Hash)

  /** A row of the table: a blob, or a tree node with its sub objects. */
  datatype FileTree =
    | Blob(hash: Hash, checkSum: Hash, size: int, mode: FileMode)
    | TreeNode(hash: Hash, subObjects: seq<TreeEntry>, mode: FileMode)

  /** What calculateHash feeds to the hasher: the object type, then the checksum or the
      (hash, name) pairs of the entries, then the mode. The isDir flag is not hashed. */
  datatype Content =
    | BlobContent(checkSum: Hash, mode: FileMode)
    | TreeContent(entries: seq<(Hash, string)>, mode: FileMode)

  type Hasher = Content -> Hash

  /** The assumption about MD5: different contents never collide, no digest is empty. */
  ghost predicate CollisionFree(h: Hasher) {
    && (forall c, d :: h(c) == h(d) ==> c == d)
    && (forall c :: h(c) != EMPTY_HASH)
  }

  function Pairs(entries: seq<TreeEntry>): (r: seq<(Hash, string)>)
    ensures |r| == |entries| && forall i | 0 <= i < |r| :: r[i] == (entries[i].hash, entries[i].name)
  {
    seq(|entries|, i requires 0 <= i < |entries| => (entries[i].hash, entries[i].name))
  }

  function TreeHash(h: Hasher, entries: seq<TreeEntry>, mode: FileMode): Hash {
    h(TreeContent(Pairs(entries), mode))
  }

  ghost function BlobHash(h: Hasher, checkSum: Hash, mode: FileMode): Hash {
    h(BlobContent(checkSum, mode))
  }

  type Store = map<Hash, FileTree>

  ghost predicate RowOk(h: Hasher, objects: Store, row: FileTree) {
    match row
    case Blob(hash, checkSum, _, mode) => hash == BlobHash(h, checkSum, mode)
    case TreeNode(hash, entries, mode) =>
      && hash == TreeHash(h, entries, mode)
      && forall e | e in entries :: e.hash in objects && (objects[e.hash].TreeNode? <==> e.isDir)
  }

  /** Rows sit under their own hash, and a tree node's children are stored. */
  ghost predicate StoreOk(h: Hasher, objects: Store) {
    forall k | k in objects :: objects[k].hash == k && RowOk(h, objects, objects[k])
  }

  /** Every row of the smaller store is still there, unchanged. */
  ghost predicate Grows(before: Store, after: Store) {
    forall k | k in before :: k in after && after[k] == before[k]
  }

  /** A row is as good as stored when an equal one, up to the size of a blob, is. */
  ghost predicate Holds(objects: Store, row: FileTree) {
    && row.hash in objects
    && (row.TreeNode? ==> objects[row.hash] == row)
    && (row.Blob? ==> objects[row.hash].Blob?)
  }

  lemma RowStaysOk(h: Hasher, before: Store, after: Store, row: FileTree)
    requires Grows(before, after) && RowOk(h, before, row)
    ensures RowOk(h, after, row)
  {
  }

  /** Two good tree rows with one hash are one row: equal pairs come with equal flags,
      since the stored child decides the flag. */
  lemma SameHashSameRow(h: Hasher, objects: Store, a: FileTree, b: FileTree)
    requires CollisionFree(h) && RowOk(h, objects, a) && RowOk(h, objects, b) && a.hash == b.hash
    ensures a.Blob? <==> b.Blob?
    ensures a.TreeNode? ==> a == b
  {
    if a.TreeNode? && b.TreeNode? {
      assert TreeContent(Pairs(a.subObjects), a.mode) == TreeContent(Pairs(b.subObjects), b.mode);
      var p, q := Pairs(a.subObjects), Pairs(b.subObjects);
      assert |a.subObjects| == |b.subObjects|;
      forall i | 0 <= i < |a.subObjects| ensures a.subObjects[i] == b.subObjects[i] {
        assert p[i] == q[i];
        assert a.subObjects[i] in a.subObjects && b.subObjects[i] in b.subObjects;
      }
      assert a.subObjects == b.subObjects;
    }
  }

  /** The same object, up to the recorded size of a blob. */
  ghost predicate SameContent(a: FileTree, b: FileTree) {
    match a
    case Blob(hash, checkSum, _, mode) => b.Blob? && b.hash == hash && b.checkSum == checkSum && b.mode == mode
    case TreeNode(_, _, _) => a == b
  }

  /** Insert, then Get: under the hash of a row that was inserted, whether or not the hash
      was taken, the same content is found. */
  lemma InsertThenGet(h: Hasher, before: Store, row: FileTree, after: Store)
    requires CollisionFree(h) && StoreOk(h, before) && RowOk(h, before, row)
    requires after == if row.hash in before then before else before[row.hash := row]
    ensures row.hash in after && SameContent(row, after[row.hash])
  {
    if row.hash in before {
      SameHashSameRow(h, before, row, before[row.hash]);
    }
  }

  class FileTreeRepo {
    const hasher: Hasher
    var objects: Store

    ghost predicate Valid()
      reads this
    {
      CollisionFree(hasher) && StoreOk(hasher, objects)
    }

    constructor (hasher: Hasher)
      requires CollisionFree(hasher)
      ensures Valid() && this.hasher == hasher && objects == map[]
    {
      this.hasher, objects := hasher, map[];
    }

    /** Insert ... on conflict do nothing. */
    method Insert(row: FileTree)
      requires Valid() && RowOk(hasher, objects, row)
      modifies this
      ensures Valid() && Grows(old(objects), objects) && Holds(objects, row)
      ensures objects == if row.hash in old(objects) then old(objects) else old(objects)[row.hash := row]
    {
      if row.hash in objects {
        SameHashSameRow(hasher, objects, row, objects[row.hash]);
      } else {
        ghost var before := objects;
        objects := objects[row.hash := row];
        forall k | k in objects ensures objects[k].hash == k && RowOk(hasher, objects, objects[k]) {
          RowStaysOk(hasher, before, objects, objects[k]);
        }
      }
    }

    /** Get: the row under a hash; in a good store its content has that hash. */
    method Get(hash: Hash) returns (r: Result<FileTree>)
      ensures r.Ok? <==> hash in objects
      ensures r.Ok? ==>
                r.value == objects[hash] && (Valid() ==> r.value.hash == hash && RowOk(hasher, objects, r.value))
      ensures r.Err? ==> r.error == ObjectMissing
    {
      if hash !in objects {
        return Err(ObjectMissing);
      }
      return Ok(objects[hash]);
    }
  }

  // ------------------------------------------------------------ SortSubObjects

  ghost function Names(s: seq<TreeEntry>): (r: seq<string>)
    ensures |r| == |s| && forall i | 0 <= i < |s| :: r[i] == s[i].name
  {
    seq(|s|, i requires 0 <= i < |s| => s[i].name)
  }

  ghost predicate DistinctNames(s: seq<TreeEntry>) {
    forall i, j | 0 <= i < j < |s| :: s[i].name != s[j].name
  }

  ghost predicate SortedByName(s: seq<TreeEntry>) {
    forall i, j | 0 <= i < j < |s| :: !Less(s[j].name, s[i].name)
  }

  function InsertByName(e: TreeEntry, s: seq<TreeEntry>): (r: seq<TreeEntry>)
    ensures |r| == |s| + 1 && forall x :: x in r <==> x == e || x in s
  {
    if s == [] || Less(e.name, s[0].name) then [e] + s
    else [s[0]] + InsertByName(e, s[1..])
  }

  lemma {:induction false} InsertKeepsSorted(e: TreeEntry, s: seq<TreeEntry>)
    requires SortedByName(s)
    ensures SortedByName(InsertByName(e, s))
  {
    if s == [] {
    } else if Less(e.name, s[0].name) {
      forall j | 0 <= j < |s| ensures !Less(s[j].name, e.name) {
        if Less(s[j].name, e.name) {
          LessTransitive(s[j].name, e.name, s[0].name);
          LessIrreflexive(s[0].name);
        }
      }
    } else {
      var tail := InsertByName(e, s[1..]);
      InsertKeepsSorted(e, s[1..]);
      forall i | 0 <= i < |tail| ensures !Less(tail[i].name, s[0].name) {
        assert tail[i] in tail;
      }
    }
  }

  lemma {:induction false} InsertKeepsEntries(e: TreeEntry, s: seq<TreeEntry>)
    ensures multiset(InsertByName(e, s)) == multiset{e} + multiset(s)
  {
    if s != [] && !Less(e.name, s[0].name) {
      InsertKeepsEntries(e, s[1..]);
      assert s == [s[0]] + s[1..];
    }
  }

  lemma {:induction false} InsertKeepsDistinct(e: TreeEntry, s: seq<TreeEntry>)
    requires DistinctNames(s) && forall x | x in s :: x.name != e.name
    ensures DistinctNames(InsertByName(e, s))
  {
    if s == [] || Less(e.name, s[0].name) {
      assert forall i | 0 <= i < |s| :: s[i] in s;
    } else {
      var tail := InsertByName(e, s[1..]);
      InsertKeepsDistinct(e, s[1..]);
      forall i | 0 <= i < |tail| ensures tail[i].name != s[0].name {
        assert tail[i] in tail;
        assert tail[i] in s[1..] ==> exists j :: 0 < j < |s| && s[j] == tail[i];
        assert s[0] in s;
      }
    }
  }

  lemma DistinctPrefix(s: seq<TreeEntry>, e: TreeEntry)
    requires DistinctNames(s + [e])
    ensures DistinctNames(s) && forall x | x in s :: x.name != e.name
  {
    var all := s + [e];
    assert forall i | 0 <= i < |s| :: all[i] == s[i];
    assert all[|s|] == e;
  }

  lemma NothingToSort()
    ensures SortedByName([]) && DistinctNames([])
  {
  }

  /** In order and without repeated names means strictly in order. */
  lemma SortedDistinctIsStrict(s: seq<TreeEntry>)
    requires SortedByName(s) && DistinctNames(s)
    ensures StrictlySorted(Names(s))
  {
    forall i, j | 0 <= i < j < |s| ensures Less(s[i].name, s[j].name) {
      LessTotal(s[i].name, s[j].name);
    }
  }

  /** SortSubObjects: the same entries in order of name. */
  method SortSubObjects(subObjects: seq<TreeEntry>) returns (sorted: seq<TreeEntry>)
    ensures SortedByName(sorted) && multiset(sorted) == multiset(subObjects)
    ensures |sorted| == |subObjects| && forall x :: x in sorted <==> x in subObjects
    ensures DistinctNames(subObjects) ==> StrictlySorted(Names(sorted))
  {
    hide DistinctNames, SortedByName;
    NothingToSort();
    sorted := [];
    for i := 0 to |subObjects|
      invariant SortedByName(sorted) && multiset(sorted) == multiset(subObjects[..i])
      invariant |sorted| == i && forall x :: x in sorted <==> x in subObjects[..i]
      invariant DistinctNames(subObjects[..i]) ==> DistinctNames(sorted)
    {
      assert subObjects[..i + 1] == subObjects[..i] + [subObjects[i]];
      InsertKeepsSorted(subObjects[i], sorted);
      InsertKeepsEntries(subObjects[i], sorted);
      if DistinctNames(subObjects[..i + 1]) {
        DistinctPrefix(subObjects[..i], subObjects[i]);
        InsertKeepsDistinct(subObjects[i], sorted);
      }
      sorted := InsertByName(subObjects[i], sorted);
    }
    assert subObjects[..|subObjects|] == subObjects;
    if DistinctNames(subObjects) {
      SortedDistinctIsStrict(sorted);
    }
  }

  /** NewTreeNode: the entries in order of name, under the hash of that content. */
  method NewTreeNode(h: Hasher, mode: FileMode, subObjects: seq<TreeEntry>) returns (row: FileTree)
    ensures row.TreeNode? && row.mode == mode && row.hash == TreeHash(h, row.subObjects, mode)
    ensures forall e :: e in row.subObjects <==> e in subObjects
    ensures DistinctNames(subObjects) ==> StrictlySorted(Names(row.subObjects))
  {
    var sorted := SortSubObjects(subObjects);
    row := TreeNode(TreeHash(h, sorted, mode), sorted, mode);
  }
}
