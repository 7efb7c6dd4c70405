/** What becomes of the change of a relabelled directory: in a merge the source files the
    directory as a blob or reports a conflict on it, in a revert it looks for a blob that is
    not there. */
module DirectoryChanges {
  import opened Wrappers
  import opened Hashes
  import opened Order
  import opened Objects
  import opened TreeModel
  import opened TreeUpdates
  import opened WorkTrees
  import opened WorkTreeRuns
  import opened Paths
  import opened Changes
  import opened ChangeJoin
  import opened FileMerge
  import opened Patches
  import opened TrieChanges
  import opened ThreeWay
  import opened Reverts

  // ------------------------------------------------------ a directory filed as a blob

  ghost predicate SameHashes(h: Hasher, x: Tree, y: Tree)
    requires x.Dir? && y.Dir?
  {
    x.kids.Keys == y.kids.Keys && forall n | n in x.kids :: HashOf(h, x.kids[n]) == HashOf(h, y.kids[n])
  }

  lemma {:induction false} SamePairs(h: Hasher, x: Tree, y: Tree, names: seq<string>)
    requires x.Dir? && y.Dir? && SameHashes(h, x, y) && forall n | n in names :: n in x.kids
    ensures Pairs(EntriesOf(h, x, names)) == Pairs(EntriesOf(h, y, names))
  {
    forall i | 0 <= i < |names| ensures Pairs(EntriesOf(h, x, names))[i] == Pairs(EntriesOf(h, y, names))[i] {
      EntriesAt(h, x, names, i);
      EntriesAt(h, y, names, i);
    }
  }

  lemma SameHashesSameHash(h: Hasher, x: Tree, y: Tree)
    requires x.Dir? && y.Dir? && SameHashes(h, x, y)
    ensures HashOf(h, x) == HashOf(h, y)
  {
    SamePairs(h, x, y, SortedNames(x.kids.Keys));
  }

  /** u is v with some of its directories filed as blobs under their hashes. */
  ghost predicate Filed(h: Hasher, u: Tree, v: Tree) {
    match u
    case File(b) => HashOf(h, v) == b
    case Dir(kids) => v.Dir? && v.kids.Keys == kids.Keys && forall n | n in kids :: Filed(h, kids[n], v.kids[n])
  }

  lemma {:induction false} FiledSelf(h: Hasher, t: Tree)
    ensures Filed(h, t, t)
  {
    if t.Dir? {
      forall n | n in t.kids ensures Filed(h, t.kids[n], t.kids[n]) {
        FiledSelf(h, t.kids[n]);
      }
    }
  }

  /** The hash of a tree does not tell a directory from a blob with its hash. */
  lemma {:induction false} FiledSameHash(h: Hasher, u: Tree, v: Tree)
    requires Filed(h, u, v)
    ensures HashOf(h, u) == HashOf(h, v)
    ensures u.Dir? ==> RootHash(h, u) == RootHash(h, v)
  {
    if u.Dir? {
      forall n | n in u.kids ensures HashOf(h, u.kids[n]) == HashOf(h, v.kids[n]) {
        FiledSameHash(h, u.kids[n], v.kids[n]);
      }
      SameHashesSameHash(h, u, v);
      assert u.kids == map[] <==> v.kids == map[] by {
        assert u.kids == map[] <==> u.kids.Keys == {};
        assert v.kids == map[] <==> v.kids.Keys == {};
      }
    }
  }

  /** A path that is reached without passing a blob is reached alike. */
  lemma {:induction false} FiledNode(h: Hasher, u: Tree, v: Tree, p: Path)
    requires Filed(h, u, v) && Free(u, p)
    ensures Free(v, p) && (Node(u, p).Some? <==> Node(v, p).Some?)
    decreases |p|
  {
    hide HashOf;
    if |p| == 1 {
      assert p[1..] == [];
    } else if |p| > 1 && p[0] in u.kids {
      FiledNode(h, u.kids[p[0]], v.kids[p[0]], p[1..]);
    }
  }

  lemma FiledKid(h: Hasher, u: Tree, v: Tree, n: string, x: Tree, y: Tree)
    requires u.Dir? && Filed(h, u, v) && Filed(h, x, y)
    ensures v.Dir? && Filed(h, Dir(u.kids[n := x]), Dir(v.kids[n := y]))
  {
    hide HashOf;
  }

  lemma {:induction false} FiledPut(h: Hasher, u: Tree, v: Tree, p: Path, x: Tree, y: Tree)
    requires Filed(h, u, v) && Free(u, p) && Filed(h, x, y)
    ensures Filed(h, Put(u, p, x), Put(v, p, y))
    decreases |p|
  {
    hide HashOf;
    if p != [] {
      var n := p[0];
      var k, l := if n in u.kids then u.kids[n] else EMPTY_DIR, if n in v.kids then v.kids[n] else EMPTY_DIR;
      FiledSelf(h, EMPTY_DIR);
      if |p| == 1 {
        assert p[1..] == [] && Put(k, p[1..], x) == x && Put(l, p[1..], y) == y;
      } else {
        FiledPut(h, k, l, p[1..], x, y);
      }
      FiledKid(h, u, v, n, Put(k, p[1..], x), Put(l, p[1..], y));
    }
  }

  lemma {:induction false} FiledDel(h: Hasher, u: Tree, v: Tree, p: Path)
    requires Filed(h, u, v) && p != [] && Free(u, p) && Node(u, p).Some? && Node(v, p).Some?
    ensures Filed(h, Del(u, p), Del(v, p))
    decreases |p|
  {
    hide HashOf;
    if |p| > 1 {
      FiledDel(h, u.kids[p[0]], v.kids[p[0]], p[1..]);
      var k, l := Del(u.kids[p[0]], p[1..]), Del(v.kids[p[0]], p[1..]);
      assert k.kids == map[] <==> k.kids.Keys == {};
      assert l.kids == map[] <==> l.kids.Keys == {};
    }
  }

  /** The tree with a directory filed as a blob has the root hash of the tree with the
      directory in its place. */
  lemma FiledHash(h: Hasher, t: Tree, p: Path, x: Tree)
    requires Free(t, p)
    ensures HashOf(h, Put(t, p, File(HashOf(h, x)))) == HashOf(h, Put(t, p, x))
  {
    hide HashOf;
    FiledSelf(h, t);
    FiledPut(h, t, t, p, File(HashOf(h, x)), x);
    FiledSameHash(h, Put(t, p, File(HashOf(h, x))), Put(t, p, x));
  }

  // ----------------------------------------------------- whole runs with directories

  /** t has a directory with this hash at p. */
  ghost predicate HasDir(h: Hasher, t: Tree, p: Path, hash: Hash) {
    IsDir(t, p) && HashOf(h, Node(t, p).value) == hash
  }

  /** What a change puts at its path: the whole directory of a side where it names one. */
  ghost function Content(h: Hasher, s: Tree, t: Tree, n: PathNode): Tree {
    if HasDir(h, s, n.path, n.hash) then Node(s, n.path).value
    else if HasDir(h, t, n.path, n.hash) then Node(t, n.path).value
    else File(n.hash)
  }

  /** The change on a tree, with whole directories of the two sides. */
  ghost function WholeTree(h: Hasher, s: Tree, t: Tree, v: Tree, c: Change): Option<Tree>
    requires c.Action().Ok?
  {
    match c.Action().value
    case Insert =>
      var p := c.to.value.path;
      if CanAdd(v, p) then Some(Put(v, p, Content(h, s, t, c.to.value))) else None
    case Delete => ChangeTree(v, c)
    case Modify =>
      var p := c.to.value.path;
      if Free(v, p) && Node(v, p).Some? then Some(Put(v, p, Content(h, s, t, c.to.value))) else None
  }

  ghost function ReplayWhole(h: Hasher, s: Tree, t: Tree, v: Tree, cs: seq<Change>): Option<Tree>
    requires ActionsOk(cs)
  {
    if cs == [] then Some(v)
    else
      var w := ReplayWhole(h, s, t, v, cs[..|cs| - 1]);
      if w.None? then None else WholeTree(h, s, t, w.value, cs[|cs| - 1])
  }

  lemma FiledChange(h: Hasher, s: Tree, t: Tree, u: Tree, v: Tree, c: Change)
    requires c.Action().Ok? && Filed(h, u, v) && ChangeTree(u, c).Some?
    ensures WholeTree(h, s, t, v, c).Some? && Filed(h, ChangeTree(u, c).value, WholeTree(h, s, t, v, c).value)
  {
    hide HashOf, Filed, Put, Del, Free, Node;
    if c.to.Some? {
      var n := c.to.value;
      ContentFiled(h, s, t, n);
      FiledNode(h, u, v, n.path);
      FiledPut(h, u, v, n.path, File(n.hash), Content(h, s, t, n));
    } else {
      var p := c.from.value.path;
      FiledNode(h, u, v, p);
      FiledDel(h, u, v, p);
    }
  }

  lemma ContentFiled(h: Hasher, s: Tree, t: Tree, n: PathNode)
    ensures Filed(h, File(n.hash), Content(h, s, t, n))
  {
  }

  /** Whatever list of changes the source applies, filing directories as blobs: if it gets
      through, so it does with whole directories in their place, and the root hash is that of
      the tree with the whole directories. */
  lemma {:induction false} FiledRun(h: Hasher, s: Tree, t: Tree, a: Tree, cs: seq<Change>)
    requires ActionsOk(cs) && Replay(a, cs).Some?
    ensures ReplayWhole(h, s, t, a, cs).Some?
    ensures var u, v := Replay(a, cs).value, ReplayWhole(h, s, t, a, cs).value;
            Filed(h, u, v) && (u.Dir? ==> RootHash(h, u) == RootHash(h, v))
    decreases |cs|
  {
    hide HashOf, Filed, ChangeTree, WholeTree, RootHash;
    if cs == [] {
      FiledSelf(h, a);
    } else {
      var n := |cs| - 1;
      FiledRun(h, s, t, a, cs[..n]);
      FiledChange(h, s, t, Replay(a, cs[..n]).value, ReplayWhole(h, s, t, a, cs[..n]).value, cs[n]);
    }
    FiledSameHash(h, Replay(a, cs).value, ReplayWhole(h, s, t, a, cs).value);
  }

  /** Nothing below the path of a directory that is filed as a blob is a file of the tree. */
  lemma FiledHides(h: Hasher, t: Tree, p: Path, x: Tree, q: Path)
    requires Free(t, p) && p < q
    ensures Lookup(Put(t, p, File(HashOf(h, x))), q) == None
  {
    PutLookup(t, p, HashOf(h, x), q);
  }

  /** Once the row of the directory around it is stored with the wrong flag, no later store
      has the tree with the directory in its place. */
  lemma FiledPoisons(h: Hasher, before: Store, after: Store, t: Tree, n: string, x: Tree)
    requires t.Dir? && x.Dir? && Grows(before, after)
    requires var bad := Put(t, [n], File(HashOf(h, x)));
             HashOf(h, bad) in before && before[HashOf(h, bad)] == RowOf(h, bad)
    ensures !Stored(h, after, Put(t, [n], x))
  {
    var bad, good := Put(t, [n], File(HashOf(h, x))), Put(t, [n], x);
    FiledHash(h, t, [n], x);
    SubsMembers(h, bad);
    SubsMembers(h, good);
    assert EntryOf(h, n, x) in Subs(h, good);
    assert EntryOf(h, n, x) !in Subs(h, bad);
  }

  /** With the row of the right directory in the store before, insert-if-absent leaves it
      there, and its flags are right. */
  lemma FiledLucky(h: Hasher, objects: Store, t: Tree, n: string, x: Tree)
    requires t.Dir? && x.Dir? && Stored(h, objects, Put(t, [n], x))
    ensures var bad := Put(t, [n], File(HashOf(h, x)));
            HashOf(h, bad) in objects && objects[HashOf(h, bad)] == RowOf(h, Put(t, [n], x))
  {
    FiledHash(h, t, [n], x);
  }

  // ------------------------------------------------------ a directory in a conflict

  /** Where both sides have relabelled one directory differently, the join has a conflict on
      the directory, whatever its files. */
  lemma RelabelledConflict(h: Hasher, objects: Store, a: Tree, s: Tree, t: Tree, left: seq<Change>, right: seq<Change>,
                           p: Path)
    returns (i: nat)
    requires CanonicalRoot(a) && StoredRoot(h, objects, a) && StoredRoot(h, objects, s) && StoredRoot(h, objects, t)
    requires IsTrieDiff(h, a, s, "", left) && IsTrieDiff(h, a, t, "", right) && p != []
    requires DirectoryHere(h, a, s, "", p) && DirectoryHere(h, a, t, "", p)
    requires HashOf(h, Node(s, p).value) != HashOf(h, Node(t, p).value)
    requires JoinAll(left, right).Ok?
    ensures var ps := JoinAll(left, right).value;
            i < |ps| && ps[i].Key() == JoinPath(p) && ps[i].isConflict && ps[i].left.Some? && ps[i].right.Some?
            && MergeOne(ps[i], None) == Err(Conflict)
  {
    hide CanonicalRoot, StoredRoot, RelabelledAt, Visible, IsTrieDiff, JoinPath, HashOf, JoinAll, IsJoin, DirectoryHere;
    var ps := JoinAll(left, right).value;
    DiffIsSorted(h, a, s, left);
    DiffIsSorted(h, a, t, right);
    JoinIsExact(left, right);
    DirectoryReported(h, objects, a, s, "", left, p);
    DirectoryReported(h, objects, a, t, "", right, p);
    var x, y, z := Node(a, p).value, Node(s, p).value, Node(t, p).value;
    i := ConflictAt(left, right, ps, DirectoryChange(h, x, y, p), DirectoryChange(h, x, z, p));
  }

  lemma DiffIsSorted(h: Hasher, x: Tree, y: Tree, d: seq<Change>)
    requires IsTrieDiff(h, x, y, "", d)
    ensures SortedChanges(d)
  {
  }

  /** Two changes at one path that conflict are a pair of the join. */
  lemma ConflictAt(left: seq<Change>, right: seq<Change>, ps: seq<ChangePair>, l: Change, r: Change) returns (i: nat)
    requires SortedChanges(left) && SortedChanges(right) && IsJoin(left, right, ps) && l in left && r in right
    requires l.Key() == r.Key() && IsConflict(l, r) == Ok(true)
    ensures i < |ps| && ps[i] == ChangePair(Some(l), Some(r), true)
  {
    hide SortedChanges, IsJoin, IsConflict;
    i := PairAtKey(left, right, ps, l, l.Key(), true);
    FindIn(right, r);
    PairHere(left, right, ps, ps[i]);
  }

  // --------------------------------------------------------------- small instances

  ghost function OneFile(n: string, b: Hash): Tree {
    Dir(map[n := File(b)])
  }

  lemma OneEntry(h: Hasher, n: string, b: Hash)
    ensures Subs(h, OneFile(n, b)) == [TreeEntry(n, false, b)]
  {
    var t, e := OneFile(n, b), TreeEntry(n, false, b);
    assert Names([e]) == [n];
    assert t.kids[n] == File(b);
    SubsUnique(h, t, [e]);
  }

  /** A directory with one file is relabelled when the file is renamed. */
  lemma RenameRelabels(h: Hasher, m: string, n: string, b: Hash)
    requires CollisionFree(h) && m != n
    ensures Relabelled(h, OneFile(m, b), OneFile(n, b)) && HashOf(h, OneFile(m, b)) != HashOf(h, OneFile(n, b))
  {
    OneEntry(h, m, b);
    OneEntry(h, n, b);
    var x, y := OneFile(m, b), OneFile(n, b);
    var c, d := TreeContent(Pairs(Subs(h, x)), DIR_MODE), TreeContent(Pairs(Subs(h, y)), DIR_MODE);
    assert Pairs(Subs(h, x))[0] == (b, m) && Pairs(Subs(h, y))[0] == (b, n);
    assert HashOf(h, x) == h(c) && HashOf(h, y) == h(d);
    assert KidHashes(h, x)[0] == b && KidHashes(h, y)[0] == b;
    assert KidHashes(h, x) == KidHashes(h, y);
  }

  /** A tree with a directory d. */
  ghost function WithD(d: Tree): Tree {
    Dir(map["d" := d])
  }

  /** A tree with a file c and a directory d. */
  ghost function WithCD(c: Hash, d: Tree): Tree {
    Dir(map["c" := File(c), "d" := d])
  }

  lemma SmallCanonical(c: Hash, n: string, b: Hash)
    requires NameOk(n)
    ensures CanonicalRoot(WithD(OneFile(n, b))) && CanonicalRoot(WithCD(c, OneFile(n, b)))
  {
    assert n in OneFile(n, b).kids && Canonical(OneFile(n, b));
    assert NameOk("c") && NameOk("d");
  }

  lemma SmallLookup(c: Hash, n: string, b: Hash, p: Path)
    ensures Lookup(WithD(OneFile(n, b)), p) == if p == ["d", n] then Some(b) else None
    ensures Lookup(WithCD(c, OneFile(n, b)), p) ==
            if p == ["d", n] then Some(b) else if p == ["c"] then Some(c) else None
  {
    if p != [] {
      LookupInDir(map["d" := OneFile(n, b)], p);
      LookupInDir(map["c" := File(c), "d" := OneFile(n, b)], p);
      LookupInDir(map[n := File(b)], p[1..]);
      assert p == [p[0]] + p[1..];
      if |p| > 1 {
        assert p[1..] == [p[1]] + p[2..] && p == [p[0], p[1]] + p[2..];
      }
    }
  }

  /** What is reported between trees that differ by such a rename. */
  lemma SmallChange(h: Hasher, c: Hash, m: string, n: string, b: Hash, p: Path)
    requires CollisionFree(h) && m != n
    ensures var d := DirectoryChange(h, OneFile(m, b), OneFile(n, b), ["d"]);
      && TrieChange(h, WithD(OneFile(m, b)), WithD(OneFile(n, b)), p) == (if p == ["d"] then Some(d) else None)
      && TrieChange(h, WithCD(c, OneFile(m, b)), WithCD(c, OneFile(n, b)), p) == (if p == ["d"] then Some(d) else None)
  {
    hide Relabelled, HashOf;
    RenameRelabels(h, m, n, b);
    if p != [] {
      assert p == [p[0]] + p[1..];
    }
  }

  lemma SmallFileChange(h: Hasher, c: Hash, c': Hash, d: Tree, p: Path)
    requires c != c' && d.Dir?
    ensures TrieChange(h, WithCD(c, d), WithCD(c', d), p) ==
            if p == ["c"] then Some(Change(Some(PathNode(["c"], c)), Some(PathNode(["c"], c')))) else None
  {
    hide Relabelled, HashOf;
    if p != [] {
      assert p == [p[0]] + p[1..];
    }
  }

  lemma OneChange(h: Hasher, x: Tree, y: Tree, prefix: string, c: Change)
    requires FilePath(c.At()) && prefix <= c.Key()
    requires forall p :: TrieChange(h, x, y, p) == if p == c.At() then Some(c) else None
    ensures IsTrieDiff(h, x, y, prefix, [c])
  {
    hide TrieChange;
    assert Keys([c]) == [c.Key()];
    forall e: Change ensures e in [c] <==> IsTrieChange(h, x, y, e) && prefix <= e.Key() {
      if IsTrieChange(h, x, y, e) {
        assert TrieChange(h, x, y, e.At()) == Some(e);
      }
    }
  }

  /** A merge that ends in a wrong tree: one side renames the only file of a directory, the
      other changes a file that sorts before the directory. The files can be merged, and the
      result should have the renamed file. The changes to be applied are those of the file
      and of the directory; filed as a blob, the directory loses its file, under the root hash
      of the tree that is right. */
  lemma WrongMerge(h: Hasher, c: Hash, c': Hash, b: Hash, resolver: Resolver)
    requires CollisionFree(h) && c != c'
    ensures var x, y := OneFile("x", b), OneFile("y", b);
      var a, s, t, m, u := WithCD(c, x), WithCD(c, y), WithCD(c', x), WithCD(c', y), WithCD(c', File(HashOf(h, y)));
      var file, dir := Change(Some(PathNode(["c"], c)), Some(PathNode(["c"], c'))), DirectoryChange(h, x, y, ["d"]);
      && CanMerge(a, s, t, resolver) && IsMerge(a, s, t, resolver, m) && Lookup(m, ["d", "y"]) == Some(b)
      && !TreesAlign(h, a, s, t) && IsTrieDiff(h, a, s, "", [dir]) && IsTrieDiff(h, a, t, "", [file])
      && JoinAll([dir], [file]) == Ok([ChangePair(None, Some(file), false), ChangePair(Some(dir), None, false)])
      && ActionsOk([file, dir]) && Replay(a, [file, dir]) == Some(u)
      && Lookup(u, ["d", "y"]) == None && RootHash(h, u) == RootHash(h, m)
  {
    hide HashOf, TrieChange, IsTrieDiff, JoinAll, Replay, Lookup, CanonicalRoot, Relabelled;
    WrongMergeFiles(c, c', b, resolver);
    WrongMergeDiffs(h, c, c', b);
    WrongMergeEnds(h, c, c', b);
  }

  lemma WrongMergeFiles(c: Hash, c': Hash, b: Hash, resolver: Resolver)
    ensures var x, y := OneFile("x", b), OneFile("y", b);
      var a, s, t, m := WithCD(c, x), WithCD(c, y), WithCD(c', x), WithCD(c', y);
      CanMerge(a, s, t, resolver) && IsMerge(a, s, t, resolver, m) && Lookup(m, ["d", "y"]) == Some(b)
  {
    hide Lookup, CanonicalRoot, WithCD, OneFile;
    var x, y := OneFile("x", b), OneFile("y", b);
    var a, s, t, m := WithCD(c, x), WithCD(c, y), WithCD(c', x), WithCD(c', y);
    SmallCanonical(c', "y", b);
    forall p
      ensures MergedFile(FilesOf(a), FilesOf(s), FilesOf(t), resolver, p) == Ok(Lookup(m, p))
      ensures Lookup(m, p).Some? <==> p == ["d", "y"] || p == ["c"]
      ensures Lookup(a, p).Some? <==> p == ["d", "x"] || p == ["c"]
      ensures MergedFiles(FilesOf(a), FilesOf(s), FilesOf(t), resolver)(p) == Lookup(m, p)
    {
      SmallLookup(c, "x", b, p);
      SmallLookup(c, "y", b, p);
      SmallLookup(c', "x", b, p);
      SmallLookup(c', "y", b, p);
    }
    SmallLookup(c', "y", b, ["d", "y"]);
    NothingAbove(FilesOf(a), MergedFiles(FilesOf(a), FilesOf(s), FilesOf(t), resolver));
  }

  lemma NothingAbove(f: Files, g: Files)
    requires forall p | f(p).Some? :: p == ["d", "x"] || p == ["c"]
    requires forall p | g(p).Some? :: p == ["d", "y"] || p == ["c"]
    ensures Completable(f, g)
  {
    forall p, q | g(p).Some? && p < q ensures f(q).None? && g(q).None? {
      assert q[..|p|] == p && q[0] == p[0];
    }
  }

  lemma WrongMergeDiffs(h: Hasher, c: Hash, c': Hash, b: Hash)
    requires CollisionFree(h) && c != c'
    ensures var x, y := OneFile("x", b), OneFile("y", b);
      var a, s, t := WithCD(c, x), WithCD(c, y), WithCD(c', x);
      var file, dir := Change(Some(PathNode(["c"], c)), Some(PathNode(["c"], c'))), DirectoryChange(h, x, y, ["d"]);
      && !TreesAlign(h, a, s, t) && IsTrieDiff(h, a, s, "", [dir]) && IsTrieDiff(h, a, t, "", [file])
      && JoinAll([dir], [file]) == Ok([ChangePair(None, Some(file), false), ChangePair(Some(dir), None, false)])
  {
    hide HashOf, TrieChange, IsTrieDiff, Relabelled, JoinAll, Less;
    var x, y := OneFile("x", b), OneFile("y", b);
    var a, s, t := WithCD(c, x), WithCD(c, y), WithCD(c', x);
    var file, dir := Change(Some(PathNode(["c"], c)), Some(PathNode(["c"], c'))), DirectoryChange(h, x, y, ["d"]);
    RenameRelabels(h, "x", "y", b);
    assert RelabelledAt(h, Some(a), Some(s), ["d"]) by {
      KidNode(a, "d");
      KidNode(s, "d");
    }
    forall p ensures TrieChange(h, a, s, p) == if p == ["d"] then Some(dir) else None {
      SmallChange(h, c, "x", "y", b, p);
    }
    OneChange(h, a, s, "", dir);
    forall p ensures TrieChange(h, a, t, p) == if p == ["c"] then Some(file) else None {
      SmallFileChange(h, c, c', x, p);
    }
    OneChange(h, a, t, "", file);
    FileThenDirectory(dir, file);
  }

  lemma KidNode(t: Tree, n: string)
    requires t.Dir? && n in t.kids
    ensures Node(t, [n]) == Some(t.kids[n])
  {
    assert [n][1..] == [];
  }

  lemma FileThenDirectory(dir: Change, file: Change)
    requires dir.Key() == "d" && file.Key() == "c"
    ensures JoinAll([dir], [file]) == Ok([ChangePair(None, Some(file), false), ChangePair(Some(dir), None, false)])
  {
    assert Less("c", "d") && !Less("d", "c");
    assert [file][1..] == [] && [dir][1..] == [];
    var first, second := ChangePair(None, Some(file), false), ChangePair(Some(dir), None, false);
    assert JoinAll([], []) == Ok([]);
    assert [second] + [] == [second] && [first] + [second] == [first, second];
    assert JoinAll([dir], []) == Ok([second]);
  }

  lemma WrongMergeEnds(h: Hasher, c: Hash, c': Hash, b: Hash)
    ensures var x, y := OneFile("x", b), OneFile("y", b);
      var a, m, u := WithCD(c, x), WithCD(c', y), WithCD(c', File(HashOf(h, y)));
      var file, dir := Change(Some(PathNode(["c"], c)), Some(PathNode(["c"], c'))), DirectoryChange(h, x, y, ["d"]);
      && ActionsOk([file, dir]) && Replay(a, [file, dir]) == Some(u)
      && Lookup(u, ["d", "y"]) == None && RootHash(h, u) == RootHash(h, m)
  {
    hide HashOf;
    var x, y := OneFile("x", b), OneFile("y", b);
    var a, m, u, t := WithCD(c, x), WithCD(c', y), WithCD(c', File(HashOf(h, y))), WithCD(c', x);
    var file, dir := Change(Some(PathNode(["c"], c)), Some(PathNode(["c"], c'))), DirectoryChange(h, x, y, ["d"]);
    PutKid(a, "c", File(c'));
    PutKid(t, "d", File(HashOf(h, y)));
    PutKid(t, "d", y);
    assert a.kids["c" := File(c')] == t.kids;
    assert t.kids["d" := File(HashOf(h, y))] == u.kids && t.kids["d" := y] == m.kids;
    KidNode(a, "c");
    KidNode(t, "d");
    assert ChangeTree(a, file) == Some(t) && ChangeTree(t, dir) == Some(u);
    ReplayNothing(u);
    ReplayCons(t, dir, []);
    ReplayCons(a, file, [dir]);
    assert [dir] + [] == [dir] && [file] + [dir] == [file, dir];
    FiledHides(h, t, ["d"], y, ["d", "y"]);
    FiledHash(h, t, ["d"], y);
  }

  lemma PutKid(t: Tree, n: string, x: Tree)
    requires t.Dir?
    ensures Put(t, [n], x) == Dir(t.kids[n := x]) && Free(t, [n])
  {
    assert [n][1..] == [];
  }

  /** A merge that is refused although the files can be merged: both sides rename the only
      file of a directory, to different names. */
  lemma WrongConflict(h: Hasher, b: Hash)
    requires CollisionFree(h)
    ensures var x, y, z := OneFile("x", b), OneFile("y", b), OneFile("z", b);
      var a, s, t := WithD(x), WithD(y), WithD(z);
      var l, r := DirectoryChange(h, x, y, ["d"]), DirectoryChange(h, x, z, ["d"]);
      && CanMerge(a, s, t, None)
      && IsTrieDiff(h, a, s, "", [l]) && IsTrieDiff(h, a, t, "", [r])
      && JoinAll([l], [r]) == Ok([ChangePair(Some(l), Some(r), true)])
      && MergeOne(ChangePair(Some(l), Some(r), true), None) == Err(Conflict)
  {
    hide HashOf, TrieChange, IsTrieDiff, Relabelled, Lookup, JoinAll, WithD, OneFile;
    var x, y, z := OneFile("x", b), OneFile("y", b), OneFile("z", b);
    var a, s, t := WithD(x), WithD(y), WithD(z);
    var l, r := DirectoryChange(h, x, y, ["d"]), DirectoryChange(h, x, z, ["d"]);
    forall p
      ensures MergedFile(FilesOf(a), FilesOf(s), FilesOf(t), None, p).Ok?
      ensures MergedFiles(FilesOf(a), FilesOf(s), FilesOf(t), None)(p).Some? <==> p == ["d", "y"] || p == ["d", "z"]
      ensures Lookup(a, p).Some? <==> p == ["d", "x"]
      ensures TrieChange(h, a, s, p) == if p == ["d"] then Some(l) else None
      ensures TrieChange(h, a, t, p) == if p == ["d"] then Some(r) else None
    {
      SmallLookup(b, "x", b, p);
      SmallLookup(b, "y", b, p);
      SmallLookup(b, "z", b, p);
      SmallChange(h, b, "x", "y", b, p);
      SmallChange(h, b, "x", "z", b, p);
    }
    OneChange(h, a, s, "", l);
    OneChange(h, a, t, "", r);
    RenameRelabels(h, "y", "z", b);
    OneJoin(l, r);
  }

  lemma OneJoin(l: Change, r: Change)
    requires l.Key() == r.Key() && IsConflict(l, r) == Ok(true)
    ensures JoinAll([l], [r]) == Ok([ChangePair(Some(l), Some(r), true)])
  {
    assert [l][1..] == [] && [r][1..] == [];
    var pair := ChangePair(Some(l), Some(r), true);
    assert JoinAll([], []) == Ok([]) && [pair] + [] == [pair];
  }

  /** A revert that fails although the files could be taken back: the only file of the
      directory below the prefix was renamed. */
  lemma WrongRevert(h: Hasher, b: Hash)
    requires CollisionFree(h)
    ensures var x, y := OneFile("x", b), OneFile("y", b);
      var base, cur, dir := WithD(x), WithD(y), DirectoryChange(h, x, y, ["d"]);
      && Dirty(FilesOf(base), FilesOf(cur), Below("d"))
      && Completable(FilesOf(cur), Spliced(FilesOf(base), FilesOf(cur), Below("d")))
      && IsTrieDiff(h, base, cur, "d", [dir]) && AllTakeBackOk([dir]) && TakeBackFrom(base, cur, [dir], 0) == None
      && !CanRevert(h, base, cur, "d")
  {
    hide HashOf, TrieChange, IsTrieDiff, Relabelled, Lookup, WithD, OneFile, TakeBackFrom, RelabelledAt;
    var x, y := OneFile("x", b), OneFile("y", b);
    var base, cur, dir := WithD(x), WithD(y), DirectoryChange(h, x, y, ["d"]);
    forall p
      ensures Lookup(base, p).Some? <==> p == ["d", "x"]
      ensures Lookup(cur, p).Some? <==> p == ["d", "y"]
      ensures TrieChange(h, base, cur, p) == if p == ["d"] then Some(dir) else None
    {
      SmallLookup(b, "x", b, p);
      SmallLookup(b, "y", b, p);
      SmallChange(h, b, "x", "y", b, p);
    }
    PrefixOfD();
    OneChange(h, base, cur, "d", dir);
    TakeBackStops(base, cur, [dir], 0, 0);
    assert Below("d")(["d", "x"]) && FilesOf(base)(["d", "x"]) != FilesOf(cur)(["d", "x"]);
    DIsRelabelled(h, b);
  }

  /** The prefix is one of the string, not of whole segments: reverting "a" takes back "ab". */
  lemma RevertTakesLongerName(h: Hasher, b: Hash, b': Hash)
    requires b != b'
    ensures var base, cur := OneFile("ab", b), OneFile("ab", b');
      && IsTrieDiff(h, base, cur, "a", [Change(Some(PathNode(["ab"], b)), Some(PathNode(["ab"], b')))])
      && CanRevert(h, base, cur, "a")
      && forall u :: IsReverted(h, base, cur, "a", u) <==> u == base
  {
    hide HashOf, Lookup, TrieChange, IsTrieDiff, CanonicalRoot, OneFile, RelabelledAt, IsReverted, Completable,
      CanRevert, Spliced;
    var base, cur := OneFile("ab", b), OneFile("ab", b');
    var c := Change(Some(PathNode(["ab"], b)), Some(PathNode(["ab"], b')));
    forall p
      ensures Lookup(base, p) == (if p == ["ab"] then Some(b) else None)
      ensures Lookup(cur, p) == (if p == ["ab"] then Some(b') else None)
      ensures TrieChange(h, base, cur, p) == (if p == ["ab"] then Some(c) else None)
      ensures !RelabelledAt(h, Some(base), Some(cur), p) || p == []
    {
      OneFileAt(h, "ab", b, b', p);
      OneFileAt(h, "ab", b', b, p);
    }
    assert JoinPath(["ab"]) == "ab" && "a" <= "ab" && FilePath(["ab"]);
    OneChange(h, base, cur, "a", c);
    assert "a" <= JoinPath(["ab"]) && Lookup(base, ["ab"]) != Lookup(cur, ["ab"]);
    OnePathCompletes(FilesOf(base), FilesOf(cur), Below("a"), ["ab"]);
    RevertExpected(h, base, cur, "a");
    OneFileIsRoot("ab", b);
    OnlyBase(h, base, cur, "a");
  }

  lemma OnePathCompletes(f: Files, g: Files, chosen: Path -> bool, p: Path)
    requires forall q | q != p :: f(q).None? && g(q).None?
    ensures Completable(g, Spliced(f, g, chosen))
  {
  }

  /** Where every file of either tree has the prefix, the base is the only result. */
  lemma OnlyBase(h: Hasher, base: Tree, cur: Tree, prefix: string)
    requires CanonicalRoot(base) && NoneRelabelled(h, base, cur)
    requires forall p | Lookup(base, p) != Lookup(cur, p) :: prefix <= JoinPath(p)
    ensures forall u :: IsReverted(h, base, cur, prefix, u) <==> u == base
  {
    hide RelabelledAt, Lookup, CanonicalRoot, JoinPath;
    NothingHidden(h, base, cur, prefix);
    assert forall p :: Spliced(FilesOf(base), FilesOf(cur), Seen(h, base, cur, prefix))(p) == Lookup(base, p);
    forall u | IsReverted(h, base, cur, prefix, u) ensures u == base {
      FilesDetermineTree(u, base);
    }
  }

  lemma OneFileIsRoot(n: string, b: Hash)
    requires NameOk(n)
    ensures CanonicalRoot(OneFile(n, b))
  {
  }

  lemma OneFileAt(h: Hasher, n: string, b: Hash, b': Hash, p: Path)
    requires b != b'
    ensures Lookup(OneFile(n, b), p) == if p == [n] then Some(b) else None
    ensures TrieChange(h, OneFile(n, b), OneFile(n, b'), p) ==
            if p == [n] then Some(Change(Some(PathNode([n], b)), Some(PathNode([n], b')))) else None
    ensures RelabelledAt(h, Some(OneFile(n, b)), Some(OneFile(n, b')), p) ==> p == []
  {
    hide HashOf, Node;
    if p != [] {
      assert p == [p[0]] + p[1..];
      NoDirectoryInOneFile(n, b, p);
    }
  }

  lemma NoDirectoryInOneFile(n: string, b: Hash, p: Path)
    requires p != []
    ensures Node(OneFile(n, b), p).Some? ==> Node(OneFile(n, b), p).value.File?
  {
    if p[0] == n {
      assert Node(OneFile(n, b), p) == Node(File(b), p[1..]);
    }
  }

  lemma PrefixOfD()
    ensures "d" <= JoinPath(["d"]) && "d" <= JoinPath(["d", "x"])
  {
    assert JoinPath(["d", "x"]) == "d" + "/" + JoinPath(["d", "x"][1..]);
  }

  lemma DIsRelabelled(h: Hasher, b: Hash)
    requires CollisionFree(h)
    ensures ReportsDirectory(h, WithD(OneFile("x", b)), WithD(OneFile("y", b)), "d")
  {
    hide Relabelled, HashOf;
    var base, cur := WithD(OneFile("x", b)), WithD(OneFile("y", b));
    RenameRelabels(h, "x", "y", b);
    KidNode(base, "d");
    KidNode(cur, "d");
    assert DirectoryHere(h, base, cur, "d", ["d"]);
  }
}
