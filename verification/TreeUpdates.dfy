/** What the work tree's edits do to the abstract tree, and why the root hash is a
    function of the files alone. */
module TreeUpdates {
  import opened Wrappers
  import opened Hashes
  import opened Objects
  import opened TreeModel

  /** The subtree x set at path p, with directories created on the way. */
  ghost function Put(t: Tree, p: Path, x: Tree): (r: Tree)
    ensures p != [] ==> r.Dir? && p[0] in r.kids
    decreases |p|
  {
    if p == [] then x
    else
      var kids := if t.Dir? then t.kids else map[];
      Dir(kids[p[0] := Put(if p[0] in kids then kids[p[0]] else EMPTY_DIR, p[1..], x)])
  }

  /** The subtree at p taken out, with the directories that it leaves empty. */
  ghost function Del(t: Tree, p: Path): (r: Tree)
    requires p != [] && Node(t, p).Some?
    ensures r.Dir?
  {
    if |p| == 1 then Dir(t.kids - {p[0]})
    else
      var kid := Del(t.kids[p[0]], p[1..]);
      if kid.kids == map[] then Dir(t.kids - {p[0]}) else Dir(t.kids[p[0] := kid])
  }

  /** No proper prefix of p is a file. */
  ghost predicate Free(t: Tree, p: Path) {
    p != [] ==> t.Dir? && (p[0] in t.kids && |p| > 1 ==> Free(t.kids[p[0]], p[1..]))
  }

  ghost predicate Prefix(p: Path, q: Path) {
    p <= q
  }

  lemma {:induction false} PutLookup(t: Tree, p: Path, b: Hash, q: Path)
    requires Free(t, p)
    ensures Lookup(Put(t, p, File(b)), q) ==
            if q == p then Some(b) else if Prefix(p, q) then None else Lookup(t, q)
    decreases |p|
  {
    if p != [] && q != [] && p[0] == q[0] {
      var kid := if p[0] in t.kids then t.kids[p[0]] else EMPTY_DIR;
      assert q == [q[0]] + q[1..] && p == [p[0]] + p[1..];
      assert Prefix(p, q) <==> Prefix(p[1..], q[1..]);
      if |p| > 1 {
        PutLookup(kid, p[1..], b, q[1..]);
      }
    }
  }

  lemma {:induction false} DelLookup(t: Tree, p: Path, q: Path)
    requires p != [] && Node(t, p).Some?
    ensures Lookup(Del(t, p), q) == if Prefix(p, q) then None else Lookup(t, q)
  {
    if q != [] && p[0] == q[0] {
      assert q == [q[0]] + q[1..] && p == [p[0]] + p[1..];
      assert Prefix(p, q) <==> Prefix(p[1..], q[1..]);
      if |p| > 1 {
        DelLookup(t.kids[p[0]], p[1..], q[1..]);
        NothingInEmpty(q[1..]);
      }
    }
  }

  lemma NothingInEmpty(q: Path)
    ensures Lookup(EMPTY_DIR, q) == None
  {
  }

  ghost predicate NamesOk(p: Path) {
    forall n | n in p :: NameOk(n)
  }

  lemma {:induction false} PutCanonical(t: Tree, p: Path, x: Tree)
    requires CanonicalRoot(t) && p != [] && Free(t, p) && NamesOk(p) && Canonical(x)
    ensures Canonical(Put(t, p, x))
    decreases |p|
  {
    if |p| > 1 {
      PutCanonical(if p[0] in t.kids then t.kids[p[0]] else EMPTY_DIR, p[1..], x);
    }
  }

  lemma {:induction false} DelCanonical(t: Tree, p: Path)
    requires CanonicalRoot(t) && p != [] && Node(t, p).Some?
    ensures CanonicalRoot(Del(t, p))
  {
    if |p| > 1 {
      assert Node(t.kids[p[0]], p[1..]).Some?;
      DelCanonical(t.kids[p[0]], p[1..]);
    }
  }

  // ------------------------------------------ the files determine the root hash

  lemma {:induction false} HasFile(t: Tree) returns (p: Path)
    requires Canonical(t)
    ensures Lookup(t, p).Some?
  {
    if t.File? {
      p := [];
    } else {
      var n :| n in t.kids;
      p := HasFile(t.kids[n]);
      p := [n] + p;
    }
  }

  ghost predicate SameFiles(t: Tree, u: Tree) {
    forall p :: Lookup(t, p) == Lookup(u, p)
  }

  lemma SameFilesBelow(t: Tree, u: Tree, n: string)
    requires SameFiles(t, u) && t.Dir? && u.Dir? && n in t.kids && n in u.kids
    ensures SameFiles(t.kids[n], u.kids[n])
  {
    forall p ensures Lookup(t.kids[n], p) == Lookup(u.kids[n], p) {
      assert ([n] + p)[1..] == p;
      assert Lookup(t, [n] + p) == Lookup(u, [n] + p);
    }
  }

  lemma SameFilesSameNames(t: Tree, u: Tree)
    requires SameFiles(t, u) && CanonicalRoot(t) && CanonicalRoot(u)
    ensures t.kids.Keys <= u.kids.Keys
  {
    forall n | n in t.kids ensures n in u.kids {
      var p := HasFile(t.kids[n]);
      assert ([n] + p)[1..] == p;
      assert Lookup(t, [n] + p).Some? && Lookup(u, [n] + p).Some?;
    }
  }

  /** Flattening is injective on canonical trees. */
  lemma {:induction false} FilesDetermineTree(t: Tree, u: Tree)
    requires SameFiles(t, u)
    requires (CanonicalRoot(t) && CanonicalRoot(u)) || (Canonical(t) && Canonical(u))
    ensures t == u
  {
    assert Lookup(t, []) == Lookup(u, []);
    if t.Dir? {
      SameFilesSameNames(t, u);
      SameFilesSameNames(u, t);
      forall n | n in t.kids ensures t.kids[n] == u.kids[n] {
        SameFilesBelow(t, u, n);
        FilesDetermineTree(t.kids[n], u.kids[n]);
      }
      assert t.kids == u.kids;
    }
  }

  /** History independence: two roots with the same files have the same hash, whatever
      edits produced them, and even in different stores. */
  lemma FilesDetermineHash(h: Hasher, s1: Store, s2: Store, hash1: Hash, hash2: Hash, t: Tree, u: Tree)
    requires Represents(h, s1, hash1, t) && Represents(h, s2, hash2, u) && SameFiles(t, u)
    ensures hash1 == hash2
  {
    FilesDetermineTree(t, u);
  }

  /** Directories with the same entries have children of the same names and hashes. */
  lemma SameSubs(h: Hasher, t: Tree, u: Tree)
    requires t.Dir? && u.Dir? && Subs(h, t) == Subs(h, u)
    ensures t.kids.Keys == u.kids.Keys
    ensures forall n | n in t.kids :: HashOf(h, t.kids[n]) == HashOf(h, u.kids[n])
  {
    hide Subs, HashOf;
    SubsMembers(h, t);
    SubsMembers(h, u);
    forall n | n in t.kids ensures n in u.kids && HashOf(h, t.kids[n]) == HashOf(h, u.kids[n]) {
      assert EntryOf(h, n, t.kids[n]) in Subs(h, u);
    }
    forall n | n in u.kids ensures n in t.kids {
      assert EntryOf(h, n, u.kids[n]) in Subs(h, t);
    }
  }

  /** And back: in one store a hash stands for one tree. */
  lemma {:induction false} HashDeterminesTree(h: Hasher, objects: Store, t: Tree, u: Tree)
    requires Stored(h, objects, t) && Stored(h, objects, u) && HashOf(h, t) == HashOf(h, u)
    ensures t == u
  {
    hide Subs, HashOf;
    StoredHash(h, objects, t);
    StoredHash(h, objects, u);
    if t.Dir? && u.Dir? {
      SameSubs(h, t, u);
      forall n | n in t.kids ensures t.kids[n] == u.kids[n] {
        HashDeterminesTree(h, objects, t.kids[n], u.kids[n]);
      }
      assert t.kids == u.kids;
    }
  }

  lemma StoredHash(h: Hasher, objects: Store, t: Tree)
    requires Stored(h, objects, t)
    ensures HashOf(h, t) in objects && (t.File? ==> HashOf(h, t) == t.blob && objects[HashOf(h, t)].Blob?)
    ensures t.Dir? ==> objects[HashOf(h, t)] == TreeNode(HashOf(h, t), Subs(h, t), DIR_MODE)
  {
  }

  lemma RootDeterminesTree(h: Hasher, objects: Store, hash: Hash, t: Tree, u: Tree)
    requires CollisionFree(h)
    requires Represents(h, objects, hash, t) && Represents(h, objects, hash, u)
    ensures t == u
  {
    if t.kids != map[] && u.kids != map[] {
      HashDeterminesTree(h, objects, t, u);
    }
  }
}
