/** What the trie comparison of versionmgr/merkletrie reports for two trees, path by path,
    and exactly when that is the file-level difference. */
module TrieChanges {
  import opened Wrappers
  import opened Hashes
  import opened Order
  import opened Objects
  import opened TreeModel
  import opened TreeUpdates
  import opened WorkNodes
  import opened WorkTrees
  import opened WorkTreeRuns
  import opened Paths
  import opened Changes
  import opened ChangeJoin
  import opened FileMerge

  // -------------------------------------------------------- relabelled directories

  /** The hashes of the entries in order of name. */
  ghost function KidHashes(h: Hasher, t: Tree): (r: seq<Hash>)
    requires t.Dir?
    ensures |r| == |Subs(h, t)| && forall i | 0 <= i < |r| :: r[i] == Subs(h, t)[i].hash
  {
    seq(|Subs(h, t)|, i requires 0 <= i < |Subs(h, t)| => Subs(h, t)[i].hash)
  }

  /** Two different directories whose entries have the same hashes in the same order, under
      other names. */
  ghost predicate Relabelled(h: Hasher, x: Tree, y: Tree) {
    x.Dir? && y.Dir? && HashOf(h, x) != HashOf(h, y) && KidHashes(h, x) == KidHashes(h, y)
  }

  ghost function NodeOf(x: Option<Tree>, p: Path): Option<Tree> {
    if x.None? then None else Node(x.value, p)
  }

  ghost function Kid(x: Option<Tree>, n: string): Option<Tree> {
    if x.Some? && x.value.Dir? && n in x.value.kids then Some(x.value.kids[n]) else None
  }

  ghost function FileAt(x: Option<Tree>, p: Path): Option<Hash> {
    if x.None? then None else Lookup(x.value, p)
  }

  ghost predicate RelabelledAt(h: Hasher, x: Option<Tree>, y: Option<Tree>, p: Path) {
    NodeOf(x, p).Some? && NodeOf(y, p).Some? && Relabelled(h, NodeOf(x, p).value, NodeOf(y, p).value)
  }

  /** No directory on the way to p, the start included, is relabelled. */
  ghost predicate Unhidden(h: Hasher, x: Option<Tree>, y: Option<Tree>, p: Path) {
    forall i | 0 <= i < |p| :: !RelabelledAt(h, x, y, p[..i])
  }

  /** No directory above p, the root excluded, is relabelled. */
  ghost predicate Visible(h: Hasher, x: Tree, y: Tree, p: Path) {
    forall i | 0 < i < |p| :: !RelabelledAt(h, Some(x), Some(y), p[..i])
  }

  /** No directory of both trees is relabelled. */
  ghost predicate NoneRelabelled(h: Hasher, x: Tree, y: Tree) {
    forall p | p != [] :: !RelabelledAt(h, Some(x), Some(y), p)
  }

  // ------------------------------------------------------------- what is reported

  ghost function EndAt(b: Option<Hash>, p: Path): Option<PathNode> {
    match b
    case None => None
    case Some(hash) => Some(PathNode(p, hash))
  }

  ghost function FileChange(b: Option<Hash>, d: Option<Hash>, p: Path): Option<Change> {
    if b == d then None else Some(Change(EndAt(b, p), EndAt(d, p)))
  }

  /** One change for a whole directory: from its old hash to its new one. */
  ghost function DirectoryChange(h: Hasher, x: Tree, y: Tree, p: Path): Change {
    Change(Some(PathNode(p, HashOf(h, x))), Some(PathNode(p, HashOf(h, y))))
  }

  /** The change reported at the path `full`, whose last segments `rest` lead there from the
      nodes x and y: the comparison of two nodes of one path, and of what is below them. */
  ghost function ChangeBelow(h: Hasher, x: Option<Tree>, y: Option<Tree>, full: Path, rest: Path): Option<Change>
    decreases |rest|
  {
    if x.Some? && y.Some? && x.value.Dir? && y.value.Dir? then
      if HashOf(h, x.value) == HashOf(h, y.value) then None
      else if Relabelled(h, x.value, y.value) then
        if rest == [] then Some(DirectoryChange(h, x.value, y.value, full)) else None
      else if rest == [] then None
      else ChangeBelow(h, Kid(x, rest[0]), Kid(y, rest[0]), full, rest[1..])
    else FileChange(FileAt(x, rest), FileAt(y, rest), full)
  }

  /** The change reported at p. The roots themselves are not compared. */
  ghost function TrieChange(h: Hasher, x: Tree, y: Tree, p: Path): Option<Change> {
    if p == [] then None else ChangeBelow(h, Kid(Some(x), p[0]), Kid(Some(y), p[0]), p, p[1..])
  }

  ghost predicate IsTrieChange(h: Hasher, x: Tree, y: Tree, c: Change) {
    FilePath(c.At()) && TrieChange(h, x, y, c.At()) == Some(c)
  }

  /** d has the reported changes whose path has the prefix, sorted by path. */
  ghost predicate IsTrieDiff(h: Hasher, x: Tree, y: Tree, prefix: string, d: seq<Change>) {
    && SortedChanges(d)
    && forall c :: c in d <==> IsTrieChange(h, x, y, c) && prefix <= c.Key()
  }

  lemma {:induction false} ChangeBelowAt(h: Hasher, x: Option<Tree>, y: Option<Tree>, full: Path, rest: Path)
    ensures ChangeBelow(h, x, y, full, rest).Some? ==>
              var c := ChangeBelow(h, x, y, full, rest).value;
              && c.At() == full && c.Action().Ok?
              && (c.from.Some? ==> c.from.value.path == full) && (c.to.Some? ==> c.to.value.path == full)
    decreases |rest|
  {
    hide Relabelled, HashOf, Lookup, FileAt, Kid;
    if rest != [] {
      ChangeBelowAt(h, Kid(x, rest[0]), Kid(y, rest[0]), full, rest[1..]);
    }
  }

  // ------------------------------------------------------------------ closed form

  /** Equal directories have equal files and nothing relabelled below them. */
  lemma NothingInEqual(h: Hasher, t: Tree, p: Path)
    ensures !RelabelledAt(h, Some(t), Some(t), p)
  {
  }

  lemma NodeStep(x: Option<Tree>, p: Path)
    requires p != [] && x.Some? && x.value.Dir?
    ensures NodeOf(x, p) == NodeOf(Kid(x, p[0]), p[1..]) && FileAt(x, p) == FileAt(Kid(x, p[0]), p[1..])
  {
  }

  /** Below a node that is no directory of both trees nothing is relabelled. */
  lemma NothingBelowFile(h: Hasher, x: Option<Tree>, y: Option<Tree>, p: Path)
    requires !(x.Some? && y.Some? && x.value.Dir? && y.value.Dir?)
    ensures !RelabelledAt(h, x, y, p)
  {
  }

  lemma RelabelledBelow(h: Hasher, x: Option<Tree>, y: Option<Tree>, p: Path)
    requires p != [] && x.Some? && y.Some? && x.value.Dir? && y.value.Dir?
    ensures RelabelledAt(h, x, y, p) <==> RelabelledAt(h, Kid(x, p[0]), Kid(y, p[0]), p[1..])
  {
    NodeStep(x, p);
    NodeStep(y, p);
  }

  lemma UnhiddenBelow(h: Hasher, x: Option<Tree>, y: Option<Tree>, p: Path)
    requires p != [] && x.Some? && y.Some? && x.value.Dir? && y.value.Dir?
    ensures Unhidden(h, x, y, p) <==>
              !Relabelled(h, x.value, y.value) && Unhidden(h, Kid(x, p[0]), Kid(y, p[0]), p[1..])
  {
    hide Relabelled;
    var x1, y1, p1 := Kid(x, p[0]), Kid(y, p[0]), p[1..];
    assert p[..0] == [];
    forall i | 0 < i < |p| ensures RelabelledAt(h, x, y, p[..i]) <==> RelabelledAt(h, x1, y1, p1[..i - 1]) {
      assert p[..i][1..] == p1[..i - 1] && p[..i][0] == p[0];
      RelabelledBelow(h, x, y, p[..i]);
    }
    if Unhidden(h, x, y, p) {
      assert !RelabelledAt(h, x, y, p[..0]);
      forall j | 0 <= j < |p1| ensures !RelabelledAt(h, x1, y1, p1[..j]) {
        assert !RelabelledAt(h, x, y, p[..j + 1]);
      }
    }
    if !Relabelled(h, x.value, y.value) && Unhidden(h, x1, y1, p1) {
      forall i | 0 <= i < |p| ensures !RelabelledAt(h, x, y, p[..i]) {
        if i > 0 {
          assert !RelabelledAt(h, x1, y1, p1[..i - 1]);
        }
      }
    }
  }

  ghost predicate StoredNode(h: Hasher, objects: Store, x: Option<Tree>) {
    x.Some? ==> Stored(h, objects, x.value)
  }

  lemma StoredKid(h: Hasher, objects: Store, x: Option<Tree>, n: string)
    requires StoredNode(h, objects, x)
    ensures StoredNode(h, objects, Kid(x, n))
  {
  }

  /** Of two stored nodes the comparison reports a relabelled directory that is not below
      another as one change, a file that differs outside of these as a change of the file,
      and nothing else. */
  lemma {:induction false} ChangeBelowIs(h: Hasher, objects: Store, x: Option<Tree>, y: Option<Tree>, full: Path,
                                         rest: Path)
    requires StoredNode(h, objects, x) && StoredNode(h, objects, y)
    ensures ChangeBelow(h, x, y, full, rest) ==
            if !Unhidden(h, x, y, rest) then None
            else if RelabelledAt(h, x, y, rest)
            then Some(DirectoryChange(h, NodeOf(x, rest).value, NodeOf(y, rest).value, full))
            else FileChange(FileAt(x, rest), FileAt(y, rest), full)
    decreases |rest|
  {
    hide Relabelled, Stored;
    if x.Some? && y.Some? && x.value.Dir? && y.value.Dir? {
      if HashOf(h, x.value) == HashOf(h, y.value) {
        HashDeterminesTree(h, objects, x.value, y.value);
        NothingInEqual(h, x.value, rest);
        forall i | 0 <= i < |rest| ensures !RelabelledAt(h, x, y, rest[..i]) {
          NothingInEqual(h, x.value, rest[..i]);
        }
      } else if rest != [] {
        UnhiddenBelow(h, x, y, rest);
        RelabelledBelow(h, x, y, rest);
        NodeStep(x, rest);
        NodeStep(y, rest);
        StoredKid(h, objects, x, rest[0]);
        StoredKid(h, objects, y, rest[0]);
        ChangeBelowIs(h, objects, Kid(x, rest[0]), Kid(y, rest[0]), full, rest[1..]);
      }
    } else {
      NothingBelowFile(h, x, y, rest);
      forall i | 0 <= i < |rest| ensures !RelabelledAt(h, x, y, rest[..i]) {
        NothingBelowFile(h, x, y, rest[..i]);
      }
    }
  }

  /** And so for the roots. */
  lemma TrieChangeIs(h: Hasher, objects: Store, x: Tree, y: Tree, p: Path)
    requires StoredRoot(h, objects, x) && StoredRoot(h, objects, y) && p != []
    ensures TrieChange(h, x, y, p) ==
            if !Visible(h, x, y, p) then None
            else if RelabelledAt(h, Some(x), Some(y), p)
            then Some(DirectoryChange(h, Node(x, p).value, Node(y, p).value, p))
            else FileChange(Lookup(x, p), Lookup(y, p), p)
  {
    hide Relabelled, Stored, ChangeBelow;
    var x1, y1, p1 := Kid(Some(x), p[0]), Kid(Some(y), p[0]), p[1..];
    KidStored(h, objects, x, p[0]);
    KidStored(h, objects, y, p[0]);
    ChangeBelowIs(h, objects, x1, y1, p, p1);
    NodeStep(Some(x), p);
    NodeStep(Some(y), p);
    RelabelledBelow(h, Some(x), Some(y), p);
    forall i | 0 < i < |p| ensures RelabelledAt(h, Some(x), Some(y), p[..i]) <==> RelabelledAt(h, x1, y1, p1[..i - 1]) {
      assert p[..i][1..] == p1[..i - 1] && p[..i][0] == p[0];
      RelabelledBelow(h, Some(x), Some(y), p[..i]);
    }
    if Visible(h, x, y, p) {
      forall j | 0 <= j < |p1| ensures !RelabelledAt(h, x1, y1, p1[..j]) {
        assert !RelabelledAt(h, Some(x), Some(y), p[..j + 1]);
      }
    }
    if Unhidden(h, x1, y1, p1) {
      forall i | 0 < i < |p| ensures !RelabelledAt(h, Some(x), Some(y), p[..i]) {
        assert !RelabelledAt(h, x1, y1, p1[..i - 1]);
      }
    }
  }

  lemma KidStored(h: Hasher, objects: Store, t: Tree, n: string)
    requires StoredRoot(h, objects, t)
    ensures StoredNode(h, objects, Kid(Some(t), n))
  {
  }

  // -------------------------------------------------- when it is the file-level diff

  /** The files of `inside` at the chosen paths, those of `outside` elsewhere. */
  ghost function Spliced(inside: Files, outside: Files, chosen: Path -> bool): Files {
    p => if chosen(p) then inside(p) else outside(p)
  }

  /** The paths that a difference with this prefix looks at: those with the prefix that are
      not below a relabelled directory. */
  ghost function Seen(h: Hasher, x: Tree, y: Tree, prefix: string): Path -> bool {
    p => prefix <= JoinPath(p) && Visible(h, x, y, p)
  }

  /** A relabelled directory with the prefix is reported. */
  ghost predicate ReportsDirectory(h: Hasher, x: Tree, y: Tree, prefix: string) {
    exists p :: p != [] && DirectoryHere(h, x, y, prefix, p)
  }

  ghost predicate DirectoryHere(h: Hasher, x: Tree, y: Tree, prefix: string, p: Path) {
    prefix <= JoinPath(p) && Visible(h, x, y, p) && RelabelledAt(h, Some(x), Some(y), p)
  }

  lemma FileChangeIs(f: Files, g: Files, p: Path)
    ensures FileChange(f(p), g(p), p) == if f(p) == g(p) then None else Some(ChangeFor(f, g, p))
  {
  }

  lemma RelabelledIsNoFile(h: Hasher, x: Tree, y: Tree, p: Path)
    requires RelabelledAt(h, Some(x), Some(y), p)
    ensures Lookup(x, p) == None && Lookup(y, p) == None
  {
    LookupIsNode(x, p);
    LookupIsNode(y, p);
  }

  /** The first relabelled directory on the way to a relabelled one. */
  lemma FirstRelabelled(h: Hasher, x: Tree, y: Tree, p: Path) returns (q: Path)
    requires p != [] && RelabelledAt(h, Some(x), Some(y), p)
    ensures q != [] && Visible(h, x, y, q) && RelabelledAt(h, Some(x), Some(y), q)
    decreases |p|
  {
    hide RelabelledAt;
    q := p;
    if !Visible(h, x, y, p) {
      var i :| 0 < i < |p| && RelabelledAt(h, Some(x), Some(y), p[..i]);
      q := FirstRelabelled(h, x, y, p[..i]);
    }
  }

  lemma NodeFilePath(t: Tree, p: Path)
    requires CanonicalRoot(t) && p != [] && Node(t, p).Some?
    ensures FilePath(p)
  {
    NodeBelowRoot(t, p);
  }

  /** What is reported for a relabelled directory. */
  lemma DirectoryReported(h: Hasher, objects: Store, x: Tree, y: Tree, prefix: string, d: seq<Change>, p: Path)
    requires CanonicalRoot(x) && StoredRoot(h, objects, x) && StoredRoot(h, objects, y)
    requires IsTrieDiff(h, x, y, prefix, d) && p != [] && DirectoryHere(h, x, y, prefix, p)
    ensures Node(x, p).Some? && Node(y, p).Some?
    ensures DirectoryChange(h, Node(x, p).value, Node(y, p).value, p) in d
  {
    hide Relabelled, TrieChange, Visible, CanonicalRoot, StoredRoot;
    NodeFilePath(x, p);
    TrieChangeIs(h, objects, x, y, p);
    var c := DirectoryChange(h, Node(x, p).value, Node(y, p).value, p);
    assert c.At() == p && c.Key() == JoinPath(p);
    assert IsTrieChange(h, x, y, c);
  }

  /** Every change is that of a file that is looked at, or of a relabelled directory. */
  lemma FileOrDirectory(h: Hasher, objects: Store, x: Tree, y: Tree, prefix: string, d: seq<Change>, c: Change)
    requires StoredRoot(h, objects, x) && StoredRoot(h, objects, y) && IsTrieDiff(h, x, y, prefix, d) && c in d
    ensures IsChangeOf(FilesOf(x), Spliced(FilesOf(y), FilesOf(x), Seen(h, x, y, prefix)), c)
            || (c.At() != [] && DirectoryHere(h, x, y, prefix, c.At())
                && c == DirectoryChange(h, Node(x, c.At()).value, Node(y, c.At()).value, c.At()))
  {
    hide Relabelled, TrieChange, Visible, StoredRoot, RelabelledAt;
    var p := c.At();
    assert IsTrieChange(h, x, y, c);
    TrieChangeIs(h, objects, x, y, p);
    if !RelabelledAt(h, Some(x), Some(y), p) {
      FileChangeIs(FilesOf(x), Spliced(FilesOf(y), FilesOf(x), Seen(h, x, y, prefix)), p);
    }
  }

  lemma FileReported(h: Hasher, objects: Store, x: Tree, y: Tree, prefix: string, d: seq<Change>, p: Path)
    requires CanonicalRoot(x) && CanonicalRoot(y) && StoredRoot(h, objects, x) && StoredRoot(h, objects, y)
    requires IsTrieDiff(h, x, y, prefix, d) && Seen(h, x, y, prefix)(p) && Lookup(x, p) != Lookup(y, p)
    ensures ChangeFor(FilesOf(x), FilesOf(y), p) in d
  {
    hide Relabelled, TrieChange, Visible, StoredRoot, RelabelledAt, Lookup, CanonicalRoot;
    CanonicalIsProper(x);
    CanonicalIsProper(y);
    assert FilesOf(x)(p).Some? || FilesOf(y)(p).Some?;
    TrieChangeIs(h, objects, x, y, p);
    if RelabelledAt(h, Some(x), Some(y), p) {
      RelabelledIsNoFile(h, x, y, p);
    }
    FileChangeIs(FilesOf(x), FilesOf(y), p);
    ChangeForAt(FilesOf(x), FilesOf(y), p);
    assert IsTrieChange(h, x, y, ChangeFor(FilesOf(x), FilesOf(y), p));
  }

  /** The changes with a prefix are the difference of the files that are looked at, exactly
      when no relabelled directory is reported. */
  lemma FileLevelIff(h: Hasher, objects: Store, x: Tree, y: Tree, prefix: string, d: seq<Change>)
    requires CanonicalRoot(x) && CanonicalRoot(y) && StoredRoot(h, objects, x) && StoredRoot(h, objects, y)
    requires IsTrieDiff(h, x, y, prefix, d)
    ensures IsDiff(FilesOf(x), Spliced(FilesOf(y), FilesOf(x), Seen(h, x, y, prefix)), d) <==>
              !ReportsDirectory(h, x, y, prefix)
  {
    hide RelabelledAt, Relabelled, CanonicalRoot, StoredRoot, Lookup, SortedChanges, DirectoryHere, IsTrieChange, Seen;
    var f, g := FilesOf(x), Spliced(FilesOf(y), FilesOf(x), Seen(h, x, y, prefix));
    if p :| p != [] && DirectoryHere(h, x, y, prefix, p) {
      DirectoryReported(h, objects, x, y, prefix, d, p);
      DirectoryIsNoFileChange(h, x, y, prefix, p);
    } else {
      forall c | c in d ensures IsChangeOf(f, g, c) {
        FileOrDirectory(h, objects, x, y, prefix, d, c);
      }
      forall p | f(p) != g(p) ensures ChangeFor(f, g, p) in d {
        FileReported(h, objects, x, y, prefix, d, p);
        assert ChangeFor(f, g, p) == ChangeFor(f, FilesOf(y), p);
      }
    }
  }

  lemma DirectoryIsNoFileChange(h: Hasher, x: Tree, y: Tree, prefix: string, p: Path)
    requires DirectoryHere(h, x, y, prefix, p)
    ensures Node(x, p).Some? && Node(y, p).Some?
    ensures var c := DirectoryChange(h, Node(x, p).value, Node(y, p).value, p);
            && !IsChangeOf(FilesOf(x), FilesOf(y), c)
            && !IsChangeOf(FilesOf(x), Spliced(FilesOf(y), FilesOf(x), Seen(h, x, y, prefix)), c)
  {
    RelabelledIsNoFile(h, x, y, p);
  }

  lemma ReportsIffRelabelled(h: Hasher, x: Tree, y: Tree)
    ensures ReportsDirectory(h, x, y, "") <==> !NoneRelabelled(h, x, y)
  {
    hide RelabelledAt, Visible;
    if p :| p != [] && RelabelledAt(h, Some(x), Some(y), p) {
      var q := FirstRelabelled(h, x, y, p);
      assert DirectoryHere(h, x, y, "", q);
    }
    if p :| p != [] && DirectoryHere(h, x, y, "", p) {
      assert RelabelledAt(h, Some(x), Some(y), p);
    }
  }

  /** The comparison of two stored trees gives their file-level difference exactly when no
      directory of both is relabelled. */
  lemma DiffIffNoneRelabelled(h: Hasher, objects: Store, x: Tree, y: Tree, d: seq<Change>)
    requires CanonicalRoot(x) && CanonicalRoot(y) && StoredRoot(h, objects, x) && StoredRoot(h, objects, y)
    requires IsTrieDiff(h, x, y, "", d)
    ensures IsDiff(FilesOf(x), FilesOf(y), d) <==> NoneRelabelled(h, x, y)
  {
    hide RelabelledAt, CanonicalRoot, StoredRoot, Lookup, IsTrieDiff, IsDiff, DirectoryHere;
    FileLevelIff(h, objects, x, y, "", d);
    ReportsIffRelabelled(h, x, y);
    var g := Spliced(FilesOf(y), FilesOf(x), Seen(h, x, y, ""));
    if NoneRelabelled(h, x, y) {
      forall p ensures g(p) == FilesOf(y)(p) {
        assert "" <= JoinPath(p);
      }
      SameDiff(FilesOf(x), g, FilesOf(y), d);
    } else {
      var p :| p != [] && DirectoryHere(h, x, y, "", p);
      DirectoryReported(h, objects, x, y, "", d, p);
      DirectoryIsNoFileChange(h, x, y, "", p);
      NotADiff(FilesOf(x), FilesOf(y), DirectoryChange(h, Node(x, p).value, Node(y, p).value, p), d);
    }
  }

  lemma SameDiff(f: Files, g: Files, g': Files, d: seq<Change>)
    requires Agree(g, g') && IsDiff(f, g, d)
    ensures IsDiff(f, g', d)
  {
    forall c | c in d ensures IsChangeOf(f, g', c) {
      assert IsChangeOf(f, g, c);
      assert g(c.At()) == g'(c.At());
    }
    forall p | f(p) != g'(p) ensures ChangeFor(f, g', p) in d {
      assert g(p) == g'(p) && ChangeFor(f, g, p) in d;
    }
  }

  lemma NotADiff(f: Files, g: Files, c: Change, d: seq<Change>)
    requires c in d && !IsChangeOf(f, g, c)
    ensures !IsDiff(f, g, d)
  {
  }
}
