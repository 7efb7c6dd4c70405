/** Paths as path.Join of Go builds them, which cleans them lexically, against paths as
    lists of segments. The walk over the files (versionmgr/files_walk.go) reports the
    former. */
module LexicalPaths {
  import opened Wrappers
  import opened TreeModel
  import opened TreeUpdates
  import opened Paths

  // ------------------------------------------------------- path.Clean, path.Join

  /** The segments between the slashes of a string. */
  function Split(s: string): (r: seq<string>)
    ensures r != []
  {
    if s == "" then [""]
    else
      var rest := Split(s[1..]);
      if s[0] == '/' then [""] + rest else [[s[0]] + rest[0]] + rest[1..]
  }

  /** Append the segments one by one: empty ones and "." are dropped, ".." takes the segment
      before it away, unless there is none or that is ".." too. */
  function Reduce(done: seq<string>, segs: seq<string>, rooted: bool): seq<string>
    decreases |segs|
  {
    if segs == [] then done
    else Reduce(ReduceOne(done, segs[0], rooted), segs[1..], rooted)
  }

  function ReduceOne(done: seq<string>, seg: string, rooted: bool): seq<string> {
    if seg == "" || seg == "." then done
    else if seg != ".." then done + [seg]
    else if done != [] && done[|done| - 1] != ".." then done[..|done| - 1]
    else if rooted then done
    else done + [".."]
  }

  /** path.Clean */
  function Clean(s: string): string {
    if s == "" then "."
    else
      var rooted := s[0] == '/';
      var segs := Reduce([], Split(s), rooted);
      if rooted then "/" + JoinPath(segs) else if segs == [] then "." else JoinPath(segs)
  }

  /** path.Join of a path, which may be empty, and a name. */
  function PathJoin(path: string, name: string): string {
    if path == "" && name == "" then ""
    else if path == "" then Clean(name)
    else if name == "" then Clean(path)
    else Clean(path + "/" + name)
  }

  /** What the walk calls the node at p: joined one segment at a time from the root. */
  ghost function Reported(p: Path): string {
    if p == [] then "" else PathJoin(Reported(p[..|p| - 1]), p[|p| - 1])
  }

  lemma ReportedStep(p: Path, n: string)
    ensures Reported(p + [n]) == PathJoin(Reported(p), n)
  {
    assert (p + [n])[..|p|] == p;
  }

  // --------------------------------------------------------------- clean paths

  /** ".." stands in a leading run only, and "." nowhere. */
  ghost predicate NoDots(p: Path) {
    && (forall i | 0 <= i < |p| :: p[i] != ".")
    && (forall i | 0 < i < |p| :: p[i] == ".." ==> p[i - 1] == "..")
  }

  /** path.Clean has nothing to do. */
  ghost predicate LexicallyClean(p: Path) {
    p == ["."] || NoDots(p)
  }

  // ------------------------------------------------------------------ splitting

  lemma {:induction false} SplitSegment(n: string)
    requires '/' !in n
    ensures Split(n) == [n]
  {
    if n != "" {
      assert forall c | c in n[1..] :: c in n;
      SplitSegment(n[1..]);
      assert n[0] in n;
      assert n == [n[0]] + n[1..];
    }
  }

  lemma {:induction false} SplitFirst(n: string, rest: string)
    requires '/' !in n
    ensures Split(n + "/" + rest) == [n] + Split(rest)
  {
    var s := n + "/" + rest;
    if n == "" {
      assert s == "/" + rest && s[1..] == rest;
    } else {
      assert forall c | c in n[1..] :: c in n;
      SplitFirst(n[1..], rest);
      assert n[0] in n;
      assert s[1..] == n[1..] + "/" + rest && n == [n[0]] + n[1..];
    }
  }

  /** Splitting takes joining back. */
  lemma {:induction false} SplitJoined(p: Path)
    requires FilePath(p)
    ensures Split(JoinPath(p)) == p && JoinPath(p) != "" && JoinPath(p)[0] != '/'
  {
    assert p[0] in p;
    assert p[0][0] in p[0];
    if |p| == 1 {
      SplitSegment(p[0]);
    } else {
      assert forall n | n in p[1..] :: n in p;
      SplitJoined(p[1..]);
      SplitFirst(p[0], JoinPath(p[1..]));
    }
  }

  // ------------------------------------------------------------------- reducing

  lemma {:induction false} ReduceConcat(done: seq<string>, a: seq<string>, b: seq<string>, rooted: bool)
    ensures Reduce(done, a + b, rooted) == Reduce(Reduce(done, a, rooted), b, rooted)
    decreases |a|
  {
    if a == [] {
      assert a + b == b;
    } else {
      assert (a + b)[1..] == a[1..] + b;
      ReduceConcat(ReduceOne(done, a[0], rooted), a[1..], b, rooted);
    }
  }

  lemma {:induction false} ReduceLast(p: Path)
    requires p != []
    ensures Reduce([], p, false) == ReduceOne(Reduce([], p[..|p| - 1], false), p[|p| - 1], false)
  {
    var last := p[|p| - 1];
    assert p == p[..|p| - 1] + [last];
    ReduceConcat([], p[..|p| - 1], [last], false);
    assert Reduce(Reduce([], p[..|p| - 1], false), [last], false)
        == Reduce(ReduceOne(Reduce([], p[..|p| - 1], false), last, false), [last][1..], false);
  }

  lemma FrontSegments(p: Path)
    requires NamesOk(p) && p != []
    ensures NamesOk(p[..|p| - 1]) && NameOk(p[|p| - 1])
  {
    hide NameOk;
    var front := p[..|p| - 1];
    assert p[|p| - 1] in p;
    forall n | n in front ensures NameOk(n) {
      var i :| 0 <= i < |front| && front[i] == n;
      assert p[i] in p;
    }
  }

  /** Appending one segment keeps the form. */
  lemma ReduceOneIsClean(c: Path, n: string)
    requires NoDots(c) && NamesOk(c) && NameOk(n)
    ensures NoDots(ReduceOne(c, n, false)) && NamesOk(ReduceOne(c, n, false))
  {
    hide NameOk;
    if c != [] {
      FrontSegments(c);
    }
  }

  /** What is left has no dots to resolve. */
  lemma {:induction false} ReducedIsClean(p: Path)
    requires NamesOk(p)
    ensures NoDots(Reduce([], p, false)) && NamesOk(Reduce([], p, false))
    decreases |p|
  {
    hide NoDots, NamesOk, NameOk, Reduce, ReduceOne;
    if p != [] {
      FrontSegments(p);
      ReducedIsClean(p[..|p| - 1]);
      ReduceLast(p);
      ReduceOneIsClean(Reduce([], p[..|p| - 1], false), p[|p| - 1]);
    } else {
      NothingReduced();
    }
  }

  lemma NothingReduced()
    ensures Reduce([], [], false) == [] && NoDots([]) && NamesOk([])
  {
  }

  /** And a path without dots is left as it is. */
  lemma {:induction false} CleanIsReduced(p: Path)
    requires NamesOk(p) && NoDots(p)
    ensures Reduce([], p, false) == p
    decreases |p|
  {
    if p != [] {
      var front := p[..|p| - 1];
      FrontSegments(p);
      CleanIsReduced(front);
      ReduceLast(p);
      assert p[|p| - 1] in p && p == front + [p[|p| - 1]];
    }
  }

  /** The laws of reducing: an empty segment and "." can be left out anywhere, a name and the
      ".." behind it too, and a ".." at the root. What they do not apply to stays. */
  lemma ReduceLaws(a: Path, n: string, b: Path, rooted: bool)
    ensures n == "" || n == "." ==> Reduce([], a + [n] + b, rooted) == Reduce([], a + b, rooted)
    ensures n != "" && n != "." && n != ".." ==> Reduce([], a + [n, ".."] + b, rooted) == Reduce([], a + b, rooted)
    ensures Reduce([], [".."] + b, true) == Reduce([], b, true)
  {
    hide Reduce;
    var done := Reduce([], a, rooted);
    ReduceConcat([], a, b, rooted);
    assert a + [n] + b == a + ([n] + b) && a + [n, ".."] + b == a + ([n] + ([".."] + b));
    ReduceConcat([], a, [n] + b, rooted);
    ReduceConcat([], a, [n] + ([".."] + b), rooted);
    ReduceFirst(done, n, b, rooted);
    ReduceFirst(done, n, [".."] + b, rooted);
    ReduceFirst(done + [n], "..", b, rooted);
    ReduceFirst([], "..", b, true);
  }

  lemma ReduceFirst(done: Path, n: string, b: Path, rooted: bool)
    ensures Reduce(done, [n] + b, rooted) == Reduce(ReduceOne(done, n, rooted), b, rooted)
  {
    assert ([n] + b)[0] == n && ([n] + b)[1..] == b;
  }

  lemma SplitRooted(t: string)
    ensures Split("/" + t) == [""] + Split(t)
  {
    assert ("/" + t)[0] == '/' && ("/" + t)[1..] == t;
  }

  lemma NoEmptySegment(p: Path)
    requires FilePath(p)
    ensures forall n | n in p :: n != ""
  {
  }

  lemma {:induction false} PlainIsReduced(p: Path, done: Path, rooted: bool)
    requires forall n | n in p :: n != "" && n != "." && n != ".."
    ensures Reduce(done, p, rooted) == done + p
    decreases |p|
  {
    if p != [] {
      assert p[0] in p && forall n | n in p[1..] :: n in p;
      PlainIsReduced(p[1..], done + [p[0]], rooted);
      assert done + [p[0]] + p[1..] == done + p;
    }
  }

  /** What Clean makes of a rooted path. */
  lemma CleanRooted(p: Path)
    requires FilePath(p)
    ensures Clean("/" + JoinPath(p)) == "/" + JoinPath(Reduce([], p, true))
    ensures (forall n | n in p :: n != "." && n != "..") ==> Clean("/" + JoinPath(p)) == "/" + JoinPath(p)
  {
    hide Reduce, Split, JoinPath, FilePath;
    SplitJoined(p);
    SplitRooted(JoinPath(p));
    ReduceFirst([], "", p, true);
    NoEmptySegment(p);
    if forall n | n in p :: n != "." && n != ".." {
      PlainIsReduced(p, [], true);
      assert [] + p == p;
    }
  }

  // ------------------------------------------------------------ what is reported

  ghost function Shown(c: seq<string>): string {
    if c == [] then "." else JoinPath(c)
  }

  /** Joining two paths, or either of them with nothing, resolves the dots of both. */
  lemma JoinMeans(p: Path, q: Path)
    requires FilePath(p) && FilePath(q)
    ensures PathJoin(JoinPath(p), JoinPath(q)) == Shown(Reduce([], p + q, false))
    ensures PathJoin(JoinPath(p), "") == PathJoin("", JoinPath(p)) == Clean(JoinPath(p)) == Shown(Reduce([], p, false))
    ensures PathJoin("", "") == "" && Clean("") == "."
  {
    hide Reduce, Split, JoinPath, FilePath;
    assert FilePath(p + q) by { TwoFilePaths(p, q); }
    SplitJoined(p);
    SplitJoined(q);
    SplitJoined(p + q);
    TwoFilePaths(p, q);
    JoinConcat(p, q);
  }

  lemma TwoFilePaths(p: Path, q: Path)
    requires FilePath(p) && FilePath(q)
    ensures FilePath(p + q) && p != [] && q != []
  {
  }

  /** Joining one more name resolves that name against what is there. */
  lemma JoinOne(c: Path, n: string)
    requires NamesOk(c) && NoDots(c) && n != "" && '/' !in n
    ensures PathJoin(Shown(c), n) == Shown(ReduceOne(c, n, false))
  {
    if c == [] {
      SplitSegment(n);
      SplitFirst(".", n);
      assert "." + "/" + n == Shown(c) + "/" + n;
      ReduceTwo(".", n);
    } else {
      var p := c + [n];
      assert FilePath(p) && FilePath(c);
      SplitJoined(p);
      SplitJoined(c);
      JoinConcat(c, [n]);
      assert p[..|p| - 1] == c;
      CleanIsReduced(c);
      ReduceLast(p);
    }
  }

  lemma ReduceTwo(a: string, b: string)
    ensures Reduce([], [a] + [b], false) == ReduceOne(ReduceOne([], a, false), b, false)
  {
    ReduceSingle([], a);
    ReduceSingle(ReduceOne([], a, false), b);
    ReduceConcat([], [a], [b], false);
  }

  lemma ReduceSingle(done: Path, n: string)
    ensures Reduce(done, [n], false) == ReduceOne(done, n, false)
  {
    assert [n][1..] == [];
    assert Reduce(ReduceOne(done, n, false), [], false) == ReduceOne(done, n, false);
  }

  lemma JoinFirst(n: string)
    requires n != "" && '/' !in n
    ensures PathJoin("", n) == Shown(ReduceOne([], n, false))
  {
    SplitSegment(n);
    assert n[0] in n;
    ReduceSingle([], n);
  }

  /** The reported string is the path with its dots resolved. */
  lemma {:induction false} ReportedIsReduced(p: Path)
    requires NamesOk(p) && p != []
    ensures Reported(p) == Shown(Reduce([], p, false))
    decreases |p|
  {
    var front, last := p[..|p| - 1], p[|p| - 1];
    assert last in p;
    FrontSegments(p);
    ReduceLast(p);
    if front == [] {
      JoinFirst(last);
    } else {
      ReportedIsReduced(front);
      ReducedIsClean(front);
      JoinOne(Reduce([], front, false), last);
      ShownIsNotEmpty(Reduce([], front, false));
    }
  }

  lemma ShownIsNotEmpty(c: Path)
    requires NamesOk(c)
    ensures Shown(c) != ""
  {
    if c != [] {
      SplitJoined(c);
    }
  }

  /** The walk reports a node under its full path exactly when that path is lexically
      clean. */
  lemma ReportedExact(p: Path)
    requires FilePath(p)
    ensures Reported(p) == JoinPath(p) <==> LexicallyClean(p)
  {
    var c := Reduce([], p, false);
    ReportedIsReduced(p);
    ReducedIsClean(p);
    assert FilePath(["."]) && JoinPath(["."]) == ".";
    if Reported(p) == JoinPath(p) {
      JoinInjective(if c == [] then ["."] else c, p);
    }
    if NoDots(p) {
      CleanIsReduced(p);
    } else if p == ["."] {
      assert Reported([]) == "" && p[..0] == [];
      JoinFirst(".");
    }
  }

  /** What the walk makes of dots: "." goes, and a name goes with the ".." behind it. With
      ReportedExact this determines what is reported for every path. */
  lemma DotsResolve(a: Path, n: string, b: Path)
    requires NamesOk(a) && NamesOk(b) && NameOk(n) && n != ".."
    ensures Reported(a + ["."] + b) == if a + b == [] then "." else Reported(a + b)
    ensures n != "." ==> Reported(a + [n, ".."] + b) == if a + b == [] then "." else Reported(a + b)
  {
    hide Reduce, Reported, NameOk;
    NameIsOk(".");
    NameIsOk("..");
    NameIsOk(n);
    NothingReduced();
    ReduceLaws(a, ".", b, false);
    ReduceLaws(a, n, b, false);
    ReportedIsReduced(a + ["."] + b);
    ReportedIsReduced(a + [n, ".."] + b);
    if a + b == [] {
      assert a + b == [];
      assert Shown([]) == ".";
    } else {
      ReportedIsReduced(a + b);
    }
  }

  lemma NameIsOk(n: string)
    ensures NameOk(n) <==> n != "" && '/' !in n
  {
  }

  /** Whatever the path, the reported string is one that a clean path would be given. */
  lemma ReportedAsIfClean(p: Path) returns (q: Path)
    requires FilePath(p)
    ensures FilePath(q) && LexicallyClean(q) && Reported(p) == JoinPath(q) == Reported(q)
  {
    var c := Reduce([], p, false);
    ReportedIsReduced(p);
    ReducedIsClean(p);
    q := if c == [] then ["."] else c;
    ReportedExact(q);
  }
}
