/** Paths as the strings that changes are sorted by. */
module Paths {
  import opened Order
  import opened TreeModel

  /** A path of a file: at least one segment, none empty, none with a slash. */
  ghost predicate FilePath(p: Path) {
    p != [] && forall n | n in p :: n != "" && '/' !in n
  }

  /** noder.Path.String: the segments joined by slashes. */
  function JoinPath(p: Path): string {
    if p == [] then ""
    else if |p| == 1 then p[0]
    else p[0] + "/" + JoinPath(p[1..])
  }

  /** The first segment of a joined path ends at the first slash. */
  lemma FirstSegment(p: Path)
    requires p != []
    ensures |p[0]| <= |JoinPath(p)| && JoinPath(p)[..|p[0]|] == p[0]
    ensures |p[0]| < |JoinPath(p)| <==> |p| > 1
    ensures |p| > 1 ==> JoinPath(p)[|p[0]|] == '/' && JoinPath(p)[|p[0]| + 1..] == JoinPath(p[1..])
  {
  }

  lemma FirstSegmentsAgree(p: Path, q: Path)
    requires FilePath(p) && FilePath(q) && JoinPath(p) == JoinPath(q)
    ensures |p[0]| >= |q[0]|
  {
    FirstSegment(p);
    FirstSegment(q);
    assert q[0] in q;
    forall i | 0 <= i < |q[0]| ensures JoinPath(q)[i] != '/' {
      assert JoinPath(q)[i] == JoinPath(q)[..|q[0]|][i] == q[0][i];
    }
  }

  /** Two file paths with the same string are the same path. */
  lemma {:induction false} JoinInjective(p: Path, q: Path)
    requires FilePath(p) && FilePath(q) && JoinPath(p) == JoinPath(q)
    ensures p == q
    decreases |p|
  {
    FirstSegmentsAgree(p, q);
    FirstSegmentsAgree(q, p);
    FirstSegment(p);
    FirstSegment(q);
    assert p[0] == q[0] && (|p| > 1 <==> |q| > 1);
    assert p == [p[0]] + p[1..] && q == [q[0]] + q[1..];
    if |p| > 1 {
      assert forall n | n in p[1..] :: n in p;
      assert forall n | n in q[1..] :: n in q;
      JoinInjective(p[1..], q[1..]);
    }
  }

  lemma {:induction false} JoinConcat(p: Path, q: Path)
    requires p != [] && q != []
    ensures JoinPath(p + q) == JoinPath(p) + "/" + JoinPath(q)
    decreases |p|
  {
    if |p| == 1 {
      assert (p + q)[1..] == q;
    } else {
      assert (p + q)[1..] == p[1..] + q;
      JoinConcat(p[1..], q);
    }
  }

  /** A directory sorts before everything below it. */
  lemma ParentSortsFirst(p: Path, q: Path)
    requires p != [] && p < q
    ensures Less(JoinPath(p), JoinPath(q))
  {
    var rest := q[|p|..];
    assert q == p + rest;
    JoinConcat(p, rest);
    PrefixLess(JoinPath(p), "/" + JoinPath(rest));
    assert JoinPath(p) + "/" + JoinPath(rest) == JoinPath(p) + ("/" + JoinPath(rest));
  }
}
