/** Path splitting: a path string is cut at every '/' and the empty pieces
    that leading, trailing or repeated separators leave are dropped. */
module Paths {

  const SEPARATOR: char := '/'

  datatype Option<T> = None | Some(value: T)

  /** Reference splitter, one character at a time: `cur` is the segment read
      so far; a separator closes it (if it is not empty). */
  function Scan(s: string, cur: string): seq<string>
    decreases |s|
  {
    if s == [] then
      (if cur == [] then [] else [cur])
    else if s[0] == SEPARATOR then
      (if cur == [] then [] else [cur]) + Scan(s[1..], [])
    else
      Scan(s[1..], cur + [s[0]])
  }

  /** A segment is a non-empty name without a separator. */
  predicate IsSegment(w: string) {
    w != [] && SEPARATOR !in w
  }

  /** The segments of a path, left to right. */
  function Segments(path: string): (segs: seq<string>)
    ensures forall i :: 0 <= i < |segs| ==> IsSegment(segs[i])
  {
    ScanSegments(path, []);
    Scan(path, [])
  }

  /** The path with every separator removed. */
  function Strip(s: string): string {
    if s == [] then []
    else if s[0] == SEPARATOR then Strip(s[1..])
    else [s[0]] + Strip(s[1..])
  }

  /** The segments written one after the other. */
  function Concat(ss: seq<string>): string {
    if ss == [] then [] else ss[0] + Concat(ss[1..])
  }

  /** The absolute path "/s0/s1/..." of a sequence of segments. */
  function Join(segs: seq<string>): string {
    if segs == [] then [] else [SEPARATOR] + segs[0] + Join(segs[1..])
  }

  /** `string::find(c, start)`: the first position at or after `start`
      that holds `c`, or None (npos). */
  function Find(s: string, c: char, start: nat): (r: Option<nat>)
    decreases |s| - start
    ensures r.Some? ==> start <= r.value < |s| && s[r.value] == c
    ensures forall i :: start <= i < |s| && (r.None? || i < r.value) ==> s[i] != c
  {
    if start >= |s| then None
    else if s[start] == c then Some(start)
    else Find(s, c, start + 1)
  }

  /** `splitPath`: its loop over the `find` positions of the separator. */
  method SplitPath(path: string) returns (result: seq<string>)
    ensures result == Segments(path)
  {
    result := [];
    var start: nat := 0;
    var end := Find(path, SEPARATOR, start);
    while end.Some?
      invariant start <= |path|
      invariant end == Find(path, SEPARATOR, start)
      invariant result + Scan(path[start..], []) == Scan(path, [])
      decreases |path| - start
    {
      SplitStep(path, start, end.value);
      if end.value != start {
        result := result + [path[start..end.value]];
      }
      start := end.value + 1;
      end := Find(path, SEPARATOR, start);
    }
    SplitLast(path, start);
    if start < |path| {
      result := result + [path[start..]];
    }
  }

  /** One turn of SplitPath's loop: the text from `start` up to the
      separator at `end` is one segment, or none if it is empty. */
  lemma SplitStep(path: string, start: nat, end: nat)
    requires start <= end < |path| && path[end] == SEPARATOR
    requires forall i :: start <= i < end ==> path[i] != SEPARATOR
    ensures Scan(path[start..], []) ==
      (if end == start then [] else [path[start..end]]) + Scan(path[end + 1..], [])
  {
    var s := path[start..];
    ScanUpToSeparator(s, end - start);
    assert s[..end - start] == path[start..end];
    assert s[end - start + 1..] == path[end + 1..];
  }

  /** After SplitPath's loop: what is left holds no separator. */
  lemma SplitLast(path: string, start: nat)
    requires start <= |path|
    requires forall i :: start <= i < |path| ==> path[i] != SEPARATOR
    ensures Scan(path[start..], []) == if start < |path| then [path[start..]] else []
  {
    var s := path[start..];
    assert forall i :: 0 <= i < |s| ==> s[i] == path[start + i];
    ScanPlain(s, []);
    assert [] + s == s;
  }

  // ---------------------------------------------------------------------
  // Lemmas about the reference splitter

  /** Reading separator-free characters only extends the current segment. */
  lemma {:induction false} ScanPrefix(s: string, cur: string, k: nat)
    requires k <= |s|
    requires forall i :: 0 <= i < k ==> s[i] != SEPARATOR
    ensures Scan(s, cur) == Scan(s[k..], cur + s[..k])
    decreases k
  {
    if k == 0 {
      assert s[k..] == s && cur + s[..k] == cur;
    } else {
      assert s[0] != SEPARATOR;
      ScanPrefix(s[1..], cur + [s[0]], k - 1);
      assert s[1..][k - 1..] == s[k..];
      assert cur + [s[0]] + s[1..][..k - 1] == cur + s[..k];
    }
  }

  /** A separator-free string is at most one segment. */
  lemma ScanPlain(s: string, cur: string)
    requires forall i :: 0 <= i < |s| ==> s[i] != SEPARATOR
    ensures Scan(s, cur) == if cur + s == [] then [] else [cur + s]
  {
    ScanPrefix(s, cur, |s|);
    assert s[|s|..] == [] && s[..|s|] == s;
  }

  /** One step of SplitPath: the text up to the next separator is one
      segment (none if it is empty). */
  lemma ScanUpToSeparator(s: string, k: nat)
    requires k < |s| && s[k] == SEPARATOR
    requires forall i :: 0 <= i < k ==> s[i] != SEPARATOR
    ensures Scan(s, []) == (if k == 0 then [] else [s[..k]]) + Scan(s[k + 1..], [])
  {
    ScanPrefix(s, [], k);
    assert [] + s[..k] == s[..k];
    assert s[k..][0] == SEPARATOR && s[k..][1..] == s[k + 1..];
    assert s[..k] == [] <==> k == 0;
  }

  /** Every piece the splitter yields is a segment. */
  lemma {:induction false} ScanSegments(s: string, cur: string)
    requires SEPARATOR !in cur
    ensures forall i :: 0 <= i < |Scan(s, cur)| ==> IsSegment(Scan(s, cur)[i])
    decreases |s|
  {
    if s != [] {
      if s[0] == SEPARATOR {
        ScanSegments(s[1..], []);
      } else {
        ScanSegments(s[1..], cur + [s[0]]);
      }
    }
  }

  lemma {:induction false} ConcatAppend(a: seq<string>, b: seq<string>)
    ensures Concat(a + b) == Concat(a) + Concat(b)
  {
    if a == [] {
      assert a + b == b;
    } else {
      ConcatAppend(a[1..], b);
      assert (a + b)[0] == a[0] && (a + b)[1..] == a[1..] + b;
      assert Concat(a + b) == a[0] + (Concat(a[1..]) + Concat(b));
    }
  }

  /** The segments keep every non-separator character, in order. */
  lemma {:induction false} ScanKeepsText(s: string, cur: string)
    ensures Concat(Scan(s, cur)) == cur + Strip(s)
    decreases |s|
  {
    if s == [] {
    } else if s[0] == SEPARATOR {
      ScanKeepsText(s[1..], []);
      var first: seq<string> := if cur == [] then [] else [cur];
      ConcatAppend(first, Scan(s[1..], []));
    } else {
      ScanKeepsText(s[1..], cur + [s[0]]);
    }
  }

  lemma {:induction false} StripEmpty(s: string)
    ensures Strip(s) == [] <==> forall i :: 0 <= i < |s| ==> s[i] == SEPARATOR
  {
    if s != [] {
      StripEmpty(s[1..]);
      assert forall i :: 1 <= i < |s| ==> s[i] == s[1..][i - 1];
    }
  }

  /** Splitting keeps, in left-to-right order, exactly the characters of the
      path that are not separators, and every piece is a segment. */
  lemma SegmentsKeepText(path: string)
    ensures Concat(Segments(path)) == Strip(path)
    ensures forall i :: 0 <= i < |Segments(path)| ==> IsSegment(Segments(path)[i])
  {
    ScanKeepsText(path, []);
  }

  /** A path yields no segment exactly when it is empty or all separators. */
  lemma SegmentsEmpty(path: string)
    ensures Segments(path) == [] <==> forall i :: 0 <= i < |path| ==> path[i] == SEPARATOR
  {
    SegmentsKeepText(path);
    StripEmpty(path);
    var segs := Segments(path);
    if segs != [] {
      assert segs[0] != [];
      ConcatAppend([segs[0]], segs[1..]);
      assert segs == [segs[0]] + segs[1..];
    }
  }

  lemma {:induction false} ScanJoin(segs: seq<string>, cur: string)
    requires SEPARATOR !in cur
    requires forall i :: 0 <= i < |segs| ==> IsSegment(segs[i])
    ensures Scan(Join(segs), cur) == (if cur == [] then [] else [cur]) + segs
  {
    if segs != [] {
      var w, rest := segs[0], Join(segs[1..]);
      assert Join(segs)[0] == SEPARATOR && Join(segs)[1..] == w + rest;
      assert [] + w == w;
      ScanPrefix(w + rest, [], |w|);
      assert (w + rest)[|w|..] == rest && (w + rest)[..|w|] == w;
      assert IsSegment(w);
      assert forall i :: 0 <= i < |segs[1..]| ==> IsSegment(segs[1..][i]) by {
        forall i | 0 <= i < |segs[1..]| ensures IsSegment(segs[1..][i]) {
          assert segs[1..][i] == segs[i + 1];
        }
      }
      ScanJoin(segs[1..], w);
      assert [w] + segs[1..] == segs;
    }
  }

  /** Round trip: joining segments with separators and splitting again gives
      the same segments back. */
  lemma SplitJoin(segs: seq<string>)
    requires forall i :: 0 <= i < |segs| ==> IsSegment(segs[i])
    ensures Segments(Join(segs)) == segs
  {
    ScanJoin(segs, []);
  }

  lemma {:induction false} ScanSeparator(a: string, b: string, cur: string)
    ensures Scan(a + [SEPARATOR] + b, cur) == Scan(a, cur) + Scan(b, [])
    decreases |a|
  {
    if a == [] {
      assert (a + [SEPARATOR] + b)[1..] == b;
    } else {
      assert (a + [SEPARATOR] + b)[0] == a[0];
      assert (a + [SEPARATOR] + b)[1..] == a[1..] + [SEPARATOR] + b;
      if a[0] == SEPARATOR {
        ScanSeparator(a[1..], b, []);
      } else {
        ScanSeparator(a[1..], b, cur + [a[0]]);
      }
    }
  }

  /** A separator splits the path: the segments of `a/b` are those of `a`
      followed by those of `b`. So separators at the start or the end of a
      path, or repeated ones, contribute no segment. */
  lemma SegmentsAtSeparator(a: string, b: string)
    ensures Segments(a + [SEPARATOR] + b) == Segments(a) + Segments(b)
  {
    ScanSeparator(a, b, []);
  }

  /** The example of leading, doubled and trailing separators. */
  lemma RedundantSeparators()
    ensures Segments("/a//b/") == ["a", "b"]
  {
    var sep := [SEPARATOR];
    var tail := "b" + sep + "";
    var mid := "" + sep + tail;
    var rest := "a" + sep + mid;
    assert "/a//b/" == "" + sep + rest;
    SegmentsAtSeparator("", rest);
    SegmentsAtSeparator("a", mid);
    SegmentsAtSeparator("", tail);
    SegmentsAtSeparator("b", "");
    ScanPlain("a", []);
    ScanPlain("b", []);
    assert [] + "a" == "a" && [] + "b" == "b";
    assert Segments("") == [];
    assert Segments(tail) == ["b"];
    assert Segments(mid) == ["b"];
    assert Segments(rest) == ["a", "b"];
  }

  /** The path "/" names the root: it has no segments. */
  lemma RootPath()
    ensures Segments([SEPARATOR]) == []
  {
    SegmentsEmpty([SEPARATOR]);
  }
}
