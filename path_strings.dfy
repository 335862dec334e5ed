/**
 The string operations the menu relies on, written out the way the JavaScript
 runtime defines them: `String.prototype.split("/")`, `.filter(Boolean)` on the
 resulting pieces, `String.prototype.startsWith`, and the `"/" + segment`
 accumulation that rebuilds a group key from path segments.
 */
module PathStrings {

  /** `s.startsWith(prefix)`: the first |prefix| characters of `s` are `prefix`. */
  predicate StartsWith(s: string, prefix: string)
    ensures StartsWith(s, prefix) <==> |prefix| <= |s| && s[..|prefix|] == prefix
  {
    prefix <= s
  }

  /** `s.split("/")`: the pieces between slashes, empty pieces included; never empty. */
  function SplitOnSlash(s: string): (parts: seq<string>)
    ensures |parts| >= 1
    ensures forall i :: 0 <= i < |parts| ==> '/' !in parts[i]
  {
    if s == [] then [[]]
    else
      var rest := SplitOnSlash(s[1..]);
      if s[0] == '/' then [[]] + rest
      else [[s[0]] + rest[0]] + rest[1..]
  }

  /** `parts.join("/")`. */
  function JoinWithSlash(parts: seq<string>): string
    requires |parts| >= 1
  {
    if |parts| == 1 then parts[0] else parts[0] + "/" + JoinWithSlash(parts[1..])
  }

  /** `.filter(Boolean)` on strings: drops the empty ones, keeps the order. */
  function NonEmptyOnly(parts: seq<string>): (kept: seq<string>)
    ensures |kept| <= |parts|
    ensures forall i :: 0 <= i < |kept| ==> kept[i] != [] && kept[i] in parts
    ensures forall i :: 0 <= i < |parts| && parts[i] != [] ==> parts[i] in kept
  {
    if parts == [] then []
    else if parts[0] == [] then NonEmptyOnly(parts[1..])
    else [parts[0]] + NonEmptyOnly(parts[1..])
  }

  /** `path.split("/").filter(Boolean)`: the non-empty segments of a path. */
  function Segments(path: string): (segs: seq<string>)
    ensures forall i :: 0 <= i < |segs| ==> segs[i] != [] && '/' !in segs[i]
  {
    NonEmptyOnly(SplitOnSlash(path))
  }

  /** The key built by appending `"/" + segment` for every segment in turn, starting from "". */
  function Accumulate(segs: seq<string>): (key: string)
    ensures segs == [] <==> key == ""
    ensures segs != [] ==> key[0] == '/'
    ensures |key| >= |segs|
  {
    if segs == [] then "" else Accumulate(segs[..|segs| - 1]) + "/" + segs[|segs| - 1]
  }

  /** A well-formed segment: what `Segments` can produce. */
  predicate IsSegment(seg: string)
  {
    seg != [] && '/' !in seg
  }

  /** A canonical path: a leading slash and no empty segment ("/a/b", not "/", "a/b", "/a//b" or "/a/"). */
  predicate IsCanonicalPath(path: string)
  {
    path == Accumulate(Segments(path)) && path != ""
  }

  /** Joining the pieces of a split gives the original string back. */
  lemma {:induction false} JoinSplit(s: string)
    ensures JoinWithSlash(SplitOnSlash(s)) == s
  {
    if s != [] {
      var rest := SplitOnSlash(s[1..]);
      JoinSplit(s[1..]);
      if s[0] != '/' && |rest| > 1 {
        assert [s[0]] + rest[0] + "/" + JoinWithSlash(rest[1..]) == [s[0]] + JoinWithSlash(rest);
      }
    }
  }

  /** A string without slashes splits into itself alone. */
  lemma {:induction false} SplitNoSlash(x: string)
    requires '/' !in x
    ensures SplitOnSlash(x) == [x]
  {
    if x != [] {
      assert x[0] in x;
      assert forall c :: c in x[1..] ==> c in x;
      SplitNoSlash(x[1..]);
      assert [x[0]] + x[1..] == x;
    }
  }

  /** Splitting at the first slash: the slash-free piece before it comes out whole. */
  lemma {:induction false} SplitAfterPiece(x: string, y: string)
    requires '/' !in x
    ensures SplitOnSlash(x + "/" + y) == [x] + SplitOnSlash(y)
  {
    if x == [] {
      assert x + "/" + y == ['/'] + y;
      assert (['/'] + y)[1..] == y;
    } else {
      assert x[0] in x;
      assert forall c :: c in x[1..] ==> c in x;
      SplitAfterPiece(x[1..], y);
      assert (x + "/" + y)[1..] == x[1..] + "/" + y;
      assert [x[0]] + x[1..] == x;
    }
  }

  /** Splitting a join of slash-free pieces gives the pieces back. */
  lemma {:induction false} SplitJoin(parts: seq<string>)
    requires |parts| >= 1
    requires forall i :: 0 <= i < |parts| ==> '/' !in parts[i]
    ensures SplitOnSlash(JoinWithSlash(parts)) == parts
  {
    if |parts| == 1 {
      SplitNoSlash(parts[0]);
    } else {
      SplitJoin(parts[1..]);
      SplitAfterPiece(parts[0], JoinWithSlash(parts[1..]));
      assert [parts[0]] + parts[1..] == parts;
    }
  }

  /** The accumulated key is the segments joined by slashes behind a leading slash. */
  lemma {:induction false} AccumulateIsJoin(segs: seq<string>)
    ensures Accumulate(segs) == JoinWithSlash([""] + segs)
  {
    if segs != [] {
      var init := segs[..|segs| - 1];
      AccumulateIsJoin(init);
      JoinAppend([""] + init, segs[|segs| - 1]);
      assert [""] + init + [segs[|segs| - 1]] == [""] + segs;
    }
  }

  lemma {:induction false} JoinAppend(parts: seq<string>, last: string)
    requires |parts| >= 1
    ensures JoinWithSlash(parts + [last]) == JoinWithSlash(parts) + "/" + last
  {
    if |parts| > 1 {
      JoinAppend(parts[1..], last);
      assert (parts + [last])[1..] == parts[1..] + [last];
    }
  }

  /** Filtering one piece: an empty piece is dropped, any other is kept. */
  lemma NonEmptyOnlySingle(x: string)
    ensures NonEmptyOnly([x]) == if x == [] then [] else [x]
  {
    assert [x][1..] == [];
  }

  /** Filtering distributes over concatenation, so it keeps every non-empty piece in its order. */
  lemma {:induction false} NonEmptyOnlyAppend(a: seq<string>, b: seq<string>)
    ensures NonEmptyOnly(a + b) == NonEmptyOnly(a) + NonEmptyOnly(b)
  {
    if a != [] {
      NonEmptyOnlyAppend(a[1..], b);
      assert (a + b)[0] == a[0];
      assert (a + b)[1..] == a[1..] + b;
    } else {
      assert a + b == b;
    }
  }

  /** Paths that are not canonical: empty pieces from doubled, leading and trailing slashes vanish. */
  lemma SegmentsExamples()
    ensures Segments("/a//b/") == ["a", "b"]
    ensures Segments("a/b") == ["a", "b"]
    ensures Segments("/a/") == ["a"]
  {
    SplitExample(["", "a", "", "b", ""], "/a//b/");
    SplitExample(["a", "b"], "a/b");
    SplitExample(["", "a", ""], "/a/");
    assert NonEmptyOnly(["", "a", "", "b", ""]) == ["a", "b"] by {
      NonEmptyOnlyAppend(["", "a"], ["", "b", ""]);
      NonEmptyOnlyAppend([""], ["a"]);
      NonEmptyOnlyAppend([""], ["b", ""]);
      NonEmptyOnlyAppend(["b"], [""]);
      NonEmptyOnlySingle("");
      NonEmptyOnlySingle("a");
      NonEmptyOnlySingle("b");
    }
    assert NonEmptyOnly(["a", "b"]) == ["a", "b"] by {
      NonEmptyOnlyAppend(["a"], ["b"]);
      NonEmptyOnlySingle("a");
      NonEmptyOnlySingle("b");
    }
    assert NonEmptyOnly(["", "a", ""]) == ["a"] by {
      NonEmptyOnlyAppend([""], ["a", ""]);
      NonEmptyOnlyAppend(["a"], [""]);
      NonEmptyOnlySingle("");
      NonEmptyOnlySingle("a");
    }
  }

  lemma SplitExample(parts: seq<string>, s: string)
    requires |parts| >= 1
    requires forall i :: 0 <= i < |parts| ==> '/' !in parts[i]
    requires JoinWithSlash(parts) == s
    ensures SplitOnSlash(s) == parts
  {
    SplitJoin(parts);
  }

  /** Filtering keeps a sequence of non-empty strings as it is. */
  lemma {:induction false} NonEmptyOnlyKeeps(parts: seq<string>)
    requires forall i :: 0 <= i < |parts| ==> parts[i] != []
    ensures NonEmptyOnly(parts) == parts
  {
    if parts != [] {
      NonEmptyOnlyKeeps(parts[1..]);
      assert [parts[0]] + parts[1..] == parts;
    }
  }

  /** Round trip: the segments of an accumulated key are the segments it was built from. */
  lemma SegmentsOfAccumulate(segs: seq<string>)
    requires forall i :: 0 <= i < |segs| ==> IsSegment(segs[i])
    ensures Segments(Accumulate(segs)) == segs
    ensures segs != [] ==> IsCanonicalPath(Accumulate(segs))
  {
    AccumulateIsJoin(segs);
    var parts := [""] + segs;
    assert forall i :: 1 <= i < |parts| ==> parts[i] == segs[i - 1];
    SplitJoin(parts);
    NonEmptyOnlyKeeps(segs);
    assert parts[1..] == segs;
  }

  /** Keys accumulated from a shorter run of segments are prefixes of, and strictly shorter
      than, keys accumulated from a longer run. */
  lemma {:induction false} AccumulatePrefix(segs: seq<string>, j: nat)
    requires j <= |segs|
    ensures StartsWith(Accumulate(segs), Accumulate(segs[..j]))
    ensures j < |segs| ==> |Accumulate(segs[..j])| < |Accumulate(segs)|
    decreases |segs|
  {
    if j < |segs| {
      var init := segs[..|segs| - 1];
      AccumulatePrefix(init, j);
      assert init[..j] == segs[..j];
    } else {
      assert segs[..j] == segs;
    }
  }
}
