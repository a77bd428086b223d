/**
  The parts of Node's `path` module the generator relies on: `basename` (with and without an
  extension to strip), `extname` and `relative`. Paths are POSIX strings; `relative` works on
  the non-empty `/`-separated segments of already normalised paths, and `normalize` is taken
  to be the identity on them.
 */
module Paths {
  import opened Text

  /** The position of the last `c` in `s`. */
  function LastIndex(s: String, c: char): (r: Option<nat>)
    ensures r.Some? ==> r.value < |s| && s[r.value] == c
    ensures r.Some? ==> forall k :: r.value < k < |s| ==> s[k] != c
    ensures r.None? ==> forall k :: 0 <= k < |s| ==> s[k] != c
    decreases |s|
  {
    if s == [] then None
    else if s[|s| - 1] == c then Some(|s| - 1)
    else LastIndex(s[..|s| - 1], c)
  }

  /** A `c` with no `c` after it is the last one. */
  lemma {:induction false} LastIndexAt(s: String, c: char, i: nat)
    requires i < |s| && s[i] == c && forall k :: i < k < |s| ==> s[k] != c
    ensures LastIndex(s, c) == Some(i)
    decreases |s|
  {
    if i < |s| - 1 {
      LastIndexAt(s[..|s| - 1], c, i);
    }
  }

  /** `path.basename(p)`: the text after the last `/`, or the whole path when it has none. */
  function Basename(p: String): (r: String)
    ensures |r| <= |p| && r == p[|p| - |r|..]
    ensures forall k :: 0 <= k < |r| ==> r[k] != '/'
  {
    var i := LastIndex(p, '/');
    if i.None? then p else p[i.value + 1..]
  }
  /** The base name is the whole path, or what follows a `/`. */
  lemma BasenameAfterSlash(p: String)
    ensures Basename(p) == p || (|Basename(p)| < |p| && p[|p| - |Basename(p)| - 1] == '/')
  {
  }


  /** `path.extname(p)`: from the last `.` of the base name to its end, unless that dot is the
      first character of the base name or the base name is `..`. */
  function Extname(p: String): (r: String)
    ensures r == [] || (|r| < |Basename(p)| && r[0] == '.' && r == Basename(p)[|Basename(p)| - |r|..])
    ensures forall k :: 0 < k < |r| ==> r[k] != '.' && r[k] != '/'
  {
    var b := Basename(p);
    var d := LastIndex(b, '.');
    if d.None? || d.value == 0 || b == ".." then [] else b[d.value..]
  }
  /** The extension is empty exactly when the base name is `..` or has no dot after its first
      character. */
  lemma ExtnameEmpty(p: String)
    ensures Extname(p) == [] <==> Basename(p) == ".." || forall k :: 0 < k < |Basename(p)| ==> Basename(p)[k] != '.'
  {
  }


  /** `path.basename(p, ext)`: the base name without a trailing `ext`, unless that would leave
      nothing; the empty string when the whole path is `ext`. */
  function BasenameWithout(p: String, ext: String): String {
    var b := Basename(p);
    if |ext| > 0 && |ext| <= |p| && ext == p then []
    else if |ext| > 0 && |ext| < |b| && b[|b| - |ext|..] == ext then b[..|b| - |ext|]
    else b
  }

  /** The page slug: `path.basename(src, path.extname(src))`. */
  function Slug(src: String): String {
    BasenameWithout(src, Extname(src))
  }

  /** The slug and the extension together make up the base name, and a non-empty base name
      leaves a non-empty slug. */
  lemma SlugAndExtension(src: String)
    ensures Slug(src) + Extname(src) == Basename(src)
    ensures Basename(src) != [] ==> Slug(src) != []
  {
    var b := Basename(src);
    var e := Extname(src);
    if e == [] {
      assert Slug(src) == b;
      assert b + e == b;
    } else {
      assert |e| < |b| && e == b[|b| - |e|..];
      assert e != src by {
        assert |e| < |b| <= |src|;
      }
      assert Slug(src) == b[..|b| - |e|];
      assert b[..|b| - |e|] + b[|b| - |e|..] == b;
    }
  }

  /** The `.`-separated dots of the extension: a non-empty extension holds exactly one `.`, its
      first character. */
  lemma ExtensionHasOneDot(src: String)
    requires Extname(src) != []
    ensures forall k :: 0 <= k < |Extname(src)| ==> (Extname(src)[k] == '.' <==> k == 0)
  {
  }

  /** The non-empty pieces of `parts`. */
  function NonEmptyPieces(parts: seq<String>): (r: seq<String>)
    ensures forall k :: 0 <= k < |r| ==> r[k] != []
  {
    if parts == [] then []
    else (if parts[0] == [] then [] else [parts[0]]) + NonEmptyPieces(parts[1..])
  }

  /** The segments of a path: its non-empty `/`-separated pieces. */
  function Segments(p: String): seq<String> {
    NonEmptyPieces(Split(p, "/"))
  }

  /** `n` steps up. */
  function Ups(n: nat): (r: seq<String>)
    ensures |r| == n && forall k :: 0 <= k < n ==> r[k] == ".."
  {
    if n == 0 then [] else [".."] + Ups(n - 1)
  }

  /** The segments of `path.relative(from, to)`: leave the common leading segments, climb out
      of the rest of `from`, and descend into the rest of `to`. */
  function RelativeSegments(from: seq<String>, to: seq<String>): seq<String> {
    if from != [] && to != [] && from[0] == to[0] then RelativeSegments(from[1..], to[1..])
    else Ups(|from|) + to
  }

  /** `path.relative(from, to)`. */
  function Relative(from: String, to: String): String {
    Join(RelativeSegments(Segments(from), Segments(to)), "/")
  }

  /** Following one segment from a directory: `..` climbs, anything else descends. */
  function Follow(dir: seq<String>, seg: String): seq<String> {
    if seg == ".." then (if dir == [] then [] else dir[..|dir| - 1]) else dir + [seg]
  }

  /** Following a relative path segment by segment. */
  function Resolve(dir: seq<String>, rel: seq<String>): seq<String>
    decreases |rel|
  {
    if rel == [] then dir else Resolve(Follow(dir, rel[0]), rel[1..])
  }

  /** Following two relative paths one after the other. */
  lemma {:induction false} ResolveConcat(dir: seq<String>, a: seq<String>, b: seq<String>)
    ensures Resolve(dir, a + b) == Resolve(Resolve(dir, a), b)
    decreases |a|
  {
    if a != [] {
      assert (a + b)[1..] == a[1..] + b;
      ResolveConcat(Follow(dir, a[0]), a[1..], b);
    } else {
      assert a + b == b;
    }
  }

  /** Climbing `n` times from a directory at least that deep. */
  lemma {:induction false} ResolveUps(dir: seq<String>, n: nat)
    requires n <= |dir|
    ensures Resolve(dir, Ups(n)) == dir[..|dir| - n]
    decreases n
  {
    if n > 0 {
      ResolveUps(dir[..|dir| - 1], n - 1);
      assert dir[..|dir| - 1][..|dir| - 1 - (n - 1)] == dir[..|dir| - n];
    }
  }

  /** Descending through segments that are not `..`. */
  lemma {:induction false} ResolveDown(dir: seq<String>, down: seq<String>)
    requires forall k :: 0 <= k < |down| ==> down[k] != ".."
    ensures Resolve(dir, down) == dir + down
    decreases |down|
  {
    if down != [] {
      ResolveDown(dir + [down[0]], down[1..]);
      assert dir + [down[0]] + down[1..] == dir + down;
    }
  }

  /** Round trip of `relative`: following the relative segments from `from` leads to `to`,
      when `to` has no `..` segment. */
  lemma RelativeResolves(from: seq<String>, to: seq<String>)
    requires forall k :: 0 <= k < |to| ==> to[k] != ".."
    ensures Resolve(from, RelativeSegments(from, to)) == to
  {
    RelativeResolvesUnder([], from, to);
    assert [] + from == from && [] + to == to;
  }

  /** The round trip below any fixed directory `pre`. */
  lemma {:induction false} RelativeResolvesUnder(pre: seq<String>, from: seq<String>, to: seq<String>)
    requires forall k :: 0 <= k < |to| ==> to[k] != ".."
    ensures Resolve(pre + from, RelativeSegments(from, to)) == pre + to
    decreases |from|
  {
    if from != [] && to != [] && from[0] == to[0] {
      var pre' := pre + [from[0]];
      assert pre + from == pre' + from[1..];
      RelativeResolvesUnder(pre', from[1..], to[1..]);
      assert pre' + to[1..] == pre + to;
    } else {
      ResolveConcat(pre + from, Ups(|from|), to);
      ResolveUps(pre + from, |from|);
      assert (pre + from)[..|pre + from| - |from|] == pre;
      ResolveDown(pre, to);
    }
  }

  /** A segment is a non-empty name without `/`. */
  predicate IsSegment(x: String) {
    x != [] && forall k :: 0 <= k < |x| ==> x[k] != '/'
  }

  /** The first `/` of a text is the first character that is one. */
  lemma FirstSlash(s: String, i: nat)
    requires i < |s| && s[i] == '/' && forall k :: 0 <= k < i ==> s[k] != '/'
    ensures IndexOf(s, "/", 0) == Some(i)
  {
    IndexOfIsFirst(s, "/", 0);
    assert s[i..i + 1] == "/";
    assert OccursAt(s, "/", i);
    var m := IndexOf(s, "/", 0).value;
    assert s[m..m + 1][0] == s[m];
    assert m <= i;
  }

  /** A text without `/` does not split. */
  lemma NoSlash(s: String)
    requires forall k :: 0 <= k < |s| ==> s[k] != '/'
    ensures Split(s, "/") == [s]
  {
    forall k | 0 <= k < |s| ensures !OccursAt(s, "/", k) {
      assert s[k..k + 1][0] == s[k];
    }
    assert !OccursAt(s, "/", |s|);
    ContainsIffOccurs(s, "/");
  }

  /** Joining segments with `/` and splitting again gives them back. */
  lemma {:induction false} SplitJoinSegments(xs: seq<String>)
    requires xs != [] && forall k :: 0 <= k < |xs| ==> IsSegment(xs[k])
    ensures Split(Join(xs, "/"), "/") == xs
    decreases |xs|
  {
    if |xs| == 1 {
      assert IsSegment(xs[0]);
      NoSlash(xs[0]);
    } else {
      var x := xs[0];
      var rest := Join(xs[1..], "/");
      assert IsSegment(x);
      SegmentThenSlash(x, rest);
      assert Split(Join(xs, "/"), "/") == [x] + Split(rest, "/");
      SplitJoinSegments(xs[1..]);
      assert xs == [x] + xs[1..];
    }
  }

  /** The first `/` after a segment is the one that follows it. */
  lemma SegmentThenSlash(x: String, rest: String)
    requires IsSegment(x)
    ensures var j := x + "/" + rest;
            IndexOf(j, "/", 0) == Some(|x|) && j[..|x|] == x && j[|x| + 1..] == rest
  {
    var j := x + "/" + rest;
    forall k | 0 <= k < |x| ensures j[k] != '/' {
      assert j[k] == x[k];
    }
    FirstSlash(j, |x|);
    assert j[..|x|] == x;
    assert j[|x| + 1..] == rest;
  }

  /** Dropping empty pieces keeps a sequence of non-empty ones as it is. */
  lemma {:induction false} NonEmptyPiecesKeeps(xs: seq<String>)
    requires forall k :: 0 <= k < |xs| ==> xs[k] != []
    ensures NonEmptyPieces(xs) == xs
    decreases |xs|
  {
    if xs != [] {
      NonEmptyPiecesKeeps(xs[1..]);
      assert xs == [xs[0]] + xs[1..];
    }
  }

  /** The segments of joined segments are those segments. */
  lemma SegmentsOfJoin(xs: seq<String>)
    requires forall k :: 0 <= k < |xs| ==> IsSegment(xs[k])
    ensures Segments(Join(xs, "/")) == xs
  {
    if xs == [] {
      assert Split([], "/") == [[]] by {
        assert IndexOf([], "/", 0).None?;
      }
    } else {
      SplitJoinSegments(xs);
      NonEmptyPiecesKeeps(xs);
    }
  }

  /** Every segment of a path is a non-empty name without `/`. */
  lemma SegmentsAreSegments(p: String)
    ensures forall k :: 0 <= k < |Segments(p)| ==> IsSegment(Segments(p)[k])
  {
    SplitJoin(p, "/");
    PiecesWithoutSlash(Split(p, "/"));
  }

  /** Pieces without `/` stay so once the empty ones are dropped. */
  lemma {:induction false} PiecesWithoutSlash(parts: seq<String>)
    requires forall k :: 0 <= k < |parts| ==> Absent(parts[k], "/")
    ensures forall k :: 0 <= k < |NonEmptyPieces(parts)| ==> IsSegment(NonEmptyPieces(parts)[k])
    decreases |parts|
  {
    if parts != [] {
      PiecesWithoutSlash(parts[1..]);
      var x := parts[0];
      forall k | 0 <= k < |x| ensures x[k] != '/' {
        assert !OccursAt(x, "/", k);
        assert x[k..k + 1][0] == x[k];
      }
    }
  }

  /** `path.relative` on strings: following the result from `from` leads to `to`. */
  lemma RelativePath(from: String, to: String)
    requires forall k :: 0 <= k < |Segments(to)| ==> Segments(to)[k] != ".."
    ensures Resolve(Segments(from), Segments(Relative(from, to))) == Segments(to)
  {
    var rel := RelativeSegments(Segments(from), Segments(to));
    SegmentsAreSegments(to);
    RelativeAreSegments(Segments(from), Segments(to));
    SegmentsOfJoin(rel);
    RelativeResolves(Segments(from), Segments(to));
  }

  /** The relative segments between two segment lists are segments. */
  lemma {:induction false} RelativeAreSegments(from: seq<String>, to: seq<String>)
    requires forall k :: 0 <= k < |to| ==> IsSegment(to[k])
    ensures forall k :: 0 <= k < |RelativeSegments(from, to)| ==> IsSegment(RelativeSegments(from, to)[k])
    decreases |from|
  {
    if from != [] && to != [] && from[0] == to[0] {
      RelativeAreSegments(from[1..], to[1..]);
    } else {
      var r := Ups(|from|) + to;
      forall k | 0 <= k < |r| ensures IsSegment(r[k]) {
        if k < |from| {
          assert r[k] == "..";
        } else {
          assert r[k] == to[k - |from|];
        }
      }
    }
  }
}
