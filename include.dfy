/**
  `include(file, dest)` (lines 249-274 of lib/sassdown.js): the `<link>` or `<script>` tag
  for an asset, its path made relative to the page's directory unless it carries a scheme.
 */
module Includes {
  import opened Text
  import opened Paths

  /** `REGEXP_PATH_HAS_SCHEME`: the path starts with `//`, with or without `http:`, `https:` or
      `file:` in front. */
  predicate HasScheme(file: String) {
    OccursAt(file, "//", 0) || OccursAt(file, "http://", 0) || OccursAt(file, "https://", 0) ||
    OccursAt(file, "file://", 0)
  }

  /** No `c` in `s`. */
  predicate Free(s: String, c: char) {
    forall k :: 0 <= k < |s| ==> s[k] != c
  }

  /** `file.replace(/\\/g, '/')`: every backslash becomes a slash and nothing else moves. */
  function ForwardSlashes(file: String): (r: String)
    ensures |r| == |file| && Free(r, '\\')
    ensures forall k :: 0 <= k < |file| && file[k] != '\\' ==> r[k] == file[k]
    ensures Free(file, '\\') ==> r == file
  {
    seq(|file|, k requires 0 <= k < |file| => if file[k] == '\\' then '/' else file[k])
  }

  /** `file.split('.').pop()`: what follows the last `.`, or all of `file`. */
  function LastPiece(file: String): String {
    var parts := Split(file, ".");
    parts[|parts| - 1]
  }

  /** `p` is the bare name `ext` or ends in `.ext`. */
  predicate HasExtension(p: String, ext: String) {
    p == ext || (|p| > |ext| && p[|p| - |ext| - 1..] == "." + ext)
  }

  function LinkTag(file: String): String {
    "<link rel=\"stylesheet\" href=\"" + file + "\" />"
  }

  /** The closing tag is written `<\/script>` in the string the source builds. */
  function ScriptTag(file: String): String {
    "<script src=\"" + file + "\"><\\/script>"
  }

  /** The path `include` puts in the tag: it holds no backslash, and an asset with a scheme and
      no backslash is linked as it is. */
  function IncludedPath(file: String, dest: String): (r: String)
    ensures Free(r, '\\')
    ensures HasScheme(file) && Free(file, '\\') ==> r == file
  {
    ForwardSlashes(if HasScheme(file) then file else Relative(dest, file))
  }

  /** `include(file, dest)`; `None` where the source returns `undefined`. */
  function Include(file: String, dest: String): Option<String> {
    var path := IncludedPath(file, dest);
    if LastPiece(path) == "css" then Some(LinkTag(path))
    else if LastPiece(path) == "js" then Some(ScriptTag(path))
    else None
  }

  /** A stylesheet link comes out exactly for a path named `css` or ending in `.css`, a script
      exactly for one named `js` or ending in `.js`, and nothing for any other path. */
  lemma IncludeKind(file: String, dest: String)
    ensures var path := IncludedPath(file, dest);
            (HasExtension(path, "css") ==> Include(file, dest) == Some(LinkTag(path))) &&
            (HasExtension(path, "js") ==> Include(file, dest) == Some(ScriptTag(path))) &&
            (Include(file, dest).None? <==> !HasExtension(path, "css") && !HasExtension(path, "js"))
  {
    var path := IncludedPath(file, dest);
    LastPieceIs(path, "css");
    LastPieceIs(path, "js");
  }

  /** The last piece is `ext` (a name without dots) exactly when the path has extension `ext`. */
  lemma LastPieceIs(p: String, ext: String)
    requires ext != [] && Free(ext, '.')
    ensures LastPiece(p) == ext <==> HasExtension(p, ext)
  {
    var n := LastPieceAt(p);
    var d := |p| - |ext|;
    if HasExtension(p, ext) {
      if p == ext {
        assert n == 0 by {
          if n > 0 { assert false; }
        }
      } else {
        assert p[d - 1] == '.' by { assert p[d - 1] == p[d - 1..][0]; }
        assert p[d..] == ext by { assert p[d..] == p[d - 1..][1..]; }
        forall j | n <= j < |p| ensures p[j] != '.' {
          assert p[j] == p[n..][j - n];
        }
        forall j | d <= j < |p| ensures p[j] != '.' {
          assert p[j] == ext[j - d];
        }
        assert n == d;
      }
      assert LastPiece(p) == ext;
    }
    if LastPiece(p) == ext && n > 0 {
      assert p[n - 1..] == "." + ext;
    }
  }

  /** The last piece of a split on `.` is the dot-free tail of the text after its last `.`. */
  lemma {:induction false} LastPieceAt(p: String) returns (n: nat)
    ensures n <= |p| && LastPiece(p) == p[n..] && Free(p[n..], '.') && (n > 0 ==> p[n - 1] == '.')
    decreases |p|
  {
    IndexOfIsFirst(p, ".", 0);
    match IndexOf(p, ".", 0)
    case None =>
      n := 0;
      WithoutDot(p);
    case Some(i) =>
      var rest := p[i + 1..];
      var m := LastPieceAt(rest);
      LastPieceAfterDot(p, i);
      n := i + 1 + m;
      assert p[n..] == rest[m..];
      if m == 0 {
        assert p[i..i + 1] == ".";
      } else {
        assert p[n - 1] == rest[m - 1];
      }
  }

  /** A text in which no `.` occurs is its own last piece and holds no dot. */
  lemma WithoutDot(p: String)
    requires forall k :: 0 <= k <= |p| ==> !OccursAt(p, ".", k)
    ensures LastPiece(p) == p && Free(p, '.')
  {
    forall k | 0 <= k < |p| ensures p[k] != '.' {
      assert !OccursAt(p, ".", k);
      assert p[k..k + 1] == [p[k]];
    }
    IndexOfIsFirst(p, ".", 0);
    assert IndexOf(p, ".", 0).None?;
  }

  /** The last piece of a text is the last piece of what follows its first `.`. */
  lemma LastPieceAfterDot(p: String, i: nat)
    requires IndexOf(p, ".", 0) == Some(i)
    ensures LastPiece(p) == LastPiece(p[i + 1..])
  {
    var sep := ".";
    assert |sep| == 1;
    var a := Split(p, sep);
    var b := Split(p[i + |sep|..], sep);
    assert a == [p[..i]] + b;
    assert a[|a| - 1] == b[|b| - 1];
  }

  /** A local asset without backslashes and without `..` segments is linked by a path that,
      followed from the page's directory, leads to the asset. */
  lemma LocalResolves(file: String, dest: String)
    requires !HasScheme(file) && Free(file, '\\')
    requires forall k :: 0 <= k < |Segments(file)| ==> Segments(file)[k] != ".."
    ensures IncludedPath(file, dest) == Relative(dest, file)
    ensures Resolve(Segments(dest), Segments(IncludedPath(file, dest))) == Segments(file)
  {
    RelativeFree(dest, file);
    RelativePath(dest, file);
  }

  /** `path.relative` brings in no backslash the target path does not have. */
  lemma RelativeFree(from: String, to: String)
    requires Free(to, '\\')
    ensures Free(Relative(from, to), '\\')
  {
    SplitFree(to, "/");
    NonEmptyPiecesFrom(Split(to, "/"));
    var rel := RelativeSegments(Segments(from), Segments(to));
    RelativeSegmentsFrom(Segments(from), Segments(to));
    forall k | 0 <= k < |rel| ensures Free(rel[k], '\\') {
      if rel[k] != ".." {
        var j :| 0 <= j < |Segments(to)| && rel[k] == Segments(to)[j];
        var i :| 0 <= i < |Split(to, "/")| && Segments(to)[j] == Split(to, "/")[i];
      }
    }
    JoinFree(rel, "/");
  }

  /** The pieces of a split text hold no character the text does not. */
  lemma {:induction false} SplitFree(s: String, sep: String)
    requires |sep| > 0 && Free(s, '\\')
    ensures forall k :: 0 <= k < |Split(s, sep)| ==> Free(Split(s, sep)[k], '\\')
    decreases |s|
  {
    match IndexOf(s, sep, 0)
    case None =>
    case Some(i) =>
      var rest := s[i + |sep|..];
      assert Free(s[..i], '\\') by {
        forall k | 0 <= k < i ensures s[..i][k] != '\\' {
          assert s[..i][k] == s[k];
        }
      }
      assert Free(rest, '\\') by {
        forall k | 0 <= k < |rest| ensures rest[k] != '\\' {
          assert rest[k] == s[i + |sep| + k];
        }
      }
      SplitFree(rest, sep);
      assert Split(s, sep) == [s[..i]] + Split(rest, sep);
  }

  /** Every non-empty piece is one of the pieces. */
  lemma {:induction false} NonEmptyPiecesFrom(parts: seq<String>)
    ensures forall k :: 0 <= k < |NonEmptyPieces(parts)| ==>
              exists j :: 0 <= j < |parts| && NonEmptyPieces(parts)[k] == parts[j]
    decreases |parts|
  {
    if parts != [] {
      NonEmptyPiecesFrom(parts[1..]);
      var r := NonEmptyPieces(parts);
      var head := if parts[0] == [] then [] else [parts[0]];
      assert r == head + NonEmptyPieces(parts[1..]);
      forall k | 0 <= k < |r| ensures exists j :: 0 <= j < |parts| && r[k] == parts[j] {
        if k < |head| {
          assert r[k] == parts[0];
        } else {
          var j :| 0 <= j < |parts[1..]| && NonEmptyPieces(parts[1..])[k - |head|] == parts[1..][j];
          assert r[k] == NonEmptyPieces(parts[1..])[k - |head|];
          assert r[k] == parts[j + 1];
        }
      }
      assert forall k :: 0 <= k < |r| ==> exists j :: 0 <= j < |parts| && r[k] == parts[j];
    } else {
      assert NonEmptyPieces(parts) == [];
    }
  }

  /** Every relative segment is `..` or a segment of the target. */
  lemma {:induction false} RelativeSegmentsFrom(from: seq<String>, to: seq<String>)
    ensures forall k :: 0 <= k < |RelativeSegments(from, to)| ==>
              RelativeSegments(from, to)[k] == ".." ||
              exists j :: 0 <= j < |to| && RelativeSegments(from, to)[k] == to[j]
    decreases |from|
  {
    if from != [] && to != [] && from[0] == to[0] {
      RelativeSegmentsFrom(from[1..], to[1..]);
      var r := RelativeSegments(from, to);
      forall k | 0 <= k < |r| && r[k] != ".." ensures exists j :: 0 <= j < |to| && r[k] == to[j] {
        var j :| 0 <= j < |to[1..]| && r[k] == to[1..][j];
        assert r[k] == to[j + 1];
      }
    } else {
      var r := Ups(|from|) + to;
      forall k | 0 <= k < |r| && r[k] != ".." ensures exists j :: 0 <= j < |to| && r[k] == to[j] {
        assert r[k] == to[k - |from|];
      }
    }
  }

  /** Joining texts without backslashes with a separator without one gives a text without one. */
  lemma {:induction false} JoinFree(parts: seq<String>, sep: String)
    requires Free(sep, '\\') && forall k :: 0 <= k < |parts| ==> Free(parts[k], '\\')
    ensures Free(Join(parts, sep), '\\')
    decreases |parts|
  {
    if |parts| > 1 {
      JoinFree(parts[1..], sep);
      var rest := Join(parts[1..], sep);
      var j := parts[0] + sep + rest;
      forall k | 0 <= k < |j| ensures j[k] != '\\' {
        if k < |parts[0]| {
          assert j[k] == parts[0][k];
        } else if k < |parts[0]| + |sep| {
          assert j[k] == sep[k - |parts[0]|];
        } else {
          assert j[k] == rest[k - |parts[0]| - |sep|];
        }
      }
    }
  }
}
