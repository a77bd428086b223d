/**
  String primitives with the semantics of the JavaScript built-ins the generator relies on:
  `indexOf`, `replace` with a string pattern, `replace` with a (global or non-global) regular
  expression that is an alternation of literal strings, `split` on a literal separator, and
  `trim`. Strings are sequences of UTF-16 code units, modelled as `seq<char>`.
 */
module Text {

  type String = seq<char>

  datatype Option<+T> = None | Some(value: T)

  /** `pat` occurs in `s` starting at index `i`. */
  predicate OccursAt(s: String, pat: String, i: nat) {
    i + |pat| <= |s| && s[i..i + |pat|] == pat
  }

  /** `pat` occurs nowhere in `s`. */
  ghost predicate Absent(s: String, pat: String) {
    forall k :: 0 <= k <= |s| ==> !OccursAt(s, pat, k)
  }

  /** `s.indexOf(pat, from)`: the first position at or after `from` where `pat` occurs. */
  function IndexOf(s: String, pat: String, from: nat): (r: Option<nat>)
    requires from <= |s|
    ensures r.Some? ==> from <= r.value <= |s| - |pat| && OccursAt(s, pat, r.value)
    decreases |s| - from
  {
    if OccursAt(s, pat, from) then Some(from)
    else if from == |s| then None
    else IndexOf(s, pat, from + 1)
  }

  /** The position `IndexOf` finds is the first occurrence, and when it finds none there is
      none at all. */
  lemma {:induction false} IndexOfIsFirst(s: String, pat: String, from: nat)
    requires from <= |s|
    ensures var r := IndexOf(s, pat, from);
            (r.Some? ==> forall k :: from <= k < r.value ==> !OccursAt(s, pat, k)) &&
            (r.None? ==> forall k :: from <= k <= |s| ==> !OccursAt(s, pat, k))
    decreases |s| - from
  {
    if !OccursAt(s, pat, from) && from < |s| {
      IndexOfIsFirst(s, pat, from + 1);
    }
  }

  /** `s.indexOf(pat) !== -1`, and equally `s.match(pat)` for a literal pattern. */
  function Contains(s: String, pat: String): bool
  {
    IndexOf(s, pat, 0).Some?
  }

  /** An occurrence with none before it (from `from` on) is the one `IndexOf` finds. */
  lemma {:induction false} IndexOfAt(s: String, pat: String, from: nat, i: nat)
    requires from <= i <= |s| && OccursAt(s, pat, i)
    requires forall j :: from <= j < i ==> !OccursAt(s, pat, j)
    ensures IndexOf(s, pat, from) == Some(i)
    decreases i - from
  {
    if from < i {
      IndexOfAt(s, pat, from + 1, i);
    }
  }

  /** `Contains` holds exactly when the pattern occurs somewhere. */
  lemma ContainsIffOccurs(s: String, pat: String)
    ensures Contains(s, pat) <==> !Absent(s, pat)
  {
    IndexOfIsFirst(s, pat, 0);
  }

  /** Searching from `d` is searching the suffix that starts at `d`, shifted. */
  lemma IndexOfFrom(s: String, pat: String, d: nat)
    requires d <= |s|
    ensures IndexOf(s, pat, d).Some? <==> IndexOf(s[d..], pat, 0).Some?
    ensures IndexOf(s, pat, d).Some? ==> IndexOf(s, pat, d).value == IndexOf(s[d..], pat, 0).value + d
  {
    IndexOfIsFirst(s, pat, d);
    IndexOfIsFirst(s[d..], pat, 0);
    if IndexOf(s, pat, d).Some? {
      OccursInSuffix(s, pat, d, IndexOf(s, pat, d).value - d);
    }
    if IndexOf(s[d..], pat, 0).Some? {
      OccursInSuffix(s, pat, d, IndexOf(s[d..], pat, 0).value);
    }
  }

  /** `s.replace(pat, rep)` with a STRING pattern: only the first occurrence is replaced. */
  function ReplaceFirst(s: String, pat: String, rep: String): (r: String)
  {
    var i := IndexOf(s, pat, 0);
    if i.None? then s else s[..i.value] + rep + s[i.value + |pat|..]
  }

  /** `ReplaceFirst` at an occurrence before which the pattern's first character never appears. */
  lemma ReplaceFirstAt(s: String, pat: String, rep: String, i: nat)
    requires |pat| > 0 && OccursAt(s, pat, i) && forall k :: 0 <= k < i ==> s[k] != pat[0]
    ensures ReplaceFirst(s, pat, rep) == s[..i] + rep + s[i + |pat|..]
  {
    forall j | 0 <= j < i ensures !OccursAt(s, pat, j) {
      assert s[j..j + |pat|][0] == s[j];
    }
    IndexOfAt(s, pat, 0, i);
  }

  /** Putting `pat` back where `ReplaceFirst` deleted it gives back the input. */
  lemma ReplaceFirstInverse(s: String, pat: String)
    requires Contains(s, pat)
    ensures var i := IndexOf(s, pat, 0).value;
            var r := ReplaceFirst(s, pat, []);
            r[..i] + pat + r[i..] == s
  {
    var i := IndexOf(s, pat, 0).value;
    var r := ReplaceFirst(s, pat, []);
    assert r[..i] == s[..i] && r[i..] == s[i + |pat|..];
    assert s == s[..i] + s[i..i + |pat|] + s[i + |pat|..];
  }

  /** Occurrences in a suffix are occurrences in the whole string, shifted. */
  lemma OccursInSuffix(s: String, pat: String, d: nat, k: nat)
    requires d <= |s|
    ensures OccursAt(s[d..], pat, k) <==> OccursAt(s, pat, k + d)
  {
    if k + |pat| <= |s| - d {
      assert s[d..][k..k + |pat|] == s[k + d..k + d + |pat|];
    }
  }

  /** Occurrences in a prefix are occurrences in the whole string, and conversely when
      they end inside the prefix. */
  lemma OccursInPrefix(s: String, pat: String, n: nat, k: nat)
    requires n <= |s|
    ensures OccursAt(s[..n], pat, k) <==> OccursAt(s, pat, k) && k + |pat| <= n
  {
    if k + |pat| <= n {
      assert s[..n][k..k + |pat|] == s[k..k + |pat|];
    }
  }

  /** All alternatives of a regular expression `a|b|c` are non-empty literals. */
  predicate NonEmpty(alts: seq<String>) {
    forall k :: 0 <= k < |alts| ==> |alts[k]| > 0
  }

  /** No alternative contains the character `c`. */
  predicate Avoids(alts: seq<String>, c: char) {
    forall k, t :: 0 <= k < |alts| && 0 <= t < |alts[k]| ==> alts[k][t] != c
  }

  /** The alternative that the regular expression `alts[0]|alts[1]|...` picks at position `i`:
      the first one in order that occurs there. */
  function MatchAt(s: String, alts: seq<String>, i: nat): (r: Option<nat>)
    ensures r.Some? ==> r.value < |alts| && OccursAt(s, alts[r.value], i)
    ensures r.Some? ==> forall k {:trigger OccursAt(s, alts[k], i)} :: 0 <= k < r.value ==> !OccursAt(s, alts[k], i)
    ensures r.None? ==> forall k {:trigger OccursAt(s, alts[k], i)} :: 0 <= k < |alts| ==> !OccursAt(s, alts[k], i)
  {
    if alts == [] then None
    else if OccursAt(s, alts[0], i) then Some(0)
    else match MatchAt(s, alts[1..], i)
      case None => None
      case Some(k) => Some(k + 1)
  }

  /** `s.replace(/alts/g, rep)`: scan left to right; where an alternative matches, emit `rep`
      and resume after the match; otherwise copy one character. */
  function ReplaceAll(s: String, alts: seq<String>, rep: String): (r: String)
    requires NonEmpty(alts)
    decreases |s|
  {
    if s == [] then []
    else match MatchAt(s, alts, 0)
      case Some(k) => rep + ReplaceAll(s[|alts[k]|..], alts, rep)
      case None => [s[0]] + ReplaceAll(s[1..], alts, rep)
  }

  /** `s.replace(/alts/, rep)` (no `g` flag): only the leftmost match is replaced. */
  function ReplaceOnce(s: String, alts: seq<String>, rep: String): (r: String)
    requires NonEmpty(alts)
    decreases |s|
  {
    if s == [] then []
    else match MatchAt(s, alts, 0)
      case Some(k) => rep + s[|alts[k]|..]
      case None => [s[0]] + ReplaceOnce(s[1..], alts, rep)
  }

  /** A regular expression made of one non-empty literal replaces exactly what the string
      form of `replace` does: the first occurrence. */
  lemma {:induction false} ReplaceOnceIsReplaceFirst(s: String, pat: String, rep: String)
    requires |pat| > 0
    ensures ReplaceOnce(s, [pat], rep) == ReplaceFirst(s, pat, rep)
    decreases |s|
  {
    if s == [] {
      assert IndexOf(s, pat, 0) == None;
    } else if OccursAt(s, pat, 0) {
      assert IndexOf(s, pat, 0) == Some(0);
    } else {
      ReplaceOnceIsReplaceFirst(s[1..], pat, rep);
      ReplaceFirstStep(s, pat, rep);
    }
  }

  /** Where the pattern does not occur at the front, `ReplaceFirst` keeps the first character
      and works on the rest. */
  lemma ReplaceFirstStep(s: String, pat: String, rep: String)
    requires s != [] && !OccursAt(s, pat, 0)
    ensures ReplaceFirst(s, pat, rep) == [s[0]] + ReplaceFirst(s[1..], pat, rep)
  {
    var t := s[1..];
    assert IndexOf(s, pat, 0) == IndexOf(s, pat, 1);
    IndexOfFrom(s, pat, 1);
    if IndexOf(t, pat, 0).Some? {
      var j := IndexOf(t, pat, 0).value;
      SpliceCons(s, rep, j + 1, |pat|, ReplaceFirst(t, pat, rep));
    }
  }

  /** A pattern that avoids the first character of `b` occurs at the front of `a + b`
      exactly when it occurs at the front of `a`. */
  lemma OccursFrontConcat(a: String, b: String, pat: String)
    requires |pat| > 0 && b != [] && forall t :: 0 <= t < |pat| ==> pat[t] != b[0]
    ensures OccursAt(a + b, pat, 0) <==> OccursAt(a, pat, 0)
  {
    if |pat| <= |a| {
      assert (a + b)[..|pat|] == a[..|pat|];
    } else if |pat| <= |a + b| {
      assert (a + b)[..|pat|][|a|] == b[0] != pat[|a|];
    }
  }

  /** Matching the alternation at the front ignores a tail that starts with a character no
      alternative contains. */
  lemma {:induction false} MatchAtConcat(a: String, b: String, alts: seq<String>)
    requires NonEmpty(alts) && b != [] && Avoids(alts, b[0])
    ensures MatchAt(a + b, alts, 0) == MatchAt(a, alts, 0)
  {
    if alts != [] {
      OccursFrontConcat(a, b, alts[0]);
      MatchAtConcat(a, b, alts[1..]);
    }
  }

  /** Global replacement distributes over a concatenation whose second part starts with a
      character that no alternative contains: no match can straddle the seam. */
  lemma {:induction false} ReplaceAllConcat(a: String, b: String, alts: seq<String>, rep: String)
    requires NonEmpty(alts) && b != [] && Avoids(alts, b[0])
    ensures ReplaceAll(a + b, alts, rep) == ReplaceAll(a, alts, rep) + ReplaceAll(b, alts, rep)
    decreases |a|
  {
    if a != [] {
      var n := StepLength(a, b, alts);
      ReplaceAllConcat(a[n..], b, alts, rep);
      ConcatStep(a, b, alts, rep, n);
    } else {
      assert a + b == b;
      assert ReplaceAll(a, alts, rep) == [];
      AppendEmpty(ReplaceAll(b, alts, rep));
    }
  }

  /** The empty string is a left unit of concatenation. */
  lemma AppendEmpty(x: String)
    ensures [] + x == x
  {
  }

  /** Dropping a prefix of the first part of a concatenation. */
  lemma DropConcat(a: String, b: String, n: nat)
    requires n <= |a|
    ensures (a + b)[n..] == a[n..] + b
  {
  }

  /** What one step of a global replacement consumes from the front of `a`, and equally from
      the front of `a + b`. */
  lemma StepLength(a: String, b: String, alts: seq<String>) returns (n: nat)
    requires NonEmpty(alts) && a != [] && b != [] && Avoids(alts, b[0])
    ensures MatchAt(a + b, alts, 0) == MatchAt(a, alts, 0)
    ensures n == if MatchAt(a, alts, 0).Some? then |alts[MatchAt(a, alts, 0).value]| else 1
    ensures 0 < n <= |a|
  {
    MatchAtConcat(a, b, alts);
    var m := MatchAt(a, alts, 0);
    n := if m.Some? then |alts[m.value]| else 1;
  }

  /** One step of `ReplaceAllConcat`: what the first match (or the copied character) consumes
      is consumed from `a + b` alike. */
  lemma ConcatStep(a: String, b: String, alts: seq<String>, rep: String, n: nat)
    requires NonEmpty(alts) && a != [] && MatchAt(a + b, alts, 0) == MatchAt(a, alts, 0)
    requires n == if MatchAt(a, alts, 0).Some? then |alts[MatchAt(a, alts, 0).value]| else 1
    requires n <= |a| && ReplaceAll(a[n..] + b, alts, rep) == ReplaceAll(a[n..], alts, rep) + ReplaceAll(b, alts, rep)
    ensures ReplaceAll(a + b, alts, rep) == ReplaceAll(a, alts, rep) + ReplaceAll(b, alts, rep)
  {
    DropConcat(a, b, n);
    match MatchAt(a, alts, 0)
    case Some(k) =>
      UnfoldMatch(a + b, alts, rep, k);
      UnfoldMatch(a, alts, rep, k);
      AppendAssoc(rep, ReplaceAll(a[n..], alts, rep), ReplaceAll(b, alts, rep));
    case None =>
      UnfoldCopy(a + b, alts, rep);
      UnfoldCopy(a, alts, rep);
      assert (a + b)[0] == a[0];
      AppendAssoc([a[0]], ReplaceAll(a[n..], alts, rep), ReplaceAll(b, alts, rep));
  }

  /** Concatenation is associative. */
  lemma AppendAssoc(x: String, y: String, z: String)
    ensures (x + y) + z == x + (y + z)
  {
  }

  /** A global replacement that matches alternative `k` at the front emits `rep` for it. */
  lemma UnfoldMatch(s: String, alts: seq<String>, rep: String, k: nat)
    requires NonEmpty(alts) && s != [] && MatchAt(s, alts, 0) == Some(k)
    ensures ReplaceAll(s, alts, rep) == rep + ReplaceAll(s[|alts[k]|..], alts, rep)
  {
  }

  /** A global replacement that matches nothing at the front copies the first character. */
  lemma UnfoldCopy(s: String, alts: seq<String>, rep: String)
    requires NonEmpty(alts) && s != [] && MatchAt(s, alts, 0).None?
    ensures ReplaceAll(s, alts, rep) == [s[0]] + ReplaceAll(s[1..], alts, rep)
  {
  }

  /** A character that no alternative contains is copied as it is. */
  lemma ReplaceAllCopies(s: String, alts: seq<String>, rep: String)
    requires NonEmpty(alts) && s != [] && Avoids(alts, s[0])
    ensures ReplaceAll(s, alts, rep) == [s[0]] + ReplaceAll(s[1..], alts, rep)
  {
    assert s == [] + s;
    MatchAtConcat([], s, alts);
  }

  /** The output of a global replacement starts with a backtick exactly when the input does,
      when neither the alternatives nor the (non-empty) replacement contain one. */
  lemma ReplaceAllHeadTick(s: String, alts: seq<String>, rep: String)
    requires NonEmpty(alts) && Avoids(alts, '`') && |rep| > 0 && forall t :: 0 <= t < |rep| ==> rep[t] != '`'
    ensures var r := ReplaceAll(s, alts, rep);
            (r != [] && r[0] == '`') <==> (s != [] && s[0] == '`')
  {
    if s != [] && s[0] == '`' {
      ReplaceAllCopies(s, alts, rep);
    }
  }

  /** A global replacement whose alternatives and non-empty replacement contain no backtick
      cannot create a run of three backticks, the markdown fence. */
  lemma {:induction false} ReplaceAllKeepsNoFence(s: String, alts: seq<String>, rep: String)
    requires NonEmpty(alts) && Avoids(alts, '`') && |rep| > 0 && forall t :: 0 <= t < |rep| ==> rep[t] != '`'
    requires Absent(s, "```")
    ensures Absent(ReplaceAll(s, alts, rep), "```")
    decreases |s|
  {
    var r := ReplaceAll(s, alts, rep);
    if s != [] {
      match MatchAt(s, alts, 0)
      case Some(k) =>
        var tail := s[|alts[k]|..];
        NoFenceInSuffix(s, |alts[k]|);
        ReplaceAllKeepsNoFence(tail, alts, rep);
        var rt := ReplaceAll(tail, alts, rep);
        assert r == rep + rt;
        forall p | 0 <= p <= |r| ensures !OccursAt(r, "```", p) {
          FenceIff(r, p);
          if p >= |rep| {
            OccursInSuffix(r, "```", |rep|, p - |rep|);
            assert r[|rep|..] == rt;
          }
        }
      case None =>
        var tail := s[1..];
        NoFenceInSuffix(s, 1);
        ReplaceAllKeepsNoFence(tail, alts, rep);
        var rt := ReplaceAll(tail, alts, rep);
        assert r == [s[0]] + rt;
        forall p | 0 <= p <= |r| ensures !OccursAt(r, "```", p) {
          FenceIff(r, p);
          if p == 0 {
            FenceIff(s, 0);
            ReplaceAllHeadTick(tail, alts, rep);
            if tail != [] && tail[0] == '`' {
              ReplaceAllCopies(tail, alts, rep);
              ReplaceAllHeadTick(tail[1..], alts, rep);
            }
          } else {
            OccursInSuffix(r, "```", 1, p - 1);
            assert r[1..] == rt;
          }
        }
    }
  }

  /** The markdown fence occurs at `k` exactly when three backticks start there. */
  lemma FenceIff(s: String, k: nat)
    ensures OccursAt(s, "```", k) <==> k + 3 <= |s| && s[k] == '`' && s[k + 1] == '`' && s[k + 2] == '`'
  {
    if k + 3 <= |s| && s[k] == '`' && s[k + 1] == '`' && s[k + 2] == '`' {
      assert s[k..k + 3] == "```";
    }
  }

  /** A suffix of a string without a fence has no fence either. */
  lemma NoFenceInSuffix(s: String, d: nat)
    requires d <= |s| && Absent(s, "```")
    ensures Absent(s[d..], "```")
  {
    forall k | 0 <= k <= |s[d..]| ensures !OccursAt(s[d..], "```", k) {
      OccursInSuffix(s, "```", d, k);
    }
  }

  /** A prefix of a string without a fence has no fence either. */
  lemma NoFenceInPrefix(s: String, n: nat)
    requires n <= |s| && Absent(s, "```")
    ensures Absent(s[..n], "```")
  {
    forall k | 0 <= k <= |s[..n]| ensures !OccursAt(s[..n], "```", k) {
      OccursInPrefix(s, "```", n, k);
    }
  }

  /** Putting a character other than a backtick in front of a string without a fence does not
      create one. */
  lemma NoFenceAfterChar(c: char, s: String)
    requires c != '`' && Absent(s, "```")
    ensures Absent([c] + s, "```")
  {
    var t := [c] + s;
    forall k | 0 <= k <= |t| ensures !OccursAt(t, "```", k) {
      FenceIff(t, k);
      if k > 0 {
        FenceIff(s, k - 1);
      }
    }
  }

  /** Putting a character other than a backtick after a string without a fence does not create
      one. */
  lemma NoFenceBeforeChar(s: String, c: char)
    requires c != '`' && Absent(s, "```")
    ensures Absent(s + [c], "```")
  {
    var t := s + [c];
    forall k | 0 <= k <= |t| ensures !OccursAt(t, "```", k) {
      FenceIff(t, k);
      if k <= |s| {
        FenceIff(s, k);
      }
    }
  }

  /** In a text `t + x` where `t` holds no fence and does not end in a backtick, and `x` starts
      with a fence, the first fence is the one that starts `x`. */
  lemma FirstFenceAt(t: String, x: String)
    requires Absent(t, "```") && (t == [] || t[|t| - 1] != '`')
    requires |x| >= 3 && x[..3] == "```"
    ensures IndexOf(t + x, "```", 0) == Some(|t|)
  {
    var s := t + x;
    assert s[|t|..|t| + 3] == x[..3];
    forall j | 0 <= j < |t| ensures !OccursAt(s, "```", j) {
      FenceIff(s, j);
      FenceIff(t, j);
    }
    IndexOfAt(s, "```", 0, |t|);
  }

  /** Where a pattern occurs, so does each of its prefixes. */
  lemma OccursPrefix(s: String, pat: String, pre: String, n: nat)
    requires |pre| <= |pat| && pat[..|pre|] == pre && OccursAt(s, pat, n)
    ensures OccursAt(s, pre, n)
  {
    assert s[n..n + |pre|] == s[n..n + |pat|][..|pre|];
  }

  /** Matching the alternation in a suffix is matching it at the shifted position. */
  lemma {:induction false} MatchAtShift(s: String, alts: seq<String>, d: nat, k: nat)
    requires d <= |s|
    ensures MatchAt(s[d..], alts, k) == MatchAt(s, alts, k + d)
  {
    if alts != [] {
      OccursInSuffix(s, alts[0], d, k);
      MatchAtShift(s, alts[1..], d, k);
    }
  }

  /** Dropping the first character shifts the first match one place to the left. */
  lemma NoMatchBeforeShift(s: String, alts: seq<String>, i: nat, a: nat)
    requires 0 < i <= |s| && MatchAt(s, alts, i) == Some(a)
    requires forall k, b :: 0 <= k < i && 0 <= b < |alts| ==> !OccursAt(s, alts[b], k)
    ensures MatchAt(s, alts, 0).None?
    ensures MatchAt(s[1..], alts, i - 1) == Some(a)
    ensures forall k, b :: 0 <= k < i - 1 && 0 <= b < |alts| ==> !OccursAt(s[1..], alts[b], k)
  {
    assert MatchAt(s, alts, 0).None?;
    MatchAtShift(s, alts, 1, i - 1);
    forall k, b | 0 <= k < i - 1 && 0 <= b < |alts| ensures !OccursAt(s[1..], alts[b], k) {
      OccursInSuffix(s, alts[b], 1, k);
    }
  }

  /** Where nothing matches at the front, a single replacement keeps the first character and
      works on the rest. */
  lemma ReplaceOnceCons(s: String, alts: seq<String>, rep: String)
    requires NonEmpty(alts) && s != [] && MatchAt(s, alts, 0).None?
    ensures ReplaceOnce(s, alts, rep) == [s[0]] + ReplaceOnce(s[1..], alts, rep)
  {
  }

  /** Putting back the first character in front of a splice in the rest is the same splice in
      the whole, one place further right. */
  lemma SpliceCons(s: String, rep: String, i: nat, n: nat, rest: String)
    requires 0 < i && i + n <= |s|
    requires rest == s[1..][..i - 1] + rep + s[1..][i - 1 + n..]
    ensures [s[0]] + rest == s[..i] + rep + s[i + n..]
  {
    assert [s[0]] + s[1..][..i - 1] == s[..i];
    assert s[1..][i - 1 + n..] == s[i + n..];
  }

  /** A single replacement acts at the first position where some alternative occurs. */
  lemma {:induction false} ReplaceOnceAt(s: String, alts: seq<String>, rep: String, i: nat, a: nat)
    requires NonEmpty(alts) && a < |alts| && MatchAt(s, alts, i) == Some(a)
    requires forall k, b :: 0 <= k < i && 0 <= b < |alts| ==> !OccursAt(s, alts[b], k)
    ensures i + |alts[a]| <= |s|
    ensures ReplaceOnce(s, alts, rep) == s[..i] + rep + s[i + |alts[a]|..]
    decreases i
  {
    if i > 0 {
      NoMatchBeforeShift(s, alts, i, a);
      ReplaceOnceAt(s[1..], alts, rep, i - 1, a);
      ReplaceOnceCons(s, alts, rep);
      SpliceCons(s, rep, i, |alts[a]|, ReplaceOnce(s[1..], alts, rep));
    }
  }

  /** `s.split(sep)` for a non-empty literal separator (string or regular expression). */
  function Split(s: String, sep: String): (r: seq<String>)
    requires |sep| > 0
    ensures |r| >= 1
    decreases |s|
  {
    match IndexOf(s, sep, 0)
    case None => [s]
    case Some(i) => [s[..i]] + Split(s[i + |sep|..], sep)
  }

  /** `parts.join(sep)`. */
  function Join(parts: seq<String>, sep: String): String
  {
    if parts == [] then []
    else if |parts| == 1 then parts[0]
    else parts[0] + sep + Join(parts[1..], sep)
  }

  /** Splitting and joining again gives back the input, no piece contains the separator, and
      there are at least two pieces exactly when the separator occurs. */
  lemma {:induction false} SplitJoin(s: String, sep: String)
    requires |sep| > 0
    ensures Join(Split(s, sep), sep) == s
    ensures forall k :: 0 <= k < |Split(s, sep)| ==> Absent(Split(s, sep)[k], sep)
    ensures |Split(s, sep)| >= 2 <==> Contains(s, sep)
    decreases |s|
  {
    IndexOfIsFirst(s, sep, 0);
    match IndexOf(s, sep, 0)
    case None =>
    case Some(i) =>
      var rest := s[i + |sep|..];
      SplitJoin(rest, sep);
      assert s == s[..i] + sep + rest by {
        assert s == s[..i] + s[i..i + |sep|] + rest;
      }
      var parts := Split(s, sep);
      assert parts[1..] == Split(rest, sep);
      forall k | 0 <= k <= |s[..i]| ensures !OccursAt(s[..i], sep, k) {
        OccursInPrefix(s, sep, i, k);
      }
      forall k | 0 <= k < |parts| ensures Absent(parts[k], sep) {
        if k > 0 { assert parts[k] == Split(rest, sep)[k - 1]; }
      }
  }

  /** A global replacement copies a prefix in which the pattern starts nowhere. */
  lemma {:induction false} ReplaceAllCopiesPrefix(s: String, pat: String, rep: String, i: nat)
    requires |pat| > 0 && i <= |s|
    requires forall k :: 0 <= k < i ==> !OccursAt(s, pat, k)
    ensures ReplaceAll(s, [pat], rep) == s[..i] + ReplaceAll(s[i..], [pat], rep)
    decreases i
  {
    if i > 0 {
      assert !OccursAt(s, pat, 0);
      UnfoldCopy(s, [pat], rep);
      forall k | 0 <= k < i - 1 ensures !OccursAt(s[1..], pat, k) {
        OccursInSuffix(s, pat, 1, k);
      }
      ReplaceAllCopiesPrefix(s[1..], pat, rep, i - 1);
      assert s[1..][i - 1..] == s[i..];
      assert [s[0]] + s[1..][..i - 1] == s[..i];
      AppendAssoc([s[0]], s[1..][..i - 1], ReplaceAll(s[i..], [pat], rep));
    }
  }

  /** Replacing every occurrence of one literal is splitting at it and joining with the
      replacement. */
  lemma {:induction false} ReplaceAllIsSplitJoin(s: String, pat: String, rep: String)
    requires |pat| > 0
    ensures ReplaceAll(s, [pat], rep) == Join(Split(s, pat), rep)
    decreases |s|
  {
    IndexOfIsFirst(s, pat, 0);
    match IndexOf(s, pat, 0)
    case None =>
      ReplaceAllCopiesPrefix(s, pat, rep, |s|);
      assert s[..|s|] == s && s[|s|..] == [];
    case Some(i) =>
      var rest := s[i + |pat|..];
      ReplaceAllCopiesPrefix(s, pat, rep, i);
      OccursInSuffix(s, pat, i, 0);
      UnfoldMatch(s[i..], [pat], rep, 0);
      assert s[i..][|pat|..] == rest;
      ReplaceAllIsSplitJoin(rest, pat, rep);
      var parts := Split(s, pat);
      assert parts[0] == s[..i] && parts[1..] == Split(rest, pat);
      AppendAssoc(s[..i], rep, Join(Split(rest, pat), rep));
  }

  /** The second piece of a split is the first piece of what follows the first separator. */
  lemma SplitSecond(s: String, sep: String)
    requires |sep| > 0 && Contains(s, sep)
    ensures Split(s, sep)[1] == Split(s[IndexOf(s, sep, 0).value + |sep|..], sep)[0]
  {
  }

  /** The first piece of a split runs up to the first separator. */
  lemma SplitHead(s: String, sep: String)
    requires |sep| > 0
    ensures Split(s, sep)[0] == if Contains(s, sep) then s[..IndexOf(s, sep, 0).value] else s
  {
  }

  /** The first piece of a split is the text up to the first separator, or all of it; it holds
      no separator. */
  lemma FirstPiece(s: String, sep: String) returns (n: nat)
    requires |sep| > 0
    ensures n <= |s| && Split(s, sep)[0] == s[..n] && Absent(s[..n], sep)
    ensures (n == |s| && !Contains(s, sep)) || (Contains(s, sep) && n == IndexOf(s, sep, 0).value)
  {
    SplitHead(s, sep);
    IndexOfIsFirst(s, sep, 0);
    n := if Contains(s, sep) then IndexOf(s, sep, 0).value else |s|;
    forall k | 0 <= k <= |s[..n]| ensures !OccursAt(s[..n], sep, k) {
      OccursInPrefix(s, sep, n, k);
    }
  }

  /** JavaScript's white space and line terminators, the characters `trim` removes. */
  predicate IsSpace(c: char) {
    c == '\t' || c == '\n' || c == '\U{000B}' || c == '\U{000C}' || c == '\r' || c == ' ' ||
    c == '\U{00A0}' || c == '\U{1680}' || ('\U{2000}' <= c <= '\U{200A}') ||
    c == '\U{2028}' || c == '\U{2029}' || c == '\U{202F}' || c == '\U{205F}' ||
    c == '\U{3000}' || c == '\U{FEFF}'
  }

  /** The first index at or after `i` that does not hold white space (or `|s|`). */
  function SkipSpace(s: String, i: nat): (n: nat)
    requires i <= |s|
    ensures i <= n <= |s| && (n < |s| ==> !IsSpace(s[n]))
    ensures forall k :: i <= k < n ==> IsSpace(s[k])
    decreases |s| - i
  {
    if i < |s| && IsSpace(s[i]) then SkipSpace(s, i + 1) else i
  }

  /** The end of `s[lo..j]` once its trailing white space is dropped. */
  function BackSpace(s: String, lo: nat, j: nat): (m: nat)
    requires lo <= j <= |s|
    ensures lo <= m <= j && (m > lo ==> !IsSpace(s[m - 1]))
    ensures forall k :: m <= k < j ==> IsSpace(s[k])
    decreases j
  {
    if j > lo && IsSpace(s[j - 1]) then BackSpace(s, lo, j - 1) else j
  }

  /** `s.trim()`: a contiguous slice of `s` that neither starts nor ends with white space, with
      nothing but white space cut off on either side. */
  function Trim(s: String): (r: String)
    ensures exists i: nat :: OccursAt(s, r, i) &&
                             (forall k :: 0 <= k < i ==> IsSpace(s[k])) &&
                             (forall k :: i + |r| <= k < |s| ==> IsSpace(s[k]))
    ensures r != [] ==> !IsSpace(r[0]) && !IsSpace(r[|r| - 1])
  {
    var i := SkipSpace(s, 0);
    var j := BackSpace(s, i, |s|);
    assert OccursAt(s, s[i..j], i);
    s[i..j]
  }
}
