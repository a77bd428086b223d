/**
  Splitting a stylesheet's text into annotation blocks, and capturing the style source that
  follows each block.

  The generator builds the global regular expression `start([\s\S]*?)end` from the two
  comment delimiters and collects every match with `text.match(...)`. With literal delimiters
  that is a left-to-right scan: find the first `start`, then the first `end` after it (the
  lazy `*?`), emit that span and continue after it.
 */
module Sectionizer {
  import opened Text

  /** The half-open range `[lo, hi)` of one annotation block in the text. */
  datatype Span = Span(lo: nat, hi: nat)

  /** `sp` is a match of `start([\s\S]*?)end`: the delimiters sit at its two ends and no `end`
      delimiter begins earlier inside it (the match is the shortest one from `sp.lo`). */
  ghost predicate IsMatch(text: String, start: String, end: String, sp: Span) {
    sp.lo + |start| + |end| <= sp.hi <= |text| &&
    OccursAt(text, start, sp.lo) && OccursAt(text, end, sp.hi - |end|) &&
    forall k :: sp.lo + |start| <= k < sp.hi - |end| ==> !OccursAt(text, end, k)
  }

  /** No `start` delimiter begins in `[a, b)`. */
  ghost predicate Gap(text: String, start: String, a: nat, b: nat) {
    forall p :: a <= p < b ==> !OccursAt(text, start, p)
  }

  /** No match of the regular expression begins at or after `from`. */
  ghost predicate NoMatchFrom(text: String, start: String, end: String, from: nat) {
    forall p, q :: from <= p && p + |start| <= q && OccursAt(text, start, p) ==> !OccursAt(text, end, q)
  }

  /** Where the search for the `k`-th match resumes. */
  function Resume(spans: seq<Span>, from: nat, k: nat): nat
    requires k <= |spans|
  {
    if k == 0 then from else spans[k - 1].hi
  }

  /** The `k`-th span is a shortest match that begins at the first `start` after the place
      where the search resumed (leftmost, and not overlapping the previous match). */
  ghost predicate Step(text: String, start: String, end: String, spans: seq<Span>, from: nat, k: nat)
    requires k < |spans|
  {
    IsMatch(text, start, end, spans[k]) &&
    Resume(spans, from, k) <= spans[k].lo && Gap(text, start, Resume(spans, from, k), spans[k].lo)
  }

  /** The declarative meaning of a global match from `from`: every span is a leftmost,
      shortest match after the previous one, and nothing matches after the last. */
  ghost predicate Scan(text: String, start: String, end: String, from: nat, spans: seq<Span>) {
    (forall k :: 0 <= k < |spans| ==> Step(text, start, end, spans, from, k)) &&
    NoMatchFrom(text, start, end, Resume(spans, from, |spans|))
  }

  /** The first match at or after `from`: the first `start`, closed by the first `end` that
      begins after it. */
  function NextSpan(text: String, start: String, end: String, from: nat): (r: Option<Span>)
    requires from <= |text|
    ensures r.Some? ==> from <= r.value.lo && r.value.lo + |start| + |end| <= r.value.hi <= |text|
  {
    var i := IndexOf(text, start, from);
    if i.None? then None
    else
      var j := IndexOf(text, end, i.value + |start|);
      if j.None? then None else Some(Span(i.value, j.value + |end|))
  }

  /** The spans of all matches at or after `from`, in document order. */
  function Spans(text: String, start: String, end: String, from: nat): seq<Span>
    requires |start| > 0 && |end| > 0 && from <= |text|
    decreases |text| - from
  {
    var next := NextSpan(text, start, end, from);
    if next.None? then [] else [next.value] + Spans(text, start, end, next.value.hi)
  }

  /** `file.data.match(this.matching())`: the matched blocks in document order, or `None`
      (JavaScript's `null`) when there is no match at all. */
  function Matches(text: String, start: String, end: String): (r: Option<seq<String>>)
    requires |start| > 0 && |end| > 0
  {
    var spans := Spans(text, start, end, 0);
    SpansWithin(text, start, end, 0);
    if spans == [] then None else Some(Slices(text, spans))
  }

  /** Every span lies within the text. */
  lemma SpansWithin(text: String, start: String, end: String, from: nat)
    requires |start| > 0 && |end| > 0 && from <= |text|
    ensures forall k :: 0 <= k < |Spans(text, start, end, from)| ==>
              Spans(text, start, end, from)[k].lo <= Spans(text, start, end, from)[k].hi <= |text|
  {
    var spans := Spans(text, start, end, from);
    SpansScan(text, start, end, from);
    forall k | 0 <= k < |spans| ensures spans[k].lo <= spans[k].hi <= |text| {
      assert Step(text, start, end, spans, from, k);
    }
  }

  /** The text of each span. */
  function Slices(text: String, spans: seq<Span>): (r: seq<String>)
    requires forall k :: 0 <= k < |spans| ==> spans[k].lo <= spans[k].hi <= |text|
    ensures |r| == |spans|
    ensures forall k :: 0 <= k < |r| ==> r[k] == text[spans[k].lo..spans[k].hi]
  {
    if spans == [] then [] else [text[spans[0].lo..spans[0].hi]] + Slices(text, spans[1..])
  }

  /** The scan finds exactly the matches the regular expression defines. */
  lemma {:induction false} SpansScan(text: String, start: String, end: String, from: nat)
    requires |start| > 0 && |end| > 0 && from <= |text|
    ensures Scan(text, start, end, from, Spans(text, start, end, from))
    decreases |text| - from
  {
    var next := NextSpan(text, start, end, from);
    NextSpanIsFirst(text, start, end, from);
    if next.Some? {
      SpansScan(text, start, end, next.value.hi);
      ScanCons(text, start, end, from, next.value, Spans(text, start, end, next.value.hi));
    }
  }

  /** `NextSpan` finds the leftmost, shortest match, and finds none only when no match exists. */
  lemma NextSpanIsFirst(text: String, start: String, end: String, from: nat)
    requires from <= |text|
    ensures var r := NextSpan(text, start, end, from);
            (r.None? ==> NoMatchFrom(text, start, end, from)) &&
            (r.Some? ==> IsMatch(text, start, end, r.value) && Gap(text, start, from, r.value.lo))
  {
    IndexOfIsFirst(text, start, from);
    var i := IndexOf(text, start, from);
    if i.Some? {
      IndexOfIsFirst(text, end, i.value + |start|);
    }
  }

  /** A leftmost, shortest match followed by a scan from its end is a scan. */
  lemma ScanCons(text: String, start: String, end: String, from: nat, sp: Span, rest: seq<Span>)
    requires IsMatch(text, start, end, sp) && from <= sp.lo && Gap(text, start, from, sp.lo)
    requires Scan(text, start, end, sp.hi, rest)
    ensures Scan(text, start, end, from, [sp] + rest)
  {
    var all := [sp] + rest;
    forall k | 0 <= k < |all| ensures Step(text, start, end, all, from, k) {
      if k > 0 {
        assert Step(text, start, end, rest, sp.hi, k - 1);
        assert all[k] == rest[k - 1];
        assert Resume(all, from, k) == Resume(rest, sp.hi, k - 1);
      }
    }
    assert Resume(all, from, |all|) == Resume(rest, sp.hi, |rest|);
  }

  /** The declarative meaning determines the spans: any two scans from the same place agree.
      Together with `SpansScan` this says `Spans` is the one and only global match. */
  lemma {:induction false} ScanUnique(text: String, start: String, end: String, from: nat, xs: seq<Span>, ys: seq<Span>)
    requires |start| > 0 && |end| > 0
    requires Scan(text, start, end, from, xs) && Scan(text, start, end, from, ys)
    ensures xs == ys
    decreases |xs|
  {
    if xs != [] && ys != [] {
      var x, y := xs[0], ys[0];
      assert Step(text, start, end, xs, from, 0) && Step(text, start, end, ys, from, 0);
      assert OccursAt(text, start, x.lo) && OccursAt(text, start, y.lo);
      assert x.lo == y.lo;
      assert OccursAt(text, end, x.hi - |end|) && OccursAt(text, end, y.hi - |end|);
      assert x.hi == y.hi;
      ScanTail(text, start, end, from, xs);
      ScanTail(text, start, end, from, ys);
      ScanUnique(text, start, end, x.hi, xs[1..], ys[1..]);
      assert xs == [x] + xs[1..] && ys == [y] + ys[1..];
    } else if xs != [] {
      ScanFirstIsMatch(text, start, end, from, xs);
    } else if ys != [] {
      ScanFirstIsMatch(text, start, end, from, ys);
    }
  }

  /** A non-empty scan means a match exists from `from` on. */
  lemma ScanFirstIsMatch(text: String, start: String, end: String, from: nat, xs: seq<Span>)
    requires xs != [] && Scan(text, start, end, from, xs)
    ensures !NoMatchFrom(text, start, end, from)
  {
    assert Step(text, start, end, xs, from, 0);
    assert OccursAt(text, start, xs[0].lo) && OccursAt(text, end, xs[0].hi - |end|);
  }

  /** After the first match, the rest of a scan is a scan from the end of that match. */
  lemma ScanTail(text: String, start: String, end: String, from: nat, xs: seq<Span>)
    requires xs != [] && Scan(text, start, end, from, xs)
    ensures Scan(text, start, end, xs[0].hi, xs[1..])
  {
    var tl := xs[1..];
    forall k | 0 <= k < |tl| ensures Step(text, start, end, tl, xs[0].hi, k) {
      assert Step(text, start, end, xs, from, k + 1);
      assert tl[k] == xs[k + 1];
      assert Resume(tl, xs[0].hi, k) == Resume(xs, from, k + 1);
    }
    assert Resume(tl, xs[0].hi, |tl|) == Resume(xs, from, |xs|);
  }

  /** The caller's "comment missing" case: `Matches` is `None` exactly when no match exists
      anywhere in the text; otherwise every block starts with `start`, ends with `end` and
      holds no earlier `end`. */
  lemma MatchesMissing(text: String, start: String, end: String)
    requires |start| > 0 && |end| > 0
    ensures Matches(text, start, end).None? <==> NoMatchFrom(text, start, end, 0)
    ensures Matches(text, start, end).Some? ==>
              forall b :: b in Matches(text, start, end).value ==>
                |b| >= |start| + |end| && b[..|start|] == start && b[|b| - |end|..] == end &&
                forall k :: |start| <= k < |b| - |end| ==> !OccursAt(b, end, k)
  {
    var spans := Spans(text, start, end, 0);
    SpansScan(text, start, end, 0);
    if spans != [] {
      ScanFirstIsMatch(text, start, end, 0, spans);
      var blocks := Matches(text, start, end).value;
      forall b | b in blocks
        ensures |b| >= |start| + |end| && b[..|start|] == start && b[|b| - |end|..] == end
        ensures forall k :: |start| <= k < |b| - |end| ==> !OccursAt(b, end, k)
      {
        var n :| 0 <= n < |blocks| && blocks[n] == b;
        BlockShape(text, start, end, spans, n);
      }
    }
  }

  /** The text of a span that is a match starts with `start`, ends with `end`, and holds no
      earlier `end`. */
  lemma BlockShape(text: String, start: String, end: String, spans: seq<Span>, n: nat)
    requires n < |spans| && Scan(text, start, end, 0, spans)
    ensures spans[n].lo + |start| + |end| <= spans[n].hi <= |text|
    ensures var b := text[spans[n].lo..spans[n].hi];
            |b| >= |start| + |end| && b[..|start|] == start && b[|b| - |end|..] == end &&
            forall k :: |start| <= k < |b| - |end| ==> !OccursAt(b, end, k)
  {
    assert Step(text, start, end, spans, 0, n);
    var sp := spans[n];
    var b := text[sp.lo..sp.hi];
    assert b[..|start|] == text[sp.lo..sp.lo + |start|];
    assert b[|b| - |end|..] == text[sp.hi - |end|..sp.hi];
    forall k | |start| <= k < |b| - |end| ensures !OccursAt(b, end, k) {
      OccursInSuffix(text[..sp.hi], end, sp.lo, k);
      OccursInPrefix(text, end, sp.hi, k + sp.lo);
      assert text[..sp.hi][sp.lo..] == b;
    }
  }

  /** `this._sourcify(section, file)` as written: the text after the FIRST occurrence of the
      block's own text, up to the next `start` delimiter. */
  function Sourcify(data: String, section: String, start: String): String
    requires |section| > 0 && |start| > 0 && Contains(data, section)
  {
    Split(Split(data, section)[1], start)[0]
  }

  /** The style source that follows a block ending at `hi`: the verbatim text from `hi` up to
      the next `start` delimiter, or to the end of the file. */
  function StyleAfter(data: String, start: String, hi: nat): (r: String)
    requires hi <= |data|
    ensures OccursAt(data, r, hi)
    ensures forall p :: hi <= p < hi + |r| ==> !OccursAt(data, start, p)
    ensures hi + |r| == |data| || OccursAt(data, start, hi + |r|)
  {
    IndexOfIsFirst(data, start, hi);
    var next := IndexOf(data, start, hi);
    var stop := if next.Some? then next.value else |data|;
    assert OccursAt(data, data[hi..stop], hi);
    data[hi..stop]
  }

  /** The delimiter cannot overlap a shifted copy of itself. */
  ghost predicate NoSelfOverlap(pat: String) {
    forall d :: 0 < d < |pat| ==> pat[d..] != pat[..|pat| - d]
  }

  lemma DefaultStartNoSelfOverlap()
    ensures NoSelfOverlap("/*")
  {
    assert "/*"[1..] == "*" && "/*"[..1] == "/";
    assert "*"[0] != "/"[0];
  }

  /** Two occurrences of a delimiter that cannot overlap itself are at least its length apart. */
  lemma OccurrencesApart(s: String, pat: String, m: nat, j: nat)
    requires NoSelfOverlap(pat) && OccursAt(s, pat, m) && OccursAt(s, pat, j) && m < j
    ensures m + |pat| <= j
  {
    if j < m + |pat| {
      OverlapShift(s, pat, m, j);
      assert false;
    }
  }

  /** Two overlapping occurrences of a pattern show a shifted copy of it matching itself. */
  lemma OverlapShift(s: String, pat: String, m: nat, j: nat)
    requires OccursAt(s, pat, m) && OccursAt(s, pat, j) && m < j < m + |pat|
    ensures !NoSelfOverlap(pat)
  {
    var d := j - m;
    assert pat[d..] == s[j..m + |pat|];
    assert pat[..|pat| - d] == s[j..m + |pat|];
  }

  /** When the first occurrence of a block's text is the block itself, the as-written capture
      agrees with `StyleAfter`: the text from the end of the block to the next `start`. */
  lemma SourcifyAtFirstOccurrence(data: String, section: String, start: String, lo: nat)
    requires |start| > 0 && |section| >= |start| && section[..|start|] == start && NoSelfOverlap(start)
    requires IndexOf(data, section, 0) == Some(lo)
    ensures Sourcify(data, section, start) == StyleAfter(data, start, lo + |section|)
  {
    var hi := lo + |section|;
    var n := SecondPiece(data, section, lo);
    if n < |data[hi..]| {
      OccursPrefix(data[hi..], section, start, n);
    }
    FirstInPrefix(data[hi..], start, n);
    StyleAfterSplit(data, start, hi);
  }

  /** The second piece of `data.split(section)` is the text after the first occurrence, cut at
      the next occurrence (if any). */
  lemma SecondPiece(data: String, section: String, lo: nat) returns (n: nat)
    requires |section| > 0 && IndexOf(data, section, 0) == Some(lo)
    ensures n <= |data| - (lo + |section|)
    ensures Split(data, section)[1] == data[lo + |section|..][..n]
    ensures n == |data| - (lo + |section|) || OccursAt(data[lo + |section|..], section, n)
  {
    var rest := data[lo + |section|..];
    SplitSecond(data, section);
    SplitHead(rest, section);
    n := if Contains(rest, section) then IndexOf(rest, section, 0).value else |rest|;
  }

  /** Cutting a text at an occurrence of a delimiter that cannot overlap itself does not move
      the first occurrence of that delimiter out of the kept part. */
  lemma FirstInPrefix(s: String, pat: String, n: nat)
    requires |pat| > 0 && NoSelfOverlap(pat) && n <= |s| && (n == |s| || OccursAt(s, pat, n))
    ensures Split(s[..n], pat)[0] == Split(s, pat)[0]
  {
    SplitHead(s, pat);
    SplitHead(s[..n], pat);
    IndexOfIsFirst(s, pat, 0);
    IndexOfIsFirst(s[..n], pat, 0);
    if n < |s| {
      var m := IndexOf(s, pat, 0).value;
      if m < n {
        OccurrencesApart(s, pat, m, n);
        OccursInPrefix(s, pat, n, m);
        if IndexOf(s[..n], pat, 0).Some? {
          OccursInPrefix(s, pat, n, IndexOf(s[..n], pat, 0).value);
        }
        assert s[..n][..m] == s[..m];
      } else if IndexOf(s[..n], pat, 0).Some? {
        OccursInPrefix(s, pat, n, IndexOf(s[..n], pat, 0).value);
      }
    } else {
      assert s[..n] == s;
    }
  }

  /** `StyleAfter` is the first piece of the rest of the text, split at `start`. */
  lemma StyleAfterSplit(data: String, start: String, hi: nat)
    requires |start| > 0 && hi <= |data|
    ensures StyleAfter(data, start, hi) == Split(data[hi..], start)[0]
  {
    SplitHead(data[hi..], start);
    IndexOfFrom(data, start, hi);
  }

  /** Between two consecutive blocks, the style source of the first followed by the text of
      the second is exactly the text from the end of the first block to the end of the second:
      the corrected capture loses and invents nothing. */
  lemma StylesTile(text: String, start: String, end: String, k: nat)
    requires |start| > 0 && |end| > 0
    requires k + 1 < |Spans(text, start, end, 0)|
    ensures var spans := Spans(text, start, end, 0);
            spans[k].hi <= spans[k + 1].lo <= spans[k + 1].hi <= |text| &&
            StyleAfter(text, start, spans[k].hi) + text[spans[k + 1].lo..spans[k + 1].hi]
              == text[spans[k].hi..spans[k + 1].hi]
  {
    var spans := Spans(text, start, end, 0);
    SpansScan(text, start, end, 0);
    assert Step(text, start, end, spans, 0, k + 1);
    assert Resume(spans, 0, k + 1) == spans[k].hi;
    assert IsMatch(text, start, end, spans[k + 1]);
    var nxt := spans[k + 1];
    var r := StyleAfter(text, start, spans[k].hi);
    assert OccursAt(text, start, nxt.lo);
    assert spans[k].hi + |r| == nxt.lo;
    assert r == text[spans[k].hi..nxt.lo];
  }

  /** Two identical blocks: the as-written capture gives the second block the style source of
      the first, while the source that really follows the second block is different. */
  lemma SourcifyDuplicateBlock(d: String)
    requires d == "/*a*/X/*a*/Y"
    ensures Spans(d, "/*", "*/", 0) == [Span(0, 5), Span(6, 11)]
    ensures Sourcify(d, "/*a*/", "/*") == "X"
    ensures StyleAfter(d, "/*", 11) == "Y"
  {
    DuplicateSpans(d);
    DuplicateFirstSection(d);
    DefaultStartNoSelfOverlap();
    SourcifyAtFirstOccurrence(d, "/*a*/", "/*", 0);
    DuplicateStyles(d);
  }

  lemma DuplicateFirstSection(d: String)
    requires d == "/*a*/X/*a*/Y"
    ensures IndexOf(d, "/*a*/", 0) == Some(0)
  {
    assert d[0..5] == "/*a*/";
  }

  lemma DuplicateStyles(d: String)
    requires d == "/*a*/X/*a*/Y"
    ensures StyleAfter(d, "/*", 5) == "X" && StyleAfter(d, "/*", 11) == "Y"
  {
    SkipTo(d, "/*", 5, 6);
    assert d[5..6] == "X";
    MismatchAt(d, "/*", 11, 0);
    assert d[11..12] == "Y";
  }

  lemma DuplicateSpans(d: String)
    requires d == "/*a*/X/*a*/Y"
    ensures Spans(d, "/*", "*/", 0) == [Span(0, 5), Span(6, 11)]
  {
    assert NextSpan(d, "/*", "*/", 11).None? by {
      MismatchAt(d, "/*", 11, 0);
    }
    assert Spans(d, "/*", "*/", 11) == [];
    assert NextSpan(d, "/*", "*/", 5) == Some(Span(6, 11)) by {
      SkipTo(d, "/*", 5, 6);
      SkipTo(d, "*/", 8, 9);
    }
    assert Spans(d, "/*", "*/", 5) == [Span(6, 11)];
    assert NextSpan(d, "/*", "*/", 0) == Some(Span(0, 5)) by {
      assert d[0..2] == "/*";
      SkipTo(d, "*/", 2, 3);
    }
  }

  /** The search from `i` skips one position that does not hold the pattern and stops at the
      next, which does. */
  lemma SkipTo(s: String, pat: String, i: nat, j: nat)
    requires j == i + 1 && |pat| > 0 && j + |pat| <= |s| && s[i] != pat[0] && s[j..j + |pat|] == pat
    ensures IndexOf(s, pat, i) == Some(j)
  {
    MismatchAt(s, pat, i, 0);
  }

  /** A text that differs from a pattern in one place does not hold the pattern there. */
  lemma MismatchAt(s: String, pat: String, i: nat, k: nat)
    requires k < |pat| && i + k < |s| && s[i + k] != pat[k]
    ensures !OccursAt(s, pat, i)
  {
    if i + |pat| <= |s| {
      assert s[i..i + |pat|][k] == s[i + k];
    }
  }
}
