/**
  Turning the raw text of one annotation block into markdown (`_normalize`, lines 147-159 of
  lib/sassdown.js): strip the delimiters, trim, drop the comment decoration, and, when the
  author indented example code instead of fencing it, infer a fence around it.
 */
module Normalizer {
  import opened Text

  /** The markdown code fence. */
  const Fence: String := "```"

  /** A four-space indent, markdown's other way of marking code. */
  const Indent: String := "    "

  /** `comment.replace(commentStart, '')` then `.replace(commentEnd, '')`: the delimiters are
      regular expressions without the `g` flag, so each is removed once. */
  function StripDelimiters(comment: String, start: String, end: String): String
    requires |start| > 0 && |end| > 0
  {
    ReplaceOnce(ReplaceOnce(comment, [start], ""), [end], "")
  }

  /** `.replace(/^\*\/, '')`: one asterisk at the very front, if there is one. */
  function DropStar(s: String): String {
    if s != [] && s[0] == '*' then s[1..] else s
  }

  /** The comment decorations collapsed after a line break, in the order the alternation tries
      them. */
  const Continuations: seq<String> := ["\n * ", "\n *", "\n "]

  /** The chain on one line of `_normalize`: trim, drop a leading asterisk, collapse the
      continuations, then widen three-space indents back to four. */
  function Decorated(s: String): String {
    ReplaceAll(ReplaceAll(DropStar(Trim(s)), Continuations, "\n"), ["\n   "], "\n    ")
  }

  /** A decorated continuation line loses its ` * `. */
  lemma DecoratedDropsStar()
    ensures Decorated("a\n * b") == "a\nb"
  {
    var s := "a\n * b";
    TrimmedAlready(s);
    assert DropStar(s) == s;
    ContinuationCopies(s);
    var t := s[1..];
    assert t == "\n * b";
    assert OccursAt(t, Continuations[0], 0);
    UnfoldMatch(t, Continuations, "\n", 0);
    assert t[4..] == "b";
    ContinuationsEndAt("b");
    NoWideIndent("a\nb");
  }

  /** A line indented by four spaces, which the continuation rule cuts to three, gets its four
      back. */
  lemma DecoratedKeepsIndent()
    ensures Decorated("a\n    b") == "a\n    b"
  {
    var s := "a\n    b";
    TrimmedAlready(s);
    assert DropStar(s) == s;
    CutToThree(s);
    WidenOnce("a\n   b");
  }

  /** The continuation rule takes one space off a four-space indent. */
  lemma CutToThree(s: String)
    requires s == "a\n    b"
    ensures ReplaceAll(s, Continuations, "\n") == "a\n   b"
  {
    ContinuationCopies(s);
    assert s[1..] == "\n    b";
    IndentMatch(s[1..]);
    UnfoldMatch(s[1..], Continuations, "\n", 2);
    assert s[1..][2..] == "   b";
    SpacesCopied("   b");
  }

  /** Before an indent the continuation rule picks its last alternative, a break and a space. */
  lemma IndentMatch(t: String)
    requires |t| >= 4 && t[0] == '\n' && t[1] == ' ' && t[2] == ' '
    ensures MatchAt(t, Continuations, 0) == Some(2)
  {
    var rest := Continuations[1..];
    assert rest == ["\n *", "\n "] && rest[1..] == ["\n "];
    assert OccursAt(t, rest[1..][0], 0);
    assert MatchAt(t, rest[1..], 0) == Some(0);
    assert !OccursAt(t, rest[0], 0) by { assert rest[0][2] == '*'; }
    assert MatchAt(t, rest, 0) == Some(1);
    assert !OccursAt(t, Continuations[0], 0) by { assert Continuations[0][2] == '*'; }
  }

  /** A text that neither starts nor ends with white space is its own trim. */
  lemma TrimmedAlready(s: String)
    requires s != [] && !IsSpace(s[0]) && !IsSpace(s[|s| - 1])
    ensures Trim(s) == s
  {
    assert SkipSpace(s, 0) == 0;
    assert BackSpace(s, 0, |s|) == |s|;
  }

  /** Every continuation starts with a line break, so any other character is copied. */
  lemma ContinuationCopies(s: String)
    requires s != [] && s[0] != '\n'
    ensures ReplaceAll(s, Continuations, "\n") == [s[0]] + ReplaceAll(s[1..], Continuations, "\n")
  {
    assert forall k :: 0 <= k < |Continuations| ==> Continuations[k][0] == '\n';
    assert MatchAt(s, Continuations, 0).None?;
    UnfoldCopy(s, Continuations, "\n");
  }

  /** A single character other than a line break survives the continuation rule. */
  lemma ContinuationsEndAt(s: String)
    requires |s| == 1 && s[0] != '\n'
    ensures ReplaceAll(s, Continuations, "\n") == s
  {
    ContinuationCopies(s);
    assert s[1..] == [];
  }

  /** Three spaces and a letter pass the continuation rule unchanged. */
  lemma SpacesCopied(s: String)
    requires s == "   b"
    ensures ReplaceAll(s, Continuations, "\n") == s
  {
    ContinuationCopies(s);
    ContinuationCopies(s[1..]);
    ContinuationCopies(s[2..]);
    assert s[1..][1..] == s[2..] && s[2..][1..] == s[3..];
    ContinuationsEndAt(s[3..]);
  }

  /** A text too short to hold a three-space indent is left alone by the widening. */
  lemma NoWideIndent(s: String)
    requires |s| < 4
    ensures ReplaceAll(s, ["\n   "], "\n    ") == s
  {
    ReplaceAllCopiesPrefix(s, "\n   ", "\n    ", |s|);
    assert s[..|s|] == s && s[|s|..] == [];
  }

  /** The one three-space indent of `a\n   b` is widened to four. */
  lemma WidenOnce(u: String)
    requires u == "a\n   b"
    ensures ReplaceAll(u, ["\n   "], "\n    ") == "a\n    b"
  {
    var pat := "\n   ";
    assert u[0] != pat[0];
    ReplaceAllCopiesPrefix(u, pat, "\n    ", 1);
    assert u[..1] == "a";
    var t := u[1..];
    assert OccursAt(t, pat, 0);
    UnfoldMatch(t, [pat], "\n    ", 0);
    assert t[4..] == "b";
    NoWideIndent("b");
  }

  /** The comment before fence inference. */
  function Clean(comment: String, start: String, end: String): String
    requires |start| > 0 && |end| > 0
  {
    Decorated(StripDelimiters(comment, start, end))
  }

  /** Fence inference replaces the first indent (or an indented fence) by a fence. */
  const OpenAlts: seq<String> := [Indent, Fence + "\n" + Indent]

  /** `.replace(/\n    /g, '\n').replace(/\n /g, '\n')`: strip the indents of inferred code. */
  function Unindent(s: String): String {
    ReplaceAll(ReplaceAll(s, ["\n    "], "\n"), ["\n "], "\n")
  }

  /** The last step of `_normalize`: a cleaned comment with no fence but an indent gets one
      inferred around its indented code. */
  function InferFence(c: String): String {
    if !Contains(c, Fence) && Contains(c, Indent) then
      Unindent(ReplaceOnce(c, OpenAlts, Fence + "\n" + Indent)) + "\n" + Fence
    else c
  }

  /** `_normalize(comment)`. */
  function Normalize(comment: String, start: String, end: String): String
    requires |start| > 0 && |end| > 0
  {
    InferFence(Clean(comment, start, end))
  }

  /** Removing a delimiter once takes out exactly its first occurrence, and leaves a text
      without it untouched. */
  lemma {:induction false} StripOnce(s: String, pat: String)
    requires |pat| > 0
    ensures var r := ReplaceOnce(s, [pat], "");
            (Contains(s, pat) ==>
               var i := IndexOf(s, pat, 0).value;
               |r| == |s| - |pat| && r[..i] + pat + r[i..] == s) &&
            (!Contains(s, pat) ==> r == s)
  {
    ReplaceOnceIsReplaceFirst(s, pat, "");
    if Contains(s, pat) {
      ReplaceFirstInverse(s, pat);
    }
  }

  /** Delimiter stripping removes the first `start`, then the first `end` of what is left, and
      nothing else. */
  lemma StripDelimitersFirstOnly(comment: String, start: String, end: String)
    requires |start| > 0 && |end| > 0
    ensures var once := ReplaceOnce(comment, [start], "");
            var r := StripDelimiters(comment, start, end);
            (Contains(comment, start) ==>
               var i := IndexOf(comment, start, 0).value;
               |once| == |comment| - |start| && once[..i] + start + once[i..] == comment) &&
            (!Contains(comment, start) ==> once == comment) &&
            (Contains(once, end) ==>
               var j := IndexOf(once, end, 0).value;
               |r| == |once| - |end| && r[..j] + end + r[j..] == once) &&
            (!Contains(once, end) ==> r == once)
  {
    StripOnce(comment, start);
    StripOnce(ReplaceOnce(comment, [start], ""), end);
  }

  /** A comment that already holds a fence is left as the decoration chain made it. */
  lemma NormalizeKeepsExplicitFence(comment: String, start: String, end: String)
    requires |start| > 0 && |end| > 0 && Contains(Clean(comment, start, end), Fence)
    ensures Normalize(comment, start, end) == Clean(comment, start, end)
  {
  }

  /** The text after the inferred opening fence, as the two global replacements leave it. */
  function AfterOpen(rest: String): String {
    ReplaceAll("\n" + ReplaceAll(rest, ["\n    "], "\n"), ["\n "], "\n")
  }

  /** Fence inference: with no fence but an indent in the cleaned comment, the output is the
      unindented text before the first indent, an opening fence, the unindented rest, and a
      closing fence on its own line. Neither the part before the opening fence nor the part
      between the two fences holds a fence, so the output holds exactly the two fences. */
  lemma InferFenceShape(c: String)
    requires !Contains(c, Fence) && Contains(c, Indent)
    ensures var i := IndexOf(c, Indent, 0).value;
            var before := Unindent(c[..i]);
            var between := AfterOpen(c[i + |Indent|..]);
            InferFence(c) == before + Fence + between + "\n" + Fence &&
            Absent(before, Fence) && Absent(between, Fence)
  {
    ContainsIffOccurs(c, Fence);
    InferredShape(c);
    InferredPartsNoFence(c);
  }

  /** On a whole comment: `_normalize` infers the fence on the cleaned text. */
  lemma NormalizeInfersFence(comment: String, start: String, end: String)
    requires |start| > 0 && |end| > 0
    requires var c := Clean(comment, start, end); !Contains(c, Fence) && Contains(c, Indent)
    ensures var c := Clean(comment, start, end);
            var i := IndexOf(c, Indent, 0).value;
            Normalize(comment, start, end) ==
              Unindent(c[..i]) + Fence + AfterOpen(c[i + |Indent|..]) + "\n" + Fence
  {
    InferFenceShape(Clean(comment, start, end));
  }

  /** The shape of fence inference on a cleaned comment with no fence. */
  lemma InferredShape(c: String)
    requires Absent(c, Fence) && Contains(c, Indent)
    ensures var i := IndexOf(c, Indent, 0).value;
            Unindent(ReplaceOnce(c, OpenAlts, Fence + "\n" + Indent)) ==
              Unindent(c[..i]) + Fence + AfterOpen(c[i + |Indent|..])
  {
    var i := IndexOf(c, Indent, 0).value;
    InferredOpening(c, i);
    UnindentAroundFence(c[..i], c[i + |Indent|..]);
  }

  /** The two parts around the inferred opening fence hold no fence. */
  lemma InferredPartsNoFence(c: String)
    requires Absent(c, Fence) && Contains(c, Indent)
    ensures var i := IndexOf(c, Indent, 0).value;
            Absent(Unindent(c[..i]), Fence) && Absent(AfterOpen(c[i + |Indent|..]), Fence)
  {
    var i := IndexOf(c, Indent, 0).value;
    NoFenceInPrefix(c, i);
    NoFenceInSuffix(c, i + |Indent|);
    UnindentKeepsNoFence(c[..i]);
    AfterOpenNoFence(c[i + |Indent|..]);
  }

  /** The opening replacement acts at the first indent of a text without a fence. */
  lemma InferredOpening(c: String, i: nat)
    requires Absent(c, Fence) && IndexOf(c, Indent, 0) == Some(i)
    ensures ReplaceOnce(c, OpenAlts, Fence + "\n" + Indent) == c[..i] + Fence + "\n" + Indent + c[i + |Indent|..]
  {
    IndexOfIsFirst(c, Indent, 0);
    forall k, b | 0 <= k < i && 0 <= b < |OpenAlts| ensures !OccursAt(c, OpenAlts[b], k) {
      if b == 1 && OccursAt(c, OpenAlts[1], k) {
        OccursPrefix(c, OpenAlts[1], Fence, k);
      }
    }
    assert MatchAt(c, OpenAlts, i) == Some(0);
    ReplaceOnceAt(c, OpenAlts, Fence + "\n" + Indent, i, 0);
  }

  /** The unindenting replacements act separately on the two sides of the opening fence. */
  lemma UnindentAroundFence(p: String, rest: String)
    ensures Unindent(p + Fence + "\n" + Indent + rest) == Unindent(p) + Fence + AfterOpen(rest)
  {
    var r1 := ReplaceAll(rest, ["\n    "], "\n");
    var q := ReplaceAll(p, ["\n    "], "\n");
    WideIndentAfterFence(p, rest);
    NarrowIndentAfterFence(q, r1);
  }

  /** The first unindenting replacement, across the opening fence. */
  lemma WideIndentAfterFence(p: String, rest: String)
    ensures ReplaceAll(p + Fence + "\n" + Indent + rest, ["\n    "], "\n") ==
              ReplaceAll(p, ["\n    "], "\n") + Fence + ("\n" + ReplaceAll(rest, ["\n    "], "\n"))
  {
    var alts: seq<String> := ["\n    "];
    var y := ("\n" + Indent) + rest;
    var x := Fence + y;
    assert p + Fence + "\n" + Indent + rest == p + x;
    ReplaceAllConcat(p, x, alts, "\n");
    FenceCopied(y, alts, "\n");
    assert MatchAt(y, alts, 0) == Some(0);
    assert y[|alts[0]|..] == rest;
  }

  /** The second unindenting replacement, across the opening fence. */
  lemma NarrowIndentAfterFence(q: String, r1: String)
    ensures ReplaceAll(q + Fence + ("\n" + r1), ["\n "], "\n") ==
              ReplaceAll(q, ["\n "], "\n") + Fence + ReplaceAll("\n" + r1, ["\n "], "\n")
  {
    var alts: seq<String> := ["\n "];
    var x := Fence + ("\n" + r1);
    assert q + Fence + ("\n" + r1) == q + x;
    ReplaceAllConcat(q, x, alts, "\n");
    FenceCopied("\n" + r1, alts, "\n");
  }

  /** A fence passes unchanged through a replacement whose alternatives have no backtick. */
  lemma FenceCopied(s: String, alts: seq<String>, rep: String)
    requires NonEmpty(alts) && Avoids(alts, '`')
    ensures ReplaceAll(Fence + s, alts, rep) == Fence + ReplaceAll(s, alts, rep)
  {
    var t1 := ['`'] + s;
    var t2 := ['`'] + t1;
    TickCopied(s, alts, rep);
    TickCopied(t1, alts, rep);
    TickCopied(t2, alts, rep);
    FenceUnfolds(s);
    FenceUnfolds(ReplaceAll(s, alts, rep));
  }

  /** A fence in front of a text is three backticks in front of it, one at a time. */
  lemma FenceUnfolds(s: String)
    ensures Fence + s == ['`'] + (['`'] + (['`'] + s))
  {
    var r := ['`'] + (['`'] + (['`'] + s));
    assert |Fence + s| == |r|;
    forall k | 0 <= k < |r| ensures (Fence + s)[k] == r[k] {
      if k >= 3 {
        assert (Fence + s)[k] == s[k - 3];
      }
    }
  }

  /** One backtick passes unchanged through such a replacement. */
  lemma TickCopied(s: String, alts: seq<String>, rep: String)
    requires NonEmpty(alts) && Avoids(alts, '`')
    ensures ReplaceAll(['`'] + s, alts, rep) == ['`'] + ReplaceAll(s, alts, rep)
  {
    ReplaceAllCopies(['`'] + s, alts, rep);
    assert (['`'] + s)[1..] == s;
  }

  /** Unindenting cannot create a fence. */
  lemma UnindentKeepsNoFence(s: String)
    requires Absent(s, Fence)
    ensures Absent(Unindent(s), Fence)
  {
    ReplaceAllKeepsNoFence(s, ["\n    "], "\n");
    ReplaceAllKeepsNoFence(ReplaceAll(s, ["\n    "], "\n"), ["\n "], "\n");
  }

  /** Nor can the replacements after the opening fence. */
  lemma AfterOpenNoFence(rest: String)
    requires Absent(rest, Fence)
    ensures Absent(AfterOpen(rest), Fence)
  {
    var r1 := ReplaceAll(rest, ["\n    "], "\n");
    ReplaceAllKeepsNoFence(rest, ["\n    "], "\n");
    NoFenceAfterChar('\n', r1);
    ReplaceAllKeepsNoFence("\n" + r1, ["\n "], "\n");
  }

  /** The output of fence inference ends with a closing fence on its own line. */
  lemma InferFenceCloses(c: String)
    requires !Contains(c, Fence) && Contains(c, Indent)
    ensures var r := InferFence(c);
            |r| >= 4 && r[|r| - 4..] == "\n" + Fence
  {
  }
}
