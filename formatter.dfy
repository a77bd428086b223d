/**
  Building the output object of one section (`formatting`, lines 379-409 of lib/sassdown.js,
  with `unspace`, lines 28-30) and reading a page title out of a section's comment (lines
  370-372). The markdown renderer and the syntax highlighter are parameters: the model says
  what they are applied to, not what they produce.
 */
module Formatter {
  import opened Text
  import opened Normalizer

  /** `unspace(string)`: the alternation `\r\n|\n| ` removed everywhere. */
  const Blanks: seq<String> := ["\r\n", "\n", " "]

  function Unspace(s: String): String {
    ReplaceAll(s, Blanks, "")
  }

  /** A text made only of spaces, line feeds and carriage-return line-feed pairs. */
  predicate Blank(s: String)
    decreases |s|
  {
    if s == [] then true
    else if s[0] == ' ' || s[0] == '\n' then Blank(s[1..])
    else |s| >= 2 && s[0] == '\r' && s[1] == '\n' && Blank(s[2..])
  }

  /** `unspace` leaves nothing exactly when the text is blank. A tab or a lone carriage return
      survives it. */
  lemma {:induction false} UnspaceEmptyIffBlank(s: String)
    ensures Unspace(s) == [] <==> Blank(s)
    decreases |s|
  {
    if s != [] {
      assert s[..1][0] == s[0];
      if |s| >= 2 {
        assert s[..2][0] == s[0] && s[..2][1] == s[1];
      }
      if |s| >= 2 && s[0] == '\r' && s[1] == '\n' {
        assert s[..2] == Blanks[0];
        UnspaceEmptyIffBlank(s[2..]);
      } else if s[0] == '\n' || s[0] == ' ' {
        assert s[..1] == [s[0]];
        assert !OccursAt(s, Blanks[0], 0);
        assert OccursAt(s, Blanks[1], 0) || OccursAt(s, Blanks[2], 0);
        assert |Blanks[MatchAt(s, Blanks, 0).value]| == 1;
        UnspaceEmptyIffBlank(s[1..]);
      } else {
        assert MatchAt(s, Blanks, 0).None?;
      }
    }
  }

  /** The output object of one section. `result`, `markup` and `styles` are only present when
      the comment holds a fence (and, for `styles`, when the source is not blank). */
  datatype Section = Section(comment: String, result: Option<String>, markup: Option<String>, styles: Option<String>)

  /** The wrapper around highlighted code. */
  function CodeBlock(highlighted: String): String {
    "<pre class=\"hljs\"><code>" + highlighted + "</code></pre>"
  }

  /** `formatting(content, styles)`. `markdown` renders markdown; `highlight(lang, code)` is the
      `value` of `hljs.highlight`. */
  function Formatting(content: String, styles: String, markdown: String -> String,
                      highlight: (String, String) -> String): Section
  {
    if Contains(content, Fence) then
      var parts := Split(content, Fence);
      Section(markdown(parts[0]), Some(parts[1]),
              Some(CodeBlock(highlight("html", Trim(Split(parts[1], Fence)[0])))),
              if |Unspace(styles)| > 0 then Some(CodeBlock(highlight("scss", Trim(styles)))) else None)
    else
      Section(markdown(content), None, None, None)
  }

  /** Position `e` of the content is its end, or the start of a fence. */
  predicate EndsAtFence(content: String, e: nat) {
    e == |content| || OccursAt(content, Fence, e)
  }

  /** With a fence, the comment is the markdown of the text before the first fence, the result
      is the text between the first fence and the next (or the end), the markup highlights the
      trimmed result, and styles are present exactly when the source is not blank. Neither the
      text before the first fence nor the result holds a fence, they lie one after the other at
      the front of the content, and the result stops at a fence or at the end of the content. */
  lemma FormattingFenced(content: String, styles: String, markdown: String -> String,
                         highlight: (String, String) -> String)
    requires Contains(content, Fence)
    ensures var out := Formatting(content, styles, markdown, highlight);
            var before := Split(content, Fence)[0];
            out.result.Some? && out.markup.Some? &&
            out.comment == markdown(before) &&
            Absent(before, Fence) && Absent(out.result.value, Fence) &&
            |before| + |Fence| + |out.result.value| <= |content| &&
            content[..|before| + |Fence| + |out.result.value|] == before + Fence + out.result.value &&
            (var e := |before| + |Fence| + |out.result.value|; EndsAtFence(content, e)) &&
            out.markup.value == CodeBlock(highlight("html", Trim(out.result.value))) &&
            (out.styles.Some? <==> !Blank(styles)) &&
            (out.styles.Some? ==> out.styles.value == CodeBlock(highlight("scss", Trim(styles))))
  {
    FencedPieces(content);
    FencedResultEnd(content, styles, markdown, highlight);
    UnspaceEmptyIffBlank(styles);
  }

  /** The result of a fenced block stops at the next fence, or at the end of the content. */
  lemma FencedResultEnd(content: String, styles: String, markdown: String -> String,
                        highlight: (String, String) -> String)
    requires Contains(content, Fence)
    ensures var out := Formatting(content, styles, markdown, highlight);
            var before := Split(content, Fence)[0];
            out.result.Some? &&
            (var e := |before| + |Fence| + |out.result.value|; EndsAtFence(content, e))
  {
    var out := Formatting(content, styles, markdown, highlight);
    FencedResult(content, styles, markdown, highlight);
    PieceEnd(content, Split(content, Fence)[0], out.result.value);
  }

  /** Stated for any two texts equal to the first two pieces of the split at fences: the
      second one runs up to the next fence, or to the end. */
  lemma PieceEnd(content: String, before: String, result: String)
    requires |Split(content, Fence)| >= 2
    requires before == Split(content, Fence)[0] && result == Split(content, Fence)[1]
    ensures var e := |before| + |Fence| + |result|; EndsAtFence(content, e)
  {
    SecondPieceEnd(content);
  }

  /** With a fence, the result is the second piece of the split at fences. */
  lemma FencedResult(content: String, styles: String, markdown: String -> String,
                     highlight: (String, String) -> String)
    requires Contains(content, Fence)
    ensures |Split(content, Fence)| >= 2 &&
            Formatting(content, styles, markdown, highlight).result == Some(Split(content, Fence)[1])
  {
    SecondPieceEnd(content);
  }

  /** The second piece of a split at a fence runs up to the next fence, or to the end when
      there is none. */
  lemma SecondPieceEnd(content: String)
    requires Contains(content, Fence)
    ensures var parts := Split(content, Fence);
            |parts| >= 2 &&
            (var e := |parts[0]| + |Fence| + |parts[1]|; EndsAtFence(content, e))
  {
    var i := FirstPiece(content, Fence);
    var rest := content[i + |Fence|..];
    var j := FirstPiece(rest, Fence);
    assert Split(content, Fence) == [content[..i]] + Split(rest, Fence);
    if Contains(rest, Fence) {
      OccursInSuffix(content, Fence, i + |Fence|, j);
    }
  }

  /** The first two pieces of a split at a fence hold no fence and lie one after the other,
      fence between, at the front of the content; the second piece splits to itself. */
  lemma FencedPieces(content: String)
    requires Contains(content, Fence)
    ensures var parts := Split(content, Fence);
            |parts| >= 2 && Absent(parts[0], Fence) && Absent(parts[1], Fence) &&
            Split(parts[1], Fence)[0] == parts[1] &&
            |parts[0]| + |Fence| + |parts[1]| <= |content| &&
            content[..|parts[0]| + |Fence| + |parts[1]|] == parts[0] + Fence + parts[1]
  {
    var i := FirstPiece(content, Fence);
    assert OccursAt(content, Fence, i);
    var rest := content[i + |Fence|..];
    var j := FirstPiece(rest, Fence);
    assert Split(content, Fence) == [content[..i]] + Split(rest, Fence);
    ContainsIffOccurs(rest[..j], Fence);
    SplitHead(rest[..j], Fence);
    PrefixThree(content, i, |Fence|, j);
  }

  /** A prefix cut into three consecutive pieces. */
  lemma PrefixThree(s: String, i: nat, n: nat, j: nat)
    requires i + n + j <= |s|
    ensures s[..i + n + j] == s[..i] + s[i..i + n] + s[i + n..][..j]
  {
  }

  /** Without a fence there is only the comment, the markdown of the whole content. */
  lemma FormattingPlain(content: String, styles: String, markdown: String -> String,
                        highlight: (String, String) -> String)
    requires !Contains(content, Fence)
    ensures Formatting(content, styles, markdown, highlight) == Section(markdown(content), None, None, None)
  {
  }

  /** The title `comment.split('</h1>')[0].split('>')[1]`, or `None` (JavaScript's
      `undefined`) when the heading holds no `>`. */
  function HeadingTitle(comment: String): Option<String> {
    var parts := Split(Split(comment, "</h1>")[0], ">");
    if |parts| >= 2 then Some(parts[1]) else None
  }

  /** The heading title is the text after the first `>` before the first `</h1>`, up to the next
      `>` or to that `</h1>`. */
  lemma HeadingTitleMeaning(comment: String)
    requires Contains(comment, "</h1>")
    ensures var h := comment[..IndexOf(comment, "</h1>", 0).value];
            (HeadingTitle(comment).Some? <==> Contains(h, ">")) &&
            (HeadingTitle(comment).Some? ==>
               var g := IndexOf(h, ">", 0).value;
               var t := HeadingTitle(comment).value;
               OccursAt(h, t, g + 1) && Absent(t, ">") && (g + 1 + |t| == |h| || h[g + 1 + |t|] == '>'))
  {
    var h := comment[..IndexOf(comment, "</h1>", 0).value];
    SplitHead(comment, "</h1>");
    SplitHead(h, ">");
    if Contains(h, ">") {
      var g := IndexOf(h, ">", 0).value;
      SplitSecond(h, ">");
      HeadingPiece(h, g);
    } else {
      assert Split(h, ">") == [h];
    }
  }

  /** The piece after the first `>` of a heading, up to the next `>`. */
  lemma HeadingPiece(h: String, g: nat)
    requires IndexOf(h, ">", 0) == Some(g)
    ensures var t := Split(h[g + 1..], ">")[0];
            OccursAt(h, t, g + 1) && Absent(t, ">") && (g + 1 + |t| == |h| || h[g + 1 + |t|] == '>')
  {
    var rest := h[g + 1..];
    var n := FirstPiece(rest, ">");
    assert h[g + 1..g + 1 + n] == rest[..n];
    if n < |rest| {
      assert OccursAt(rest, ">", n);
      assert rest[n] == rest[n..n + 1][0];
    }
  }

  /** JavaScript truthiness of a title: `undefined` and `""` are false. */
  predicate Truthy(title: Option<String>) {
    title.Some? && title.value != []
  }

  /** One step of the title rule inside `getSections`: a page without a title takes the
      heading of a section whose comment holds `</h1>`. */
  function NextTitle(title: Option<String>, comment: String): Option<String> {
    if !Truthy(title) && Contains(comment, "</h1>") then HeadingTitle(comment) else title
  }

  /** The title after the rule has seen every comment in order. */
  function TitleAfter(title: Option<String>, comments: seq<String>): Option<String>
    decreases |comments|
  {
    if comments == [] then title else TitleAfter(NextTitle(title, comments[0]), comments[1..])
  }

  /** The rule run over one more comment is one more step after the rule over the others. */
  lemma {:induction false} TitleAfterSnoc(title: Option<String>, comments: seq<String>, c: String)
    ensures TitleAfter(title, comments + [c]) == NextTitle(TitleAfter(title, comments), c)
    decreases |comments|
  {
    if comments != [] {
      assert (comments + [c])[1..] == comments[1..] + [c];
      TitleAfterSnoc(NextTitle(title, comments[0]), comments[1..], c);
    }
  }

  /** The heading of the first comment that holds a `</h1>` with a non-empty title. */
  function FirstHeading(comments: seq<String>): (r: Option<String>)
    ensures r.Some? ==> Truthy(r)
    decreases |comments|
  {
    if comments == [] then None
    else if Contains(comments[0], "</h1>") && Truthy(HeadingTitle(comments[0])) then HeadingTitle(comments[0])
    else FirstHeading(comments[1..])
  }

  /** A title, once set, is never overwritten. */
  lemma {:induction false} TitleKept(title: Option<String>, comments: seq<String>)
    requires Truthy(title)
    ensures TitleAfter(title, comments) == title
    decreases |comments|
  {
    if comments != [] {
      TitleKept(title, comments[1..]);
    }
  }

  /** Starting without a title, the rule ends with a title exactly when some comment has a
      heading, and then it is the first such heading. */
  lemma {:induction false} TitleIsFirstHeading(title: Option<String>, comments: seq<String>)
    requires !Truthy(title)
    ensures Truthy(TitleAfter(title, comments)) <==> FirstHeading(comments).Some?
    ensures FirstHeading(comments).Some? ==> TitleAfter(title, comments) == FirstHeading(comments)
    decreases |comments|
  {
    if comments != [] {
      var next := NextTitle(title, comments[0]);
      if Truthy(next) {
        TitleKept(next, comments[1..]);
      } else {
        TitleIsFirstHeading(next, comments[1..]);
      }
    }
  }

  /** A content of the shape fence inference produces splits at its two fences. */
  lemma InferredPieces(before: String, between: String)
    requires Absent(before, Fence) && (before == [] || before[|before| - 1] != '`')
    requires Absent(between, Fence)
    ensures var content := before + Fence + between + "\n" + Fence;
            Contains(content, Fence) &&
            Split(content, Fence)[0] == before && Split(content, Fence)[1] == between + "\n"
  {
    var tail := between + "\n";
    var content := before + Fence + between + "\n" + Fence;
    assert content == before + (Fence + (tail + Fence));
    FirstFenceAt(before, Fence + (tail + Fence));
    SplitHead(content, Fence);
    SplitSecond(content, Fence);
    assert content[|before| + |Fence|..] == tail + Fence;
    ResultPiece(between);
  }

  /** The piece after the opening fence runs up to the closing fence. */
  lemma ResultPiece(between: String)
    requires Absent(between, Fence)
    ensures Split(between + "\n" + Fence, Fence)[0] == between + "\n"
  {
    var tail := between + "\n";
    NoFenceBeforeChar(between, '\n');
    FirstFenceAt(tail, Fence);
    SplitHead(tail + Fence, Fence);
  }

  /** A block whose code is indented rather than fenced: the comment is the markdown of the
      text before the first indent, and the text after it becomes the example result, closed
      by the line break before the appended fence. */
  lemma InferredSection(c: String, styles: String, markdown: String -> String,
                        highlight: (String, String) -> String)
    requires !Contains(c, Fence) && Contains(c, Indent)
    requires var before := Unindent(c[..IndexOf(c, Indent, 0).value]);
             before == [] || before[|before| - 1] != '`'
    ensures var i := IndexOf(c, Indent, 0).value;
            var out := Formatting(InferFence(c), styles, markdown, highlight);
            out.comment == markdown(Unindent(c[..i])) &&
            out.result == Some(AfterOpen(c[i + |Indent|..]) + "\n")
  {
    var i := IndexOf(c, Indent, 0).value;
    InferFenceShape(c);
    InferredPieces(Unindent(c[..i]), AfterOpen(c[i + |Indent|..]));
  }
}
