/**
  Pages: the record `getData` (lines 343-353 of lib/sassdown.js) builds for one source file,
  the sections `getSections` (lines 355-377) derives from its blocks, and what `pages()`
  (lines 299-341) does with each file. The functions here are the specification the
  imperative `Generator` methods are proved against.
 */
module PageBuilder {
  import opened Text
  import opened Sectionizer
  import opened Normalizer
  import opened Formatter
  import opened Paths

  /** The options the core reads, with the delimiters as literal strings. */
  datatype Options = Options(commentStart: String, commentEnd: String, excludeMissing: bool)
  {
    predicate Valid() {
      |commentStart| > 0 && |commentEnd| > 0
    }
  }

  // The default options: slash-star and star-slash delimiters, files without blocks kept.
  const DefaultOptions: Options := Options("/*", "*/", false)

  /** The source directory and the output root. */
  datatype Config = Config(srcdir: String, root: String)

  /** A page; `title` and `sections` are `None` where the source holds `null`. */
  datatype Page = Page(title: Option<String>, slug: String, href: String, dest: String, src: String,
                       sections: Option<seq<Section>>)

  /** The source path moved from the source directory to the output root: the string form of
      `replace`, which acts on the first occurrence of the source directory. */
  function Moved(src: String, config: Config): String {
    ReplaceFirst(src, config.srcdir, config.root)
  }

  /** `dest` in `getData(file)` as written: the extension is replaced by the string form of
      `replace`, which acts on its FIRST occurrence (and, for an empty extension, puts `.html` in
      front of the path). */
  function DestAsWritten(src: String, config: Config): String {
    ReplaceFirst(Moved(src, config), Extname(src), ".html")
  }

  /** `href` in `getData(file)` as written: taken after a second such replacement on `dest`. */
  function HrefAsWritten(src: String, config: Config): String {
    Relative(config.root, ReplaceFirst(DestAsWritten(src, config), Extname(src), ".html"))
  }

  /** `getData(file)` as written. */
  function GetDataAsWritten(src: String, config: Config): Page {
    Page(None, Slug(src), HrefAsWritten(src, config), DestAsWritten(src, config), src, None)
  }

  /** The extension at the end of a path replaced by `.html` (appended when there is none). */
  function WithHtmlExtension(p: String, ext: String): (r: String)
    ensures |r| >= 5 && r[|r| - 5..] == ".html"
  {
    if |ext| <= |p| && p[|p| - |ext|..] == ext then p[..|p| - |ext|] + ".html" else p + ".html"
  }
  /** The extension, when the path ends in it, is cut off before `.html` is appended. */
  lemma WithHtmlExtensionValue(p: String, ext: String)
    ensures |ext| <= |p| && p[|p| - |ext|..] == ext ==> WithHtmlExtension(p, ext) == p[..|p| - |ext|] + ".html"
    ensures !(|ext| <= |p| && p[|p| - |ext|..] == ext) ==> WithHtmlExtension(p, ext) == p + ".html"
  {
  }


  /** `dest` with the extension replaced where it is, at the end of the path. */
  function Dest(src: String, config: Config): String {
    WithHtmlExtension(Moved(src, config), Extname(src))
  }

  /** `getData(file)` with `href` computed from `dest` itself. */
  function GetData(src: String, config: Config): Page {
    Page(None, Slug(src), Relative(config.root, Dest(src, config)), Dest(src, config), src, None)
  }

  /** For a source `srcdir/sub` with an extension that occurs nowhere else in the moved path nor
      in the result, the two agree. */
  lemma GetDataAgrees(src: String, config: Config)
    requires OccursAt(src, config.srcdir, 0)
    requires var moved := config.root + src[|config.srcdir|..];
             var ext := Extname(src);
             ext != [] && IndexOf(moved, ext, 0) == Some(|moved| - |ext|) &&
             !Contains(moved[..|moved| - |ext|] + ".html", ext)
    ensures GetDataAsWritten(src, config) == GetData(src, config)
  {
    MovedFromFront(src, config);
    ExtensionAtEnd(config.root + src[|config.srcdir|..], Extname(src));
  }

  /** A source that starts with the source directory is moved by swapping that prefix. */
  lemma MovedFromFront(src: String, config: Config)
    requires OccursAt(src, config.srcdir, 0)
    ensures Moved(src, config) == config.root + src[|config.srcdir|..]
  {
    assert IndexOf(src, config.srcdir, 0) == Some(0);
  }

  /** An extension found only at the very end is replaced there, once and for all. */
  lemma ExtensionAtEnd(moved: String, ext: String)
    requires ext != [] && IndexOf(moved, ext, 0) == Some(|moved| - |ext|)
    requires !Contains(moved[..|moved| - |ext|] + ".html", ext)
    ensures var dest := ReplaceFirst(moved, ext, ".html");
            dest == WithHtmlExtension(moved, ext) && ReplaceFirst(dest, ext, ".html") == dest
  {
    assert OccursAt(moved, ext, |moved| - |ext|);
    assert moved[|moved| - |ext|..] == ext;
  }

  /** The page's `href` leads from the output root to its `dest`, and `dest` is an HTML file
      whose name keeps the slug. For a source under the source directory, `dest` is the output
      root followed by the rest of the source path, its extension replaced by `.html`. */
  lemma GetDataMeaning(src: String, config: Config)
    requires forall k :: 0 <= k < |Segments(GetData(src, config).dest)| ==> Segments(GetData(src, config).dest)[k] != ".."
    ensures var page := GetData(src, config);
            Resolve(Segments(config.root), Segments(page.href)) == Segments(page.dest) &&
            page.dest[|page.dest| - 5..] == ".html" &&
            page.slug + Extname(src) == Basename(src) &&
            page.title.None? && page.sections.None? && page.src == src
    ensures OccursAt(src, config.srcdir, 0) && |config.srcdir| + |Extname(src)| <= |src| ==>
              GetData(src, config).dest == config.root + src[|config.srcdir|..|src| - |Extname(src)|] + ".html"
  {
    RelativePath(config.root, GetData(src, config).dest);
    SlugAndExtension(src);
    if OccursAt(src, config.srcdir, 0) && |config.srcdir| + |Extname(src)| <= |src| {
      DestUnderRoot(src, config);
    }
  }

  /** The destination of a source under the source directory. */
  lemma DestUnderRoot(src: String, config: Config)
    requires OccursAt(src, config.srcdir, 0) && |config.srcdir| + |Extname(src)| <= |src|
    ensures Dest(src, config) == config.root + src[|config.srcdir|..|src| - |Extname(src)|] + ".html"
  {
    ExtensionEndsPath(src);
    DestWith(src, config, Extname(src));
  }

  /** Under the source directory, a path ending in `ext` moves to the output root with `ext`
      replaced by `.html`. */
  lemma DestWith(src: String, config: Config, ext: String)
    requires OccursAt(src, config.srcdir, 0) && |config.srcdir| + |ext| <= |src| && src[|src| - |ext|..] == ext
    ensures WithHtmlExtension(Moved(src, config), ext) == config.root + src[|config.srcdir|..|src| - |ext|] + ".html"
  {
    MovedFromFront(src, config);
    HtmlAfterPrefix(WithHtmlExtension(Moved(src, config), ext), Moved(src, config), config.root, src, |config.srcdir|, ext);
  }

  /** Replacing a prefix of `s` keeps every suffix of `s` that lies after it, so the extension
      is still there to be replaced. */
  lemma HtmlAfterPrefix(dest: String, moved: String, root: String, s: String, n: nat, ext: String)
    requires n + |ext| <= |s| && s[|s| - |ext|..] == ext
    requires moved == root + s[n..] && dest == WithHtmlExtension(moved, ext)
    ensures dest == root + s[n..|s| - |ext|] + ".html"
  {
    WithHtmlExtensionValue(moved, ext);
    assert moved[|moved| - |ext|..] == s[|s| - |ext|..];
    assert moved[..|moved| - |ext|] == root + s[n..|s| - |ext|];
  }

  /** The extension is a suffix of the path itself. */
  lemma ExtensionEndsPath(src: String)
    ensures |Extname(src)| <= |src| && src[|src| - |Extname(src)|..] == Extname(src)
  {
    var b := Basename(src);
    var e := Extname(src);
    assert e == b[|b| - |e|..];
    assert b == src[|src| - |b|..];
    assert b[|b| - |e|..] == src[|src| - |e|..];
  }

  /** The section built from one block: its normalised comment, formatted together with the
      style source that follows the block. */
  function SectionAt(data: String, sp: Span, options: Options, markdown: String -> String,
                     highlight: (String, String) -> String): Section
    requires options.Valid() && sp.lo <= sp.hi <= |data|
  {
    Formatting(Normalize(data[sp.lo..sp.hi], options.commentStart, options.commentEnd),
               StyleAfter(data, options.commentStart, sp.hi), markdown, highlight)
  }

  /** All spans lie within the text. */
  predicate Within(data: String, spans: seq<Span>) {
    forall k :: 0 <= k < |spans| ==> spans[k].lo <= spans[k].hi <= |data|
  }

  /** `file.body.map(...)` in `getSections`: one section per block, in order. */
  function SectionsOf(data: String, spans: seq<Span>, options: Options, markdown: String -> String,
                      highlight: (String, String) -> String): (r: seq<Section>)
    requires options.Valid() && Within(data, spans)
    ensures |r| == |spans|
    decreases |spans|
  {
    if spans == [] then []
    else
      assert Within(data, spans[..|spans| - 1]);
      SectionsOf(data, spans[..|spans| - 1], options, markdown, highlight) +
        [SectionAt(data, spans[|spans| - 1], options, markdown, highlight)]
  }

  /** One more block adds its section at the end. */
  lemma SectionsSnoc(data: String, spans: seq<Span>, i: nat, options: Options, markdown: String -> String,
                     highlight: (String, String) -> String)
    requires options.Valid() && Within(data, spans) && i < |spans|
    ensures Within(data, spans[..i]) && Within(data, spans[..i + 1])
    ensures SectionsOf(data, spans[..i + 1], options, markdown, highlight) ==
            SectionsOf(data, spans[..i], options, markdown, highlight) + [SectionAt(data, spans[i], options, markdown, highlight)]
  {
    assert Within(data, spans[..i]) && Within(data, spans[..i + 1]);
    assert spans[..i + 1][..i] == spans[..i];
  }

  /** The comments of a sequence of sections. */
  function Comments(sections: seq<Section>): (r: seq<String>)
    ensures |r| == |sections| && forall k :: 0 <= k < |r| ==> r[k] == sections[k].comment
  {
    if sections == [] then [] else Comments(sections[..|sections| - 1]) + [sections[|sections| - 1].comment]
  }

  /** One more section adds its comment at the end. */
  lemma CommentsSnoc(sections: seq<Section>, s: Section)
    ensures Comments(sections + [s]) == Comments(sections) + [s.comment]
  {
    assert (sections + [s])[..|sections|] == sections;
  }

  /** The blocks of a file: the spans of `file.data.match(this.matching())`, in order. */
  function Blocks(data: String, options: Options): (spans: seq<Span>)
    requires options.Valid()
    ensures Within(data, spans)
  {
    SpansWithin(data, options.commentStart, options.commentEnd, 0);
    Spans(data, options.commentStart, options.commentEnd, 0)
  }

  /** A source file as `pages()` finds it: its path, the title an earlier run may have left
      on it, and `text`, what `fs.readFileSync` returns for the path. */
  datatype Input = Input(src: String, title: Option<String>, text: String)

  /** `file.title` after `getSections` has run over a file's blocks (unchanged when there is no
      block). */
  function FileTitle(data: String, title: Option<String>, options: Options, markdown: String -> String,
                     highlight: (String, String) -> String): Option<String>
    requires options.Valid()
  {
    if Matches(data, options.commentStart, options.commentEnd).None? then title
    else TitleAfter(title, Comments(SectionsOf(data, Blocks(data, options), options, markdown, highlight)))
  }

  /** What `pages()` leaves on a file: `file.data`, `file.body` and `file.title`. */
  datatype FileState = FileState(data: String, body: Option<seq<String>>, title: Option<String>)

  /** The state `pages()` leaves on a file: its text, the match of its blocks, and the title
      `getSections` gives it. */
  function StateAfter(file: Input, options: Options, markdown: String -> String,
                      highlight: (String, String) -> String): FileState
    requires options.Valid()
  {
    FileState(file.text, Matches(file.text, options.commentStart, options.commentEnd),
              FileTitle(file.text, file.title, options, markdown, highlight))
  }

  /** The state `pages()` leaves on each file, in order. */
  function StatesAfter(files: seq<Input>, options: Options, markdown: String -> String,
                       highlight: (String, String) -> String): (r: seq<FileState>)
    requires options.Valid()
    ensures |r| == |files|
  {
    seq(|files|, k requires 0 <= k < |files| => StateAfter(files[k], options, markdown, highlight))
  }

  /** What `pages()` does with one file. */
  datatype Outcome = Kept(page: Page) | Excluded(src: String)

  /** One iteration of the loop in `pages()`: read the file, find its blocks, build the page,
      and either exclude it or keep it with its sections and title. */
  function ProcessFile(file: Input, options: Options, config: Config,
                       markdown: String -> String, highlight: (String, String) -> String): Outcome
    requires options.Valid()
  {
    var data := file.text;
    var page := GetData(file.src, config);
    var title := FileTitle(data, file.title, options, markdown, highlight);
    if Matches(data, options.commentStart, options.commentEnd).None? && options.excludeMissing then
      Excluded(page.src)
    else
      var sections := if Matches(data, options.commentStart, options.commentEnd).None? then None
                      else Some(SectionsOf(data, Blocks(data, options), options, markdown, highlight));
      Kept(page.(sections := sections, title := if Truthy(title) then title else Some(page.slug)))
  }

  /** A file without a block is excluded when exclusion is on. */
  lemma ProcessExcluded(file: Input, options: Options, config: Config,
                        markdown: String -> String, highlight: (String, String) -> String,
                        data: String, body: Option<seq<String>>)
    requires options.Valid() && options.excludeMissing
    requires data == file.text && body == Matches(data, options.commentStart, options.commentEnd) && body.None?
    ensures ProcessFile(file, options, config, markdown, highlight) == Excluded(file.src)
    ensures FileTitle(data, file.title, options, markdown, highlight) == file.title
  {
  }

  /** Otherwise the file is kept, with the sections of its blocks if it has any, and the title it
      ends up with or else its slug. */
  lemma ProcessKept(file: Input, options: Options, config: Config,
                    markdown: String -> String, highlight: (String, String) -> String,
                    data: String, body: Option<seq<String>>, sections: Option<seq<Section>>, title: Option<String>)
    requires options.Valid()
    requires data == file.text && body == Matches(data, options.commentStart, options.commentEnd)
    requires !(options.excludeMissing && body.None?)
    requires body.None? ==> sections.None? && title == file.title
    requires body.Some? ==> sections == Some(SectionsOf(data, Blocks(data, options), options, markdown, highlight)) &&
                            title == TitleAfter(file.title, Comments(sections.value))
    ensures title == FileTitle(data, file.title, options, markdown, highlight)
    ensures ProcessFile(file, options, config, markdown, highlight) ==
            Kept(GetData(file.src, config).(sections := sections, title := if Truthy(title) then title else Some(Slug(file.src))))
  {
  }

  /** The source path an outcome is about. */
  function SourceOf(out: Outcome): String {
    if out.Kept? then out.page.src else out.src
  }

  /** The outcome of each file, in order. */
  function Outcomes(files: seq<Input>, options: Options, config: Config,
                    markdown: String -> String, highlight: (String, String) -> String): (r: seq<Outcome>)
    requires options.Valid()
    ensures |r| == |files|
  {
    seq(|files|, k requires 0 <= k < |files| => ProcessFile(files[k], options, config, markdown, highlight))
  }

  /** The pages among some outcomes, in order. */
  function KeptPages(outs: seq<Outcome>): seq<Page>
    decreases |outs|
  {
    if outs == [] then []
    else KeptPages(outs[..|outs| - 1]) + (if outs[|outs| - 1].Kept? then [outs[|outs| - 1].page] else [])
  }

  /** The excluded paths among some outcomes, in order. */
  function ExcludedPaths(outs: seq<Outcome>): seq<String>
    decreases |outs|
  {
    if outs == [] then []
    else ExcludedPaths(outs[..|outs| - 1]) + (if outs[|outs| - 1].Excluded? then [outs[|outs| - 1].src] else [])
  }

  /** One more outcome joins the pages or the excluded paths of the outcomes before it. */
  lemma KeptPagesSnoc(outs: seq<Outcome>, i: nat)
    requires i < |outs|
    ensures KeptPages(outs[..i + 1]) == KeptPages(outs[..i]) + (if outs[i].Kept? then [outs[i].page] else [])
    ensures ExcludedPaths(outs[..i + 1]) == ExcludedPaths(outs[..i]) + (if outs[i].Excluded? then [outs[i].src] else [])
  {
    assert outs[..i + 1][..i] == outs[..i];
  }

  /** The outcome of file `i` joins the pages or the excluded paths of the files before it. */
  lemma OutcomeJoins(files: seq<Input>, i: nat, options: Options, config: Config,
                     markdown: String -> String, highlight: (String, String) -> String,
                     pages: seq<Page>, excluded: seq<String>, out: Outcome)
    requires options.Valid() && i < |files|
    requires pages == KeptPages(Outcomes(files, options, config, markdown, highlight)[..i])
    requires excluded == ExcludedPaths(Outcomes(files, options, config, markdown, highlight)[..i])
    requires out == ProcessFile(files[i], options, config, markdown, highlight)
    ensures pages + (if out.Kept? then [out.page] else []) ==
            KeptPages(Outcomes(files, options, config, markdown, highlight)[..i + 1])
    ensures excluded + (if out.Excluded? then [out.src] else []) ==
            ExcludedPaths(Outcomes(files, options, config, markdown, highlight)[..i + 1])
  {
    KeptPagesSnoc(Outcomes(files, options, config, markdown, highlight), i);
  }

  /** `this.pages` after `pages()`. */
  function PagesOf(files: seq<Input>, options: Options, config: Config,
                   markdown: String -> String, highlight: (String, String) -> String): seq<Page>
    requires options.Valid()
  {
    KeptPages(Outcomes(files, options, config, markdown, highlight))
  }

  /** `this.excluded` after `pages()`. */
  function ExcludedOf(files: seq<Input>, options: Options, config: Config,
                      markdown: String -> String, highlight: (String, String) -> String): seq<String>
    requires options.Valid()
  {
    ExcludedPaths(Outcomes(files, options, config, markdown, highlight))
  }

  /** A file is excluded exactly when it has no block and exclusion is on; either way the
      outcome is about the file's own path, and a kept page has sections exactly when the file
      has a block. */
  lemma ExcludedIffMissing(file: Input, options: Options, config: Config,
                           markdown: String -> String, highlight: (String, String) -> String)
    requires options.Valid()
    ensures var out := ProcessFile(file, options, config, markdown, highlight);
            var missing := NoMatchFrom(file.text, options.commentStart, options.commentEnd, 0);
            (out.Excluded? <==> options.excludeMissing && missing) &&
            SourceOf(out) == file.src &&
            (out.Kept? ==> (out.page.sections.None? <==> missing))
  {
    MatchesMissing(file.text, options.commentStart, options.commentEnd);
  }

  /** A kept page has one section per block. Its title is the title the file already had, else
      the first non-empty heading of its sections, else its slug. */
  lemma PageTitle(file: Input, options: Options, config: Config,
                  markdown: String -> String, highlight: (String, String) -> String)
    requires options.Valid()
    requires ProcessFile(file, options, config, markdown, highlight).Kept?
    ensures var page := ProcessFile(file, options, config, markdown, highlight).page;
            var body := Matches(file.text, options.commentStart, options.commentEnd);
            var heading := if page.sections.Some? then FirstHeading(Comments(page.sections.value)) else None;
            (page.sections.Some? <==> body.Some?) &&
            (page.sections.Some? ==> |page.sections.value| == |body.value|) &&
            page.title == (if Truthy(file.title) then file.title
                           else if heading.Some? then heading else Some(Slug(file.src)))
  {
    var page := ProcessFile(file, options, config, markdown, highlight).page;
    if Truthy(file.title) {
      if page.sections.Some? {
        TitleKept(file.title, Comments(page.sections.value));
      }
    } else if page.sections.Some? {
      TitleIsFirstHeading(file.title, Comments(page.sections.value));
    }
  }

  /** Every outcome is either a page or an excluded path. */
  lemma {:induction false} KeptAndExcludedCount(outs: seq<Outcome>)
    ensures |KeptPages(outs)| + |ExcludedPaths(outs)| == |outs|
    decreases |outs|
  {
    if outs != [] {
      KeptAndExcludedCount(outs[..|outs| - 1]);
    }
  }

  /** Outcomes that are all pages give every page, in order, and no excluded path. */
  lemma {:induction false} AllKept(outs: seq<Outcome>)
    requires forall k :: 0 <= k < |outs| ==> outs[k].Kept?
    ensures ExcludedPaths(outs) == []
    ensures |KeptPages(outs)| == |outs| && forall k :: 0 <= k < |outs| ==> KeptPages(outs)[k] == outs[k].page
    decreases |outs|
  {
    if outs != [] {
      AllKept(outs[..|outs| - 1]);
    }
  }

  /** A page or excluded path comes from one of the outcomes. */
  lemma {:induction false} KeptAndExcludedFrom(outs: seq<Outcome>)
    ensures forall p :: p in KeptPages(outs) ==> Kept(p) in outs
    ensures forall x :: x in ExcludedPaths(outs) ==> Excluded(x) in outs
    decreases |outs|
  {
    if outs != [] {
      KeptAndExcludedFrom(outs[..|outs| - 1]);
      assert outs == outs[..|outs| - 1] + [outs[|outs| - 1]];
    }
  }

  /** No two outcomes are about the same path. */
  predicate DistinctSources(outs: seq<Outcome>) {
    forall i, j :: 0 <= i < j < |outs| ==> SourceOf(outs[i]) != SourceOf(outs[j])
  }

  /** When no two outcomes are about the same path, no page comes from an excluded path. */
  lemma ExcludedNotKept(outs: seq<Outcome>, p: Page)
    requires DistinctSources(outs) && p in KeptPages(outs)
    ensures p.src !in ExcludedPaths(outs)
  {
    KeptAndExcludedFrom(outs);
    var i :| 0 <= i < |outs| && outs[i] == Kept(p);
    forall j | 0 <= j < |outs| ensures outs[j] != Excluded(p.src) {
      if j != i {
        assert SourceOf(outs[j]) != SourceOf(outs[i]);
      }
    }
  }

  /** Every file ends up either among the pages or among the excluded paths. */
  lemma PagesAndExcludedCount(files: seq<Input>, options: Options, config: Config,
                              markdown: String -> String, highlight: (String, String) -> String)
    requires options.Valid()
    ensures |PagesOf(files, options, config, markdown, highlight)| +
            |ExcludedOf(files, options, config, markdown, highlight)| == |files|
  {
    KeptAndExcludedCount(Outcomes(files, options, config, markdown, highlight));
  }

  /** Without `excludeMissing`, nothing is excluded and every file becomes a page, in order. */
  lemma AllKeptByDefault(files: seq<Input>, options: Options, config: Config,
                         markdown: String -> String, highlight: (String, String) -> String)
    requires options.Valid() && !options.excludeMissing
    ensures ExcludedOf(files, options, config, markdown, highlight) == []
    ensures var pages := PagesOf(files, options, config, markdown, highlight);
            |pages| == |files| && forall k :: 0 <= k < |files| ==> pages[k].src == files[k].src
  {
    var outs := Outcomes(files, options, config, markdown, highlight);
    forall k | 0 <= k < |files| ensures outs[k].Kept? && outs[k].page.src == files[k].src {
      ExcludedIffMissing(files[k], options, config, markdown, highlight);
    }
    AllKept(outs);
  }

  /** When every file is listed once, no page comes from an excluded path. */
  lemma ExcludedNotPages(files: seq<Input>, options: Options, config: Config,
                         markdown: String -> String, highlight: (String, String) -> String, p: Page)
    requires options.Valid()
    requires forall i, j :: 0 <= i < j < |files| ==> files[i].src != files[j].src
    requires p in PagesOf(files, options, config, markdown, highlight)
    ensures p.src !in ExcludedOf(files, options, config, markdown, highlight)
  {
    var outs := Outcomes(files, options, config, markdown, highlight);
    forall k | 0 <= k < |files| ensures SourceOf(outs[k]) == files[k].src {
      ExcludedIffMissing(files[k], options, config, markdown, highlight);
    }
    ExcludedNotKept(outs, p);
  }

  /* Three inputs on which `getData` as written does not do what it evidently means to, with
     the source directory `s` and the output root `d`. */

  /** The extension of a file inside a directory whose name carries the same extension is
      replaced in the directory name. */
  lemma ExtensionReplacedInDirectory(src: String, config: Config)
    requires src == "s/x.css/y.css" && config == Config("s", "d")
    ensures DestAsWritten(src, config) == "d/x.html/y.css"
    ensures Dest(src, config) == "d/x.css/y.html"
  {
    ExtensionInDirectory(src);
    MovedFront(src, config);
    DirectoryDest(src[1..], Moved(src, config), Extname(src));
  }

  lemma ExtensionInDirectory(src: String)
    requires src == "s/x.css/y.css"
    ensures Extname(src) == ".css"
  {
    LastIndexAt(src, '/', 7);
    assert Basename(src) == "y.css";
    LastIndexAt(Basename(src), '.', 1);
  }

  lemma DirectoryDest(tail: String, moved: String, ext: String)
    requires tail == "/x.css/y.css" && moved == "d" + tail && ext == ".css"
    ensures ReplaceFirst(moved, ext, ".html") == "d/x.html/y.css"
    ensures WithHtmlExtension(moved, ext) == "d/x.css/y.html"
  {
    DirectoryFirstDot(tail, moved, ext);
    assert moved[|moved| - 4..] == ext by {
      assert moved[|moved| - 4..] == tail[|tail| - 4..];
    }
  }

  lemma DirectoryFirstDot(tail: String, moved: String, ext: String)
    requires tail == "/x.css/y.css" && moved == "d" + tail && ext == ".css"
    ensures ReplaceFirst(moved, ext, ".html") == "d/x.html/y.css"
  {
    assert moved[..3] == "d/x" && moved[3..7] == ext && moved[7..] == "/y.css" by {
      assert moved[..3] == "d" + tail[..2] && moved[3..7] == tail[2..6] && moved[7..] == tail[6..];
    }
    ReplaceFirstAt(moved, ext, ".html", 3);
  }

  /** A source under `s` moves under `d`. */
  lemma MovedFront(src: String, config: Config)
    requires src != [] && src[0] == 's' && config == Config("s", "d")
    ensures Moved(src, config) == "d" + src[1..]
  {
    ReplaceFirstAt(src, "s", "d", 0);
  }

  /** A file without an extension gets `.html` in front of its whole path. */
  lemma ExtensionlessPrefixed(src: String, config: Config)
    requires src == "s/README" && config == Config("s", "d")
    ensures DestAsWritten(src, config) == ".htmld/README"
    ensures Dest(src, config) == "d/README.html"
  {
    NoExtension(src);
    MovedFront(src, config);
    ExtensionlessDest(src[1..], Moved(src, config), Extname(src));
  }

  lemma ExtensionlessDest(tail: String, moved: String, ext: String)
    requires tail == "/README" && moved == "d" + tail && ext == ""
    ensures ReplaceFirst(moved, ext, ".html") == ".htmld/README"
    ensures WithHtmlExtension(moved, ext) == "d/README.html"
  {
    assert OccursAt(moved, ext, 0);
  }

  lemma NoExtension(src: String)
    requires src == "s/README"
    ensures Extname(src) == ""
  {
    LastIndexAt(src, '/', 1);
    assert Basename(src) == "README";
  }

  /** An extension that `.html` begins with is replaced a second time before `href` is taken, so
      `href` names a file that is not `dest`. */
  lemma HrefReplacedTwice(src: String, config: Config)
    requires src == "s/a.htm" && config == Config("s", "d")
    ensures DestAsWritten(src, config) == Dest(src, config) == "d/a.html"
    ensures HrefAsWritten(src, config) == "a.htmll"
    ensures Relative(config.root, Dest(src, config)) == "a.html"
  {
    HtmDest(src, config);
    var dest := DestAsWritten(src, config);
    HtmAgain(dest, Extname(src));
    HrefsUnderRoot(config.root, ReplaceFirst(dest, Extname(src), ".html"), dest);
  }

  lemma HrefsUnderRoot(root: String, doubled: String, page: String)
    requires root == "d" && doubled == "d/a.htmll" && page == "d/a.html"
    ensures Relative(root, doubled) == "a.htmll" && Relative(root, page) == "a.html"
  {
    HrefOf(root, doubled, "a.htmll");
    HrefOf(root, page, "a.html");
  }

  lemma HtmDest(src: String, config: Config)
    requires src == "s/a.htm" && config == Config("s", "d")
    ensures Extname(src) == ".htm"
    ensures DestAsWritten(src, config) == Dest(src, config) == "d/a.html"
  {
    LastIndexAt(src, '/', 1);
    assert Basename(src) == "a.htm";
    LastIndexAt(Basename(src), '.', 1);
    MovedFront(src, config);
    HtmOnce(Moved(src, config), Extname(src));
  }

  lemma HtmOnce(moved: String, ext: String)
    requires moved == "d/a.htm" && ext == ".htm"
    ensures ReplaceFirst(moved, ext, ".html") == WithHtmlExtension(moved, ext) == "d/a.html"
  {
    ReplaceFirstAt(moved, ext, ".html", 3);
  }

  lemma HtmAgain(dest: String, ext: String)
    requires dest == "d/a.html" && ext == ".htm"
    ensures ReplaceFirst(dest, ext, ".html") == "d/a.htmll"
  {
    ReplaceFirstAt(dest, ext, ".html", 3);
  }

  /** The path from `d` to a file `d/name`. */
  lemma HrefOf(root: String, dest: String, name: String)
    requires root == "d" && IsSegment(name) && dest == root + "/" + name
    ensures Relative(root, dest) == name
  {
    assert Join([root, name], "/") == dest;
    assert IsSegment(root);
    SegmentsOfJoin([root, name]);
    assert Join([root], "/") == root;
    SegmentsOfJoin([root]);
    assert RelativeSegments([root], [root, name]) == [name] by {
      assert [root, name][1..] == [name];
      assert RelativeSegments([], [name]) == [name];
    }
  }
}
