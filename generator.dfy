/**
  The generator object: the source files it was given, the pages `pages()` (lines 299-341 of
  lib/sassdown.js) collects from them, the paths it excludes and the tree `tree()` (lines
  549-557) builds with `recurse` (lines 479-547). Each method changes the fields the source
  changes and is proved against the specification functions of `PageBuilder` and
  `TreeBuilder`.
 */
module Generator {
  import opened Text
  import opened Sectionizer
  import opened Normalizer
  import opened Formatter
  import opened Paths
  import opened PageBuilder
  import opened TreeBuilder

  /** A source file as the caller hands it over; `pages()` stores its text, its blocks and
      its title on it. `text` is what `fs.readFileSync` returns for `src`. */
  class SourceFile {
    const src: String
    const text: String
    var data: String
    var body: Option<seq<String>>
    var title: Option<String>

    constructor (src: String, text: String)
      ensures this.src == src && this.text == text && data == [] && body.None? && title.None?
    {
      this.src := src;
      this.text := text;
      data := [];
      body := None;
      title := None;
    }

    /** The fields `pages()` sets. */
    function State(): FileState
      reads this
    {
      FileState(data, body, title)
    }
  }

  /** The inputs `pages()` reads off the files: their paths, current titles and contents. */
  function InputsOf(files: seq<SourceFile>): (r: seq<Input>)
    reads files
    ensures |r| == |files| && forall k :: 0 <= k < |files| ==> r[k] == Input(files[k].src, files[k].title, files[k].text)
  {
    if files == [] then []
    else InputsOf(files[..|files| - 1]) + [Input(files[|files| - 1].src, files[|files| - 1].title, files[|files| - 1].text)]
  }

  /** One more section: the title rule takes one more step, on its comment. */
  lemma SectionsStep(title: Option<String>, sections: seq<Section>, output: Section)
    ensures TitleAfter(title, Comments(sections + [output])) == NextTitle(TitleAfter(title, Comments(sections)), output.comment)
  {
    CommentsSnoc(sections, output);
    TitleAfterSnoc(title, Comments(sections), output.comment);
  }

  class Sassdown {
    const options: Options
    const config: Config
    const files: seq<SourceFile>
    /** The markdown renderer and the highlighter's `value`. */
    const markdown: String -> String
    const highlight: (String, String) -> String
    /** `junk.is` of the `junk` package. */
    const junk: String -> bool

    var pages: seq<Page>
    var excluded: seq<String>
    /** `config.tree`, once `tree()` has run. */
    var tree: Option<Walked>
    /** `pages()` has run. Before, `this.pages` is still the method itself and `excluded` is
        unset, so `tree()` cannot look pages up; after, `this.pages` is the array it built, so
        `pages()` cannot be called again. */
    ghost var built: bool

    /** The options are usable and no file is listed twice. */
    predicate Valid() {
      options.Valid() && forall i, j :: 0 <= i < j < |files| ==> files[i] != files[j]
    }

    constructor (options: Options, config: Config, files: seq<SourceFile>, markdown: String -> String,
                 highlight: (String, String) -> String, junk: String -> bool)
      requires options.Valid() && forall i, j :: 0 <= i < j < |files| ==> files[i] != files[j]
      ensures Valid()
      ensures this.options == options && this.config == config && this.files == files
      ensures this.markdown == markdown && this.highlight == highlight && this.junk == junk
      ensures pages == [] && excluded == [] && tree.None? && !built
    {
      this.options := options;
      this.config := config;
      this.files := files;
      this.markdown := markdown;
      this.highlight := highlight;
      this.junk := junk;
      pages := [];
      excluded := [];
      tree := None;
      built := false;
    }

    /** `getSections(file)`: one section per block of the file, in order, setting the file's
        title from the first heading when it has none. */
    method GetSections(file: SourceFile) returns (sections: seq<Section>)
      requires Valid()
      modifies file`title
      ensures sections == SectionsOf(file.data, Blocks(file.data, options), options, markdown, highlight)
      ensures file.title == TitleAfter(old(file.title), Comments(sections))
    {
      var data := file.data;
      var spans := Blocks(data, options);
      sections := [];
      for i := 0 to |spans|
        invariant sections == SectionsOf(data, spans[..i], options, markdown, highlight)
        invariant file.title == TitleAfter(old(file.title), Comments(sections))
      {
        sections := AddSection(file, data, spans, i, old(file.title), sections);
      }
      assert spans[..|spans|] == spans;
    }

    /** One pass of the `map` in `getSections`: the section of block `i` joins those before. */
    method AddSection(file: SourceFile, data: String, spans: seq<Span>, i: nat, ghost t0: Option<String>,
                      sections: seq<Section>) returns (next: seq<Section>)
      requires Valid() && Within(data, spans) && i < |spans|
      requires Within(data, spans[..i]) && sections == SectionsOf(data, spans[..i], options, markdown, highlight)
      requires file.title == TitleAfter(t0, Comments(sections))
      modifies file`title
      ensures Within(data, spans[..i + 1]) && next == SectionsOf(data, spans[..i + 1], options, markdown, highlight)
      ensures file.title == TitleAfter(t0, Comments(next))
    {
      SectionsSnoc(data, spans, i, options, markdown, highlight);
      var output := SectionOf(file, data, spans[i]);
      SectionsStep(t0, sections, output);
      next := sections + [output];
    }

    /** The callback `getSections` maps over the blocks: the section of one block, which also
        gives the file the block's heading as its title when it has none. */
    method SectionOf(file: SourceFile, data: String, sp: Span) returns (output: Section)
      requires Valid() && sp.lo <= sp.hi <= |data|
      modifies file`title
      ensures output == SectionAt(data, sp, options, markdown, highlight)
      ensures file.title == NextTitle(old(file.title), output.comment)
    {
      var content := Normalize(data[sp.lo..sp.hi], options.commentStart, options.commentEnd);
      var styles := StyleAfter(data, options.commentStart, sp.hi);
      output := Formatting(content, styles, markdown, highlight);
      if !Truthy(file.title) && Contains(output.comment, "</h1>") {
        file.title := HeadingTitle(output.comment);
      }
    }

    /** The first step of the callback `pages()` runs on one file: store the file's text and
        the result of matching its blocks on it. */
    method ReadFile(file: SourceFile)
      requires Valid()
      modifies file`data, file`body
      ensures file.data == file.text
      ensures file.body == Matches(file.text, options.commentStart, options.commentEnd)
    {
      file.data := file.text;
      file.body := Matches(file.data, options.commentStart, options.commentEnd);
    }

    /** The page of a file that is not excluded: its data, its sections when it has blocks, and
        its title, or else its slug. */
    method KeptPage(file: SourceFile, ghost input: Input) returns (page: Page)
      requires Valid()
      requires input == Input(file.src, file.title, file.text)
      requires file.data == file.text
      requires file.body == Matches(file.text, options.commentStart, options.commentEnd)
      requires !(options.excludeMissing && file.body.None?)
      modifies file`title
      ensures file.title == FileTitle(input.text, input.title, options, markdown, highlight)
      ensures ProcessFile(input, options, config, markdown, highlight) == Kept(page)
    {
      var data := file.data;
      var body := file.body;
      page := GetData(file.src, config);
      if body.None? {
        page := page.(sections := None);
      } else {
        var sections := GetSections(file);
        page := page.(sections := Some(sections));
      }
      ProcessKept(input, options, config, markdown, highlight, data, body, page.sections, file.title);
      if !Truthy(file.title) {
        page := page.(title := Some(page.slug));
      } else {
        page := page.(title := file.title);
      }
    }

    /** The callback `pages()` runs on one file: read it, match its blocks, then record it as
        excluded (by `page.src`, which `getData` copies from `file.src`) or push its page. */
    method AddFile(file: SourceFile) returns (ghost out: Outcome)
      requires Valid()
      modifies this`pages, this`excluded, file`data, file`body, file`title
      ensures file.State() == StateAfter(Input(file.src, old(file.title), file.text), options, markdown, highlight)
      ensures out == ProcessFile(Input(file.src, old(file.title), file.text), options, config, markdown, highlight)
      ensures pages == old(pages) + (if out.Kept? then [out.page] else [])
      ensures excluded == old(excluded) + (if out.Excluded? then [out.src] else [])
    {
      ghost var input := Input(file.src, file.title, file.text);
      ReadFile(file);
      assert input == Input(file.src, file.title, file.text);
      if file.body.None? && options.excludeMissing {
        ProcessExcluded(input, options, config, markdown, highlight, file.text, file.body);
        out := Excluded(file.src);
        excluded := excluded + [file.src];
        assert file.State() == StateAfter(input, options, markdown, highlight);
      } else {
        ghost var body := file.body;
        var page := KeptPage(file, input);
        assert file.body == body;
        out := Kept(page);
        pages := pages + [page];
        assert file.State() == StateAfter(input, options, markdown, highlight);
      }
    }

    /** The files before `n` hold the states in `states`; the files from `n` on still carry
        their titles from `inputs`. */
    ghost predicate ProcessedUpTo(inputs: seq<Input>, states: seq<FileState>, n: nat)
      requires n <= |files| == |inputs| == |states|
      reads files
    {
      (forall k :: 0 <= k < n ==>
         files[k].data == states[k].data && files[k].body == states[k].body && files[k].title == states[k].title) &&
      (forall k :: n <= k < |files| ==> files[k].title == inputs[k].title)
    }

    /** `pages()`: every file is read and matched, and becomes a page or an excluded path; each
        file is left holding its text, the match of its blocks and its title. Afterwards
        `this.pages` is no longer the method, so it runs at most once. */
    method BuildPages()
      requires Valid() && !built
      modifies this`pages, this`excluded, this`built, files
      ensures built
      ensures pages == PagesOf(old(InputsOf(files)), options, config, markdown, highlight)
      ensures excluded == ExcludedOf(old(InputsOf(files)), options, config, markdown, highlight)
      ensures forall k :: 0 <= k < |files| ==>
                files[k].State() == StateAfter(Input(files[k].src, old(files[k].title), files[k].text),
                                                options, markdown, highlight)
    {
      CollectPages();
      built := true;
    }

    /** The body of `pages()`: fresh arrays, then the `forEach` over the files. */
    method CollectPages()
      requires Valid()
      modifies this`pages, this`excluded, files
      ensures pages == PagesOf(old(InputsOf(files)), options, config, markdown, highlight)
      ensures excluded == ExcludedOf(old(InputsOf(files)), options, config, markdown, highlight)
      ensures forall k :: 0 <= k < |files| ==>
                files[k].State() == StateAfter(Input(files[k].src, old(files[k].title), files[k].text),
                                                options, markdown, highlight)
    {
      ghost var inputs := InputsOf(files);
      ghost var outs := Outcomes(inputs, options, config, markdown, highlight);
      ghost var states := StatesAfter(inputs, options, markdown, highlight);
      pages := [];
      excluded := [];
      for i := 0 to |files|
        invariant pages == KeptPages(outs[..i])
        invariant excluded == ExcludedPaths(outs[..i])
        invariant ProcessedUpTo(inputs, states, i)
      {
        ghost var before := (pages, excluded);
        ghost var out := PagesStep(inputs, states, i);
        OutcomeJoins(inputs, i, options, config, markdown, highlight, before.0, before.1, out);
      }
      assert outs[..|files|] == outs;
      forall k | 0 <= k < |files|
        ensures files[k].State() == StateAfter(Input(files[k].src, old(files[k].title), files[k].text),
                                                options, markdown, highlight)
      {
        assert inputs[k] == Input(files[k].src, old(files[k].title), files[k].text);
        assert states[k] == StateAfter(inputs[k], options, markdown, highlight);
      }
    }

    /** One pass of the `forEach` in `pages()`: the file's outcome joins the pages or the
        excluded paths of the files before it, and the file takes its new state. */
    method PagesStep(ghost inputs: seq<Input>, ghost states: seq<FileState>, i: nat) returns (ghost out: Outcome)
      requires Valid() && i < |files| == |inputs| == |states|
      requires inputs[i] == Input(files[i].src, files[i].title, files[i].text)
      requires states[i] == StateAfter(inputs[i], options, markdown, highlight)
      requires ProcessedUpTo(inputs, states, i)
      modifies this`pages, this`excluded, files[i]
      ensures out == ProcessFile(inputs[i], options, config, markdown, highlight)
      ensures pages == old(pages) + (if out.Kept? then [out.page] else [])
      ensures excluded == old(excluded) + (if out.Excluded? then [out.src] else [])
      ensures ProcessedUpTo(inputs, states, i + 1)
    {
      out := AddFile(files[i]);
      forall k | 0 <= k < i
        ensures files[k].data == states[k].data && files[k].body == states[k].body
        ensures files[k].title == states[k].title
      {
        assert files[k] != files[i];
      }
      forall k | i < k < |files| ensures files[k].title == inputs[k].title {
        assert files[k] != files[i];
      }
    }

    /** `recurse(path)` on the entry found at `path`. */
    method Recurse(e: Entry, path: String) returns (w: Walked)
      requires built
      ensures w == Walk(e, path, pages, excluded, junk)
      decreases e
    {
      if junk(Basename(path)) {
        return JunkName;
      }
      match e
      case Directory(_, children) =>
        var nodes: seq<Node> := [];
        for i := 0 to |children|
          invariant nodes == WalkChildren(children[..i], path, pages, excluded, junk)
        {
          var child := children[i];
          var childPath := ChildPath(path, child.name);
          assert children[..i + 1][..i] == children[..i];
          if !junk(child.name) && childPath !in excluded {
            var childTree := Recurse(child, childPath);
            if childTree.Listed? {
              nodes := nodes + [childTree.node];
            }
          }
        }
        assert children[..|children|] == children;
        w := if nodes == [] then NotListed else Listed(DirNode(Basename(path), nodes));
      case RegularFile(_) =>
        var found: Option<Page> := None;
        for i := 0 to |pages|
          invariant found == LastPageAt(pages[..i], path)
        {
          assert pages[..i + 1][..i] == pages[..i];
          if pages[i].src == path {
            found := Some(pages[i]);
          }
        }
        assert pages[..|pages|] == pages;
        w := if found.None? then NotListed else Listed(PageNode(found.value));
      case OtherEntry(_) =>
        w := NotListed;
    }

    /** `tree()`: walk the source directory, keep the result as `config.tree` and return the
        children of its root. */
    method BuildTree(root: Entry) returns (r: TreeResult)
      requires built
      modifies this`tree
      ensures tree == Some(Walk(root, config.srcdir, pages, excluded, junk))
      ensures r == TreeOf(tree.value)
    {
      var walked := Recurse(root, config.srcdir);
      tree := Some(walked);
      r := TreeOf(walked);
    }
  }
}
