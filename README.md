# sassdown core, modelled in Dafny

sassdown turns annotated stylesheets into a static style guide. It scans each source file for
comment blocks between two delimiters (`/*` and `*/` by default) and normalises each block to
markdown, inferring a code fence around indented example markup. It then splits each block
into a comment, a live example and the highlighted markup, and pairs the block with the style
source that follows it. It reads a page title out of the first `<h1>` heading. Each source file
becomes a page record, and pages are excluded when a file has no block and the option asks for
it. Finally it walks the source directory to build the navigation tree of pages.

This project models that core of `lib/sassdown.js`, module by module:

- `Text`: the JavaScript string operations the core relies on, stated on `seq<char>`. These
  are `indexOf`, `replace` with a literal or an alternation (once, or with the `g` flag),
  `split`, `join` and `trim`.
- `Sectionizer`: the global match of `start([\s\S]*?)end` (`matching`, and `match` in `pages`)
  and the style source that follows a block (`_sourcify`).
- `Normalizer`: `_normalize`, with delimiter stripping, decoration clean-up and fence inference.
- `Formatter`: `unspace`, `formatting`, and the title rule of `getSections`.
- `Paths`: `path.basename`, `path.extname` and `path.relative` on `/`-separated paths, with a
  resolution function that gives `relative` its meaning.
- `PageBuilder`: `getData`, and the specification functions of `getSections` and `pages`.
- `TreeBuilder`: `recurse` and `tree` over a file system given as a value.
- `Includes`: `include`, the `<link>` or `<script>` tag for an asset.
- `Generator`: the `Sassdown` object as a class. It holds the files, `pages` and `excluded`
  state that `pages()` fills, plus the tree. Its methods `GetSections`, `BuildPages` (the
  `pages()` loop), `Recurse` and `BuildTree` are loops proved against the `PageBuilder` and
  `TreeBuilder` functions. A ghost flag records whether `pages()` has run: `tree()` needs it,
  and a second `pages()` is not possible.

The markdown renderer, `hljs.highlight`, the `junk` predicate and the file contents are
parameters or fields, so the model states what they are applied to, not what they produce.

## Model

| member | source | states |
|---|---|---|
| Text.SplitJoin | lib/sassdown.js:135 | `split` then `join` gives the text back, no piece holds the separator, and there are two or more pieces exactly when the separator occurs |
| Text.ReplaceOnceIsReplaceFirst | lib/sassdown.js:148-149 | a `replace` without the `g` flag replaces only the first occurrence of the pattern |
| Text.ReplaceAllCopiesPrefix | lib/sassdown.js:150 | a global replacement copies unchanged any prefix in which the pattern starts nowhere |
| Text.ReplaceAllIsSplitJoin | lib/sassdown.js:150 | a global replacement of one literal (such as `/\n   /g`) is splitting the text at it and joining the pieces with the replacement |
| Formatter.UnspaceEmptyIffBlank | lib/sassdown.js:28-30 | `unspace` leaves nothing exactly when the text is made only of spaces, line feeds and CR-LF pairs; a tab or a lone CR survives |
| Formatter.FormattingFenced | lib/sassdown.js:385-400 | with a fence, the comment is the markdown of the text before the first fence, and the result is the fence-free text right after that fence, which stops at the next fence or at the end of the content. The markup highlights the trimmed result as html. Styles are present exactly when the style source is not blank, and then highlight its trimmed text as scss |
| Formatter.SecondPieceEnd | lib/sassdown.js:385-390 | the second piece of `content.split(/```/)` ends at the end of the content or where the next fence starts |
| Formatter.FormattingPlain | lib/sassdown.js:402-405 | without a fence, only the comment is set, to the markdown of the whole content |
| Formatter.HeadingTitleMeaning | lib/sassdown.js:370-372 | the title is present exactly when a `>` precedes the first `</h1>`; it is the `>`-free text after the first `>` up to the next `>` or the `</h1>` |
| Formatter.TitleAfterSnoc | lib/sassdown.js:369-372 | running the title rule over one more section is one more step of the rule |
| Formatter.TitleKept | lib/sassdown.js:370 | a non-empty title is never overwritten by a later section |
| Formatter.TitleIsFirstHeading | lib/sassdown.js:355-377 | starting without a title, the page ends with a non-empty title exactly when some section has a non-empty heading, and it is the first such heading |
| Formatter.InferredSection | lib/sassdown.js:385-391 | for a block whose code is indented rather than fenced, and whose unindented text before the first indent does not end in a backtick, the comment is the markdown of that text and the result is the unindented code that follows it |
| Normalizer.StripOnce | lib/sassdown.js:148 | removing a delimiter takes out exactly its first occurrence (putting it back at that place gives the input) and leaves a text without it unchanged |
| Normalizer.DecoratedDropsStar | lib/sassdown.js:150 | a continuation line loses its ` * ` decoration: `a\n * b` becomes `a\nb` |
| Normalizer.DecoratedKeepsIndent | lib/sassdown.js:150 | a four-space indent, cut to three by the continuation rule, is widened back: `a\n    b` comes out unchanged |
| Normalizer.StripDelimitersFirstOnly | lib/sassdown.js:148-149 | `_normalize` removes the first start delimiter, then the first end delimiter of what is left, and nothing else |
| Normalizer.NormalizeKeepsExplicitFence | lib/sassdown.js:152-158 | a cleaned comment that already holds a fence is returned as it is |
| Normalizer.InferFenceShape | lib/sassdown.js:152-156 | with no fence and an indent, the output is the unindented text before the first indent, an opening fence, the unindented rest, and a closing fence; neither part holds a fence |
| Normalizer.NormalizeInfersFence | lib/sassdown.js:147-159 | the same shape for a whole raw block, stated on its cleaned text |
| Normalizer.InferFenceCloses | lib/sassdown.js:155 | an inferred fence block ends with a line break and a closing fence |
| Sectionizer.NextSpan | lib/sassdown.js:292-296 | a match found from a position starts at or after it, holds both delimiters without overlap, and lies within the text |
| Sectionizer.NextSpanIsFirst | lib/sassdown.js:296 | the scan finds the leftmost, shortest match, and finds none only when no match exists |
| Sectionizer.SpansScan | lib/sassdown.js:288-297 | the spans found are the global match: each is a leftmost, shortest match after the previous one, and nothing matches after the last |
| Sectionizer.ScanUnique | lib/sassdown.js:288-297 | that declarative meaning has exactly one solution |
| Sectionizer.Slices | lib/sassdown.js:308 | one block text per span, each the text of its span |
| Sectionizer.MatchesMissing | lib/sassdown.js:308-314 | `match` gives `null` exactly when no match exists; otherwise each block starts with the start delimiter, ends with the end delimiter and holds no earlier end delimiter |
| Sectionizer.BlockShape | lib/sassdown.js:296 | the text of each matched span starts and ends with the delimiters and closes at the first end delimiter |
| Sectionizer.StyleAfter | lib/sassdown.js:134-136 | the style source of a block is the text right after it, holding no start delimiter, and running to the next start delimiter or the end of the file |
| Sectionizer.SourcifyAtFirstOccurrence | lib/sassdown.js:134-136 | when the block's text first occurs where the block is, and the start delimiter cannot overlap itself, `_sourcify` as written gives that style source |
| Sectionizer.StyleAfterSplit | lib/sassdown.js:135 | that style source is the first piece of the rest of the file split at the start delimiter |
| Sectionizer.StylesTile | lib/sassdown.js:362-364 | between two consecutive blocks, the style source of the first followed by the second block is exactly the text between them, so nothing is lost or invented |
| Sectionizer.DefaultStartNoSelfOverlap | lib/sassdown.js:56 | the default start delimiter `/*` cannot overlap itself |
| Sectionizer.SourcifyDuplicateBlock | lib/sassdown.js:135 | for two identical blocks, `_sourcify` as written gives the second block the style source of the first (see Findings) |
| Paths.LastIndex | lib/sassdown.js:348 | the last occurrence of a character, or none when it does not occur |
| Paths.Basename | lib/sassdown.js:348 | the base name is a slash-free suffix of the path |
| Paths.BasenameAfterSlash | lib/sassdown.js:348 | the base name is the whole path or the text after a `/`, so it is everything after the last `/` |
| Paths.Extname | lib/sassdown.js:344 | the extension is empty or a dot-led suffix of the base name, shorter than it, with no other dot |
| Paths.ExtnameEmpty | lib/sassdown.js:344 | the extension is empty exactly when the base name is `..` or has no dot after its first character |
| Paths.SlugAndExtension | lib/sassdown.js:348 | slug followed by extension is the base name, and a non-empty base name gives a non-empty slug |
| Paths.ExtensionHasOneDot | lib/sassdown.js:344 | a non-empty extension holds exactly one dot, at its front |
| Paths.RelativeResolves | lib/sassdown.js:349 | following the relative segments from the source segments leads to the target segments |
| Paths.RelativePath | lib/sassdown.js:349 | `path.relative(from, to)`, followed from `from`, leads to `to` when `to` has no `..` segment |
| Paths.SegmentsOfJoin | lib/sassdown.js:349 | joining segments with `/` and splitting again gives the segments back |
| PageBuilder.WithHtmlExtension | lib/sassdown.js:344 | the destination path always ends in `.html` |
| PageBuilder.WithHtmlExtensionValue | lib/sassdown.js:344 | when the path ends in the extension, the extension is cut off and `.html` appended; otherwise `.html` is appended to the whole path |
| PageBuilder.GetDataMeaning | lib/sassdown.js:343-353 | `href`, followed from the output root, leads to `dest`. `dest` ends in `.html`, the slug plus the extension is the base name, and title and sections start unset. For a source under the source directory, `dest` is the output root followed by the rest of the source path, its extension replaced by `.html` |
| PageBuilder.DestUnderRoot | lib/sassdown.js:344 | a source under the source directory moves to the output root, keeping the rest of its path, with its extension replaced by `.html` |
| PageBuilder.GetDataAgrees | lib/sassdown.js:343-353 | when the extension occurs only at the end, `getData` as written and the corrected record agree |
| PageBuilder.SectionsOf | lib/sassdown.js:357 | one section per block |
| PageBuilder.SectionsSnoc | lib/sassdown.js:357-376 | the sections of one more block are the sections so far plus that block's section |
| PageBuilder.ProcessExcluded | lib/sassdown.js:314-322 | a file without blocks is excluded when exclusion is on, and its title is left alone |
| PageBuilder.ProcessKept | lib/sassdown.js:323-339 | otherwise the page keeps its sections (none for a file without blocks) and the file's title, or the slug when the title is falsy |
| PageBuilder.ExcludedIffMissing | lib/sassdown.js:314-322 | a file is excluded exactly when exclusion is on and no block matches, and a kept page has no sections exactly when no block matches |
| PageBuilder.PageTitle | lib/sassdown.js:329-336 | a kept page's title is the title the file already had, otherwise the first heading of its sections, otherwise its slug; it has one section per block |
| PageBuilder.KeptPagesSnoc | lib/sassdown.js:339 | one more file adds its page or its excluded path at the end |
| PageBuilder.OutcomeJoins | lib/sassdown.js:305-340 | the pages and excluded paths after one more iteration are those of the files so far plus this file's outcome |
| PageBuilder.KeptAndExcludedCount | lib/sassdown.js:305-340 | every file is either kept or excluded |
| PageBuilder.AllKept | lib/sassdown.js:319 | when every file is kept, nothing is excluded and the pages are the files' pages in order |
| PageBuilder.KeptAndExcludedFrom | lib/sassdown.js:320-339 | every page and every excluded path comes from one of the files' outcomes |
| PageBuilder.ExcludedNotKept | lib/sassdown.js:319-339 | with distinct sources, no page comes from an excluded path |
| PageBuilder.PagesAndExcludedCount | lib/sassdown.js:299-341 | pages and excluded paths together number the files |
| PageBuilder.AllKeptByDefault | lib/sassdown.js:54 | with the default `excludeMissing: false`, nothing is excluded and there is one page per file, in file order |
| PageBuilder.ExcludedNotPages | lib/sassdown.js:299-341 | with distinct source paths, no page's source is among the excluded paths |
| PageBuilder.ExtensionReplacedInDirectory | lib/sassdown.js:344 | a directory named like the extension gets `.html` instead of the file (see Findings) |
| PageBuilder.ExtensionlessPrefixed | lib/sassdown.js:344 | a file without extension gets `.html` put in front of its path (see Findings) |
| PageBuilder.HrefReplacedTwice | lib/sassdown.js:349 | an `.htm` file gets an `href` ending in `.htmll` (see Findings) |
| TreeBuilder.LastPageAtMeaning | lib/sassdown.js:533-541 | a file finds a page exactly when some page has its path as source, and then it is the last such page |
| TreeBuilder.WalkWellFormed | lib/sassdown.js:479-547 | a listed node has no empty directory, and every page in it is one of the pages and does not come from an excluded path |
| TreeBuilder.WalkChildrenWellFormed | lib/sassdown.js:503-520 | the same for the nodes of a directory's children |
| TreeBuilder.FileListedIffPage | lib/sassdown.js:533-545 | a file is listed exactly when a page has its path as source, and as that page |
| TreeBuilder.DirectoryListedIffChild | lib/sassdown.js:495-527 | a directory is listed exactly when one of its children is, under its base name |
| TreeBuilder.WalkChildrenConcat | lib/sassdown.js:503-520 | the children's nodes keep the order of the directory listing and split as it does |
| TreeBuilder.SkippedChildren | lib/sassdown.js:506-509 | junk and excluded children contribute nothing |
| TreeBuilder.TreeMeaning | lib/sassdown.js:549-557 | `tree()` gives the root's child nodes when the root directory is listed, `undefined` when it is not, and throws when the root name is junk; the nodes it gives are well formed |
| Generator.SourceFile.constructor | lib/sassdown.js:82-86 | a file record starts with only its source path (and the text the file system holds for it) |
| Generator.Sassdown.constructor | lib/sassdown.js:63-89 | the generator starts with its options, configuration and files, no tree, and `pages()` not yet run; `pages` and `excluded` are empty until it runs |
| Generator.Sassdown.ReadFile | lib/sassdown.js:307-308 | `data` becomes the file text and `body` the matched blocks |
| Generator.Sassdown.SectionOf | lib/sassdown.js:357-376 | one block's section, and one step of the title rule on the file |
| Generator.SectionsStep | lib/sassdown.js:369-372 | one more section makes the title rule take one more step, on that section's comment |
| Generator.Sassdown.AddSection | lib/sassdown.js:357-376 | one pass of the `map`: the section of the next block joins those before, and the file's title takes one more step of the rule |
| Generator.Sassdown.GetSections | lib/sassdown.js:355-377 | the sections are one per block in order, and the file's title is the title rule run over their comments |
| Generator.Sassdown.KeptPage | lib/sassdown.js:311-339 | the page built for a kept file is its outcome, and the file's title is the one the rule gives |
| Generator.Sassdown.AddFile | lib/sassdown.js:305-340 | one iteration appends exactly the file's page or its excluded path, and leaves the file's data, body and title as the specification says |
| Generator.Sassdown.PagesStep | lib/sassdown.js:305-340 | the same step inside the loop, keeping the earlier files' states and the later files' titles |
| Generator.Sassdown.BuildPages | lib/sassdown.js:299-341 | `pages()` leaves exactly the pages and excluded paths of the files, in file order, and every file in the state the specification gives it. It runs at most once, because line 301 replaces the method by the array |
| Generator.Sassdown.CollectPages | lib/sassdown.js:301-340 | fresh arrays, then the `forEach`: the pages and excluded paths of all files in order, and every file in its new state |
| Generator.Sassdown.Recurse | lib/sassdown.js:479-547 | called only once `pages()` has run, whose arrays it reads (lines 509 and 535), the loops of `recurse` compute the specified walk: the listed children in order, and for a file the last page with its path |
| Generator.Sassdown.BuildTree | lib/sassdown.js:549-557 | once `pages()` has run, `tree()` stores the walk of the source directory and returns its root's children |
| Includes.ForwardSlashes | lib/sassdown.js:259-261 | every backslash becomes a slash, nothing else changes, and a path without backslashes is unchanged |
| Includes.IncludedPath | lib/sassdown.js:253-261 | the path in the tag has no backslash, and an external asset without backslashes keeps its path |
| Includes.IncludeKind | lib/sassdown.js:263-273 | a stylesheet link comes out exactly for a path named `css` or ending in `.css`, a script exactly for `js` or `.js`, and nothing otherwise |
| Includes.LastPieceIs | lib/sassdown.js:264 | the last piece of a split on `.` is a dot-free name exactly when the path is that name or ends with a dot and that name |
| Includes.LocalResolves | lib/sassdown.js:253-256 | a local asset's path, followed from the page's directory, leads to the asset |
| Includes.RelativeFree | lib/sassdown.js:255 | `path.relative` brings in no backslash the target does not have |

## Behaviour of the code worth knowing

- The comment at lib/sassdown.js:395 describes the styles test as a check for more than white
  space. `unspace` (lines 28-30) removes only spaces, line feeds and CR-LF pairs, so a style
  source made of tabs counts as present (`Formatter.UnspaceEmptyIffBlank`).
- A block whose example is indented rather than fenced gets a fence inferred by `_normalize`
  (lines 152-156). Its section then has a result and markup like an explicitly fenced one
  (`Formatter.InferredSection`), provided the unindented text before the first indent does not
  end in a backtick. For `x` followed by a backtick, four spaces and `y`, that backtick and the
  inferred fence read as a fence one character earlier.
- `_sourcify` (lines 134-136) finds the style source by searching the file for the block's raw
  text, delimiters included.

## Findings

| source | as written | input that shows it | evidently intended | confidence | as-written member | corrected member |
|---|---|---|---|---|---|---|
| lib/sassdown.js:135 | `_sourcify` takes the text after the FIRST occurrence of the block's text in the file | a file `/*a*/X/*a*/Y`: the second block gets `X` | each block gets the text that follows it (`Y` for the second) | not executed | Sectionizer.SourcifyDuplicateBlock | Sectionizer.StylesTile |
| lib/sassdown.js:344 | the extension is replaced at its first occurrence in the moved path | `s/x.css/y.css` with source directory `s` and output root `d` gives `d/x.html/y.css` | `d/x.css/y.html` | not executed | PageBuilder.ExtensionReplacedInDirectory | PageBuilder.GetDataMeaning |
| lib/sassdown.js:344 | a file without extension has the empty string replaced, which puts `.html` in front | `s/README` gives `.htmld/README` | `d/README.html` | not executed | PageBuilder.ExtensionlessPrefixed | PageBuilder.GetDataMeaning |
| lib/sassdown.js:349 | `href` replaces the extension a second time, on `dest` that already ends in `.html` | `s/a.htm` gives `href` `a.htmll` | `a.html` | not executed | PageBuilder.HrefReplacedTwice | PageBuilder.GetDataMeaning |

The rest of the model uses the corrected definitions: `PageBuilder.SectionAt` takes its style
source from `Sectionizer.StyleAfter`, and `PageBuilder.GetData` uses `PageBuilder.Dest`, which
replaces the extension at the end of the path. `PageBuilder.GetDataAgrees` and
`Sectionizer.SourcifyAtFirstOccurrence` state when the as-written and corrected versions agree.

## Left out

- Delimiters are literal strings, not regular expressions. `matching` builds its expression
  from the delimiters' regex sources, and the model matches them literally, which is what the
  default `/\/\*/` and `/\*\//` do.
- `path.normalize` is taken as the identity, so paths are `/`-separated and already normal.
  In particular the source directory is taken without a trailing `/`: `TreeBuilder.ChildPath`
  joins with one `/`, and for a source directory `assets/` it would give `assets//x.scss`,
  where the source normalises the joined path (lines 509, 514 and 537) and so still finds the
  excluded files and the pages.
  `path.relative` is modelled on the non-empty `/`-separated segments of both paths, so a
  leading `/` is not distinguished and the paths are taken to be both absolute or both
  relative.
- Generator.Sassdown.constructor: the defaults of lib/sassdown.js:66-79 are not applied. These
  are `_.defaults(options, defaults)`, the source and output directories falling back to
  `assets` and `styleguide` under `process.cwd()`, and `glob.sync` when `files` is not an array.
  The caller passes the final options, directories and file list.
- Paths.Basename: Node drops a trailing `/` before taking the base name (`a/b/` gives `b`); the
  model gives the empty text for such a path.
- Generator.Sassdown.BuildPages: the order of calls is a precondition, kept in the ghost field
  `built`. In the source a second `pages()` call throws, because line 301 has replaced the
  method by an array. `tree()` before `pages()` throws at line 509 or 535 once the walk reaches
  a non-junk child or a file. The model demands `pages()` first even for a walk that would not
  reach those lines, and does not model the exceptions.
- Paths.RelativePath: stated only for targets without `..` segments, because `Resolve` gives
  `..` its meaning only one step at a time.
- PageBuilder.GetDataMeaning: stated only for destinations without `..` segments, for the same
  reason.
- Includes.LocalResolves: stated only for assets without backslashes or `..` segments.
- `replace` replacement strings are literal. The fixed replacement texts of the core hold no
  `$`, but line 344 uses the output root as a replacement text, so the model agrees with
  JavaScript there only for output roots without a `$`.
- File reading is the `text` field of a file record. The exception `fs.readFileSync` throws for
  an unreadable file is not modelled.
- `glob`, `getFileList`, `fs.lstatSync` and `fs.readdirSync` are replaced by a file list and an
  `Entry` tree given as values. Logging (`log`, `logv`) has no effect on the state and is
  omitted.
- Generator.Sassdown.Recurse: the source sets `isFile` on the page object it finds, so the
  page in `pages` and the tree node are the same object. The model copies the page into the
  node and does not model that aliasing.
- `markdown`, `hljs.highlight` and `junk.isnt` are function parameters. Their internals are not
  part of this model.
- Theme, template, Handlebars helpers (`registerHandlebarsHelpers`), scripts, `cssmin`,
  `readme`, `writeOut`, `output`, `scaffold`, `assets` and `_checkfor` produce files or
  configuration outside the core and are not modelled. `writeOut` concatenates whatever
  `include` returns, so an `undefined` result becomes the text `undefined` there; the model
  stops at `include`'s `None`.
- The grunt task in `tasks/sassdown.js` is not part of this model.
