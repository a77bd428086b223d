/**
  The navigation tree: `recurse(filepath)` (lines 479-547 of lib/sassdown.js) walks the source
  directory and `tree()` (lines 549-557) keeps the children of its root. The file system is a
  value, an `Entry` tree whose root sits at the source directory; `junk` is the predicate of
  the `junk` package. Paths are compared as they are, `path.normalize` being the identity on
  the paths built here.
 */
module TreeBuilder {
  import opened Text
  import opened Paths
  import opened PageBuilder

  /** What `fs.lstatSync` and `fs.readdirSync` report: a directory with its entries in order,
      a regular file, or anything else (a symbolic link, a socket). */
  datatype Entry = Directory(name: String, children: seq<Entry>) | RegularFile(name: String) | OtherEntry(name: String)

  /** A node of the tree: a directory with its listed children, or a page. */
  datatype Node = DirNode(name: String, pages: seq<Node>) | PageNode(page: Page)

  /** What `recurse` returns: `undefined` for a junk name, `false` for anything not listed, or
      a node. */
  datatype Walked = JunkName | NotListed | Listed(node: Node)

  /** The page `recurse` associates with a file: the LAST page whose source is the path, the
      loop over the pages overwriting earlier matches. */
  function LastPageAt(pages: seq<Page>, path: String): Option<Page>
    decreases |pages|
  {
    if pages == [] then None
    else if pages[|pages| - 1].src == path then Some(pages[|pages| - 1])
    else LastPageAt(pages[..|pages| - 1], path)
  }

  /** `LastPageAt` finds a page exactly when one has that source, and then the last one. */
  lemma {:induction false} LastPageAtMeaning(pages: seq<Page>, path: String)
    ensures LastPageAt(pages, path).None? <==> forall k :: 0 <= k < |pages| ==> pages[k].src != path
    ensures LastPageAt(pages, path).Some? ==>
              exists i :: 0 <= i < |pages| && pages[i] == LastPageAt(pages, path).value && pages[i].src == path &&
                          forall k :: i < k < |pages| ==> pages[k].src != path
    decreases |pages|
  {
    if pages != [] {
      var init := pages[..|pages| - 1];
      LastPageAtMeaning(init, path);
      if pages[|pages| - 1].src != path && LastPageAt(init, path).Some? {
        var i :| 0 <= i < |init| && init[i] == LastPageAt(init, path).value && init[i].src == path &&
                 forall k :: i < k < |init| ==> init[k].src != path;
        assert pages[i] == init[i];
      }
      if LastPageAt(pages, path).None? {
        forall k | 0 <= k < |pages| ensures pages[k].src != path {
          if k < |init| {
            assert pages[k] == init[k];
          }
        }
      }
    }
  }

  /** The path of a child: `filepath + '/' + child`. */
  function ChildPath(path: String, name: String): String {
    path + "/" + name
  }

  /** `recurse(path)` on the entry found at `path`. */
  function Walk(e: Entry, path: String, pages: seq<Page>, excluded: seq<String>, junk: String -> bool): Walked
    decreases e, 1
  {
    if junk(Basename(path)) then JunkName
    else
      match e
      case Directory(_, children) =>
        var nodes := WalkChildren(children, path, pages, excluded, junk);
        if nodes == [] then NotListed else Listed(DirNode(Basename(path), nodes))
      case RegularFile(_) =>
        var page := LastPageAt(pages, path);
        if page.None? then NotListed else Listed(PageNode(page.value))
      case OtherEntry(_) => NotListed
  }

  /** The node a child contributes to its directory, if any: none for a junk or excluded name,
      nor for a child `recurse` does not list. */
  function ChildNode(c: Entry, path: String, pages: seq<Page>, excluded: seq<String>, junk: String -> bool): seq<Node>
    decreases c, 2
  {
    var p := ChildPath(path, c.name);
    if junk(c.name) || p in excluded then []
    else
      var w := Walk(c, p, pages, excluded, junk);
      if w.Listed? then [w.node] else []
  }

  /** The nodes of a directory's children, in the order `fs.readdirSync` gives them. */
  function WalkChildren(children: seq<Entry>, path: String, pages: seq<Page>, excluded: seq<String>,
                        junk: String -> bool): seq<Node>
    decreases children
  {
    if children == [] then []
    else WalkChildren(children[..|children| - 1], path, pages, excluded, junk) +
         ChildNode(children[|children| - 1], path, pages, excluded, junk)
  }

  /** Every directory node has at least one child. */
  predicate NoEmptyDirectory(n: Node)
    decreases n
  {
    match n
    case DirNode(_, ps) => |ps| > 0 && forall k :: 0 <= k < |ps| ==> NoEmptyDirectory(ps[k])
    case PageNode(_) => true
  }

  /** Every page node holds one of `pages`, and none comes from an excluded path. */
  predicate FromPages(n: Node, pages: seq<Page>, excluded: seq<String>)
    decreases n
  {
    match n
    case DirNode(_, ps) => forall k :: 0 <= k < |ps| ==> FromPages(ps[k], pages, excluded)
    case PageNode(p) => p in pages && p.src !in excluded
  }

  /** Every node of a sequence has no empty directory and takes its pages from `pages`, none
      from an excluded path. */
  predicate AllWellFormed(nodes: seq<Node>, pages: seq<Page>, excluded: seq<String>) {
    forall k :: 0 <= k < |nodes| ==> NoEmptyDirectory(nodes[k]) && FromPages(nodes[k], pages, excluded)
  }

  /** A directory node over well-formed children is well-formed. */
  lemma DirNodeWellFormed(name: String, nodes: seq<Node>, pages: seq<Page>, excluded: seq<String>)
    requires nodes != [] && AllWellFormed(nodes, pages, excluded)
    ensures NoEmptyDirectory(DirNode(name, nodes)) && FromPages(DirNode(name, nodes), pages, excluded)
  {
    assert forall k :: 0 <= k < |nodes| ==> NoEmptyDirectory(nodes[k]);
    assert forall k :: 0 <= k < |nodes| ==> FromPages(nodes[k], pages, excluded);
  }

  /** Well-formedness of a concatenation is that of its parts. */
  lemma AllWellFormedConcat(a: seq<Node>, b: seq<Node>, pages: seq<Page>, excluded: seq<String>)
    requires AllWellFormed(a, pages, excluded) && AllWellFormed(b, pages, excluded)
    ensures AllWellFormed(a + b, pages, excluded)
  {
    forall k | 0 <= k < |a + b| ensures NoEmptyDirectory((a + b)[k]) && FromPages((a + b)[k], pages, excluded) {
      if k < |a| {
        assert (a + b)[k] == a[k];
      } else {
        assert (a + b)[k] == b[k - |a|];
      }
    }
  }

  /** A listed node has no empty directory, and when the walked path is not excluded, its pages
      are among `pages` and none comes from an excluded path. */
  lemma {:induction false} WalkWellFormed(e: Entry, path: String, pages: seq<Page>, excluded: seq<String>,
                                          junk: String -> bool)
    requires path !in excluded
    ensures var w := Walk(e, path, pages, excluded, junk);
            w.Listed? ==> NoEmptyDirectory(w.node) && FromPages(w.node, pages, excluded)
    decreases e, 1
  {
    if !junk(Basename(path)) {
      match e
      case Directory(_, children) =>
        WalkChildrenWellFormed(children, path, pages, excluded, junk);
        var nodes := WalkChildren(children, path, pages, excluded, junk);
        if nodes != [] {
          DirNodeWellFormed(Basename(path), nodes, pages, excluded);
        }
      case RegularFile(_) =>
        LastPageAtMeaning(pages, path);
        var page := LastPageAt(pages, path);
        if page.Some? {
          var i :| 0 <= i < |pages| && pages[i] == page.value && pages[i].src == path &&
                   forall k :: i < k < |pages| ==> pages[k].src != path;
          assert page.value in pages;
        }
      case OtherEntry(_) =>
    }
  }

  /** The nodes of a directory's children have no empty directory, and their pages are among
      `pages` and none comes from an excluded path. */
  lemma {:induction false} WalkChildrenWellFormed(children: seq<Entry>, path: String, pages: seq<Page>,
                                                  excluded: seq<String>, junk: String -> bool)
    ensures AllWellFormed(WalkChildren(children, path, pages, excluded, junk), pages, excluded)
    decreases children
  {
    if children != [] {
      var init := children[..|children| - 1];
      var c := children[|children| - 1];
      WalkChildrenWellFormed(init, path, pages, excluded, junk);
      if !junk(c.name) && ChildPath(path, c.name) !in excluded {
        WalkWellFormed(c, ChildPath(path, c.name), pages, excluded, junk);
      }
      var last := ChildNode(c, path, pages, excluded, junk);
      assert AllWellFormed(last, pages, excluded);
      AllWellFormedConcat(WalkChildren(init, path, pages, excluded, junk), last, pages, excluded);
    }
  }

  /** A file that is not junk, under a name that is not junk, is listed exactly when some page
      has its path as source, and then it is the last such page. */
  lemma FileListedIffPage(name: String, path: String, pages: seq<Page>, excluded: seq<String>, junk: String -> bool)
    requires !junk(Basename(path))
    ensures var w := Walk(RegularFile(name), path, pages, excluded, junk);
            (w.Listed? <==> exists k :: 0 <= k < |pages| && pages[k].src == path) &&
            (w.Listed? ==> w.node == PageNode(LastPageAt(pages, path).value))
  {
    LastPageAtMeaning(pages, path);
  }

  /** A directory is listed exactly when at least one of its children is, under its own base
      name. */
  lemma DirectoryListedIffChild(name: String, children: seq<Entry>, path: String, pages: seq<Page>,
                                excluded: seq<String>, junk: String -> bool)
    requires !junk(Basename(path))
    ensures var w := Walk(Directory(name, children), path, pages, excluded, junk);
            var nodes := WalkChildren(children, path, pages, excluded, junk);
            (w.Listed? <==> nodes != []) &&
            (w.Listed? ==> w.node == DirNode(Basename(path), nodes))
  {
  }

  /** The children's nodes of a directory split as its entries do. */
  lemma {:induction false} WalkChildrenConcat(a: seq<Entry>, b: seq<Entry>, path: String, pages: seq<Page>,
                                              excluded: seq<String>, junk: String -> bool)
    ensures WalkChildren(a + b, path, pages, excluded, junk) ==
            WalkChildren(a, path, pages, excluded, junk) + WalkChildren(b, path, pages, excluded, junk)
    decreases |b|
  {
    if b == [] {
      assert a + b == a;
    } else {
      var b0 := b[..|b| - 1];
      assert (a + b)[..|a + b| - 1] == a + b0;
      WalkChildrenConcat(a, b0, path, pages, excluded, junk);
    }
  }

  /** Junk and excluded children contribute nothing. */
  lemma SkippedChildren(c: Entry, path: String, pages: seq<Page>, excluded: seq<String>, junk: String -> bool)
    requires junk(c.name) || ChildPath(path, c.name) in excluded
    ensures WalkChildren([c], path, pages, excluded, junk) == []
  {
    assert [c][..0] == [];
  }

  /** What `tree()` returns: the children of the root, `undefined` when the root is not a listed
      directory, or the `TypeError` of reading `pages` off an `undefined` root. */
  datatype TreeResult = RootPages(nodes: seq<Node>) | Undefined | TypeError

  /** `tree()` given what `recurse(srcdir)` returned. */
  function TreeOf(w: Walked): TreeResult {
    match w
    case JunkName => TypeError
    case NotListed => Undefined
    case Listed(DirNode(_, nodes)) => RootPages(nodes)
    case Listed(PageNode(_)) => Undefined
  }

  /** A source directory that is a directory and whose name is not junk gives the nodes of its
      children, none of them an empty directory and every page among `pages` and not excluded;
      a junk name gives a `TypeError`. */
  lemma TreeMeaning(name: String, children: seq<Entry>, srcdir: String, pages: seq<Page>,
                    excluded: seq<String>, junk: String -> bool)
    ensures var t := TreeOf(Walk(Directory(name, children), srcdir, pages, excluded, junk));
            var nodes := WalkChildren(children, srcdir, pages, excluded, junk);
            (junk(Basename(srcdir)) <==> t.TypeError?) &&
            (!junk(Basename(srcdir)) ==> t == if nodes == [] then Undefined else RootPages(nodes)) &&
            (t.RootPages? ==> AllWellFormed(t.nodes, pages, excluded))
  {
    WalkChildrenWellFormed(children, srcdir, pages, excluded, junk);
  }
}
