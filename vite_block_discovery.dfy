// Block discovery for the Vite build (vite-block-discovery.mjs): the block
// roots of the theme and its modules, and the directories under a root
// that hold block metadata.
//
// The file system is a tree of entries in readdirSync order; a path is the
// list of names under the theme root, so resolve(dir, name) is dir + [name].

module ViteBlockDiscovery {
  import opened Strings
  import opened Order

  datatype Entry =
    | File(name: string)
    | Directory(name: string, entries: seq<Entry>)
    | Other(name: string)

  type Path = seq<string>

  /** The entry at a path below dir, as existsSync finds it. */
  function Lookup(dir: Entry, p: Path): (r: Option<Entry>)
    ensures p == [] ==> r == Some(dir)
    decreases p
  {
    if p == [] then Some(dir)
    else if !dir.Directory? then None
    else
      match FirstNamed(dir.entries, p[0])
      case Some(e) => Lookup(e, p[1..])
      case None => None
  }

  function FirstNamed(es: seq<Entry>, name: string): (r: Option<Entry>)
    ensures r.Some? ==> r.value in es && r.value.name == name
    ensures r.None? ==> forall i :: 0 <= i < |es| ==> es[i].name != name
  {
    if es == [] then None
    else if es[0].name == name then Some(es[0])
    else FirstNamed(es[1..], name)
  }

  predicate IsHidden(name: string) { StartsWith(name, ".") }

  const IgnoredDirectories: set<string> := {"node_modules", "dist", "build", "vendor"}

  /** The walk goes into a directory that is neither hidden nor ignored. */
  predicate Descends(e: Entry) { e.Directory? && !IsHidden(e.name) && e.name !in IgnoredDirectories }

  predicate IsMetadataFile(e: Entry) { e.File? && (e.name == "block.json" || EndsWith(e.name, ".block.json")) }

  predicate HasMetadata(es: seq<Entry>) { exists i :: 0 <= i < |es| && IsMetadataFile(es[i]) }

  // ---------------------------------------------------------------------
  // The walk

  /** The directories walk(path) pushes, in order, for the directory dir at path. */
  function Walk(path: Path, dir: Entry): seq<Path>
    requires dir.Directory?
    decreases dir, 1, 0
  {
    (if HasMetadata(dir.entries) then [path] else []) + ChildWalks(path, dir, |dir.entries|)
  }

  /** What the walks into the first n entries of dir push. */
  function ChildWalks(path: Path, dir: Entry, n: nat): seq<Path>
    requires dir.Directory? && n <= |dir.entries|
    decreases dir, 0, n
  {
    if n == 0 then []
    else
      var e := dir.entries[n - 1];
      ChildWalks(path, dir, n - 1) + (if Descends(e) then Walk(path + [e.name], e) else [])
  }

  /** rel leads from dir, through directories the walk enters, to one holding block metadata. */
  predicate Listed(dir: Entry, rel: Path)
    requires dir.Directory?
    decreases |rel|
  {
    if rel == [] then HasMetadata(dir.entries)
    else exists i :: 0 <= i < |dir.entries| && Descends(dir.entries[i]) && dir.entries[i].name == rel[0] && Listed(dir.entries[i], rel[1..])
  }

  /** The entries ChildWalks pushes come from the walks into the first n entries. */
  lemma {:induction false} ChildWalksMembers(path: Path, dir: Entry, n: nat, p: Path)
    requires dir.Directory? && n <= |dir.entries|
    ensures p in ChildWalks(path, dir, n) <==>
      exists i :: 0 <= i < n && Descends(dir.entries[i]) && p in Walk(path + [dir.entries[i].name], dir.entries[i])
  {
    if n > 0 {
      ChildWalksMembers(path, dir, n - 1, p);
    }
  }

  /**
   * A path is pushed exactly when it lies below the starting path and leads,
   * through directories that are neither hidden nor ignored, to a directory
   * directly holding 'block.json' or a '*.block.json' file.
   */
  lemma {:induction false} WalkListed(path: Path, dir: Entry, p: Path)
    requires dir.Directory?
    ensures p in Walk(path, dir) <==> |path| <= |p| && p[..|path|] == path && Listed(dir, p[|path|..])
    decreases dir
  {
    var es := dir.entries;
    ChildWalksMembers(path, dir, |es|, p);
    forall i | 0 <= i < |es| && Descends(es[i])
      ensures p in Walk(path + [es[i].name], es[i]) <==>
        |path| < |p| && p[..|path|] == path && p[|path|] == es[i].name && Listed(es[i], p[|path| + 1..])
    {
      WalkListed(path + [es[i].name], es[i], p);
      if |path| < |p| && p[..|path|] == path && p[|path|] == es[i].name {
        assert p[..|path| + 1] == path + [es[i].name];
      }
      if |path| + 1 <= |p| && p[..|path| + 1] == path + [es[i].name] {
        assert p[..|path|] == path;
      }
    }
    if |path| <= |p| && p[..|path|] == path {
      var rel := p[|path|..];
      if rel != [] {
        assert rel[1..] == p[|path| + 1..];
        assert rel[0] == p[|path|];
      } else {
        assert p == path;
      }
    }
  }

  /** Every path pushed lies below the starting path. */
  lemma WalkBelow(path: Path, dir: Entry, p: Path)
    requires dir.Directory? && p in Walk(path, dir)
    ensures |path| <= |p| && p[..|path|] == path
  {
    WalkListed(path, dir, p);
  }

  predicate IsProperPrefix(a: Path, b: Path) { |a| < |b| && b[..|a|] == a }

  /** Every directory comes before the directories below it. */
  predicate Preorder(ws: seq<Path>)
  {
    forall i, j :: 0 <= i < |ws| && 0 <= j < |ws| && IsProperPrefix(ws[i], ws[j]) ==> i < j
  }

  /** Names within one directory listing are distinct, as on a real file system. */
  predicate UniqueNames(dir: Entry)
    requires dir.Directory?
    decreases dir
  {
    && (forall i, j :: 0 <= i < j < |dir.entries| ==> dir.entries[i].name != dir.entries[j].name)
    && (forall i :: 0 <= i < |dir.entries| && dir.entries[i].Directory? ==> UniqueNames(dir.entries[i]))
  }

  lemma PreorderAppend(a: seq<Path>, b: seq<Path>)
    requires Preorder(a) && Preorder(b)
    requires forall x, y :: x in a && y in b ==> !IsProperPrefix(y, x)
    ensures Preorder(a + b)
  {
    var ws := a + b;
    forall i, j | 0 <= i < |ws| && 0 <= j < |ws| && IsProperPrefix(ws[i], ws[j]) ensures i < j {
      if i >= |a| && j >= |a| {
        assert ws[i] == b[i - |a|] && ws[j] == b[j - |a|];
      } else if j < |a| {
        assert ws[i] == a[i] && ws[j] == a[j];
      }
    }
  }

  /** The walk lists a directory before any directory below it. */
  lemma {:induction false} WalkPreorder(path: Path, dir: Entry)
    requires dir.Directory? && UniqueNames(dir)
    ensures Preorder(Walk(path, dir))
    decreases dir, 1, 0
  {
    var head := if HasMetadata(dir.entries) then [path] else [];
    var rest := ChildWalks(path, dir, |dir.entries|);
    ChildWalksPreorder(path, dir, |dir.entries|);
    forall x, y | x in head && y in rest ensures !IsProperPrefix(y, x) {
      ChildWalksBelow(path, dir, |dir.entries|, y);
    }
    PreorderAppend(head, rest);
  }

  /** What the walk into child i pushes lies below path + [its name]. */
  lemma ChildWalksBelow(path: Path, dir: Entry, n: nat, y: Path)
    requires dir.Directory? && n <= |dir.entries| && y in ChildWalks(path, dir, n)
    ensures exists i :: 0 <= i < n && |path| < |y| && y[..|path| + 1] == path + [dir.entries[i].name]
  {
    ChildWalksMembers(path, dir, n, y);
    var i :| 0 <= i < n && Descends(dir.entries[i]) && y in Walk(path + [dir.entries[i].name], dir.entries[i]);
    WalkBelow(path + [dir.entries[i].name], dir.entries[i], y);
  }

  /** Paths below two differently named children of path are never prefixes of each other. */
  lemma SiblingsUnrelated(path: Path, x: Path, y: Path, a: string, b: string)
    requires |path| < |x| && x[..|path| + 1] == path + [a]
    requires |path| < |y| && y[..|path| + 1] == path + [b]
    requires a != b
    ensures !IsProperPrefix(y, x)
  {
    assert x[|path|] == (path + [a])[|path|] == a;
    assert y[|path|] == (path + [b])[|path|] == b;
    if |y| < |x| {
      assert x[..|y|][|path|] == x[|path|];
    }
  }

  lemma {:induction false} ChildWalksPreorder(path: Path, dir: Entry, n: nat)
    requires dir.Directory? && UniqueNames(dir) && n <= |dir.entries|
    ensures Preorder(ChildWalks(path, dir, n))
    decreases dir, 0, n
  {
    if n > 0 {
      var e := dir.entries[n - 1];
      ChildWalksPreorder(path, dir, n - 1);
      var last := if Descends(e) then Walk(path + [e.name], e) else [];
      if Descends(e) {
        WalkPreorder(path + [e.name], e);
        forall x, y | x in ChildWalks(path, dir, n - 1) && y in last ensures !IsProperPrefix(y, x) {
          LaterChildUnrelated(path, dir, n, x, y);
        }
      }
      PreorderAppend(ChildWalks(path, dir, n - 1), last);
    }
  }

  /** Nothing the walk into child n - 1 pushes is a prefix of what the walks into earlier children pushed. */
  lemma LaterChildUnrelated(path: Path, dir: Entry, n: nat, x: Path, y: Path)
    requires dir.Directory? && UniqueNames(dir) && 0 < n <= |dir.entries|
    requires x in ChildWalks(path, dir, n - 1)
    requires Descends(dir.entries[n - 1]) && y in Walk(path + [dir.entries[n - 1].name], dir.entries[n - 1])
    ensures !IsProperPrefix(y, x)
  {
    var e := dir.entries[n - 1];
    ChildWalksBelow(path, dir, n - 1, x);
    var i :| 0 <= i < n - 1 && |path| < |x| && x[..|path| + 1] == path + [dir.entries[i].name];
    WalkBelow(path + [e.name], e, y);
    SiblingsUnrelated(path, x, y, dir.entries[i].name, e.name);
  }

  /** The pushes after entry i of dir extend those after the entries before it. */
  lemma ChildWalksStep(start: seq<Path>, path: Path, dir: Entry, i: nat, before: seq<Path>, after: seq<Path>)
    requires dir.Directory? && i < |dir.entries|
    requires before == start + ChildWalks(path, dir, i)
    requires Descends(dir.entries[i]) ==> after == before + Walk(path + [dir.entries[i].name], dir.entries[i])
    requires !Descends(dir.entries[i]) ==> after == before
    ensures after == start + ChildWalks(path, dir, i + 1)
  {
    var e := dir.entries[i];
    var last := if Descends(e) then Walk(path + [e.name], e) else [];
    assert ChildWalks(path, dir, i + 1) == ChildWalks(path, dir, i) + last;
    AppendAssoc(start, ChildWalks(path, dir, i), last);
    if !Descends(e) {
      AppendEmpty(before, last);
    }
  }

  /** A walk pushes the directory itself, when it holds metadata, then the walks of its entries. */
  lemma WalkSplit(before: seq<Path>, path: Path, dir: Entry)
    requires dir.Directory?
    ensures before + Walk(path, dir) == before + (if HasMetadata(dir.entries) then [path] else []) + ChildWalks(path, dir, |dir.entries|)
  {
  }

  /** walk's pushes into the outer directories array. */
  class BlockDirectoryFinder {
    var directories: seq<Path>

    constructor ()
      ensures directories == []
    {
      directories := [];
    }

    method WalkFrom(path: Path, dir: Entry)
      requires dir.Directory?
      modifies this
      ensures directories == old(directories) + Walk(path, dir)
      decreases dir
    {
      if HasMetadata(dir.entries) {
        directories := directories + [path];
      }
      ghost var start := old(directories) + (if HasMetadata(dir.entries) then [path] else []);
      var i := 0;
      while i < |dir.entries|
        invariant 0 <= i <= |dir.entries|
        invariant directories == start + ChildWalks(path, dir, i)
      {
        var e := dir.entries[i];
        ghost var before := directories;
        if Descends(e) {
          WalkFrom(path + [e.name], e);
        }
        ChildWalksStep(start, path, dir, i, before, directories);
        i := i + 1;
      }
      WalkSplit(old(directories), path, dir);
    }
  }

  /** p exists but is not a directory: readdirSync on it throws (ENOTDIR), which aborts the build. */
  predicate NotADirectory(tree: Entry, p: Path)
  {
    Lookup(tree, p).Some? && !Lookup(tree, p).value.Directory?
  }

  /** The directories lonestarFindBlockDirectories lists under root: none when the root is missing. */
  function BlockDirectories(tree: Entry, root: Path): (r: seq<Path>)
    ensures Lookup(tree, root).None? ==> r == []
  {
    match Lookup(tree, root)
    case Some(d) => if d.Directory? then Walk(root, d) else []
    case None => []
  }

  /**
   * lonestarFindBlockDirectories: None when the root exists but is not a
   * directory (readdirSync throws); otherwise the directories listed.
   */
  method FindBlockDirectories(tree: Entry, root: Path) returns (dirs: Option<seq<Path>>)
    ensures dirs.None? <==> NotADirectory(tree, root)
    ensures dirs.Some? ==> dirs.value == BlockDirectories(tree, root)
  {
    var d := Lookup(tree, root);
    if d.None? {
      return Some([]);
    }
    if !d.value.Directory? {
      return None;
    }
    var finder := new BlockDirectoryFinder();
    finder.WalkFrom(root, d.value);
    dirs := Some(finder.directories);
  }

  // ---------------------------------------------------------------------
  // Roots

  const BaseRoots: seq<Path> := [["blocks", "acf"], ["blocks", "native"]]

  function ModuleBlockRoot(name: string, kind: string): Path { ["modules", name, "blocks", kind] }

  /** A module entry whose block roots are looked at. */
  predicate IsModuleDirectory(e: Entry) { e.Directory? && !IsHidden(e.name) }

  /** The module block roots pushed for the first n entries of the modules directory. */
  function ModuleRoots(tree: Entry, es: seq<Entry>, n: nat): seq<Path>
    requires n <= |es|
  {
    if n == 0 then [] else ModuleRoots(tree, es, n - 1) + EntryRoots(tree, es[n - 1])
  }

  /** The block roots pushed for one entry of the modules directory: its existing blocks/acf, then blocks/native. */
  function EntryRoots(tree: Entry, e: Entry): seq<Path>
  {
    if IsModuleDirectory(e) then
      (if Lookup(tree, ModuleBlockRoot(e.name, "acf")).Some? then [ModuleBlockRoot(e.name, "acf")] else []) +
      (if Lookup(tree, ModuleBlockRoot(e.name, "native")).Some? then [ModuleBlockRoot(e.name, "native")] else [])
    else []
  }

  /** p is the blocks/acf or blocks/native directory of module directory e, and it exists. */
  predicate IsModuleRoot(tree: Entry, e: Entry, p: Path)
  {
    IsModuleDirectory(e) && Lookup(tree, p).Some? && (p == ModuleBlockRoot(e.name, "acf") || p == ModuleBlockRoot(e.name, "native"))
  }

  lemma EntryRootsMembers(tree: Entry, e: Entry, p: Path)
    ensures p in EntryRoots(tree, e) <==> IsModuleRoot(tree, e, p)
  {
  }

  /** lonestarGetBlockRoots's result. */
  function BlockRoots(tree: Entry): seq<Path>
  {
    match Lookup(tree, ["modules"])
    case Some(m) => if m.Directory? then Dedup(BaseRoots + ModuleRoots(tree, m.entries, |m.entries|)) else BaseRoots
    case None => BaseRoots
  }

  /**
   * lonestarGetBlockRoots: None when 'modules' exists but is not a
   * directory (readdirSync throws); otherwise the roots.
   */
  method GetBlockRoots(tree: Entry) returns (result: Option<seq<Path>>)
    ensures result.None? <==> NotADirectory(tree, ["modules"])
    ensures result.Some? ==> result.value == BlockRoots(tree)
  {
    var roots := BaseRoots;
    var modules := Lookup(tree, ["modules"]);
    if modules.None? {
      return Some(roots);
    }
    if !modules.value.Directory? {
      return None;
    }
    var es := modules.value.entries;
    var i := 0;
    while i < |es|
      invariant 0 <= i <= |es|
      invariant roots == BaseRoots + ModuleRoots(tree, es, i)
    {
      var pushed := PushModuleRoots(tree, es[i]);
      AppendAssoc(BaseRoots, ModuleRoots(tree, es, i), pushed);
      roots := roots + pushed;
      i := i + 1;
    }
    result := Some(Dedup(roots));
  }

  /** The body of lonestarGetBlockRoots's loop over the modules directory. */
  method PushModuleRoots(tree: Entry, e: Entry) returns (pushed: seq<Path>)
    ensures pushed == EntryRoots(tree, e)
  {
    pushed := [];
    if IsModuleDirectory(e) {
      var acf := ModuleBlockRoot(e.name, "acf");
      if Lookup(tree, acf).Some? {
        pushed := pushed + [acf];
      }
      var native := ModuleBlockRoot(e.name, "native");
      if Lookup(tree, native).Some? {
        pushed := pushed + [native];
      }
    }
  }

  lemma {:induction false} ModuleRootsMembers(tree: Entry, es: seq<Entry>, n: nat, p: Path)
    requires n <= |es|
    ensures p in ModuleRoots(tree, es, n) <==> exists i :: 0 <= i < n && IsModuleRoot(tree, es[i], p)
  {
    if n > 0 {
      ModuleRootsMembers(tree, es, n - 1, p);
      EntryRootsMembers(tree, es[n - 1], p);
      ExistsUpTo(es, n, e => IsModuleRoot(tree, e, p));
    }
  }

  /**
   * The roots start with blocks/acf and blocks/native whether or not they
   * exist, hold no duplicates, and the others are exactly the existing
   * blocks/acf and blocks/native of the non-hidden module directories.
   */
  lemma BlockRootsRule(tree: Entry, p: Path)
    ensures var roots := BlockRoots(tree);
      && |roots| >= 2 && roots[..2] == BaseRoots
      && Distinct(roots)
      && (p in roots <==>
            || p in BaseRoots
            || (&& Lookup(tree, ["modules"]).Some? && Lookup(tree, ["modules"]).value.Directory?
                && var es := Lookup(tree, ["modules"]).value.entries;
                   exists i :: 0 <= i < |es| && IsModuleRoot(tree, es[i], p)))
  {
    assert Distinct(BaseRoots) by {
      assert BaseRoots[0][1] != BaseRoots[1][1];
    }
    var m := Lookup(tree, ["modules"]);
    if m.Some? && m.value.Directory? {
      var s := BaseRoots + ModuleRoots(tree, m.value.entries, |m.value.entries|);
      assert s[..2] == BaseRoots;
      DedupPrefix(s, 2);
      DedupOfDistinct(BaseRoots);
      ModuleRootsMembers(tree, m.value.entries, |m.value.entries|, p);
      assert p in Dedup(s) <==> p in Elems(s);
    }
  }
}
