// Entry points for the Vite build (vite-entry-points.mjs): 'main' plus one
// CSS and one JS entry per block directory whose metadata does not leave
// its assets to 'file:' references, keyed by the block's path.

module ViteEntryPoints {
  import opened Strings
  import opened Order
  import opened JsonValues
  import opened ViteBlockDiscovery

  // ---------------------------------------------------------------------
  // Entry keys

  /** Drops a final '.ext' whose extension is non-empty and holds no '/' or '.'. */
  function StripExtension(s: string): (r: string)
    ensures |r| <= |s| && r == s[..|r|]
    ensures |r| < |s| ==> s[|r|] == '.' && '.' !in s[|r| + 1..] && '/' !in s[|r| + 1..] && |r| + 1 < |s|
  {
    match LastIndexOfChar(s, '.')
    case Some(i) => if i + 1 < |s| && '/' !in s[i + 1..] then s[..i] else s
    case None => s
  }

  /** The last extension is what is stripped. */
  lemma StripOfExtension(base: string, ext: string)
    requires ext != [] && '.' !in ext && '/' !in ext
    ensures StripExtension(base + "." + ext) == base
  {
    var s := base + "." + ext;
    assert s[|base|] == '.';
    assert s[|base| + 1..] == ext;
    assert s[..|base|] == base;
  }

  /** A path without '.' keeps all of it. */
  lemma StripWithoutDot(s: string)
    requires '.' !in s
    ensures StripExtension(s) == s
  {
  }

  predicate IsPathKeyChar(c: char) { IsAlnum(c) || c == '/' || c == '_' || c == '-' }

  /** Every run of '/' becomes one '-'. */
  function SlashRunsToDash(s: string, afterSlash: bool): (r: string)
    ensures forall i :: 0 <= i < |r| ==> r[i] != '/' && (r[i] == '-' || r[i] in s)
  {
    if s == [] then []
    else if s[0] == '/' then
      if afterSlash then SlashRunsToDash(s[1..], true) else "-" + SlashRunsToDash(s[1..], true)
    else [s[0]] + SlashRunsToDash(s[1..], false)
  }

  predicate NoDoubleDash(s: string) { forall i :: 0 <= i < |s| - 1 ==> !(s[i] == '-' && s[i + 1] == '-') }

  /** Every run of '-' becomes one '-'; after a '-' (afterDash) a leading '-' is dropped. */
  function CollapseDashes(s: string, afterDash: bool): (r: string)
    ensures NoDoubleDash(r)
    ensures afterDash && r != [] ==> r[0] != '-'
    ensures forall i :: 0 <= i < |r| ==> r[i] in s
  {
    if s == [] then []
    else if s[0] == '-' && afterDash then CollapseDashes(s[1..], true)
    else
      var rest := CollapseDashes(s[1..], s[0] == '-');
      assert forall i :: 1 <= i < |rest| + 1 ==> ([s[0]] + rest)[i] == rest[i - 1];
      [s[0]] + rest
  }

  /** Removes one leading and one trailing '-'. */
  function TrimDashes(s: string): (r: string)
    requires NoDoubleDash(s)
    ensures NoDoubleDash(r)
    ensures r != [] ==> r[0] != '-' && r[|r| - 1] != '-'
    ensures forall i :: 0 <= i < |r| ==> r[i] in s
  {
    var a := if s != [] && s[0] == '-' then s[1..] else s;
    assert a != [] ==> a[0] != '-' by {
      if s != [] && s[0] == '-' && |s| > 1 { assert !(s[0] == '-' && s[1] == '-'); }
    }
    var r := if a != [] && a[|a| - 1] == '-' then a[..|a| - 1] else a;
    assert NoDoubleDash(a);
    r
  }

  /** lonestarBuildEntryKeyFromPath, for the path relative to the theme root. */
  function EntryKey(rel: string): string
  {
    var t := StripExtension(BackslashesToSlashes(rel));
    var u := Filter(t, IsPathKeyChar);
    var v := CollapseDashes(SlashRunsToDash(u, false), false);
    Lower(TrimDashes(v))
  }

  /** An entry key holds only [a-z0-9_-], never starts or ends with '-' and never holds '--'. */
  lemma EntryKeyShape(rel: string)
    ensures var k := EntryKey(rel);
      IsKey(k) && (k != [] ==> k[0] != '-' && k[|k| - 1] != '-') && NoDoubleDash(k)
  {
    var u := Filter(StripExtension(BackslashesToSlashes(rel)), IsPathKeyChar);
    FilteredKeyChars(StripExtension(BackslashesToSlashes(rel)), u);
    var x := TrimDashes(CollapseDashes(SlashRunsToDash(u, false), false));
    DashedKeyChars(u);
    LowerKeyShape(x);
  }

  lemma FilteredKeyChars(t: string, u: string)
    requires u == Filter(t, IsPathKeyChar)
    ensures forall i :: 0 <= i < |u| ==> IsPathKeyChar(u[i])
  {
    assert forall i :: 0 <= i < |u| ==> u[i] in Elems(u);
  }

  lemma DashedKeyChars(u: string)
    requires forall i :: 0 <= i < |u| ==> IsPathKeyChar(u[i])
    ensures var x := TrimDashes(CollapseDashes(SlashRunsToDash(u, false), false));
      && (forall i :: 0 <= i < |x| ==> IsPathKeyChar(x[i]) && x[i] != '/')
      && (x != [] ==> x[0] != '-' && x[|x| - 1] != '-')
      && NoDoubleDash(x)
  {
    var w := SlashRunsToDash(u, false);
    assert forall i :: 0 <= i < |w| ==> IsPathKeyChar(w[i]) && w[i] != '/';
  }

  lemma LowerKeyShape(x: string)
    requires forall i :: 0 <= i < |x| ==> IsPathKeyChar(x[i]) && x[i] != '/'
    requires x != [] ==> x[0] != '-' && x[|x| - 1] != '-'
    requires NoDoubleDash(x)
    ensures var k := Lower(x);
      IsKey(k) && (k != [] ==> k[0] != '-' && k[|k| - 1] != '-') && NoDoubleDash(k)
  {
    var k := Lower(x);
    assert forall i :: 0 <= i < |k| ==> IsKeyChar(k[i]) && (k[i] == '-' <==> x[i] == '-');
  }

  /** A plain path: key characters and '/', no '.', no separator at either end or next to another. */
  predicate IsSeparator(c: char) { c == '/' || c == '-' }

  predicate PlainPath(s: string)
  {
    && (forall i :: 0 <= i < |s| ==> IsLower(s[i]) || IsDigit(s[i]) || s[i] == '_' || IsSeparator(s[i]))
    && (s != [] ==> !IsSeparator(s[0]) && !IsSeparator(s[|s| - 1]))
    && (forall i :: 0 <= i < |s| - 1 ==> !(IsSeparator(s[i]) && IsSeparator(s[i + 1])))
  }

  function SlashesToDashes(s: string): (r: string)
    ensures |r| == |s|
  {
    seq(|s|, i requires 0 <= i < |s| => if s[i] == '/' then '-' else s[i])
  }

  lemma {:induction false} SlashRunsOfPlain(s: string, afterSlash: bool)
    requires forall i :: 0 <= i < |s| - 1 ==> !(s[i] == '/' && s[i + 1] == '/')
    requires afterSlash ==> s == [] || s[0] != '/'
    ensures SlashRunsToDash(s, afterSlash) == SlashesToDashes(s)
  {
    if s != [] {
      SlashRunsOfPlain(s[1..], s[0] == '/');
      assert SlashesToDashes(s) == [SlashesToDashes(s)[0]] + SlashesToDashes(s[1..]);
    }
  }

  lemma {:induction false} CollapseOfPlain(s: string, afterDash: bool)
    requires NoDoubleDash(s)
    requires afterDash ==> s == [] || s[0] != '-'
    ensures CollapseDashes(s, afterDash) == s
  {
    if s != [] {
      CollapseOfPlain(s[1..], s[0] == '-');
    }
  }

  /** Path separators become '-' and nothing else changes in a plain path. */
  lemma PlainPathKey(s: string)
    requires PlainPath(s)
    ensures EntryKey(s) == SlashesToDashes(s)
  {
    PlainFront(s);
    PlainBack(s);
  }

  lemma PlainFront(s: string)
    requires PlainPath(s)
    ensures Filter(StripExtension(BackslashesToSlashes(s)), IsPathKeyChar) == s
  {
    assert BackslashesToSlashes(s) == s;
    StripWithoutDot(s);
    FilterAllKept(s, IsPathKeyChar);
  }

  lemma PlainBack(s: string)
    requires PlainPath(s)
    ensures var d := SlashesToDashes(s);
      NoDoubleDash(d) && Lower(TrimDashes(CollapseDashes(SlashRunsToDash(s, false), false))) == d
  {
    var d := SlashesToDashes(s);
    SlashRunsOfPlain(s, false);
    DashesOfPlain(s);
    CollapseOfPlain(d, false);
    TrimDashesOfTrimmed(d);
    LowerOfNoUpper(d);
  }

  lemma TrimDashesOfTrimmed(d: string)
    requires NoDoubleDash(d) && (d != [] ==> d[0] != '-' && d[|d| - 1] != '-')
    ensures TrimDashes(d) == d
  {
  }

  lemma LowerOfNoUpper(d: string)
    requires forall i :: 0 <= i < |d| ==> !IsUpper(d[i])
    ensures Lower(d) == d
  {
    forall i | 0 <= i < |d| ensures Lower(d)[i] == d[i] {
      assert !IsUpper(d[i]);
    }
  }

  lemma DashesOfPlain(s: string)
    requires PlainPath(s)
    ensures var d := SlashesToDashes(s);
      && NoDoubleDash(d) && (d != [] ==> d[0] != '-' && d[|d| - 1] != '-')
      && forall i :: 0 <= i < |d| ==> !IsUpper(d[i])
  {
    var d := SlashesToDashes(s);
    assert forall i :: 0 <= i < |d| ==> (d[i] == '-' <==> IsSeparator(s[i]));
  }

  /** 'blocks/acf/example-acf' gives 'blocks-acf-example-acf'. */
  lemma EntryKeyExample(rel: string)
    requires rel == "blocks/acf/example-acf"
    ensures EntryKey(rel) == "blocks-acf-example-acf"
  {
    ExamplePlain(rel);
    PlainPathKey(rel);
    ExampleDashes(rel);
  }

  lemma ExamplePlain(rel: string)
    requires rel == "blocks/acf/example-acf"
    ensures PlainPath(rel)
  {
    assert forall i :: 0 <= i < |rel| ==> IsLower(rel[i]) || IsSeparator(rel[i]);
  }

  lemma ExampleDashes(rel: string)
    requires rel == "blocks/acf/example-acf"
    ensures SlashesToDashes(rel) == "blocks-acf-example-acf"
  {
    var d := SlashesToDashes(rel);
    assert forall i :: 0 <= i < |rel| ==> d[i] == "blocks-acf-example-acf"[i];
  }

  // ---------------------------------------------------------------------
  // Metadata with 'file:' assets

  const AssetFields: seq<string> := ["script", "editorScript", "viewScript", "viewScriptModule", "style", "editorStyle", "viewStyle"]

  /** The values a field stands for: the items of an array, else the value itself (null included). */
  function FieldItems(metadata: Json, field: string): seq<Json>
    requires metadata.JObject?
  {
    match Get(metadata.members, field)
    case None => []
    case Some(v) => if v.JList? then v.items else [v]
  }

  predicate IsFileRef(v: Json) { v.JString? && StartsWith(v.s, "file:") }

  predicate FileAssetsIn(metadata: Json)
  {
    metadata.JObject? &&
    exists f, i :: f in AssetFields && 0 <= i < |FieldItems(metadata, f)| && IsFileRef(FieldItems(metadata, f)[i])
  }

  function Slug(dir: Path): string { if dir == [] then "" else dir[|dir| - 1] }

  /** The first candidate that exists, as Array.prototype.find with existsSync. */
  function FirstExisting(tree: Entry, candidates: seq<Path>): (r: Option<Path>)
    ensures r.Some? ==> r.value in candidates && Lookup(tree, r.value).Some?
    ensures r.None? ==> forall i :: 0 <= i < |candidates| ==> Lookup(tree, candidates[i]).None?
    ensures r.Some? ==> exists i :: 0 <= i < |candidates| && candidates[i] == r.value && forall j :: 0 <= j < i ==> Lookup(tree, candidates[j]).None?
  {
    if candidates == [] then None
    else if Lookup(tree, candidates[0]).Some? then Some(candidates[0])
    else
      var r := FirstExisting(tree, candidates[1..]);
      assert r.Some? ==> forall j :: 1 <= j < |candidates| && candidates[j] == r.value ==> candidates[1..][j - 1] == r.value;
      r
  }

  method FindExisting(tree: Entry, candidates: seq<Path>) returns (r: Option<Path>)
    ensures r == FirstExisting(tree, candidates)
  {
    var i := 0;
    while i < |candidates|
      invariant 0 <= i <= |candidates|
      invariant FirstExisting(tree, candidates) == FirstExisting(tree, candidates[i..])
    {
      if Lookup(tree, candidates[i]).Some? {
        return Some(candidates[i]);
      }
      assert candidates[i..][1..] == candidates[i + 1..];
      i := i + 1;
    }
    return None;
  }

  function MetadataCandidates(dir: Path): seq<Path> { [dir + ["block.json"], dir + [Slug(dir) + ".block.json"]] }

  /**
   * lonestarBlockUsesFileAssets's answer: parse gives the parsed contents of
   * a metadata file, or None when it cannot be read or is not JSON.
   */
  predicate UsesFileAssets(tree: Entry, parse: Path -> Option<Json>, dir: Path)
  {
    match FirstExisting(tree, MetadataCandidates(dir))
    case None => false
    case Some(p) => parse(p).Some? && FileAssetsIn(parse(p).value)
  }

  /** lonestarBlockUsesFileAssets */
  method BlockUsesFileAssets(tree: Entry, parse: Path -> Option<Json>, dir: Path) returns (b: bool)
    ensures b == UsesFileAssets(tree, parse, dir)
  {
    var path := FindExisting(tree, MetadataCandidates(dir));
    if path.None? {
      return false;
    }
    var parsed := parse(path.value);
    if parsed.None? || !parsed.value.JObject? {
      return false;
    }
    var metadata := parsed.value;
    var k := 0;
    while k < |AssetFields|
      invariant 0 <= k <= |AssetFields|
      invariant forall f, i :: f in AssetFields[..k] && 0 <= i < |FieldItems(metadata, f)| ==> !IsFileRef(FieldItems(metadata, f)[i])
    {
      var values := FieldItems(metadata, AssetFields[k]);
      var i := 0;
      while i < |values|
        invariant 0 <= i <= |values|
        invariant forall j :: 0 <= j < i ==> !IsFileRef(values[j])
      {
        if values[i].JString? && StartsWith(values[i].s, "file:") {
          return true;
        }
        i := i + 1;
      }
      assert AssetFields[..k + 1] == AssetFields[..k] + [AssetFields[k]];
      k := k + 1;
    }
    assert AssetFields[..k] == AssetFields;
    return false;
  }

  // ---------------------------------------------------------------------
  // Entry points

  const MainEntry: (string, Path) := ("main", ["main.js"])

  function CssKey(dir: Path): string { EntryKey(Join(dir, '/')) + "-css" }
  function JsKey(dir: Path): string { EntryKey(Join(dir, '/')) + "-js" }
  function CssCandidates(dir: Path): seq<Path> { [dir + [Slug(dir) + ".css"], dir + ["style.css"]] }
  function JsCandidates(dir: Path): seq<Path> { [dir + [Slug(dir) + ".js"], dir + ["index.js"]] }

  /** entryPoints[key] = file when a file was found and the key is unused. */
  function AddIfFree(entries: Assoc<Path>, key: string, file: Option<Path>): (r: Assoc<Path>)
    ensures r == entries || (file.Some? && key !in Keys(entries) && r == entries + [(key, file.value)])
    ensures file.Some? && key !in Keys(entries) ==> r != entries
  {
    if file.Some? && key !in Keys(entries) then entries + [(key, file.value)] else entries
  }

  /** The entries after one block directory has been visited. */
  function AddBlock(tree: Entry, parse: Path -> Option<Json>, entries: Assoc<Path>, dir: Path): (r: Assoc<Path>)
    ensures |entries| <= |r| && r[..|entries|] == entries
  {
    if UsesFileAssets(tree, parse, dir) then entries
    else
      var withCss := AddIfFree(entries, CssKey(dir), FirstExisting(tree, CssCandidates(dir)));
      var r := AddIfFree(withCss, JsKey(dir), FirstExisting(tree, JsCandidates(dir)));
      assert r[..|withCss|] == withCss;
      r
  }

  /**
   * A block whose metadata uses 'file:' assets adds nothing.  Otherwise the
   * first existing of slug.css and style.css goes in under base + '-css', and
   * the first existing of slug.js and index.js under base + '-js', each only
   * when its key is not yet used; no other key changes.
   */
  lemma AddBlockRule(tree: Entry, parse: Path -> Option<Json>, entries: Assoc<Path>, dir: Path, k: string)
    ensures var r := AddBlock(tree, parse, entries, dir);
      && (UsesFileAssets(tree, parse, dir) ==> r == entries)
      && ((!UsesFileAssets(tree, parse, dir) && FirstExisting(tree, CssCandidates(dir)).Some? && CssKey(dir) !in Keys(entries))
           ==> Get(r, CssKey(dir)) == FirstExisting(tree, CssCandidates(dir)))
      && ((!UsesFileAssets(tree, parse, dir) && FirstExisting(tree, JsCandidates(dir)).Some? && JsKey(dir) !in Keys(entries))
           ==> Get(r, JsKey(dir)) == FirstExisting(tree, JsCandidates(dir)))
      && (k != CssKey(dir) && k != JsKey(dir) ==> Get(r, k) == Get(entries, k))
  {
    if !UsesFileAssets(tree, parse, dir) {
      var css := FirstExisting(tree, CssCandidates(dir));
      var js := FirstExisting(tree, JsCandidates(dir));
      var withCss := AddIfFree(entries, CssKey(dir), css);
      CssJsDiffer(dir);
      AddIfFreeGet(entries, CssKey(dir), css, CssKey(dir));
      AddIfFreeGet(withCss, JsKey(dir), js, CssKey(dir));
      AddIfFreeGet(withCss, JsKey(dir), js, JsKey(dir));
      AddIfFreeGet(entries, CssKey(dir), css, JsKey(dir));
      AddIfFreeGet(entries, CssKey(dir), css, k);
      AddIfFreeGet(withCss, JsKey(dir), js, k);
    }
  }

  lemma CssJsDiffer(dir: Path)
    ensures CssKey(dir) != JsKey(dir)
  {
    var b := EntryKey(Join(dir, '/'));
    assert CssKey(dir)[|b| + 1] == 'c';
    if |JsKey(dir)| == |CssKey(dir)| {
      assert false;
    }
  }

  lemma AddIfFreeGet(entries: Assoc<Path>, key: string, file: Option<Path>, k: string)
    ensures Get(AddIfFree(entries, key, file), k) ==
      if k == key && file.Some? && key !in Keys(entries) then file else Get(entries, k)
    ensures k in Keys(entries) ==> k in Keys(AddIfFree(entries, key, file))
  {
    if file.Some? && key !in Keys(entries) {
      GetSnoc(entries, (key, file.value), k);
    }
  }

  /** The entries after the block directories dirs have been visited in order. */
  function AddBlocks(tree: Entry, parse: Path -> Option<Json>, entries: Assoc<Path>, dirs: seq<Path>): Assoc<Path>
  {
    if dirs == [] then entries
    else AddBlock(tree, parse, AddBlocks(tree, parse, entries, dirs[..|dirs| - 1]), dirs[|dirs| - 1])
  }

  /** The block directories of the roots, root by root. */
  function DirectoriesOf(tree: Entry, roots: seq<Path>): seq<Path>
  {
    if roots == [] then []
    else DirectoriesOf(tree, roots[..|roots| - 1]) + BlockDirectories(tree, roots[|roots| - 1])
  }

  /** Discovery throws: 'modules' or one of the block roots exists but is not a directory. */
  predicate DiscoveryFails(tree: Entry)
  {
    NotADirectory(tree, ["modules"]) || SomeRootFails(tree, BlockRoots(tree))
  }

  /** lonestarGetBlockEntryPoints's result when discovery does not throw. */
  function EntryPoints(tree: Entry, parse: Path -> Option<Json>): Assoc<Path>
  {
    AddBlocks(tree, parse, [MainEntry], DirectoriesOf(tree, BlockRoots(tree)))
  }

  /** Entries are only ever appended: what is there keeps its place and its file. */
  lemma {:induction false} AddBlocksKeeps(tree: Entry, parse: Path -> Option<Json>, entries: Assoc<Path>, dirs: seq<Path>)
    ensures var r := AddBlocks(tree, parse, entries, dirs);
      |entries| <= |r| && r[..|entries|] == entries
  {
    if dirs != [] {
      var before := AddBlocks(tree, parse, entries, dirs[..|dirs| - 1]);
      AddBlocksKeeps(tree, parse, entries, dirs[..|dirs| - 1]);
      var r := AddBlock(tree, parse, before, dirs[|dirs| - 1]);
      assert r[..|entries|] == r[..|before|][..|entries|];
    }
  }

  /** No key is ever entered twice. */
  lemma {:induction false} AddBlocksDistinct(tree: Entry, parse: Path -> Option<Json>, entries: Assoc<Path>, dirs: seq<Path>)
    requires Distinct(Keys(entries))
    ensures Distinct(Keys(AddBlocks(tree, parse, entries, dirs)))
  {
    if dirs != [] {
      var before := AddBlocks(tree, parse, entries, dirs[..|dirs| - 1]);
      AddBlocksDistinct(tree, parse, entries, dirs[..|dirs| - 1]);
      AddBlockDistinct(tree, parse, before, dirs[|dirs| - 1]);
    }
  }

  lemma AddIfFreeDistinct(entries: Assoc<Path>, key: string, file: Option<Path>)
    requires Distinct(Keys(entries))
    ensures Distinct(Keys(AddIfFree(entries, key, file)))
  {
    if file.Some? && key !in Keys(entries) {
      var r := entries + [(key, file.value)];
      assert Keys(r) == Keys(entries) + [key];
    }
  }

  lemma AddBlockDistinct(tree: Entry, parse: Path -> Option<Json>, entries: Assoc<Path>, dir: Path)
    requires Distinct(Keys(entries))
    ensures Distinct(Keys(AddBlock(tree, parse, entries, dir)))
  {
    if !UsesFileAssets(tree, parse, dir) {
      var withCss := AddIfFree(entries, CssKey(dir), FirstExisting(tree, CssCandidates(dir)));
      AddIfFreeDistinct(entries, CssKey(dir), FirstExisting(tree, CssCandidates(dir)));
      AddIfFreeDistinct(withCss, JsKey(dir), FirstExisting(tree, JsCandidates(dir)));
    }
  }

  /** A key once entered keeps its file: the first block to claim a key wins. */
  lemma FirstClaimWins(tree: Entry, parse: Path -> Option<Json>, entries: Assoc<Path>, dirs: seq<Path>, k: string)
    requires k in Keys(entries)
    ensures Get(AddBlocks(tree, parse, entries, dirs), k) == Get(entries, k)
  {
    var r := AddBlocks(tree, parse, entries, dirs);
    AddBlocksKeeps(tree, parse, entries, dirs);
    GetPrefixOf(r, |entries|, k);
  }

  lemma {:induction false} GetPrefixOf(a: Assoc<Path>, n: nat, k: string)
    requires n <= |a| && k in Keys(a[..n])
    ensures Get(a, k) == Get(a[..n], k)
  {
    assert a == a[..n] + a[n..];
    GetAppend(a[..n], a[n..], k);
  }

  lemma {:induction false} GetAppend(a: Assoc<Path>, b: Assoc<Path>, k: string)
    requires k in Keys(a)
    ensures Get(a + b, k) == Get(a, k)
  {
    if a[0].0 != k {
      assert Keys(a) == [a[0].0] + Keys(a[1..]);
      assert (a + b)[1..] == a[1..] + b;
      GetAppend(a[1..], b, k);
    }
  }

  /** 'main' is always the first entry, points at main.js, and keys are never repeated. */
  lemma EntryPointsRule(tree: Entry, parse: Path -> Option<Json>)
    ensures var r := EntryPoints(tree, parse);
      |r| >= 1 && r[0] == MainEntry && Get(r, "main") == Some(["main.js"]) && Distinct(Keys(r))
  {
    var dirs := DirectoriesOf(tree, BlockRoots(tree));
    AddBlocksKeeps(tree, parse, [MainEntry], dirs);
    AddBlocksDistinct(tree, parse, [MainEntry], dirs);
    assert Keys([MainEntry]) == ["main"];
    FirstClaimWins(tree, parse, [MainEntry], dirs, "main");
  }

  /** The forEach callback for one block directory; used is the set of keys entered so far. */
  method VisitBlock(tree: Entry, parse: Path -> Option<Json>, entries: Assoc<Path>, used: set<string>, dir: Path)
    returns (entries': Assoc<Path>, used': set<string>)
    requires used == Elems(Keys(entries))
    ensures entries' == AddBlock(tree, parse, entries, dir)
    ensures used' == Elems(Keys(entries'))
  {
    entries', used' := entries, used;
    var usesFile := BlockUsesFileAssets(tree, parse, dir);
    AddBlockCases(tree, parse, entries, dir);
    if usesFile {
      return;
    }
    var css := FindExisting(tree, CssCandidates(dir));
    if css.Some? && CssKey(dir) !in used' {
      entries' := entries' + [(CssKey(dir), css.value)];
      used' := used' + {CssKey(dir)};
      KeysElemsSnoc(entries, (CssKey(dir), css.value));
    }
    assert entries' == AddIfFree(entries, CssKey(dir), css);
    ghost var withCss := entries';
    var js := FindExisting(tree, JsCandidates(dir));
    if js.Some? && JsKey(dir) !in used' {
      entries' := entries' + [(JsKey(dir), js.value)];
      used' := used' + {JsKey(dir)};
      KeysElemsSnoc(withCss, (JsKey(dir), js.value));
    }
    assert entries' == AddIfFree(withCss, JsKey(dir), js);
  }

  lemma KeysElemsSnoc(a: Assoc<Path>, kv: (string, Path))
    ensures Elems(Keys(a + [kv])) == Elems(Keys(a)) + {kv.0}
  {
    assert Keys(a + [kv]) == Keys(a) + [kv.0];
  }

  lemma AddBlockCases(tree: Entry, parse: Path -> Option<Json>, entries: Assoc<Path>, dir: Path)
    ensures AddBlock(tree, parse, entries, dir) ==
      if UsesFileAssets(tree, parse, dir) then entries
      else AddIfFree(AddIfFree(entries, CssKey(dir), FirstExisting(tree, CssCandidates(dir))), JsKey(dir), FirstExisting(tree, JsCandidates(dir)))
  {
  }

  lemma {:induction false} AddBlocksAppend(tree: Entry, parse: Path -> Option<Json>, entries: Assoc<Path>, a: seq<Path>, b: seq<Path>)
    ensures AddBlocks(tree, parse, entries, a + b) == AddBlocks(tree, parse, AddBlocks(tree, parse, entries, a), b)
  {
    if b == [] {
      assert a + b == a;
    } else {
      var c := b[..|b| - 1];
      AddBlocksAppend(tree, parse, entries, a, c);
      AppendSnoc(a, b);
      AddBlocksSnoc(tree, parse, entries, a + c, b[|b| - 1]);
    }
  }

  lemma TakeSnoc<T>(s: seq<T>, d: nat)
    requires d < |s|
    ensures s[..d + 1] == s[..d] + [s[d]]
  {
  }

  lemma AddBlocksSnoc(tree: Entry, parse: Path -> Option<Json>, entries: Assoc<Path>, dirs: seq<Path>, dir: Path)
    ensures AddBlocks(tree, parse, entries, dirs + [dir]) == AddBlock(tree, parse, AddBlocks(tree, parse, entries, dirs), dir)
  {
    assert (dirs + [dir])[..|dirs|] == dirs;
  }

  lemma DirectoriesStep(tree: Entry, roots: seq<Path>, r: nat)
    requires r < |roots|
    ensures DirectoriesOf(tree, roots[..r + 1]) == DirectoriesOf(tree, roots[..r]) + BlockDirectories(tree, roots[r])
  {
    assert roots[..r + 1][..r] == roots[..r];
  }

  /** The outer forEach callback for one block root; failed when listing the root throws. */
  method VisitRoot(tree: Entry, parse: Path -> Option<Json>, entries: Assoc<Path>, used: set<string>, root: Path)
    returns (failed: bool, entries': Assoc<Path>, used': set<string>)
    requires used == Elems(Keys(entries))
    ensures failed <==> NotADirectory(tree, root)
    ensures !failed ==> entries' == AddBlocks(tree, parse, entries, BlockDirectories(tree, root))
    ensures used' == Elems(Keys(entries'))
  {
    entries', used' := entries, used;
    var found := FindBlockDirectories(tree, root);
    if found.None? {
      return true, entries', used';
    }
    failed := false;
    var dirs := found.value;
    var d := 0;
    while d < |dirs|
      invariant 0 <= d <= |dirs|
      invariant entries' == AddBlocks(tree, parse, entries, dirs[..d])
      invariant used' == Elems(Keys(entries'))
    {
      entries', used' := VisitBlock(tree, parse, entries', used', dirs[d]);
      TakeSnoc(dirs, d);
      AddBlocksSnoc(tree, parse, entries, dirs[..d], dirs[d]);
      d := d + 1;
    }
    assert dirs[..d] == dirs;
  }

  /** Some root in roots exists but is not a directory. */
  predicate SomeRootFails(tree: Entry, roots: seq<Path>)
  {
    exists i :: 0 <= i < |roots| && NotADirectory(tree, roots[i])
  }

  lemma NoRootFailsStep(tree: Entry, roots: seq<Path>, r: nat)
    requires r < |roots|
    requires !SomeRootFails(tree, roots[..r]) && !NotADirectory(tree, roots[r])
    ensures !SomeRootFails(tree, roots[..r + 1])
  {
    var next := roots[..r + 1];
    forall i | 0 <= i < |next|
      ensures !NotADirectory(tree, next[i])
    {
      if i < r {
        assert next[i] == roots[..r][i];
      }
    }
  }

  lemma RootFailsAt(tree: Entry, roots: seq<Path>, r: nat)
    requires r < |roots| && NotADirectory(tree, roots[r])
    ensures SomeRootFails(tree, roots)
  {
  }

  /** Visiting root r after the roots before it gives the blocks of the roots up to r. */
  lemma RootStep(tree: Entry, parse: Path -> Option<Json>, roots: seq<Path>, r: nat, before: Assoc<Path>, after: Assoc<Path>)
    requires r < |roots|
    requires before == AddBlocks(tree, parse, [MainEntry], DirectoriesOf(tree, roots[..r]))
    requires after == AddBlocks(tree, parse, before, BlockDirectories(tree, roots[r]))
    ensures after == AddBlocks(tree, parse, [MainEntry], DirectoriesOf(tree, roots[..r + 1]))
  {
    DirectoriesStep(tree, roots, r);
    AddBlocksAppend(tree, parse, [MainEntry], DirectoriesOf(tree, roots[..r]), BlockDirectories(tree, roots[r]));
  }

  /** The forEach over the block roots; failed when listing one of them throws. */
  method VisitRoots(tree: Entry, parse: Path -> Option<Json>, roots: seq<Path>)
    returns (failed: bool, entries: Assoc<Path>)
    ensures failed <==> SomeRootFails(tree, roots)
    ensures !failed ==> entries == AddBlocks(tree, parse, [MainEntry], DirectoriesOf(tree, roots))
  {
    entries := [MainEntry];
    var used: set<string> := {"main"};
    assert Keys(entries) == ["main"];
    var r := 0;
    while r < |roots|
      invariant 0 <= r <= |roots|
      invariant entries == AddBlocks(tree, parse, [MainEntry], DirectoriesOf(tree, roots[..r]))
      invariant used == Elems(Keys(entries))
      invariant !SomeRootFails(tree, roots[..r])
    {
      ghost var before := entries;
      failed, entries, used := VisitRoot(tree, parse, entries, used, roots[r]);
      if failed {
        RootFailsAt(tree, roots, r);
        return;
      }
      NoRootFailsStep(tree, roots, r);
      RootStep(tree, parse, roots, r, before, entries);
      r := r + 1;
    }
    assert roots[..r] == roots;
    failed := false;
  }

  /**
   * lonestarGetBlockEntryPoints: None when discovery throws, otherwise the
   * entry points.
   */
  method GetBlockEntryPoints(tree: Entry, parse: Path -> Option<Json>) returns (result: Option<Assoc<Path>>)
    ensures result.None? <==> DiscoveryFails(tree)
    ensures result.Some? ==> result.value == EntryPoints(tree, parse)
  {
    var found := GetBlockRoots(tree);
    if found.None? {
      return None;
    }
    var failed, entries := VisitRoots(tree, parse, found.value);
    if failed {
      return None;
    }
    result := Some(entries);
  }
}
