// Block catalog state (inc/core/blocks-state.php).
//
// Blocks live under blocks/acf/ and blocks/native/ of the parent theme
// (source 'template') and, when there is one, of the child theme (source
// 'stylesheet').  A block is known by a key built from its source, type,
// slug and a hash of its source-relative path; blocks that share an
// identity (their block name, else their path, slug or key) override one
// another, the child theme's copy winning.  A block is enabled unless the
// toggle option holds false for its key.  The theme directories, the
// catalog, the option, md5 and the filter arrive as parameters.

module BlocksState {
  import opened Strings
  import opened Order
  import opened ModulesCatalog
  import opened Override
  import opened ModulesState

  // ---------------------------------------------------------------------
  // Source roots and paths

  /** untrailingslashit(wp_normalize_path(p)) */
  function RootPath(p: string): string { Untrailing(NormalizePath(p)) }

  /**
   * lonestar_get_block_source_roots: the parent theme directory under
   * 'template' and, when the child theme directory differs, the child theme
   * directory under 'stylesheet'.
   */
  function BlockRoots(templateDir: string, stylesheetDir: string): (roots: Assoc<string>)
    ensures Keys(roots) == if stylesheetDir == templateDir then ["template"] else ["template", "stylesheet"]
  {
    var roots := [("template", RootPath(templateDir))];
    if stylesheetDir == templateDir then roots else roots + [("stylesheet", RootPath(stylesheetDir))]
  }

  /** A path is at or below a non-empty root. */
  predicate UnderRoot(path: string, root: string)
  {
    root != [] && (path == root || StartsWith(path, root + "/"))
  }

  /** The sanitised source of the first root the path is at or below, if any. */
  function FirstRootSource(path: string, roots: Assoc<string>): Option<string>
  {
    if roots == [] then None
    else if UnderRoot(path, RootPath(roots[0].1)) then Some(SanitizeKey(roots[0].0))
    else FirstRootSource(path, roots[1..])
  }

  /** lonestar_get_block_source_for_path */
  function SourceForPath(path: string, roots: Assoc<string>): string
  {
    var p := NormalizePath(path);
    if p == [] then "template"
    else match FirstRootSource(p, roots)
      case Some(source) => source
      case None => "template"
  }

  /**
   * A path at or below the parent theme directory belongs to 'template'
   * (checked first); one below only a distinct child theme directory belongs
   * to 'stylesheet'; an empty path, or one outside both, falls back to
   * 'template'.
   */
  lemma SourceForPathRule(path: string, templateDir: string, stylesheetDir: string)
    ensures var p := NormalizePath(path);
      SourceForPath(path, BlockRoots(templateDir, stylesheetDir)) ==
        if p != [] && stylesheetDir != templateDir && !UnderRoot(p, RootPath(RootPath(templateDir))) &&
           UnderRoot(p, RootPath(RootPath(stylesheetDir)))
        then "stylesheet" else "template"
  {
    var p := NormalizePath(path);
    if stylesheetDir == templateDir {
      FirstRootOfOne(p, RootPath(templateDir));
    } else {
      FirstRootOfTwo(p, RootPath(templateDir), RootPath(stylesheetDir));
    }
  }

  /** The two source names are keys already. */
  lemma SourceNamesAreKeys()
    ensures SanitizeKey("template") == "template" && SanitizeKey("stylesheet") == "stylesheet"
  {
    NormalizeTemplate();
    NormalizeStylesheet();
    assert NormalizeSource("template") == SanitizeKey("template");
    assert NormalizeSource("stylesheet") == SanitizeKey("stylesheet");
  }

  lemma FirstRootOfOne(p: string, t: string)
    ensures FirstRootSource(p, [("template", t)]) == if UnderRoot(p, RootPath(t)) then Some("template") else None
  {
    SourceNamesAreKeys();
    assert [("template", t)][1..] == [];
  }

  lemma FirstRootOfTwo(p: string, t: string, s: string)
    ensures FirstRootSource(p, [("template", t), ("stylesheet", s)]) ==
      if UnderRoot(p, RootPath(t)) then Some("template")
      else if UnderRoot(p, RootPath(s)) then Some("stylesheet") else None
  {
    SourceNamesAreKeys();
    var roots := [("template", t), ("stylesheet", s)];
    var rest := [("stylesheet", s)];
    assert roots[1..] == rest && rest[1..] == [];
    assert FirstRootSource(p, rest) == if UnderRoot(p, RootPath(s)) then Some("stylesheet") else None;
  }

  /** The part of a normalised path below a root: '' for the root itself and outside it. */
  function RelativeTo(p: string, root: string): string
  {
    if root == [] || p == root || !StartsWith(p, root + "/") then ""
    else LTrimSlash(p[|root|..])
  }

  /** lonestar_get_block_source_relative_path */
  function RelativePath(path: string, source: string, roots: Assoc<string>): string
  {
    match Get(roots, SanitizeKey(source))
    case None => ""
    case Some(rootDir) => RelativeTo(RootPath(path), RootPath(rootDir))
  }

  /**
   * The relative path is '' for an unknown source, for the root itself and
   * for a path outside the root; a non-empty one rebuilds the path as
   * root + '/' + relative path.
   */
  lemma RelativePathRebuilds(path: string, source: string, roots: Assoc<string>)
    ensures Get(roots, SanitizeKey(source)).None? ==> RelativePath(path, source, roots) == ""
    ensures Get(roots, SanitizeKey(source)).Some? ==>
      var root := RootPath(Get(roots, SanitizeKey(source)).value);
      (!UnderRoot(RootPath(path), root) || RootPath(path) == root ==> RelativePath(path, source, roots) == "") &&
      (RelativePath(path, source, roots) != "" ==> RootPath(path) == root + "/" + RelativePath(path, source, roots))
  {
    if Get(roots, SanitizeKey(source)).Some? {
      var root := RootPath(Get(roots, SanitizeKey(source)).value);
      RootPathNoDouble(path);
      RelativeToRebuilds(RootPath(path), root);
    }
  }

  /** A root path has no "//" after its first character. */
  lemma RootPathNoDouble(path: string)
    ensures NoDoubleSlashFrom(RootPath(path), 1)
  {
    var n := NormalizePath(path);
    NormalizePathNoDouble(path);
    var p := RootPath(path);
    assert p == n[..|p|];
    forall i | 1 <= i < |p| - 1 ensures !(p[i] == '/' && p[i + 1] == '/') {
      assert p[i] == n[i] && p[i + 1] == n[i + 1];
    }
  }

  lemma RelativeToRebuilds(p: string, root: string)
    requires NoDoubleSlashFrom(p, 1)
    ensures RelativeTo(p, root) != "" ==> p == root + "/" + RelativeTo(p, root)
  {
    if RelativeTo(p, root) != "" {
      var k := |root|;
      assert p[..k + 1] == root + "/";
      assert p[k] == '/';
      assert k + 1 < |p| ==> p[k + 1] != '/';
      OneSlash(p[k..]);
      assert p == p[..k + 1] + p[k + 1..];
    }
  }

  /** ltrim of a string with exactly one leading '/' drops that '/'. */
  lemma OneSlash(t: string)
    requires |t| >= 1 && t[0] == '/' && (|t| > 1 ==> t[1] != '/')
    ensures LTrimSlash(t) == t[1..]
  {
    assert LTrimSlash(t) == LTrimSlash(t[1..]);
  }

  /** lonestar_get_block_type_from_directory: 'acf' is checked before 'native'. */
  function BlockType(directory: string): (t: string)
    ensures t == "acf" <==> Contains(NormalizePath(directory), "/blocks/acf/")
    ensures t == "native" <==> !Contains(NormalizePath(directory), "/blocks/acf/") && Contains(NormalizePath(directory), "/blocks/native/")
    ensures t == "unknown" <==> !Contains(NormalizePath(directory), "/blocks/acf/") && !Contains(NormalizePath(directory), "/blocks/native/")
  {
    var d := NormalizePath(directory);
    if Contains(d, "/blocks/acf/") then "acf"
    else if Contains(d, "/blocks/native/") then "native"
    else "unknown"
  }

  // ---------------------------------------------------------------------
  // Block keys

  /** substr(md5(relative path), 0, 10); md5 itself is a parameter. */
  function PathHash(md5: string -> string, relativePath: string): (h: string)
    ensures |h| <= 10
  {
    var digest := md5(NormalizePath(relativePath));
    if |digest| <= 10 then digest else digest[..10]
  }

  /** The slug part of a block key: the sanitised fallback slug, else 'block'. */
  function BaseSlug(fallbackSlug: string): (s: string)
    ensures s != [] && IsKey(s)
  {
    var f := SanitizeKey(fallbackSlug);
    if f != [] then f else SanitizeKeyOfKey("block"); "block"
  }

  /** lonestar_build_block_key */
  function BlockKey(source: string, blockType: string, relativePath: string, fallbackSlug: string, md5: string -> string): string
  {
    SanitizeKey(SanitizeKey(source) + "__" + SanitizeKey(blockType) + "__" + BaseSlug(fallbackSlug) + "__" + PathHash(md5, relativePath))
  }

  /**
   * With a hex digest (lower-case, as md5 returns it), a block key is
   * source__type__slug__hash with each part already sanitised, and slug
   * 'block' when no fallback slug survives sanitising.
   */
  lemma BlockKeyParts(source: string, blockType: string, relativePath: string, fallbackSlug: string, md5: string -> string)
    requires IsKey(md5(NormalizePath(relativePath)))
    ensures BlockKey(source, blockType, relativePath, fallbackSlug, md5) ==
      SanitizeKey(source) + "__" + SanitizeKey(blockType) + "__" + BaseSlug(fallbackSlug) + "__" + PathHash(md5, relativePath)
    ensures SanitizeKey(fallbackSlug) == [] ==> BaseSlug(fallbackSlug) == "block"
  {
    var s := SanitizeKey(source);
    var t := SanitizeKey(blockType);
    var b := BaseSlug(fallbackSlug);
    var h := PathHash(md5, relativePath);
    assert IsKey(h);
    var joined := s + "__" + t + "__" + b + "__" + h;
    assert IsKey(joined) by {
      assert IsKey("__");
      forall i | 0 <= i < |joined| ensures IsKeyChar(joined[i]) {
        if i < |s| { assert joined[i] == s[i]; }
        else if i < |s| + 2 { assert joined[i] == '_'; }
        else if i < |s| + 2 + |t| { assert joined[i] == t[i - |s| - 2]; }
        else if i < |s| + 4 + |t| { assert joined[i] == '_'; }
        else if i < |s| + 4 + |t| + |b| { assert joined[i] == b[i - |s| - 4 - |t|]; }
        else if i < |s| + 6 + |t| + |b| { assert joined[i] == '_'; }
        else { assert joined[i] == h[i - |s| - 6 - |t| - |b|]; }
      }
    }
    SanitizeKeyOfKey(joined);
  }

  /** Two blocks whose path hashes differ (at equal length) get different keys. */
  lemma BlockKeysDifferByHash(
    source1: string, type1: string, path1: string, slug1: string,
    source2: string, type2: string, path2: string, slug2: string, md5: string -> string)
    requires IsKey(md5(NormalizePath(path1))) && IsKey(md5(NormalizePath(path2)))
    requires |PathHash(md5, path1)| == |PathHash(md5, path2)| && PathHash(md5, path1) != PathHash(md5, path2)
    ensures BlockKey(source1, type1, path1, slug1, md5) != BlockKey(source2, type2, path2, slug2, md5)
  {
    BlockKeyParts(source1, type1, path1, slug1, md5);
    BlockKeyParts(source2, type2, path2, slug2, md5);
    var k1 := BlockKey(source1, type1, path1, slug1, md5);
    var k2 := BlockKey(source2, type2, path2, slug2, md5);
    var h1 := PathHash(md5, path1);
    var h2 := PathHash(md5, path2);
    assert k1[|k1| - |h1|..] == h1;
    assert k2[|k2| - |h2|..] == h2;
  }

  // ---------------------------------------------------------------------
  // Identity

  /** The fields of a block catalog entry that the state logic reads. */
  datatype BlockEntry = BlockEntry(slug: string, name: string, blockType: string, source: string, relativePath: string, directory: string)

  /** The normalised block name: lower-cased, then sanitize_text_field. */
  function IdentityName(b: BlockEntry): string { SanitizeText(Lower(b.name)) }

  /** The normalised relative path: lower-cased, leading '/' removed. */
  function IdentityPath(b: BlockEntry): string { LTrimSlash(Lower(NormalizePath(b.relativePath))) }

  /**
   * lonestar_get_block_identity: 'name:' + name, else 'path:' + type + ':' +
   * path when both are non-empty, else 'slug:' + slug, else 'key:' + key,
   * else 'key:unknown'.
   */
  function Identity(key: string, b: BlockEntry): (id: string)
    ensures id != []
  {
    var name := IdentityName(b);
    if name != [] then "name:" + name
    else
      var t := SanitizeKey(b.blockType);
      var path := IdentityPath(b);
      if t != [] && path != [] then "path:" + t + ":" + path
      else
        var slug := SanitizeKey(b.slug);
        if slug != [] then "slug:" + slug
        else
          var k := SanitizeKey(key);
          if k != [] then "key:" + k else "key:unknown"
  }

  /** A named block's identity starts with 'n'; every other identity starts with 'p', 's' or 'k'. */
  lemma IdentityFirstChar(key: string, b: BlockEntry)
    ensures Identity(key, b)[0] == 'n' <==> IdentityName(b) != []
  {
    var t := SanitizeKey(b.blockType);
    var slug := SanitizeKey(b.slug);
    var k := SanitizeKey(key);
    if IdentityName(b) != [] {
      assert Identity(key, b) == "name:" + IdentityName(b);
    } else if t != [] && IdentityPath(b) != [] {
      assert Identity(key, b) == "path:" + t + ":" + IdentityPath(b);
    } else if slug != [] {
      assert Identity(key, b) == "slug:" + slug;
    } else if k != [] {
      assert Identity(key, b) == "key:" + k;
    } else {
      assert Identity(key, b) == "key:unknown";
    }
  }

  /**
   * A named block shares its identity exactly with the blocks of the same
   * normalised name, whatever their keys, paths or sources; an unnamed block
   * never shares it.
   */
  lemma NamedIdentity(key1: string, b1: BlockEntry, key2: string, b2: BlockEntry)
    requires IdentityName(b1) != []
    ensures Identity(key1, b1) == Identity(key2, b2) <==> IdentityName(b2) == IdentityName(b1)
  {
    var i1 := Identity(key1, b1);
    var i2 := Identity(key2, b2);
    IdentityFirstChar(key1, b1);
    IdentityFirstChar(key2, b2);
    if i1 == i2 {
      assert i1[5..] == IdentityName(b1);
      assert i2[5..] == IdentityName(b2);
    }
  }

  // ---------------------------------------------------------------------
  // Source priority

  /**
   * lonestar_get_block_source_priority: the modules' source priority of the
   * sanitised source when the module core is loaded, else 20 / 10 / 0 for
   * 'stylesheet' / 'template' / anything else.
   */
  function BlockSourcePriority(source: string, modulesLoaded: bool): (p: int)
    ensures p == 20 || p == 10 || p == 0
  {
    var s := SanitizeKey(source);
    if modulesLoaded then SourcePriority(s)
    else if s == "stylesheet" then 20 else if s == "template" then 10 else 0
  }

  /** Both branches agree on every source that sanitises to a non-empty key; on an empty one the modules' rule reads 'template'. */
  lemma BlockSourcePriorityAgrees(source: string)
    ensures SanitizeKey(source) != [] ==> BlockSourcePriority(source, true) == BlockSourcePriority(source, false)
    ensures SanitizeKey(source) == [] ==> BlockSourcePriority(source, true) == 10 && BlockSourcePriority(source, false) == 0
  {
    var s := SanitizeKey(source);
    SanitizeKeyOfKey(s);
    if s == [] {
      NormalizeTemplate();
      assert NormalizeSource(s) == "template";
    } else {
      assert NormalizeSource(s) == s;
    }
  }

  // ---------------------------------------------------------------------
  // Override state: blocks grouped by identity

  /** A catalog entry as the override pass sees it: its sanitised key and, for a non-empty key, its identity. */
  function BlockPair(kv: (string, BlockEntry)): (string, string)
  {
    var k := SanitizeKey(kv.0);
    (k, if k == [] then [] else Identity(k, kv.1))
  }

  function BlockPairs(cat: Assoc<BlockEntry>): (pairs: seq<(string, string)>)
    ensures |pairs| == |cat| && forall i :: 0 <= i < |cat| ==> pairs[i] == BlockPair(cat[i])
  {
    seq(|cat|, i requires 0 <= i < |cat| => BlockPair(cat[i]))
  }

  /** The source the comparator reads: the catalog entry's, sanitised, or 'template' for a key outside the catalog. */
  function BlockSource(cat: Assoc<BlockEntry>, key: string): string
  {
    match Get(cat, key)
    case Some(entry) => SanitizeKey(entry.source)
    case None => "template"
  }

  /** The priority the comparator orders candidates by (the module core being loaded). */
  function BlockPriority(cat: Assoc<BlockEntry>): string -> int
  {
    (key: string) => BlockKeyPriority(cat, key)
  }

  function BlockKeyPriority(cat: Assoc<BlockEntry>, key: string): int
  {
    BlockSourcePriority(BlockSource(cat, key), true)
  }

  /** overridden_by_key of the block override state. */
  function BlockOverridden(cat: Assoc<BlockEntry>): map<string, string>
  {
    OverriddenOf(BlockPriority(cat), GroupsOf(BlockPairs(cat)))
  }

  /** lonestar_get_block_override_state */
  method BlockOverrideState(cat: Assoc<BlockEntry>) returns (st: OverrideState)
    ensures st.groups == GroupsOf(BlockPairs(cat))
    ensures st.winners == WinnersOf(BlockPriority(cat), st.groups)
    ensures st.overridden == BlockOverridden(cat)
  {
    if cat == [] {
      return OverrideState([], [], map[]);
    }
    var groups, winners, overridden := ComputeOverride(BlockPairs(cat), BlockPriority(cat));
    st := OverrideState(groups, winners, overridden);
  }

  /** The catalog's keys are sanitised and distinct, as BlockKey makes them. */
  predicate BlockKeysOk(cat: Assoc<BlockEntry>)
  {
    (forall i :: 0 <= i < |cat| ==> IsKey(cat[i].0)) && Distinct(Keys(cat))
  }

  lemma BlockPairsOk(cat: Assoc<BlockEntry>)
    requires BlockKeysOk(cat)
    ensures PairsOk(BlockPairs(cat))
  {
    forall i | 0 <= i < |cat| ensures BlockPairs(cat)[i].0 == cat[i].0 {
      SanitizeKeyOfKey(cat[i].0);
    }
    forall i, j | 0 <= i < j < |cat| ensures BlockPairs(cat)[i].0 != BlockPairs(cat)[j].0 {
      assert Keys(cat)[i] == cat[i].0 && Keys(cat)[j] == cat[j].0;
    }
  }

  lemma BlockPairAt(cat: Assoc<BlockEntry>, i: nat)
    requires i < |cat| && IsKey(cat[i].0) && cat[i].0 != []
    ensures BlockPairs(cat)[i] == (cat[i].0, Identity(cat[i].0, cat[i].1))
  {
    SanitizeKeyOfKey(cat[i].0);
  }

  /** The priority of a catalog key is the priority of its entry's source. */
  lemma BlockPriorityOf(cat: Assoc<BlockEntry>, i: nat)
    requires BlockKeysOk(cat) && i < |cat|
    ensures BlockPriority(cat)(cat[i].0) == BlockSourcePriority(cat[i].1.source, true)
  {
    GetOfDistinct(cat, cat[i].0);
    SanitizeKeyIdempotent(cat[i].1.source);
  }

  /**
   * Each block lands in the group of its identity; it is overridden exactly
   * when it is not that group's winner, and is then mapped to the winner,
   * which beats it.
   */
  lemma BlockOverride(cat: Assoc<BlockEntry>, i: nat)
    requires BlockKeysOk(cat) && i < |cat| && cat[i].0 != []
    ensures cat[i].0 in Members(BlockPairs(cat), Identity(cat[i].0, cat[i].1))
    ensures cat[i].0 in BlockOverridden(cat) <==>
      cat[i].0 != Best(BlockPriority(cat), Members(BlockPairs(cat), Identity(cat[i].0, cat[i].1)))
    ensures cat[i].0 in BlockOverridden(cat) ==>
      BlockOverridden(cat)[cat[i].0] == Best(BlockPriority(cat), Members(BlockPairs(cat), Identity(cat[i].0, cat[i].1))) &&
      Beats(BlockPriority(cat), BlockOverridden(cat)[cat[i].0], cat[i].0)
  {
    BlockPairsOk(cat);
    BlockPairAt(cat, i);
    OverrideResolutionOf(BlockPairs(cat), BlockPriority(cat), i, cat[i].0, Identity(cat[i].0, cat[i].1));
  }

  /** A child-theme block overrides the parent-theme block of the same identity. */
  lemma ChildBlockOverridesParent(cat: Assoc<BlockEntry>, child: nat, parent: nat)
    requires BlockKeysOk(cat) && child < |cat| && parent < |cat| && cat[child].0 != [] && cat[parent].0 != []
    requires Identity(cat[child].0, cat[child].1) == Identity(cat[parent].0, cat[parent].1)
    requires SanitizeKey(cat[child].1.source) == "stylesheet" && SanitizeKey(cat[parent].1.source) == "template"
    ensures cat[parent].0 in BlockOverridden(cat)
  {
    BlockPriorityOf(cat, child);
    BlockPriorityOf(cat, parent);
    NormalizeTemplate();
    NormalizeStylesheet();
    BlockPairsOk(cat);
    BlockPairAt(cat, child);
    BlockPairAt(cat, parent);
    LowerPriorityOverridden(BlockPairs(cat), BlockPriority(cat), child, parent);
  }

  /** In particular a child-theme block overrides the parent-theme block of the same block name. */
  lemma ChildBlockOverridesSameName(cat: Assoc<BlockEntry>, child: nat, parent: nat)
    requires BlockKeysOk(cat) && child < |cat| && parent < |cat| && cat[child].0 != [] && cat[parent].0 != []
    requires IdentityName(cat[child].1) != [] && IdentityName(cat[child].1) == IdentityName(cat[parent].1)
    requires SanitizeKey(cat[child].1.source) == "stylesheet" && SanitizeKey(cat[parent].1.source) == "template"
    ensures cat[parent].0 in BlockOverridden(cat)
  {
    NamedIdentity(cat[child].0, cat[child].1, cat[parent].0, cat[parent].1);
    ChildBlockOverridesParent(cat, child, parent);
  }

  /** Of two blocks with one identity, at least one is overridden. */
  lemma SameIdentityOverridden(cat: Assoc<BlockEntry>, i: nat, j: nat)
    requires BlockKeysOk(cat) && i < |cat| && j < |cat| && i != j
    requires cat[i].0 != [] && cat[j].0 != []
    requires Identity(cat[i].0, cat[i].1) == Identity(cat[j].0, cat[j].1)
    ensures cat[i].0 in BlockOverridden(cat) || cat[j].0 in BlockOverridden(cat)
  {
    BlockPairAt(cat, i);
    BlockPairAt(cat, j);
    SameGroupAt(cat, i, j, Identity(cat[i].0, cat[i].1));
  }

  lemma SameGroupAt(cat: Assoc<BlockEntry>, i: nat, j: nat, id: string)
    requires BlockKeysOk(cat) && i < |cat| && j < |cat| && i != j && cat[i].0 != [] && cat[j].0 != []
    requires BlockPairs(cat)[i] == (cat[i].0, id) && BlockPairs(cat)[j] == (cat[j].0, id)
    ensures cat[i].0 in BlockOverridden(cat) || cat[j].0 in BlockOverridden(cat)
  {
    BlockPairsOk(cat);
    AtMostOneStanding(BlockPairs(cat), BlockPriority(cat), i, j);
  }

  // ---------------------------------------------------------------------
  // Conflict resolution

  /** lonestar_resolve_enabled_block_key_conflicts, as a value. */
  function BlockResolveSpec(enabled: seq<string>, cat: Assoc<BlockEntry>): seq<string>
  {
    if enabled == [] then []
    else if cat == [] then SortUnique(SanitizeKeys(enabled))
    else SortUnique(Kept(enabled, Keys(cat), BlockOverridden(cat)))
  }

  /** lonestar_resolve_enabled_block_key_conflicts */
  method ResolveBlockConflicts(enabled: seq<string>, cat: Assoc<BlockEntry>) returns (r: seq<string>)
    ensures r == BlockResolveSpec(enabled, cat)
  {
    if enabled == [] {
      return [];
    }
    if cat == [] {
      var normalized := SortUnique(Dedup(SanitizeKeys(enabled)));
      SortedUnique(normalized, SortUnique(SanitizeKeys(enabled)));
      return normalized;
    }
    var st := BlockOverrideState(cat);
    r := ResolveKept(enabled, Keys(cat), st.overridden);
  }

  /**
   * The result is always sorted.  With a catalog it holds exactly the enabled
   * catalog keys that are not overridden; without one, exactly the sanitised
   * enabled keys.
   */
  lemma BlockResolvedKeys(enabled: seq<string>, cat: Assoc<BlockEntry>, x: string)
    ensures Sorted(BlockResolveSpec(enabled, cat))
    ensures enabled != [] && cat != [] ==> (x in BlockResolveSpec(enabled, cat) <==>
      x in SanitizeKeys(enabled) && x != [] && x in Keys(cat) && x !in BlockOverridden(cat))
    ensures enabled != [] && cat == [] ==> (x in BlockResolveSpec(enabled, cat) <==> x in SanitizeKeys(enabled))
  {
    var r := BlockResolveSpec(enabled, cat);
    assert x in r <==> x in Elems(r);
    if enabled != [] && cat != [] {
      KeptMembers(enabled, Keys(cat), BlockOverridden(cat), x);
    }
  }

  /** With a catalog, a resolved key is a non-empty key that is not overridden. */
  lemma BlockResolvedStanding(enabled: seq<string>, cat: Assoc<BlockEntry>, x: string)
    requires cat != [] && x in BlockResolveSpec(enabled, cat)
    ensures x != [] && x !in BlockOverridden(cat)
  {
    BlockResolvedKeys(enabled, cat, x);
  }

  /** Two blocks of one identity are never both enabled after resolution. */
  lemma BlockResolvedOnePerIdentity(enabled: seq<string>, cat: Assoc<BlockEntry>, i: nat, j: nat)
    requires BlockKeysOk(cat) && i < |cat| && j < |cat| && i != j
    requires Identity(cat[i].0, cat[i].1) == Identity(cat[j].0, cat[j].1)
    ensures !(cat[i].0 in BlockResolveSpec(enabled, cat) && cat[j].0 in BlockResolveSpec(enabled, cat))
  {
    var r := BlockResolveSpec(enabled, cat);
    if cat[i].0 in r && cat[j].0 in r {
      BlockResolvedStanding(enabled, cat, cat[i].0);
      BlockResolvedStanding(enabled, cat, cat[j].0);
      SameIdentityOverridden(cat, i, j);
    }
  }

  // ---------------------------------------------------------------------
  // Enabled block keys

  /** A block stays on unless the toggle map holds false for its key. */
  predicate BlockToggleKeeps(k: string, toggles: map<string, bool>)
  {
    !(k in toggles && !toggles[k])
  }

  /** The keys the main loop of lonestar_get_enabled_block_keys keeps, in order. */
  function BlockLoop(avail: seq<string>, toggles: map<string, bool>): seq<string>
  {
    if avail == [] then []
    else
      var k := avail[|avail| - 1];
      BlockLoop(avail[..|avail| - 1], toggles) + if BlockToggleKeeps(k, toggles) then [k] else []
  }

  lemma {:induction false} BlockLoopMembers(avail: seq<string>, toggles: map<string, bool>, x: string)
    ensures x in BlockLoop(avail, toggles) <==> x in avail && BlockToggleKeeps(x, toggles)
  {
    if avail != [] {
      var init := avail[..|avail| - 1];
      BlockLoopMembers(init, toggles, x);
      assert avail == init + [avail[|avail| - 1]];
    }
  }

  lemma BlockLoopStep(avail: seq<string>, toggles: map<string, bool>, i: nat)
    requires i < |avail|
    ensures BlockLoop(avail[..i + 1], toggles) ==
      BlockLoop(avail[..i], toggles) + if BlockToggleKeeps(avail[i], toggles) then [avail[i]] else []
  {
    assert avail[..i + 1][..i] == avail[..i];
  }

  method CollectEnabledBlocks(avail: seq<string>, toggles: map<string, bool>) returns (enabled: seq<string>)
    ensures enabled == BlockLoop(avail, toggles)
  {
    enabled := [];
    for i := 0 to |avail|
      invariant enabled == BlockLoop(avail[..i], toggles)
    {
      BlockLoopStep(avail, toggles, i);
      var key := avail[i];
      if key in toggles && !toggles[key] {
        continue;
      }
      enabled := enabled + [key];
    }
    assert avail[..|avail|] == avail;
  }

  /** The catalog restricted to the available keys, in the order of the available keys. */
  function CatalogSubset(avail: seq<string>, cat: Assoc<BlockEntry>): Assoc<BlockEntry>
  {
    if avail == [] then []
    else
      var sub := CatalogSubset(avail[..|avail| - 1], cat);
      var k := avail[|avail| - 1];
      match Get(cat, k)
      case Some(entry) => Put(sub, k, entry)
      case None => sub
  }

  /** The subset holds exactly the catalog entries of the available keys, each key once. */
  lemma {:induction false} CatalogSubsetGet(avail: seq<string>, cat: Assoc<BlockEntry>)
    ensures Distinct(Keys(CatalogSubset(avail, cat)))
    ensures forall k :: Get(CatalogSubset(avail, cat), k) == if k in avail then Get(cat, k) else None
  {
    if avail != [] {
      var init := avail[..|avail| - 1];
      var k := avail[|avail| - 1];
      CatalogSubsetGet(init, cat);
      assert avail == init + [k];
      var sub := CatalogSubset(init, cat);
      if Get(cat, k).Some? {
        PutDistinct(sub, k, Get(cat, k).value);
      }
    }
  }

  lemma CatalogSubsetStep(avail: seq<string>, cat: Assoc<BlockEntry>, i: nat)
    requires i < |avail|
    ensures CatalogSubset(avail[..i + 1], cat) ==
      match Get(cat, avail[i])
      case Some(entry) => Put(CatalogSubset(avail[..i], cat), avail[i], entry)
      case None => CatalogSubset(avail[..i], cat)
  {
    assert avail[..i + 1][..i] == avail[..i];
  }

  /** The subset loop of lonestar_get_enabled_block_keys. */
  method BuildCatalogSubset(avail: seq<string>, cat: Assoc<BlockEntry>) returns (sub: Assoc<BlockEntry>)
    ensures sub == CatalogSubset(avail, cat)
  {
    sub := [];
    for i := 0 to |avail|
      invariant sub == CatalogSubset(avail[..i], cat)
    {
      CatalogSubsetStep(avail, cat, i);
      var entry := Get(cat, avail[i]);
      if entry.Some? {
        sub := Put(sub, avail[i], entry.value);
      }
    }
    assert avail[..|avail|] == avail;
  }

  /** The catalog keys, the toggle option and the lonestar_enabled_blocks filter. */
  datatype BlockEnvironment = BlockEnvironment(
    cat: Assoc<BlockEntry>,                     // lonestar_get_block_catalog()
    storedToggles: Option<seq<(string, bool)>>,  // the block toggle option; None when not an array
    filter: KeyFilter)

  /** The available keys: the given list, or the catalog's keys when none is given. */
  function BlockAvailableOf(availableArg: Option<seq<string>>, cat: Assoc<BlockEntry>): seq<string>
  {
    match availableArg
    case Some(given) => given
    case None => Keys(cat)
  }

  /** The filtered list sanitised, without repeats, restricted to the available keys. */
  function KeepAvailable(filtered: seq<string>, avail: seq<string>): (kept: seq<string>)
    ensures SanitizeKeys(kept) == kept
    ensures forall x :: x in kept <==> x in SanitizeKeys(filtered) && x in avail
  {
    var ks := SanitizeKeys(filtered);
    var kept := Filter(Dedup(ks), (k: string) => k in avail);
    forall i | 0 <= i < |kept| ensures IsKey(kept[i]) {
      assert kept[i] in Elems(kept);
      assert kept[i] in Elems(ks);
    }
    SanitizeKeysOfKeys(kept);
    assert forall x :: x in kept <==> x in Elems(kept);
    assert forall x :: x in ks <==> x in Elems(ks);
    kept
  }

  /** The keys of the subset are the available catalog keys. */
  lemma CatalogSubsetKeys(avail: seq<string>, cat: Assoc<BlockEntry>, x: string)
    ensures x in Keys(CatalogSubset(avail, cat)) <==> x in avail && x in Keys(cat)
  {
    CatalogSubsetGet(avail, cat);
    assert Get(CatalogSubset(avail, cat), x).Some? <==> x in Keys(CatalogSubset(avail, cat));
  }

  /** What the filtered list goes through: sanitise, drop repeats, keep available keys, resolve, sort. */
  function BlockFinal(filtered: seq<string>, avail: seq<string>, cat: Assoc<BlockEntry>): seq<string>
  {
    SortUnique(BlockResolveSpec(KeepAvailable(filtered, avail), CatalogSubset(avail, cat)))
  }

  /** lonestar_get_enabled_block_keys, as a value. */
  function BlockEnabledSpec(availableArg: Option<seq<string>>, env: BlockEnvironment): seq<string>
  {
    var given := BlockAvailableOf(availableArg, env.cat);
    if given == [] then []
    else
      var avail := Avail(given);
      var toggles := ToggleMapOf(env.storedToggles);
      match env.filter(BlockLoop(avail, toggles), avail, toggles)
      case None => []
      case Some(filtered) => BlockFinal(filtered, avail, env.cat)
  }

  /**
   * lonestar_get_enabled_block_keys: the available keys not switched off,
   * through the filter, restricted to the available keys, resolved against
   * the catalog entries of the available keys, sorted.
   */
  method EnabledBlockKeys(availableArg: Option<seq<string>>, env: BlockEnvironment) returns (keys: seq<string>)
    ensures keys == BlockEnabledSpec(availableArg, env)
  {
    var given := BlockAvailableOf(availableArg, env.cat);
    if given == [] {
      return [];
    }
    var avail := Avail(given);
    var toggles := ToggleMapOf(env.storedToggles);
    var enabled := CollectEnabledBlocks(avail, toggles);
    var filtered := env.filter(enabled, avail, toggles);
    if filtered.None? {
      return [];
    }
    var kept := KeepAvailable(filtered.value, avail);
    var sub := BuildCatalogSubset(avail, env.cat);
    var resolved := ResolveBlockConflicts(kept, sub);
    keys := SortUnique(resolved);
  }

  /**
   * Whatever the filter returns, the result is sorted and made of available
   * keys; when some available key is in the catalog, every result is a
   * non-empty catalog key not overridden among the available blocks.
   */
  lemma BlockFinalMembers(filtered: seq<string>, avail: seq<string>, cat: Assoc<BlockEntry>, x: string)
    ensures Sorted(BlockFinal(filtered, avail, cat))
    ensures x in BlockFinal(filtered, avail, cat) <==>
      x in SanitizeKeys(filtered) && x in avail &&
      (CatalogSubset(avail, cat) != [] ==>
        x != [] && x in Keys(cat) && x !in BlockOverridden(CatalogSubset(avail, cat)))
  {
    var sub := CatalogSubset(avail, cat);
    var kept := KeepAvailable(filtered, avail);
    var r := BlockResolveSpec(kept, sub);
    assert x in SortUnique(r) <==> x in Elems(r);
    BlockResolvedKeys(kept, sub, x);
    CatalogSubsetKeys(avail, cat, x);
  }

  /** Every enabled block key is sorted into place and is one of the available keys. */
  lemma BlockEnabledAvailable(availableArg: Option<seq<string>>, env: BlockEnvironment, x: string)
    ensures Sorted(BlockEnabledSpec(availableArg, env))
    ensures x in BlockEnabledSpec(availableArg, env) ==> x in Avail(BlockAvailableOf(availableArg, env.cat))
  {
    var given := BlockAvailableOf(availableArg, env.cat);
    if given != [] {
      var avail := Avail(given);
      var toggles := ToggleMapOf(env.storedToggles);
      var f := env.filter(BlockLoop(avail, toggles), avail, toggles);
      if f.Some? {
        BlockFinalMembers(f.value, avail, env.cat, x);
      }
    }
  }

  /**
   * With a filter that changes nothing, a key is enabled exactly when it is
   * available, not switched off and, once some available key is in the
   * catalog, a catalog key that no available block overrides.
   */
  lemma BlockEnabledPassThrough(availableArg: Option<seq<string>>, env: BlockEnvironment, x: string)
    requires BlockAvailableOf(availableArg, env.cat) != []
    requires forall e, a, t :: env.filter(e, a, t) == Some(e)
    ensures x in BlockEnabledSpec(availableArg, env) <==>
      var avail := Avail(BlockAvailableOf(availableArg, env.cat));
      x in avail && BlockToggleKeeps(x, ToggleMapOf(env.storedToggles)) &&
      (CatalogSubset(avail, env.cat) != [] ==>
        x != [] && x in Keys(env.cat) && x !in BlockOverridden(CatalogSubset(avail, env.cat)))
  {
    var avail := Avail(BlockAvailableOf(availableArg, env.cat));
    var toggles := ToggleMapOf(env.storedToggles);
    var loop := BlockLoop(avail, toggles);
    assert env.filter(loop, avail, toggles) == Some(loop);
    BlockFinalMembers(loop, avail, env.cat, x);
    BlockLoopMembers(avail, toggles, x);
    forall i | 0 <= i < |loop| ensures IsKey(loop[i]) {
      BlockLoopMembers(avail, toggles, loop[i]);
    }
    SanitizeKeysOfKeys(loop);
  }

  /** With a filter that changes nothing, a block switched off in the option is never enabled. */
  lemma SwitchedOffBlockDisabled(availableArg: Option<seq<string>>, env: BlockEnvironment, x: string)
    requires forall e, a, t :: env.filter(e, a, t) == Some(e)
    requires x in ToggleMapOf(env.storedToggles) && !ToggleMapOf(env.storedToggles)[x]
    ensures x !in BlockEnabledSpec(availableArg, env)
  {
    if BlockAvailableOf(availableArg, env.cat) != [] {
      BlockEnabledPassThrough(availableArg, env, x);
    }
  }

  // ---------------------------------------------------------------------
  // Enabled block directories

  /** The normalised directory of a catalog key, or '' when the key is not in the catalog. */
  function DirOf(cat: Assoc<BlockEntry>, key: string): string
  {
    match Get(cat, key)
    case Some(entry) => NormalizePath(entry.directory)
    case None => ""
  }

  /** The directories of the enabled blocks, in order. */
  function EnabledDirs(enabled: seq<string>, cat: Assoc<BlockEntry>): (ds: seq<string>)
    ensures |ds| == |enabled| && forall i :: 0 <= i < |enabled| ==> ds[i] == DirOf(cat, enabled[i])
  {
    seq(|enabled|, i requires 0 <= i < |enabled| => DirOf(cat, enabled[i]))
  }

  /** The lookup built from a list of directories: its non-empty members. */
  function DirLookup(ds: seq<string>): set<string>
  {
    if ds == [] then {}
    else DirLookup(ds[..|ds| - 1]) + if ds[|ds| - 1] != [] then {ds[|ds| - 1]} else {}
  }

  lemma {:induction false} DirLookupMembers(ds: seq<string>, d: string)
    ensures d in DirLookup(ds) <==> d != [] && d in ds
  {
    if ds != [] {
      var init := ds[..|ds| - 1];
      DirLookupMembers(init, d);
      assert ds == init + [ds[|ds| - 1]];
    }
  }

  /** The lookup loop of lonestar_filter_enabled_block_directories. */
  method CollectEnabledDirs(enabled: seq<string>, cat: Assoc<BlockEntry>) returns (lookup: set<string>)
    ensures lookup == DirLookup(EnabledDirs(enabled, cat))
  {
    ghost var ds := EnabledDirs(enabled, cat);
    lookup := {};
    for i := 0 to |enabled|
      invariant lookup == DirLookup(ds[..i])
    {
      assert ds[..i + 1][..i] == ds[..i];
      var entry := Get(cat, enabled[i]);
      if entry.None? {
        continue;
      }
      var directory := NormalizePath(entry.value.directory);
      if directory != [] {
        lookup := lookup + {directory};
      }
    }
    assert ds[..|enabled|] == ds;
  }

  function NormalizePaths(dirs: seq<string>): (r: seq<string>)
    ensures |r| == |dirs| && forall i :: 0 <= i < |dirs| ==> r[i] == NormalizePath(dirs[i])
  {
    seq(|dirs|, i requires 0 <= i < |dirs| => NormalizePath(dirs[i]))
  }

  /** The normalised, non-empty directories found in the lookup, in order. */
  function KeptDirs(dirs: seq<string>, lookup: set<string>): seq<string>
  {
    if dirs == [] then []
    else
      var d := NormalizePath(dirs[|dirs| - 1]);
      KeptDirs(dirs[..|dirs| - 1], lookup) + if d != [] && d in lookup then [d] else []
  }

  lemma {:induction false} KeptDirsMembers(dirs: seq<string>, lookup: set<string>, x: string)
    ensures x in KeptDirs(dirs, lookup) <==> x in NormalizePaths(dirs) && x != [] && x in lookup
  {
    if dirs != [] {
      var init := dirs[..|dirs| - 1];
      KeptDirsMembers(init, lookup, x);
      assert NormalizePaths(dirs) == NormalizePaths(init) + [NormalizePath(dirs[|dirs| - 1])];
    }
  }

  lemma KeptDirsStep(dirs: seq<string>, lookup: set<string>, i: nat)
    requires i < |dirs|
    ensures KeptDirs(dirs[..i + 1], lookup) ==
      KeptDirs(dirs[..i], lookup) + if NormalizePath(dirs[i]) != [] && NormalizePath(dirs[i]) in lookup then [NormalizePath(dirs[i])] else []
  {
    assert dirs[..i + 1][..i] == dirs[..i];
  }

  /** The filter loop of lonestar_filter_enabled_block_directories. */
  method KeepEnabledDirs(dirs: seq<string>, lookup: set<string>) returns (filtered: seq<string>)
    ensures filtered == KeptDirs(dirs, lookup)
  {
    filtered := [];
    for i := 0 to |dirs|
      invariant filtered == KeptDirs(dirs[..i], lookup)
    {
      KeptDirsStep(dirs, lookup, i);
      var directory := NormalizePath(dirs[i]);
      if directory == [] {
        continue;
      }
      if directory !in lookup {
        continue;
      }
      filtered := filtered + [directory];
    }
    assert dirs[..|dirs|] == dirs;
  }

  /** lonestar_filter_enabled_block_directories, as a value. */
  function EnabledDirsSpec(dirs: seq<string>, env: BlockEnvironment): seq<string>
  {
    if dirs == [] then []
    else if env.cat == [] then Dedup(NormalizePaths(dirs))
    else
      var enabled := BlockEnabledSpec(Some(Keys(env.cat)), env);
      if enabled == [] then []
      else SortUnique(KeptDirs(dirs, DirLookup(EnabledDirs(enabled, env.cat))))
  }

  /**
   * lonestar_filter_enabled_block_directories: without a catalog, the
   * normalised directories without repeats; otherwise the normalised
   * directories that belong to an enabled block, sorted, without repeats.
   */
  method FilterEnabledDirectories(dirs: seq<string>, env: BlockEnvironment) returns (r: seq<string>)
    ensures r == EnabledDirsSpec(dirs, env)
  {
    if dirs == [] {
      return [];
    }
    if env.cat == [] {
      return Dedup(NormalizePaths(dirs));
    }
    var enabled := EnabledBlockKeys(Some(Keys(env.cat)), env);
    if enabled == [] {
      return [];
    }
    var lookup := CollectEnabledDirs(enabled, env.cat);
    var filtered := KeepEnabledDirs(dirs, lookup);
    r := SortUnique(Dedup(filtered));
    SortedUnique(r, SortUnique(filtered));
  }

  /**
   * With a catalog, the result is sorted and holds exactly the normalised,
   * non-empty given directories that are the directory of some enabled
   * block; without one, exactly the normalised directories, each once.
   */
  lemma EnabledDirsMembers(dirs: seq<string>, env: BlockEnvironment, x: string)
    ensures env.cat != [] ==> Sorted(EnabledDirsSpec(dirs, env))
    ensures env.cat != [] ==> (x in EnabledDirsSpec(dirs, env) <==>
      x != [] && x in NormalizePaths(dirs) && x in EnabledDirs(BlockEnabledSpec(Some(Keys(env.cat)), env), env.cat))
    ensures env.cat == [] ==> (Distinct(EnabledDirsSpec(dirs, env)) &&
      (x in EnabledDirsSpec(dirs, env) <==> x in NormalizePaths(dirs)))
  {
    var r := EnabledDirsSpec(dirs, env);
    assert x in r <==> x in Elems(r);
    if env.cat != [] {
      var ds := EnabledDirs(BlockEnabledSpec(Some(Keys(env.cat)), env), env.cat);
      DirLookupMembers(ds, x);
      KeptDirsMembers(dirs, DirLookup(ds), x);
    }
  }
}
