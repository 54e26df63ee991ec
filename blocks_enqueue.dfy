// Block asset enqueueing (inc/core/blocks-acf-enqueue.php).
//
// Each theme layer is a source context: the parent theme under 'template'
// and, when its directory differs, the child theme under 'stylesheet'.  A
// source file belongs to the first context whose directory it lies below;
// its theme-relative path keys the Vite manifest and builds the dev-server
// URL.  Blocks whose block.json names 'file:' assets are left to core; the
// others get style and script handles collected from block.json with a
// fallback derived from the block name.  The theme directories, the
// VITE_SERVER constant, the set of readable files and the decoded JSON
// arrive as parameters.

module BlocksEnqueue {
  import opened Strings
  import opened Order
  import opened JsonValues
  import opened BlocksState

  // ---------------------------------------------------------------------
  // Source contexts

  /** wp_normalize_path(untrailingslashit($dir)) */
  function ContextPath(dir: string): string { NormalizePath(Untrailing(dir)) }

  /**
   * lonestar_get_theme_source_contexts, directory paths only: 'template' when
   * the parent directory is non-empty, then 'stylesheet' when the child
   * directory is non-empty and differs from it.
   */
  function SourceContexts(templateDir: string, stylesheetDir: string): Assoc<string>
  {
    var t := ContextPath(templateDir);
    var s := ContextPath(stylesheetDir);
    (if t != [] then [("template", t)] else []) + (if s != [] && s != t then [("stylesheet", s)] else [])
  }

  /** A context claims a normalised path lying strictly below its non-empty directory. */
  predicate ContextMatches(p: string, context: (string, string))
  {
    var base := NormalizePath(context.1);
    base != [] && StartsWith(p, base + "/")
  }

  /** The index of the first context that claims p. */
  function FirstContext(p: string, contexts: Assoc<string>): (r: Option<nat>)
    ensures r.Some? ==> r.value < |contexts| && ContextMatches(p, contexts[r.value])
    ensures r.Some? ==> forall j :: 0 <= j < r.value ==> !ContextMatches(p, contexts[j])
    ensures r.None? ==> forall j :: 0 <= j < |contexts| ==> !ContextMatches(p, contexts[j])
  {
    FirstIndex(contexts, Claims(p))
  }

  function Claims(p: string): ((string, string)) -> bool { c => ContextMatches(p, c) }

  /** lonestar_get_source_context_key_for_path */
  function SourceContextKey(path: string, contexts: Assoc<string>): string
  {
    var p := NormalizePath(path);
    if p == [] then "template"
    else match FirstContext(p, contexts)
      case Some(i) => SanitizeKey(contexts[i].0)
      case None => "template"
  }

  /** The loop of lonestar_get_source_context_key_for_path. */
  method SourceContextKeyFor(path: string, contexts: Assoc<string>) returns (key: string)
    ensures key == SourceContextKey(path, contexts)
  {
    var p := NormalizePath(path);
    if p == [] {
      return "template";
    }
    var i := 0;
    while i < |contexts|
      invariant 0 <= i <= |contexts|
      invariant forall j :: 0 <= j < i ==> !ContextMatches(p, contexts[j])
    {
      var base := NormalizePath(contexts[i].1);
      if base != [] && StartsWith(p, base + "/") {
        ContextFound(p, contexts, i);
        return SanitizeKey(contexts[i].0);
      }
      i := i + 1;
    }
    key := "template";
  }

  /** The first context that claims p is the one FirstContext names. */
  lemma ContextFound(p: string, contexts: Assoc<string>, i: nat)
    requires i < |contexts| && ContextMatches(p, contexts[i])
    requires forall j :: 0 <= j < i ==> !ContextMatches(p, contexts[j])
    ensures FirstContext(p, contexts) == Some(i)
  {
  }

  /**
   * With the theme's own contexts, a path strictly below the parent
   * directory is 'template' (checked first); one strictly below only a
   * distinct child directory is 'stylesheet'; an empty path, a directory
   * itself and a path outside both are 'template'.
   */
  lemma SourceContextOfTheme(path: string, templateDir: string, stylesheetDir: string)
    ensures var p := NormalizePath(path);
      var t := ContextPath(templateDir);
      var s := ContextPath(stylesheetDir);
      SourceContextKey(path, SourceContexts(templateDir, stylesheetDir)) ==
        if p != [] && !ContextMatches(p, ("template", t)) && s != t && ContextMatches(p, ("stylesheet", s))
        then "stylesheet" else "template"
  {
    var p := NormalizePath(path);
    var t := ContextPath(templateDir);
    var s := ContextPath(stylesheetDir);
    var contexts := SourceContexts(templateDir, stylesheetDir);
    SourceNamesAreKeys();
    if p != [] {
      var r := FirstContext(p, contexts);
      if r.Some? {
        var i := r.value;
        if t != [] {
          assert contexts[0] == ("template", t);
          if i == 1 { assert contexts[1] == ("stylesheet", s) && s != [] && s != t; }
        } else {
          assert contexts[0] == ("stylesheet", s) && s != [] && s != t;
          assert !ContextMatches(p, ("template", t));
        }
      } else {
        if t != [] {
          assert contexts[0] == ("template", t);
          if s != [] && s != t { assert contexts[1] == ("stylesheet", s); }
        } else if s != [] && s != t {
          assert contexts[0] == ("stylesheet", s);
        }
      }
    }
  }

  // ---------------------------------------------------------------------
  // Theme-relative paths and dev-server URLs

  /**
   * The directory a path is taken relative to: that of the named context
   * when it exists, otherwise that of the context the path itself resolves
   * to, otherwise ''.
   */
  function AssetRoot(p: string, sourceContext: string, contexts: Assoc<string>): string
  {
    var sc := SanitizeKey(sourceContext);
    if sc != [] && Get(contexts, sc).Some? then ContextPath(Get(contexts, sc).value)
    else match Get(contexts, SourceContextKey(p, contexts))
      case Some(dir) => ContextPath(dir)
      case None => ""
  }

  /** lonestar_get_theme_relative_asset_path */
  function ThemeRelativeAssetPath(path: string, sourceContext: string, contexts: Assoc<string>): string
  {
    var p := NormalizePath(path);
    var root := AssetRoot(p, sourceContext, contexts);
    if root == [] || !StartsWith(p, root + "/") then "" else LTrimSlash(p[|root|..])
  }

  /**
   * The theme-relative path is '' unless the path lies strictly below the
   * chosen directory; a non-empty one has no leading '/' and rebuilds the
   * path as directory + '/' + relative path.
   */
  lemma ThemeRelativeRebuilds(path: string, sourceContext: string, contexts: Assoc<string>)
    ensures var p := NormalizePath(path);
      var root := AssetRoot(p, sourceContext, contexts);
      var r := ThemeRelativeAssetPath(path, sourceContext, contexts);
      (root == [] || !StartsWith(p, root + "/") ==> r == "") &&
      (r != "" ==> r[0] != '/' && p == root + "/" + r)
  {
    var p := NormalizePath(path);
    var root := AssetRoot(p, sourceContext, contexts);
    NormalizePathNoDouble(path);
    if root != [] && StartsWith(p, root + "/") {
      assert p != root;
      assert ThemeRelativeAssetPath(path, sourceContext, contexts) == RelativeTo(p, root);
      RelativeToRebuilds(p, root);
    }
  }

  /** ltrim($s, '/') leaves a string that does not start with '/' as it is. */
  lemma LTrimSlashNoLead(s: string)
    requires s == [] || s[0] != '/'
    ensures LTrimSlash(s) == s
  {
  }

  /** lonestar_get_vite_dev_asset_url: server is VITE_SERVER when it is defined. */
  function DevAssetUrl(path: string, server: Option<string>, contexts: Assoc<string>): string
  {
    if server.None? then ""
    else
      var relative := ThemeRelativeAssetPath(path, SourceContextKey(path, contexts), contexts);
      if relative == [] then "" else TrimRightOf(server.value, {'/'}) + "/" + LTrimSlash(relative)
  }

  /**
   * The dev URL is '' exactly when VITE_SERVER is undefined or the path has
   * no theme-relative path; otherwise it is the server address without
   * trailing '/', one '/', and the relative path.
   */
  lemma DevAssetUrlShape(path: string, server: Option<string>, contexts: Assoc<string>)
    ensures var relative := ThemeRelativeAssetPath(path, SourceContextKey(path, contexts), contexts);
      var url := DevAssetUrl(path, server, contexts);
      (url == "" <==> server.None? || relative == "") &&
      (url != "" ==> var base := TrimRightOf(server.value, {'/'});
         url == base + "/" + relative && (base == [] || base[|base| - 1] != '/') && relative[0] != '/')
  {
    var relative := ThemeRelativeAssetPath(path, SourceContextKey(path, contexts), contexts);
    ThemeRelativeRebuilds(path, SourceContextKey(path, contexts), contexts);
    if server.Some? && relative != [] {
      LTrimSlashNoLead(relative);
    }
  }

  // ---------------------------------------------------------------------
  // block.json asset fields

  /** The seven block.json fields that can name assets. */
  const AssetFields: seq<string> :=
    ["script", "editorScript", "viewScript", "viewScriptModule", "style", "editorStyle", "viewStyle"]

  const StyleFields: seq<string> := ["style", "editorStyle", "viewStyle"]
  const ScriptFields: seq<string> := ["script", "editorScript", "viewScript", "viewScriptModule"]

  /** The values of a set metadata field: the array's values, or the single value. */
  function FieldValues(metadata: Json, field: string): seq<Json>
  {
    match Member(metadata, field)
    case None => []
    case Some(v) => if IsArray(v) then ArrayValues(v) else [v]
  }

  /** A 'file:' reference, left to register_block_type_from_metadata. */
  predicate IsFileRef(v: Json) { v.JString? && StartsWith(v.s, "file:") }

  /** Metadata uses file assets when a value of one of the seven fields is a 'file:' string. */
  predicate UsesFileAssets(metadata: Json)
  {
    IsArray(metadata) &&
    exists f, i :: f in AssetFields && 0 <= i < |FieldValues(metadata, f)| && IsFileRef(FieldValues(metadata, f)[i])
  }

  /** lonestar_block_metadata_uses_file_assets */
  method BlockUsesFileAssets(metadata: Json) returns (b: bool)
    ensures b == UsesFileAssets(metadata)
  {
    if !IsArray(metadata) {
      return false;
    }
    var k := 0;
    while k < |AssetFields|
      invariant 0 <= k <= |AssetFields|
      invariant forall f, i :: f in AssetFields[..k] && 0 <= i < |FieldValues(metadata, f)| ==> !IsFileRef(FieldValues(metadata, f)[i])
    {
      var values := FieldValues(metadata, AssetFields[k]);
      var i := 0;
      while i < |values|
        invariant 0 <= i <= |values|
        invariant forall j :: 0 <= j < i ==> !IsFileRef(values[j])
      {
        if values[i].JString? && StartsWith(values[i].s, "file:") {
          return true;
        }
        i := i + 1;
      }
      assert AssetFields[..k + 1] == AssetFields[..k] + [AssetFields[k]];
      k := k + 1;
    }
    assert AssetFields[..k] == AssetFields;
    return false;
  }

  // ---------------------------------------------------------------------
  // Handles

  /** A value that names a handle: a non-empty string that is not a 'file:' reference. */
  predicate IsHandle(v: Json) { v.JString? && v.s != [] && !StartsWith(v.s, "file:") }

  /** The handles among some values, in order. */
  function ValueHandles(values: seq<Json>): (r: seq<string>)
    ensures forall x :: x in r <==> exists i :: 0 <= i < |values| && IsHandle(values[i]) && values[i].s == x
  {
    if values == [] then []
    else
      var init := values[..|values| - 1];
      var last := values[|values| - 1];
      var rest := ValueHandles(init);
      assert forall i :: 0 <= i < |init| ==> init[i] == values[i];
      if IsHandle(last) then rest + [last.s] else rest
  }

  /** The handles of the fields, field by field. */
  function FieldHandles(metadata: Json, fields: seq<string>): (r: seq<string>)
    ensures forall x :: x in r <==> exists f :: f in fields && x in ValueHandles(FieldValues(metadata, f))
  {
    if fields == [] then []
    else
      var init := fields[..|fields| - 1];
      assert fields == init + [fields[|fields| - 1]];
      FieldHandles(metadata, init) + ValueHandles(FieldValues(metadata, fields[|fields| - 1]))
  }

  /** The fallback handle, when non-empty. */
  function Fallback(fallback: string): seq<string> { if fallback != [] then [fallback] else [] }

  /** lonestar_collect_metadata_handles */
  function CollectedHandles(metadata: Json, fields: seq<string>, fallback: string): seq<string>
  {
    Dedup(FieldHandles(metadata, fields) + Fallback(fallback))
  }

  /**
   * The collected handles are duplicate-free; each is a non-empty
   * non-'file:' string value of one of the fields, or the non-empty
   * fallback, and every such value is there; a fallback not named by the
   * fields comes last.
   */
  lemma CollectedHandlesMembers(metadata: Json, fields: seq<string>, fallback: string, x: string)
    ensures var r := CollectedHandles(metadata, fields, fallback);
      Distinct(r) &&
      (x in r <==>
        (exists f, i :: f in fields && 0 <= i < |FieldValues(metadata, f)| &&
           IsHandle(FieldValues(metadata, f)[i]) && FieldValues(metadata, f)[i].s == x) ||
        (fallback != [] && x == fallback)) &&
      (fallback != [] && fallback !in FieldHandles(metadata, fields) ==> r != [] && r[|r| - 1] == fallback)
  {
    var raw := FieldHandles(metadata, fields);
    var r := CollectedHandles(metadata, fields, fallback);
    assert x in Elems(r) <==> x in Elems(raw + Fallback(fallback));
    if x in FieldHandles(metadata, fields) {
      var f :| f in fields && x in ValueHandles(FieldValues(metadata, f));
    }
    if fallback != [] && fallback !in raw {
      var s := raw + [fallback];
      assert s[..|s| - 1] == raw;
      assert fallback !in Dedup(raw) by { assert fallback !in Elems(raw); }
    }
  }

  /** The handles of values[..n] grow by the n-th value when it is a handle. */
  lemma ValueHandlesStep(values: seq<Json>, n: nat)
    requires n < |values|
    ensures ValueHandles(values[..n + 1]) ==
      ValueHandles(values[..n]) + (if IsHandle(values[n]) then [values[n].s] else [])
  {
    assert values[..n + 1][..n] == values[..n];
  }

  lemma FieldHandlesStep(metadata: Json, fields: seq<string>, n: nat)
    requires n < |fields|
    ensures FieldHandles(metadata, fields[..n + 1]) ==
      FieldHandles(metadata, fields[..n]) + ValueHandles(FieldValues(metadata, fields[n]))
  {
    assert fields[..n + 1][..n] == fields[..n];
  }

  /** The inner loop of lonestar_collect_metadata_handles: the handles among one field's values. */
  method CollectValueHandles(values: seq<Json>) returns (found: seq<string>)
    ensures found == ValueHandles(values)
  {
    found := [];
    var i := 0;
    while i < |values|
      invariant 0 <= i <= |values|
      invariant found == ValueHandles(values[..i])
    {
      ValueHandlesStep(values, i);
      if values[i].JString? && values[i].s != [] && !StartsWith(values[i].s, "file:") {
        found := found + [values[i].s];
      }
      i := i + 1;
    }
    assert values[..i] == values;
  }

  /** lonestar_collect_metadata_handles */
  method CollectMetadataHandles(metadata: Json, fields: seq<string>, fallback: string) returns (handles: seq<string>)
    ensures handles == CollectedHandles(metadata, fields, fallback)
  {
    var raw: seq<string> := [];
    var k := 0;
    while k < |fields|
      invariant 0 <= k <= |fields|
      invariant raw == FieldHandles(metadata, fields[..k])
    {
      var found := CollectValueHandles(FieldValues(metadata, fields[k]));
      FieldHandlesStep(metadata, fields, k);
      raw := raw + found;
      k := k + 1;
    }
    assert fields[..k] == fields;
    if fallback != [] {
      raw := raw + [fallback];
    }
    assert raw == FieldHandles(metadata, fields) + Fallback(fallback);
    handles := Dedup(raw);
  }

  /** The fallback style handle: the block name with every '/' replaced by '-'. */
  function CssFallback(name: string): (r: string)
    ensures |r| == |name| && '/' !in r
    ensures forall i :: 0 <= i < |name| && name[i] != '/' ==> r[i] == name[i]
  {
    seq(|name|, i requires 0 <= i < |name| => if name[i] == '/' then '-' else name[i])
  }

  /** The fallback script handle: the text after the last '/', or the whole name. */
  function JsFallback(name: string): (r: string)
    ensures '/' !in r && EndsWith(name, r)
    ensures '/' !in name ==> r == name
    ensures '/' in name ==> |r| < |name| && name[|name| - |r| - 1] == '/'
  {
    match LastIndexOfChar(name, '/')
    case None => name
    case Some(i) => name[i + 1..]
  }

  // ---------------------------------------------------------------------
  // Source files and manifest lookups

  /** The candidate source files of a block for an asset type, in lookup order. */
  function SourceCandidates(directory: string, assetType: string): seq<string>
  {
    var slug := Basename(directory);
    if assetType == "js" then [directory + "/" + slug + ".js", directory + "/index.js"]
    else if assetType == "css" then [directory + "/" + slug + ".css", directory + "/style.css"]
    else []
  }

  /** The index of the first readable candidate. */
  function FirstReadable(candidates: seq<string>, readable: set<string>): (r: Option<nat>)
    ensures r.Some? ==> r.value < |candidates| && candidates[r.value] in readable
    ensures r.Some? ==> forall j :: 0 <= j < r.value ==> candidates[j] !in readable
    ensures r.None? ==> forall j :: 0 <= j < |candidates| ==> candidates[j] !in readable
  {
    if candidates == [] then None
    else if candidates[0] in readable then Some(0)
    else
      match FirstReadable(candidates[1..], readable)
      case None => None
      case Some(i) => Some(i + 1)
  }

  /** lonestar_get_block_source_file: readable is the set of files that exist and are readable. */
  function BlockSourceFile(directory: string, assetType: string, readable: set<string>): string
  {
    var candidates := SourceCandidates(directory, assetType);
    match FirstReadable(candidates, readable)
    case Some(i) => NormalizePath(candidates[i])
    case None => ""
  }

  /** The loop of lonestar_get_block_source_file. */
  method FindBlockSourceFile(directory: string, assetType: string, readable: set<string>) returns (path: string)
    ensures path == BlockSourceFile(directory, assetType, readable)
  {
    var candidates := SourceCandidates(directory, assetType);
    var i := 0;
    while i < |candidates|
      invariant 0 <= i <= |candidates|
      invariant forall j :: 0 <= j < i ==> candidates[j] !in readable
    {
      if candidates[i] in readable {
        ReadableFound(candidates, readable, i);
        return NormalizePath(candidates[i]);
      }
      i := i + 1;
    }
    path := "";
  }

  lemma ReadableFound(candidates: seq<string>, readable: set<string>, i: nat)
    requires i < |candidates| && candidates[i] in readable
    requires forall j :: 0 <= j < i ==> candidates[j] !in readable
    ensures FirstReadable(candidates, readable) == Some(i)
  {
  }

  /**
   * Scripts are looked up as <slug>.js before index.js, styles as
   * <slug>.css before style.css, where slug is the directory's basename;
   * the result is '' when neither is readable or the type is neither.
   */
  lemma BlockSourceFileOrder(directory: string, assetType: string, readable: set<string>)
    ensures var slug := Basename(directory);
      var first := directory + "/" + slug + (if assetType == "js" then ".js" else ".css");
      var second := directory + (if assetType == "js" then "/index.js" else "/style.css");
      BlockSourceFile(directory, assetType, readable) ==
        if assetType != "js" && assetType != "css" then ""
        else if first in readable then NormalizePath(first)
        else if second in readable then NormalizePath(second)
        else ""
  {
    var candidates := SourceCandidates(directory, assetType);
    if assetType == "js" || assetType == "css" {
      var slug := Basename(directory);
      var first := directory + "/" + slug + (if assetType == "js" then ".js" else ".css");
      var second := directory + (if assetType == "js" then "/index.js" else "/style.css");
      assert candidates == [first, second];
      if first in readable {
        ReadableFound(candidates, readable, 0);
      } else if second in readable {
        ReadableFound(candidates, readable, 1);
      } else {
        NoneReadable(candidates, readable);
      }
    }
  }

  lemma NoneReadable(candidates: seq<string>, readable: set<string>)
    requires forall j :: 0 <= j < |candidates| ==> candidates[j] !in readable
    ensures FirstReadable(candidates, readable) == None
  {
  }

  /** The 'file' of a manifest entry when it is a non-empty string, leading '/' removed. */
  function EntryFile(entry: Json): string
  {
    if !IsArray(entry) then ""
    else match Member(entry, "file")
      case Some(JString(f)) => if f == "" || f == "0" then "" else LTrimSlash(f)
      case _ => ""
  }

  /** lonestar_get_manifest_built_file */
  function ManifestBuiltFile(manifest: Json, sourceFile: string, sourceContext: string, contexts: Assoc<string>): string
  {
    if !IsArray(manifest) || sourceFile == [] then ""
    else
      var named := SanitizeKey(sourceContext);
      var context := if named != [] then named else SourceContextKey(sourceFile, contexts);
      var relative := ThemeRelativeAssetPath(sourceFile, context, contexts);
      if relative == [] then ""
      else match Member(manifest, relative)
        case Some(entry) => EntryFile(entry)
        case None => ""
  }

  /**
   * A built file is found only for a source with a theme-relative path that
   * is a key of the manifest, whose entry is an array with a string 'file'
   * other than '' and '0'; the result is that file without leading '/'.
   */
  lemma ManifestBuiltFileShape(manifest: Json, sourceFile: string, sourceContext: string, contexts: Assoc<string>)
    ensures var named := SanitizeKey(sourceContext);
      var context := if named != [] then named else SourceContextKey(sourceFile, contexts);
      var relative := ThemeRelativeAssetPath(sourceFile, context, contexts);
      var r := ManifestBuiltFile(manifest, sourceFile, sourceContext, contexts);
      r != "" ==>
        r[0] != '/' && IsArray(manifest) && relative != "" && manifest.JObject? && relative in Keys(manifest.members) &&
        var entry := Member(manifest, relative).value;
        IsArray(entry) && Member(entry, "file").Some? && Member(entry, "file").value.JString? &&
        var f := Member(entry, "file").value.s;
        f != "0" && EndsWith(f, r) && forall i :: 0 <= i < |f| - |r| ==> f[i] == '/'
  {
  }

  // ---------------------------------------------------------------------
  // The registration map

  datatype Registration = Registration(cssHandles: seq<string>, jsHandles: seq<string>, jsSource: string, cssSource: string)

  /**
   * One block of lonestar_build_block_asset_registration_map: blockJson is
   * the decoded block.json, None when it is missing, unreadable or invalid.
   */
  function BlockRegistration(directory: string, blockJson: Option<Json>, readable: set<string>): Option<Registration>
  {
    match blockJson
    case None => None
    case Some(metadata) =>
      match Member(metadata, "name")
      case None => None
      case Some(nameValue) =>
        if UsesFileAssets(metadata) || !nameValue.JString? || nameValue.s == [] then None
        else
          var name := nameValue.s;
          Some(Registration(
            CollectedHandles(metadata, StyleFields, CssFallback(name)),
            CollectedHandles(metadata, ScriptFields, JsFallback(name)),
            BlockSourceFile(directory, "js", readable),
            BlockSourceFile(directory, "css", readable)))
  }

  /** The registrations of the blocks, in order, skipping those without one. */
  function RegistrationMap(blocks: seq<(string, Option<Json>)>, readable: set<string>): seq<Registration>
  {
    if blocks == [] then []
    else
      var last := blocks[|blocks| - 1];
      RegistrationMap(blocks[..|blocks| - 1], readable) +
        match BlockRegistration(last.0, last.1, readable)
        case Some(reg) => [reg]
        case None => []
  }

  /**
   * A block is registered exactly when its block.json decodes, names it with
   * a non-empty string and uses no 'file:' assets; its style handles then
   * include the name with '/' turned to '-', its script handles the last
   * name segment when non-empty, and every handle is non-empty.
   */
  lemma BlockRegistrationHandles(directory: string, blockJson: Option<Json>, readable: set<string>)
    ensures var reg := BlockRegistration(directory, blockJson, readable);
      (reg.Some? <==> (blockJson.Some? && !UsesFileAssets(blockJson.value) &&
         Member(blockJson.value, "name").Some? && Member(blockJson.value, "name").value.JString? &&
         Member(blockJson.value, "name").value.s != [])) &&
      (reg.Some? ==>
        var name := Member(blockJson.value, "name").value.s;
        CssFallback(name) in reg.value.cssHandles &&
        (JsFallback(name) != [] ==> JsFallback(name) in reg.value.jsHandles) &&
        Distinct(reg.value.cssHandles) && Distinct(reg.value.jsHandles) &&
        (forall h :: h in reg.value.cssHandles + reg.value.jsHandles ==> h != []))
  {
    var reg := BlockRegistration(directory, blockJson, readable);
    if reg.Some? {
      var metadata := blockJson.value;
      var name := Member(metadata, "name").value.s;
      CollectedHandlesShape(metadata, StyleFields, CssFallback(name));
      CollectedHandlesShape(metadata, ScriptFields, JsFallback(name));
    }
  }

  /** Collected handles are distinct and non-empty, and a non-empty fallback is among them. */
  lemma CollectedHandlesShape(metadata: Json, fields: seq<string>, fallback: string)
    ensures var r := CollectedHandles(metadata, fields, fallback);
      Distinct(r) && (fallback != [] ==> fallback in r) && forall h :: h in r ==> h != []
  {
    var r := CollectedHandles(metadata, fields, fallback);
    CollectedHandlesMembers(metadata, fields, fallback, fallback);
    forall h | h in r ensures h != [] {
      CollectedHandlesMembers(metadata, fields, fallback, h);
    }
  }

  lemma RegistrationMapStep(blocks: seq<(string, Option<Json>)>, readable: set<string>, n: nat)
    requires n < |blocks|
    ensures RegistrationMap(blocks[..n + 1], readable) ==
      RegistrationMap(blocks[..n], readable) +
        match BlockRegistration(blocks[n].0, blocks[n].1, readable)
        case Some(reg) => [reg]
        case None => []
  {
    assert blocks[..n + 1][..n] == blocks[..n];
  }

  /** The body of the loop of lonestar_build_block_asset_registration_map. */
  method RegisterBlock(directory: string, blockJson: Option<Json>, readable: set<string>) returns (reg: Option<Registration>)
    ensures reg == BlockRegistration(directory, blockJson, readable)
  {
    if blockJson.None? || Member(blockJson.value, "name").None? {
      return None;
    }
    var metadata := blockJson.value;
    var usesFiles := BlockUsesFileAssets(metadata);
    if usesFiles {
      return None;
    }
    var nameValue := Member(metadata, "name").value;
    if !nameValue.JString? || nameValue.s == [] {
      return None;
    }
    var name := nameValue.s;
    var cssHandles := CollectMetadataHandles(metadata, StyleFields, CssFallback(name));
    var jsHandles := CollectMetadataHandles(metadata, ScriptFields, JsFallback(name));
    var jsSource := FindBlockSourceFile(directory, "js", readable);
    var cssSource := FindBlockSourceFile(directory, "css", readable);
    reg := Some(Registration(cssHandles, jsHandles, jsSource, cssSource));
  }

  /** lonestar_build_block_asset_registration_map, over the decoded block.json of each directory. */
  method BuildRegistrationMap(blocks: seq<(string, Option<Json>)>, readable: set<string>) returns (registrations: seq<Registration>)
    ensures registrations == RegistrationMap(blocks, readable)
  {
    registrations := [];
    var i := 0;
    while i < |blocks|
      invariant 0 <= i <= |blocks|
      invariant registrations == RegistrationMap(blocks[..i], readable)
    {
      registrations := AddRegistration(blocks, readable, i, registrations);
      i := i + 1;
    }
    TakeAll(blocks);
  }

  /** One iteration of BuildRegistrationMap: the registration of block i, when it has one. */
  method AddRegistration(blocks: seq<(string, Option<Json>)>, readable: set<string>, i: nat, registrations: seq<Registration>)
    returns (registrations': seq<Registration>)
    requires i < |blocks| && registrations == RegistrationMap(blocks[..i], readable)
    ensures registrations' == RegistrationMap(blocks[..i + 1], readable)
  {
    RegistrationMapStep(blocks, readable, i);
    var reg := RegisterBlock(blocks[i].0, blocks[i].1, readable);
    registrations' := registrations;
    if reg.Some? {
      registrations' := registrations + [reg.value];
    }
  }
}
