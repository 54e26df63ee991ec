// Module identity, metadata and catalog rules (inc/core/modules_catalog.php).
//
// A module lives in a source ("template" = parent theme, "stylesheet" =
// child theme) and is identified by the key source + "__" + slug.  Its
// catalog entry is built from a flat file `module.<slug>.php` or from a
// folder `<slug>/`; metadata comes from module.json, a docblock header, a
// README line or the docblock summary, first non-empty candidate wins.

module ModulesCatalog {
  import opened Strings
  import opened Order

  // ---------------------------------------------------------------------
  // Sources

  /** modules_normalize_source: sanitize_key, with '' read as 'template'. */
  function NormalizeSource(source: string): (r: string)
    ensures r != [] && IsKey(r)
  {
    var s := SanitizeKey(source);
    if s == [] then "template" else s
  }

  /** A normalised source normalises to itself. */
  lemma NormalizeSourceIdempotent(source: string)
    ensures NormalizeSource(NormalizeSource(source)) == NormalizeSource(source)
  {
    SanitizeKeyOfKey(NormalizeSource(source));
  }

  /** modules_get_source_priority */
  function SourcePriority(source: string): (p: int)
    ensures p == 20 || p == 10 || p == 0
  {
    var s := NormalizeSource(source);
    if s == "stylesheet" then 20 else if s == "template" then 10 else 0
  }

  /** A non-empty key is its own normalised source. */
  lemma NormalizeSourceOfKey(s: string)
    requires s != [] && IsKey(s)
    ensures NormalizeSource(s) == s
  {
    SanitizeKeyOfKey(s);
  }

  lemma NormalizeTemplate()
    ensures NormalizeSource("template") == "template"
  {
    NormalizeSourceOfKey("template");
  }

  lemma NormalizeStylesheet()
    ensures NormalizeSource("stylesheet") == "stylesheet"
  {
    NormalizeSourceOfKey("stylesheet");
  }

  /** The child theme outranks the parent theme, which outranks any other source; '' counts as the parent. */
  lemma ChildOutranksParent(other: string)
    requires NormalizeSource(other) != "stylesheet" && NormalizeSource(other) != "template"
    ensures SourcePriority("stylesheet") == 20 && SourcePriority("template") == 10 && SourcePriority(other) == 0
    ensures SourcePriority("") == SourcePriority("template")
  {
    NormalizeTemplate();
    NormalizeStylesheet();
  }

  // ---------------------------------------------------------------------
  // Keys

  /** source + '__' + slug is a key when both parts are. */
  lemma JoinIsKey(src: string, sl: string)
    requires IsKey(src) && IsKey(sl)
    ensures IsKey(src + "__" + sl)
  {
    var k := src + "__" + sl;
    forall i | 0 <= i < |k| ensures IsKeyChar(k[i]) {
      if i < |src| { assert k[i] == src[i]; }
      else if i >= |src| + 2 { assert k[i] == sl[i - |src| - 2]; }
    }
  }

  /**
   * modules_build_module_key: the normalised source and the sanitised slug
   * joined by '__', or '' for an empty slug.  The source sanitises the join
   * once more; BuildKeySanitized shows that changes nothing.
   */
  function BuildKey(source: string, slug: string): (k: string)
    ensures IsKey(k)
    ensures k == [] <==> SanitizeKey(slug) == []
  {
    var sl := SanitizeKey(slug);
    if sl == [] then []
    else
      JoinIsKey(NormalizeSource(source), sl);
      NormalizeSource(source) + "__" + sl
  }

  /** The key is exactly sanitize_key(source . '__' . slug), as the source computes it. */
  lemma BuildKeySanitized(source: string, slug: string)
    requires SanitizeKey(slug) != []
    ensures BuildKey(source, slug) == SanitizeKey(NormalizeSource(source) + "__" + SanitizeKey(slug))
  {
    JoinIsKey(NormalizeSource(source), SanitizeKey(slug));
    SanitizeKeyOfKey(NormalizeSource(source) + "__" + SanitizeKey(slug));
  }

  datatype KeyParts = KeyParts(source: string, slug: string)

  /** modules_split_module_key: split at the first '__'; a key without one is a legacy slug of the parent theme. */
  function SplitKey(key: string): (r: KeyParts)
    ensures IsKey(r.source) && IsKey(r.slug)
    ensures r.source == [] <==> SanitizeKey(key) == []
  {
    var k := SanitizeKey(key);
    if k == [] then KeyParts("", "")
    else match IndexOf(k, "__")
      case Some(i) => KeyParts(NormalizeSource(k[..i]), SanitizeKey(k[i + 2..]))
      case None => KeyParts("template", k)
  }

  /** In src + '__' + sl the first '__' is the separator, when src has none and does not end in '_'. */
  lemma FirstSeparator(src: string, sl: string)
    requires !Contains(src, "__") && !EndsWith(src, "_")
    ensures IndexOf(src + "__" + sl, "__") == Some(|src|)
  {
    var k := src + "__" + sl;
    assert OccursAt(k, "__", |src|) by { assert k[|src|..|src| + 2] == "__"; }
    forall j | 0 <= j < |src| ensures !OccursAt(k, "__", j) {
      if j < |src| - 1 {
        assert k[j..j + 2] == src[j..j + 2];
        assert !OccursAt(src, "__", j);
      } else {
        assert k[j] == src[|src| - 1];
        assert src[|src| - 1..] == [src[|src| - 1]];
      }
    }
  }

  /** Splitting a key at a given first separator gives its two halves. */
  lemma SplitAt(src: string, sl: string)
    requires IsKey(src) && IsKey(sl) && src != []
    requires IndexOf(src + "__" + sl, "__") == Some(|src|)
    ensures SplitKey(src + "__" + sl) == KeyParts(src, sl)
  {
    var k := src + "__" + sl;
    JoinIsKey(src, sl);
    SanitizeKeyOfKey(k);
    assert k[..|src|] == src;
    assert k[|src| + 2..] == sl;
    SanitizeKeyOfKey(src);
    SanitizeKeyOfKey(sl);
  }

  /**
   * Splitting a built key gives back the normalised source and slug, when the
   * source holds no '__' and does not end in '_' (a trailing '_' would merge
   * with the separator: see SplitBuildTrailingUnderscore).
   */
  lemma SplitBuild(source: string, slug: string)
    requires SanitizeKey(slug) != []
    requires !Contains(NormalizeSource(source), "__") && !EndsWith(NormalizeSource(source), "_")
    ensures SplitKey(BuildKey(source, slug)) == KeyParts(NormalizeSource(source), SanitizeKey(slug))
  {
    FirstSeparator(NormalizeSource(source), SanitizeKey(slug));
    SplitAt(NormalizeSource(source), SanitizeKey(slug));
  }

  /** A string without '_' holds no '__'. */
  lemma NoDoubleUnderscore(s: string)
    ensures '_' !in s ==> !Contains(s, "__")
  {
    if Contains(s, "__") {
      var i := IndexOf(s, "__").value;
      assert s[i..i + 2] == "__";
      assert s[i] == '_';
    }
  }

  lemma TemplateSourceSplits()
    ensures NormalizeSource("template") == "template"
    ensures !Contains("template", "__") && !EndsWith("template", "_")
  {
    NormalizeTemplate();
    NoDoubleUnderscore("template");
  }

  lemma StylesheetSourceSplits()
    ensures NormalizeSource("stylesheet") == "stylesheet"
    ensures !Contains("stylesheet", "__") && !EndsWith("stylesheet", "_")
  {
    NormalizeStylesheet();
    NoDoubleUnderscore("stylesheet");
  }

  /** The two sources the theme scans satisfy the side condition of SplitBuild. */
  lemma ThemeSourcesSplit(slug: string)
    requires SanitizeKey(slug) != []
    ensures SplitKey(BuildKey("template", slug)) == KeyParts("template", SanitizeKey(slug))
    ensures SplitKey(BuildKey("stylesheet", slug)) == KeyParts("stylesheet", SanitizeKey(slug))
  {
    TemplateSourceSplits();
    StylesheetSourceSplits();
    SplitBuild("template", slug);
    SplitBuild("stylesheet", slug);
  }

  /** A source ending in '_' is split at the wrong place: source 'a_' and slug 'b' come back as 'a' and '_b'. */
  lemma SplitBuildTrailingUnderscore(source: string, slug: string, key: string)
    requires source == "a_" && slug == "b" && key == "a___b"
    ensures BuildKey(source, slug) == key
    ensures SplitKey(key) == KeyParts("a", "_b")
  {
    BuildTrailingUnderscore(source, slug, key);
    SplitTrailingUnderscore(key, "a", "_b");
  }

  lemma BuildTrailingUnderscore(source: string, slug: string, key: string)
    requires source == "a_" && slug == "b" && key == "a___b"
    ensures BuildKey(source, slug) == key
  {
    SanitizeKeyOfKey(source);
    SanitizeKeyOfKey(slug);
    assert source + "__" + slug == key;
  }

  lemma SplitTrailingUnderscore(key: string, src: string, sl: string)
    requires key == "a___b" && src == "a" && sl == "_b"
    ensures SplitKey(key) == KeyParts(src, sl)
  {
    assert key == src + "__" + sl;
    FirstSeparator(src, sl);
    SplitAt(src, sl);
  }

  /** Joining the parts of a key that has a non-empty source and slug around its first '__' gives the key back. */
  lemma BuildSplit(key: string)
    requires IsKey(key)
    requires IndexOf(key, "__").Some? && 0 < IndexOf(key, "__").value < |key| - 2
    ensures BuildKey(SplitKey(key).source, SplitKey(key).slug) == key
  {
    var i := IndexOf(key, "__").value;
    var src := key[..i];
    var sl := key[i + 2..];
    SplitAroundOccurrence(key, "__", i);
    KeySlice(key, 0, i);
    KeySlice(key, i + 2, |key|);
    SplitAt(src, sl);
    SanitizeKeyOfKey(src);
    SanitizeKeyOfKey(sl);
  }

  lemma SplitAroundOccurrence<T>(s: seq<T>, p: seq<T>, i: nat)
    requires i + |p| <= |s| && s[i..i + |p|] == p
    ensures s == s[..i] + p + s[i + |p|..]
  {
  }

  lemma KeySlice(s: string, lo: nat, hi: nat)
    requires IsKey(s) && lo <= hi <= |s|
    ensures IsKey(s[lo..hi])
  {
    assert forall i :: 0 <= i < hi - lo ==> s[lo..hi][i] == s[lo + i];
  }

  /** A key without '__' is a legacy slug-only key of the parent theme. */
  lemma SplitLegacy(key: string)
    requires SanitizeKey(key) != [] && !Contains(SanitizeKey(key), "__")
    ensures SplitKey(key) == KeyParts("template", SanitizeKey(key))
  {
  }

  // ---------------------------------------------------------------------
  // Slugs and labels

  /** pathinfo($path, PATHINFO_FILENAME): the basename without its last extension. */
  function FileName(path: string): string
  {
    var b := Basename(path);
    match LastIndexOfChar(b, '.')
    case None => b
    case Some(i) => b[..i]
  }

  /** modules_module_slug_from_entry_file */
  function SlugFromEntryFile(path: string): (slug: string)
    ensures IsKey(slug)
    ensures slug != [] ==> StartsWith(FileName(path), "module.")
  {
    var f := FileName(path);
    if StartsWith(f, "module.") then SanitizeKey(f[7..]) else []
  }

  /** The file name of stem + '.php' is stem. */
  lemma FileNameOfPhp(dir: string, stem: string)
    requires stem != [] && '/' !in stem
    ensures FileName(dir + "/" + stem + ".php") == stem
  {
    var name := stem + ".php";
    AppendAssoc(dir + "/", stem, ".php");
    PhpNameParts(stem, ".php");
    BasenameOfChild(dir, name);
    LastIndexOfCharBefore(stem, '.', "php");
    PrefixOfAppend(stem, ".php");
  }

  lemma PrefixOfAppend<T>(a: seq<T>, b: seq<T>)
    ensures (a + b)[..|a|] == a
  {
  }

  /** stem + '.php' is stem, a '.', then 'php', with no '/' when the stem has none. */
  lemma PhpNameParts(stem: string, ext: string)
    requires ext == ".php" && '/' !in stem
    ensures stem + ext == stem + ['.'] + "php"
    ensures '/' !in stem + ext
  {
    assert ext == ['.'] + "php";
    assert forall i :: 0 <= i < |stem + ext| ==> (stem + ext)[i] in stem || (stem + ext)[i] in ext;
  }

  /** The entry file a folder module is expected to have yields that module's slug. */
  lemma SlugOfEntryFileName(dir: string, slug: string)
    requires IsKey(slug) && slug != []
    ensures SlugFromEntryFile(dir + "/module." + slug + ".php") == slug
  {
    var stem := "module." + slug;
    assert dir + "/module." + slug + ".php" == dir + "/" + stem + ".php";
    assert '/' !in stem by {
      forall i | 0 <= i < |stem| ensures stem[i] != '/' {
        if 7 <= i { assert stem[i] == slug[i - 7]; assert IsKeyChar(slug[i - 7]); }
      }
    }
    FileNameOfPhp(dir, stem);
    assert stem[..7] == "module." && stem[7..] == slug;
    SanitizeKeyOfKey(slug);
  }

  predicate IsWordDelimiter(c: char) { c == ' ' || c == '\t' || c == '\r' || c == '\n' || c == '\U{C}' || c == '\U{B}' }

  /** str_replace(['-', '_'], ' ', s) */
  function SpacedSlug(s: string): string
  {
    seq(|s|, i requires 0 <= i < |s| => if s[i] == '-' || s[i] == '_' then ' ' else s[i])
  }

  /** ucwords */
  function UcWords(s: string): string
  {
    seq(|s|, i requires 0 <= i < |s| => if i == 0 || IsWordDelimiter(s[i - 1]) then UpperChar(s[i]) else s[i])
  }

  /** modules_module_label_from_slug */
  function LabelFromSlug(slug: string): (r: string)
    ensures r == [] <==> SanitizeKey(slug) == []
  {
    var k := SanitizeKey(slug);
    if k == [] then [] else UcWords(SpacedSlug(k))
  }

  /** Lower-casing a label gives back the sanitised slug with '-' and '_' read as spaces. */
  lemma LabelFromSlugWords(slug: string)
    ensures |LabelFromSlug(slug)| == |SanitizeKey(slug)|
    ensures Lower(LabelFromSlug(slug)) == SpacedSlug(SanitizeKey(slug))
  {
    var k := SanitizeKey(slug);
    var sp := SpacedSlug(k);
    var t := LabelFromSlug(slug);
    if k != [] {
      forall i | 0 <= i < |sp| ensures Lower(t)[i] == sp[i] {
        assert IsKeyChar(k[i]);
        UpperCharCases(sp[i]);
      }
    }
  }

  /** No label character is '-' or '_', and the first letter of every word is capitalised. */
  lemma LabelCharAt(slug: string, i: nat)
    requires i < |LabelFromSlug(slug)|
    ensures LabelFromSlug(slug)[i] != '-' && LabelFromSlug(slug)[i] != '_'
    ensures (i == 0 || LabelFromSlug(slug)[i - 1] == ' ') ==> !IsLower(LabelFromSlug(slug)[i])
  {
    var sp := SpacedSlug(SanitizeKey(slug));
    UpperCharCases(sp[i]);
    if i > 0 { UpperCharCases(sp[i - 1]); }
  }

  // ---------------------------------------------------------------------
  // Metadata: first non-empty candidate

  /** sanitize_text_field(trim($candidate)) */
  function Clean(candidate: string): string { SanitizeText(Trim(candidate)) }

  /** Each candidate trimmed and sanitised. */
  function Cleaned(candidates: seq<string>): (r: seq<string>)
    ensures |r| == |candidates|
  {
    seq(|candidates|, i requires 0 <= i < |candidates| => Clean(candidates[i]))
  }

  /** The first non-empty value, or the fallback. */
  function FirstNonEmpty(values: seq<string>, fallback: string): (r: string)
    ensures r == fallback || (r != [] && r in values)
  {
    if values == [] then fallback
    else if values[0] != [] then values[0]
    else FirstNonEmpty(values[1..], fallback)
  }

  /** The value chosen is the first non-empty one. */
  lemma {:induction false} FirstNonEmptyAt(values: seq<string>, fallback: string, i: nat)
    requires i < |values| && values[i] != []
    requires forall j :: 0 <= j < i ==> values[j] == []
    ensures FirstNonEmpty(values, fallback) == values[i]
  {
    if i > 0 {
      assert values[1..][i - 1] == values[i];
      FirstNonEmptyAt(values[1..], fallback, i - 1);
    }
  }

  /** When every value is empty the fallback is chosen. */
  lemma {:induction false} FirstNonEmptyFallback(values: seq<string>, fallback: string)
    requires forall j :: 0 <= j < |values| ==> values[j] == []
    ensures FirstNonEmpty(values, fallback) == fallback
  {
    if values != [] {
      assert forall j :: 0 <= j < |values| - 1 ==> values[1..][j] == values[j + 1];
      FirstNonEmptyFallback(values[1..], fallback);
    }
  }

  /** One candidate loop of modules_resolve_module_metadata: the first candidate that is not blank once cleaned. */
  method PickFirstCandidate(candidates: seq<string>, fallback: string) returns (r: string)
    ensures r == FirstNonEmpty(Cleaned(candidates), fallback)
  {
    ghost var cleaned := Cleaned(candidates);
    r := fallback;
    var i := 0;
    while i < |candidates|
      invariant 0 <= i <= |candidates|
      invariant FirstNonEmpty(cleaned[i..], fallback) == FirstNonEmpty(cleaned, fallback)
    {
      var c := Clean(candidates[i]);
      FirstNonEmptyStep(cleaned, fallback, i);
      if c != [] {
        r := c;
        return;
      }
      i := i + 1;
    }
  }

  lemma FirstNonEmptyStep(values: seq<string>, fallback: string, i: nat)
    requires i < |values|
    ensures FirstNonEmpty(values[i..], fallback) == if values[i] != [] then values[i] else FirstNonEmpty(values[i + 1..], fallback)
  {
    assert values[i..][0] == values[i];
    assert values[i..][1..] == values[i + 1..];
  }

  function Field(m: map<string, string>, k: string): string { if k in m then m[k] else "" }

  datatype ModuleMeta = ModuleMeta(title: string, description: string, version: string, author: string)

  /** The title candidates, in order: module.json name and title, docblock Module and Name headers. */
  function TitleCandidates(json: map<string, string>, doc: map<string, string>): seq<string>
  {
    [Field(json, "name"), Field(json, "title"), Field(doc, "module"), Field(doc, "name")]
  }

  /** The description candidates, in order: module.json, docblock header, README line, docblock summary. */
  function DescriptionCandidates(json: map<string, string>, doc: map<string, string>, readme: string, summary: string): seq<string>
  {
    [Field(json, "description"), Field(doc, "description"), readme, summary]
  }

  function VersionCandidates(json: map<string, string>, doc: map<string, string>): seq<string>
  {
    [Field(json, "version"), Field(doc, "version")]
  }

  function AuthorCandidates(json: map<string, string>, doc: map<string, string>): seq<string>
  {
    [Field(json, "author"), Field(doc, "author")]
  }

  /** A module without a description is described by its title. */
  function DescriptionOr(description: string, title: string): (r: string)
    ensures r != []
    ensures description != [] ==> r == description
  {
    if description == [] then "Module: " + title else description
  }

  /**
   * modules_resolve_module_metadata over the decoded module.json string
   * fields, the docblock headers, the README description and the docblock
   * summary of one module.
   */
  method ResolveMetadata(slug: string, json: map<string, string>, doc: map<string, string>, readme: string, summary: string)
    returns (m: ModuleMeta)
    ensures m.title == FirstNonEmpty(Cleaned(TitleCandidates(json, doc)), LabelFromSlug(slug))
    ensures m.description == DescriptionOr(FirstNonEmpty(Cleaned(DescriptionCandidates(json, doc, readme, summary)), ""), m.title)
    ensures m.version == FirstNonEmpty(Cleaned(VersionCandidates(json, doc)), "")
    ensures m.author == FirstNonEmpty(Cleaned(AuthorCandidates(json, doc)), "")
  {
    var title := PickFirstCandidate(TitleCandidates(json, doc), LabelFromSlug(slug));
    var description := PickFirstCandidate(DescriptionCandidates(json, doc, readme, summary), "");
    description := DescriptionOr(description, title);
    var version := PickFirstCandidate(VersionCandidates(json, doc), "");
    var author := PickFirstCandidate(AuthorCandidates(json, doc), "");
    m := ModuleMeta(title, description, version, author);
  }

  // ---------------------------------------------------------------------
  // Docblock and README parsing

  // The text between the first slash-star-star and the next star-slash
  // (the non-greedy match of the docblock regex), split into lines.
  function DocblockLines(contents: Option<string>): seq<string>
  {
    match contents
    case None => []
    case Some(s) =>
      match IndexOf(s, "/**")
      case None => []
      case Some(i) =>
        var after := s[i + 3..];
        match IndexOf(after, "*/")
        case None => []
        case Some(j) => if j == 0 then [] else Lines(after[..j])
  }

  /** trim, drop a leading '*' and one following whitespace character, trim again. */
  function CleanDocLine(line: string): string
  {
    var t := Trim(line);
    var u := if t != [] && t[0] == '*' then (if |t| > 1 && IsSpace(t[1]) then t[2..] else t[1..]) else t;
    Trim(u)
  }

  predicate IsHeaderNameChar(c: char) { IsAlnum(c) || c == ' ' || c == '_' || c == '-' }

  /**
   * The regex /^([A-Za-z][A-Za-z0-9 _-]*?)\s*:\s*(.+)$/ on one cleaned line:
   * the name is the text before the first ':' without trailing whitespace,
   * the value the text after it without leading whitespace (or its last
   * character when that is all whitespace).
   */
  function ParseHeader(line: string): Option<(string, string)>
  {
    match IndexOfChar(line, ':')
    case None => None
    case Some(c) =>
      var name := TrimRightOf(line[..c], SpaceChars);
      var post := line[c + 1..];
      if name == [] || !IsAlpha(name[0]) || post == [] then None
      else if exists i :: 0 <= i < |name| && !IsHeaderNameChar(name[i]) then None
      else
        var v := TrimLeftOf(post, SpaceChars);
        Some((name, if v != [] then v else post[|post| - 1..]))
  }

  /** The accepted header names: module and name become 'module'; description, version and author are kept; others give ''. */
  function NormalizeHeaderKey(key: string): (r: string)
    ensures r == "" || r == "module" || r == "description" || r == "version" || r == "author"
    ensures r != "" && r != "module" ==> r == key
  {
    if key == "module" || key == "name" then "module"
    else if key == "description" || key == "version" || key == "author" then key
    else ""
  }

  /** The (key, value) a docblock line contributes, if any. */
  function HeaderEntry(line: string): (r: Option<(string, string)>)
    ensures r.Some? ==> r.value.1 != [] && (r.value.0 == "module" || r.value.0 == "description" || r.value.0 == "version" || r.value.0 == "author")
  {
    var l := CleanDocLine(line);
    if l == [] then None
    else match ParseHeader(l)
      case None => None
      case Some(h) =>
        var key := Lower(Trim(h.0));
        var value := SanitizeText(Trim(h.1));
        if key == [] || value == [] then None
        else
          var nk := NormalizeHeaderKey(key);
          if nk == "" then None else Some((nk, value))
  }

  /** The header entry of every docblock line. */
  function HeaderEntries(lines: seq<string>): (r: seq<Option<(string, string)>>)
    ensures |r| == |lines|
  {
    seq(|lines|, i requires 0 <= i < |lines| => HeaderEntry(lines[i]))
  }

  /** The headers collected from a list of entries, a later entry overwriting an earlier one with the same key. */
  function MetaOf(entries: seq<Option<(string, string)>>): map<string, string>
  {
    if entries == [] then map[]
    else AddEntry(MetaOf(entries[..|entries| - 1]), entries[|entries| - 1])
  }

  function AddEntry(m: map<string, string>, entry: Option<(string, string)>): map<string, string>
  {
    match entry
    case None => m
    case Some(e) => m[e.0 := e.1]
  }

  lemma MetaOfPrefix(entries: seq<Option<(string, string)>>, i: nat)
    requires i < |entries|
    ensures MetaOf(entries[..i + 1]) == AddEntry(MetaOf(entries[..i]), entries[i])
  {
    assert entries[..i + 1][..i] == entries[..i];
  }

  predicate IsMetaKey(k: string) { k == "module" || k == "description" || k == "version" || k == "author" }

  /** The docblock headers of a file: only the four metadata keys appear, each with a non-empty value. */
  lemma DocMetaKeys(lines: seq<string>)
    ensures forall k :: k in MetaOf(HeaderEntries(lines)) ==> MetaOf(HeaderEntries(lines))[k] != [] && IsMetaKey(k)
  {
    MetaOfKeys(HeaderEntries(lines));
  }

  lemma {:induction false} MetaOfKeys(entries: seq<Option<(string, string)>>)
    requires forall i :: 0 <= i < |entries| && entries[i].Some? ==> entries[i].value.1 != [] && IsMetaKey(entries[i].value.0)
    ensures forall k :: k in MetaOf(entries) ==> MetaOf(entries)[k] != [] && IsMetaKey(k)
  {
    if entries != [] { MetaOfKeys(entries[..|entries| - 1]); }
  }

  /** A later header overwrites an earlier one: the value kept is that of the last entry giving the key. */
  lemma {:induction false} MetaOfLast(entries: seq<Option<(string, string)>>, i: nat)
    requires i < |entries| && entries[i].Some?
    requires forall j :: i < j < |entries| && entries[j].Some? ==> entries[j].value.0 != entries[i].value.0
    ensures entries[i].value.0 in MetaOf(entries)
    ensures MetaOf(entries)[entries[i].value.0] == entries[i].value.1
  {
    if i < |entries| - 1 {
      var p := entries[..|entries| - 1];
      assert forall j :: i < j < |p| ==> p[j] == entries[j];
      MetaOfLast(p, i);
    }
  }

  /** A key no entry gives is absent. */
  lemma {:induction false} MetaOfAbsent(entries: seq<Option<(string, string)>>, k: string)
    requires forall j :: 0 <= j < |entries| && entries[j].Some? ==> entries[j].value.0 != k
    ensures k !in MetaOf(entries)
  {
    if entries != [] { MetaOfAbsent(entries[..|entries| - 1], k); }
  }

  /** modules_extract_module_docblock_metadata; contents is None when the file is missing or unreadable. */
  method ExtractDocblockMetadata(contents: Option<string>) returns (meta: map<string, string>)
    ensures meta == MetaOf(HeaderEntries(DocblockLines(contents)))
  {
    meta := CollectHeaders(DocblockLines(contents));
  }

  /** The header loop of modules_extract_module_docblock_metadata. */
  method CollectHeaders(lines: seq<string>) returns (meta: map<string, string>)
    ensures meta == MetaOf(HeaderEntries(lines))
  {
    ghost var entries := HeaderEntries(lines);
    meta := map[];
    var i := 0;
    while i < |lines|
      invariant 0 <= i <= |lines|
      invariant meta == MetaOf(entries[..i])
    {
      MetaOfPrefix(entries, i);
      var e := HeaderEntry(lines[i]);
      assert e == entries[i];
      if e.Some? {
        meta := meta[e.value.0 := e.value.1];
      }
      i := i + 1;
    }
    assert entries[..|lines|] == entries;
  }

  predicate ReadmeLineSkipped(line: string)
  {
    var t := Trim(line);
    t == [] || StartsWith(t, "#") || StartsWith(t, "<!--")
  }

  function FirstReadmeLine(lines: seq<string>): string
  {
    if lines == [] then ""
    else if ReadmeLineSkipped(lines[0]) then FirstReadmeLine(lines[1..])
    else SanitizeText(Trim(lines[0]))
  }

  /** sanitize_text_field keeps a trimmed non-empty line non-empty. */
  lemma SanitizeTextOfTrimmed(s: string)
    requires Trim(s) != []
    ensures SanitizeText(Trim(s)) != []
  {
    var t := Trim(s);
    assert !IsBlank(t[0]);
    var c := CollapseBlanks(t, false);
    assert c[0] == t[0];
    assert !IsTrimChar(c[0]);
  }

  /** The README description is empty exactly when every line is skipped. */
  lemma FirstReadmeLineChoice(lines: seq<string>)
    ensures FirstReadmeLine(lines) == [] <==> forall i :: 0 <= i < |lines| ==> ReadmeLineSkipped(lines[i])
  {
    forall i | 0 <= i < |lines| && FirstReadmeLine(lines) == [] ensures ReadmeLineSkipped(lines[i]) {
      ReadmeEmptySkips(lines, i);
    }
    if forall i :: 0 <= i < |lines| ==> ReadmeLineSkipped(lines[i]) {
      ReadmeAllSkipped(lines);
    }
  }

  lemma {:induction false} ReadmeEmptySkips(lines: seq<string>, i: nat)
    requires i < |lines| && FirstReadmeLine(lines) == []
    ensures ReadmeLineSkipped(lines[i])
  {
    if !ReadmeLineSkipped(lines[0]) {
      SanitizeTextOfTrimmed(lines[0]);
    } else if i > 0 {
      ReadmeSkipStep(lines);
      ReadmeEmptySkips(lines[1..], i - 1);
      assert lines[1..][i - 1] == lines[i];
    }
  }

  lemma ReadmeSkipStep(lines: seq<string>)
    requires lines != [] && ReadmeLineSkipped(lines[0])
    ensures FirstReadmeLine(lines) == FirstReadmeLine(lines[1..])
  {
  }

  lemma {:induction false} ReadmeAllSkipped(lines: seq<string>)
    requires forall i :: 0 <= i < |lines| ==> ReadmeLineSkipped(lines[i])
    ensures FirstReadmeLine(lines) == []
  {
    if lines != [] {
      assert ReadmeLineSkipped(lines[0]);
      forall i | 0 <= i < |lines[1..]| ensures ReadmeLineSkipped(lines[1..][i]) {
        assert lines[1..][i] == lines[i + 1];
      }
      ReadmeAllSkipped(lines[1..]);
    }
  }

  /** Otherwise it is the first line kept. */
  lemma {:induction false} FirstReadmeLineAt(lines: seq<string>, i: nat)
    requires i < |lines| && !ReadmeLineSkipped(lines[i])
    requires forall j :: 0 <= j < i ==> ReadmeLineSkipped(lines[j])
    ensures FirstReadmeLine(lines) == SanitizeText(Trim(lines[i]))
  {
    if i > 0 {
      assert ReadmeLineSkipped(lines[0]);
      forall j | 0 <= j < i - 1 ensures ReadmeLineSkipped(lines[1..][j]) {
        assert lines[1..][j] == lines[j + 1];
      }
      assert lines[1..][i - 1] == lines[i];
      FirstReadmeLineAt(lines[1..], i - 1);
    }
  }

  /** modules_extract_module_readme_description; contents is None when the file is missing or unreadable. */
  method ExtractReadmeDescription(contents: Option<string>) returns (r: string)
    ensures contents.None? ==> r == ""
    ensures contents.Some? ==> r == if Trim(contents.value) == [] then "" else FirstReadmeLine(Lines(contents.value))
  {
    if contents.None? || Trim(contents.value) == [] {
      return "";
    }
    var lines := Lines(contents.value);
    var i := 0;
    while i < |lines|
      invariant 0 <= i <= |lines|
      invariant FirstReadmeLine(lines[i..]) == FirstReadmeLine(lines)
    {
      var line := Trim(lines[i]);
      if line != [] && !StartsWith(line, "#") && !StartsWith(line, "<!--") {
        return SanitizeText(line);
      }
      assert lines[i..][1..] == lines[i + 1..];
      i := i + 1;
    }
    return "";
  }

  predicate SummaryLineSkipped(line: string)
  {
    var l := CleanDocLine(line);
    l == [] || StartsWith(l, "@")
  }

  function FirstSummaryLine(lines: seq<string>): string
  {
    if lines == [] then ""
    else if SummaryLineSkipped(lines[0]) then FirstSummaryLine(lines[1..])
    else SanitizeText(CleanDocLine(lines[0]))
  }

  /** The summary is the first docblock line that is neither blank nor a tag, or '' when there is none. */
  lemma FirstSummaryLineChoice(lines: seq<string>)
    ensures FirstSummaryLine(lines) == [] <==> forall i :: 0 <= i < |lines| ==> SummaryLineSkipped(lines[i])
  {
    forall i | 0 <= i < |lines| && FirstSummaryLine(lines) == [] ensures SummaryLineSkipped(lines[i]) {
      SummaryEmptySkips(lines, i);
    }
    if forall i :: 0 <= i < |lines| ==> SummaryLineSkipped(lines[i]) {
      SummaryAllSkipped(lines);
    }
  }

  lemma {:induction false} SummaryEmptySkips(lines: seq<string>, i: nat)
    requires i < |lines| && FirstSummaryLine(lines) == []
    ensures SummaryLineSkipped(lines[i])
  {
    if !SummaryLineSkipped(lines[0]) {
      SummaryKeptNonEmpty(lines[0]);
    } else if i > 0 {
      SummarySkipStep(lines);
      SummaryEmptySkips(lines[1..], i - 1);
      assert lines[1..][i - 1] == lines[i];
    }
  }

  lemma SummarySkipStep(lines: seq<string>)
    requires lines != [] && SummaryLineSkipped(lines[0])
    ensures FirstSummaryLine(lines) == FirstSummaryLine(lines[1..])
  {
  }

  /** A docblock line that is not skipped gives a non-empty summary. */
  lemma SummaryKeptNonEmpty(line: string)
    requires !SummaryLineSkipped(line)
    ensures SanitizeText(CleanDocLine(line)) != []
  {
    var l := CleanDocLine(line);
    TrimOfTrimmed(l);
    SanitizeTextOfTrimmed(l);
  }

  lemma {:induction false} SummaryAllSkipped(lines: seq<string>)
    requires forall i :: 0 <= i < |lines| ==> SummaryLineSkipped(lines[i])
    ensures FirstSummaryLine(lines) == []
  {
    if lines != [] {
      assert SummaryLineSkipped(lines[0]);
      forall i | 0 <= i < |lines[1..]| ensures SummaryLineSkipped(lines[1..][i]) {
        assert lines[1..][i] == lines[i + 1];
      }
      SummaryAllSkipped(lines[1..]);
    }
  }

  /** modules_extract_module_docblock_summary */
  method ExtractDocblockSummary(contents: Option<string>) returns (r: string)
    ensures r == FirstSummaryLine(DocblockLines(contents))
  {
    var lines := DocblockLines(contents);
    var i := 0;
    while i < |lines|
      invariant 0 <= i <= |lines|
      invariant FirstSummaryLine(lines[i..]) == FirstSummaryLine(lines)
    {
      var line := CleanDocLine(lines[i]);
      if line != [] && !StartsWith(line, "@") {
        return SanitizeText(line);
      }
      assert lines[i..][1..] == lines[i + 1..];
      i := i + 1;
    }
    return "";
  }

  // ---------------------------------------------------------------------
  // Admin page links

  datatype AdminLink = AdminLink(text: string, url: string)

  /** add_query_arg('page', $page, admin_url('admin.php')) */
  function AdminPageUrl(adminPhpUrl: string, page: string): string
  {
    adminPhpUrl + (if '?' in adminPhpUrl then "&" else "?") + "page=" + page
  }

  function LinkLabel(text: string): string
  {
    var l := SanitizeText(text);
    if l == [] then "Settings" else l
  }

  /**
   * modules_add_module_admin_page_link: $links and $seen_pages are passed by
   * reference in the source and are in/out parameters here; escUrl stands for
   * esc_url_raw.
   */
  method AddAdminPageLink(links: seq<AdminLink>, seen: set<string>, pageSlug: string, text: string,
                          adminPhpUrl: string, escUrl: string -> string)
    returns (links': seq<AdminLink>, seen': set<string>)
    ensures var slug := SanitizeKey(pageSlug);
            var url := escUrl(AdminPageUrl(adminPhpUrl, slug));
            if slug == [] || slug in seen || url == [] then links' == links && seen' == seen
            else links' == links + [AdminLink(LinkLabel(text), url)] && seen' == seen + {slug}
    ensures |links'| - |links| == |seen'| - |seen| <= 1
  {
    var slug := SanitizeKey(pageSlug);
    links', seen' := links, seen;
    if slug == [] || slug in seen {
      return;
    }
    var url := escUrl(AdminPageUrl(adminPhpUrl, slug));
    if url == [] {
      return;
    }
    links' := links + [AdminLink(LinkLabel(text), url)];
    seen' := seen + {slug};
  }

  /** The page slugs out of pages that get a link: non-empty once sanitised and with a non-empty escaped URL. */
  function AcceptedPages(pages: seq<string>, adminPhpUrl: string, escUrl: string -> string): set<string>
  {
    if pages == [] then {}
    else
      var slug := SanitizeKey(pages[|pages| - 1]);
      var rest := AcceptedPages(pages[..|pages| - 1], adminPhpUrl, escUrl);
      if slug != [] && escUrl(AdminPageUrl(adminPhpUrl, slug)) != [] then rest + {slug} else rest
  }

  /**
   * The links the pages add after the slugs in seen: one 'Settings' link
   * per accepted page not seen before, at its first occurrence, in order.
   */
  function NewLinks(seen: set<string>, pages: seq<string>, adminPhpUrl: string, escUrl: string -> string): seq<AdminLink>
  {
    if pages == [] then []
    else
      var init := pages[..|pages| - 1];
      var slug := SanitizeKey(pages[|pages| - 1]);
      var url := escUrl(AdminPageUrl(adminPhpUrl, slug));
      NewLinks(seen, init, adminPhpUrl, escUrl) +
        if slug == [] || url == [] || slug in seen + AcceptedPages(init, adminPhpUrl, escUrl) then []
        else [AdminLink(LinkLabel("Settings"), url)]
  }

  /** The pages seen so far stay the starting set plus the accepted pages. */
  lemma SeenStep<T>(seen: set<T>, cur: set<T>, next: set<T>, x: T, accepted: bool, before: set<T>, after: set<T>)
    requires cur == seen + before
    requires after == before + (if accepted then {x} else {})
    requires next == if !accepted || x in cur then cur else cur + {x}
    ensures next == seen + after
  {
  }

  lemma PrefixKept<T>(a: seq<T>, b: seq<T>, c: seq<T>)
    requires |a| <= |b| && a == b[..|a|]
    requires |b| <= |c| && b == c[..|b|]
    ensures |a| <= |c| && a == c[..|a|]
  {
  }

  /** One more page adds its slug when that slug is accepted. */
  lemma AcceptedPagesStep(pages: seq<string>, i: nat, adminPhpUrl: string, escUrl: string -> string)
    requires i < |pages|
    ensures var slug := SanitizeKey(pages[i]);
      AcceptedPages(pages[..i + 1], adminPhpUrl, escUrl)
        == AcceptedPages(pages[..i], adminPhpUrl, escUrl) + (if slug != [] && escUrl(AdminPageUrl(adminPhpUrl, slug)) != [] then {slug} else {})
  {
    assert pages[..i + 1][..i] == pages[..i];
  }

  /** A page is accepted exactly when some listed page sanitises to it and has a non-empty escaped URL. */
  lemma {:induction false} AcceptedPagesMembers(pages: seq<string>, adminPhpUrl: string, escUrl: string -> string, slug: string)
    ensures slug in AcceptedPages(pages, adminPhpUrl, escUrl) <==>
              slug != [] && escUrl(AdminPageUrl(adminPhpUrl, slug)) != [] && exists i :: 0 <= i < |pages| && SanitizeKey(pages[i]) == slug
  {
    if pages != [] {
      var p := pages[..|pages| - 1];
      AcceptedPagesMembers(p, adminPhpUrl, escUrl, slug);
      if exists i :: 0 <= i < |pages| && SanitizeKey(pages[i]) == slug {
        var i :| 0 <= i < |pages| && SanitizeKey(pages[i]) == slug;
        if i < |p| { assert p[i] == pages[i]; }
      }
      if exists i :: 0 <= i < |p| && SanitizeKey(p[i]) == slug {
        var i :| 0 <= i < |p| && SanitizeKey(p[i]) == slug;
        assert pages[i] == p[i];
      }
    }
  }

  /**
   * Repeated AddAdminPageLink over a list of page slugs, as the module
   * admin-link discovery does: one link per distinct accepted page, earlier
   * links kept, and the new links are NewLinks.
   */
  method AddAdminPageLinks(links: seq<AdminLink>, seen: set<string>, pages: seq<string>, adminPhpUrl: string, escUrl: string -> string)
    returns (links': seq<AdminLink>, seen': set<string>)
    ensures seen' == seen + AcceptedPages(pages, adminPhpUrl, escUrl)
    ensures |links'| - |links| == |seen'| - |seen|
    ensures |links| <= |links'| && links == links'[..|links|]
    ensures links'[|links|..] == NewLinks(seen, pages, adminPhpUrl, escUrl)
  {
    links', seen' := links, seen;
    var i := 0;
    while i < |pages|
      invariant 0 <= i <= |pages|
      invariant PagesLinked(links, seen, pages[..i], links', seen', adminPhpUrl, escUrl)
    {
      links', seen' := VisitPage(links, seen, pages, i, links', seen', adminPhpUrl, escUrl);
      i := i + 1;
    }
    assert pages[..|pages|] == pages;
  }

  /** What the loop of AddAdminPageLinks has built after the pages in done. */
  predicate PagesLinked(links: seq<AdminLink>, seen: set<string>, done: seq<string>, links': seq<AdminLink>, seen': set<string>,
                        adminPhpUrl: string, escUrl: string -> string)
  {
    && seen' == seen + AcceptedPages(done, adminPhpUrl, escUrl)
    && |links'| - |links| == |seen'| - |seen|
    && |links| <= |links'| && links == links'[..|links|]
    && links'[|links|..] == NewLinks(seen, done, adminPhpUrl, escUrl)
  }

  /** One iteration of AddAdminPageLinks: the link for pages[i], when it is new. */
  method VisitPage(links: seq<AdminLink>, seen: set<string>, pages: seq<string>, i: nat, links': seq<AdminLink>, seen': set<string>,
                   adminPhpUrl: string, escUrl: string -> string)
    returns (links2: seq<AdminLink>, seen2: set<string>)
    requires i < |pages| && PagesLinked(links, seen, pages[..i], links', seen', adminPhpUrl, escUrl)
    ensures PagesLinked(links, seen, pages[..i + 1], links2, seen2, adminPhpUrl, escUrl)
  {
    var slug := SanitizeKey(pages[i]);
    var url := escUrl(AdminPageUrl(adminPhpUrl, slug));
    var accepted := slug != [] && url != [];
    AcceptedPagesStep(pages, i, adminPhpUrl, escUrl);
    NewLinksStep(seen, pages, i, adminPhpUrl, escUrl);
    links2, seen2 := AddAdminPageLink(links', seen', pages[i], "Settings", adminPhpUrl, escUrl);
    SeenStep(seen, seen', seen2, slug, accepted, AcceptedPages(pages[..i], adminPhpUrl, escUrl), AcceptedPages(pages[..i + 1], adminPhpUrl, escUrl));
    var added := if slug == [] || url == [] || slug in seen' then [] else [AdminLink(LinkLabel("Settings"), url)];
    assert links2 == links' + added;
    SuffixAppend(links, links', added);
  }

  /** The links after a kept prefix grow by what is appended. */
  lemma SuffixAppend<T>(a: seq<T>, b: seq<T>, c: seq<T>)
    requires |a| <= |b| && a == b[..|a|]
    ensures |a| <= |b + c| && a == (b + c)[..|a|]
    ensures (b + c)[|a|..] == b[|a|..] + c
  {
  }

  /** One more page appends its link to NewLinks when it is accepted and not seen before. */
  lemma NewLinksStep(seen: set<string>, pages: seq<string>, i: nat, adminPhpUrl: string, escUrl: string -> string)
    requires i < |pages|
    ensures var slug := SanitizeKey(pages[i]);
      var url := escUrl(AdminPageUrl(adminPhpUrl, slug));
      NewLinks(seen, pages[..i + 1], adminPhpUrl, escUrl)
        == NewLinks(seen, pages[..i], adminPhpUrl, escUrl) +
           if slug == [] || url == [] || slug in seen + AcceptedPages(pages[..i], adminPhpUrl, escUrl) then []
           else [AdminLink(LinkLabel("Settings"), url)]
  {
    assert pages[..i + 1][..i] == pages[..i];
  }

  // ---------------------------------------------------------------------
  // The catalog: flat files, then folders, per source; then ksort

  datatype Mode = FileMode | FolderMode

  datatype CatalogEntry = CatalogEntry(key: string, slug: string, source: string, mode: Mode, directory: string, entryFile: string)

  /** One module directory as globbed: its flat `module.*.php` files and its sub-directories. */
  datatype ModuleSource = ModuleSource(source: string, directory: string, readableDir: bool, flatFiles: seq<string>, folders: seq<string>)

  /** An entry sits under its own key, which is built from its source and its non-empty slug. */
  predicate EntryOk(kv: (string, CatalogEntry))
  {
    kv.0 == kv.1.key && kv.1.slug != [] && IsKey(kv.1.slug) && kv.1.key == BuildKey(kv.1.source, kv.1.slug)
  }

  predicate WellFormedEntries(cat: Assoc<CatalogEntry>)
  {
    forall i :: 0 <= i < |cat| ==> EntryOk(cat[i])
  }

  /** The slug a module folder gives: sanitize_key(basename($folder)). */
  function FolderSlug(folder: string): string { SanitizeKey(Basename(folder)) }

  /** The entry file of a folder module, or '' when it is missing or unreadable. */
  function FolderEntryFile(moduleDir: string, slug: string, readable: set<string>): string
  {
    var f := NormalizePath(moduleDir + "/module." + slug + ".php");
    if f in readable then f else ""
  }

  /** The entry for a flat module file, under the normalised source. */
  function FlatEntry(source: string, file: string): CatalogEntry
  {
    var slug := SlugFromEntryFile(file);
    CatalogEntry(BuildKey(source, slug), slug, source, FileMode, Untrailing(NormalizePath(Dirname(file))), NormalizePath(file))
  }

  /** The entry for a module folder, under the normalised source. */
  function FolderEntry(source: string, folder: string, readable: set<string>): CatalogEntry
  {
    var slug := FolderSlug(folder);
    var moduleDir := Untrailing(NormalizePath(folder));
    CatalogEntry(BuildKey(source, slug), slug, source, FolderMode, moduleDir, FolderEntryFile(moduleDir, slug, readable))
  }

  /** The catalog assignments of the flat-file loop: one per file with a non-empty slug, in order. */
  function FlatEntries(source: string, files: seq<string>): seq<(string, CatalogEntry)>
  {
    if files == [] then []
    else
      var e := FlatEntry(source, files[|files| - 1]);
      FlatEntries(source, files[..|files| - 1]) + if e.slug != [] then [(e.key, e)] else []
  }

  /** The catalog assignments of the folder loop: one per folder with a non-empty slug, in order. */
  function FolderEntries(source: string, folders: seq<string>, readable: set<string>): seq<(string, CatalogEntry)>
  {
    if folders == [] then []
    else
      var e := FolderEntry(source, folders[|folders| - 1], readable);
      FolderEntries(source, folders[..|folders| - 1], readable) + if e.slug != [] then [(e.key, e)] else []
  }

  lemma FlatEntriesSnoc(source: string, files: seq<string>, i: nat)
    requires i < |files|
    ensures var e := FlatEntry(source, files[i]);
            FlatEntries(source, files[..i + 1]) == FlatEntries(source, files[..i]) + if e.slug != [] then [(e.key, e)] else []
  {
    assert files[..i + 1][..i] == files[..i];
  }

  lemma FolderEntriesSnoc(source: string, folders: seq<string>, readable: set<string>, i: nat)
    requires i < |folders|
    ensures var e := FolderEntry(source, folders[i], readable);
            FolderEntries(source, folders[..i + 1], readable) == FolderEntries(source, folders[..i], readable) + if e.slug != [] then [(e.key, e)] else []
  {
    assert folders[..i + 1][..i] == folders[..i];
  }

  lemma ScanFlatStep(cat: Assoc<CatalogEntry>, source: string, files: seq<string>, i: nat)
    requires i < |files|
    ensures var e := FlatEntry(source, files[i]);
            var before := PutEach(cat, FlatEntries(source, files[..i]));
            PutEach(cat, FlatEntries(source, files[..i + 1])) == if e.slug != [] then Put(before, e.key, e) else before
  {
    var e := FlatEntry(source, files[i]);
    FlatEntriesSnoc(source, files, i);
    if e.slug != [] {
      PutEachSnoc(cat, FlatEntries(source, files[..i]), (e.key, e));
    } else {
      assert FlatEntries(source, files[..i + 1]) == FlatEntries(source, files[..i]);
    }
  }

  lemma ScanFoldersStep(cat: Assoc<CatalogEntry>, source: string, folders: seq<string>, readable: set<string>, i: nat)
    requires i < |folders|
    ensures var e := FolderEntry(source, folders[i], readable);
            var before := PutEach(cat, FolderEntries(source, folders[..i], readable));
            PutEach(cat, FolderEntries(source, folders[..i + 1], readable)) == if e.slug != [] then Put(before, e.key, e) else before
  {
    var e := FolderEntry(source, folders[i], readable);
    FolderEntriesSnoc(source, folders, readable, i);
    if e.slug != [] {
      PutEachSnoc(cat, FolderEntries(source, folders[..i], readable), (e.key, e));
    } else {
      assert FolderEntries(source, folders[..i + 1], readable) == FolderEntries(source, folders[..i], readable);
    }
  }

  /** The flat-file loop of modules_get_module_catalog. */
  method ScanFlatFiles(cat: Assoc<CatalogEntry>, source: string, files: seq<string>) returns (cat': Assoc<CatalogEntry>)
    ensures cat' == PutEach(cat, FlatEntries(source, files))
  {
    cat' := cat;
    var i := 0;
    while i < |files|
      invariant 0 <= i <= |files|
      invariant cat' == PutEach(cat, FlatEntries(source, files[..i]))
    {
      cat' := ScanFlatFile(cat, cat', source, files, i);
      i := i + 1;
    }
    TakeAll(files);
  }

  /** One pass of the flat-file loop: file i is assigned under its key when its slug is non-empty. */
  method ScanFlatFile(cat: Assoc<CatalogEntry>, sofar: Assoc<CatalogEntry>, source: string, files: seq<string>, i: nat) returns (cat': Assoc<CatalogEntry>)
    requires i < |files| && sofar == PutEach(cat, FlatEntries(source, files[..i]))
    ensures cat' == PutEach(cat, FlatEntries(source, files[..i + 1]))
  {
    var e := FlatEntry(source, files[i]);
    ScanFlatStep(cat, source, files, i);
    cat' := sofar;
    if e.slug != [] {
      cat' := Put(cat', e.key, e);
    }
  }

  /** The folder loop of modules_get_module_catalog. */
  method ScanFolders(cat: Assoc<CatalogEntry>, source: string, folders: seq<string>, readable: set<string>) returns (cat': Assoc<CatalogEntry>)
    ensures cat' == PutEach(cat, FolderEntries(source, folders, readable))
  {
    cat' := cat;
    var i := 0;
    while i < |folders|
      invariant 0 <= i <= |folders|
      invariant cat' == PutEach(cat, FolderEntries(source, folders[..i], readable))
    {
      cat' := ScanFolder(cat, cat', source, folders, readable, i);
      i := i + 1;
    }
    TakeAll(folders);
  }

  /** One pass of the folder loop: folder i is assigned under its key when its slug is non-empty. */
  method ScanFolder(cat: Assoc<CatalogEntry>, sofar: Assoc<CatalogEntry>, source: string, folders: seq<string>, readable: set<string>, i: nat)
    returns (cat': Assoc<CatalogEntry>)
    requires i < |folders| && sofar == PutEach(cat, FolderEntries(source, folders[..i], readable))
    ensures cat' == PutEach(cat, FolderEntries(source, folders[..i + 1], readable))
  {
    var e := FolderEntry(source, folders[i], readable);
    ScanFoldersStep(cat, source, folders, readable, i);
    cat' := sofar;
    if e.slug != [] {
      cat' := Put(cat', e.key, e);
    }
  }

  /** A source is scanned when its normalised directory is non-empty and readable. */
  predicate ScannedSource(src: ModuleSource)
  {
    Untrailing(NormalizePath(src.directory)) != [] && src.readableDir
  }

  /** One source of the catalog: flat files in natural order, then folders in natural order. */
  function ScanSpec(cat: Assoc<CatalogEntry>, src: ModuleSource, readable: set<string>): Assoc<CatalogEntry>
  {
    if !ScannedSource(src) then cat
    else
      var source := NormalizeSource(src.source);
      PutEach(PutEach(cat, FlatEntries(source, SortUnique(src.flatFiles))), FolderEntries(source, SortUnique(src.folders), readable))
  }

  /** One iteration of the source loop of modules_get_module_catalog. */
  method ScanSource(cat: Assoc<CatalogEntry>, src: ModuleSource, readable: set<string>) returns (cat': Assoc<CatalogEntry>)
    ensures cat' == ScanSpec(cat, src, readable)
  {
    cat' := cat;
    var source := NormalizeSource(src.source);
    var dir := Untrailing(NormalizePath(src.directory));
    if dir == [] || !src.readableDir {
      return;
    }
    var flat := SortUnique(src.flatFiles);
    cat' := ScanFlatFiles(cat', source, flat);
    var folders := SortUnique(src.folders);
    cat' := ScanFolders(cat', source, folders, readable);
  }

  /** The catalog before ksort: every source scanned in order. */
  function CatalogOf(sources: seq<ModuleSource>, readable: set<string>): Assoc<CatalogEntry>
  {
    if sources == [] then []
    else ScanSpec(CatalogOf(sources[..|sources| - 1], readable), sources[|sources| - 1], readable)
  }

  /** modules_get_module_catalog, with the catalog filter taken as the identity. */
  method BuildCatalog(sources: seq<ModuleSource>, readable: set<string>) returns (catalog: Assoc<CatalogEntry>)
    ensures catalog == KSort(CatalogOf(sources, readable))
    ensures Sorted(Keys(catalog))
  {
    var cat: Assoc<CatalogEntry> := [];
    var i := 0;
    while i < |sources|
      invariant 0 <= i <= |sources|
      invariant cat == CatalogOf(sources[..i], readable)
    {
      assert sources[..i + 1][..i] == sources[..i];
      cat := ScanSource(cat, sources[i], readable);
      i := i + 1;
    }
    assert sources[..|sources|] == sources;
    catalog := KSort(cat);
  }

  // ---------------------------------------------------------------------
  // What the catalog holds

  lemma {:induction false} FlatEntriesOk(source: string, files: seq<string>)
    ensures forall i :: 0 <= i < |FlatEntries(source, files)| ==> EntryOk(FlatEntries(source, files)[i])
  {
    if files != [] {
      FlatEntriesOk(source, files[..|files| - 1]);
    }
  }

  /** A folder entry of the scan is well formed, in folder mode, from the scanned source. */
  predicate FolderEntryFits(source: string, x: (string, CatalogEntry))
  {
    EntryOk(x) && x.1.mode == FolderMode && x.1.source == source
  }

  lemma {:induction false} FolderEntriesOk(source: string, folders: seq<string>, readable: set<string>)
    ensures forall i :: 0 <= i < |FolderEntries(source, folders, readable)| ==> FolderEntryFits(source, FolderEntries(source, folders, readable)[i])
  {
    if folders != [] {
      var p := folders[..|folders| - 1];
      var e := FolderEntry(source, folders[|folders| - 1], readable);
      var init := FolderEntries(source, p, readable);
      var tail := if e.slug != [] then [(e.key, e)] else [];
      FolderEntriesOk(source, p, readable);
      var all := FolderEntries(source, folders, readable);
      assert all == init + tail;
      forall i | 0 <= i < |all| ensures FolderEntryFits(source, all[i]) {
        if i < |init| {
          assert all[i] == init[i];
        } else {
          assert all[i] == tail[i - |init|];
        }
      }
    }
  }

  /** Every flat file with a non-empty slug is assigned under its key, at position l. */
  lemma {:induction false} FlatEntriesCover(source: string, files: seq<string>, j: nat) returns (l: nat)
    requires j < |files| && SlugFromEntryFile(files[j]) != []
    ensures l < |FlatEntries(source, files)| && FlatEntries(source, files)[l].0 == BuildKey(source, SlugFromEntryFile(files[j]))
  {
    var p := files[..|files| - 1];
    var e := FlatEntry(source, files[|files| - 1]);
    assert FlatEntries(source, files) == FlatEntries(source, p) + if e.slug != [] then [(e.key, e)] else [];
    if j == |files| - 1 {
      l := |FlatEntries(source, p)|;
    } else {
      assert p[j] == files[j];
      l := FlatEntriesCover(source, p, j);
      IndexOfAppend(FlatEntries(source, p), if e.slug != [] then [(e.key, e)] else [], l);
    }
  }

  /** Every folder with a non-empty slug is assigned under its key, at position l. */
  lemma {:induction false} FolderEntriesCover(source: string, folders: seq<string>, readable: set<string>, j: nat) returns (l: nat)
    requires j < |folders| && FolderSlug(folders[j]) != []
    ensures l < |FolderEntries(source, folders, readable)| && FolderEntries(source, folders, readable)[l].0 == BuildKey(source, FolderSlug(folders[j]))
  {
    var p := folders[..|folders| - 1];
    var e := FolderEntry(source, folders[|folders| - 1], readable);
    assert FolderEntries(source, folders, readable) == FolderEntries(source, p, readable) + if e.slug != [] then [(e.key, e)] else [];
    if j == |folders| - 1 {
      l := |FolderEntries(source, p, readable)|;
    } else {
      assert p[j] == folders[j];
      l := FolderEntriesCover(source, p, readable, j);
      IndexOfAppend(FolderEntries(source, p, readable), if e.slug != [] then [(e.key, e)] else [], l);
    }
  }

  lemma IndexOfAppend<T>(a: seq<T>, b: seq<T>, l: nat)
    requires l < |a|
    ensures (a + b)[l] == a[l]
  {
  }

  /** Scanning a source keeps the catalog well formed. */
  lemma ScanWellFormed(cat: Assoc<CatalogEntry>, src: ModuleSource, readable: set<string>)
    requires WellFormedEntries(cat)
    ensures WellFormedEntries(ScanSpec(cat, src, readable))
  {
    if ScannedSource(src) {
      var source := NormalizeSource(src.source);
      var flat := FlatEntries(source, SortUnique(src.flatFiles));
      var folders := FolderEntries(source, SortUnique(src.folders), readable);
      FlatEntriesOk(source, SortUnique(src.flatFiles));
      FolderEntriesOk(source, SortUnique(src.folders), readable);
      PutEachAll(cat, flat, EntryOk);
      PutEachAll(PutEach(cat, flat), folders, EntryOk);
    }
  }

  /** Scanning a source keeps every key already in the catalog. */
  lemma ScanKeepsKeys(cat: Assoc<CatalogEntry>, src: ModuleSource, readable: set<string>, k: string)
    requires Get(cat, k).Some?
    ensures Get(ScanSpec(cat, src, readable), k).Some?
  {
    if ScannedSource(src) {
      var source := NormalizeSource(src.source);
      var flat := FlatEntries(source, SortUnique(src.flatFiles));
      PutEachPresent(cat, flat, k);
      PutEachPresent(PutEach(cat, flat), FolderEntries(source, SortUnique(src.folders), readable), k);
    }
  }

  /** The position of a listed path in its sorted listing. */
  lemma SortedIndex(s: seq<string>, x: string) returns (i: nat)
    requires x in s
    ensures i < |SortUnique(s)| && SortUnique(s)[i] == x
  {
    assert x in Elems(s);
    assert x in Elems(SortUnique(s));
    i :| 0 <= i < |SortUnique(s)| && SortUnique(s)[i] == x;
  }

  /** A scanned source gives every flat module file with a non-empty slug an entry. */
  lemma ScanHasFlat(cat: Assoc<CatalogEntry>, src: ModuleSource, readable: set<string>, f: string)
    requires ScannedSource(src) && f in src.flatFiles && SlugFromEntryFile(f) != []
    ensures Get(ScanSpec(cat, src, readable), BuildKey(src.source, SlugFromEntryFile(f))).Some?
  {
    var source := NormalizeSource(src.source);
    var j := SortedIndex(src.flatFiles, f);
    var l := FlatEntriesCover(source, SortUnique(src.flatFiles), j);
    BuildKeySource(src.source, SlugFromEntryFile(f));
    var flat := FlatEntries(source, SortUnique(src.flatFiles));
    var k := BuildKey(src.source, SlugFromEntryFile(f));
    PutEachPresent(cat, flat, k);
    PutEachPresent(PutEach(cat, flat), FolderEntries(source, SortUnique(src.folders), readable), k);
  }

  /**
   * A scanned source gives every folder with a non-empty slug an entry, and
   * that entry is a folder module even when a flat module file has the same key.
   */
  lemma ScanFolderWins(cat: Assoc<CatalogEntry>, src: ModuleSource, readable: set<string>, d: string)
    requires ScannedSource(src) && d in src.folders && FolderSlug(d) != []
    ensures var r := Get(ScanSpec(cat, src, readable), BuildKey(src.source, FolderSlug(d)));
            r.Some? && r.value.mode == FolderMode && r.value.slug == FolderSlug(d)
  {
    var source := NormalizeSource(src.source);
    var j := SortedIndex(src.folders, d);
    var e := FoldersWin(PutEach(cat, FlatEntries(source, SortUnique(src.flatFiles))), source, SortUnique(src.folders), readable, j);
    BuildKeySource(src.source, FolderSlug(d));
  }

  /** After the folder loop, the key of a folder holds a folder entry for that folder's slug. */
  lemma FoldersWin(base: Assoc<CatalogEntry>, source: string, fs: seq<string>, readable: set<string>, j: nat) returns (e: CatalogEntry)
    requires j < |fs| && FolderSlug(fs[j]) != []
    ensures Get(PutEach(base, FolderEntries(source, fs, readable)), BuildKey(source, FolderSlug(fs[j]))) == Some(e)
    ensures e.mode == FolderMode && e.slug == FolderSlug(fs[j])
  {
    var folders := FolderEntries(source, fs, readable);
    var l0 := FolderEntriesCover(source, fs, readable, j);
    FolderEntriesOk(source, fs, readable);
    var k := BuildKey(source, FolderSlug(fs[j]));
    var l := LastAssignment(folders, l0);
    PutEachInside(base, folders, l);
    e := folders[l].1;
    assert EntryOk(folders[l]);
    BuildKeySource(source, e.slug);
    BuildKeySource(source, FolderSlug(fs[j]));
    BuildKeyInjective(source, FolderSlug(fs[j]), e.slug);
  }

  /** Within one source, the key determines the slug. */
  lemma BuildKeyInjective(source: string, a: string, b: string)
    requires IsKey(a) && IsKey(b) && a != [] && b != []
    requires BuildKey(source, a) == BuildKey(source, b)
    ensures a == b
  {
    SanitizeKeyOfKey(a);
    SanitizeKeyOfKey(b);
    var p := NormalizeSource(source) + "__";
    assert (p + a)[|p|..] == a && (p + b)[|p|..] == b;
  }

  /** The catalog is well formed and in key order. */
  lemma {:induction false} CatalogWellFormed(sources: seq<ModuleSource>, readable: set<string>)
    ensures WellFormedEntries(CatalogOf(sources, readable))
    ensures WellFormedEntries(KSort(CatalogOf(sources, readable)))
  {
    if sources != [] {
      CatalogWellFormed(sources[..|sources| - 1], readable);
      ScanWellFormed(CatalogOf(sources[..|sources| - 1], readable), sources[|sources| - 1], readable);
    }
    KSortAll(CatalogOf(sources, readable), EntryOk);
  }

  /** Every module file of every scanned source has an entry in the catalog. */
  lemma {:induction false} CatalogHasFlat(sources: seq<ModuleSource>, readable: set<string>, n: nat, f: string)
    requires n < |sources| && ScannedSource(sources[n]) && f in sources[n].flatFiles && SlugFromEntryFile(f) != []
    ensures Get(CatalogOf(sources, readable), BuildKey(sources[n].source, SlugFromEntryFile(f))).Some?
    ensures Get(KSort(CatalogOf(sources, readable)), BuildKey(sources[n].source, SlugFromEntryFile(f))).Some?
  {
    var p := sources[..|sources| - 1];
    if n == |sources| - 1 {
      ScanHasFlat(CatalogOf(p, readable), sources[n], readable, f);
    } else {
      assert p[n] == sources[n];
      CatalogHasFlat(p, readable, n, f);
      ScanKeepsKeys(CatalogOf(p, readable), sources[|sources| - 1], readable, BuildKey(sources[n].source, SlugFromEntryFile(f)));
    }
  }

  /** Every module folder of every scanned source has an entry in the catalog. */
  lemma {:induction false} CatalogHasFolder(sources: seq<ModuleSource>, readable: set<string>, n: nat, d: string)
    requires n < |sources| && ScannedSource(sources[n]) && d in sources[n].folders && FolderSlug(d) != []
    ensures Get(CatalogOf(sources, readable), BuildKey(sources[n].source, FolderSlug(d))).Some?
    ensures Get(KSort(CatalogOf(sources, readable)), BuildKey(sources[n].source, FolderSlug(d))).Some?
  {
    var p := sources[..|sources| - 1];
    if n == |sources| - 1 {
      ScanFolderWins(CatalogOf(p, readable), sources[n], readable, d);
    } else {
      assert p[n] == sources[n];
      CatalogHasFolder(p, readable, n, d);
      ScanKeepsKeys(CatalogOf(p, readable), sources[|sources| - 1], readable, BuildKey(sources[n].source, FolderSlug(d)));
    }
  }

  /** Building a key from a normalised source is the same as building it from the raw source. */
  lemma BuildKeySource(source: string, slug: string)
    ensures BuildKey(NormalizeSource(source), slug) == BuildKey(source, slug)
  {
    NormalizeSourceIdempotent(source);
  }
}
