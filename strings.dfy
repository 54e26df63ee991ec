// Character and string primitives that the theme borrows from PHP and
// WordPress (strtolower, trim, sanitize_key, sanitize_text_field, explode,
// basename, untrailingslashit, wp_normalize_path), stated over `string`.
// Only ASCII case mapping is modelled, as PHP 8's strtolower does.

module Strings {

  datatype Option<T> = None | Some(value: T)

  // ---------------------------------------------------------------------
  // Character classes

  predicate IsUpper(c: char) { 'A' <= c <= 'Z' }
  predicate IsLower(c: char) { 'a' <= c <= 'z' }
  predicate IsDigit(c: char) { '0' <= c <= '9' }
  predicate IsAlpha(c: char) { IsUpper(c) || IsLower(c) }
  predicate IsAlnum(c: char) { IsAlpha(c) || IsDigit(c) }

  function LowerChar(c: char): char { if IsUpper(c) then (c as int + 32) as char else c }
  function UpperChar(c: char): char { if IsLower(c) then (c as int - 32) as char else c }

  /** strtolower */
  function Lower(s: string): string { seq(|s|, i requires 0 <= i < |s| => LowerChar(s[i])) }
  /** strtoupper */
  function Upper(s: string): string { seq(|s|, i requires 0 <= i < |s| => UpperChar(s[i])) }

  lemma UpperCharCases(c: char)
    ensures IsLower(c) ==> IsUpper(UpperChar(c)) && LowerChar(UpperChar(c)) == c
    ensures !IsLower(c) ==> UpperChar(c) == c
  {
    if IsLower(c) {
      assert ((c as int - 32) as char) as int == c as int - 32;
    }
  }

  /** The characters PHP's trim() removes by default. */
  predicate IsTrimChar(c: char) {
    c == ' ' || c == '\t' || c == '\n' || c == '\r' || c == '\0' || c == '\U{B}'
  }

  /** The characters of the PCRE class \s. */
  predicate IsSpace(c: char) {
    c == ' ' || c == '\t' || c == '\n' || c == '\r' || c == '\U{B}' || c == '\U{C}'
  }
  const SpaceChars: set<char> := {' ', '\t', '\n', '\r', '\U{B}', '\U{C}'}

  /** The characters sanitize_key keeps: [a-z0-9_-]. */
  predicate IsKeyChar(c: char) { IsLower(c) || IsDigit(c) || c == '_' || c == '-' }
  predicate IsKey(s: string) { forall i :: 0 <= i < |s| ==> IsKeyChar(s[i]) }

  // ---------------------------------------------------------------------
  // sanitize_key: lower-case, then drop every character outside [a-z0-9_-]

  function SanitizeKey(s: string): (r: string)
    ensures IsKey(r) && |r| <= |s|
  {
    if s == [] then []
    else
      var c := LowerChar(s[0]);
      (if IsKeyChar(c) then [c] else []) + SanitizeKey(s[1..])
  }

  /** A string that is already a key is left unchanged. */
  lemma {:induction false} SanitizeKeyOfKey(s: string)
    requires IsKey(s)
    ensures SanitizeKey(s) == s
  {
    if s != [] {
      assert IsKey(s[1..]) by { forall i | 0 <= i < |s[1..]| ensures IsKeyChar(s[1..][i]) { assert s[1..][i] == s[i + 1]; } }
      SanitizeKeyOfKey(s[1..]);
      assert IsKeyChar(s[0]);
    }
  }

  /** sanitize_key is idempotent. */
  lemma SanitizeKeyIdempotent(s: string)
    ensures SanitizeKey(SanitizeKey(s)) == SanitizeKey(s)
  {
    SanitizeKeyOfKey(SanitizeKey(s));
  }

  /** sanitize_key works character by character, so it distributes over concatenation. */
  lemma {:induction false} SanitizeKeyAppend(a: string, b: string)
    ensures SanitizeKey(a + b) == SanitizeKey(a) + SanitizeKey(b)
  {
    if a == [] {
      assert a + b == b;
    } else {
      var ab := a + b;
      assert ab[0] == a[0];
      assert ab[1..] == a[1..] + b;
      SanitizeKeyAppend(a[1..], b);
      var c := LowerChar(a[0]);
      var head: string := if IsKeyChar(c) then [c] else [];
      calc {
        SanitizeKey(ab);
        head + SanitizeKey(ab[1..]);
        head + (SanitizeKey(a[1..]) + SanitizeKey(b));
        (head + SanitizeKey(a[1..])) + SanitizeKey(b);
        SanitizeKey(a) + SanitizeKey(b);
      }
    }
  }

  /** array_map('sanitize_key', s) */
  function SanitizeKeys(s: seq<string>): (r: seq<string>)
    ensures |r| == |s| && forall i :: 0 <= i < |s| ==> r[i] == SanitizeKey(s[i])
  {
    seq(|s|, i requires 0 <= i < |s| => SanitizeKey(s[i]))
  }

  /** Mapping sanitize_key over keys changes nothing. */
  lemma SanitizeKeysOfKeys(s: seq<string>)
    requires forall i :: 0 <= i < |s| ==> IsKey(s[i])
    ensures SanitizeKeys(s) == s
  {
    forall i | 0 <= i < |s| ensures SanitizeKeys(s)[i] == s[i] { SanitizeKeyOfKey(s[i]); }
  }

  // ---------------------------------------------------------------------
  // trim

  function TrimLeft(s: string): (r: string)
    ensures |r| <= |s| && r == s[|s| - |r|..]
    ensures r == [] || !IsTrimChar(r[0])
    ensures forall i :: 0 <= i < |s| - |r| ==> IsTrimChar(s[i])
  {
    if s != [] && IsTrimChar(s[0]) then
      var r := TrimLeft(s[1..]);
      assert forall i :: 1 <= i < |s| - |r| ==> s[i] == s[1..][i - 1];
      r
    else s
  }

  function TrimRight(s: string): (r: string)
    ensures |r| <= |s| && r == s[..|r|]
    ensures r == [] || !IsTrimChar(r[|r| - 1])
    ensures forall i :: |r| <= i < |s| ==> IsTrimChar(s[i])
  {
    if s != [] && IsTrimChar(s[|s| - 1]) then TrimRight(s[..|s| - 1]) else s
  }

  /** trim: r is the slice of s left after removing trim characters at both ends. */
  function Trim(s: string): (r: string)
    ensures r == [] || (!IsTrimChar(r[0]) && !IsTrimChar(r[|r| - 1]))
  {
    TrimRight(TrimLeft(s))
  }

  /** A string with no trim character at either end is its own trim. */
  lemma TrimOfTrimmed(s: string)
    requires s == [] || (!IsTrimChar(s[0]) && !IsTrimChar(s[|s| - 1]))
    ensures Trim(s) == s
  {
  }

  lemma TrimIdempotent(s: string)
    ensures Trim(Trim(s)) == Trim(s)
  {
    TrimOfTrimmed(Trim(s));
  }

  // ---------------------------------------------------------------------
  // sanitize_text_field: runs of [\r\n\t ] become one space, then trim.

  predicate IsBlank(c: char) { c == '\r' || c == '\n' || c == '\t' || c == ' ' }

  function CollapseBlanks(s: string, inRun: bool): string
  {
    if s == [] then []
    else if IsBlank(s[0]) then (if inRun then [] else " ") + CollapseBlanks(s[1..], true)
    else [s[0]] + CollapseBlanks(s[1..], false)
  }

  function SanitizeText(s: string): string
  {
    Trim(CollapseBlanks(s, false))
  }

  /** Every blank is a space and no two blanks are adjacent: the shape CollapseBlanks produces. */
  predicate WellSpaced(t: string)
  {
    t == [] ||
    ((IsBlank(t[0]) ==> t[0] == ' ' && (|t| > 1 ==> !IsBlank(t[1]))) && WellSpaced(t[1..]))
  }

  lemma {:induction false} CollapseBlanksWellSpaced(s: string, inRun: bool)
    ensures var r := CollapseBlanks(s, inRun);
      WellSpaced(r) && (inRun ==> r == [] || !IsBlank(r[0]))
  {
    if s != [] {
      CollapseBlanksWellSpaced(s[1..], IsBlank(s[0]));
      var rest := CollapseBlanks(s[1..], IsBlank(s[0]));
      var r := CollapseBlanks(s, inRun);
      if IsBlank(s[0]) && inRun {
        assert r == rest;
      } else if IsBlank(s[0]) {
        assert r == " " + rest && r[1..] == rest;
      } else {
        assert r == [s[0]] + rest && r[1..] == rest;
      }
    }
  }

  lemma {:induction false} CollapseBlanksOfWellSpaced(t: string, inRun: bool)
    requires WellSpaced(t) && (inRun ==> t == [] || !IsBlank(t[0]))
    ensures CollapseBlanks(t, inRun) == t
  {
    if t != [] {
      CollapseBlanksOfWellSpaced(t[1..], IsBlank(t[0]));
      assert t == [t[0]] + t[1..];
    }
  }

  lemma {:induction false} WellSpacedDropLast(t: string)
    requires t != [] && WellSpaced(t)
    ensures WellSpaced(t[..|t| - 1])
  {
    if |t| > 1 {
      WellSpacedDropLast(t[1..]);
      assert t[..|t| - 1][1..] == t[1..][..|t| - 2];
    }
  }

  lemma {:induction false} WellSpacedTrimRight(t: string)
    requires WellSpaced(t)
    ensures WellSpaced(TrimRight(t))
  {
    if t != [] && IsTrimChar(t[|t| - 1]) {
      WellSpacedDropLast(t);
      WellSpacedTrimRight(t[..|t| - 1]);
    }
  }

  lemma {:induction false} WellSpacedTrimLeft(t: string)
    requires WellSpaced(t)
    ensures WellSpaced(TrimLeft(t))
  {
    if t != [] && IsTrimChar(t[0]) {
      WellSpacedTrimLeft(t[1..]);
    }
  }

  /** sanitize_text_field is idempotent. */
  lemma SanitizeTextIdempotent(s: string)
    ensures SanitizeText(SanitizeText(s)) == SanitizeText(s)
  {
    var c := CollapseBlanks(s, false);
    CollapseBlanksWellSpaced(s, false);
    WellSpacedTrimLeft(c);
    WellSpacedTrimRight(TrimLeft(c));
    CollapseBlanksOfWellSpaced(Trim(c), false);
    TrimIdempotent(c);
  }

  // ---------------------------------------------------------------------
  // Prefixes, suffixes and searching

  predicate StartsWith(s: string, p: string) { |p| <= |s| && s[..|p|] == p }
  predicate EndsWith(s: string, p: string) { |p| <= |s| && s[|s| - |p|..] == p }

  /** Position of the first occurrence of c in s. */
  function IndexOfChar(s: string, c: char): (r: Option<nat>)
    ensures r.None? <==> c !in s
    ensures r.Some? ==> r.value < |s| && s[r.value] == c && c !in s[..r.value]
  {
    if s == [] then None
    else if s[0] == c then Some(0)
    else match IndexOfChar(s[1..], c)
      case None => None
      case Some(i) => assert s[1..][..i] == s[1..i + 1]; Some(i + 1)
  }

  /** Position of the last occurrence of c in s (strrpos). */
  function LastIndexOfChar(s: string, c: char): (r: Option<nat>)
    ensures r.None? <==> c !in s
    ensures r.Some? ==> r.value < |s| && s[r.value] == c && c !in s[r.value + 1..]
  {
    if s == [] then None
    else if s[|s| - 1] == c then Some(|s| - 1)
    else
      var r := LastIndexOfChar(s[..|s| - 1], c);
      assert r.Some? ==> s[r.value + 1..] == s[..|s| - 1][r.value + 1..] + [s[|s| - 1]];
      assert r.None? ==> s == s[..|s| - 1] + [s[|s| - 1]];
      r
  }

  predicate OccursAt(s: string, p: string, j: int)
  {
    0 <= j && j + |p| <= |s| && s[j..j + |p|] == p
  }

  /** Position of the first occurrence of the non-empty pattern p in s (strpos). */
  function IndexOf(s: string, p: string): (r: Option<nat>)
    requires |p| > 0
    ensures r.Some? ==> OccursAt(s, p, r.value) && forall j :: 0 <= j < r.value ==> !OccursAt(s, p, j)
    ensures r.None? ==> forall j :: !OccursAt(s, p, j)
  {
    if |s| < |p| then None
    else if s[..|p|] == p then Some(0)
    else match IndexOf(s[1..], p)
      case None =>
        assert forall j :: 1 <= j ==> (OccursAt(s, p, j) <==> OccursAt(s[1..], p, j - 1));
        None
      case Some(i) =>
        assert forall j :: 1 <= j ==> (OccursAt(s, p, j) <==> OccursAt(s[1..], p, j - 1));
        Some(i + 1)
  }

  predicate Contains(s: string, p: string)
    requires |p| > 0
  {
    IndexOf(s, p).Some?
  }

  // ---------------------------------------------------------------------
  // explode / implode on a one-character separator

  function Split(s: string, sep: char): (r: seq<string>)
    ensures |r| >= 1
    ensures forall i :: 0 <= i < |r| ==> sep !in r[i]
    decreases |s|
  {
    match IndexOfChar(s, sep)
    case None => [s]
    case Some(i) => [s[..i]] + Split(s[i + 1..], sep)
  }

  function Join(parts: seq<string>, sep: char): string
  {
    if |parts| == 0 then []
    else if |parts| == 1 then parts[0]
    else parts[0] + [sep] + Join(parts[1..], sep)
  }

  /** The first separator of x + [sep] + rest is the one after x, when x holds none. */
  lemma IndexOfCharAfter(x: string, sep: char, rest: string)
    requires sep !in x
    ensures IndexOfChar(x + [sep] + rest, sep) == Some(|x|)
  {
    var s := x + [sep] + rest;
    assert s[|x|] == sep;
  }

  /** explode undoes implode when no part holds the separator. */
  lemma {:induction false} SplitJoin(parts: seq<string>, sep: char)
    requires |parts| >= 1
    requires forall i :: 0 <= i < |parts| ==> sep !in parts[i]
    ensures Split(Join(parts, sep), sep) == parts
  {
    if |parts| > 1 {
      var rest := Join(parts[1..], sep);
      var s := parts[0] + [sep] + rest;
      assert Join(parts, sep) == s;
      IndexOfCharAfter(parts[0], sep, rest);
      assert s[..|parts[0]|] == parts[0];
      assert s[|parts[0]| + 1..] == rest;
      SplitJoin(parts[1..], sep);
      assert Split(s, sep) == [parts[0]] + parts[1..];
    }
  }

  // ---------------------------------------------------------------------
  // preg_split('/\R+/', s): lines, split at every line-break character

  predicate IsLineBreak(c: char) {
    c == '\n' || c == '\r' || c == '\U{B}' || c == '\U{C}' || c == '\U{85}'
  }

  /**
   * The pieces of s between line-break characters.  A run of breaks yields
   * empty pieces here where PCRE yields none; every caller skips empty
   * (trimmed) lines, so the two agree on what the callers see.
   */
  function Lines(s: string): (r: seq<string>)
    ensures |r| >= 1
  {
    if s == [] then [[]]
    else if IsLineBreak(s[0]) then [[]] + Lines(s[1..])
    else
      var rest := Lines(s[1..]);
      [[s[0]] + rest[0]] + rest[1..]
  }

  // ---------------------------------------------------------------------
  // Paths

  /** rtrim / ltrim with a character set. */
  function TrimRightOf(s: string, cs: set<char>): (r: string)
    ensures |r| <= |s| && r == s[..|r|] && (r == [] || r[|r| - 1] !in cs)
  {
    if s != [] && s[|s| - 1] in cs then TrimRightOf(s[..|s| - 1], cs) else s
  }

  function TrimLeftOf(s: string, cs: set<char>): (r: string)
    ensures |r| <= |s| && r == s[|s| - |r|..] && (r == [] || r[0] !in cs)
    ensures forall i :: 0 <= i < |s| - |r| ==> s[i] in cs
  {
    if s != [] && s[0] in cs then TrimLeftOf(s[1..], cs) else s
  }

  /** untrailingslashit: remove trailing '/' and '\'. */
  function Untrailing(s: string): string { TrimRightOf(s, {'/', '\\'}) }

  /** ltrim($s, '/') */
  function LTrimSlash(s: string): string { TrimLeftOf(s, {'/'}) }

  /** basename: the last '/'-separated segment, trailing slashes ignored. */
  function Basename(path: string): (r: string)
    ensures '/' !in r
  {
    var p := TrimRightOf(path, {'/'});
    match LastIndexOfChar(p, '/')
    case None => p
    case Some(i) => p[i + 1..]
  }

  /** The last c in x + [c] + y is the one between them when y holds none. */
  lemma LastIndexOfCharBefore(x: string, c: char, y: string)
    requires c !in y
    ensures LastIndexOfChar(x + [c] + y, c) == Some(|x|)
  {
    var s := x + [c] + y;
    assert s[|x|] == c;
    assert s[|x| + 1..] == y;
  }

  /** The basename of dir + '/' + name is name, for a name without '/'. */
  lemma BasenameOfChild(dir: string, name: string)
    requires name != [] && '/' !in name
    ensures Basename(dir + "/" + name) == name
  {
    var p := dir + "/" + name;
    assert p == dir + ['/'] + name;
    assert p[|p| - 1] == name[|name| - 1];
    assert TrimRightOf(p, {'/'}) == p;
    LastIndexOfCharBefore(dir, '/', name);
    assert p[|dir| + 1..] == name;
  }

  /** dirname for a file path: everything before the last '/'. */
  function Dirname(path: string): string
  {
    match LastIndexOfChar(path, '/')
    case None => "."
    case Some(i) => if i == 0 then "/" else path[..i]
  }

  function BackslashesToSlashes(s: string): string
  {
    seq(|s|, i requires 0 <= i < |s| => if s[i] == '\\' then '/' else s[i])
  }

  function CollapseSlashes(s: string, afterSlash: bool): string
  {
    if s == [] then []
    else if s[0] == '/' && afterSlash then CollapseSlashes(s[1..], true)
    else [s[0]] + CollapseSlashes(s[1..], s[0] == '/')
  }

  /** wp_normalize_path: '\' becomes '/', and a run of '/' after the first character becomes one '/'. */
  function NormalizePath(s: string): string
  {
    var t := BackslashesToSlashes(s);
    if t == [] then [] else [t[0]] + CollapseSlashes(t[1..], false)
  }

  /** No two consecutive '/' at or after position start. */
  predicate NoDoubleSlashFrom(s: string, start: nat)
  {
    forall i :: start <= i < |s| - 1 ==> !(s[i] == '/' && s[i + 1] == '/')
  }

  lemma {:induction false} CollapseSlashesNoDouble(s: string, afterSlash: bool)
    ensures NoDoubleSlashFrom(CollapseSlashes(s, afterSlash), 0)
    ensures afterSlash && CollapseSlashes(s, afterSlash) != [] ==> CollapseSlashes(s, afterSlash)[0] != '/'
  {
    if s != [] {
      CollapseSlashesNoDouble(s[1..], true);
      CollapseSlashesNoDouble(s[1..], s[0] == '/');
      if !(s[0] == '/' && afterSlash) {
        var t := CollapseSlashes(s[1..], s[0] == '/');
        assert CollapseSlashes(s, afterSlash) == [s[0]] + t;
        forall i | 0 <= i < |t| ensures ([s[0]] + t)[i + 1] == t[i] { }
      }
    }
  }

  /** wp_normalize_path leaves no "//" after the first character. */
  lemma NormalizePathNoDouble(s: string)
    ensures NoDoubleSlashFrom(NormalizePath(s), 1)
  {
    var t := BackslashesToSlashes(s);
    if t != [] {
      var c := CollapseSlashes(t[1..], false);
      CollapseSlashesNoDouble(t[1..], false);
      assert NormalizePath(s) == [t[0]] + c;
      forall i | 1 <= i < |NormalizePath(s)| - 1 ensures !(NormalizePath(s)[i] == '/' && NormalizePath(s)[i + 1] == '/') {
        assert NormalizePath(s)[i] == c[i - 1] && NormalizePath(s)[i + 1] == c[i];
      }
    }
  }
}
