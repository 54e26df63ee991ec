// Module bootstrapping (inc/core/modules_bootstrap.php).
//
// Each enabled module is booted once per request: its entry file is
// required and, for a folder module, the convention globs under its
// directory are included.  Files found by a glob in several base
// directories are merged by basename, the later directory winning, and
// included in basename order; debug-only helpers are skipped unless
// WP_DEBUG is on.  The filesystem (glob results, readable directories and
// files) and WP_DEBUG arrive as parameters; the request's loaded files and
// booted modules live in a Loader.

module ModulesBootstrap {
  import opened Strings
  import opened Order

  /** What the filesystem answers: glob results, readable directories, readable files. */
  datatype FileSystem = FileSystem(glob: string -> seq<string>, readableDirs: set<string>, readableFiles: set<string>)

  /** The helper files that are only loaded with WP_DEBUG on. */
  const DebugOnlyHelpers: seq<string> := ["helper.debug.php", "helper.printr.php"]

  predicate DebugOnly(file: string) { Basename(file) in DebugOnlyHelpers }

  // ---------------------------------------------------------------------
  // Base directories

  /** untrailingslashit(wp_normalize_path($dir)) */
  function BaseDir(dir: string): string { Untrailing(NormalizePath(dir)) }

  /** Each given directory, normalised. */
  function BaseDirs(dirs: seq<string>): (r: seq<string>)
    ensures |r| == |dirs| && forall i :: 0 <= i < |dirs| ==> r[i] == BaseDir(dirs[i])
  {
    seq(|dirs|, i requires 0 <= i < |dirs| => BaseDir(dirs[i]))
  }

  /** The non-empty readable directories among normalised ones, in order. */
  function ReadableDirs(bases: seq<string>, readable: set<string>): (r: seq<string>)
    ensures forall x :: x in r <==> x != [] && x in readable && x in bases
  {
    if bases == [] then []
    else
      var init := bases[..|bases| - 1];
      var d := bases[|bases| - 1];
      var rest := ReadableDirs(init, readable);
      assert bases == init + [d];
      if d != [] && d in readable then rest + [d] else rest
  }

  /** modules_normalize_base_directories, for a list (a single directory is passed as [dir]). */
  function NormalizeBaseDirs(dirs: seq<string>, fs: FileSystem): seq<string>
  {
    Dedup(ReadableDirs(BaseDirs(dirs), fs.readableDirs))
  }

  /**
   * The normalised base directories are duplicate-free, and are exactly
   * the non-empty readable normalised forms of the given ones.
   */
  lemma NormalizeBaseDirsMembers(dirs: seq<string>, fs: FileSystem, x: string)
    ensures var r := NormalizeBaseDirs(dirs, fs);
      Distinct(r) &&
      (x in r <==> x != [] && x in fs.readableDirs && exists i :: 0 <= i < |dirs| && x == BaseDir(dirs[i]))
  {
    var bases := BaseDirs(dirs);
    assert x in Elems(NormalizeBaseDirs(dirs, fs)) <==> x in Elems(ReadableDirs(bases, fs.readableDirs));
    if x in bases {
      var i :| 0 <= i < |bases| && bases[i] == x;
    }
    if i :| 0 <= i < |dirs| && x == BaseDir(dirs[i]) {
      assert bases[i] == x;
    }
  }

  lemma ReadableDirsStep(bases: seq<string>, readable: set<string>, n: nat)
    requires n < |bases|
    ensures ReadableDirs(bases[..n + 1], readable) ==
      ReadableDirs(bases[..n], readable) + (if bases[n] != [] && bases[n] in readable then [bases[n]] else [])
  {
    assert bases[..n + 1][..n] == bases[..n];
  }

  /** The loop of modules_normalize_base_directories. */
  method NormalizeBaseDirectories(dirs: seq<string>, fs: FileSystem) returns (normalized: seq<string>)
    ensures normalized == NormalizeBaseDirs(dirs, fs)
  {
    ghost var bases := BaseDirs(dirs);
    var kept: seq<string> := [];
    var i := 0;
    while i < |dirs|
      invariant 0 <= i <= |dirs|
      invariant kept == ReadableDirs(bases[..i], fs.readableDirs)
    {
      ReadableDirsStep(bases, fs.readableDirs, i);
      var d := BaseDir(dirs[i]);
      if d != [] && d in fs.readableDirs {
        kept := kept + [d];
      }
      i := i + 1;
    }
    assert bases[..i] == bases;
    normalized := Dedup(kept);
  }

  // ---------------------------------------------------------------------
  // Globbed files merged by basename

  /** A globbed file that is not included: empty, or debug-only while those are skipped. */
  predicate Skipped(file: string, skipDebug: bool) { file == [] || (skipDebug && DebugOnly(file)) }

  /** Keep a globbed file when it is not skipped. */
  function Keep(skipDebug: bool): string -> bool { (f: string) => !Skipped(f, skipDebug) }

  /** The $map[key(file)] = file assignments for the files kept, in order. */
  function Assignments(files: seq<string>, key: string -> string, keep: string -> bool): (r: seq<(string, string)>)
    ensures forall i :: 0 <= i < |r| ==> r[i].0 == key(r[i].1) && keep(r[i].1) && r[i].1 in files
  {
    if files == [] then []
    else
      var init := files[..|files| - 1];
      var f := files[|files| - 1];
      var rest := Assignments(init, key, keep);
      assert forall x :: x in init ==> x in files;
      if keep(f) then rest + [(key(f), f)] else rest
  }

  lemma {:induction false} AssignmentsAppend(a: seq<string>, b: seq<string>, key: string -> string, keep: string -> bool)
    ensures Assignments(a + b, key, keep) == Assignments(a, key, keep) + Assignments(b, key, keep)
  {
    if b != [] {
      var init := b[..|b| - 1];
      AssignmentsAppend(a, init, key, keep);
      assert (a + b)[..|a + b| - 1] == a + init;
      assert (a + b)[|a + b| - 1] == b[|b| - 1];
    } else {
      assert a + b == a;
    }
  }

  lemma AssignmentsSnoc(a: seq<string>, f: string, key: string -> string, keep: string -> bool)
    ensures Assignments(a + [f], key, keep) == Assignments(a, key, keep) + (if keep(f) then [(key(f), f)] else [])
  {
    assert (a + [f])[..|a|] == a;
  }

  /** One base directory's glob results, sorted. */
  function DirFiles(dir: string, pattern: string, fs: FileSystem): seq<string>
  {
    SortUnique(fs.glob(dir + "/" + pattern))
  }

  /** The files of all base directories, directory by directory. */
  function AllFiles(dirs: seq<string>, pattern: string, fs: FileSystem): seq<string>
  {
    if dirs == [] then []
    else AllFiles(dirs[..|dirs| - 1], pattern, fs) + DirFiles(dirs[|dirs| - 1], pattern, fs)
  }

  /** $file_map after the loops of modules_include_globbed_files. */
  function FileMap(dirs: seq<string>, pattern: string, skipDebug: bool, fs: FileSystem): Assoc<string>
  {
    PutEach([], Assignments(AllFiles(dirs, pattern, fs), Basename, Keep(skipDebug)))
  }

  /** The values of a string-keyed array, in order. */
  function Values(a: Assoc<string>): (r: seq<string>)
    ensures |r| == |a| && forall i :: 0 <= i < |a| ==> r[i] == a[i].1
  {
    seq(|a|, i requires 0 <= i < |a| => a[i].1)
  }

  function Basenames(files: seq<string>): seq<string>
  {
    seq(|files|, i requires 0 <= i < |files| => Basename(files[i]))
  }

  /** The files modules_include_globbed_files requires, in order. */
  function GlobbedFiles(baseDirs: seq<string>, pattern: string, debugSensitive: bool, wpDebug: bool, fs: FileSystem): seq<string>
  {
    var p := LTrimSlash(pattern);
    var dirs := NormalizeBaseDirs(baseDirs, fs);
    if dirs == [] || p == [] then [] else Values(KSort(FileMap(dirs, p, debugSensitive && !wpDebug, fs)))
  }

  /** Every entry of the file map is keyed by its file's basename and is not skipped. */
  lemma FileMapEntries(dirs: seq<string>, pattern: string, skipDebug: bool, fs: FileSystem)
    ensures var m := KSort(FileMap(dirs, pattern, skipDebug, fs));
      forall i :: 0 <= i < |m| ==> m[i].0 == Basename(m[i].1) && !Skipped(m[i].1, skipDebug) && m[i].1 in AllFiles(dirs, pattern, fs)
  {
    var files := AllFiles(dirs, pattern, fs);
    var kvs := Assignments(files, Basename, Keep(skipDebug));
    var P := (kv: (string, string)) => kv.0 == Basename(kv.1) && !Skipped(kv.1, skipDebug) && kv.1 in files;
    PutEachAll([], kvs, P);
    KSortAll(FileMap(dirs, pattern, skipDebug, fs), P);
  }

  /**
   * Nothing is included for an empty pattern or when no base directory is
   * readable.  Otherwise the included files come from the base
   * directories, none is skipped (so no debug-only helper without
   * WP_DEBUG for a debug-sensitive pattern), and their basenames are in
   * strictly increasing order, so each basename is included once.
   */
  lemma GlobbedFilesOrder(baseDirs: seq<string>, pattern: string, debugSensitive: bool, wpDebug: bool, fs: FileSystem)
    ensures var p := LTrimSlash(pattern);
      var dirs := NormalizeBaseDirs(baseDirs, fs);
      var r := GlobbedFiles(baseDirs, pattern, debugSensitive, wpDebug, fs);
      (dirs == [] || p == [] ==> r == []) &&
      Sorted(Basenames(r)) &&
      forall f :: f in r ==> f != [] && !(debugSensitive && !wpDebug && DebugOnly(f)) && f in AllFiles(dirs, p, fs)
  {
    var p := LTrimSlash(pattern);
    var dirs := NormalizeBaseDirs(baseDirs, fs);
    if dirs != [] && p != [] {
      var m := KSort(FileMap(dirs, p, debugSensitive && !wpDebug, fs));
      FileMapEntries(dirs, p, debugSensitive && !wpDebug, fs);
      SortedMapValues(m, debugSensitive && !wpDebug, AllFiles(dirs, p, fs));
    }
  }

  /** The values of a ksorted file map keyed by basename come in basename order and keep the entries' properties. */
  lemma SortedMapValues(m: Assoc<string>, skipDebug: bool, files: seq<string>)
    requires Sorted(Keys(m))
    requires forall i :: 0 <= i < |m| ==> m[i].0 == Basename(m[i].1) && !Skipped(m[i].1, skipDebug) && m[i].1 in files
    ensures Sorted(Basenames(Values(m)))
    ensures forall f :: f in Values(m) ==> f != [] && !(skipDebug && DebugOnly(f)) && f in files
  {
    assert Basenames(Values(m)) == Keys(m);
  }

  /** Assignment l is the last one to its key. */
  predicate LastFor(kvs: seq<(string, string)>, l: int)
  {
    0 <= l < |kvs| && forall m :: l < m < |kvs| ==> kvs[m].0 != kvs[l].0
  }

  /** A value survives the assignments and ksort exactly when it is the last one assigned to its key. */
  lemma LastAssignmentWins(kvs: seq<(string, string)>, f: string)
    ensures f in Values(KSort(PutEach([], kvs))) <==> exists l :: LastFor(kvs, l) && kvs[l].1 == f
  {
    var fm := PutEach([], kvs);
    var m := KSort(fm);
    SortedDistinct(Keys(m));
    if f in Values(m) {
      var i :| 0 <= i < |m| && Values(m)[i] == f;
      var b := m[i].0;
      assert Keys(m)[i] == b;
      GetOfDistinct(m, b);
      assert Get(fm, b) == Some(f);
      var j: nat :| j < |kvs| && kvs[j].0 == b by {
        if forall j :: 0 <= j < |kvs| ==> kvs[j].0 != b {
          PutEachOutside([], kvs, b);
        }
      }
      var l := LastAssignment(kvs, j);
      PutEachInside([], kvs, l);
      assert LastFor(kvs, l);
    }
    if l :| LastFor(kvs, l) && kvs[l].1 == f {
      var b := kvs[l].0;
      PutEachInside([], kvs, l);
      assert Get(m, b) == Some(f);
      var i := GetEntry(m, b);
      assert Values(m)[i] == f;
    }
  }

  lemma GlobbedFilesMap(baseDirs: seq<string>, pattern: string, debugSensitive: bool, wpDebug: bool, fs: FileSystem)
    requires LTrimSlash(pattern) != [] && NormalizeBaseDirs(baseDirs, fs) != []
    ensures GlobbedFiles(baseDirs, pattern, debugSensitive, wpDebug, fs) ==
      Values(KSort(PutEach([], Assignments(AllFiles(NormalizeBaseDirs(baseDirs, fs), LTrimSlash(pattern), fs), Basename, Keep(debugSensitive && !wpDebug)))))
  {
  }

  /**
   * A file is included exactly when some assignment puts it in the map and
   * no later assignment reuses its basename: the last file for each
   * basename wins.
   */
  lemma GlobbedFilesLast(baseDirs: seq<string>, pattern: string, debugSensitive: bool, wpDebug: bool, fs: FileSystem, f: string)
    requires LTrimSlash(pattern) != [] && NormalizeBaseDirs(baseDirs, fs) != []
    ensures var kvs := Assignments(AllFiles(NormalizeBaseDirs(baseDirs, fs), LTrimSlash(pattern), fs), Basename, Keep(debugSensitive && !wpDebug));
      f in GlobbedFiles(baseDirs, pattern, debugSensitive, wpDebug, fs) <==> exists l :: LastFor(kvs, l) && kvs[l].1 == f
  {
    GlobbedFilesMap(baseDirs, pattern, debugSensitive, wpDebug, fs);
    LastAssignmentWins(Assignments(AllFiles(NormalizeBaseDirs(baseDirs, fs), LTrimSlash(pattern), fs), Basename, Keep(debugSensitive && !wpDebug)), f);
  }

  /** The files of the last base directory come after all the others. */
  lemma AllFilesSnoc(dirs: seq<string>, dir: string, pattern: string, fs: FileSystem)
    ensures AllFiles(dirs + [dir], pattern, fs) == AllFiles(dirs, pattern, fs) + DirFiles(dir, pattern, fs)
  {
    assert (dirs + [dir])[..|dirs|] == dirs;
  }

  /**
   * A file of the last base directory that is not skipped and is the last
   * there with its basename is included, so it replaces any file with that
   * basename from an earlier directory.
   */
  lemma LaterDirectoryWins(baseDirs: seq<string>, pattern: string, debugSensitive: bool, wpDebug: bool, fs: FileSystem, j: int)
    requires LTrimSlash(pattern) != [] && NormalizeBaseDirs(baseDirs, fs) != []
    requires LastFor(LastDirAssignments(baseDirs, pattern, debugSensitive, wpDebug, fs), j)
    ensures var f := LastDirAssignments(baseDirs, pattern, debugSensitive, wpDebug, fs)[j].1;
      var r := GlobbedFiles(baseDirs, pattern, debugSensitive, wpDebug, fs);
      f in r && forall g :: g in r && Basename(g) == Basename(f) ==> g == f
  {
    var p := LTrimSlash(pattern);
    var dirs := NormalizeBaseDirs(baseDirs, fs);
    var skip := debugSensitive && !wpDebug;
    var last := LastDirAssignments(baseDirs, pattern, debugSensitive, wpDebug, fs);
    var earlier := Assignments(AllFiles(dirs[..|dirs| - 1], p, fs), Basename, Keep(skip));
    var kvs := Assignments(AllFiles(dirs, p, fs), Basename, Keep(skip));
    AssignmentsLastDir(dirs, p, skip, fs);
    LastForSuffix(earlier, last, j);
    GlobbedFilesMap(baseDirs, pattern, debugSensitive, wpDebug, fs);
    LastAssignmentWins(kvs, last[j].1);
    forall g | g in GlobbedFiles(baseDirs, pattern, debugSensitive, wpDebug, fs) && Basename(g) == Basename(last[j].1)
      ensures g == last[j].1
    {
      SurvivorUnique(kvs, |earlier| + j, g);
    }
  }

  /** The basename assignments made for the files of the last readable base directory. */
  function LastDirAssignments(baseDirs: seq<string>, pattern: string, debugSensitive: bool, wpDebug: bool, fs: FileSystem): seq<(string, string)>
  {
    var dirs := NormalizeBaseDirs(baseDirs, fs);
    if dirs == [] then []
    else Assignments(DirFiles(dirs[|dirs| - 1], LTrimSlash(pattern), fs), Basename, Keep(debugSensitive && !wpDebug))
  }

  /** The assignments of the last base directory come after the others'. */
  lemma AssignmentsLastDir(dirs: seq<string>, p: string, skip: bool, fs: FileSystem)
    requires dirs != []
    ensures Assignments(AllFiles(dirs, p, fs), Basename, Keep(skip)) ==
      Assignments(AllFiles(dirs[..|dirs| - 1], p, fs), Basename, Keep(skip)) + Assignments(DirFiles(dirs[|dirs| - 1], p, fs), Basename, Keep(skip))
  {
    AssignmentsAppend(AllFiles(dirs[..|dirs| - 1], p, fs), DirFiles(dirs[|dirs| - 1], p, fs), Basename, Keep(skip));
  }

  /** The last assignment to a key within a suffix is the last one overall. */
  lemma LastForSuffix(earlier: seq<(string, string)>, last: seq<(string, string)>, j: nat)
    requires LastFor(last, j)
    ensures LastFor(earlier + last, |earlier| + j) && (earlier + last)[|earlier| + j] == last[j]
  {
    var kvs := earlier + last;
    assert forall m :: |earlier| + j < m < |kvs| ==> kvs[m] == last[m - |earlier|];
  }

  /** Among values keyed by basename, only the last one for its basename survives. */
  lemma SurvivorUnique(kvs: seq<(string, string)>, l: int, g: string)
    requires forall i :: 0 <= i < |kvs| ==> kvs[i].0 == Basename(kvs[i].1)
    requires LastFor(kvs, l)
    requires g in Values(KSort(PutEach([], kvs))) && Basename(g) == Basename(kvs[l].1)
    ensures g == kvs[l].1
  {
    LastAssignmentWins(kvs, g);
    var l' :| LastFor(kvs, l') && kvs[l'].1 == g;
    assert kvs[l'].0 == kvs[l].0;
  }

  /** The module convention globs, each with its debug-sensitive flag. */
  const ConventionGlobs: seq<(string, bool)> := [
    ("inc/*.php", false),
    ("inc/helpers/helper.*.php", true),
    ("inc/shortcodes/shortcode.*.php", false),
    ("inc/walkers/walker.*.php", false),
    ("shortcodes/shortcode.*.php", false),
    ("walkers/walker.*.php", false)
  ]

  /** Only the helper glob is debug-sensitive, and the patterns are distinct. */
  lemma ConventionGlobsDebug()
    ensures Distinct(Keys(ConventionGlobs))
    ensures forall i :: 0 <= i < |ConventionGlobs| ==> (ConventionGlobs[i].1 <==> ConventionGlobs[i].0 == "inc/helpers/helper.*.php")
  {
    var ks := Keys(ConventionGlobs);
    assert ks == ["inc/*.php", "inc/helpers/helper.*.php", "inc/shortcodes/shortcode.*.php",
                  "inc/walkers/walker.*.php", "shortcodes/shortcode.*.php", "walkers/walker.*.php"];
  }

  // ---------------------------------------------------------------------
  // Booting modules

  /** The fields of a catalog entry the bootstrap reads, missing ones already defaulted. */
  datatype BootModule = BootModule(entryFile: string, mode: string, directory: string)

  /** require_once of each file in turn: a file already loaded is not loaded again. */
  function RequireAll(loaded: seq<string>, files: seq<string>): seq<string>
  {
    if files == [] then loaded
    else
      var rest := RequireAll(loaded, files[..|files| - 1]);
      if files[|files| - 1] in rest then rest else rest + [files[|files| - 1]]
  }

  /**
   * Loading files keeps what was loaded, in place; afterwards every file is
   * loaded, nothing else is, and no file is loaded twice.
   */
  lemma {:induction false} RequireAllLoads(loaded: seq<string>, files: seq<string>)
    ensures var r := RequireAll(loaded, files);
      |loaded| <= |r| && r[..|loaded|] == loaded &&
      (forall x :: x in r <==> x in loaded || x in files) &&
      (Distinct(loaded) ==> Distinct(r))
  {
    if files != [] {
      var init := files[..|files| - 1];
      var f := files[|files| - 1];
      RequireAllLoads(loaded, init);
      var rest := RequireAll(loaded, init);
      assert files == init + [f];
      if f !in rest {
        assert (rest + [f])[..|loaded|] == rest[..|loaded|];
      }
    }
  }

  lemma {:induction false} RequireAllAppend(loaded: seq<string>, a: seq<string>, b: seq<string>)
    ensures RequireAll(RequireAll(loaded, a), b) == RequireAll(loaded, a + b)
  {
    if b != [] {
      var init := b[..|b| - 1];
      RequireAllAppend(loaded, a, init);
      assert (a + b)[..|a + b| - 1] == a + init;
      assert (a + b)[|a + b| - 1] == b[|b| - 1];
    } else {
      assert a + b == a;
    }
  }

  /** The files of the convention globs, glob by glob. */
  function ConventionFiles(dirs: seq<string>, globs: seq<(string, bool)>, wpDebug: bool, fs: FileSystem): seq<string>
  {
    if globs == [] then []
    else
      var g := globs[|globs| - 1];
      ConventionFiles(dirs, globs[..|globs| - 1], wpDebug, fs) + GlobbedFiles(dirs, g.0, g.1, wpDebug, fs)
  }

  lemma ConventionStep(dirs: seq<string>, globs: seq<(string, bool)>, wpDebug: bool, fs: FileSystem, i: nat)
    requires i < |globs|
    ensures ConventionFiles(dirs, globs[..i + 1], wpDebug, fs) ==
      ConventionFiles(dirs, globs[..i], wpDebug, fs) + GlobbedFiles(dirs, globs[i].0, globs[i].1, wpDebug, fs)
  {
    assert globs[..i + 1][..i] == globs[..i];
  }

  /** Requiring the files of one more convention glob extends what the earlier globs required. */
  lemma ConventionRequireStep(before: seq<string>, dirs: seq<string>, globs: seq<(string, bool)>, wpDebug: bool, fs: FileSystem, i: nat)
    requires i < |globs|
    ensures RequireAll(RequireAll(before, ConventionFiles(dirs, globs[..i], wpDebug, fs)), GlobbedFiles(dirs, globs[i].0, globs[i].1, wpDebug, fs))
      == RequireAll(before, ConventionFiles(dirs, globs[..i + 1], wpDebug, fs))
  {
    ConventionStep(dirs, globs, wpDebug, fs, i);
    RequireAllAppend(before, ConventionFiles(dirs, globs[..i], wpDebug, fs), GlobbedFiles(dirs, globs[i].0, globs[i].1, wpDebug, fs));
  }

  /** modules_include_module_support_files */
  function SupportFiles(directory: string, wpDebug: bool, fs: FileSystem): seq<string>
  {
    var dirs := NormalizeBaseDirs([directory], fs);
    if dirs == [] then [] else ConventionFiles(dirs, ConventionGlobs, wpDebug, fs)
  }

  /** The files modules_boot_single_module loads: the readable entry file, then a folder module's support files. */
  function ModuleFiles(m: BootModule, wpDebug: bool, fs: FileSystem): seq<string>
  {
    (if m.entryFile != [] && m.entryFile in fs.readableFiles then [m.entryFile] else []) +
    (if m.mode != "folder" || m.directory == [] then [] else SupportFiles(m.directory, wpDebug, fs))
  }

  /**
   * Support files are loaded only for a folder module with a non-empty
   * directory; the entry file only when it is non-empty and readable.
   */
  lemma ModuleFilesRule(m: BootModule, wpDebug: bool, fs: FileSystem)
    ensures var entry := if m.entryFile != [] && m.entryFile in fs.readableFiles then [m.entryFile] else [];
      (m.mode != "folder" || m.directory == [] ==> ModuleFiles(m, wpDebug, fs) == entry) &&
      (m.mode == "folder" && m.directory != [] ==>
        ModuleFiles(m, wpDebug, fs) == entry + SupportFiles(m.directory, wpDebug, fs))
  {
    var entry := if m.entryFile != [] && m.entryFile in fs.readableFiles then [m.entryFile] else [];
    assert entry + [] == entry;
  }

  /** The keys modules_boot_theme_modules boots, in catalog order. */
  function NewlyBooted(enabled: Assoc<BootModule>, booted: set<string>): (r: seq<string>)
    ensures Distinct(r)
    ensures forall k :: k in r <==> k in Keys(enabled) && k !in booted
  {
    if enabled == [] then []
    else
      var init := enabled[..|enabled| - 1];
      var k := enabled[|enabled| - 1].0;
      var rest := NewlyBooted(init, booted);
      assert Keys(enabled) == Keys(init) + [k];
      if k in booted || k in Keys(init) then rest else rest + [k]
  }

  /** The files modules_boot_theme_modules loads, module by module. */
  function BootFiles(enabled: Assoc<BootModule>, booted: set<string>, wpDebug: bool, fs: FileSystem): seq<string>
  {
    if enabled == [] then []
    else
      var init := enabled[..|enabled| - 1];
      var last := enabled[|enabled| - 1];
      BootFiles(init, booted, wpDebug, fs) +
        (if last.0 in booted || last.0 in Keys(init) then [] else ModuleFiles(last.1, wpDebug, fs))
  }

  /** Once every enabled module is booted, booting again loads nothing. */
  lemma {:induction false} BootAgainLoadsNothing(enabled: Assoc<BootModule>, booted: set<string>, wpDebug: bool, fs: FileSystem)
    requires forall k :: k in Keys(enabled) ==> k in booted
    ensures BootFiles(enabled, booted, wpDebug, fs) == []
    ensures NewlyBooted(enabled, booted) == []
  {
    if enabled != [] {
      var init := enabled[..|enabled| - 1];
      assert Keys(enabled) == Keys(init) + [enabled[|enabled| - 1].0];
      BootAgainLoadsNothing(init, booted, wpDebug, fs);
    }
  }

  lemma BootStep(enabled: Assoc<BootModule>, booted: set<string>, wpDebug: bool, fs: FileSystem, n: nat)
    requires n < |enabled|
    ensures var init := enabled[..n];
      var k := enabled[n].0;
      Keys(enabled[..n + 1]) == Keys(init) + [k] &&
      Elems(Keys(enabled[..n + 1])) == Elems(Keys(init)) + {k} &&
      BootFiles(enabled[..n + 1], booted, wpDebug, fs) ==
        BootFiles(init, booted, wpDebug, fs) + (if k in booted || k in Keys(init) then [] else ModuleFiles(enabled[n].1, wpDebug, fs))
  {
    var init := enabled[..n];
    var k := enabled[n].0;
    assert enabled[..n + 1][..n] == init;
    assert Keys(enabled[..n + 1]) == Keys(init) + [k];
    assert Elems(Keys(init) + [k]) == Elems(Keys(init)) + {k};
  }


  lemma AddFileStep(fileMap: Assoc<string>, files: seq<string>, skipDebug: bool, j: nat)
    requires j < |files|
    ensures var before := PutEach(fileMap, Assignments(files[..j], Basename, Keep(skipDebug)));
      PutEach(fileMap, Assignments(files[..j + 1], Basename, Keep(skipDebug))) ==
        if Skipped(files[j], skipDebug) then before else Put(before, Basename(files[j]), files[j])
  {
    assert files[..j + 1] == files[..j] + [files[j]];
    AssignmentsSnoc(files[..j], files[j], Basename, Keep(skipDebug));
    if !Skipped(files[j], skipDebug) {
      PutEachSnoc(fileMap, Assignments(files[..j], Basename, Keep(skipDebug)), (Basename(files[j]), files[j]));
    }
  }

  /** The inner loop of modules_include_globbed_files: one directory's files put in the map. */
  method AddDirFiles(fileMap: Assoc<string>, files: seq<string>, skipDebug: bool) returns (r: Assoc<string>)
    ensures r == PutEach(fileMap, Assignments(files, Basename, Keep(skipDebug)))
  {
    r := fileMap;
    var j := 0;
    while j < |files|
      invariant 0 <= j <= |files|
      invariant r == PutEach(fileMap, Assignments(files[..j], Basename, Keep(skipDebug)))
    {
      AddFileStep(fileMap, files, skipDebug, j);
      if files[j] != [] && !(skipDebug && Basename(files[j]) in DebugOnlyHelpers) {
        r := Put(r, Basename(files[j]), files[j]);
      }
      j := j + 1;
    }
    assert files[..j] == files;
  }

  lemma FileMapStep(dirs: seq<string>, pattern: string, skipDebug: bool, fs: FileSystem, i: nat)
    requires i < |dirs|
    ensures FileMap(dirs[..i + 1], pattern, skipDebug, fs) ==
      PutEach(FileMap(dirs[..i], pattern, skipDebug, fs), Assignments(DirFiles(dirs[i], pattern, fs), Basename, Keep(skipDebug)))
  {
    var all := AllFiles(dirs[..i], pattern, fs);
    var files := DirFiles(dirs[i], pattern, fs);
    var a := Assignments(all, Basename, Keep(skipDebug));
    var b := Assignments(files, Basename, Keep(skipDebug));
    assert dirs[..i + 1] == dirs[..i] + [dirs[i]];
    AllFilesSnoc(dirs[..i], dirs[i], pattern, fs);
    assert AllFiles(dirs[..i + 1], pattern, fs) == all + files;
    AssignmentsAppend(all, files, Basename, Keep(skipDebug));
    assert FileMap(dirs[..i + 1], pattern, skipDebug, fs) == PutEach([], a + b);
    PutEachAppend([], a, b);
  }

  /** The outer loop of modules_include_globbed_files: $file_map over all base directories. */
  method BuildFileMap(dirs: seq<string>, pattern: string, skipDebug: bool, fs: FileSystem) returns (fileMap: Assoc<string>)
    ensures fileMap == FileMap(dirs, pattern, skipDebug, fs)
  {
    fileMap := [];
    var i := 0;
    while i < |dirs|
      invariant 0 <= i <= |dirs|
      invariant fileMap == FileMap(dirs[..i], pattern, skipDebug, fs)
    {
      FileMapStep(dirs, pattern, skipDebug, fs, i);
      fileMap := AddDirFiles(fileMap, DirFiles(dirs[i], pattern, fs), skipDebug);
      i := i + 1;
    }
    assert dirs[..i] == dirs;
  }

  /** The request's loading state: the modules booted so far and the files required so far. */
  class Loader {
    var booted: set<string>
    var loaded: seq<string>

    ghost predicate Valid()
      reads this
    {
      Distinct(loaded)
    }

    constructor ()
      ensures Valid() && booted == {} && loaded == []
    {
      booted := {};
      loaded := [];
    }

    /** require_once */
    method RequireOnce(file: string)
      requires Valid()
      modifies this
      ensures Valid() && booted == old(booted)
      ensures loaded == RequireAll(old(loaded), [file])
    {
      assert [file][..0] == [];
      if file !in loaded {
        loaded := loaded + [file];
      }
    }

    /** require_once of each file in turn. */
    method RequireEach(files: seq<string>)
      requires Valid()
      modifies this
      ensures Valid() && booted == old(booted)
      ensures loaded == RequireAll(old(loaded), files)
    {
      ghost var before := loaded;
      var k := 0;
      while k < |files|
        invariant 0 <= k <= |files|
        invariant Valid() && booted == old(booted)
        invariant loaded == RequireAll(before, files[..k])
      {
        RequireAllAppend(before, files[..k], [files[k]]);
        assert files[..k] + [files[k]] == files[..k + 1];
        RequireOnce(files[k]);
        k := k + 1;
      }
      assert files[..k] == files;
    }

    /** modules_include_globbed_files */
    method IncludeGlobbedFiles(baseDirs: seq<string>, pattern: string, debugSensitive: bool, wpDebug: bool, fs: FileSystem)
      requires Valid()
      modifies this
      ensures Valid() && booted == old(booted)
      ensures loaded == RequireAll(old(loaded), GlobbedFiles(baseDirs, pattern, debugSensitive, wpDebug, fs))
    {
      var p := LTrimSlash(pattern);
      var dirs := NormalizeBaseDirectories(baseDirs, fs);
      if dirs == [] || p == [] {
        return;
      }
      var fileMap := BuildFileMap(dirs, p, debugSensitive && !wpDebug, fs);
      RequireEach(Values(KSort(fileMap)));
    }

    /** The loop of modules_include_module_support_files over the convention globs. */
    method IncludeConventionFiles(dirs: seq<string>, globs: seq<(string, bool)>, wpDebug: bool, fs: FileSystem)
      requires Valid()
      modifies this
      ensures Valid() && booted == old(booted)
      ensures loaded == RequireAll(old(loaded), ConventionFiles(dirs, globs, wpDebug, fs))
    {
      ghost var before := loaded;
      var i := 0;
      while i < |globs|
        invariant 0 <= i <= |globs|
        invariant Valid() && booted == old(booted)
        invariant loaded == RequireAll(before, ConventionFiles(dirs, globs[..i], wpDebug, fs))
      {
        IncludeConventionGlob(before, dirs, globs, i, wpDebug, fs);
        i := i + 1;
      }
      assert globs[..i] == globs;
    }

    /** One iteration of IncludeConventionFiles: the files of glob i. */
    method IncludeConventionGlob(ghost before: seq<string>, dirs: seq<string>, globs: seq<(string, bool)>, i: nat, wpDebug: bool, fs: FileSystem)
      requires Valid() && i < |globs|
      requires loaded == RequireAll(before, ConventionFiles(dirs, globs[..i], wpDebug, fs))
      modifies this
      ensures Valid() && booted == old(booted)
      ensures loaded == RequireAll(before, ConventionFiles(dirs, globs[..i + 1], wpDebug, fs))
    {
      ConventionRequireStep(before, dirs, globs, wpDebug, fs, i);
      IncludeGlobbedFiles(dirs, globs[i].0, globs[i].1, wpDebug, fs);
    }

    /** modules_include_module_support_files */
    method IncludeSupportFiles(directory: string, wpDebug: bool, fs: FileSystem)
      requires Valid()
      modifies this
      ensures Valid() && booted == old(booted)
      ensures loaded == RequireAll(old(loaded), SupportFiles(directory, wpDebug, fs))
    {
      var dirs := NormalizeBaseDirectories([directory], fs);
      if dirs == [] {
        return;
      }
      IncludeConventionFiles(dirs, ConventionGlobs, wpDebug, fs);
    }

    /** modules_boot_single_module */
    method BootSingleModule(m: BootModule, wpDebug: bool, fs: FileSystem)
      requires Valid()
      modifies this
      ensures Valid() && booted == old(booted)
      ensures loaded == RequireAll(old(loaded), ModuleFiles(m, wpDebug, fs))
    {
      ghost var before := loaded;
      var entry := if m.entryFile != [] && m.entryFile in fs.readableFiles then [m.entryFile] else [];
      if m.entryFile != [] && m.entryFile in fs.readableFiles {
        RequireOnce(m.entryFile);
      }
      assert loaded == RequireAll(before, entry);
      if m.mode != "folder" || m.directory == [] {
        assert entry + [] == entry;
        return;
      }
      RequireAllAppend(before, entry, SupportFiles(m.directory, wpDebug, fs));
      IncludeSupportFiles(m.directory, wpDebug, fs);
    }

    /** One entry of modules_boot_theme_modules: a module not yet booted is booted and marked. */
    method BootEntry(key: string, m: BootModule, wpDebug: bool, fs: FileSystem)
      requires Valid()
      modifies this
      ensures Valid() && booted == old(booted) + {key}
      ensures loaded == RequireAll(old(loaded), if key in old(booted) then [] else ModuleFiles(m, wpDebug, fs))
    {
      if key !in booted {
        BootSingleModule(m, wpDebug, fs);
        booted := booted + {key};
      } else {
        assert loaded == RequireAll(loaded, []);
      }
    }

    /** modules_boot_theme_modules: the enabled catalog arrives keyed by module key. */
    method BootThemeModules(enabled: Assoc<BootModule>, wpDebug: bool, fs: FileSystem)
      requires Valid()
      modifies this
      ensures Valid()
      ensures booted == old(booted) + Elems(Keys(enabled))
      ensures loaded == RequireAll(old(loaded), BootFiles(enabled, old(booted), wpDebug, fs))
    {
      ghost var before := loaded;
      ghost var bootedBefore := booted;
      var i := 0;
      while i < |enabled|
        invariant 0 <= i <= |enabled|
        invariant Valid()
        invariant forall k :: k in booted <==> k in bootedBefore || k in Keys(enabled[..i])
        invariant loaded == RequireAll(before, BootFiles(enabled[..i], bootedBefore, wpDebug, fs))
      {
        ghost var done := BootFiles(enabled[..i], bootedBefore, wpDebug, fs);
        BootStep(enabled, bootedBefore, wpDebug, fs, i);
        BootEntry(enabled[i].0, enabled[i].1, wpDebug, fs);
        RequireAllAppend(before, done, if enabled[i].0 in bootedBefore || enabled[i].0 in Keys(enabled[..i]) then [] else ModuleFiles(enabled[i].1, wpDebug, fs));
        i := i + 1;
      }
      assert enabled[..i] == enabled;
      assert booted == bootedBefore + Elems(Keys(enabled));
    }
  }

  /**
   * Booting the same enabled catalog twice in one request loads its files
   * once: the second call finds every module booted and loads nothing.
   */
  method BootTwice(enabled: Assoc<BootModule>, wpDebug: bool, fs: FileSystem) returns (first: seq<string>, second: seq<string>)
    ensures first == RequireAll([], BootFiles(enabled, {}, wpDebug, fs))
    ensures second == first
  {
    var loader := new Loader();
    loader.BootThemeModules(enabled, wpDebug, fs);
    first := loader.loaded;
    ghost var booted := loader.booted;
    BootAgainLoadsNothing(enabled, booted, wpDebug, fs);
    loader.BootThemeModules(enabled, wpDebug, fs);
    second := loader.loaded;
  }
}
