// The helper and shortcode autoloaders (inc/core/helpers.php and
// inc/core/shortcodes.php).
//
// Each script globs one pattern under the parent theme directory and, for
// a child theme, under the child theme directory too, keys the files by
// basename (so a child file replaces the parent file of the same name),
// sorts the map by basename and includes the files in that order.  The
// helper script skips the debug-only helpers unless WP_DEBUG is on.  Glob
// results arrive as a function of the glob pattern; include_once is the
// Loader's once-only require.

module ThemeAutoload {
  import opened Strings
  import opened Order
  import opened ModulesBootstrap

  /** get_template_directory() and get_stylesheet_directory(). */
  datatype Theme = Theme(template: string, stylesheet: string)

  /** A child theme is active when the two directories differ. */
  predicate IsChildTheme(t: Theme) { t.stylesheet != t.template }

  const HelperPattern: string := "/inc/helpers/helper.*.php"
  const ShortcodePattern: string := "/inc/shortcodes/shortcode.*.php"

  /** The autoloaders put every globbed file in the map. */
  function KeepAll(): string -> bool { (f: string) => true }

  /** The $map[basename($file)] = $file assignments of one glob. */
  function ByBasename(files: seq<string>): seq<(string, string)>
  {
    Assignments(files, Basename, KeepAll())
  }

  /** Every globbed file gives one assignment, in glob order. */
  lemma {:induction false} ByBasenameEntries(files: seq<string>)
    ensures var kvs := ByBasename(files);
      |kvs| == |files| && forall i :: 0 <= i < |files| ==> kvs[i] == (Basename(files[i]), files[i])
  {
    if files != [] {
      var init := files[..|files| - 1];
      ByBasenameEntries(init);
      AssignmentsSnoc(init, files[|files| - 1], Basename, KeepAll());
      assert files == init + [files[|files| - 1]];
    }
  }

  /** The assignments of both loops: the parent's files, then the child's when a child theme is active. */
  function ThemeAssignments(t: Theme, pattern: string, glob: string -> seq<string>): seq<(string, string)>
  {
    ByBasename(glob(t.template + pattern)) + (if IsChildTheme(t) then ByBasename(glob(t.stylesheet + pattern)) else [])
  }

  /** The map after both loops. */
  function ThemeFileMap(t: Theme, pattern: string, glob: string -> seq<string>): Assoc<string>
  {
    PutEach([], ThemeAssignments(t, pattern, glob))
  }

  /** The map's files after ksort. */
  function SortedThemeFiles(t: Theme, pattern: string, glob: string -> seq<string>): seq<string>
  {
    Values(KSort(ThemeFileMap(t, pattern, glob)))
  }

  /** The include condition of the helper loop. */
  function IncludeHelper(wpDebug: bool): string -> bool { (f: string) => wpDebug || !DebugOnly(f) }

  /** The files inc/core/helpers.php includes, in order. */
  function HelperIncludes(t: Theme, wpDebug: bool, glob: string -> seq<string>): seq<string>
  {
    Filter(SortedThemeFiles(t, HelperPattern, glob), IncludeHelper(wpDebug))
  }

  /** The files inc/core/shortcodes.php includes, in order. */
  function ShortcodeIncludes(t: Theme, glob: string -> seq<string>): seq<string>
  {
    SortedThemeFiles(t, ShortcodePattern, glob)
  }

  // ---------------------------------------------------------------------
  // Properties

  /** The map's files are keyed by basename and sorted by it, so each basename appears once. */
  lemma SortedThemeFilesOrder(t: Theme, pattern: string, glob: string -> seq<string>)
    ensures var r := SortedThemeFiles(t, pattern, glob);
      Sorted(Basenames(r)) && Distinct(r)
  {
    var m := KSort(ThemeFileMap(t, pattern, glob));
    SortedMapKeyedByBasename(t, pattern, glob);
    BasenamesOfValues(m);
    SortedDistinct(Keys(m));
    DistinctByBasename(Values(m));
  }

  /** Each entry of the sorted map is keyed by its file's basename. */
  lemma SortedMapKeyedByBasename(t: Theme, pattern: string, glob: string -> seq<string>)
    ensures var m := KSort(ThemeFileMap(t, pattern, glob));
      forall i :: 0 <= i < |m| ==> m[i].0 == Basename(m[i].1)
  {
    var P := (kv: (string, string)) => kv.0 == Basename(kv.1);
    PutEachAll([], ThemeAssignments(t, pattern, glob), P);
    KSortAll(ThemeFileMap(t, pattern, glob), P);
  }

  /** Entries keyed by their value's basename: the values' basenames are the keys. */
  lemma BasenamesOfValues(m: Assoc<string>)
    requires forall i :: 0 <= i < |m| ==> m[i].0 == Basename(m[i].1)
    ensures Basenames(Values(m)) == Keys(m)
  {
  }

  /** Files with distinct basenames are distinct. */
  lemma DistinctByBasename(r: seq<string>)
    requires Distinct(Basenames(r))
    ensures Distinct(r)
  {
    forall i, j | 0 <= i < j < |r| ensures r[i] != r[j] {
      assert Basenames(r)[i] != Basenames(r)[j];
    }
  }

  /** A file is included exactly when it is the last one assigned to its basename. */
  lemma SortedThemeFilesLast(t: Theme, pattern: string, glob: string -> seq<string>, f: string)
    ensures var kvs := ThemeAssignments(t, pattern, glob);
      f in SortedThemeFiles(t, pattern, glob) <==> exists l :: LastFor(kvs, l) && kvs[l].1 == f
  {
    LastAssignmentWins(ThemeAssignments(t, pattern, glob), f);
  }

  /**
   * With a child theme, a child file that is the last there with its
   * basename is in the sorted map, and no other file with its basename is.
   */
  lemma {:induction false} ChildReplacesParent(t: Theme, pattern: string, glob: string -> seq<string>, j: int)
    requires IsChildTheme(t)
    requires var cf := glob(t.stylesheet + pattern);
      0 <= j < |cf| && forall m :: j < m < |cf| ==> Basename(cf[m]) != Basename(cf[j])
    ensures var c := glob(t.stylesheet + pattern)[j];
      var r := SortedThemeFiles(t, pattern, glob);
      c in r && forall g :: g in r && Basename(g) == Basename(c) ==> g == c
  {
    var parent := ByBasename(glob(t.template + pattern));
    var child := ByBasename(glob(t.stylesheet + pattern));
    var c := glob(t.stylesheet + pattern)[j];
    ByBasenameEntries(glob(t.stylesheet + pattern));
    assert LastFor(child, j);
    LastForSuffix(parent, child, j);
    var kvs := ThemeAssignments(t, pattern, glob);
    LastAssignmentWins(kvs, c);
    forall g | g in SortedThemeFiles(t, pattern, glob) && Basename(g) == Basename(c) ensures g == c {
      SurvivorUnique(kvs, |parent| + j, g);
    }
  }

  /**
   * Without a child theme the guard only saves work: globbing the same
   * directory a second time would include exactly the same files.
   */
  lemma {:induction false} ChildGuardSavesRescan(t: Theme, pattern: string, glob: string -> seq<string>)
    requires !IsChildTheme(t)
    ensures SortedThemeFiles(t, pattern, glob) ==
      Values(KSort(PutEach([], ByBasename(glob(t.template + pattern)) + ByBasename(glob(t.stylesheet + pattern)))))
  {
    var a := ByBasename(glob(t.template + pattern));
    assert ThemeAssignments(t, pattern, glob) == a by { assert a + [] == a; }
    var once := PutEach([], a);
    PutEachAppend([], a, a);
    forall k ensures Get(PutEach(once, a), k) == Get(once, k) {
      if j :| 0 <= j < |a| && a[j].0 == k {
        var l := LastAssignment(a, j);
        PutEachInside(once, a, l);
        PutEachInside([], a, l);
      } else {
        PutEachOutside(once, a, k);
      }
    }
    KSortCongruent(PutEach(once, a), once);
  }

  /** Each helper is included at most once, in basename order, and a debug-only helper only with WP_DEBUG on. */
  lemma HelperIncludesRule(t: Theme, wpDebug: bool, glob: string -> seq<string>, f: string)
    ensures var r := HelperIncludes(t, wpDebug, glob);
      Sorted(Basenames(r)) && Distinct(r) &&
      (f in r <==> f in SortedThemeFiles(t, HelperPattern, glob) && (wpDebug || !DebugOnly(f)))
  {
    var s := SortedThemeFiles(t, HelperPattern, glob);
    SortedThemeFilesOrder(t, HelperPattern, glob);
    FilterKeepsBasenameOrder(s, IncludeHelper(wpDebug));
    FilterDistinct(s, IncludeHelper(wpDebug));
    assert f in Elems(HelperIncludes(t, wpDebug, glob)) <==> f in Elems(s) && IncludeHelper(wpDebug)(f);
  }

  /** Filtering keeps the basename order. */
  lemma {:induction false} FilterKeepsBasenameOrder(s: seq<string>, keep: string -> bool)
    requires Sorted(Basenames(s))
    ensures Sorted(Basenames(Filter(s, keep)))
  {
    if s != [] {
      var rest := Filter(s[1..], keep);
      assert Basenames(s[1..]) == Basenames(s)[1..];
      FilterKeepsBasenameOrder(s[1..], keep);
      if keep(s[0]) {
        HeadBeforeRest(s);
        forall y | y in rest ensures y in s[1..] {
          assert y in Elems(rest);
        }
        ConsSorted(s[0], rest);
      }
    }
  }

  lemma HeadBeforeRest(s: seq<string>)
    requires s != [] && Sorted(Basenames(s))
    ensures forall y :: y in s[1..] ==> Less(Basename(s[0]), Basename(y))
  {
    forall y | y in s[1..] ensures Less(Basename(s[0]), Basename(y)) {
      var k :| 0 <= k < |s[1..]| && s[1..][k] == y;
      assert Basenames(s)[k + 1] == Basename(y) && Basenames(s)[0] == Basename(s[0]);
      assert Less(Basenames(s)[0], Basenames(s)[k + 1]);
    }
  }

  lemma ConsSorted(x: string, rest: seq<string>)
    requires Sorted(Basenames(rest))
    requires forall y :: y in rest ==> Less(Basename(x), Basename(y))
    ensures Sorted(Basenames([x] + rest))
  {
    var b := Basenames(rest);
    forall j | 0 <= j < |b| ensures Less(Basename(x), b[j]) {
      assert rest[j] in rest;
    }
    SortedCons(Basename(x), b);
    BasenamesCons(x, rest);
  }

  lemma BasenamesCons(x: string, rest: seq<string>)
    ensures Basenames([x] + rest) == [Basename(x)] + Basenames(rest)
  {
    var r := [x] + rest;
    forall i | 0 <= i < |r| ensures Basenames(r)[i] == ([Basename(x)] + Basenames(rest))[i] {
      if i > 0 { assert r[i] == rest[i - 1]; }
    }
  }

  // ---------------------------------------------------------------------
  // The scripts

  lemma ByBasenameStep(m0: Assoc<string>, files: seq<string>, j: nat)
    requires j < |files|
    ensures PutEach(m0, ByBasename(files[..j + 1])) == Put(PutEach(m0, ByBasename(files[..j])), Basename(files[j]), files[j])
  {
    assert files[..j + 1] == files[..j] + [files[j]];
    AssignmentsSnoc(files[..j], files[j], Basename, KeepAll());
    PutEachSnoc(m0, ByBasename(files[..j]), (Basename(files[j]), files[j]));
  }

  /** One foreach loop: $map[basename($file)] = $file for each globbed file. */
  method AddByBasename(m0: Assoc<string>, files: seq<string>) returns (m: Assoc<string>)
    ensures m == PutEach(m0, ByBasename(files))
  {
    m := m0;
    var j := 0;
    while j < |files|
      invariant 0 <= j <= |files|
      invariant m == PutEach(m0, ByBasename(files[..j]))
    {
      ByBasenameStep(m0, files, j);
      m := Put(m, Basename(files[j]), files[j]);
      j := j + 1;
    }
    assert files[..j] == files;
  }

  /** Both foreach loops: the parent's files, then the child's for a child theme. */
  method CollectThemeFiles(t: Theme, pattern: string, glob: string -> seq<string>) returns (m: Assoc<string>)
    ensures m == ThemeFileMap(t, pattern, glob)
  {
    var parent := glob(t.template + pattern);
    m := AddByBasename([], parent);
    if t.stylesheet != t.template {
      var child := glob(t.stylesheet + pattern);
      m := AddByBasename(m, child);
      PutEachAppend([], ByBasename(parent), ByBasename(child));
    } else {
      assert ByBasename(parent) + [] == ByBasename(parent);
    }
  }

  lemma HelperStep(before: seq<string>, files: seq<string>, wpDebug: bool, i: nat)
    requires i < |files|
    ensures RequireAll(before, Filter(files[..i + 1], IncludeHelper(wpDebug))) ==
      RequireAll(RequireAll(before, Filter(files[..i], IncludeHelper(wpDebug))), if wpDebug || !DebugOnly(files[i]) then [files[i]] else [])
  {
    assert files[..i + 1] == files[..i] + [files[i]];
    FilterSnoc(files[..i], files[i], IncludeHelper(wpDebug));
    RequireAllAppend(before, Filter(files[..i], IncludeHelper(wpDebug)), if wpDebug || !DebugOnly(files[i]) then [files[i]] else []);
  }

  /** inc/core/helpers.php */
  method LoadHelpers(loader: Loader, t: Theme, wpDebug: bool, glob: string -> seq<string>)
    requires loader.Valid()
    modifies loader
    ensures loader.Valid() && loader.booted == old(loader.booted)
    ensures loader.loaded == RequireAll(old(loader.loaded), HelperIncludes(t, wpDebug, glob))
  {
    var helpers := CollectThemeFiles(t, HelperPattern, glob);
    IncludeHelpers(loader, Values(KSort(helpers)), wpDebug);
  }

  /** The include loop of inc/core/helpers.php over the sorted map. */
  method IncludeHelpers(loader: Loader, files: seq<string>, wpDebug: bool)
    requires loader.Valid()
    modifies loader
    ensures loader.Valid() && loader.booted == old(loader.booted)
    ensures loader.loaded == RequireAll(old(loader.loaded), Filter(files, IncludeHelper(wpDebug)))
  {
    ghost var before := loader.loaded;
    var i := 0;
    while i < |files|
      invariant 0 <= i <= |files|
      invariant loader.Valid() && loader.booted == old(loader.booted)
      invariant loader.loaded == RequireAll(before, Filter(files[..i], IncludeHelper(wpDebug)))
    {
      HelperStep(before, files, wpDebug, i);
      if Basename(files[i]) in DebugOnlyHelpers && !wpDebug {
        assert RequireAll(loader.loaded, []) == loader.loaded;
      } else {
        loader.RequireOnce(files[i]);
      }
      i := i + 1;
    }
    assert files[..i] == files;
  }

  /** inc/core/shortcodes.php */
  method LoadShortcodes(loader: Loader, t: Theme, glob: string -> seq<string>)
    requires loader.Valid()
    modifies loader
    ensures loader.Valid() && loader.booted == old(loader.booted)
    ensures loader.loaded == RequireAll(old(loader.loaded), ShortcodeIncludes(t, glob))
  {
    var shortcodes := CollectThemeFiles(t, ShortcodePattern, glob);
    loader.RequireEach(Values(KSort(shortcodes)));
  }
}
