// Theme Settings page logic (inc/core/modules_admin.php): which page slugs
// open it, the tab list and the selected tab, the extra query arguments of
// a tab URL, the display form of a path, the changelog text, the toggle
// maps saved from the Modules and Blocks tabs, and the grouping of a
// catalog by source.  Rendering, redirects, nonces and option writes are
// outside the model; the filtered tab list, the request values and the
// catalogs arrive as parameters.

module ModulesAdmin {
  import opened Strings
  import opened Order
  import opened ModulesCatalog
  import opened ModulesState
  import opened BlocksState

  // ---------------------------------------------------------------------
  // Settings page slugs

  const SettingsPageSlug: string := "lonestar-theme-modules"
  const LegacySettingsPageSlug: string := "lonestar-theme-settings"

  /** modules_is_settings_page_slug */
  predicate IsSettingsPageSlug(page: string)
  {
    var s := SanitizeKey(page);
    s != [] && (s == SettingsPageSlug || s == LegacySettingsPageSlug)
  }

  /**
   * Among sanitised slugs, exactly the current and the legacy page slug open
   * the settings page; the empty slug does not.
   */
  lemma SettingsPageSlugs(page: string)
    ensures IsKey(page) ==> (IsSettingsPageSlug(page) <==> page == SettingsPageSlug || page == LegacySettingsPageSlug)
    ensures !IsSettingsPageSlug("")
  {
    if IsKey(page) {
      SanitizeKeyOfKey(page);
    }
  }

  // ---------------------------------------------------------------------
  // Tabs

  /** The built-in tabs, in order (labels untranslated). */
  const DefaultTabs: Assoc<string> :=
    [("modules", "Modules"), ("blocks", "Blocks"), ("changelog", "Changelog"), ("about", "About")]

  /** Every tab has a non-empty sanitised key and a non-empty label, and no key repeats. */
  predicate TabsOk(tabs: Assoc<string>)
  {
    tabs != [] && Distinct(Keys(tabs)) &&
    forall i :: 0 <= i < |tabs| ==> TabOk(tabs[i])
  }

  lemma DefaultTabsOk()
    ensures TabsOk(DefaultTabs)
  {
    assert Keys(DefaultTabs) == ["modules", "blocks", "changelog", "about"];
  }

  /** A filtered tab entry with its key sanitised and its label passed through sanitize_text_field. */
  function CleanTab(entry: (string, string)): (string, string)
  {
    (SanitizeKey(entry.0), SanitizeText(entry.1))
  }

  function CleanTabs(entries: seq<(string, string)>): (r: seq<(string, string)>)
    ensures |r| == |entries| && forall i :: 0 <= i < |entries| ==> r[i] == CleanTab(entries[i])
  {
    seq(|entries|, i requires 0 <= i < |entries| => CleanTab(entries[i]))
  }

  /** A cleaned tab is kept when its key and its label are both non-empty. */
  predicate TabKept(t: (string, string)) { t.0 != [] && t.1 != [] }

  predicate TabOk(t: (string, string)) { TabKept(t) && IsKey(t.0) }

  /** The normalisation loop of modules_get_settings_tabs over cleaned entries: a later entry for the same key replaces the label. */
  function KeptTabs(cleaned: seq<(string, string)>): Assoc<string>
  {
    if cleaned == [] then []
    else
      var tabs := KeptTabs(cleaned[..|cleaned| - 1]);
      var t := cleaned[|cleaned| - 1];
      if TabKept(t) then Put(tabs, t.0, t.1) else tabs
  }

  function NormalizedTabs(entries: seq<(string, string)>): Assoc<string>
  {
    KeptTabs(CleanTabs(entries))
  }

  /** Kept tabs are well formed when the cleaned keys are keys. */
  lemma {:induction false} KeptTabsOk(cleaned: seq<(string, string)>)
    requires forall i :: 0 <= i < |cleaned| ==> IsKey(cleaned[i].0)
    ensures Distinct(Keys(KeptTabs(cleaned)))
    ensures forall i :: 0 <= i < |KeptTabs(cleaned)| ==> TabOk(KeptTabs(cleaned)[i])
  {
    if cleaned != [] {
      var init := cleaned[..|cleaned| - 1];
      var t := cleaned[|cleaned| - 1];
      KeptTabsOk(init);
      if TabKept(t) {
        PutDistinct(KeptTabs(init), t.0, t.1);
        PutAll(KeptTabs(init), t.0, t.1, (u: (string, string)) => TabOk(u));
      }
    }
  }

  /** The keys of the kept tabs are exactly the keys of the kept entries. */
  lemma {:induction false} KeptTabsKeys(cleaned: seq<(string, string)>, x: string)
    ensures x in Keys(KeptTabs(cleaned)) <==> exists i :: 0 <= i < |cleaned| && TabKept(cleaned[i]) && cleaned[i].0 == x
  {
    if cleaned != [] {
      var n := |cleaned| - 1;
      var init := cleaned[..n];
      KeptTabsKeys(init, x);
      forall i | 0 <= i < n ensures init[i] == cleaned[i] { }
      if x in Keys(KeptTabs(cleaned)) && x !in Keys(KeptTabs(init)) {
        assert TabKept(cleaned[n]) && cleaned[n].0 == x;
      }
    }
  }

  /** A kept entry's label stands unless a later kept entry has the same key. */
  lemma {:induction false} KeptTabsLabel(cleaned: seq<(string, string)>, i: nat)
    requires i < |cleaned| && TabKept(cleaned[i])
    requires forall j :: i < j < |cleaned| && TabKept(cleaned[j]) ==> cleaned[j].0 != cleaned[i].0
    ensures Get(KeptTabs(cleaned), cleaned[i].0) == Some(cleaned[i].1)
  {
    var n := |cleaned| - 1;
    var init := cleaned[..n];
    if i < n {
      assert init[i] == cleaned[i];
      assert forall j :: i < j < n ==> init[j] == cleaned[j];
      KeptTabsLabel(init, i);
      KeptTabsOther(cleaned, cleaned[i].0);
    }
  }

  /** An entry that is dropped, or has another key, leaves the label of a key as it was. */
  lemma KeptTabsOther(cleaned: seq<(string, string)>, x: string)
    requires cleaned != []
    requires !(TabKept(cleaned[|cleaned| - 1]) && cleaned[|cleaned| - 1].0 == x)
    ensures Get(KeptTabs(cleaned), x) == Get(KeptTabs(cleaned[..|cleaned| - 1]), x)
  {
  }

  /**
   * The normalised tabs are well formed; a key is a tab exactly when some
   * entry with a non-empty label sanitises to it, and the label is that of
   * the last such entry.
   */
  lemma NormalizedTabsKeys(entries: seq<(string, string)>, x: string)
    ensures Distinct(Keys(NormalizedTabs(entries)))
    ensures forall i :: 0 <= i < |NormalizedTabs(entries)| ==> TabOk(NormalizedTabs(entries)[i])
    ensures x in Keys(NormalizedTabs(entries)) <==>
      exists i :: 0 <= i < |entries| && TabKept(CleanTab(entries[i])) && SanitizeKey(entries[i].0) == x
  {
    var cleaned := CleanTabs(entries);
    KeptTabsOk(cleaned);
    KeptTabsKeys(cleaned, x);
  }

  lemma NormalizedTabsLabel(entries: seq<(string, string)>, i: nat)
    requires i < |entries| && TabKept(CleanTab(entries[i]))
    requires forall j :: i < j < |entries| && TabKept(CleanTab(entries[j])) ==> SanitizeKey(entries[j].0) != SanitizeKey(entries[i].0)
    ensures Get(NormalizedTabs(entries), SanitizeKey(entries[i].0)) == Some(SanitizeText(entries[i].1))
  {
    KeptTabsLabel(CleanTabs(entries), i);
  }

  /**
   * modules_get_settings_tabs, the filter's result given: a result that is
   * not an array (None), is empty or normalises to nothing gives the
   * built-in tabs.
   */
  function SettingsTabs(filtered: Option<seq<(string, string)>>): Assoc<string>
  {
    match filtered
    case None => DefaultTabs
    case Some(entries) =>
      var tabs := NormalizedTabs(entries);
      if entries == [] || tabs == [] then DefaultTabs else tabs
  }

  /** The tab list is never empty and always well formed. */
  lemma SettingsTabsOk(filtered: Option<seq<(string, string)>>)
    ensures TabsOk(SettingsTabs(filtered))
  {
    DefaultTabsOk();
    if filtered.Some? {
      NormalizedTabsKeys(filtered.value, "");
    }
  }

  lemma KeptTabsStep(cleaned: seq<(string, string)>, i: nat)
    requires i < |cleaned|
    ensures KeptTabs(cleaned[..i + 1]) ==
      if TabKept(cleaned[i]) then Put(KeptTabs(cleaned[..i]), cleaned[i].0, cleaned[i].1) else KeptTabs(cleaned[..i])
  {
    assert cleaned[..i + 1][..i] == cleaned[..i];
  }

  /** One pass of the normalisation loop: entry i, cleaned, is put into the tabs when kept. */
  method AddTab(tabs: Assoc<string>, entry: (string, string), ghost cleaned: seq<(string, string)>, i: nat) returns (tabs': Assoc<string>)
    requires i < |cleaned| && cleaned[i] == CleanTab(entry)
    requires tabs == KeptTabs(cleaned[..i])
    ensures tabs' == KeptTabs(cleaned[..i + 1])
  {
    KeptTabsStep(cleaned, i);
    var key := SanitizeKey(entry.0);
    var tabLabel := SanitizeText(entry.1);
    if key == [] || tabLabel == [] {
      return tabs;
    }
    tabs' := Put(tabs, key, tabLabel);
  }

  /** The normalisation loop of modules_get_settings_tabs. */
  method NormalizeTabs(entries: seq<(string, string)>) returns (tabs: Assoc<string>)
    ensures tabs == NormalizedTabs(entries)
  {
    tabs := NormalizeCleaned(entries, CleanTabs(entries));
  }

  /** The loop itself, over the entries and (as a ghost) their cleaned forms. */
  method NormalizeCleaned(entries: seq<(string, string)>, ghost cleaned: seq<(string, string)>) returns (tabs: Assoc<string>)
    requires |cleaned| == |entries| && forall i :: 0 <= i < |entries| ==> cleaned[i] == CleanTab(entries[i])
    ensures tabs == KeptTabs(cleaned)
  {
    tabs := [];
    assert cleaned[..0] == [];
    for i := 0 to |entries|
      invariant tabs == KeptTabs(cleaned[..i])
    {
      assert cleaned[i] == CleanTab(entries[i]);
      tabs := AddTab(tabs, entries[i], cleaned, i);
    }
    TakeAll(cleaned);
  }

  /** modules_get_settings_tabs */
  method SettingsTabsOf(filtered: Option<seq<(string, string)>>) returns (tabs: Assoc<string>)
    ensures tabs == SettingsTabs(filtered)
    ensures TabsOk(tabs)
  {
    SettingsTabsOk(filtered);
    if filtered.None? || filtered.value == [] {
      return DefaultTabs;
    }
    tabs := NormalizeTabs(filtered.value);
    if tabs == [] {
      tabs := DefaultTabs;
    }
  }

  /** The tab a request asks for: the argument when it is a string, else the query's 'tab', else ''. */
  function RequestedTab(requested: Option<string>, queryTab: Option<string>): string
  {
    match requested
    case Some(r) => r
    case None =>
      match queryTab
      case Some(q) => q
      case None => ""
  }

  /** modules_get_current_settings_tab */
  function CurrentTab(tabs: Assoc<string>, requested: Option<string>, queryTab: Option<string>): string
  {
    var default := if tabs != [] then SanitizeKey(tabs[0].0) else "modules";
    var r := SanitizeKey(RequestedTab(requested, queryTab));
    if r == [] || Get(tabs, r).None? then default else r
  }

  /** The current tab is always a tab: the requested one when it names a tab, else the first. */
  lemma CurrentTabIsTab(tabs: Assoc<string>, requested: Option<string>, queryTab: Option<string>)
    requires TabsOk(tabs)
    ensures CurrentTab(tabs, requested, queryTab) in Keys(tabs)
    ensures SanitizeKey(RequestedTab(requested, queryTab)) in Keys(tabs) ==>
      CurrentTab(tabs, requested, queryTab) == SanitizeKey(RequestedTab(requested, queryTab))
    ensures SanitizeKey(RequestedTab(requested, queryTab)) !in Keys(tabs) ==>
      CurrentTab(tabs, requested, queryTab) == tabs[0].0
  {
    SanitizeKeyOfKey(tabs[0].0);
    assert Keys(tabs)[0] == tabs[0].0;
  }

  // ---------------------------------------------------------------------
  // Tab URL arguments

  /** A query argument value: a scalar (as its string form) or anything else. */
  datatype QueryArg = Scalar(text: string) | Compound

  /** An extra argument is kept when its sanitised key is non-empty and its value is a scalar. */
  predicate ArgKept(arg: (string, QueryArg))
  {
    SanitizeKey(arg.0) != [] && arg.1.Scalar?
  }

  /** The argument loop of modules_get_settings_tab_url over the extra arguments. */
  function ExtraArgs(base: Assoc<string>, args: seq<(string, QueryArg)>): Assoc<string>
  {
    if args == [] then base
    else
      var a := ExtraArgs(base, args[..|args| - 1]);
      var arg := args[|args| - 1];
      if ArgKept(arg) then Put(a, SanitizeKey(arg.0), arg.1.text) else a
  }

  /** The arguments of a tab URL: page, the current tab, then the kept extra arguments. */
  function TabUrlArgs(tabs: Assoc<string>, tab: string, args: seq<(string, QueryArg)>): Assoc<string>
  {
    ExtraArgs([("page", SettingsPageSlug), ("tab", CurrentTab(tabs, Some(tab), None))], args)
  }

  lemma {:induction false} ExtraArgsKeys(base: Assoc<string>, args: seq<(string, QueryArg)>, x: string)
    ensures x in Keys(ExtraArgs(base, args)) <==>
      x in Keys(base) || exists i :: 0 <= i < |args| && ArgKept(args[i]) && SanitizeKey(args[i].0) == x
  {
    if args != [] {
      var n := |args| - 1;
      var init := args[..n];
      ExtraArgsKeys(base, init, x);
      forall i | 0 <= i < n ensures init[i] == args[i] { }
      if x in Keys(ExtraArgs(base, args)) && x !in Keys(ExtraArgs(base, init)) {
        assert ArgKept(args[n]) && SanitizeKey(args[n].0) == x;
      }
    }
  }

  /**
   * The URL always carries 'page' and 'tab'; any other argument is present
   * exactly when some extra argument with that sanitised key is a non-empty
   * key with a scalar value: the others are dropped.
   */
  lemma TabUrlArgsKeys(tabs: Assoc<string>, tab: string, args: seq<(string, QueryArg)>, x: string)
    ensures "page" in Keys(TabUrlArgs(tabs, tab, args)) && "tab" in Keys(TabUrlArgs(tabs, tab, args))
    ensures x != "page" && x != "tab" ==>
      (x in Keys(TabUrlArgs(tabs, tab, args)) <==>
        exists i :: 0 <= i < |args| && ArgKept(args[i]) && SanitizeKey(args[i].0) == x)
  {
    var base := [("page", SettingsPageSlug), ("tab", CurrentTab(tabs, Some(tab), None))];
    assert Keys(base) == ["page", "tab"];
    ExtraArgsKeys(base, args, x);
    ExtraArgsKeys(base, args, "page");
    ExtraArgsKeys(base, args, "tab");
  }

  lemma ExtraArgsStep(base: Assoc<string>, args: seq<(string, QueryArg)>, i: nat)
    requires i < |args|
    ensures ExtraArgs(base, args[..i + 1]) ==
      if ArgKept(args[i]) then Put(ExtraArgs(base, args[..i]), SanitizeKey(args[i].0), args[i].1.text)
      else ExtraArgs(base, args[..i])
  {
    assert args[..i + 1][..i] == args[..i];
  }

  /** modules_get_settings_tab_url, up to the arguments handed to add_query_arg. */
  method SettingsTabUrlArgs(tabs: Assoc<string>, tab: string, queryArgs: seq<(string, QueryArg)>) returns (args: Assoc<string>)
    ensures args == TabUrlArgs(tabs, tab, queryArgs)
  {
    var current := CurrentTab(tabs, Some(tab), None);
    args := [("page", SettingsPageSlug), ("tab", current)];
    ghost var base := args;
    for i := 0 to |queryArgs|
      invariant args == ExtraArgs(base, queryArgs[..i])
    {
      ExtraArgsStep(base, queryArgs, i);
      var key := SanitizeKey(queryArgs[i].0);
      if key == [] {
        continue;
      }
      if !queryArgs[i].1.Scalar? {
        continue;
      }
      args := Put(args, key, queryArgs[i].1.text);
    }
    assert queryArgs[..|queryArgs|] == queryArgs;
  }

  // ---------------------------------------------------------------------
  // Display path and changelog

  /**
   * modules_get_display_path: the path below the install root (ABSPATH,
   * given) without the root and the leading '/', or the normalised path
   * unchanged when it is not below the root.
   */
  function DisplayPath(absolutePath: string, installRoot: string): string
  {
    var p := NormalizePath(absolutePath);
    var root := NormalizePath(Untrailing(installRoot));
    if p != [] && root != [] && StartsWith(p, root + "/") then LTrimSlash(p[|root|..]) else p
  }

  /** Below the root, root + '/' + the display path rebuilds the path; elsewhere the path is shown whole. */
  lemma DisplayPathRebuilds(absolutePath: string, installRoot: string)
    ensures var p := NormalizePath(absolutePath);
      var root := NormalizePath(Untrailing(installRoot));
      var d := DisplayPath(absolutePath, installRoot);
      if p != [] && root != [] && StartsWith(p, root + "/") then d == [] || p == root + "/" + d
      else d == p
  {
    var p := NormalizePath(absolutePath);
    var root := NormalizePath(Untrailing(installRoot));
    if p != [] && root != [] && StartsWith(p, root + "/") {
      NormalizePathNoDouble(absolutePath);
      RelativeToRebuilds(p, root);
      assert RelativeTo(p, root) == DisplayPath(absolutePath, installRoot);
    }
  }

  /** str_replace("\r\n", "\n", s), scanning left to right. */
  function ReplaceCrlf(s: string): string
  {
    if |s| >= 2 && s[0] == '\r' && s[1] == '\n' then "\n" + ReplaceCrlf(s[2..])
    else if s == [] then []
    else [s[0]] + ReplaceCrlf(s[1..])
  }

  /** s without its carriage returns. */
  function WithoutCr(s: string): string
  {
    if s == [] then [] else (if s[0] == '\r' then [] else [s[0]]) + WithoutCr(s[1..])
  }

  /**
   * Replacing CRLF only drops carriage returns (every other character stays,
   * in order), and a text with no carriage return is left as it is.
   */
  lemma {:induction false} ReplaceCrlfDropsCr(s: string)
    ensures WithoutCr(ReplaceCrlf(s)) == WithoutCr(s)
    ensures |ReplaceCrlf(s)| <= |s|
    ensures '\r' !in s ==> ReplaceCrlf(s) == s
  {
    if |s| >= 2 && s[0] == '\r' && s[1] == '\n' {
      ReplaceCrlfDropsCr(s[2..]);
      assert WithoutCr(s) == WithoutCr(s[1..]);
      assert s[1..][1..] == s[2..];
      assert WithoutCr("\n" + ReplaceCrlf(s[2..])) == "\n" + WithoutCr(ReplaceCrlf(s[2..]));
    } else if s != [] {
      ReplaceCrlfDropsCr(s[1..]);
      assert ([s[0]] + ReplaceCrlf(s[1..]))[1..] == ReplaceCrlf(s[1..]);
      if '\r' !in s { assert '\r' !in s[1..]; }
    }
  }

  /** A CRLF pair after a line without carriage returns becomes one LF. */
  lemma {:induction false} ReplaceCrlfLine(a: string, b: string)
    requires '\r' !in a
    ensures ReplaceCrlf(a + "\r\n" + b) == a + "\n" + ReplaceCrlf(b)
  {
    var s := a + "\r\n" + b;
    if a == [] {
      assert s[2..] == b;
    } else {
      assert s[0] == a[0];
      assert s[1..] == a[1..] + "\r\n" + b;
      ReplaceCrlfLine(a[1..], b);
      assert a == [a[0]] + a[1..];
    }
  }

  /** A carriage return not followed by a line feed is kept. */
  lemma ReplaceCrlfLoneCr(b: string)
    requires b == [] || b[0] != '\n'
    ensures ReplaceCrlf("\r" + b) == "\r" + ReplaceCrlf(b)
  {
    assert ("\r" + b)[1..] == b;
  }

  /**
   * modules_read_changelog_contents over the readable files (path to
   * contents): '' for an empty path or a file that is missing or
   * unreadable, else the contents with CRLF turned into LF, trimmed.
   */
  function ChangelogContents(filePath: string, readable: map<string, string>): (r: string)
    ensures NormalizePath(filePath) == [] || NormalizePath(filePath) !in readable ==> r == []
    ensures r == [] || (!IsTrimChar(r[0]) && !IsTrimChar(r[|r| - 1]))
    ensures NormalizePath(filePath) != [] && NormalizePath(filePath) in readable && '\r' !in readable[NormalizePath(filePath)] ==>
      r == Trim(readable[NormalizePath(filePath)])
  {
    var p := NormalizePath(filePath);
    if p == [] || p !in readable then ""
    else
      ReplaceCrlfDropsCr(readable[p]);
      Trim(ReplaceCrlf(readable[p]))
  }

  // ---------------------------------------------------------------------
  // Toggle maps saved from the Modules and Blocks tabs

  /** The submitted selection: the posted keys sanitised without repeats; nothing when the field is not an array. */
  function Selected(posted: Option<seq<string>>): seq<string>
  {
    match posted
    case None => []
    case Some(keys) => Dedup(SanitizeKeys(keys))
  }

  /** The value saved for one catalog key: false when it is overridden, else whether it was selected. */
  function SavedValue(key: string, selected: seq<string>, overridden: map<string, string>): bool
  {
    if key in overridden then false else key in selected
  }

  /** The loop of the save handler over the catalog keys. */
  function SavedToggles(keys: seq<string>, selected: seq<string>, overridden: map<string, string>): Assoc<bool>
  {
    if keys == [] then []
    else
      var k := keys[|keys| - 1];
      Put(SavedToggles(keys[..|keys| - 1], selected, overridden), k, SavedValue(k, selected, overridden))
  }

  /** The saved map holds each catalog key once. */
  lemma {:induction false} SavedTogglesDistinct(keys: seq<string>, selected: seq<string>, overridden: map<string, string>)
    ensures Distinct(Keys(SavedToggles(keys, selected, overridden)))
  {
    if keys != [] {
      var init := keys[..|keys| - 1];
      var last := keys[|keys| - 1];
      SavedTogglesDistinct(init, selected, overridden);
      PutDistinct(SavedToggles(init, selected, overridden), last, SavedValue(last, selected, overridden));
    }
  }

  /** The saved map has exactly the catalog's keys, each with its saved value. */
  lemma {:induction false} SavedTogglesGet(keys: seq<string>, selected: seq<string>, overridden: map<string, string>, k: string)
    ensures Get(SavedToggles(keys, selected, overridden), k) ==
      if k in keys then Some(SavedValue(k, selected, overridden)) else None
  {
    if keys != [] {
      var init := keys[..|keys| - 1];
      var last := keys[|keys| - 1];
      SavedTogglesGet(init, selected, overridden, k);
      InSnoc(keys, k);
    }
  }

  lemma SavedTogglesStep(keys: seq<string>, selected: seq<string>, overridden: map<string, string>, i: nat)
    requires i < |keys|
    ensures SavedToggles(keys[..i + 1], selected, overridden) ==
      Put(SavedToggles(keys[..i], selected, overridden), keys[i], SavedValue(keys[i], selected, overridden))
  {
    assert keys[..i + 1][..i] == keys[..i];
  }

  method BuildSavedToggles(keys: seq<string>, selected: seq<string>, overridden: map<string, string>) returns (m: Assoc<bool>)
    ensures m == SavedToggles(keys, selected, overridden)
  {
    m := [];
    for i := 0 to |keys|
      invariant m == SavedToggles(keys[..i], selected, overridden)
    {
      SavedTogglesStep(keys, selected, overridden, i);
      var key := keys[i];
      if key in overridden {
        m := Put(m, key, false);
        continue;
      }
      m := Put(m, key, key in selected);
    }
    assert keys[..|keys|] == keys;
  }

  /** The module toggle map written when the Modules tab is saved. */
  method ModuleTogglesToSave(cat: Assoc<CatalogEntry>, posted: Option<seq<string>>) returns (m: Assoc<bool>)
    ensures m == SavedToggles(Keys(cat), Selected(posted), ModuleOverridden(cat))
  {
    var selected := Selected(posted);
    var st := ModuleOverrideState(cat);
    m := BuildSavedToggles(Keys(cat), selected, st.overridden);
  }

  /** The block toggle map written when the Blocks tab is saved. */
  method BlockTogglesToSave(cat: Assoc<BlockEntry>, posted: Option<seq<string>>) returns (m: Assoc<bool>)
    ensures m == SavedToggles(Keys(cat), Selected(posted), BlockOverridden(cat))
  {
    var selected := Selected(posted);
    var st := BlockOverrideState(cat);
    m := BuildSavedToggles(Keys(cat), selected, st.overridden);
  }

  /** Read back through the toggle option, a saved map gives each non-empty catalog key its saved value. */
  lemma SavedToggleRead(keys: seq<string>, selected: seq<string>, overridden: map<string, string>, x: string)
    requires forall y :: y in keys ==> IsKey(y)
    requires x in keys && x != []
    ensures x in ToggleMapOf(Some(SavedToggles(keys, selected, overridden)))
    ensures ToggleMapOf(Some(SavedToggles(keys, selected, overridden)))[x] == SavedValue(x, selected, overridden)
  {
    var saved := SavedToggles(keys, selected, overridden);
    SavedTogglesDistinct(keys, selected, overridden);
    SavedTogglesGet(keys, selected, overridden, x);
    var j := GetEntry(saved, x);
    forall l | 0 <= l < |saved| ensures IsKey(saved[l].0) {
      SavedTogglesGet(keys, selected, overridden, saved[l].0);
      assert Keys(saved)[l] == saved[l].0;
    }
    forall l | j < l < |saved| ensures SanitizeKey(saved[l].0) != SanitizeKey(saved[j].0) {
      SanitizeKeyOfKey(saved[l].0);
      SanitizeKeyOfKey(saved[j].0);
      assert Keys(saved)[l] == saved[l].0 && Keys(saved)[j] == saved[j].0;
    }
    SanitizeKeyOfKey(x);
    ToggleMapLast(saved, j);
  }

  /**
   * After the Blocks tab is saved, and with a filter that changes nothing,
   * every enabled block was selected in the form and is not overridden.
   */
  lemma SavedBlocksEnabled(cat: Assoc<BlockEntry>, posted: Option<seq<string>>, filter: KeyFilter, x: string)
    requires BlockKeysOk(cat)
    requires forall e, a, t :: filter(e, a, t) == Some(e)
    ensures var saved := SavedToggles(Keys(cat), Selected(posted), BlockOverridden(cat));
      x in BlockEnabledSpec(None, BlockEnvironment(cat, Some(saved), filter)) ==>
        x in Selected(posted) && x !in BlockOverridden(cat)
  {
    var saved := SavedToggles(Keys(cat), Selected(posted), BlockOverridden(cat));
    var env := BlockEnvironment(cat, Some(saved), filter);
    if x in BlockEnabledSpec(None, env) {
      BlockEnabledAvailable(None, env, x);
      var avail := Avail(Keys(cat));
      forall i | 0 <= i < |Keys(cat)| ensures IsKey(Keys(cat)[i]) { }
      SanitizeKeysOfKeys(Keys(cat));
      assert x in Elems(Dedup(SanitizeKeys(Keys(cat))));
      BlockEnabledPassThrough(None, env, x);
      CatalogSubsetKeys(avail, cat, x);
      forall y | y in Keys(cat) ensures IsKey(y) { }
      SavedToggleRead(Keys(cat), Selected(posted), BlockOverridden(cat), x);
    }
  }

  // ---------------------------------------------------------------------
  // Grouping a catalog by source

  /** The group of an item: its source normalised, 'template' when it has none. */
  function SourceGroup(source: Option<string>): (g: string)
    ensures g != []
  {
    match source
    case Some(s) => NormalizeSource(s)
    case None => "template"
  }

  /** The members of one group, or none when the group is absent. */
  function MembersOf<V>(groups: Assoc<Assoc<V>>, g: string): Assoc<V>
  {
    match Get(groups, g)
    case Some(items) => items
    case None => []
  }

  /** The grouping loop of modules_group_catalog_by_source, for a given group of each item, from the two theme groups. */
  function GroupItems<V>(catalog: Assoc<V>, groupOf: V -> string): Assoc<Assoc<V>>
  {
    if catalog == [] then [("template", []), ("stylesheet", [])]
    else
      var groups := GroupItems(catalog[..|catalog| - 1], groupOf);
      var (key, item) := catalog[|catalog| - 1];
      var g := groupOf(item);
      Put(groups, g, Put(MembersOf(groups, g), key, item))
  }

  /** The 'template' and 'stylesheet' groups always exist and come first. */
  lemma {:induction false} GroupItemsTheme<V>(catalog: Assoc<V>, groupOf: V -> string)
    ensures |GroupItems(catalog, groupOf)| >= 2
    ensures Keys(GroupItems(catalog, groupOf))[..2] == ["template", "stylesheet"]
  {
    if catalog != [] {
      var init := catalog[..|catalog| - 1];
      var (key, item) := catalog[|catalog| - 1];
      GroupItemsTheme(init, groupOf);
      var groups := GroupItems(init, groupOf);
      var g := groupOf(item);
      var r := Put(groups, g, Put(MembersOf(groups, g), key, item));
      assert Keys(r)[..2] == Keys(groups)[..2] by {
        if g !in Keys(groups) {
          assert Keys(r) == Keys(groups) + [g];
        }
      }
    }
  }

  /** With distinct catalog keys, each item sits under its own key in its own group and in no other. */
  lemma {:induction false} GroupItemsGet<V>(catalog: Assoc<V>, groupOf: V -> string, g: string, k: string)
    requires Distinct(Keys(catalog))
    ensures Get(MembersOf(GroupItems(catalog, groupOf), g), k) ==
      match Get(catalog, k)
      case Some(item) => if groupOf(item) == g then Some(item) else None
      case None => None
  {
    if catalog != [] {
      var init := catalog[..|catalog| - 1];
      var kv := catalog[|catalog| - 1];
      assert catalog == init + [kv];
      KeysSnocDistinct(init, kv);
      GroupItemsGet(init, groupOf, g, k);
      GetSnoc(init, kv, k);
      var groups := GroupItems(init, groupOf);
      var h := groupOf(kv.1);
      var inner := Put(MembersOf(groups, h), kv.0, kv.1);
      var r := Put(groups, h, inner);
      assert GroupItems(catalog, groupOf) == r;
      assert MembersOf(r, g) == if g == h then inner else MembersOf(groups, g);
      if k == kv.0 {
        assert Get(init, k).None?;
        assert Get(catalog, k) == Some(kv.1);
        assert Get(MembersOf(groups, g), k) == None;
        if g == h {
          assert Get(inner, k) == Some(kv.1);
        }
      } else {
        assert Get(catalog, k) == Get(init, k);
        assert Get(inner, k) == Get(MembersOf(groups, h), k);
      }
    } else {
      var base: Assoc<Assoc<V>> := [("template", []), ("stylesheet", [])];
      assert MembersOf(base, g) == [] by {
        assert base[1..][1..] == [];
      }
    }
  }

  /** modules_group_catalog_by_source: the group of an item is its source, normalised. */
  function GroupBySource<V>(catalog: Assoc<V>, sourceOf: V -> Option<string>): Assoc<Assoc<V>>
  {
    GroupItems(catalog, (item: V) => SourceGroup(sourceOf(item)))
  }

  /**
   * The 'template' and 'stylesheet' groups always exist and come first;
   * with distinct catalog keys each item sits, under its own key, in the
   * group of its normalised source ('template' when it has none) and in no
   * other group.
   */
  lemma GroupBySourceGet<V>(catalog: Assoc<V>, sourceOf: V -> Option<string>, g: string, k: string)
    ensures |GroupBySource(catalog, sourceOf)| >= 2 && Keys(GroupBySource(catalog, sourceOf))[..2] == ["template", "stylesheet"]
    ensures Distinct(Keys(catalog)) ==> (Get(MembersOf(GroupBySource(catalog, sourceOf), g), k) ==
      match Get(catalog, k)
      case Some(item) => if SourceGroup(sourceOf(item)) == g then Some(item) else None
      case None => None)
  {
    GroupItemsTheme(catalog, (item: V) => SourceGroup(sourceOf(item)));
    if Distinct(Keys(catalog)) {
      GroupItemsGet(catalog, (item: V) => SourceGroup(sourceOf(item)), g, k);
    }
  }

  lemma GroupItemsStep<V>(catalog: Assoc<V>, groupOf: V -> string, i: nat)
    requires i < |catalog|
    ensures GroupItems(catalog[..i + 1], groupOf) ==
      var groups := GroupItems(catalog[..i], groupOf);
      var g := groupOf(catalog[i].1);
      Put(groups, g, Put(MembersOf(groups, g), catalog[i].0, catalog[i].1))
  {
    assert catalog[..i + 1][..i] == catalog[..i];
  }

  /** modules_group_catalog_by_source */
  method GroupCatalogBySource<V>(catalog: Assoc<V>, sourceOf: V -> Option<string>) returns (groups: Assoc<Assoc<V>>)
    ensures groups == GroupBySource(catalog, sourceOf)
  {
    ghost var groupOf := (item: V) => SourceGroup(sourceOf(item));
    groups := [("template", []), ("stylesheet", [])];
    for i := 0 to |catalog|
      invariant groups == GroupItems(catalog[..i], groupOf)
    {
      GroupItemsStep(catalog, groupOf, i);
      var (key, item) := catalog[i];
      var source := SourceGroup(sourceOf(item));
      var members := MembersOf(groups, source);
      groups := Put(groups, source, Put(members, key, item));
    }
    assert catalog[..|catalog|] == catalog;
  }
}
