// Module enable/disable state (inc/core/modules_state.php).
//
// A module is enabled unless the toggle option holds false for its key (or,
// for old installs, for its bare slug), it is force-disabled by
// configuration, or a module from a higher-priority source with the same
// slug overrides it.  A module whose files disappear is switched off in the
// option and stays off until re-enabled by hand.  WordPress options,
// constants and filters arrive as parameters.

module ModulesState {
  import opened Strings
  import opened Order
  import opened ModulesCatalog
  import opened Override

  // ---------------------------------------------------------------------
  // Keys

  /** modules_get_module_slug_from_key: the slug half of the key, sanitised again. */
  function SlugOfKey(key: string): (slug: string)
    ensures slug == SplitKey(key).slug && IsKey(slug)
  {
    SanitizeKeyOfKey(SplitKey(key).slug);
    SanitizeKey(SplitKey(key).slug)
  }

  /** modules_get_module_source_from_key: the source half, normalised again; never ''. */
  function SourceOfKey(key: string): (source: string)
    ensures source != []
    ensures SanitizeKey(key) != [] ==> source == SplitKey(key).source
    ensures SanitizeKey(key) == [] ==> source == "template"
  {
    SplitSourceNormal(key);
    NormalizeSource(SplitKey(key).source)
  }

  /** The source half of a split key is already normalised, or '' for an empty key. */
  lemma SplitSourceNormal(key: string)
    ensures NormalizeSource(SplitKey(key).source) == if SanitizeKey(key) == [] then "template" else SplitKey(key).source
  {
    var k := SanitizeKey(key);
    if k != [] && IndexOf(k, "__").Some? {
      NormalizeSourceIdempotent(k[..IndexOf(k, "__").value]);
    }
    NormalizeTemplate();
  }

  /** Both halves of a key built for one of the theme's sources come back out of it. */
  lemma KeyHalves(source: string, slug: string)
    requires source == "template" || source == "stylesheet"
    requires SanitizeKey(slug) != []
    ensures SlugOfKey(BuildKey(source, slug)) == SanitizeKey(slug)
    ensures SourceOfKey(BuildKey(source, slug)) == source
  {
    ThemeSourcesSplit(slug);
    SanitizeKeyOfKey(BuildKey(source, slug));
  }

  // ---------------------------------------------------------------------
  // The toggle option

  /**
   * modules_get_module_toggle_map: keys sanitised, empty keys dropped,
   * values cast to bool; a later entry for the same key wins.  A stored
   * value that is not an array reads as the empty map.
   */
  function ToggleMapOf(raw: Option<seq<(string, bool)>>): (m: map<string, bool>)
    ensures forall k :: k in m ==> k != [] && IsKey(k)
  {
    match raw
    case None => map[]
    case Some(entries) => ToggleEntries(entries)
  }

  /** The toggle map built from the stored entries, in order. */
  function ToggleEntries(entries: seq<(string, bool)>): (m: map<string, bool>)
    ensures forall k :: k in m ==> k != [] && IsKey(k)
  {
    if entries == [] then map[]
    else
      var m := ToggleEntries(entries[..|entries| - 1]);
      var (key, enabled) := entries[|entries| - 1];
      var k := SanitizeKey(key);
      if k == [] then m else m[k := enabled]
  }

  /** The toggle map holds, for each sanitised key, the value of its last entry. */
  lemma {:induction false} ToggleMapLast(entries: seq<(string, bool)>, i: nat)
    requires i < |entries| && SanitizeKey(entries[i].0) != []
    requires forall j :: i < j < |entries| ==> SanitizeKey(entries[j].0) != SanitizeKey(entries[i].0)
    ensures SanitizeKey(entries[i].0) in ToggleEntries(entries)
    ensures ToggleEntries(entries)[SanitizeKey(entries[i].0)] == entries[i].1
  {
    if i < |entries| - 1 {
      var init := entries[..|entries| - 1];
      assert init[i] == entries[i];
      ToggleMapLast(init, i);
    }
  }

  /**
   * modules_get_module_toggle_value: the entry for the full key decides;
   * failing that the entry for the legacy bare slug; failing both the
   * module is on.  A toggle map that is not an array turns everything on.
   */
  function ToggleValue(toggles: Option<map<string, bool>>, key: string, slug: string): (on: bool)
    ensures toggles.None? ==> on
    ensures toggles.Some? && key in toggles.value ==> on == toggles.value[key]
    ensures toggles.Some? && key !in toggles.value && slug != [] && slug in toggles.value ==> on == toggles.value[slug]
    ensures toggles.Some? && key !in toggles.value && (slug == [] || slug !in toggles.value) ==> on
  {
    match toggles
    case None => true
    case Some(m) =>
      if key in m then m[key]
      else if slug != [] && slug in m then m[slug]
      else true
  }

  /** Only an explicit false switches a module off. */
  lemma ToggleOffOnlyByFalse(toggles: map<string, bool>, key: string, slug: string)
    ensures !ToggleValue(Some(toggles), key, slug) <==>
      (key in toggles && !toggles[key]) || (key !in toggles && slug != [] && slug in toggles && !toggles[slug])
  {
  }

  // ---------------------------------------------------------------------
  // Forced-disable configuration

  /** A configuration constant: undefined, a string, an array of strings, or anything else. */
  datatype Config = Undefined | Str(s: string) | List(items: seq<string>) | Other

  /** MODULES_DISABLED takes precedence over LONESTAR_DISABLED_MODULES; neither means an empty list. */
  function DisabledConfig(modulesDisabled: Config, lonestarDisabled: Config): Config
  {
    if !modulesDisabled.Undefined? then modulesDisabled
    else if !lonestarDisabled.Undefined? then lonestarDisabled
    else List([])
  }

  function TrimAll(parts: seq<string>): (r: seq<string>)
    ensures |r| == |parts| && forall i :: 0 <= i < |parts| ==> r[i] == Trim(parts[i])
  {
    seq(|parts|, i requires 0 <= i < |parts| => Trim(parts[i]))
  }

  /** The configured entries: a string is split at ',' and each part trimmed; anything but a string or an array gives none. */
  function ConfigItems(c: Config): Option<seq<string>>
  {
    match c
    case Str(s) => Some(TrimAll(Split(s, ',')))
    case List(items) => Some(items)
    case _ => None
  }

  /**
   * modules_get_forced_disabled_module_slugs: the configured entries
   * sanitised, without repeats or empties, sorted.
   */
  function ForcedDisabledSlugs(modulesDisabled: Config, lonestarDisabled: Config): (r: seq<string>)
    ensures Sorted(r)
    ensures forall x :: x in r <==>
      x != [] && ConfigItems(DisabledConfig(modulesDisabled, lonestarDisabled)).Some? &&
      x in SanitizeKeys(ConfigItems(DisabledConfig(modulesDisabled, lonestarDisabled)).value)
  {
    match ConfigItems(DisabledConfig(modulesDisabled, lonestarDisabled))
    case None => []
    case Some(items) =>
      var r := SortUnique(Filter(Dedup(SanitizeKeys(items)), (x: string) => x != []));
      assert forall x :: x in r <==> x in Elems(r);
      assert forall x :: x in SanitizeKeys(items) <==> x in Elems(SanitizeKeys(items));
      r
  }

  /** Every forced entry is a non-empty key. */
  lemma ForcedAreKeys(modulesDisabled: Config, lonestarDisabled: Config)
    ensures forall x :: x in ForcedDisabledSlugs(modulesDisabled, lonestarDisabled) ==> x != [] && IsKey(x)
  {
    forall x | x in ForcedDisabledSlugs(modulesDisabled, lonestarDisabled) ensures IsKey(x) {
      var items := ConfigItems(DisabledConfig(modulesDisabled, lonestarDisabled)).value;
      var i :| 0 <= i < |items| && SanitizeKeys(items)[i] == x;
    }
  }

  /** modules_is_module_forced_disabled: the full key or the non-empty bare slug is listed. */
  predicate IsForcedDisabled(key: string, slug: string, forced: seq<string>)
  {
    forced != [] && (key in forced || (slug != [] && slug in forced))
  }

  /** A module is force-disabled exactly when its key or its slug is among the configured entries. */
  lemma ForcedDisabledIff(key: string, modulesDisabled: Config, lonestarDisabled: Config)
    ensures IsForcedDisabled(key, SlugOfKey(key), ForcedDisabledSlugs(modulesDisabled, lonestarDisabled)) <==>
      ConfigItems(DisabledConfig(modulesDisabled, lonestarDisabled)).Some? &&
      ((key != [] && key in SanitizeKeys(ConfigItems(DisabledConfig(modulesDisabled, lonestarDisabled)).value)) ||
       (SlugOfKey(key) != [] && SlugOfKey(key) in SanitizeKeys(ConfigItems(DisabledConfig(modulesDisabled, lonestarDisabled)).value)))
  {
    var forced := ForcedDisabledSlugs(modulesDisabled, lonestarDisabled);
    if key in forced { assert forced != []; }
    if SlugOfKey(key) in forced { assert forced != []; }
  }

  // ---------------------------------------------------------------------
  // Modules that went missing

  /** The toggle map after persisting: every enabled entry whose key is not available is switched off. */
  function PersistedToggles(available: seq<string>, toggles: map<string, bool>): (m: map<string, bool>)
  {
    map k | k in toggles :: toggles[k] && k in available
  }

  /** Whether persisting changes anything, and so writes the option. */
  predicate PersistWrites(available: seq<string>, toggles: map<string, bool>)
  {
    exists k :: k in toggles && toggles[k] && k !in available
  }

  /**
   * modules_persist_missing_enabled_modules: walks the toggle map and
   * switches off every enabled entry that is not available; reports whether
   * the option has to be written.
   */
  method PersistMissing(available: seq<string>, toggles: map<string, bool>) returns (updated: map<string, bool>, written: bool)
    ensures updated == PersistedToggles(available, toggles)
    ensures written <==> PersistWrites(available, toggles)
  {
    updated := toggles;
    written := false;
    var todo := toggles.Keys;
    while todo != {}
      invariant todo <= toggles.Keys && updated.Keys == toggles.Keys
      invariant forall k :: k in todo ==> updated[k] == toggles[k]
      invariant forall k :: k in toggles && k !in todo ==> updated[k] == (toggles[k] && k in available)
      invariant written <==> exists k :: k in toggles && k !in todo && toggles[k] && k !in available
      decreases todo
    {
      var k :| k in todo;
      if toggles[k] && k !in available {
        updated := updated[k := false];
        written := true;
      }
      todo := todo - {k};
    }
  }

  /** The persisted map has the same keys; only enabled entries of missing modules change. */
  lemma PersistedChanges(available: seq<string>, toggles: map<string, bool>, k: string)
    requires k in toggles
    ensures PersistedToggles(available, toggles).Keys == toggles.Keys
    ensures PersistedToggles(available, toggles)[k] != toggles[k] <==> toggles[k] && k !in available
  {
  }

  /** Persisting twice changes nothing more, and the second time writes nothing. */
  lemma PersistIdempotent(available: seq<string>, toggles: map<string, bool>)
    ensures PersistedToggles(available, PersistedToggles(available, toggles)) == PersistedToggles(available, toggles)
    ensures !PersistWrites(available, PersistedToggles(available, toggles))
  {
  }

  /** A module switched off while missing stays off when its files come back. */
  lemma MissingStaysOff(before: seq<string>, after: seq<string>, toggles: map<string, bool>, k: string)
    requires k in toggles && k !in before
    ensures !PersistedToggles(after, PersistedToggles(before, toggles))[k]
  {
  }

  // ---------------------------------------------------------------------
  // Override state: modules grouped by slug

  /** The group of a catalog entry: its sanitised slug, else the slug half of its key, else the key itself. */
  function GroupSlug(key: string, entry: CatalogEntry): (g: string)
    ensures key != [] ==> g != []
  {
    var s := SanitizeKey(entry.slug);
    if s != [] then s else if SlugOfKey(key) != [] then SlugOfKey(key) else key
  }

  /** A catalog entry as the override pass sees it: its sanitised key and, for a non-empty key, its group. */
  function ModulePair(kv: (string, CatalogEntry)): (string, string)
  {
    var k := SanitizeKey(kv.0);
    (k, if k == [] then [] else GroupSlug(k, kv.1))
  }

  function ModulePairs(cat: Assoc<CatalogEntry>): (pairs: seq<(string, string)>)
    ensures |pairs| == |cat| && forall i :: 0 <= i < |cat| ==> pairs[i] == ModulePair(cat[i])
  {
    seq(|cat|, i requires 0 <= i < |cat| => ModulePair(cat[i]))
  }

  /** The source the comparator uses: the catalog entry's, or the one read from the key. */
  function CandidateSource(cat: Assoc<CatalogEntry>, key: string): string
  {
    match Get(cat, key)
    case Some(entry) => entry.source
    case None => SourceOfKey(key)
  }

  function ModulePriority(cat: Assoc<CatalogEntry>): string -> int
  {
    (key: string) => ModuleKeyPriority(cat, key)
  }

  function ModuleKeyPriority(cat: Assoc<CatalogEntry>, key: string): int
  {
    SourcePriority(CandidateSource(cat, key))
  }

  /** overridden_by_key of the module override state. */
  function ModuleOverridden(cat: Assoc<CatalogEntry>): map<string, string>
  {
    OverriddenOf(ModulePriority(cat), GroupsOf(ModulePairs(cat)))
  }

  datatype OverrideState = OverrideState(groups: Assoc<seq<string>>, winners: Assoc<string>, overridden: map<string, string>)

  /** modules_get_module_override_state */
  method ModuleOverrideState(cat: Assoc<CatalogEntry>) returns (st: OverrideState)
    ensures st.groups == GroupsOf(ModulePairs(cat))
    ensures st.winners == WinnersOf(ModulePriority(cat), st.groups)
    ensures st.overridden == ModuleOverridden(cat)
  {
    if cat == [] {
      return OverrideState([], [], map[]);
    }
    var groups, winners, overridden := ComputeOverride(ModulePairs(cat), ModulePriority(cat));
    st := OverrideState(groups, winners, overridden);
  }

  /** The catalog's keys are sanitised and distinct, as the catalog builder makes them. */
  predicate CatalogKeysOk(cat: Assoc<CatalogEntry>)
  {
    (forall i :: 0 <= i < |cat| ==> IsKey(cat[i].0)) && Distinct(Keys(cat))
  }

  lemma ModulePairsOk(cat: Assoc<CatalogEntry>)
    requires CatalogKeysOk(cat)
    ensures PairsOk(ModulePairs(cat))
    ensures forall i :: 0 <= i < |cat| ==> ModulePairs(cat)[i].0 == cat[i].0
  {
    forall i | 0 <= i < |cat| ensures ModulePairs(cat)[i].0 == cat[i].0 {
      SanitizeKeyOfKey(cat[i].0);
    }
    forall i, j | 0 <= i < j < |cat| ensures ModulePairs(cat)[i].0 != ModulePairs(cat)[j].0 {
      assert Keys(cat)[i] == cat[i].0 && Keys(cat)[j] == cat[j].0;
    }
  }

  lemma ModulePairAt(cat: Assoc<CatalogEntry>, i: nat)
    requires i < |cat| && IsKey(cat[i].0) && cat[i].0 != []
    ensures ModulePairs(cat)[i] == (cat[i].0, GroupSlug(cat[i].0, cat[i].1))
  {
    SanitizeKeyOfKey(cat[i].0);
  }

  /** The priority of a catalog key is the priority of its entry's source. */
  lemma ModulePriorityOf(cat: Assoc<CatalogEntry>, i: nat)
    requires CatalogKeysOk(cat) && i < |cat|
    ensures ModulePriority(cat)(cat[i].0) == SourcePriority(cat[i].1.source)
  {
    GetOfDistinct(cat, cat[i].0);
  }

  /**
   * Each module lands in the group of its slug; it is overridden exactly
   * when it is not that group's winner, and is then mapped to the winner,
   * which beats it.
   */
  lemma ModuleOverride(cat: Assoc<CatalogEntry>, i: nat)
    requires CatalogKeysOk(cat) && i < |cat| && cat[i].0 != []
    ensures cat[i].0 in Members(ModulePairs(cat), GroupSlug(cat[i].0, cat[i].1))
    ensures GroupOr(GroupsOf(ModulePairs(cat)), GroupSlug(cat[i].0, cat[i].1)) == Members(ModulePairs(cat), GroupSlug(cat[i].0, cat[i].1))
    ensures cat[i].0 in ModuleOverridden(cat) <==>
      cat[i].0 != Best(ModulePriority(cat), Members(ModulePairs(cat), GroupSlug(cat[i].0, cat[i].1)))
    ensures cat[i].0 in ModuleOverridden(cat) ==>
      ModuleOverridden(cat)[cat[i].0] == Best(ModulePriority(cat), Members(ModulePairs(cat), GroupSlug(cat[i].0, cat[i].1))) &&
      Beats(ModulePriority(cat), ModuleOverridden(cat)[cat[i].0], cat[i].0)
  {
    ModulePairsOk(cat);
    ModulePairAt(cat, i);
    OverrideResolutionOf(ModulePairs(cat), ModulePriority(cat), i, cat[i].0, GroupSlug(cat[i].0, cat[i].1));
  }

  /** A child-theme module overrides the parent-theme module with the same slug. */
  lemma ChildOverridesParent(cat: Assoc<CatalogEntry>, child: nat, parent: nat)
    requires CatalogKeysOk(cat) && child < |cat| && parent < |cat| && cat[child].0 != [] && cat[parent].0 != []
    requires GroupSlug(cat[child].0, cat[child].1) == GroupSlug(cat[parent].0, cat[parent].1)
    requires NormalizeSource(cat[child].1.source) == "stylesheet" && NormalizeSource(cat[parent].1.source) == "template"
    ensures cat[parent].0 in ModuleOverridden(cat)
  {
    var prio := ModulePriority(cat);
    var g := GroupSlug(cat[child].0, cat[child].1);
    ModulePriorityOf(cat, child);
    ModulePriorityOf(cat, parent);
    assert child != parent by {
      assert NormalizeSource(cat[child].1.source) != NormalizeSource(cat[parent].1.source);
    }
    assert cat[child].0 != cat[parent].0 by {
      assert Keys(cat)[child] == cat[child].0 && Keys(cat)[parent] == cat[parent].0;
    }
    ModuleOverride(cat, child);
    ModuleOverride(cat, parent);
  }

  // ---------------------------------------------------------------------
  // Conflict resolution

  /** modules_resolve_enabled_module_key_conflicts, as a value. */
  function ResolveSpec(enabled: seq<string>, cat: Assoc<CatalogEntry>): seq<string>
  {
    if enabled == [] then []
    else if cat == [] then Dedup(SanitizeKeys(enabled))
    else SortUnique(Kept(enabled, Keys(cat), ModuleOverridden(cat)))
  }

  /**
   * modules_resolve_enabled_module_key_conflicts: with a catalog, the enabled
   * keys that are catalog keys and not overridden, sorted; without one, the
   * sanitised keys without repeats, unsorted.
   */
  method ResolveConflicts(enabled: seq<string>, cat: Assoc<CatalogEntry>) returns (r: seq<string>)
    ensures r == ResolveSpec(enabled, cat)
  {
    if enabled == [] {
      return [];
    }
    if cat == [] {
      return Dedup(SanitizeKeys(enabled));
    }
    var st := ModuleOverrideState(cat);
    r := ResolveKept(enabled, Keys(cat), st.overridden);
  }

  /** With a catalog, the result is sorted and holds exactly the enabled catalog keys that are not overridden. */
  lemma ResolvedKeys(enabled: seq<string>, cat: Assoc<CatalogEntry>, x: string)
    requires enabled != [] && cat != []
    ensures Sorted(ResolveSpec(enabled, cat))
    ensures x in ResolveSpec(enabled, cat) <==>
      x in SanitizeKeys(enabled) && x != [] && x in Keys(cat) && x !in ModuleOverridden(cat)
  {
    var kept := Kept(enabled, Keys(cat), ModuleOverridden(cat));
    KeptMembers(enabled, Keys(cat), ModuleOverridden(cat), x);
    assert x in SortUnique(kept) <==> x in Elems(SortUnique(kept));
  }

  /** Every resolved key is one of the sanitised enabled keys. */
  lemma ResolvedFromEnabled(enabled: seq<string>, cat: Assoc<CatalogEntry>, x: string)
    requires x in ResolveSpec(enabled, cat)
    ensures x in SanitizeKeys(enabled)
  {
    if cat != [] {
      ResolvedKeys(enabled, cat, x);
    } else {
      assert x in Elems(Dedup(SanitizeKeys(enabled)));
    }
  }

  /** Of two modules in one slug group, at least one is overridden. */
  lemma SameGroupOverridden(cat: Assoc<CatalogEntry>, i: nat, j: nat)
    requires CatalogKeysOk(cat) && i < |cat| && j < |cat| && i != j
    requires cat[i].0 != [] && cat[j].0 != []
    requires GroupSlug(cat[i].0, cat[i].1) == GroupSlug(cat[j].0, cat[j].1)
    ensures cat[i].0 in ModuleOverridden(cat) || cat[j].0 in ModuleOverridden(cat)
  {
    ModulePairsOk(cat);
    ModulePairAt(cat, i);
    ModulePairAt(cat, j);
    AtMostOneStanding(ModulePairs(cat), ModulePriority(cat), i, j);
  }

  /** Two modules of the same slug group are never both enabled after resolution. */
  lemma ResolvedOnePerGroup(enabled: seq<string>, cat: Assoc<CatalogEntry>, i: nat, j: nat)
    requires CatalogKeysOk(cat) && i < |cat| && j < |cat| && i != j
    requires GroupSlug(cat[i].0, cat[i].1) == GroupSlug(cat[j].0, cat[j].1)
    ensures !(cat[i].0 in ResolveSpec(enabled, cat) && cat[j].0 in ResolveSpec(enabled, cat))
  {
    if enabled != [] && cat[i].0 != [] && cat[j].0 != [] {
      SameGroupOverridden(cat, i, j);
      ResolvedKeys(enabled, cat, cat[i].0);
      ResolvedKeys(enabled, cat, cat[j].0);
    } else if enabled != [] {
      var e := if cat[i].0 == [] then cat[i].0 else cat[j].0;
      ResolvedKeys(enabled, cat, e);
    }
  }

  // ---------------------------------------------------------------------
  // Normalising the filtered key list

  /**
   * The pairs the slug map is built from: each available key under its slug;
   * a key without a slug is left out (its pair has an empty key).
   */
  function SlugPairs(available: seq<string>): (pairs: seq<(string, string)>)
    ensures |pairs| == |available|
    ensures forall i :: 0 <= i < |available| ==>
      pairs[i] == (if SlugOfKey(available[i]) == [] then [] else available[i], SlugOfKey(available[i]))
  {
    seq(|available|, i requires 0 <= i < |available| =>
      (if SlugOfKey(available[i]) == [] then [] else available[i], SlugOfKey(available[i])))
  }

  /**
   * What one candidate contributes: its sanitised form when that is an
   * available key, else the one available key whose slug it is, else nothing.
   */
  function Pick(candidate: string, available: seq<string>, slugMap: Assoc<seq<string>>): Option<string>
  {
    var k := SanitizeKey(candidate);
    if k == [] then None
    else if k in available then Some(k)
    else match Get(slugMap, k)
      case Some(keys) => if |keys| == 1 then Some(keys[0]) else None
      case None => None
  }

  function Picks(candidates: seq<string>, available: seq<string>, slugMap: Assoc<seq<string>>): seq<string>
  {
    if candidates == [] then []
    else
      Picks(candidates[..|candidates| - 1], available, slugMap) +
      match Pick(candidates[|candidates| - 1], available, slugMap)
      case Some(k) => [k]
      case None => []
  }

  /** The available keys as the function reads them: sanitised, without repeats. */
  function Avail(available: seq<string>): (avail: seq<string>)
    ensures Distinct(avail) && forall x :: x in avail ==> IsKey(x)
  {
    var avail := Dedup(SanitizeKeys(available));
    assert forall x :: x in avail ==> x in Elems(SanitizeKeys(available));
    avail
  }

  /** modules_normalize_enabled_module_keys, as a value. */
  function NormalizeSpec(candidates: seq<string>, available: seq<string>): seq<string>
  {
    var avail := Avail(available);
    SortUnique(Dedup(Picks(candidates, avail, GroupsOf(SlugPairs(avail)))))
  }

  lemma SlugMapStep(avail: seq<string>, i: nat)
    requires i < |avail|
    ensures GroupsOf(SlugPairs(avail)[..i + 1]) == AddMember(GroupsOf(SlugPairs(avail)[..i]), SlugPairs(avail)[i])
  {
    assert SlugPairs(avail)[..i + 1][..i] == SlugPairs(avail)[..i];
  }

  lemma PicksStep(candidates: seq<string>, avail: seq<string>, slugMap: Assoc<seq<string>>, i: nat)
    requires i < |candidates|
    ensures Picks(candidates[..i + 1], avail, slugMap) ==
      Picks(candidates[..i], avail, slugMap) + match Pick(candidates[i], avail, slugMap) case Some(k) => [k] case None => []
  {
    assert candidates[..i + 1][..i] == candidates[..i];
  }

  /**
   * modules_normalize_enabled_module_keys: builds the slug => keys map of
   * the available keys, then maps each candidate through Pick; the result
   * is de-duplicated and sorted.
   */
  method NormalizeEnabledKeys(candidates: seq<string>, available: seq<string>) returns (r: seq<string>)
    ensures r == NormalizeSpec(candidates, available)
  {
    var avail := Avail(available);
    var slugMap := BuildSlugMap(avail);
    var normalized := PickCandidates(candidates, avail, slugMap);
    r := SortUnique(Dedup(normalized));
  }

  /** The first loop of NormalizeEnabledKeys: the slug => keys map of the available keys. */
  method BuildSlugMap(avail: seq<string>) returns (slugMap: Assoc<seq<string>>)
    ensures slugMap == GroupsOf(SlugPairs(avail))
  {
    slugMap := [];
    for i := 0 to |avail|
      invariant slugMap == GroupsOf(SlugPairs(avail)[..i])
    {
      SlugMapStep(avail, i);
      var slug := SlugOfKey(avail[i]);
      if slug == [] {
        continue;
      }
      slugMap := Put(slugMap, slug, GroupOr(slugMap, slug) + [avail[i]]);
    }
    TakeAll(SlugPairs(avail));
  }

  /** The second loop of NormalizeEnabledKeys: each candidate mapped through Pick, in order. */
  method PickCandidates(candidates: seq<string>, avail: seq<string>, slugMap: Assoc<seq<string>>) returns (normalized: seq<string>)
    ensures normalized == Picks(candidates, avail, slugMap)
  {
    normalized := [];
    for i := 0 to |candidates|
      invariant normalized == Picks(candidates[..i], avail, slugMap)
    {
      PicksStep(candidates, avail, slugMap, i);
      var key := SanitizeKey(candidates[i]);
      if key == [] {
        continue;
      }
      if key in avail {
        normalized := normalized + [key];
        continue;
      }
      match Get(slugMap, key)
      case Some(keys) =>
        if |keys| == 1 {
          normalized := normalized + [keys[0]];
        }
      case None =>
    }
    TakeAll(candidates);
  }

  lemma {:induction false} PicksMembers(candidates: seq<string>, avail: seq<string>, slugMap: Assoc<seq<string>>, x: string)
    ensures x in Picks(candidates, avail, slugMap) <==>
      exists i :: 0 <= i < |candidates| && Pick(candidates[i], avail, slugMap) == Some(x)
  {
    if candidates != [] {
      var init := candidates[..|candidates| - 1];
      PicksMembers(init, avail, slugMap, x);
      assert forall i :: 0 <= i < |init| ==> init[i] == candidates[i];
    }
  }

  /** The result holds exactly what the candidates pick, sorted and without repeats. */
  lemma NormalizeMembers(candidates: seq<string>, available: seq<string>, x: string)
    ensures Sorted(NormalizeSpec(candidates, available))
    ensures x in NormalizeSpec(candidates, available) <==>
      exists i :: 0 <= i < |candidates| && Pick(candidates[i], Avail(available), GroupsOf(SlugPairs(Avail(available)))) == Some(x)
  {
    var avail := Avail(available);
    var picks := Picks(candidates, avail, GroupsOf(SlugPairs(avail)));
    PicksMembers(candidates, avail, GroupsOf(SlugPairs(avail)), x);
    assert x in SortUnique(Dedup(picks)) <==> x in Elems(SortUnique(Dedup(picks)));
    assert x in picks <==> x in Elems(picks);
  }

  lemma SlugPairsOk(avail: seq<string>)
    requires Distinct(avail) && forall x :: x in avail ==> IsKey(x)
    ensures PairsOk(SlugPairs(avail))
  {
  }

  /** A sequence without repeats whose every element is x, and which holds x, is [x]. */
  lemma OnlyElement(s: seq<string>, x: string)
    requires Distinct(s) && x in s && forall y :: y in s ==> y == x
    ensures s == [x]
  {
    if |s| > 1 {
      assert s[0] in s && s[1] in s;
    }
    assert s[0] in s;
  }

  /** A candidate that is an available key is kept as it is; one that sanitises to '' is dropped. */
  lemma PickAvailable(candidate: string, available: seq<string>)
    ensures SanitizeKey(candidate) == [] ==> Pick(candidate, Avail(available), GroupsOf(SlugPairs(Avail(available)))) == None
    ensures SanitizeKey(candidate) in Avail(available) && SanitizeKey(candidate) != [] ==>
      Pick(candidate, Avail(available), GroupsOf(SlugPairs(Avail(available)))) == Some(SanitizeKey(candidate))
  {
  }

  /**
   * A bare slug that is not itself an available key picks x exactly when x
   * is the one and only available key with that slug.
   */
  lemma PickBySlug(candidate: string, available: seq<string>, x: string)
    requires SanitizeKey(candidate) != [] && SanitizeKey(candidate) !in Avail(available)
    ensures Pick(candidate, Avail(available), GroupsOf(SlugPairs(Avail(available)))) == Some(x) <==>
      x in Avail(available) && SlugOfKey(x) == SanitizeKey(candidate) &&
      forall y :: y in Avail(available) && SlugOfKey(y) == SanitizeKey(candidate) ==> y == x
  {
    var avail := Avail(available);
    var k := SanitizeKey(candidate);
    var members := Members(SlugPairs(avail), k);
    SlugGroup(avail, k);
    var picked := Pick(candidate, avail, GroupsOf(SlugPairs(avail)));
    assert picked == if members != [] && |members| == 1 then Some(members[0]) else None;
    if picked == Some(x) {
      assert members == [x];
    }
    if x in avail && SlugOfKey(x) == k && forall y :: y in avail && SlugOfKey(y) == k ==> y == x {
      OnlyElement(members, x);
    }
  }

  /** The slug map's entry for a non-empty slug: the available keys with that slug, in order, without repeats. */
  lemma SlugGroup(avail: seq<string>, k: string)
    requires Distinct(avail) && forall x :: x in avail ==> IsKey(x)
    requires k != []
    ensures Get(GroupsOf(SlugPairs(avail)), k) ==
      if Members(SlugPairs(avail), k) == [] then None else Some(Members(SlugPairs(avail), k))
    ensures Distinct(Members(SlugPairs(avail), k))
    ensures forall y :: y in Members(SlugPairs(avail), k) <==> y in avail && SlugOfKey(y) == k
  {
    var pairs := SlugPairs(avail);
    var members := Members(pairs, k);
    GroupsOfGet(pairs, k);
    SlugPairsOk(avail);
    MembersDistinct(pairs, k);
    forall y | y in members ensures y in avail && SlugOfKey(y) == k {
      MembersSound(pairs, k, y);
    }
    forall y | y in avail && SlugOfKey(y) == k ensures y in members {
      var j :| 0 <= j < |avail| && avail[j] == y;
      MembersCover(pairs, j);
    }
  }

  /** Everything the normalisation returns is an available key. */
  lemma NormalizedAvailable(candidates: seq<string>, available: seq<string>, x: string)
    requires x in NormalizeSpec(candidates, available)
    ensures x in Avail(available)
  {
    NormalizeMembers(candidates, available, x);
    var i :| 0 <= i < |candidates| && Pick(candidates[i], Avail(available), GroupsOf(SlugPairs(Avail(available)))) == Some(x);
    var k := SanitizeKey(candidates[i]);
    if k !in Avail(available) {
      PickBySlug(candidates[i], available, x);
    }
  }

  // ---------------------------------------------------------------------
  // The switches that turn every module off

  /** A constant: not defined, or defined with a value that is (or is not) identical to true. */
  datatype Flag = Unset | Defined(isTrue: bool)

  /** MODULES_DISABLE_ALL, LONESTAR_DISABLE_ALL_MODULES and the files present on disk. */
  datatype DisableAll = DisableAll(modulesDisableAll: Flag, lonestarDisableAll: Flag, templateDir: string, files: set<string>)

  /** trailingslashit: exactly one '/' at the end. */
  function TrailingSlashed(s: string): string { Untrailing(s) + "/" }

  /** The sentinel file '.disable-modules' in the parent theme directory. */
  function SentinelFile(templateDir: string): string
  {
    NormalizePath(TrailingSlashed(templateDir) + ".disable-modules")
  }

  /** modules_are_all_modules_forced_disabled */
  predicate AllForcedDisabled(d: DisableAll)
  {
    d.modulesDisableAll == Defined(true) ||
    d.lonestarDisableAll == Defined(true) ||
    SentinelFile(d.templateDir) in d.files
  }

  // ---------------------------------------------------------------------
  // The enabled key list

  /** The keys given, or the catalog's keys when none are given. */
  function AvailableOf(availableArg: Option<seq<string>>, cat: Assoc<CatalogEntry>): seq<string>
  {
    match availableArg
    case Some(keys) => keys
    case None => Keys(cat)
  }

  /** Whether the main loop keeps key k: non-empty, not force-disabled, toggled on. */
  predicate LoopKeeps(k: string, toggles: map<string, bool>, forced: seq<string>)
  {
    k != [] && !IsForcedDisabled(k, SlugOfKey(k), forced) && ToggleValue(Some(toggles), k, SlugOfKey(k))
  }

  /** The keys the main loop keeps, in order. */
  function EnabledLoop(avail: seq<string>, toggles: map<string, bool>, forced: seq<string>): seq<string>
  {
    if avail == [] then []
    else
      var k := avail[|avail| - 1];
      EnabledLoop(avail[..|avail| - 1], toggles, forced) + if LoopKeeps(k, toggles, forced) then [k] else []
  }

  lemma {:induction false} EnabledLoopMembers(avail: seq<string>, toggles: map<string, bool>, forced: seq<string>, x: string)
    ensures x in EnabledLoop(avail, toggles, forced) <==> x in avail && LoopKeeps(x, toggles, forced)
  {
    if avail != [] {
      var init := avail[..|avail| - 1];
      EnabledLoopMembers(init, toggles, forced, x);
      assert avail == init + [avail[|avail| - 1]];
    }
  }

  lemma EnabledLoopStep(avail: seq<string>, toggles: map<string, bool>, forced: seq<string>, i: nat)
    requires i < |avail|
    ensures EnabledLoop(avail[..i + 1], toggles, forced) ==
      EnabledLoop(avail[..i], toggles, forced) + if LoopKeeps(avail[i], toggles, forced) then [avail[i]] else []
  {
    assert avail[..i + 1][..i] == avail[..i];
  }

  /** The main loop of modules_get_enabled_module_keys. */
  method CollectEnabled(avail: seq<string>, toggles: map<string, bool>, forced: seq<string>) returns (enabled: seq<string>)
    ensures enabled == EnabledLoop(avail, toggles, forced)
  {
    enabled := [];
    for i := 0 to |avail|
      invariant enabled == EnabledLoop(avail[..i], toggles, forced)
    {
      EnabledLoopStep(avail, toggles, forced, i);
      var key := avail[i];
      if key == [] {
        continue;
      }
      var slug := SlugOfKey(key);
      if IsForcedDisabled(key, slug, forced) {
        continue;
      }
      if !ToggleValue(Some(toggles), key, slug) {
        continue;
      }
      enabled := enabled + [key];
    }
    assert avail[..|avail|] == avail;
  }

  /**
   * A filter on the key list (lonestar_enabled_module_keys and the older
   * lonestar_enabled_modules); None stands for a return value that is not
   * an array.
   */
  type KeyFilter = (seq<string>, seq<string>, map<string, bool>) -> Option<seq<string>>

  /**
   * The older lonestar_enabled_modules filter: it receives whatever the
   * first filter returned, array or not (None), and is checked only after.
   */
  type LegacyFilter = (Option<seq<string>>, seq<string>, map<string, bool>) -> Option<seq<string>>

  /** The enabled keys, and the toggle map written back to the option, if any. */
  datatype Enabled = Enabled(keys: seq<string>, saved: Option<map<string, bool>>)

  /** The environment the computation reads. */
  datatype Environment = Environment(
    cat: Assoc<CatalogEntry>,           // modules_get_module_catalog()
    storedToggles: Option<seq<(string, bool)>>,  // the toggle option; None when not an array
    switches: DisableAll,
    modulesDisabled: Config,            // MODULES_DISABLED
    lonestarDisabled: Config,           // LONESTAR_DISABLED_MODULES
    filter: KeyFilter,
    legacyFilter: LegacyFilter)

  /** What the keys go through once the option is settled: the loop, resolution, the filters, normalisation, resolution. */
  function FinalKeys(env: Environment, avail: seq<string>, toggles: map<string, bool>): seq<string>
  {
    var enabled := ResolveSpec(EnabledLoop(avail, toggles, ForcedDisabledSlugs(env.modulesDisabled, env.lonestarDisabled)), env.cat);
    match env.legacyFilter(env.filter(enabled, avail, toggles), avail, toggles)
    case None => []
    case Some(legacy) => SortUnique(ResolveSpec(NormalizeSpec(legacy, avail), env.cat))
  }

  /** modules_get_enabled_module_keys, as a value. */
  function EnabledSpec(availableArg: Option<seq<string>>, env: Environment): Enabled
  {
    var given := AvailableOf(availableArg, env.cat);
    if given == [] then Enabled([], None)
    else
      var avail := Avail(given);
      var toggles := ToggleMapOf(env.storedToggles);
      if AllForcedDisabled(env.switches) then Enabled([], None)
      else
        var updated := PersistedToggles(avail, toggles);
        var saved := if PersistWrites(avail, toggles) then Some(updated) else None;
        Enabled(FinalKeys(env, avail, updated), saved)
  }

  /**
   * modules_get_enabled_module_keys: nothing when no module is available or
   * all are force-disabled; otherwise the option is brought up to date, the
   * loop keeps the modules that are switched on and not force-disabled, and
   * the list goes through conflict resolution, the two filters,
   * normalisation, resolution again and a final sort.
   */
  method EnabledKeys(availableArg: Option<seq<string>>, env: Environment) returns (result: Enabled)
    ensures result == EnabledSpec(availableArg, env)
    ensures AllForcedDisabled(env.switches) ==> result.keys == []
  {
    var given := AvailableOf(availableArg, env.cat);
    if given == [] {
      return Enabled([], None);
    }
    var avail := Avail(given);
    var toggles := ToggleMapOf(env.storedToggles);
    var allForced := AllForcedDisabled(env.switches);
    if allForced {
      return Enabled([], None);
    }
    var updated, written := PersistMissing(avail, toggles);
    var saved := if written then Some(updated) else None;
    var keys := FinishKeys(env, avail, updated);
    result := Enabled(keys, saved);
  }

  /** The part of modules_get_enabled_module_keys after the option is settled. */
  method FinishKeys(env: Environment, avail: seq<string>, toggles: map<string, bool>) returns (keys: seq<string>)
    ensures keys == FinalKeys(env, avail, toggles)
  {
    var forced := ForcedDisabledSlugs(env.modulesDisabled, env.lonestarDisabled);
    var enabled := CollectEnabled(avail, toggles, forced);
    enabled := ResolveConflicts(enabled, env.cat);
    var filtered := env.filter(enabled, avail, toggles);
    var legacy := env.legacyFilter(filtered, avail, toggles);
    if legacy.None? {
      return [];
    }
    var normalized := NormalizeEnabledKeys(legacy.value, avail);
    var resolved := ResolveConflicts(normalized, env.cat);
    keys := SortUnique(resolved);
  }

  /** Deduplicating an already sanitized, distinct list changes nothing. */
  lemma AvailOfAvail(avail: seq<string>)
    requires Distinct(avail) && forall x :: x in avail ==> IsKey(x)
    ensures Avail(avail) == avail
  {
    SanitizeKeysOfKeys(avail);
    DedupOfDistinct(avail);
  }

  /** A key that survives normalisation and resolution is an available key. */
  lemma TailAvailable(legacy: seq<string>, avail: seq<string>, cat: Assoc<CatalogEntry>, x: string)
    requires Distinct(avail) && forall y :: y in avail ==> IsKey(y)
    requires x in ResolveSpec(NormalizeSpec(legacy, avail), cat)
    ensures x in avail
  {
    var normalized := NormalizeSpec(legacy, avail);
    ResolvedFromEnabled(normalized, cat, x);
    var i :| 0 <= i < |normalized| && SanitizeKeys(normalized)[i] == x;
    NormalizedAvailable(legacy, avail, normalized[i]);
    AvailOfAvail(avail);
    SanitizeKeyOfKey(normalized[i]);
  }

  lemma FinalKeysAvailable(env: Environment, avail: seq<string>, toggles: map<string, bool>, x: string)
    requires Distinct(avail) && forall y :: y in avail ==> IsKey(y)
    ensures Sorted(FinalKeys(env, avail, toggles))
    ensures x in FinalKeys(env, avail, toggles) ==> x in avail
  {
    var r := FinalKeys(env, avail, toggles);
    if x in r {
      var enabled := ResolveSpec(EnabledLoop(avail, toggles, ForcedDisabledSlugs(env.modulesDisabled, env.lonestarDisabled)), env.cat);
      var legacy := env.legacyFilter(env.filter(enabled, avail, toggles), avail, toggles).value;
      assert x in Elems(ResolveSpec(NormalizeSpec(legacy, avail), env.cat));
      TailAvailable(legacy, avail, env.cat, x);
    }
  }

  /** The enabled list is sorted, without repeats, and made of available keys. */
  lemma EnabledAvailable(availableArg: Option<seq<string>>, env: Environment, x: string)
    ensures Sorted(EnabledSpec(availableArg, env).keys)
    ensures x in EnabledSpec(availableArg, env).keys ==> x in Avail(AvailableOf(availableArg, env.cat))
  {
    var given := AvailableOf(availableArg, env.cat);
    if given != [] && !AllForcedDisabled(env.switches) {
      var avail := Avail(given);
      FinalKeysAvailable(env, avail, PersistedToggles(avail, ToggleMapOf(env.storedToggles)), x);
    }
  }

  /** Resolution of a list of keys only drops keys. */
  lemma ResolvedSubset(enabled: seq<string>, cat: Assoc<CatalogEntry>, x: string)
    requires forall y :: y in enabled ==> IsKey(y)
    requires x in ResolveSpec(enabled, cat)
    ensures x in enabled
  {
    ResolvedFromEnabled(enabled, cat, x);
    SanitizeKeysOfKeys(enabled);
  }

  /** Normalising a list of available keys only drops repeats. */
  lemma NormalizeAvailableKeys(candidates: seq<string>, avail: seq<string>, x: string)
    requires Distinct(avail) && forall y :: y in avail ==> IsKey(y)
    requires forall y :: y in candidates ==> y in avail
    requires x in NormalizeSpec(candidates, avail)
    ensures x in candidates
  {
    NormalizeMembers(candidates, avail, x);
    var i :| 0 <= i < |candidates| && Pick(candidates[i], Avail(avail), GroupsOf(SlugPairs(Avail(avail)))) == Some(x);
    AvailOfAvail(avail);
    SanitizeKeyOfKey(candidates[i]);
    PickAvailable(candidates[i], avail);
  }

  /** The loop's output, after resolution, is made of available keys the loop kept. */
  lemma LoopResolvedAvailable(avail: seq<string>, toggles: map<string, bool>, forced: seq<string>, cat: Assoc<CatalogEntry>)
    requires Distinct(avail) && forall y :: y in avail ==> IsKey(y)
    ensures forall y :: y in ResolveSpec(EnabledLoop(avail, toggles, forced), cat) ==>
      y in avail && y in EnabledLoop(avail, toggles, forced)
  {
    var loop := EnabledLoop(avail, toggles, forced);
    forall y | y in loop ensures y in avail && IsKey(y) {
      EnabledLoopMembers(avail, toggles, forced, y);
    }
    forall y | y in ResolveSpec(loop, cat) ensures y in avail && y in loop {
      ResolvedSubset(loop, cat, y);
    }
  }

  lemma NormalizedInAvail(candidates: seq<string>, avail: seq<string>)
    requires Distinct(avail) && forall y :: y in avail ==> IsKey(y)
    ensures forall y :: y in NormalizeSpec(candidates, avail) ==> y in avail
  {
    AvailOfAvail(avail);
    forall y | y in NormalizeSpec(candidates, avail) ensures y in avail {
      NormalizedAvailable(candidates, avail, y);
    }
  }

  /** Normalising and resolving a list of available keys keeps only keys of the list that are not overridden. */
  lemma TailPassThrough(enabled: seq<string>, avail: seq<string>, cat: Assoc<CatalogEntry>, x: string)
    requires Distinct(avail) && forall y :: y in avail ==> IsKey(y)
    requires forall y :: y in enabled ==> y in avail
    requires x in ResolveSpec(NormalizeSpec(enabled, avail), cat)
    ensures x in enabled
    ensures cat != [] ==> x in Keys(cat) && x !in ModuleOverridden(cat)
  {
    var normalized := NormalizeSpec(enabled, avail);
    NormalizedInAvail(enabled, avail);
    ResolvedSubset(normalized, cat, x);
    NormalizeAvailableKeys(enabled, avail, x);
    if cat != [] {
      ResolvedKeys(normalized, cat, x);
    }
  }

  /** A non-empty key of the list survives resolution when, with a catalog, it is a catalog key not overridden. */
  lemma ResolveKeeps(enabled: seq<string>, cat: Assoc<CatalogEntry>, x: string)
    requires x in enabled && x != [] && IsKey(x)
    requires cat != [] ==> x in Keys(cat) && x !in ModuleOverridden(cat)
    ensures x in ResolveSpec(enabled, cat)
  {
    var i :| 0 <= i < |enabled| && enabled[i] == x;
    SanitizeKeyOfKey(x);
    assert SanitizeKeys(enabled)[i] == x;
    if cat == [] {
      assert x in Elems(Dedup(SanitizeKeys(enabled)));
    } else {
      ResolvedKeys(enabled, cat, x);
    }
  }

  /** Normalising keeps every non-empty available key of the list. */
  lemma NormalizeKeeps(candidates: seq<string>, avail: seq<string>, x: string)
    requires Distinct(avail) && forall y :: y in avail ==> IsKey(y)
    requires x in candidates && x in avail && x != []
    ensures x in NormalizeSpec(candidates, avail)
  {
    var i :| 0 <= i < |candidates| && candidates[i] == x;
    AvailOfAvail(avail);
    SanitizeKeyOfKey(x);
    PickAvailable(x, avail);
    NormalizeMembers(candidates, avail, x);
  }

  /**
   * When both filters pass the list through, the enabled keys are exactly
   * the ones the loop kept that, with a catalog, are catalog keys not
   * overridden.
   */
  lemma FinalKeysPassThrough(env: Environment, avail: seq<string>, toggles: map<string, bool>, x: string)
    requires Distinct(avail) && forall y :: y in avail ==> IsKey(y)
    requires forall e, a, t :: env.filter(e, a, t) == Some(e)
    requires forall e, a, t :: env.legacyFilter(e, a, t) == e
    ensures x in FinalKeys(env, avail, toggles) <==>
      x in EnabledLoop(avail, toggles, ForcedDisabledSlugs(env.modulesDisabled, env.lonestarDisabled)) &&
      (env.cat != [] ==> x in Keys(env.cat) && x !in ModuleOverridden(env.cat))
  {
    var forced := ForcedDisabledSlugs(env.modulesDisabled, env.lonestarDisabled);
    var loop := EnabledLoop(avail, toggles, forced);
    var enabled := ResolveSpec(loop, env.cat);
    assert env.filter(enabled, avail, toggles) == Some(enabled);
    assert env.legacyFilter(Some(enabled), avail, toggles) == Some(enabled);
    var tail := ResolveSpec(NormalizeSpec(enabled, avail), env.cat);
    assert x in FinalKeys(env, avail, toggles) <==> x in Elems(tail);
    LoopResolvedAvailable(avail, toggles, forced, env.cat);
    if x in tail {
      TailPassThrough(enabled, avail, env.cat, x);
    }
    if x in loop && (env.cat != [] ==> x in Keys(env.cat) && x !in ModuleOverridden(env.cat)) {
      EnabledLoopMembers(avail, toggles, forced, x);
      forall y | y in loop ensures IsKey(y) {
        EnabledLoopMembers(avail, toggles, forced, y);
      }
      ResolveKeeps(loop, env.cat, x);
      NormalizeKeeps(enabled, avail, x);
      NormalizedInAvail(enabled, avail);
      ResolveKeeps(NormalizeSpec(enabled, avail), env.cat, x);
    }
  }

  /**
   * With pass-through filters, a module is enabled exactly when not every
   * module is forced off and it is available, switched on in the (updated)
   * toggle option (on by default), not force-disabled and, when the
   * catalog is not empty, a catalog module not overridden by another of
   * its group.
   */
  lemma EnabledPassThrough(availableArg: Option<seq<string>>, env: Environment, x: string)
    requires forall e, a, t :: env.filter(e, a, t) == Some(e)
    requires forall e, a, t :: env.legacyFilter(e, a, t) == e
    ensures
      var avail := Avail(AvailableOf(availableArg, env.cat));
      var toggles := PersistedToggles(avail, ToggleMapOf(env.storedToggles));
      x in EnabledSpec(availableArg, env).keys <==>
        !AllForcedDisabled(env.switches) &&
        x != [] && x in avail &&
        ToggleValue(Some(toggles), x, SlugOfKey(x)) &&
        !IsForcedDisabled(x, SlugOfKey(x), ForcedDisabledSlugs(env.modulesDisabled, env.lonestarDisabled)) &&
        (env.cat != [] ==> x in Keys(env.cat) && x !in ModuleOverridden(env.cat))
  {
    var given := AvailableOf(availableArg, env.cat);
    var avail := Avail(given);
    var toggles := PersistedToggles(avail, ToggleMapOf(env.storedToggles));
    if given != [] && !AllForcedDisabled(env.switches) {
      FinalKeysPassThrough(env, avail, toggles, x);
      EnabledLoopMembers(avail, toggles, ForcedDisabledSlugs(env.modulesDisabled, env.lonestarDisabled), x);
    }
  }
}
