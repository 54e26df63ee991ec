// The GTM module's settings (modules/gtm/inc/inc.settings.php): the tab it
// adds to Theme Settings, the sanitising of a settings payload, the
// one-time migration from the legacy ACF fields and the save handler.
//
// PHP values are JsonValues.Json: null, booleans, integers, strings and
// arrays.  is_numeric and the (int) cast of a numeric string are
// parameters.

module GtmSettings {
  import opened Strings
  import opened Order
  import opened JsonValues
  import opened GtmScript

  // ---------------------------------------------------------------------
  // The settings tab

  const GtmKey: string := "gtm"
  const GtmLabel: string := "GTM"
  const GtmEntry: (string, Json) := (GtmKey, JString(GtmLabel))

  predicate IsBlocksKey(k: string) { SanitizeKey(k) == "blocks" }

  /** The position of the first tab whose key sanitizes to 'blocks'. */
  function FirstBlocks(tabs: Assoc<Json>): (r: Option<nat>)
    ensures r.Some? ==> r.value < |tabs| && IsBlocksKey(tabs[r.value].0)
    ensures r.Some? ==> forall i :: 0 <= i < r.value ==> !IsBlocksKey(tabs[i].0)
    ensures r.None? ==> forall i :: 0 <= i < |tabs| ==> !IsBlocksKey(tabs[i].0)
  {
    if tabs == [] then None
    else if IsBlocksKey(tabs[0].0) then Some(0)
    else
      match FirstBlocks(tabs[1..])
      case Some(j) => Some(j + 1)
      case None => None
  }

  /** The tabs with the GTM tab right after the first 'blocks' tab, or last when there is none. */
  function WithGtmTab(tabs: Assoc<Json>): (r: Assoc<Json>)
    ensures |r| == |tabs| + 1
  {
    match FirstBlocks(tabs)
    case Some(j) => tabs[..j + 1] + [GtmEntry] + tabs[j + 1..]
    case None => tabs + [GtmEntry]
  }

  /**
   * Where the GTM tab lands: at position p, right after the first 'blocks'
   * tab or at the end when there is none; taking it out gives back the
   * tabs, every other entry in its order with its label, and no key repeats.
   */
  lemma GtmTabPlacement(tabs: Assoc<Json>) returns (p: nat)
    requires Distinct(Keys(tabs)) && GtmKey !in Keys(tabs)
    ensures var r := WithGtmTab(tabs);
      && p < |r| && r[p] == GtmEntry
      && r[..p] + r[p + 1..] == tabs
      && ((forall i :: 0 <= i < |tabs| ==> !IsBlocksKey(tabs[i].0)) ==> p == |tabs|)
      && ((exists i :: 0 <= i < |tabs| && IsBlocksKey(tabs[i].0)) ==>
            0 < p && IsBlocksKey(r[p - 1].0) && forall i :: 0 <= i < p - 1 ==> !IsBlocksKey(r[i].0))
      && Distinct(Keys(r))
  {
    var r := WithGtmTab(tabs);
    p := if FirstBlocks(tabs).Some? then FirstBlocks(tabs).value + 1 else |tabs|;
    assert r[..p] == tabs[..p] && r[p + 1..] == tabs[p..];
    assert tabs[..p] + tabs[p..] == tabs;
    if FirstBlocks(tabs).Some? {
      assert r[p - 1] == tabs[p - 1];
      assert forall i :: 0 <= i < p - 1 ==> r[i] == tabs[i];
    }
    assert Distinct(Keys(r)) by {
      var ks := Keys(r);
      assert forall i :: 0 <= i < |r| && i != p ==> ks[i] == Keys(tabs)[if i < p then i else i - 1];
      assert ks[p] == GtmKey;
    }
  }

  /** The first 'blocks' tab is at i when tab i is one and none before it is. */
  lemma FirstBlocksAt(tabs: Assoc<Json>, i: nat)
    requires i < |tabs| && IsBlocksKey(tabs[i].0)
    requires forall k :: 0 <= k < i ==> !IsBlocksKey(tabs[k].0)
    ensures FirstBlocks(tabs) == Some(i)
  {
  }

  /** A slice's keys are the slice of the keys. */
  lemma KeysSlice(tabs: Assoc<Json>, lo: nat, hi: nat)
    requires lo <= hi <= |tabs|
    ensures Keys(tabs[lo..hi]) == Keys(tabs)[lo..hi]
  {
  }

  /** Copying entry i while the GTM tab is not yet in: the copy is the prefix so far. */
  lemma TabStepBefore(tabs: Assoc<Json>, updated: Assoc<Json>, i: nat)
    requires Distinct(Keys(tabs)) && i < |tabs|
    requires updated == tabs[..i]
    ensures Put(updated, tabs[i].0, tabs[i].1) == tabs[..i + 1]
  {
    KeyFreshBefore(tabs, i);
    PutNextOfPrefix(tabs, i);
  }

  /** The first 'blocks' tab, once copied, is followed by the GTM tab. */
  lemma GtmAfterFirstBlocks(tabs: Assoc<Json>, i: nat)
    requires GtmKey !in Keys(tabs) && i < |tabs|
    ensures Put(tabs[..i + 1], GtmKey, JString(GtmLabel)) == tabs[..i + 1] + [GtmEntry] + tabs[i + 1..i + 1]
  {
    GtmFresh(tabs, i + 1);
    PutFreshBeforeEmpty(tabs[..i + 1], GtmKey, JString(GtmLabel), tabs, i + 1);
  }

  /** Putting the next entry of s after its prefix, when its key is new, extends the prefix. */
  lemma PutNextOfPrefix<V>(s: Assoc<V>, i: nat)
    requires i < |s| && s[i].0 !in Keys(s[..i])
    ensures Put(s[..i], s[i].0, s[i].1) == s[..i + 1]
  {
    PutNew(s[..i], s[i].0, s[i].1);
    SliceSnoc(s, 0, i);
  }

  /** Putting the next entry of s after a + s[lo..i], when its key is new, extends the slice. */
  lemma PutNextOfSlice<V>(a: Assoc<V>, s: Assoc<V>, lo: nat, i: nat)
    requires lo <= i < |s| && s[i].0 !in Keys(a + s[lo..i])
    ensures Put(a + s[lo..i], s[i].0, s[i].1) == a + s[lo..i + 1]
  {
    PutNew(a + s[lo..i], s[i].0, s[i].1);
    AppendSliceSnoc(a, s, lo, i);
  }

  /** Putting a new key appends it; an empty slice after it changes nothing. */
  lemma PutFreshBeforeEmpty<V>(a: Assoc<V>, k: string, v: V, s: Assoc<V>, i: nat)
    requires k !in Keys(a) && i <= |s|
    ensures Put(a, k, v) == a + [(k, v)] + s[i..i]
  {
    PutNew(a, k, v);
    EmptySliceAppend(a + [(k, v)], s, i);
  }

  lemma KeyFreshBefore(tabs: Assoc<Json>, i: nat)
    requires Distinct(Keys(tabs)) && i < |tabs|
    ensures tabs[i].0 !in Keys(tabs[..i])
  {
    KeysSlice(tabs, 0, i);
    DistinctOutsideSlice(Keys(tabs), i, 0, i);
  }

  lemma GtmFresh(tabs: Assoc<Json>, i: nat)
    requires GtmKey !in Keys(tabs) && i <= |tabs|
    ensures GtmKey !in Keys(tabs[..i])
  {
    KeysSlice(tabs, 0, i);
    NotInSlice(Keys(tabs), GtmKey, 0, i);
  }

  /** Copying entry i once the GTM tab is in after entry j extends the copy by that entry. */
  lemma TabStepAfter(tabs: Assoc<Json>, updated: Assoc<Json>, j: nat, i: nat)
    requires Distinct(Keys(tabs)) && GtmKey !in Keys(tabs) && j < i < |tabs|
    requires updated == tabs[..j + 1] + [GtmEntry] + tabs[j + 1..i]
    ensures Put(updated, tabs[i].0, tabs[i].1) == tabs[..j + 1] + [GtmEntry] + tabs[j + 1..i + 1]
  {
    KeyFreshAfter(tabs, j, i);
    PutNextOfSlice(tabs[..j + 1] + [GtmEntry], tabs, j + 1, i);
  }

  lemma AppendSliceSnoc<T>(a: seq<T>, s: seq<T>, lo: nat, i: nat)
    requires lo <= i < |s|
    ensures (a + s[lo..i]) + [s[i]] == a + s[lo..i + 1]
  {
    assert s[lo..i] + [s[i]] == s[lo..i + 1];
  }

  lemma EmptySliceAppend<T>(a: seq<T>, s: seq<T>, i: nat)
    requires i <= |s|
    ensures a + s[i..i] == a
  {
  }

  lemma SliceSnoc<T>(s: seq<T>, lo: nat, i: nat)
    requires lo <= i < |s|
    ensures s[lo..i] + [s[i]] == s[lo..i + 1]
  {
  }

  /** Key i is not yet among the copied entries. */
  lemma KeyFreshAfter(tabs: Assoc<Json>, j: nat, i: nat)
    requires Distinct(Keys(tabs)) && GtmKey !in Keys(tabs) && j < i < |tabs|
    ensures tabs[i].0 !in Keys(tabs[..j + 1] + [GtmEntry] + tabs[j + 1..i])
  {
    KeysSlice(tabs, 0, j + 1);
    KeysSlice(tabs, j + 1, i);
    KeysAppend(tabs[..j + 1] + [GtmEntry], tabs[j + 1..i]);
    KeysAppend(tabs[..j + 1], [GtmEntry]);
    assert Keys(tabs)[i] == tabs[i].0;
    DistinctOutsideSlice(Keys(tabs), i, 0, j + 1);
    DistinctOutsideSlice(Keys(tabs), i, j + 1, i);
  }

  /** The GTM tab put in after entry j is what a lookup of 'gtm' finds. */
  lemma GtmFound(tabs: Assoc<Json>, j: nat, i: nat)
    requires GtmKey !in Keys(tabs) && j < i <= |tabs|
    ensures Get(tabs[..j + 1] + [GtmEntry] + tabs[j + 1..i], GtmKey) == Some(JString(GtmLabel))
  {
    KeysSlice(tabs, 0, j + 1);
    NotInSlice(Keys(tabs), GtmKey, 0, j + 1);
    GetSnoc(tabs[..j + 1], GtmEntry, GtmKey);
    GetPrefix(tabs[..j + 1] + [GtmEntry], tabs[j + 1..i], GtmKey);
  }

  /** Lookup in a + b finds a key of a in a. */
  lemma {:induction false} GetPrefix<V>(a: Assoc<V>, b: Assoc<V>, k: string)
    requires Get(a, k).Some?
    ensures Get(a + b, k) == Get(a, k)
  {
    if a[0].0 != k {
      assert (a + b)[1..] == a[1..] + b;
      GetPrefix(a[1..], b, k);
    }
  }

  /** What the loop has built after copying the first i tabs. */
  predicate TabsCopied(tabs: Assoc<Json>, updated: Assoc<Json>, inserted: bool, i: nat)
  {
    && i <= |tabs|
    && (!inserted ==> updated == tabs[..i] && forall k :: 0 <= k < i ==> !IsBlocksKey(tabs[k].0))
    && (inserted ==> FirstBlocks(tabs).Some? && FirstBlocks(tabs).value < i
                     && updated == tabs[..FirstBlocks(tabs).value + 1] + [GtmEntry] + tabs[FirstBlocks(tabs).value + 1..i])
  }

  /** One iteration of the loop keeps TabsCopied. */
  lemma TabStep(tabs: Assoc<Json>, updated: Assoc<Json>, inserted: bool, i: nat)
    requires Distinct(Keys(tabs)) && GtmKey !in Keys(tabs) && i < |tabs|
    requires TabsCopied(tabs, updated, inserted, i)
    ensures var u := Put(updated, tabs[i].0, tabs[i].1);
      if IsBlocksKey(tabs[i].0) then TabsCopied(tabs, Put(u, GtmKey, JString(GtmLabel)), true, i + 1)
      else TabsCopied(tabs, u, inserted, i + 1)
  {
    if inserted {
      if IsBlocksKey(tabs[i].0) {
        TabStepRelabel(tabs, updated, i);
      } else {
        TabStepInserted(tabs, updated, i);
      }
    } else if IsBlocksKey(tabs[i].0) {
      TabStepFirstBlocks(tabs, updated, i);
    } else {
      TabStepPlain(tabs, updated, i);
    }
  }

  lemma TabStepInserted(tabs: Assoc<Json>, updated: Assoc<Json>, i: nat)
    requires Distinct(Keys(tabs)) && GtmKey !in Keys(tabs) && i < |tabs|
    requires TabsCopied(tabs, updated, true, i)
    ensures TabsCopied(tabs, Put(updated, tabs[i].0, tabs[i].1), true, i + 1)
  {
    TabStepAfter(tabs, updated, FirstBlocks(tabs).value, i);
  }

  /** After copying entry i, a lookup of 'gtm' still finds the GTM tab put in after entry j. */
  lemma TabStepGtmFound(tabs: Assoc<Json>, updated: Assoc<Json>, j: nat, i: nat)
    requires GtmKey !in Keys(tabs) && j < i < |tabs|
    requires updated == tabs[..j + 1] + [GtmEntry] + tabs[j + 1..i]
    ensures Get(Put(updated, tabs[i].0, tabs[i].1), GtmKey) == Some(JString(GtmLabel))
  {
    assert Keys(tabs)[i] == tabs[i].0;
    GtmFound(tabs, j, i);
  }

  /** A later 'blocks' tab assigns the GTM tab its own label again, which changes nothing. */
  lemma TabStepRelabel(tabs: Assoc<Json>, updated: Assoc<Json>, i: nat)
    requires Distinct(Keys(tabs)) && GtmKey !in Keys(tabs) && i < |tabs|
    requires TabsCopied(tabs, updated, true, i)
    ensures TabsCopied(tabs, Put(Put(updated, tabs[i].0, tabs[i].1), GtmKey, JString(GtmLabel)), true, i + 1)
  {
    var u := Put(updated, tabs[i].0, tabs[i].1);
    TabStepInserted(tabs, updated, i);
    TabStepGtmFound(tabs, updated, FirstBlocks(tabs).value, i);
    PutSame(u, GtmKey, JString(GtmLabel));
  }

  lemma TabStepFirstBlocks(tabs: Assoc<Json>, updated: Assoc<Json>, i: nat)
    requires Distinct(Keys(tabs)) && GtmKey !in Keys(tabs) && i < |tabs|
    requires TabsCopied(tabs, updated, false, i) && IsBlocksKey(tabs[i].0)
    ensures TabsCopied(tabs, Put(Put(updated, tabs[i].0, tabs[i].1), GtmKey, JString(GtmLabel)), true, i + 1)
  {
    TabStepBefore(tabs, updated, i);
    FirstBlocksAt(tabs, i);
    GtmAfterFirstBlocks(tabs, i);
  }

  lemma TabStepPlain(tabs: Assoc<Json>, updated: Assoc<Json>, i: nat)
    requires Distinct(Keys(tabs)) && i < |tabs|
    requires TabsCopied(tabs, updated, false, i) && !IsBlocksKey(tabs[i].0)
    ensures TabsCopied(tabs, Put(updated, tabs[i].0, tabs[i].1), false, i + 1)
  {
    TabStepBefore(tabs, updated, i);
  }

  /**
   * The loop of lonestar_module_register_gtm_settings_tab over the first
   * tabs: each tab copied by assignment, and 'gtm' => 'GTM' assigned after
   * every 'blocks' tab; with whether that happened.
   */
  function TabsLoop(tabs: Assoc<Json>): (Assoc<Json>, bool)
  {
    if tabs == [] then ([], false)
    else
      var prev := TabsLoop(tabs[..|tabs| - 1]);
      var last := tabs[|tabs| - 1];
      var u := Put(prev.0, last.0, last.1);
      if IsBlocksKey(last.0) then (Put(u, GtmKey, JString(GtmLabel)), true) else (u, prev.1)
  }

  /** The loop, then 'gtm' => 'GTM' assigned when no 'blocks' tab came. */
  function TabsWithGtm(tabs: Assoc<Json>): Assoc<Json>
  {
    var (u, inserted) := TabsLoop(tabs);
    if inserted then u else Put(u, GtmKey, JString(GtmLabel))
  }

  lemma TabsLoopStep(tabs: Assoc<Json>, i: nat)
    requires i < |tabs|
    ensures var prev := TabsLoop(tabs[..i]);
      var u := Put(prev.0, tabs[i].0, tabs[i].1);
      TabsLoop(tabs[..i + 1]) == if IsBlocksKey(tabs[i].0) then (Put(u, GtmKey, JString(GtmLabel)), true) else (u, prev.1)
  {
    assert tabs[..i + 1][..i] == tabs[..i];
  }

  /**
   * The loop of lonestar_module_register_gtm_settings_tab, run once isset
   * has found no 'gtm' tab (there may still be one holding null); over tabs
   * without a 'gtm' key it puts the GTM tab in place.
   */
  method InsertGtmTab(tabs: Assoc<Json>) returns (updated: Assoc<Json>)
    requires Distinct(Keys(tabs))
    ensures updated == TabsWithGtm(tabs)
    ensures GtmKey !in Keys(tabs) ==> updated == WithGtmTab(tabs)
  {
    updated := [];
    var inserted := false;
    var i := 0;
    while i < |tabs|
      invariant i <= |tabs| && (updated, inserted) == TabsLoop(tabs[..i])
    {
      TabsLoopStep(tabs, i);
      updated := Put(updated, tabs[i].0, tabs[i].1);
      if IsBlocksKey(tabs[i].0) {
        updated := Put(updated, GtmKey, JString(GtmLabel));
        inserted := true;
      }
      i := i + 1;
    }
    assert tabs[..|tabs|] == tabs;
    if !inserted {
      updated := Put(updated, GtmKey, JString(GtmLabel));
    }
    if GtmKey !in Keys(tabs) {
      TabsWithGtmFresh(tabs);
    }
  }

  /** Over tabs without a 'gtm' key, the loop puts the GTM tab after the first 'blocks' tab, or last. */
  lemma TabsWithGtmFresh(tabs: Assoc<Json>)
    requires Distinct(Keys(tabs)) && GtmKey !in Keys(tabs)
    ensures TabsWithGtm(tabs) == WithGtmTab(tabs)
  {
    TabsLoopCopied(tabs, |tabs|);
    assert tabs[..|tabs|] == tabs;
    var (u, inserted) := TabsLoop(tabs);
    LoopDone(tabs, u, inserted);
    if !inserted {
      PutNew(u, GtmKey, JString(GtmLabel));
    }
  }

  /** The loop state after i tabs is the copy TabsCopied describes. */
  lemma {:induction false} TabsLoopCopied(tabs: Assoc<Json>, i: nat)
    requires Distinct(Keys(tabs)) && GtmKey !in Keys(tabs) && i <= |tabs|
    ensures TabsCopied(tabs, TabsLoop(tabs[..i]).0, TabsLoop(tabs[..i]).1, i)
  {
    if i == 0 {
      assert tabs[..0] == [];
    } else {
      TabsLoopCopied(tabs, i - 1);
      TabsLoopCopiedStep(tabs, i - 1, TabsLoop(tabs[..i - 1]).0, TabsLoop(tabs[..i - 1]).1);
    }
  }

  lemma TabsLoopCopiedStep(tabs: Assoc<Json>, i: nat, u: Assoc<Json>, inserted: bool)
    requires Distinct(Keys(tabs)) && GtmKey !in Keys(tabs) && i < |tabs|
    requires (u, inserted) == TabsLoop(tabs[..i]) && TabsCopied(tabs, u, inserted, i)
    ensures TabsCopied(tabs, TabsLoop(tabs[..i + 1]).0, TabsLoop(tabs[..i + 1]).1, i + 1)
  {
    TabStep(tabs, u, inserted, i);
    TabsLoopStep(tabs, i);
  }

  /**
   * A 'gtm' tab holding null is not set for isset, so the loop runs: before
   * a 'blocks' tab it is filled in with the GTM label where it stands.
   */
  lemma NullGtmTabFilled()
    ensures TabsWithGtm([(GtmKey, JNull), ("blocks", JString("Blocks"))]) ==
      [(GtmKey, JString(GtmLabel)), ("blocks", JString("Blocks"))]
  {
    BlocksGtmKeys();
    var b := ("blocks", JString("Blocks"));
    var t: Assoc<Json> := [(GtmKey, JNull), b];
    assert t[..1] == [(GtmKey, JNull)] && t[..1][..0] == [];
    var u0: Assoc<Json> := [(GtmKey, JNull)];
    assert TabsLoop(t[..1]) == (u0, false);
    PutNew(u0, b.0, b.1);
    var u1 := u0 + [b];
    assert u1[0].0 == GtmKey && u1[1..] == [b];
    assert Put(u1, GtmKey, JString(GtmLabel)) == [(GtmKey, JString(GtmLabel))] + [b];
    assert t[..2] == t;
  }

  /**
   * After a 'blocks' tab, copying a 'gtm' tab holding null overwrites the
   * GTM tab just put in with null again.
   */
  lemma NullGtmTabAfterBlocks()
    ensures TabsWithGtm([("blocks", JString("Blocks")), (GtmKey, JNull)]) ==
      [("blocks", JString("Blocks")), (GtmKey, JNull)]
  {
    var b := ("blocks", JString("Blocks"));
    var t: Assoc<Json> := [b, (GtmKey, JNull)];
    var u1: Assoc<Json> := [b, (GtmKey, JString(GtmLabel))];
    BlocksGtmKeys();
    assert t[..1] == [b] && t[..2] == t;
    BlocksTabLoop(b.1);
    TabsLoopStep(t, 1);
    assert TabsLoop(t) == (Put(u1, GtmKey, JNull), true);
    PutSecond(b, GtmKey, JString(GtmLabel), JNull);
  }

  /** A lone 'blocks' tab is copied and followed by the GTM tab. */
  lemma BlocksTabLoop(title: Json)
    ensures TabsLoop([("blocks", title)]) == ([("blocks", title), (GtmKey, JString(GtmLabel))], true)
  {
    var t: Assoc<Json> := [("blocks", title)];
    BlocksGtmKeys();
    assert t[..|t| - 1] == [];
    assert TabsLoop(t[..|t| - 1]) == ([], false);
    PutNew([], "blocks", title);
    var u := Put([], "blocks", title);
    assert u == t;
    assert TabsLoop(t) == (Put(u, GtmKey, JString(GtmLabel)), true);
    assert Keys(t) == ["blocks"];
    PutNew(t, GtmKey, JString(GtmLabel));
    assert Put(t, GtmKey, JString(GtmLabel)) == [("blocks", title), (GtmKey, JString(GtmLabel))];
  }

  /** Putting the second of two keys replaces its value where it stands. */
  lemma PutSecond(first: (string, Json), k: string, was: Json, v: Json)
    requires first.0 != k
    ensures Put([first, (k, was)], k, v) == [first, (k, v)]
  {
    var a := [first, (k, was)];
    assert a[1..] == [(k, was)];
  }

  lemma BlocksGtmKeys()
    ensures IsBlocksKey("blocks") && !IsBlocksKey(GtmKey)
  {
    SanitizeKeyOfKey("blocks");
    SanitizeKeyOfKey(GtmKey);
  }

  /** After the last tab: either the copy with the GTM tab in place, or the tabs unchanged with no 'blocks' tab. */
  lemma LoopDone(tabs: Assoc<Json>, updated: Assoc<Json>, inserted: bool)
    requires GtmKey !in Keys(tabs)
    requires TabsCopied(tabs, updated, inserted, |tabs|)
    ensures inserted ==> updated == WithGtmTab(tabs)
    ensures !inserted ==> GtmKey !in Keys(updated) && updated + [GtmEntry] == WithGtmTab(tabs)
  {
    assert tabs[..|tabs|] == tabs;
    if inserted {
      assert tabs[FirstBlocks(tabs).value + 1..|tabs|] == tabs[FirstBlocks(tabs).value + 1..];
    }
  }

  /**
   * lonestar_module_register_gtm_settings_tab: a non-array, or tabs whose
   * 'gtm' entry is set (present and not null), come back unchanged;
   * otherwise the GTM tab is put after the first 'blocks' tab, or last.
   * A 'gtm' entry holding null goes through the same loop.
   */
  method RegisterTab(tabs: Json) returns (r: Json)
    requires tabs.JObject? ==> Distinct(Keys(tabs.members))
    ensures !tabs.JObject? || Member(tabs, GtmKey).Some? ==> r == tabs
    ensures tabs.JObject? && Member(tabs, GtmKey).None? ==> r == JObject(TabsWithGtm(tabs.members))
    ensures tabs.JObject? && GtmKey !in Keys(tabs.members) ==> r == JObject(WithGtmTab(tabs.members))
  {
    if !tabs.JObject? || Member(tabs, GtmKey).Some? {
      return tabs;
    }
    var updated := InsertGtmTab(tabs.members);
    r := JObject(updated);
  }

  /** is_numeric and (int) on a string, which the model takes as given. */
  datatype NumericText = NumericText(isNumeric: string -> bool, intValue: string -> int)

  // ---------------------------------------------------------------------
  // Sanitising

  datatype Settings = Settings(enabled: bool, containerId: string)

  const EnabledWords: set<string> := {"1", "true", "yes", "on"}

  /** The 'enabled' flag before the container ID is looked at. */
  predicate EnabledFlag(num: NumericText, v: Json)
  {
    match v
    case JBool(b) => b
    case JNumber(n) => n > 0
    case JString(s) => if num.isNumeric(s) then num.intValue(s) > 0 else Lower(Trim(s)) in EnabledWords
    case _ => false
  }

  /** lonestar_module_sanitize_gtm_settings */
  function Sanitize(num: NumericText, settings: Json): (r: Settings)
    ensures r.containerId == NormalizeContainerId(CastString(ValueOr(settings, "container_id", JString(""))))
    ensures r.enabled ==> r.containerId != []
    ensures r.enabled <==> r.containerId != [] && EnabledFlag(num, ValueOr(settings, "enabled", JBool(false)))
  {
    var id := NormalizeContainerId(CastString(ValueOr(settings, "container_id", JString(""))));
    var enabled := EnabledFlag(num, ValueOr(settings, "enabled", JBool(false)));
    Settings(if id == [] then false else enabled, id)
  }

  /**
   * 'enabled' is true only for boolean true, a number above zero, a numeric
   * string whose integer value is above zero, or another string that
   * trims and lower-cases to '1', 'true', 'yes' or 'on'; and only with a
   * container ID.
   */
  lemma EnabledRule(num: NumericText, settings: Json)
    ensures var v := ValueOr(settings, "enabled", JBool(false));
      Sanitize(num, settings).enabled ==>
        && Sanitize(num, settings).containerId != []
        && (|| v == JBool(true)
            || (v.JNumber? && v.n > 0)
            || (v.JString? && num.isNumeric(v.s) && num.intValue(v.s) > 0)
            || (v.JString? && !num.isNumeric(v.s) && Lower(Trim(v.s)) in EnabledWords))
  {
  }

  /** The array the settings are stored as. */
  function Stored(s: Settings): (r: Json)
    ensures Member(r, "enabled") == Some(JBool(s.enabled))
    ensures Member(r, "container_id") == Some(JString(s.containerId))
  {
    var m := [("enabled", JBool(s.enabled)), ("container_id", JString(s.containerId))];
    assert m[1..] == [("container_id", JString(s.containerId))];
    assert Get(m, "container_id") == Get(m[1..], "container_id");
    JObject(m)
  }

  /** Sanitising stored settings gives them back, so sanitising is idempotent. */
  lemma SanitizeIdempotent(num: NumericText, settings: Json)
    ensures Sanitize(num, Stored(Sanitize(num, settings))) == Sanitize(num, settings)
  {
    var s := Sanitize(num, settings);
    NormalizeIdempotent(CastString(ValueOr(settings, "container_id", JString(""))));
    SanitizeStored(num, s);
  }

  /** Sanitising a stored array re-normalises its ID and keeps its flag only with an ID. */
  lemma SanitizeStored(num: NumericText, s: Settings)
    ensures Sanitize(num, Stored(s)) == Settings(s.enabled && NormalizeContainerId(s.containerId) != [], NormalizeContainerId(s.containerId))
  {
    assert ValueOr(Stored(s), "container_id", JString("")) == JString(s.containerId);
    assert ValueOr(Stored(s), "enabled", JBool(false)) == JBool(s.enabled);
  }

  // ---------------------------------------------------------------------
  // Storage

  const OptionKey: string := "lonestar_gtm_settings"

  /**
   * The option and the transient the module reads and writes, and the
   * settings the request has already read (the function's static cache).
   */
  class SettingsStore {
    var option: Json
    var cached: Option<Settings>
    var noticeSaved: bool

    constructor (option: Json)
      ensures this.option == option && cached == None && !noticeSaved
    {
      this.option := option;
      cached := None;
      noticeSaved := false;
    }

    /**
     * lonestar_module_get_gtm_settings: the cached settings, else the stored
     * array sanitised, else the legacy ACF values (acf: the two fields, or
     * None when ACF is not loaded), which are written to the option when
     * they are enabled or carry an ID.
     */
    method GetSettings(num: NumericText, acf: Option<(Json, Json)>) returns (s: Settings)
      modifies this
      ensures (s, option) == ReadSettings(num, old(cached), old(option), acf)
      ensures cached == Some(s) && noticeSaved == old(noticeSaved)
    {
      var read := ReadSettings(num, cached, option, acf);
      s, option := read.0, read.1;
      cached := Some(s);
    }

    /**
     * lonestar_module_handle_gtm_settings_post: only on the 'gtm' tab and
     * for a user who may manage options, the posted array is sanitised and
     * stored and the saved notice is set.
     */
    method HandlePost(num: NumericText, currentTab: string, canManageOptions: bool, posted: Json)
      modifies this
      ensures !PostApplies(currentTab, canManageOptions) ==> option == old(option) && noticeSaved == old(noticeSaved)
      ensures PostApplies(currentTab, canManageOptions) ==> option == Stored(Sanitize(num, posted)) && noticeSaved
      ensures cached == old(cached)
    {
      var after := AfterPost(num, currentTab, canManageOptions, posted, option, noticeSaved);
      option, noticeSaved := after.0, after.1;
    }
  }

  /**
   * The settings a request reads and the option afterwards: the request's
   * cached settings if any; else a stored array, sanitised and left as it
   * is; else the legacy ACF values, sanitised and stored when they are
   * enabled or carry an ID.
   */
  function ReadSettings(num: NumericText, cached: Option<Settings>, option: Json, acf: Option<(Json, Json)>): (r: (Settings, Json))
    ensures cached.Some? ==> r == (cached.value, option)
    ensures cached.None? && IsArray(option) ==> r == (Sanitize(num, option), option)
    ensures cached.None? && !IsArray(option) ==> r.0 == Sanitize(num, LegacyPayload(acf))
    ensures cached.None? && !IsArray(option) ==> r.1 == if MigrationWrites(r.0) then Stored(r.0) else option
  {
    if cached.Some? then (cached.value, option)
    else if IsArray(option) then (Sanitize(num, option), option)
    else
      var s := Sanitize(num, LegacyPayload(acf));
      if s.enabled || s.containerId != [] then (s, Stored(s)) else (s, option)
  }

  /** The option and the saved notice after a POST to the settings page. */
  function AfterPost(num: NumericText, currentTab: string, canManageOptions: bool, posted: Json, option: Json, noticeSaved: bool): (r: (Json, bool))
    ensures !PostApplies(currentTab, canManageOptions) ==> r == (option, noticeSaved)
    ensures PostApplies(currentTab, canManageOptions) ==> r == (Stored(Sanitize(num, posted)), true)
  {
    if SanitizeKey(currentTab) == GtmKey && canManageOptions then
      var payload := if IsArray(posted) then posted else JObject([]);
      SanitizeNonArray(num, posted);
      (Stored(Sanitize(num, payload)), true)
    else (option, noticeSaved)
  }

  /** A payload that is not an array sanitises like the empty array. */
  lemma SanitizeNonArray(num: NumericText, v: Json)
    ensures !IsArray(v) ==> Sanitize(num, v) == Sanitize(num, JObject([]))
  {
    assert Member(JObject([]), "enabled").None? && Member(JObject([]), "container_id").None?;
  }

  /** lonestar_module_get_gtm_settings_from_acf's payload. */
  function LegacyPayload(acf: Option<(Json, Json)>): (r: Json)
    ensures acf.None? ==> Member(r, "enabled").None? && Member(r, "container_id").None?
  {
    match acf
    case None => JObject([])
    case Some((enabled, id)) => JObject([("enabled", enabled), ("container_id", id)])
  }

  predicate MigrationWrites(s: Settings) { s.enabled || s.containerId != [] }

  /** The save handler acts only on the tab whose key sanitizes to 'gtm', and for a user who may manage options. */
  predicate PostApplies(currentTab: string, canManageOptions: bool)
  {
    SanitizeKey(currentTab) == GtmKey && canManageOptions
  }

  /** The migration writes exactly when the legacy fields give a valid container ID. */
  lemma MigrationWritesIffId(num: NumericText, acf: Option<(Json, Json)>)
    ensures MigrationWrites(Sanitize(num, LegacyPayload(acf))) <==> Sanitize(num, LegacyPayload(acf)).containerId != []
  {
  }

  /** Without ACF the migration yields disabled settings with no ID and writes nothing. */
  lemma NoAcfNoMigration(num: NumericText)
    ensures Sanitize(num, LegacyPayload(None)) == Settings(false, [])
    ensures !MigrationWrites(Sanitize(num, LegacyPayload(None)))
  {
    BlankGivesEmpty("");
  }

  /** Once migrated, a later request reads the stored option and gets the same settings. */
  lemma MigratedOptionReadsBack(num: NumericText, acf: Option<(Json, Json)>)
    ensures var s := Sanitize(num, LegacyPayload(acf));
      IsArray(Stored(s)) && Sanitize(num, Stored(s)) == s
  {
    SanitizeIdempotent(num, LegacyPayload(acf));
  }
}
