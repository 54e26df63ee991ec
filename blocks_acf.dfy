// inc/core/blocks-acf.php: the theme's block category and the rule that
// decides between the cached list of ACF block metadata files and a fresh
// discovery.

module BlocksAcf {
  import opened Strings
  import opened Order
  import opened JsonValues

  const CategorySlug: string := "lonestar-blocks"

  const ThemeCategory: Json :=
    JObject([("slug", JString(CategorySlug)), ("title", JString("Lonestar Blocks")), ("icon", JString("wordpress"))])

  /** A category whose 'slug' is set and is exactly 'lonestar-blocks'. */
  predicate IsThemeCategory(c: Json) { Member(c, "slug") == Some(JString(CategorySlug)) }

  predicate HasThemeCategory(categories: seq<Json>)
  {
    exists i :: 0 <= i < |categories| && IsThemeCategory(categories[i])
  }

  lemma ThemeCategoryIsOne()
    ensures IsThemeCategory(ThemeCategory)
  {
    assert Get(ThemeCategory.members, "slug") == Some(JString(CategorySlug));
  }

  /** lonestar_theme_blocks_category */
  function AddThemeCategory(categories: seq<Json>): (r: seq<Json>)
    ensures HasThemeCategory(categories) ==> r == categories
    ensures !HasThemeCategory(categories) ==> |r| == |categories| + 1 && r[..|categories|] == categories
  {
    if HasThemeCategory(categories) then categories else categories + [ThemeCategory]
  }

  /**
   * After the filter there is a theme category; when there was none before,
   * there is exactly one, at the end, and everything before it is unchanged.
   */
  lemma AddThemeCategoryOnce(categories: seq<Json>)
    ensures HasThemeCategory(AddThemeCategory(categories))
    ensures !HasThemeCategory(categories) ==>
      var r := AddThemeCategory(categories);
      forall i :: 0 <= i < |r| ==> (IsThemeCategory(r[i]) <==> i == |categories|)
  {
    ThemeCategoryIsOne();
    var r := AddThemeCategory(categories);
    if !HasThemeCategory(categories) {
      assert r[|categories|] == ThemeCategory;
    }
  }

  /** Applying the filter twice is applying it once. */
  lemma AddThemeCategoryIdempotent(categories: seq<Json>)
    ensures AddThemeCategory(AddThemeCategory(categories)) == AddThemeCategory(categories)
  {
    AddThemeCategoryOnce(categories);
  }

  // ---------------------------------------------------------------------
  // The cached block list

  /** The cached blocks value, when the transient is an array with both keys set, the same namespace and an array of blocks. */
  function AcceptedCache(payload: Json, namespace: string): (r: Option<Json>)
    ensures r.Some? ==> IsArray(r.value) && Member(payload, "blocks") == r
    ensures r.Some? ==> Member(payload, "cache_namespace") == Some(JString(namespace))
  {
    match (Member(payload, "cache_namespace"), Member(payload, "blocks"))
    case (Some(ns), Some(blocks)) =>
      if ns == JString(namespace) && IsArray(blocks) then Some(blocks) else None
    case _ => None
  }

  /** The metadata files registered and the transient written, if any. */
  datatype LoadPlan = LoadPlan(blocks: seq<Json>, stored: Option<Json>)

  function CachePayload(namespace: string, blocks: seq<Json>): Json
  {
    JObject([("cache_namespace", JString(namespace)), ("blocks", JList(blocks))])
  }

  function PathValues(paths: seq<string>): (r: seq<Json>)
    ensures |r| == |paths| && forall i :: 0 <= i < |r| ==> r[i] == JString(paths[i])
  {
    seq(|paths|, i requires 0 <= i < |paths| => JString(paths[i]))
  }

  /**
   * lonestar_register_acf_block_types without the file system: useCache is
   * false in Vite dev mode, cached is the transient's value, roots the block
   * roots, and found the normalised metadata paths the directory walk
   * collected, in order.
   */
  function BlocksToLoad(useCache: bool, cached: Json, namespace: string, roots: seq<string>, found: seq<string>): (r: LoadPlan)
    ensures useCache && AcceptedCache(cached, namespace).Some? ==>
      r == LoadPlan(ArrayValues(AcceptedCache(cached, namespace).value), None)
    ensures !(useCache && AcceptedCache(cached, namespace).Some?) && roots == [] ==> r == LoadPlan([], None)
    ensures !(useCache && AcceptedCache(cached, namespace).Some?) && roots != [] ==>
      && Distinct(r.blocks) && (forall p :: JString(p) in r.blocks <==> p in found)
      && r.stored == (if useCache then Some(CachePayload(namespace, r.blocks)) else None)
  {
    if useCache && AcceptedCache(cached, namespace).Some? then
      LoadPlan(ArrayValues(AcceptedCache(cached, namespace).value), None)
    else if roots == [] then LoadPlan([], None)
    else
      var unique := Dedup(found);
      var blocks := PathValues(unique);
      assert forall p :: JString(p) in blocks <==> p in unique;
      assert forall p :: p in unique <==> p in Elems(unique);
      assert forall p :: p in found <==> p in Elems(found);
      assert Distinct(blocks);
      LoadPlan(blocks, if useCache then Some(CachePayload(namespace, blocks)) else None)
  }

  /**
   * What a run stores is accepted by the next run in the same namespace,
   * which then registers the same blocks without walking the roots; a run
   * in another namespace rejects it.
   */
  lemma CacheRoundTrip(namespace: string, roots: seq<string>, found: seq<string>, other: string, roots': seq<string>, found': seq<string>)
    requires roots != []
    ensures var first := BlocksToLoad(true, JNull, namespace, roots, found);
      && first.stored.Some?
      && BlocksToLoad(true, first.stored.value, namespace, roots', found') == LoadPlan(first.blocks, None)
      && (other != namespace ==> AcceptedCache(first.stored.value, other).None?)
  {
    var first := BlocksToLoad(true, JNull, namespace, roots, found);
    var payload := CachePayload(namespace, first.blocks);
    assert Get(payload.members, "cache_namespace") == Some(JString(namespace));
    assert Get(payload.members, "blocks") == Some(JList(first.blocks)) by {
      assert payload.members[1..] == [("blocks", JList(first.blocks))];
    }
  }
}
