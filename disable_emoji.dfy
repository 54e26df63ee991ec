// The list filters of modules/module.disable-emoji.php: the TinyMCE plugin
// list without 'wpemoji' and the dns-prefetch hints without the emoji CDN.

module DisableEmoji {
  import opened Strings
  import opened Order
  import opened JsonValues

  /** A value whose string form differs from x. */
  function Differs(x: string): Json -> bool { v => CastString(v) != x }

  /** array_values(array_diff($values, [$x])): values compare by their string form. */
  function ArrayDiff(values: seq<Json>, x: string): (r: seq<Json>)
    ensures forall i :: 0 <= i < |r| ==> CastString(r[i]) != x
    ensures forall v :: v in r <==> v in values && CastString(v) != x
  {
    var r := Filter(values, Differs(x));
    assert forall i :: 0 <= i < |r| ==> r[i] in Elems(r);
    assert forall v :: v in r <==> v in Elems(r);
    r
  }

  /** The values that stay keep their order: removing from a concatenation removes from each part. */
  lemma ArrayDiffAppend(a: seq<Json>, b: seq<Json>, x: string)
    ensures ArrayDiff(a + b, x) == ArrayDiff(a, x) + ArrayDiff(b, x)
  {
    FilterAppend(a, b, Differs(x));
  }

  /** Values without x are all kept, in order. */
  lemma ArrayDiffNone(values: seq<Json>, x: string)
    requires forall i :: 0 <= i < |values| ==> CastString(values[i]) != x
    ensures ArrayDiff(values, x) == values
  {
    FilterAllKept(values, Differs(x));
  }

  /** lonestar_module_disable_emojis_tinymce */
  function TinymcePlugins(plugins: Json): (r: Json)
    ensures r.JList?
    ensures !IsArray(plugins) ==> r.items == []
    ensures IsArray(plugins) ==> forall v :: v in r.items <==> v in ArrayValues(plugins) && CastString(v) != "wpemoji"
  {
    if !IsArray(plugins) then JList([]) else JList(ArrayDiff(ArrayValues(plugins), "wpemoji"))
  }

  /** The plugins before and after a cut are filtered separately, so the order is kept; filtering twice changes nothing. */
  lemma TinymcePluginsRule(a: seq<Json>, b: seq<Json>)
    ensures TinymcePlugins(JList(a + b)).items == TinymcePlugins(JList(a)).items + TinymcePlugins(JList(b)).items
    ensures TinymcePlugins(TinymcePlugins(JList(a))) == TinymcePlugins(JList(a))
  {
    ArrayDiffAppend(a, b, "wpemoji");
    ArrayDiffNone(ArrayDiff(a, "wpemoji"), "wpemoji");
  }

  /** lonestar_module_disable_emojis_dns_prefetch; emojiSvgUrl is the filtered emoji_svg_url. */
  function DnsPrefetchHints(urls: Json, relation: string, emojiSvgUrl: string): (r: Json)
    ensures relation != "dns-prefetch" || !IsArray(urls) ==> r == urls
    ensures relation == "dns-prefetch" && IsArray(urls) ==>
      r.JList? && forall v :: v in r.items <==> v in ArrayValues(urls) && CastString(v) != emojiSvgUrl
  {
    if relation != "dns-prefetch" || !IsArray(urls) then urls
    else JList(ArrayDiff(ArrayValues(urls), emojiSvgUrl))
  }

  /** Removing the emoji host twice is removing it once, and the other hints keep their order. */
  lemma DnsPrefetchRule(a: seq<Json>, b: seq<Json>, url: string)
    ensures DnsPrefetchHints(JList(a + b), "dns-prefetch", url).items
      == DnsPrefetchHints(JList(a), "dns-prefetch", url).items + DnsPrefetchHints(JList(b), "dns-prefetch", url).items
    ensures var once := DnsPrefetchHints(JList(a), "dns-prefetch", url);
      DnsPrefetchHints(once, "dns-prefetch", url) == once
  {
    ArrayDiffAppend(a, b, url);
    ArrayDiffNone(ArrayDiff(a, url), url);
  }
}
