// Small filters of inc/inc.filters.php: the ACF taxonomy location rule fix
// and the AVIF upload MIME type.

module ThemeFilters {
  import opened Strings
  import opened Order
  import opened JsonValues

  /** (string) $screen['post_id'] when set, else ''. */
  function PostId(screen: Json): string
  {
    match Member(screen, "post_id")
    case Some(v) => CastString(v)
    case None => ""
  }

  /** (string) $rule['value'] when set, else ''. */
  function RuleValue(rule: Json): string
  {
    match Member(rule, "value")
    case Some(v) => CastString(v)
    case None => ""
  }

  /** The taxonomy part of a term's post_id: everything before its last '_'. */
  function TaxonomyOf(postId: string): (r: Option<string>)
    ensures r.None? <==> '_' !in postId
    ensures r.Some? ==> |r.value| < |postId| && postId[..|r.value|] == r.value && postId[|r.value|] == '_' && '_' !in postId[|r.value| + 1..]
  {
    match LastIndexOfChar(postId, '_')
    case Some(i) => Some(postId[..i])
    case None => None
  }

  /** lonestar_match_taxonomy_acf: the filtered result, true or the incoming one. */
  function MatchTaxonomy(result: Json, rule: Json, screen: Json): (r: Json)
    ensures Truthy(result) ==> r == result
    ensures r == result || r == JBool(true)
  {
    if Truthy(result) then result
    else
      var postId := PostId(screen);
      var ruleValue := RuleValue(rule);
      if postId == "" || ruleValue == "" then result
      else
        match TaxonomyOf(postId)
        case Some(t) => if t == ruleValue then JBool(true) else result
        case None => result
  }

  /**
   * When the incoming result is not truthy, the rule matches exactly when
   * the rule value is not empty and is what precedes the last '_' of the
   * post_id; otherwise the incoming result comes back.
   */
  lemma MatchTaxonomyRule(result: Json, rule: Json, screen: Json)
    requires !Truthy(result)
    ensures var postId := PostId(screen);
      MatchTaxonomy(result, rule, screen) == JBool(true) <==>
        && RuleValue(rule) != ""
        && exists i :: 0 <= i < |postId| && postId[i] == '_' && '_' !in postId[i + 1..] && postId[..i] == RuleValue(rule)
  {
    var postId := PostId(screen);
    forall i | 0 <= i < |postId| && postId[i] == '_' && '_' !in postId[i + 1..]
      ensures TaxonomyOf(postId) == Some(postId[..i])
    {
    }
  }

  /** A term of 'product_cat' with ID 12 matches a 'product_cat' rule. */
  lemma MatchTaxonomyExample(result: Json, rule: Json, screen: Json)
    requires result == JBool(false)
    requires rule == JObject([("value", JString("product_cat"))])
    requires screen == JObject([("post_id", JString("product_cat_12"))])
    ensures MatchTaxonomy(result, rule, screen) == JBool(true)
  {
    var postId := PostId(screen);
    assert postId == "product_cat_12";
    assert RuleValue(rule) == "product_cat";
    assert postId[11] == '_' && postId[12..] == "12" && postId[..11] == "product_cat";
    MatchTaxonomyRule(result, rule, screen);
  }

  /** lonestar_filter_allowed_mimes_avif */
  function AllowAvif(mimes: Assoc<string>): (r: Assoc<string>)
    ensures Get(r, "avif") == Some("image/avif")
    ensures forall k :: k != "avif" ==> Get(r, k) == Get(mimes, k)
    ensures Keys(r) == if "avif" in Keys(mimes) then Keys(mimes) else Keys(mimes) + ["avif"]
  {
    Put(mimes, "avif", "image/avif")
  }

  /** Running the MIME filter again changes nothing. */
  lemma AllowAvifIdempotent(mimes: Assoc<string>)
    ensures AllowAvif(AllowAvif(mimes)) == AllowAvif(mimes)
  {
    PutSame(AllowAvif(mimes), "avif", "image/avif");
  }
}
