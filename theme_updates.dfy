// Parent-theme updates from GitHub releases (inc/core/theme-updates.php):
// choosing the release payload from the decoded "latest release" JSON,
// putting the update into WordPress's update_themes transient, and the
// guard of the theme-information request.
//
// esc_url_raw and version_compare(a, b, '<=') are parameters; the HTTP
// request, the payload cache and the theme header lookups are not modelled
// (their results are parameters).

module ThemeUpdates {
  import opened Strings
  import opened Order
  import opened JsonValues

  /** LONESTAR_UPDATE_TAG_PREFIX when nothing defined it earlier. */
  const DefaultTagPrefix: string := "lonestar-v"
  const AssetPrefix: string := "lonestar-"
  const AssetSuffix: string := ".zip"

  datatype Payload = Payload(version: string, packageUrl: string, releaseUrl: string, releaseBody: string, publishedAt: string)

  // ---------------------------------------------------------------------
  // Tag and version

  /** sanitize_text_field((string) ($release['tag_name'] ?? '')) */
  function Tag(release: Json): string
  {
    SanitizeText(CastString(ValueOr(release, "tag_name", JString(""))))
  }

  /** The characters the version keeps: [0-9A-Za-z._-]. */
  predicate IsVersionChar(c: char) { IsAlnum(c) || c == '.' || c == '-' || c == '_' }

  /** The rest of the tag after the prefix, with every other character removed. */
  function VersionOf(tag: string, prefix: string): (r: string)
    requires StartsWith(tag, prefix)
    ensures forall i :: 0 <= i < |r| ==> IsVersionChar(r[i])
    ensures |r| <= |tag| - |prefix|
  {
    var r := Filter(tag[|prefix|..], IsVersionChar);
    assert forall i :: 0 <= i < |r| ==> r[i] in Elems(r);
    r
  }

  /** A tag that is the prefix followed by version characters gives back exactly those characters. */
  lemma VersionOfTag(prefix: string, version: string)
    requires forall i :: 0 <= i < |version| ==> IsVersionChar(version[i])
    ensures StartsWith(prefix + version, prefix)
    ensures VersionOf(prefix + version, prefix) == version
  {
    assert (prefix + version)[..|prefix|] == prefix;
    assert (prefix + version)[|prefix|..] == version;
    FilterAllKept(version, IsVersionChar);
  }

  // ---------------------------------------------------------------------
  // Asset selection

  /** An asset's (name, URL), or None when it is not an array or either is empty. */
  function AssetEntry(asset: Json, escUrl: string -> string): (r: Option<(string, string)>)
    ensures r.Some? ==> r.value.0 != [] && r.value.1 != []
  {
    if !IsArray(asset) then None
    else
      var name := match Member(asset, "name") case Some(x) => SanitizeText(CastString(x)) case None => "";
      var url := match Member(asset, "browser_download_url") case Some(x) => escUrl(CastString(x)) case None => "";
      if name == [] || url == [] then None else Some((name, url))
  }

  /** The entries of all assets, in order. */
  function Entries(assets: seq<Json>, escUrl: string -> string): (r: seq<Option<(string, string)>>)
    ensures |r| == |assets| && forall i :: 0 <= i < |r| ==> r[i] == AssetEntry(assets[i], escUrl)
    ensures forall i :: 0 <= i < |r| && r[i].Some? ==> r[i].value.0 != [] && r[i].value.1 != []
  {
    seq(|assets|, i requires 0 <= i < |assets| => AssetEntry(assets[i], escUrl))
  }

  /** The asset named for the version. */
  predicate IsExactAsset(e: (string, string), expected: string) { e.0 == expected }

  function ExactFor(expected: string): ((string, string)) -> bool { e => IsExactAsset(e, expected) }

  /** Any asset named 'lonestar-*.zip'. */
  predicate IsPackageAsset(e: (string, string)) { StartsWith(e.0, AssetPrefix) && EndsWith(e.0, AssetSuffix) }

  /** 'lonestar-<version>.zip' */
  function ExpectedAssetName(version: string): string { AssetPrefix + version + AssetSuffix }

  /** A usable asset whose entry has the property. */
  predicate Matches(e: Option<(string, string)>, keep: ((string, string)) -> bool) { e.Some? && keep(e.value) }

  /** The position of the first usable asset with the given property. */
  function FirstMatch(es: seq<Option<(string, string)>>, keep: ((string, string)) -> bool): (r: Option<nat>)
    ensures r.Some? ==> r.value < |es| && Matches(es[r.value], keep)
    ensures r.Some? ==> forall k :: 0 <= k < r.value ==> !Matches(es[k], keep)
    ensures r.None? ==> forall k :: 0 <= k < |es| ==> !Matches(es[k], keep)
  {
    if es == [] then None
    else if Matches(es[0], keep) then Some(0)
    else
      match FirstMatch(es[1..], keep)
      case Some(j) => Some(j + 1)
      case None => None
  }

  /** The package URL the loop settles on: the first exact asset's, else the first 'lonestar-*.zip' asset's, else ''. */
  function PackageFor(assets: seq<Json>, expected: string, escUrl: string -> string): string
  {
    var es := Entries(assets, escUrl);
    match FirstMatch(es, ExactFor(expected))
    case Some(j) => es[j].value.1
    case None =>
      match FirstMatch(es, IsPackageAsset)
      case Some(j) => es[j].value.1
      case None => ""
  }

  /**
   * An asset named exactly for the version wins wherever it is; without one
   * the first 'lonestar-*.zip' asset does; assets with an empty name or URL
   * never count, and no match gives ''.
   */
  lemma PackageRule(assets: seq<Json>, expected: string, escUrl: string -> string)
    ensures var url := PackageFor(assets, expected, escUrl);
      var es := Entries(assets, escUrl);
      && ((exists i :: 0 <= i < |es| && es[i].Some? && es[i].value.0 == expected) ==>
            exists i :: 0 <= i < |assets| && AssetEntry(assets[i], escUrl) == Some((expected, url)))
      && ((forall i :: 0 <= i < |es| ==> !(es[i].Some? && es[i].value.0 == expected)) ==>
            if exists i :: 0 <= i < |es| && es[i].Some? && IsPackageAsset(es[i].value)
            then exists i :: 0 <= i < |assets| && AssetEntry(assets[i], escUrl).Some? && IsPackageAsset(AssetEntry(assets[i], escUrl).value) && AssetEntry(assets[i], escUrl).value.1 == url
            else url == "")
  {
    var es := Entries(assets, escUrl);
    var exact := FirstMatch(es, ExactFor(expected));
    if exact.Some? {
      assert es[exact.value].value.0 == expected;
    } else {
      assert forall i :: 0 <= i < |es| ==> !(es[i].Some? && es[i].value.0 == expected) by {
        forall i | 0 <= i < |es| ensures !(es[i].Some? && es[i].value.0 == expected) {
          assert !Matches(es[i], ExactFor(expected));
        }
      }
      var pkg := FirstMatch(es, IsPackageAsset);
      if pkg.Some? {
        assert es[pkg.value].Some?;
      } else {
        assert forall i :: 0 <= i < |es| ==> !(es[i].Some? && IsPackageAsset(es[i].value)) by {
          forall i | 0 <= i < |es| ensures !(es[i].Some? && IsPackageAsset(es[i].value)) {
            assert !Matches(es[i], IsPackageAsset);
          }
        }
      }
    }
  }

  /** The loop's state after the first i assets when none of them was the exact asset. */
  predicate AssetsScanned(es: seq<Option<(string, string)>>, expected: string, url: string, i: nat)
  {
    && i <= |es|
    && (forall k :: 0 <= k < |es| && es[k].Some? ==> es[k].value.1 != [])
    && (forall k :: 0 <= k < i ==> !Matches(es[k], ExactFor(expected)))
    && (url == "" ==> forall k :: 0 <= k < i ==> !Matches(es[k], IsPackageAsset))
    && (url != "" ==> FirstMatch(es, IsPackageAsset).Some? && FirstMatch(es, IsPackageAsset).value < i
                      && url == es[FirstMatch(es, IsPackageAsset).value].value.1)
  }

  lemma FirstMatchAt(es: seq<Option<(string, string)>>, keep: ((string, string)) -> bool, i: nat)
    requires i < |es| && Matches(es[i], keep)
    requires forall k :: 0 <= k < i ==> !Matches(es[k], keep)
    ensures FirstMatch(es, keep) == Some(i)
  {
  }

  /** One iteration that does not break keeps AssetsScanned. */
  lemma AssetStep(es: seq<Option<(string, string)>>, expected: string, url: string, i: nat)
    requires i < |es| && AssetsScanned(es, expected, url, i)
    requires !Matches(es[i], ExactFor(expected))
    ensures AssetsScanned(es, expected, if es[i].Some? && url == "" && IsPackageAsset(es[i].value) then es[i].value.1 else url, i + 1)
  {
    if es[i].Some? && url == "" && IsPackageAsset(es[i].value) {
      assert Matches(es[i], IsPackageAsset);
      FirstMatchAt(es, IsPackageAsset, i);
    }
  }

  /** The asset loop of lonestar_get_latest_parent_release_payload. */
  method SelectPackage(assets: seq<Json>, expected: string, escUrl: string -> string) returns (url: string)
    ensures url == PackageFor(assets, expected, escUrl)
  {
    ghost var es := Entries(assets, escUrl);
    url := "";
    var i := 0;
    while i < |assets|
      invariant AssetsScanned(es, expected, url, i)
    {
      var e := AssetEntry(assets[i], escUrl);
      if e.None? {
        AssetStep(es, expected, url, i);
        i := i + 1;
        continue;
      }
      var (name, assetUrl) := e.value;
      if name == expected {
        FirstMatchAt(es, ExactFor(expected), i);
        url := assetUrl;
        return;
      }
      AssetStep(es, expected, url, i);
      if url == "" && StartsWith(name, AssetPrefix) && EndsWith(name, AssetSuffix) {
        url := assetUrl;
      }
      i := i + 1;
    }
    ScanDone(es, expected, url);
  }

  lemma ScanDone(es: seq<Option<(string, string)>>, expected: string, url: string)
    requires AssetsScanned(es, expected, url, |es|)
    ensures FirstMatch(es, ExactFor(expected)).None?
    ensures url == match FirstMatch(es, IsPackageAsset) case Some(j) => es[j].value.1 case None => ""
  {
  }

  // ---------------------------------------------------------------------
  // The release payload

  /** The assets array, or none when it is missing or not an array. */
  function Assets(release: Json): seq<Json>
  {
    match Member(release, "assets")
    case Some(a) => if IsArray(a) then ArrayValues(a) else []
    case None => []
  }

  /**
   * lonestar_get_latest_parent_release_payload from the decoded response on:
   * a release that is an array, neither draft nor prerelease, whose tag
   * starts with the (non-empty) prefix, leaves a non-empty version and has
   * a package asset. prefix is LONESTAR_UPDATE_TAG_PREFIX.
   */
  function ReleasePayload(release: Json, prefix: string, escUrl: string -> string): (r: Option<Payload>)
    ensures prefix == [] ==> r.None?
    ensures r.Some? <==>
      (&& IsArray(release)
       && !MemberTruthy(release, "draft") && !MemberTruthy(release, "prerelease")
       && prefix != []
       && StartsWith(Tag(release), prefix)
       && VersionOf(Tag(release), prefix) != []
       && PackageFor(Assets(release), ExpectedAssetName(VersionOf(Tag(release), prefix)), escUrl) != [])
    ensures r.Some? ==> r.value.version == VersionOf(Tag(release), prefix) && r.value.packageUrl == PackageFor(Assets(release), ExpectedAssetName(r.value.version), escUrl)
  {
    if !IsArray(release) then None
    else if MemberTruthy(release, "draft") || MemberTruthy(release, "prerelease") then None
    else
      var tag := Tag(release);
      if tag == [] || prefix == [] || !StartsWith(tag, prefix) then None
      else
        var version := VersionOf(tag, prefix);
        if version == [] then None
        else
          var package := PackageFor(Assets(release), ExpectedAssetName(version), escUrl);
          if package == [] then None
          else Some(Payload(
            version,
            package,
            escUrl(CastString(ValueOr(release, "html_url", JString("")))),
            CastString(ValueOr(release, "body", JString(""))),
            SanitizeText(CastString(ValueOr(release, "published_at", JString(""))))))
  }

  /** The same, with the asset loop run as a loop. */
  method LatestReleasePayload(release: Json, prefix: string, escUrl: string -> string) returns (r: Option<Payload>)
    ensures r == ReleasePayload(release, prefix, escUrl)
  {
    if !IsArray(release) || MemberTruthy(release, "draft") || MemberTruthy(release, "prerelease") {
      return None;
    }
    var tag := Tag(release);
    if tag == [] || prefix == [] || !StartsWith(tag, prefix) {
      return None;
    }
    var version := VersionOf(tag, prefix);
    if version == [] {
      return None;
    }
    var package := SelectPackage(Assets(release), ExpectedAssetName(version), escUrl);
    if package == [] {
      return None;
    }
    r := Some(Payload(
      version,
      package,
      escUrl(CastString(ValueOr(release, "html_url", JString("")))),
      CastString(ValueOr(release, "body", JString(""))),
      SanitizeText(CastString(ValueOr(release, "published_at", JString(""))))));
  }

  /** Draft and prerelease releases never give a payload, and any payload has a usable version and package. */
  lemma PayloadRule(release: Json, prefix: string, escUrl: string -> string)
    ensures MemberTruthy(release, "draft") || MemberTruthy(release, "prerelease") ==> ReleasePayload(release, prefix, escUrl).None?
    ensures var r := ReleasePayload(release, prefix, escUrl);
      r.Some? ==> (&& r.value.version != [] && r.value.packageUrl != []
                   && (forall i :: 0 <= i < |r.value.version| ==> IsVersionChar(r.value.version[i]))
                   && |Tag(release)| > |prefix| > 0 && StartsWith(Tag(release), prefix))
  {
  }

  // ---------------------------------------------------------------------
  // The update_themes transient

  /** The response entry WordPress reads for the theme. */
  function UpdateEntry(slug: string, p: Payload, requiresWp: string, requiresPhp: string): Json
  {
    JObject([
      ("theme", JString(slug)),
      ("new_version", JString(p.version)),
      ("url", JString(p.releaseUrl)),
      ("package", JString(p.packageUrl)),
      ("requires", JString(requiresWp)),
      ("requires_php", JString(requiresPhp))])
  }

  /** !is_array($payload) || empty($payload['version']) || empty($payload['package_url']) */
  predicate Usable(p: Option<Payload>)
  {
    p.Some? && Truthy(JString(p.value.version)) && Truthy(JString(p.value.packageUrl))
  }

  /** The version the transient says is installed, or the theme header's when that is ''. */
  function CurrentVersion(checked: Json, slug: string, installed: string): string
    requires Member(checked, slug).Some?
  {
    var v := CastString(Member(checked, slug).value);
    if v == [] then installed else v
  }

  /** What is done to $transient->response. */
  datatype Decision = Untouched | Drop(slug: string) | Offer(slug: string, entry: Json)

  /**
   * lonestar_maybe_inject_parent_theme_update's decision: nothing without a
   * checked array holding the theme slug or without a usable payload; the
   * theme's entry dropped when the remote version is not newer; otherwise
   * the entry set to the remote version and package.
   */
  function InjectDecision(checked: Json, template: string, installed: string, payload: Option<Payload>,
                          atMost: (string, string) -> bool, requiresWp: string, requiresPhp: string): (d: Decision)
    ensures var slug := SanitizeKey(template);
      (!IsArray(checked) || slug == [] || Member(checked, slug).None? || !Usable(payload)) <==> d == Untouched
    ensures d.Drop? ==> d.slug == SanitizeKey(template) && atMost(payload.value.version, CurrentVersion(checked, d.slug, installed))
    ensures d.Offer? ==> d.slug == SanitizeKey(template) && !atMost(payload.value.version, CurrentVersion(checked, d.slug, installed))
    ensures d.Offer? ==> Member(d.entry, "new_version") == Some(JString(payload.value.version))
    ensures d.Offer? ==> Member(d.entry, "package") == Some(JString(payload.value.packageUrl))
  {
    var slug := SanitizeKey(template);
    if !IsArray(checked) || slug == [] || Member(checked, slug).None? then Untouched
    else if !Usable(payload) then Untouched
    else
      var current := CurrentVersion(checked, slug, installed);
      if atMost(payload.value.version, current) then Drop(slug)
      else
        var entry := UpdateEntry(slug, payload.value, requiresWp, requiresPhp);
        EntryMembers(slug, payload.value, requiresWp, requiresPhp);
        Offer(slug, entry)
  }

  lemma EntryMembers(slug: string, p: Payload, requiresWp: string, requiresPhp: string)
    ensures Member(UpdateEntry(slug, p, requiresWp, requiresPhp), "new_version") == Some(JString(p.version))
    ensures Member(UpdateEntry(slug, p, requiresWp, requiresPhp), "package") == Some(JString(p.packageUrl))
  {
    var m := UpdateEntry(slug, p, requiresWp, requiresPhp).members;
    assert m[1..][1..] == m[2..] && m[2..][1..] == m[3..];
    assert Get(m, "new_version") == Get(m[1..], "new_version");
    assert Get(m[1..], "package") == Get(m[2..], "package");
    assert Get(m[2..], "package") == Get(m[3..], "package");
  }

  /** The response array after the decision. */
  function Apply(response: Assoc<Json>, d: Decision): (r: Assoc<Json>)
    ensures d.Untouched? ==> r == response
    ensures d.Drop? ==> d.slug !in Keys(r)
    ensures d.Offer? ==> Get(r, d.slug) == Some(d.entry)
    ensures !d.Untouched? ==> forall k :: k != d.slug ==> Get(r, k) == Get(response, k)
  {
    match d
    case Untouched => response
    case Drop(slug) => Remove(response, slug)
    case Offer(slug, entry) => Put(response, slug, entry)
  }

  /** Running the filter again on its own output changes nothing more. */
  lemma ApplyIdempotent(response: Assoc<Json>, d: Decision)
    ensures Apply(Apply(response, d), d) == Apply(response, d)
  {
    match d
    case Untouched =>
    case Drop(slug) =>
    case Offer(slug, entry) =>
      PutSame(Put(response, slug, entry), slug, entry);
  }

  /** The part of the update_themes transient the filter reads and writes. */
  class UpdateTransient {
    var checked: Json
    var response: Assoc<Json>

    constructor (checked: Json, response: Assoc<Json>)
      ensures this.checked == checked && this.response == response
    {
      this.checked := checked;
      this.response := response;
    }
  }

  /** lonestar_maybe_inject_parent_theme_update; a null transient stands for one that is not an object. */
  method MaybeInject(t: UpdateTransient?, template: string, installed: string, payload: Option<Payload>,
                     atMost: (string, string) -> bool, requiresWp: string, requiresPhp: string)
    modifies t
    ensures t != null ==> t.checked == old(t.checked)
    ensures t != null ==> t.response == Apply(old(t.response), InjectDecision(old(t.checked), template, installed, payload, atMost, requiresWp, requiresPhp))
  {
    if t == null || !IsArray(t.checked) {
      return;
    }
    var slug := SanitizeKey(template);
    if slug == [] || Member(t.checked, slug).None? {
      return;
    }
    if !Usable(payload) {
      return;
    }
    var current := CastString(Member(t.checked, slug).value);
    if current == [] {
      current := installed;
    }
    var remote := payload.value.version;
    if atMost(remote, current) {
      if slug in Keys(t.response) {
        t.response := Remove(t.response, slug);
      }
      return;
    }
    t.response := Put(t.response, slug, UpdateEntry(slug, payload.value, requiresWp, requiresPhp));
  }

  // ---------------------------------------------------------------------
  // Theme information

  datatype ThemeInfo = ThemeInfo(slug: string, version: string, homepage: string, downloadLink: string, lastUpdated: string, changelog: string)

  const DefaultChangelog: string := "See GitHub release notes for details."

  /** The guard of lonestar_provide_parent_theme_update_info: the request must be for this theme's information. */
  predicate InfoRequested(action: string, argsSlug: Option<string>, template: string)
  {
    action == "theme_information" && argsSlug.Some? && SanitizeKey(template) == SanitizeKey(argsSlug.value)
  }

  /**
   * lonestar_provide_parent_theme_update_info: None when the incoming
   * result is returned unchanged (another action, no or another slug, no
   * payload), else the information built from the payload.
   */
  function ProvideInfo(action: string, argsSlug: Option<string>, template: string, payload: Option<Payload>): (r: Option<ThemeInfo>)
    ensures r.Some? <==> InfoRequested(action, argsSlug, template) && payload.Some?
    ensures r.Some? ==> (&& r.value.slug == SanitizeKey(template) && r.value.version == payload.value.version
                         && r.value.downloadLink == payload.value.packageUrl && r.value.changelog != [])
  {
    if !InfoRequested(action, argsSlug, template) || payload.None? then None
    else
      var p := payload.value;
      var body := Trim(p.releaseBody);
      Some(ThemeInfo(SanitizeKey(template), p.version, p.releaseUrl, p.packageUrl, p.publishedAt,
                     if body == [] then DefaultChangelog else body))
  }
}
