// The Google Tag Manager snippet (modules/gtm/inc/inc.gtm-script.php):
// container ID normalisation and the head and body markup built from it.
//
// A normalised ID holds only 'G', 'T', 'M', '-', upper-case letters and
// digits, which esc_js, rawurlencode and esc_url all leave unchanged, so
// the markup embeds the ID as it is.

module GtmScript {
  import opened Strings
  import opened Order

  /** The characters allowed after the prefix: [A-Z0-9]. */
  predicate IsIdChar(c: char) { IsUpper(c) || IsDigit(c) }

  /** ^GTM-[A-Z0-9]+$ */
  predicate IsContainerId(s: string)
  {
    |s| > 4 && s[..4] == "GTM-" && forall i :: 4 <= i < |s| ==> IsIdChar(s[i])
  }

  predicate NotSpace(c: char) { !IsSpace(c) }

  /** preg_replace('/\s+/', '', s) */
  function RemoveSpaces(s: string): (r: string)
    ensures forall i :: 0 <= i < |r| ==> !IsSpace(r[i])
  {
    var r := Filter(s, NotSpace);
    assert forall i :: 0 <= i < |r| ==> r[i] in Elems(r);
    r
  }

  /** lonestar_module_normalize_gtm_container_id */
  function NormalizeContainerId(raw: string): (r: string)
    ensures r == [] || IsContainerId(r)
  {
    var id := RemoveSpaces(Upper(Trim(raw)));
    if id == [] then []
    else
      var prefixed := if StartsWith(id, "GTM-") then id else "GTM-" + id;
      if IsContainerId(prefixed) then prefixed else []
  }

  /**
   * The ID is upper-cased with all whitespace removed; what follows a
   * 'GTM-' prefix (or the whole ID without one) must be one or more of
   * [A-Z0-9], and anything else, a bare 'GTM-' included, gives ''.
   */
  lemma NormalizeRule(raw: string)
    ensures var id := RemoveSpaces(Upper(Trim(raw)));
      var body := if StartsWith(id, "GTM-") then id[4..] else id;
      NormalizeContainerId(raw) == if body != [] && forall i :: 0 <= i < |body| ==> IsIdChar(body[i]) then "GTM-" + body else []
  {
    var id := RemoveSpaces(Upper(Trim(raw)));
    var body := if StartsWith(id, "GTM-") then id[4..] else id;
    var prefixed := if StartsWith(id, "GTM-") then id else "GTM-" + id;
    assert prefixed == "GTM-" + body;
    assert prefixed[..4] == "GTM-";
    assert forall i :: 4 <= i < |prefixed| ==> prefixed[i] == body[i - 4];
  }

  lemma UpperOfUpper(s: string)
    requires forall i :: 0 <= i < |s| ==> !IsLower(s[i])
    ensures Upper(s) == s
  {
  }

  /** A normalised ID normalises to itself. */
  lemma NormalizeIdempotent(raw: string)
    ensures NormalizeContainerId(NormalizeContainerId(raw)) == NormalizeContainerId(raw)
  {
    var r := NormalizeContainerId(raw);
    if r != [] {
      ContainerIdFixed(r);
    } else {
      BlankGivesEmpty(r);
    }
  }

  /** A container ID is left as it is by normalisation. */
  lemma ContainerIdFixed(r: string)
    requires IsContainerId(r)
    ensures NormalizeContainerId(r) == r
  {
    ContainerIdChars(r);
    TrimOfTrimmed(r);
    UpperOfUpper(r);
    FilterAllKept(r, NotSpace);
  }

  lemma ContainerIdChars(r: string)
    requires IsContainerId(r)
    ensures !IsTrimChar(r[0]) && !IsTrimChar(r[|r| - 1])
    ensures forall i :: 0 <= i < |r| ==> !IsLower(r[i]) && NotSpace(r[i])
  {
    assert r[0] == r[..4][0];
    forall i | 0 <= i < |r| ensures !IsLower(r[i]) && NotSpace(r[i]) {
      if i < 4 { assert r[i] == r[..4][i]; }
    }
  }

  /** Input made only of whitespace, or no input at all, gives ''. */
  lemma BlankGivesEmpty(raw: string)
    requires forall i :: 0 <= i < |raw| ==> IsSpace(raw[i])
    ensures NormalizeContainerId(raw) == []
  {
    TrimKeepsBlank(raw);
    UpperKeepsBlank(Trim(raw));
    RemoveSpacesOfBlank(Upper(Trim(raw)));
  }

  lemma TrimKeepsBlank(s: string)
    requires forall i :: 0 <= i < |s| ==> IsSpace(s[i])
    ensures forall i :: 0 <= i < |Trim(s)| ==> IsSpace(Trim(s)[i])
  {
    var l := TrimLeft(s);
    forall i | 0 <= i < |l| ensures IsSpace(l[i]) {
      assert l[i] == s[|s| - |l| + i];
    }
    var t := TrimRight(l);
    forall i | 0 <= i < |t| ensures IsSpace(t[i]) {
      assert t[i] == l[i];
    }
  }

  lemma UpperKeepsBlank(s: string)
    requires forall i :: 0 <= i < |s| ==> IsSpace(s[i])
    ensures forall i :: 0 <= i < |Upper(s)| ==> IsSpace(Upper(s)[i])
  {
  }

  lemma {:induction false} RemoveSpacesOfBlank(s: string)
    requires forall i :: 0 <= i < |s| ==> IsSpace(s[i])
    ensures RemoveSpaces(s) == []
  {
    if s != [] {
      RemoveSpacesOfBlank(s[1..]);
    }
  }

  /** ' abc 123 ' becomes 'GTM-ABC123'. */
  lemma NormalizeExample(raw: string)
    requires raw == " abc 123 "
    ensures NormalizeContainerId(raw) == "GTM-ABC123"
  {
    ExampleSteps(raw, "abc 123", "ABC 123", "ABC", "123", "ABC123");
    BareIdGetsPrefix(raw, "ABC123");
  }

  lemma ExampleSteps(raw: string, t: string, u: string, a: string, b: string, id: string)
    requires raw == " abc 123 " && t == "abc 123" && u == "ABC 123" && a == "ABC" && b == "123" && id == "ABC123"
    ensures RemoveSpaces(Upper(Trim(raw))) == id
    ensures id != [] && id[0] != 'G' && forall i :: 0 <= i < |id| ==> IsIdChar(id[i])
  {
    TrimPadded(t, raw);
    UpperExample(t, u);
    ExampleParts(u, a, b, id);
    RemoveOneSpace(a, b, u);
  }

  lemma ExampleParts(u: string, a: string, b: string, id: string)
    requires u == "ABC 123" && a == "ABC" && b == "123" && id == "ABC123"
    ensures u == a + [' '] + b && id == a + b
    ensures forall i :: 0 <= i < |a| ==> NotSpace(a[i])
    ensures forall i :: 0 <= i < |b| ==> NotSpace(b[i])
    ensures id != [] && id[0] != 'G' && forall i :: 0 <= i < |id| ==> IsIdChar(id[i])
  {
    forall i | 0 <= i < |id| ensures IsIdChar(id[i]) {
      assert id[i] in "ABC123";
    }
  }

  /** One trim character on each side of a string that starts and ends with none is trimmed away. */
  lemma TrimPadded(m: string, s: string)
    requires m != [] && !IsTrimChar(m[0]) && !IsTrimChar(m[|m| - 1])
    requires s == [' '] + m + [' ']
    ensures Trim(s) == m
  {
    assert s[1..] == m + [' '];
    assert TrimLeft(m + [' ']) == m + [' '] by { assert (m + [' '])[0] == m[0]; }
    assert TrimRight(m + [' ']) == TrimRight(m) by { assert (m + [' '])[..|m|] == m; }
  }

  /** Removing whitespace from a, a space, then b, none of them whitespace, leaves a then b. */
  lemma RemoveOneSpace(a: string, b: string, s: string)
    requires s == a + [' '] + b
    requires forall i :: 0 <= i < |a| ==> NotSpace(a[i])
    requires forall i :: 0 <= i < |b| ==> NotSpace(b[i])
    ensures RemoveSpaces(s) == a + b
  {
    FilterAppend(a + [' '], b, NotSpace);
    FilterSnoc(a, ' ', NotSpace);
    FilterAllKept(a, NotSpace);
    FilterAllKept(b, NotSpace);
  }

  /** An ID without the prefix that is all [A-Z0-9] gets 'GTM-' put in front. */
  lemma BareIdGetsPrefix(raw: string, id: string)
    requires RemoveSpaces(Upper(Trim(raw))) == id
    requires id != [] && id[0] != 'G'
    requires forall i :: 0 <= i < |id| ==> IsIdChar(id[i])
    ensures NormalizeContainerId(raw) == "GTM-" + id
  {
    NormalizeRule(raw);
    assert !StartsWith(id, "GTM-") by {
      if |id| >= 4 { assert id[..4][0] == id[0]; }
    }
  }

  lemma UpperExample(t: string, u: string)
    requires t == "abc 123" && u == "ABC 123"
    ensures Upper(t) == u
  {
  }

  // ---------------------------------------------------------------------
  // Markup

  const HeadOpen: string :=
    "<!-- Google Tag Manager -->\n" +
    "<script>(function(w,d,s,l,i){w[l]=w[l]||[];w[l].push({'gtm.start':new Date().getTime(),event:'gtm.js'});var f=d.getElementsByTagName(s)[0],j=d.createElement(s),dl=l!=='dataLayer'?'&l='+l:'';j.async=true;j.src='https://www.googletagmanager.com/gtm.js?id='+i+dl;f.parentNode.insertBefore(j,f);})(window,document,'script','dataLayer','"
  const HeadClose: string := "');</script>\n<!-- End Google Tag Manager -->\n"

  const BodyOpen: string :=
    "<!-- Google Tag Manager (noscript) -->\n" +
    "<noscript><iframe src=\"https://www.googletagmanager.com/ns.html?id="
  const BodyClose: string :=
    "\" height=\"0\" width=\"0\" style=\"display:none;visibility:hidden\"></iframe></noscript>\n" +
    "<!-- End Google Tag Manager (noscript) -->\n"

  /** lonestar_module_get_gtm_head_markup */
  function HeadMarkup(raw: string): (r: string)
    ensures r == [] <==> NormalizeContainerId(raw) == []
    ensures r != [] ==> StartsWith(r, HeadOpen) && OccursAt(r, NormalizeContainerId(raw), |HeadOpen|) && EndsWith(r, HeadClose)
  {
    var id := NormalizeContainerId(raw);
    if id == [] then []
    else
      ThreeParts(HeadOpen, id, HeadClose);
      HeadOpen + id + HeadClose
  }

  /** lonestar_module_get_gtm_body_markup */
  function BodyMarkup(raw: string): (r: string)
    ensures r == [] <==> NormalizeContainerId(raw) == []
    ensures r != [] ==> StartsWith(r, BodyOpen) && OccursAt(r, NormalizeContainerId(raw), |BodyOpen|) && EndsWith(r, BodyClose)
  {
    var id := NormalizeContainerId(raw);
    if id == [] then []
    else
      ThreeParts(BodyOpen, id, BodyClose);
      BodyOpen + id + BodyClose
  }

  /** The head and body markup are both empty or both present, and passing the normalised ID changes neither. */
  lemma MarkupAgree(raw: string)
    ensures HeadMarkup(raw) == [] <==> BodyMarkup(raw) == []
    ensures HeadMarkup(NormalizeContainerId(raw)) == HeadMarkup(raw)
    ensures BodyMarkup(NormalizeContainerId(raw)) == BodyMarkup(raw)
  {
    NormalizeIdempotent(raw);
  }
}
