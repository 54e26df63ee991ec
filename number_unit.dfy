// The ACF "Number with Unit" field type
// (modules/module.acf-number-with-unit.php).
//
// A field value is a number and a unit.  The field's settings hold a
// comma-separated unit list, a default unit and a return format; values
// are validated, sanitised before saving, formatted for get_field() and
// normalised for the editor.  PHP's is_numeric and the (string)(0 + $n)
// canonicalisation of a number are floating-point matters and arrive as
// parameters.

module NumberWithUnit {
  import opened Strings
  import opened Order

  // ---------------------------------------------------------------------
  // Unit lists

  /** The characters a unit keeps: [A-Za-z0-9%_-]. */
  predicate IsUnitChar(c: char) { IsAlnum(c) || c == '%' || c == '_' || c == '-' }

  predicate IsUnit(u: string) { u != [] && forall i :: 0 <= i < |u| ==> IsUnitChar(u[i]) }

  /** The characters trimmed from each unit after the ordinary trim. */
  const QuoteChars: set<char> := {'"', '\'', ' '}

  /** One list item: trimmed, stripped of quotes and spaces at both ends, then filtered to unit characters. */
  function CleanUnit(item: string): (r: string)
    ensures forall i :: 0 <= i < |r| ==> IsUnitChar(r[i])
  {
    var stripped := TrimRightOf(TrimLeftOf(Trim(item), QuoteChars), QuoteChars);
    var r := Filter(stripped, IsUnitChar);
    assert forall i :: 0 <= i < |r| ==> r[i] in Elems(r);
    r
  }

  predicate NonEmpty(s: string) { s != [] }

  /** Each item cleaned, in order. */
  function CleanAll(items: seq<string>): (r: seq<string>)
    ensures |r| == |items| && forall i :: 0 <= i < |items| ==> r[i] == CleanUnit(items[i])
  {
    seq(|items|, i requires 0 <= i < |items| => CleanUnit(items[i]))
  }

  /** The units of a list of items: cleaned, empties dropped, duplicates dropped. */
  function UnitsOf(items: seq<string>): seq<string>
  {
    Dedup(Filter(CleanAll(items), NonEmpty))
  }

  /** parse_units */
  function ParseUnits(csv: string): seq<string>
  {
    UnitsOf(Split(csv, ','))
  }

  /**
   * Every parsed unit is non-empty and made of unit characters, none
   * repeats, and a unit is parsed exactly when some item cleans to it.
   */
  lemma UnitsOfMembers(items: seq<string>, u: string)
    ensures var r := UnitsOf(items);
      Distinct(r) && (forall i :: 0 <= i < |r| ==> IsUnit(r[i])) &&
      (u in r <==> u != [] && exists item :: item in items && CleanUnit(item) == u)
  {
    UnitsOfShape(items);
    if u in UnitsOf(items) {
      UnitsOfFrom(items, u);
    }
    if item :| item in items && CleanUnit(item) == u && u != [] {
      UnitsOfHas(items, item);
    }
  }

  lemma UnitsOfShape(items: seq<string>)
    ensures var r := UnitsOf(items);
      Distinct(r) && forall i :: 0 <= i < |r| ==> IsUnit(r[i])
  {
    var kept := Filter(CleanAll(items), NonEmpty);
    var r := UnitsOf(items);
    forall i | 0 <= i < |r| ensures IsUnit(r[i]) {
      assert r[i] in Elems(r);
      assert r[i] in Elems(kept);
    }
  }

  lemma UnitsOfFrom(items: seq<string>, u: string)
    requires u in UnitsOf(items)
    ensures u != [] && exists item :: item in items && CleanUnit(item) == u
  {
    var cleaned := CleanAll(items);
    assert u in Elems(UnitsOf(items));
    assert u in Elems(Filter(cleaned, NonEmpty));
    var k :| 0 <= k < |cleaned| && cleaned[k] == u;
    assert items[k] in items;
  }

  lemma UnitsOfHas(items: seq<string>, item: string)
    requires item in items && CleanUnit(item) != []
    ensures CleanUnit(item) in UnitsOf(items)
  {
    var cleaned := CleanAll(items);
    var u := CleanUnit(item);
    var k :| 0 <= k < |items| && items[k] == item;
    assert cleaned[k] == u;
    assert u in cleaned && NonEmpty(u);
    assert u in Elems(Filter(cleaned, NonEmpty));
    assert u in Elems(UnitsOf(items));
  }

  /** parse_units' units are non-empty unit-character strings without repeats, one per distinct cleaned item. */
  lemma ParseUnitsMembers(csv: string, u: string)
    ensures var r := ParseUnits(csv);
      Distinct(r) && (forall i :: 0 <= i < |r| ==> IsUnit(r[i])) &&
      (u in r <==> u != [] && exists item :: item in Split(csv, ',') && CleanUnit(item) == u)
  {
    UnitsOfMembers(Split(csv, ','), u);
  }

  /** A unit is its own cleaned form. */
  lemma CleanUnitOfUnit(u: string)
    requires IsUnit(u)
    ensures CleanUnit(u) == u
  {
    assert !IsTrimChar(u[0]) && !IsTrimChar(u[|u| - 1]);
    TrimOfTrimmed(u);
    assert u[0] !in QuoteChars && u[|u| - 1] !in QuoteChars;
    FilterAllKept(u, IsUnitChar);
  }

  /** The units of a list of units are that list. */
  lemma UnitsOfUnits(r: seq<string>)
    requires Distinct(r) && forall i :: 0 <= i < |r| ==> IsUnit(r[i])
    ensures UnitsOf(r) == r
  {
    var cleaned := CleanAll(r);
    forall i | 0 <= i < |r| ensures cleaned[i] == r[i] {
      CleanUnitOfUnit(r[i]);
    }
    assert cleaned == r;
    FilterAllKept(r, NonEmpty);
    DedupOfDistinct(r);
  }

  /** Joining distinct units with commas and parsing the result gives the units back. */
  lemma ParseJoinedUnits(r: seq<string>)
    requires Distinct(r) && forall i :: 0 <= i < |r| ==> IsUnit(r[i])
    ensures ParseUnits(Join(r, ',')) == r
  {
    if r == [] {
      ParseNoUnits(Join(r, ','));
    } else {
      NoCommaInUnits(r);
      SplitJoin(r, ',');
      UnitsOfUnits(r);
    }
  }

  /** An empty unit list is stored as '' and parses back to no units. */
  lemma ParseNoUnits(csv: string)
    requires csv == []
    ensures ParseUnits(csv) == []
  {
    assert Split(csv, ',') == [[]];
    assert CleanUnit([]) == [];
    assert CleanAll([[]]) == [[]];
  }

  lemma NoCommaInUnits(r: seq<string>)
    requires forall i :: 0 <= i < |r| ==> IsUnit(r[i])
    ensures forall i :: 0 <= i < |r| ==> ',' !in r[i]
  {
    forall i | 0 <= i < |r| ensures ',' !in r[i] {
      assert IsUnit(r[i]);
    }
  }

  /** Parsing the stored, comma-joined unit list gives the same list back. */
  lemma ReparseUnits(csv: string)
    ensures ParseUnits(Join(ParseUnits(csv), ',')) == ParseUnits(csv)
  {
    UnitsOfShape(Split(csv, ','));
    ParseJoinedUnits(ParseUnits(csv));
  }

  // ---------------------------------------------------------------------
  // Field settings

  /** The settings the field reads; an absent setting is None, `required` is !empty($field['required']). */
  datatype Field = Field(units: Option<string>, defaultUnit: Option<string>, returnFormat: Option<string>, required: bool)

  function OrEmpty(s: Option<string>): string { if s.Some? then s.value else "" }

  /** The allowed units of a field. */
  function AllowedUnits(f: Field): seq<string> { ParseUnits(OrEmpty(f.units)) }

  /** The return format, normalised: 'array' only for an exact 'array' setting, 'string' for anything else. */
  function ReturnFormat(f: Field): (r: string)
    ensures r == "array" || r == "string"
    ensures r == "array" <==> f.returnFormat == Some("array")
  {
    if f.returnFormat == Some("array") then "array" else "string"
  }

  /** The default unit as sanitised for saving; '' when absent. */
  function SavedDefaultUnit(f: Field): string
  {
    if f.defaultUnit.Some? then SanitizeText(f.defaultUnit.value) else ""
  }

  /** update_field */
  function UpdateField(f: Field): (r: Field)
    ensures r.units.Some? && r.defaultUnit.Some? && r.returnFormat.Some? && r.required == f.required
    ensures r.returnFormat.value == "array" || r.returnFormat.value == "string"
  {
    Field(Some(Join(AllowedUnits(f), ',')), Some(SavedDefaultUnit(f)), Some(ReturnFormat(f)), f.required)
  }

  /**
   * Saving the settings keeps the allowed units and the return format, and
   * saving them a second time changes nothing.
   */
  lemma UpdateFieldIdempotent(f: Field)
    ensures AllowedUnits(UpdateField(f)) == AllowedUnits(f)
    ensures ReturnFormat(UpdateField(f)) == ReturnFormat(f)
    ensures UpdateField(UpdateField(f)) == UpdateField(f)
  {
    ReparseUnits(OrEmpty(f.units));
    if f.defaultUnit.Some? {
      SanitizeTextIdempotent(f.defaultUnit.value);
    }
  }

  // ---------------------------------------------------------------------
  // Values

  /** A submitted or stored value: an array with optional parts, or anything else (a string is kept for normalisation). */
  datatype Value = Parts(value: Option<string>, unit: Option<string>) | NotArray(text: Option<string>)

  /** is_numeric and (string)(0 + $n). */
  datatype Numbers = Numbers(isNumeric: string -> bool, canonical: string -> string)

  /** A value part as the validator and the saver read it: trimmed, '' when absent. */
  function Part(p: Option<string>): string { Trim(OrEmpty(p)) }

  datatype Validity = Valid | Invalid(message: string)

  const InvalidFormat: string := "Invalid value format."
  const RequiredMessage: string := "This field is required."
  const NotNumeric: string := "The value must be numeric."
  const UnitNotAllowed: string := "Selected unit is not allowed."

  /** The unit check: an empty unit or an empty allowed list accepts anything. */
  predicate UnitAccepted(u: string, allowed: seq<string>) { u == [] || allowed == [] || u in allowed }

  /** validate_value */
  function Validate(valid: Validity, value: Value, f: Field, num: Numbers): (r: Validity)
    ensures !valid.Valid? ==> r == valid
    ensures valid.Valid? && value.NotArray? ==> r == Invalid(InvalidFormat)
    ensures r.Valid? <==> (valid.Valid? && value.Parts? &&
      (var n := Part(value.value); var u := Part(value.unit);
       !(f.required && (n == [] || u == [])) && (n == [] || num.isNumeric(n)) && UnitAccepted(u, AllowedUnits(f))))
    ensures r.Invalid? && valid.Valid? && value.Parts? ==>
      r.message in {RequiredMessage, NotNumeric, UnitNotAllowed}
  {
    if !valid.Valid? then valid
    else if value.NotArray? then Invalid(InvalidFormat)
    else
      var n := Part(value.value);
      var u := Part(value.unit);
      var allowed := AllowedUnits(f);
      if f.required && (n == [] || u == []) then Invalid(RequiredMessage)
      else if n != [] && !num.isNumeric(n) then Invalid(NotNumeric)
      else if u != [] && allowed != [] && u !in allowed then Invalid(UnitNotAllowed)
      else valid
  }

  /** The checks report in order: a missing part first, then a non-numeric number, then the unit. */
  lemma ValidateOrder(value: Value, f: Field, num: Numbers)
    requires value.Parts?
    ensures var n := Part(value.value); var u := Part(value.unit);
      var r := Validate(Valid, value, f, num);
      (f.required && (n == [] || u == []) ==> r == Invalid(RequiredMessage)) &&
      (!(f.required && (n == [] || u == [])) && n != [] && !num.isNumeric(n) ==> r == Invalid(NotNumeric)) &&
      (r == Invalid(UnitNotAllowed) <==> !(f.required && (n == [] || u == [])) && (n == [] || num.isNumeric(n)) && !UnitAccepted(u, AllowedUnits(f)))
  {
  }

  /** The saved value. */
  datatype NumberUnit = NumberUnit(value: string, unit: string)

  /** update_value: None is the null that is stored. */
  function UpdateValue(value: Value, f: Field, num: Numbers): (r: Option<NumberUnit>)
    ensures r.None? <==> value.NotArray? || (Part(value.value) == [] && Part(value.unit) == [])
    ensures r.Some? ==> r.value.unit in AllowedUnits(f) || r.value.unit == SavedDefaultUnit(f)
    ensures r.Some? ==> (r.value.unit == Part(value.unit) <== Part(value.unit) in AllowedUnits(f))
    ensures r.Some? ==> (Part(value.unit) !in AllowedUnits(f) ==> r.value.unit == SavedDefaultUnit(f))
  {
    if value.NotArray? then None
    else
      var n := Part(value.value);
      var u := Part(value.unit);
      var allowed := AllowedUnits(f);
      if n == [] && u == [] then None
      else
        var number := if n != [] && num.isNumeric(n) then num.canonical(n) else n;
        var unit := if u !in allowed then SavedDefaultUnit(f) else u;
        Some(NumberUnit(number, unit))
  }

  /**
   * A value that passed validation against a non-empty unit list is saved
   * with its own unit and its number in canonical form.
   */
  lemma ValidatedValueSaved(value: Value, f: Field, num: Numbers)
    requires Validate(Valid, value, f, num) == Valid
    requires AllowedUnits(f) != [] && Part(value.unit) != []
    ensures UpdateValue(value, f, num) == Some(NumberUnit(
      if Part(value.value) == [] then [] else num.canonical(Part(value.value)), Part(value.unit)))
  {
  }

  /**
   * With an empty unit list any unit passes validation, yet saving always
   * replaces it with the default unit.
   */
  lemma EmptyUnitListUsesDefault(value: Value, f: Field, num: Numbers)
    requires AllowedUnits(f) == [] && value.Parts? && Part(value.unit) != []
    ensures UnitAccepted(Part(value.unit), AllowedUnits(f))
    ensures UpdateValue(value, f, num) == Some(NumberUnit(
      if Part(value.value) != [] && num.isNumeric(Part(value.value)) then num.canonical(Part(value.value)) else Part(value.value),
      SavedDefaultUnit(f)))
  {
  }

  /** What get_field() returns. */
  datatype Formatted = Combined(text: string) | Detailed(value: string, unit: string, combined: string)

  /** format_value: None is null.  The parts are read without trimming. */
  function FormatValue(value: Value, f: Field): (r: Option<Formatted>)
    ensures r.None? <==> value.NotArray? || (OrEmpty(value.value) == [] && OrEmpty(value.unit) == [])
    ensures r.Some? ==> (r.value.Detailed? <==> ReturnFormat(f) == "array")
    ensures r.Some? && r.value.Combined? ==> r.value.text == OrEmpty(value.value) + OrEmpty(value.unit)
    ensures r.Some? && r.value.Detailed? ==>
      r.value.value == OrEmpty(value.value) && r.value.unit == OrEmpty(value.unit) && r.value.combined == r.value.value + r.value.unit
  {
    if value.NotArray? then None
    else
      var n := OrEmpty(value.value);
      var u := OrEmpty(value.unit);
      if n == [] && u == [] then None
      else
        var combined := n + u;
        if ReturnFormat(f) == "array" then Some(Detailed(n, u, combined)) else Some(Combined(combined))
  }

  /** The value get_field() reads back after update_value stored a saved value. */
  function Stored(saved: NumberUnit): Value { Parts(Some(saved.value), Some(saved.unit)) }

  /** A saved value with a part formats to its number followed by its unit. */
  lemma SavedValueFormats(value: Value, f: Field, num: Numbers)
    requires UpdateValue(value, f, num).Some?
    ensures var s := UpdateValue(value, f, num).value;
      s.value + s.unit != [] ==>
        FormatValue(Stored(s), f) == if ReturnFormat(f) == "array" then Some(Detailed(s.value, s.unit, s.value + s.unit))
                                    else Some(Combined(s.value + s.unit))
  {
  }

  // ---------------------------------------------------------------------
  // normalize_value: /^\s*([\-+]?\d*\.?\d+)\s*([a-z%]+)\s*$/i

  predicate IsNumberChar(c: char) { IsDigit(c) || c == '.' || c == '+' || c == '-' }
  predicate IsUnitLetter(c: char) { IsAlpha(c) || c == '%' }

  predicate AllDigits(s: string) { forall i :: 0 <= i < |s| ==> IsDigit(s[i]) }

  /** [\-+]?\d*\.?\d+ : an optional sign, then digits, or digits, a point and at least one digit. */
  predicate IsNumberToken(t: string)
  {
    var b := if t != [] && (t[0] == '-' || t[0] == '+') then t[1..] else t;
    match IndexOfChar(b, '.')
    case None => b != [] && AllDigits(b)
    case Some(k) => AllDigits(b[..k]) && b[k + 1..] != [] && AllDigits(b[k + 1..])
  }

  /** A run of unit letters: [a-z%]+ without regard to case. */
  predicate IsUnitWord(u: string) { u != [] && forall i :: 0 <= i < |u| ==> IsUnitLetter(u[i]) }

  /** The longest prefix of s whose characters all satisfy p. */
  function PrefixWhile(s: string, p: char -> bool): (r: string)
    ensures |r| <= |s| && r == s[..|r|]
    ensures forall i :: 0 <= i < |r| ==> p(r[i])
    ensures |r| == |s| || !p(s[|r|])
  {
    if s != [] && p(s[0]) then
      var rest := PrefixWhile(s[1..], p);
      [s[0]] + rest
    else []
  }

  lemma {:induction false} PrefixWhileOf(x: string, y: string, p: char -> bool)
    requires forall i :: 0 <= i < |x| ==> p(x[i])
    requires y == [] || !p(y[0])
    ensures PrefixWhile(x + y, p) == x
  {
    if x != [] {
      assert (x + y)[1..] == x[1..] + y;
      PrefixWhileOf(x[1..], y, p);
    } else {
      assert x + y == y;
    }
  }

  /**
   * The number and unit the pattern captures.  No number character is a
   * space or a unit letter, so the number is the longest run of number
   * characters after the leading spaces, and the unit the longest run of
   * unit letters after the spaces that follow.
   */
  function MatchNumberUnit(s: string): (r: Option<(string, string)>)
    ensures r.Some? ==> IsNumberToken(r.value.0) && IsUnitWord(r.value.1)
  {
    var a := TrimLeftOf(s, SpaceChars);
    var n := PrefixWhile(a, IsNumberChar);
    var b := TrimLeftOf(a[|n|..], SpaceChars);
    var u := PrefixWhile(b, IsUnitLetter);
    if IsNumberToken(n) && u != [] && forall i :: |u| <= i < |b| ==> b[i] in SpaceChars then Some((n, u)) else None
  }

  /** normalize_value */
  function NormalizeValue(raw: Value, defaultValue: string, defaultUnit: string): (r: NumberUnit)
    ensures raw.Parts? ==>
      r.value == (if raw.value.Some? then raw.value.value else defaultValue) &&
      r.unit == (if raw.unit.Some? then raw.unit.value else defaultUnit)
    ensures raw.NotArray? && (raw.text.None? || MatchNumberUnit(raw.text.value).None?) ==> r == NumberUnit(defaultValue, defaultUnit)
  {
    match raw
    case Parts(v, u) => NumberUnit(if v.Some? then v.value else defaultValue, if u.Some? then u.value else defaultUnit)
    case NotArray(text) =>
      if text.Some? && MatchNumberUnit(text.value).Some? then
        var m := MatchNumberUnit(text.value).value;
        NumberUnit(m.0, m.1)
      else NumberUnit(defaultValue, defaultUnit)
  }

  /** A number token followed by a unit word is matched and split back into the two. */
  lemma MatchCombined(n: string, u: string)
    requires IsNumberToken(n) && IsUnitWord(u)
    ensures MatchNumberUnit(n + u) == Some((n, u))
  {
    assert n != [];
    var s := n + u;
    assert s[0] == n[0];
    NumberTokenChars(n, 0);
    NoSpace(n[0]);
    NoLeadingTrim(s, SpaceChars);
    forall i | 0 <= i < |n| ensures IsNumberChar(n[i]) {
      NumberTokenChars(n, i);
    }
    assert !IsNumberChar(u[0]);
    PrefixWhileOf(n, u, IsNumberChar);
    assert s[|n|..] == u;
    NoSpace(u[0]);
    NoLeadingTrim(u, SpaceChars);
    PrefixWhileOf(u, [], IsUnitLetter);
    assert u + [] == u;
  }

  lemma NoSpace(c: char)
    requires IsNumberChar(c) || IsUnitLetter(c)
    ensures c !in SpaceChars
  {
  }

  lemma NoLeadingTrim(s: string, cs: set<char>)
    requires s != [] && s[0] !in cs
    ensures TrimLeftOf(s, cs) == s
  {
  }

  lemma NumberTokenChars(t: string, i: int)
    requires IsNumberToken(t) && 0 <= i < |t|
    ensures IsNumberChar(t[i])
  {
    var b := if t != [] && (t[0] == '-' || t[0] == '+') then t[1..] else t;
    var j := if b == t then i else i - 1;
    if j >= 0 {
      assert b[j] == t[i];
      match IndexOfChar(b, '.')
      case None =>
      case Some(k) =>
        if j < k {
          assert b[..k][j] == b[j];
        } else if j > k {
          assert b[k + 1..][j - k - 1] == b[j];
        }
    }
  }

  /**
   * A combined string get_field() returns for a number token and a unit
   * word normalises back into the same number and unit.
   */
  lemma FormatNormalizeRoundTrip(n: string, u: string, f: Field, defaultValue: string, defaultUnit: string)
    requires IsNumberToken(n) && IsUnitWord(u) && ReturnFormat(f) == "string"
    ensures FormatValue(Parts(Some(n), Some(u)), f) == Some(Combined(n + u))
    ensures NormalizeValue(NotArray(Some(n + u)), defaultValue, defaultUnit) == NumberUnit(n, u)
  {
    FormatCombined(n, u, f);
    NormalizeCombined(n, u, defaultValue, defaultUnit);
  }

  lemma FormatCombined(n: string, u: string, f: Field)
    requires IsNumberToken(n) && IsUnitWord(u) && ReturnFormat(f) == "string"
    ensures FormatValue(Parts(Some(n), Some(u)), f) == Some(Combined(n + u))
  {
  }

  lemma NormalizeCombined(n: string, u: string, defaultValue: string, defaultUnit: string)
    requires IsNumberToken(n) && IsUnitWord(u)
    ensures NormalizeValue(NotArray(Some(n + u)), defaultValue, defaultUnit) == NumberUnit(n, u)
  {
    MatchCombined(n, u);
  }
}
