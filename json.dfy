// Decoded JSON as the theme's PHP sees it after json_decode($text, true):
// objects become string-keyed arrays that keep their member order, lists
// become integer-keyed arrays.

module JsonValues {
  import opened Strings
  import opened Order

  datatype Json =
    | JNull
    | JBool(b: bool)
    | JNumber(n: int)
    | JString(s: string)
    | JList(items: seq<Json>)
    | JObject(members: Assoc<Json>)

  /** is_array */
  predicate IsArray(v: Json) { v.JList? || v.JObject? }

  /**
   * $v[$k] when isset($v[$k]): a member of an object that is present and not
   * null.  A list has integer keys only, so a name never selects from it.
   */
  function Member(v: Json, k: string): (r: Option<Json>)
    ensures r.Some? ==> v.JObject? && k in Keys(v.members) && !r.value.JNull?
  {
    match v
    case JObject(members) =>
      (match Get(members, k)
       case Some(x) => if x.JNull? then None else Some(x)
       case None => None)
    case _ => None
  }

  /** The values of an array, in order. */
  function ArrayValues(v: Json): (r: seq<Json>)
    requires IsArray(v)
    ensures v.JList? ==> r == v.items
    ensures v.JObject? ==> |r| == |v.members| && forall i :: 0 <= i < |r| ==> r[i] == v.members[i].1
  {
    if v.JList? then v.items else seq(|v.members|, i requires 0 <= i < |v.members| => v.members[i].1)
  }

  /** !empty($v): false for null, false, 0, '', '0' and the empty array. */
  predicate Truthy(v: Json)
  {
    match v
    case JNull => false
    case JBool(b) => b
    case JNumber(n) => n != 0
    case JString(s) => s != "" && s != "0"
    case JList(items) => items != []
    case JObject(members) => members != []
  }

  /** !empty($v[$k]) */
  predicate MemberTruthy(v: Json, k: string)
  {
    match Member(v, k)
    case Some(x) => Truthy(x)
    case None => false
  }

  /** $v[$k] ?? $default */
  function ValueOr(v: Json, k: string, default: Json): Json
  {
    match Member(v, k)
    case Some(x) => x
    case None => default
  }

  /** The decimal digits of n, without sign. */
  function Digits(n: nat): (r: string)
    ensures r != [] && forall i :: 0 <= i < |r| ==> IsDigit(r[i])
  {
    var d := ['0' + (n % 10) as char];
    if n < 10 then d else Digits(n / 10) + d
  }

  /** (string) $v */
  function CastString(v: Json): (r: string)
    ensures v.JString? ==> r == v.s
    ensures v.JNull? || v == JBool(false) ==> r == []
    ensures v.JNumber? ==> r != [] && (v.n < 0 <==> r[0] == '-')
  {
    match v
    case JNull => ""
    case JBool(b) => if b then "1" else ""
    case JNumber(n) => if n < 0 then "-" + Digits(-n) else Digits(n)
    case JString(s) => s
    case JList(_) => "Array"
    case JObject(_) => "Array"
  }
}
