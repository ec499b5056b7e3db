/**
 The slice of JavaScript semantics the handlers depend on: request-body values,
 truthiness, `parseInt(x / d, 10)` on a number of milliseconds, and the cast a
 Mongoose `String` path applies to whatever a request body puts there.
 */
module JsValues {
  import opened Results

  /** A value of a parsed JSON request body. */
  datatype Value =
    | JNull
    | JBool(b: bool)
    | JNum(n: int)
    | JStr(s: string)
    | JArray(items: seq<Value>)
    | JObject(fields: map<string, Value>)

  type Body = map<string, Value>

  /** JavaScript truthiness: false, 0, "" and null are falsy; arrays and objects are truthy. */
  predicate Truthy(v: Value)
    ensures !Truthy(v) <==> v == JNull || v == JBool(false) || v == JNum(0) || v == JStr("")
  {
    match v
    case JNull => false
    case JBool(b) => b
    case JNum(n) => n != 0
    case JStr(s) => s != ""
    case JArray(_) => true
    case JObject(_) => true
  }

  /** `body.key`: a missing key reads as undefined, which is falsy. */
  predicate TruthyField(body: Body, key: string)
    ensures key !in body ==> !TruthyField(body, key)
    ensures key in body && body[key].JStr? ==> (TruthyField(body, key) <==> body[key].s != "")
  {
    key in body && Truthy(body[key])
  }

  /**
   `parseInt(a / d, 10)` for a positive integer divisor: the quotient truncated
   toward zero (Dafny's own `/` rounds toward negative infinity for negative `a`).
   */
  function TruncDiv(a: int, d: int): (q: int)
    requires d > 0
    ensures a >= 0 ==> 0 <= q && q * d <= a < q * d + d
    ensures a < 0 ==> q <= 0 && q * d - d < a <= q * d
  {
    assert a == (a / d) * d + a % d && 0 <= a % d < d;
    assert -a == ((-a) / d) * d + (-a) % d && 0 <= (-a) % d < d;
    if a >= 0 then a / d else -((-a) / d)
  }

  /** The character of one decimal digit. */
  function DigitChar(d: int): (c: char)
    requires 0 <= d < 10
    ensures '0' <= c <= '9' && c as int - '0' as int == d
  {
    (d + '0' as int) as char
  }

  predicate AllDigits(s: string)
  {
    forall i :: 0 <= i < |s| ==> '0' <= s[i] <= '9'
  }

  /** `String(n)` for a non-negative integer: its decimal digits, without leading zeros. */
  function NatToString(n: nat): (s: string)
    ensures |s| >= 1 && AllDigits(s)
    ensures |s| > 1 ==> s[0] != '0'
    decreases n
  {
    if n < 10 then [DigitChar(n)] else NatToString(n / 10) + [DigitChar(n % 10)]
  }

  /** The number a string of decimal digits denotes, read most significant digit first. */
  function DecimalValue(s: string): (n: nat)
    requires AllDigits(s)
  {
    if s == [] then 0
    else DecimalValue(s[..|s| - 1]) * 10 + (s[|s| - 1] as int - '0' as int)
  }

  /** Reading the digits `String(n)` writes gives `n` back. */
  lemma {:induction false} DecimalRoundTrip(n: nat)
    ensures DecimalValue(NatToString(n)) == n
    decreases n
  {
    var s := NatToString(n);
    if n >= 10 {
      DecimalRoundTrip(n / 10);
      assert s[..|s| - 1] == NatToString(n / 10);
    }
  }

  /**
   `String(n)` for an integer of magnitude below 10^21: a minus sign before the
   digits of a negative number. Larger magnitudes, which JavaScript writes in
   exponent form, are written out in full here.
   */
  function IntToString(n: int): (s: string)
    ensures n >= 0 ==> s == NatToString(n)
    ensures n < 0 ==> |s| >= 2 && s[0] == '-' && s[1..] == NatToString(-n)
  {
    if n < 0 then "-" + NatToString(-n) else NatToString(n)
  }

  /**
   The cast a Mongoose `String` path applies on assignment: strings stay, numbers
   and booleans become their `toString()`, an object whose `_id` is a non-empty
   string becomes that id, and arrays and other objects fail to cast (`None`).
   `null` is not cast at all and is handled by the caller.
   */
  function CastString(v: Value): (r: Option<string>)
    requires v != JNull
    ensures v.JStr? ==> r == Some(v.s)
    ensures v.JArray? ==> r.None?
    ensures v.JBool? ==> r == Some(if v.b then "true" else "false")
    ensures v.JNum? ==> r.Some? && r.value == IntToString(v.n)
    ensures v.JObject? ==> (r.Some? <==> "_id" in v.fields && v.fields["_id"].JStr? && v.fields["_id"].s != "")
    ensures v.JObject? && r.Some? ==> r.value == v.fields["_id"].s
  {
    match v
    case JStr(s) => Some(s)
    case JNum(n) => Some(IntToString(n))
    case JBool(b) => Some(if b then "true" else "false")
    case JArray(_) => None
    case JObject(f) =>
      if "_id" in f && f["_id"].JStr? && f["_id"].s != "" then Some(f["_id"].s) else None
  }
}
