/**
  What the two edge functions read from a request body and write back.

  `req.json()` yields JSON values; a field missing from the body reads as
  `undefined`. Numbers are restricted to integers here (see README, under
  Http.TemplateText and Shorten.ExpiryFor).
 */
module Http {

  datatype JsValue =
    | JsUndefined
    | JsNull
    | JsBool(b: bool)
    | JsNumber(n: int)
    | JsString(s: string)
    | JsObject            // an object or an array

  /** JavaScript truthiness, as tested by `if (v)` and `!v`. */
  predicate Truthy(v: JsValue) {
    match v
    case JsUndefined => false
    case JsNull => false
    case JsBool(b) => b
    case JsNumber(n) => n != 0
    case JsString(s) => s != ""
    case JsObject => true
  }

  function DigitChar(d: nat): char
    requires d < 10
  {
    ('0' as int + d) as char
  }

  /** The decimal digits of a natural number, most significant first, without leading zeros. */
  function DecimalDigits(n: nat): (s: string)
    ensures s != []
    ensures forall i :: 0 <= i < |s| ==> '0' <= s[i] <= '9'
    ensures s[0] == '0' ==> n == 0
  {
    if n < 10 then [DigitChar(n)] else DecimalDigits(n / 10) + [DigitChar(n % 10)]
  }

  /** The number a string of decimal digits denotes. */
  function DecimalValue(s: string): nat
    requires forall i :: 0 <= i < |s| ==> '0' <= s[i] <= '9'
  {
    if s == [] then 0 else DecimalValue(s[..|s| - 1]) * 10 + (s[|s| - 1] as int - '0' as int)
  }

  /** Reading the digits back gives the number. */
  lemma {:induction false} DecimalRoundTrip(n: nat)
    ensures DecimalValue(DecimalDigits(n)) == n
  {
    if n >= 10 {
      var s := DecimalDigits(n);
      assert s[..|s| - 1] == DecimalDigits(n / 10);
      DecimalRoundTrip(n / 10);
    }
  }

  /**
    `${v}`: the text a value becomes inside a template literal. A truthy
    value never becomes the empty string.
   */
  function TemplateText(v: JsValue): (t: string)
    ensures v.JsString? ==> t == v.s
    ensures v.JsNumber? && v.n >= 0 ==> t == DecimalDigits(v.n)
    ensures v.JsNumber? && v.n < 0 ==> t == "-" + DecimalDigits(-v.n)
    ensures Truthy(v) ==> t != ""
  {
    match v
    case JsUndefined => "undefined"
    case JsNull => "null"
    case JsBool(b) => if b then "true" else "false"
    case JsNumber(n) => if n < 0 then "-" + DecimalDigits(-n) else DecimalDigits(n)
    case JsString(s) => s
    case JsObject => "[object Object]"
  }

  /** The JSON bodies the handlers answer with. */
  datatype Body =
    | ShortIdBody(shortId: string)   // { shortId, success: true }
    | UrlBody(url: string)           // { url, success: true }
    | ErrorBody(error: string)       // { error: message }

  datatype Response = Response(status: int, body: Body)

  const Ok := 200
  const BadRequest := 400
  const NotFound := 404
}
