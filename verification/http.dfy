/**
 * What the two route handlers share: the JSON values a request body can hold, the
 * JavaScript coercions `Number(...)`, `String(...)` and `x || d` they apply to query
 * parameters, and the responses they produce.
 */
module Http {
  import opened Wrappers
  import opened Records
  import opened ContactQueries
  import opened TagQueries

  /** A parsed JSON value (numbers restricted to integers). */
  datatype Json =
    | JNull
    | JBool(b: bool)
    | JNumber(n: int)
    | JString(s: string)
    | JArray(items: seq<Json>)
    | JObject(fields: map<string, Json>)

  /** `z.array(z.string())`: the strings of an array whose every item is a string. */
  function StringItems(items: seq<Json>): (r: Option<seq<string>>)
    ensures r.Some? <==> forall i :: 0 <= i < |items| ==> items[i].JString?
    ensures r.Some? ==> |r.value| == |items| && forall i :: 0 <= i < |items| ==> items[i] == JString(r.value[i])
  {
    if items == [] then Some([])
    else if !items[0].JString? then None
    else match StringItems(items[1..])
      case None => None
      case Some(rest) =>
        assert forall i :: 1 <= i < |items| ==> items[i] == items[1..][i - 1];
        Some([items[0].s] + rest)
  }

  /** A list of strings as a JSON array. */
  function StringArray(ss: seq<string>): (r: seq<Json>)
    ensures |r| == |ss| && forall i :: 0 <= i < |ss| ==> r[i] == JString(ss[i])
  {
    if ss == [] then [] else [JString(ss[0])] + StringArray(ss[1..])
  }

  /** Reading the strings back from their JSON array gives the same list. */
  lemma StringArrayRoundTrip(ss: seq<string>)
    ensures StringItems(StringArray(ss)) == Some(ss)
  {
    var r := StringItems(StringArray(ss));
    assert r.Some?;
    assert r.value == ss by {
      forall i | 0 <= i < |ss| ensures r.value[i] == ss[i] {
        assert StringArray(ss)[i] == JString(r.value[i]);
      }
    }
  }

  /** The result of `Number(...)` on a query parameter. */
  datatype JsNumber = NaN | Num(value: int)

  predicate IsDigit(c: char) {
    '0' <= c <= '9'
  }

  predicate AllDigits(s: string) {
    forall i :: 0 <= i < |s| ==> IsDigit(s[i])
  }

  /** The value of a string of decimal digits, most significant first. */
  function DigitsValue(s: string): nat
    requires AllDigits(s)
  {
    if s == [] then 0 else DigitsValue(s[..|s| - 1]) * 10 + (s[|s| - 1] as int - '0' as int)
  }

  /**
   * `Number(x)` for `x` a query parameter: `null` and `""` give 0, an optionally signed
   * run of decimal digits gives its value, and anything else gives NaN.
   */
  function ParseNumber(s: Option<string>): (r: JsNumber)
    ensures s.None? || s.value == "" ==> r == Num(0)
    ensures s.Some? && s.value != [] && !IsDigit(s.value[0]) && s.value[0] != '-' && s.value[0] != '+' ==> r.NaN?
    ensures s.Some? && s.value != [] && AllDigits(s.value) ==> r == Num(DigitsValue(s.value))
  {
    if s.None? || s.value == "" then Num(0)
    else
      var t := s.value;
      if (t[0] == '-' || t[0] == '+') && |t| > 1 && AllDigits(t[1..]) then
        Num(if t[0] == '-' then -(DigitsValue(t[1..]) as int) else DigitsValue(t[1..]))
      else if AllDigits(t) then Num(DigitsValue(t))
      else NaN
  }

  /** How a non-negative number is written into a query string (`20` as "20"). */
  function DecimalString(n: nat): (s: string)
    ensures |s| > 0 && AllDigits(s)
  {
    var d := ['0' + (n % 10) as char];
    if n < 10 then d else DecimalString(n / 10) + d
  }

  lemma {:induction false} DecimalValue(n: nat)
    ensures DigitsValue(DecimalString(n)) == n
  {
    var s := DecimalString(n);
    if n >= 10 {
      DecimalValue(n / 10);
      assert s[..|s| - 1] == DecimalString(n / 10);
    }
  }

  /** A number the client puts in the query string is read back as that number, with either sign. */
  lemma NumberRoundTrip(n: nat)
    ensures ParseNumber(Some(DecimalString(n))) == Num(n)
    ensures ParseNumber(Some("-" + DecimalString(n))) == Num(-(n as int))
  {
    DecimalValue(n);
    assert ("-" + DecimalString(n))[1..] == DecimalString(n);
  }

  /** `Number(x) || d`: NaN and 0 are falsy, so both give the default. */
  function OrDefault(n: JsNumber, d: int): (r: int)
    ensures r == d || (n.Num? && r == n.value)
    ensures n.Num? && n.value != 0 ==> r == n.value
    ensures d != 0 ==> r != 0
  {
    if n.NaN? || n.value == 0 then d else n.value
  }

  /** `String(x)` for a query parameter: a missing one becomes the text "null". */
  function QueryString(s: Option<string>): (r: string)
    ensures s.Some? ==> r == s.value
    ensures s.None? ==> r == "null" && |r| > 0
  {
    if s.None? then "null" else s.value
  }

  datatype Status = Created | BadRequest | InternalServerError

  /** The HTTP status code of each status. */
  function Code(s: Status): int {
    match s
    case Created => 201
    case BadRequest => 400
    case InternalServerError => 500
  }

  /** The JSON payload of a response the handler builds itself. */
  datatype Body =
    | Message(message: string)
    | ErrorMessage(error: string)
    | ContactList(contactPage: ContactPage)
    | TagList(tagPage: TagPage)

  /**
   * A handler either returns a response, or lets a store error escape, which the framework
   * turns into a bare 500.
   */
  datatype Response =
    | Reply(status: Status, body: Body)
    | Unhandled(error: DbError)

  function StatusCode(r: Response): int {
    match r
    case Reply(s, _) => Code(s)
    case Unhandled(_) => 500
  }

  const MissingProperties := "Request body is missing one of the needed properties!"
  const CreatedSuccessfully := "Created successfully!"
}
