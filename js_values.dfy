/** The part of JavaScript's value model the kiosk runtime relies on: the values
    `JSON.parse` can produce (plus `undefined`, which reading a missing property
    gives), the `Number(v)` conversion, property reads that throw on `null`,
    `localStorage` as a string-to-string map, and the reading of a query string
    that decides whether the next page starts in kiosk mode.

    Two parsers are foreign to the model and come in as parameters: `JSON.parse`
    (`parseJson`, `None` when it throws) and ECMAScript's string-to-number
    grammar (`strToNum`). */
module JsValues {
  import opened Wrappers

  /** A JavaScript number. Finite values are exact reals here. */
  datatype JsNumber = Finite(value: real) | NaN | PosInfinity | NegInfinity

  datatype JsValue =
    | Undefined
    | Null
    | Bool(b: bool)
    | Num(n: JsNumber)
    | Str(s: string)
    | Arr(elems: seq<JsValue>)
    | Obj(props: map<string, JsValue>)

  /** `Number(v)`. An array converts through its comma-joined text: the empty
      array gives 0, a single element converts as its own text (so `null` and
      `undefined` give 0 and a boolean gives NaN), and two or more elements
      give text holding a comma, which is never numeric. An object's text is
      "[object Object]", which is NaN. */
  function ToNumber(v: JsValue, strToNum: string -> JsNumber): (x: JsNumber)
    ensures v.Undefined? || v.Obj? ==> x == NaN
    ensures v.Null? ==> x == Finite(0.0)
    ensures v.Num? ==> x == v.n
  {
    match v
    case Undefined => NaN
    case Null => Finite(0.0)
    case Bool(b) => Finite(if b then 1.0 else 0.0)
    case Num(n) => n
    case Str(s) => strToNum(s)
    case Obj(_) => NaN
    case Arr(xs) =>
      if |xs| == 0 then Finite(0.0)
      else if |xs| > 1 then NaN
      else match xs[0]
        case Undefined => Finite(0.0)
        case Null => Finite(0.0)
        case Bool(_) => NaN
        case _ => ToNumber(xs[0], strToNum)
  }

  /** `v[key]` for the keys the runtime reads: `None` is the TypeError thrown
      when v is `null` or `undefined`; a missing key reads as `undefined`.
      Strings, numbers, booleans and arrays have no property by the names the
      runtime uses, so they read as `undefined` too. */
  function GetProperty(v: JsValue, key: string): (r: Option<JsValue>)
    ensures r.None? <==> v.Null? || v.Undefined?
    ensures v.Obj? ==> r == Some(if key in v.props then v.props[key] else Undefined)
  {
    match v
    case Undefined => None
    case Null => None
    case Obj(m) => Some(if key in m then m[key] else Undefined)
    case _ => Some(Undefined)
  }

  /** `localStorage.getItem(key) || fallback`: an absent or empty entry gives the fallback. */
  function StoredOr(storage: map<string, string>, key: string, fallback: string): (s: string)
    ensures key in storage && storage[key] != "" ==> s == storage[key]
    ensures key !in storage || storage[key] == "" ==> s == fallback
  {
    if key in storage && storage[key] != "" then storage[key] else fallback
  }

  /** `readJson(key, fallback)`: `JSON.parse(localStorage.getItem(key) || '')`,
      or the fallback when that throws; `JSON.parse('')` always throws. */
  function ReadJson(storage: map<string, string>, key: string,
                    parseJson: string -> Option<JsValue>, fallback: JsValue): (v: JsValue)
    ensures key !in storage || storage[key] == "" ==> v == fallback
    ensures key in storage && storage[key] != "" && parseJson(storage[key]).Some?
            ==> v == parseJson(storage[key]).value
    ensures key in storage && parseJson(storage[key]).None? ==> v == fallback
  {
    var text := StoredOr(storage, key, "");
    if text == "" then fallback else parseJson(text).GetOr(fallback)
  }

  /* ---- Reading a query string back, as the next page's `URLSearchParams` does ---- */

  /** The text of s before the first c, or all of s when c does not occur. */
  function Before(s: string, c: char): (r: string)
    ensures |r| <= |s| && r == s[..|r|]
    ensures c !in r
    ensures |r| < |s| ==> s[|r|] == c
  {
    if s == [] || s[0] == c then [] else [s[0]] + Before(s[1..], c)
  }

  /** The text of s after the first c, when c occurs. */
  function After(s: string, c: char): (r: Option<string>)
    ensures r.None? <==> c !in s
    ensures r.Some? ==> s == Before(s, c) + [c] + r.value
  {
    var b := Before(s, c);
    if |b| == |s| then None else Some(s[|b| + 1..])
  }

  /** The fields of s between the separators c. */
  function SplitOn(s: string, c: char): (fields: seq<string>)
    ensures |fields| >= 1 && fields[0] == Before(s, c)
    ensures forall i | 0 <= i < |fields| :: c !in fields[i]
    decreases |s|
  {
    match After(s, c)
    case None => [s]
    case Some(rest) => [Before(s, c)] + SplitOn(rest, c)
  }

  /** The query of a URL: what follows its first '?', up to the fragment. */
  function QueryOf(url: string): (q: string)
    ensures '?' !in Before(url, '#') ==> q == ""
    ensures '?' in Before(url, '#') ==> Before(url, '#') == Before(Before(url, '#'), '?') + ['?'] + q
  {
    After(Before(url, '#'), '?').GetOr("")
  }

  /** `new URLSearchParams(query).get(name)`: the value of the first field whose
      name (the text before its first '=') is name. Empty fields are skipped.
      Percent-decoding and '+' as space are not modelled. */
  function FieldValue(fields: seq<string>, name: string): (r: Option<string>)
    ensures r.Some? ==> exists i | 0 <= i < |fields| :: Before(fields[i], '=') == name && fields[i] != ""
  {
    if fields == [] then None
    else if fields[0] != "" && Before(fields[0], '=') == name then Some(After(fields[0], '=').GetOr(""))
    else FieldValue(fields[1..], name)
  }

  function QueryGet(url: string, name: string): (r: Option<string>)
    ensures r.Some? ==> '?' in Before(url, '#')
  {
    assert SplitOn("", '&') == [""];
    FieldValue(SplitOn(QueryOf(url), '&'), name)
  }
}
