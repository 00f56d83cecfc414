/**
 * JavaScript values as they reach the handlers (request bodies, rows read back
 * from SQLite, JSON frames) and the truthiness rules that `||`, `!x` and
 * `if (x)` apply to them.
 */
module JsValues {

  datatype Option<+T> = None | Some(value: T)

  /** A field of a JSON body or a row: absent, null, a string or an integer. */
  datatype JsVal = Undefined | Null | Str(s: string) | Num(n: int)

  /** JavaScript truthiness: the empty string, 0, null and undefined are falsy. */
  predicate Truthy(v: JsVal) {
    match v
    case Str(s) => s != ""
    case Num(n) => n != 0
    case _ => false
  }

  predicate IsNullish(v: JsVal) {
    v.Undefined? || v.Null?
  }

  /** `a || b` */
  function Or(a: JsVal, b: JsVal): JsVal {
    if Truthy(a) then a else b
  }

  /** node-sqlite3 binds an `undefined` parameter as NULL. */
  function Bind(v: JsVal): JsVal {
    if v.Undefined? then Null else v
  }

  /** Truthiness of a nullable string such as `token` or `currentProject`. */
  predicate Present(o: Option<string>) {
    o.Some? && o.value != ""
  }

  /** `x || null` on an optional string field. */
  function OrNull(o: Option<string>): Option<string> {
    if Present(o) then o else None
  }

  /** Decimal digits of a natural number, as a template literal prints it. */
  function NatText(n: nat): string
    decreases n
  {
    var d := [['0', '1', '2', '3', '4', '5', '6', '7', '8', '9'][n % 10]];
    if n < 10 then d else NatText(n / 10) + d
  }

  /** What `${v}` inside a template literal produces. */
  function Interpolate(v: JsVal): string {
    match v
    case Undefined => "undefined"
    case Null => "null"
    case Str(s) => s
    case Num(n) => if n < 0 then "-" + NatText(-n) else NatText(n)
  }

  /** A handler's answer: a body, or the HTTP status of an error reply. */
  datatype Reply<+T> = Ok(value: T) | Error(status: int)
}
