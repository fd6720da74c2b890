/** Values shared by every route: optional values, the JavaScript values a JSON
    request body can carry (with JavaScript truthiness), the text that the
    PostgreSQL driver sends for a query parameter, HTTP replies, and tables
    whose ids come from a sequence. */
module Common {

  datatype Option<+T> = None | Some(value: T)

  datatype Result<+T, +E> = Ok(value: T) | Err(error: E)

  /** Identifier of a row of the `users` table (a serial column). */
  type UserId = nat

  /** Integers a JavaScript number holds exactly: `Number.MIN_SAFE_INTEGER`
      to `Number.MAX_SAFE_INTEGER`. */
  const MaxSafeInteger: int := 0x1F_FFFF_FFFF_FFFF

  type SafeInteger = n: int | -MaxSafeInteger <= n <= MaxSafeInteger

  /** Text that is not empty. */
  type NonEmptyString = s: string | |s| > 0 witness "{}"

  /** A value read from a parsed JSON request body. `Undefined` is a field the
      body does not have. Numbers are safe integers. `Structured` is an object
      or an array, carrying the text the PostgreSQL driver sends for it (JSON
      text for an object, an array literal for an array), which is never
      empty. */
  datatype JsValue = Undefined | Null | Bool(b: bool) | Num(n: SafeInteger) | Str(s: string) | Structured(text: NonEmptyString)

  /** JavaScript truthiness: `!v` is true exactly for the falsy values. Every
      object and array, even an empty one, is truthy. */
  predicate Truthy(v: JsValue)
  {
    match v
    case Undefined => false
    case Null => false
    case Bool(b) => b
    case Num(n) => n != 0
    case Str(s) => s != ""
    case Structured(_) => true
  }

  /** The number a string of decimal digits denotes. */
  function DigitsValue(t: string): nat
    decreases |t|
  {
    if |t| == 0 then 0
    else
      var d := t[|t| - 1] as int - '0' as int;
      DigitsValue(t[..|t| - 1]) * 10 + (if 0 <= d <= 9 then d else 0)
  }

  /** Decimal text of a natural number, as JavaScript's `String(n)` writes it
      for every `n` below 10^21, which covers the safe integers: digits only,
      no leading zero, denoting `n`. */
  function NatText(n: nat): (t: string)
    ensures |t| >= 1
    ensures forall i :: 0 <= i < |t| ==> '0' <= t[i] <= '9'
    ensures t[0] != '0' || t == "0"
    ensures DigitsValue(t) == n
    decreases n
  {
    var digit := [('0' as int + n % 10) as char];
    if n < 10 then digit
    else
      var high := NatText(n / 10);
      var t := high + digit;
      assert t[..|t| - 1] == high;
      t
  }

  /** The text the PostgreSQL driver sends for a truthy parameter value
      (`String(v)` for numbers and booleans, the string itself for a string,
      the carried text for an object or array). */
  function Param(v: JsValue): (t: string)
    requires Truthy(v)
    ensures t != ""
    ensures v.Str? ==> t == v.s
  {
    match v
    case Bool(_) => "true"
    case Num(n) => if n < 0 then "-" + NatText(-n) else NatText(n)
    case Str(s) => s
    case Structured(text) => text
  }

  /** What a handler sends back: a status code and a JSON body. */
  datatype Body<+T> = Json(value: T) | Error(error: string) | Message(message: string) | Empty

  datatype Reply<+T> = Reply(status: nat, body: Body<T>)

  /** A table with a `serial` primary key: its rows, in insertion order, and
      the next value of the key's sequence. A sequence only moves forward, so
      an id, once drawn, is never handed out again, even after its row is
      deleted. */
  datatype Serial<T> = Serial(rows: seq<T>, next: nat)

  /** Every row's id was drawn from the sequence before its current value. */
  ghost predicate IdsDrawn<T>(t: Serial<T>, id: T -> nat)
  {
    forall i :: 0 <= i < |t.rows| ==> id(t.rows[i]) < t.next
  }

  /** `INSERT` of `row`, whose id is the sequence's current value: the row is
      appended and the sequence advances. */
  function Append<T>(t: Serial<T>, row: T, id: T -> nat): (t': Serial<T>)
    requires id(row) == t.next
    ensures t'.rows == t.rows + [row] && t'.next == t.next + 1
    ensures IdsDrawn(t, id) ==> IdsDrawn(t', id)
    // The new id differs from every id in the table.
    ensures IdsDrawn(t, id) ==> forall i :: 0 <= i < |t.rows| ==> id(t.rows[i]) != id(row)
  {
    Serial(t.rows + [row], t.next + 1)
  }
}
