/** The JavaScript values that reach `validateTaskObject` and `validateSettings` (records parsed
    from JSON or built by the settings form), and the conversions those two functions apply:
    ToBoolean (truthiness), property reads, `String(v)` and the sign and NaN-ness of `Number(v)`,
    with the TypeError the last two raise on an object that has its own `toString` key. */
module JsValues {
  import opened Text

  /** A JavaScript number is represented by the text `String(n)` gives for it ("2.5", "120", "0"
      for both zeros, "NaN", "Infinity", "-Infinity", "1e+21"). The validators look only at that
      text, at its truthiness, at whether it is NaN and at whether it is below zero, and all four are
      read off the text exactly. */
  datatype JsValue =
    | Undefined
    | Null
    | Bool(b: bool)
    | Num(text: string)
    | Str(s: string)
    | Arr(items: seq<JsValue>)
    | Obj(props: map<string, JsValue>)

  /** ToBoolean: `!v` is false exactly for these. */
  predicate Truthy(v: JsValue) {
    match v
    case Undefined => false
    case Null => false
    case Bool(b) => b
    case Num(t) => t != "0" && t != "NaN"
    case Str(s) => s != ""
    case Arr(_) => true
    case Obj(_) => true
  }

  /** `!v || typeof v !== 'object'` is false exactly for arrays and objects (null is falsy). */
  predicate IsObject(v: JsValue) {
    v.Arr? || v.Obj?
  }

  /** `v[key]` for the field names the validators read: an own property of a plain object; arrays
      and primitives have no property of those names. */
  function Get(v: JsValue, key: string): JsValue {
    if v.Obj? && key in v.props then v.props[key] else Undefined
  }

  /** The outcome of a conversion or call that may throw: its value, or the TypeError it raises. */
  datatype Outcome<T> = Returns(value: T) | TypeError

  /** `String(v)` and `Number(v)` throw a TypeError. ToPrimitive tries `toString` and `valueOf`. A
      parsed object with its own `toString` key has a value there that is not a function, and the
      inherited `valueOf` returns the object itself, so neither yields a primitive. An array
      converts through `join`, which converts every element that is not null or undefined. */
  predicate ConversionThrows(v: JsValue) {
    match v
    case Obj(props) => "toString" in props
    case Arr(items) => exists i | 0 <= i < |items| :: ConversionThrows(items[i])
    case _ => false
  }

  /** `String(v)`: a TypeError exactly when the conversion throws, otherwise the value's text. */
  function ToStr(v: JsValue): (r: Outcome<string>)
    ensures r.TypeError? <==> ConversionThrows(v)
    ensures v.Num? ==> r == Returns(v.text)
    ensures v.Str? ==> r == Returns(v.s)
    ensures v.Obj? && !ConversionThrows(v) ==> r == Returns("[object Object]")
    decreases v, 1
  {
    match v
    case Undefined => Returns("undefined")
    case Null => Returns("null")
    case Bool(b) => Returns(if b then "true" else "false")
    case Num(t) => Returns(t)
    case Str(s) => Returns(s)
    case Arr(items) => Join(items)
    case Obj(props) => if "toString" in props then TypeError else Returns("[object Object]")
  }

  /** `items.join(",")`, as `String` applies it to arrays: null and undefined elements print as "",
      and the first element whose conversion throws makes the whole join throw. */
  function Join(items: seq<JsValue>): (r: Outcome<string>)
    ensures r.TypeError? <==> exists i | 0 <= i < |items| :: ConversionThrows(items[i])
    decreases items, 0
  {
    if items == [] then Returns("")
    else
      var first := if items[0].Undefined? || items[0].Null? then Returns("") else ToStr(items[0]);
      if first.TypeError? then TypeError
      else if |items| == 1 then first
      else
        var rest := Join(items[1..]);
        assert forall i | 1 <= i < |items| :: items[1..][i - 1] == items[i];
        if rest.TypeError? then TypeError else Returns(first.value + "," + rest.value)
  }

  /** What `isNaN(Number(v))` and `Number(v) < 0` can tell about a value. */
  datatype NumberSign = NotANumber | BelowZero | ZeroOrAbove

  /** `Number(v)`, classified. Objects and arrays go through their string form, and throw where
      `String` does. */
  function ToNumberSign(v: JsValue): (r: Outcome<NumberSign>)
    ensures r.TypeError? <==> ConversionThrows(v)
    ensures v.Str? ==> r == Returns(StringToNumberSign(v.s))
    ensures (v.Arr? || v.Obj?) && !ConversionThrows(v) ==> r == Returns(StringToNumberSign(ToStr(v).value))
  {
    match v
    case Undefined => Returns(NotANumber)
    case Null => Returns(ZeroOrAbove)
    case Bool(_) => Returns(ZeroOrAbove)
    case Num(t) => Returns(if t == "NaN" then NotANumber else if t != [] && t[0] == '-' then BelowZero else ZeroOrAbove)
    case Str(s) => Returns(StringToNumberSign(s))
    case Arr(_) => var text := ToStr(v); if text.TypeError? then TypeError else Returns(StringToNumberSign(text.value))
    case Obj(_) => var text := ToStr(v); if text.TypeError? then TypeError else Returns(StringToNumberSign(text.value))
  }

  /** `Number(s)` for a string (ECMAScript StringNumericLiteral): surrounding whitespace is ignored,
      the empty string is 0, `0x`/`0o`/`0b` integers and unsigned literals are not below zero, a `-`
      sign makes `Infinity` or a literal with a non-zero digit negative, and anything else is NaN. */
  function StringToNumberSign(s: string): NumberSign {
    var t := Trim(s);
    if t == [] || IsNonDecimalInteger(t) then ZeroOrAbove
    else
      var negative := t[0] == '-';
      var body := if t[0] == '-' || t[0] == '+' then t[1..] else t;
      if body == "Infinity" then (if negative then BelowZero else ZeroOrAbove)
      else if IsUnsignedDecimal(body) then
        (if negative && HasNonZeroDigit(body[..ExponentStart(body)]) then BelowZero else ZeroOrAbove)
      else NotANumber
  }

  predicate IsHexDigit(c: char) { IsDigit(c) || ('a' <= c <= 'f') || ('A' <= c <= 'F') }

  /** `0x1F`, `0o17`, `0b101` (no sign allowed). */
  predicate IsNonDecimalInteger(t: string) {
    |t| >= 3 && t[0] == '0'
    && (((t[1] == 'x' || t[1] == 'X') && forall i | 2 <= i < |t| :: IsHexDigit(t[i]))
        || ((t[1] == 'o' || t[1] == 'O') && forall i | 2 <= i < |t| :: '0' <= t[i] <= '7')
        || ((t[1] == 'b' || t[1] == 'B') && forall i | 2 <= i < |t| :: t[i] == '0' || t[i] == '1'))
  }

  /** Index of the first `e` or `E`, or the length when there is none. */
  function ExponentStart(t: string): (n: nat)
    ensures n <= |t|
  {
    if t == [] || t[0] == 'e' || t[0] == 'E' then 0 else 1 + ExponentStart(t[1..])
  }

  /** StrUnsignedDecimalLiteral: digits with at most one `.` and at least one digit, then an
      optional exponent `e`/`E`, an optional sign and at least one digit. */
  predicate IsUnsignedDecimal(t: string) {
    var e := ExponentStart(t);
    IsMantissa(t[..e]) && (e == |t| || IsSignedDigits(t[e + 1..]))
  }

  predicate IsMantissa(m: string) {
    (forall i | 0 <= i < |m| :: IsDigit(m[i]) || m[i] == '.')
    && (forall i, j | 0 <= i < j < |m| :: !(m[i] == '.' && m[j] == '.'))
    && (exists i | 0 <= i < |m| :: IsDigit(m[i]))
  }

  predicate IsSignedDigits(x: string) {
    var d := if x != [] && (x[0] == '+' || x[0] == '-') then x[1..] else x;
    d != [] && AllDigits(d)
  }

  predicate HasNonZeroDigit(m: string) {
    exists i | 0 <= i < |m| :: '1' <= m[i] <= '9'
  }
}
