/** The JavaScript values that flow through a changeset, with the few language
    operations the changeset relies on: truthiness, `===`, `String(..)`,
    `Number(..)` and `String.prototype.trim`. */
module JsValues {

  /** A JavaScript value. Numbers are integers or NaN; a Buffer is represented
      by the text it decodes to (encoding a string to UTF-8 and decoding it back
      gives the same string). */
  datatype Value =
    | Undefined
    | Null
    | Num(n: int)
    | NaN
    | Str(s: string)
    | Bool(b: bool)
    | Bytes(text: string)

  /** `typeof v === "number"` */
  predicate IsNumber(v: Value) {
    v.Num? || v.NaN?
  }

  /** The values for which `v ? .. : ..` takes the else branch. */
  predicate Falsy(v: Value)
    ensures Falsy(v) <==> v in {Undefined, Null, NaN, Num(0), Str(""), Bool(false)}
  {
    match v
    case Undefined => true
    case Null => true
    case NaN => true
    case Num(n) => n == 0
    case Str(s) => s == ""
    case Bool(b) => !b
    case Bytes(_) => false
  }

  /** `v == null`, the test behind `??`. */
  predicate IsNullish(v: Value) {
    v.Null? || v.Undefined?
  }

  /** `v || null` */
  function OrNull(v: Value): (r: Value)
    ensures Falsy(v) ==> r == Null
    ensures !Falsy(v) ==> r == v
  {
    if Falsy(v) then Null else v
  }

  /** `a === b`. NaN is not identical to anything, and a Buffer is an object, so
      a freshly built one is not identical to any other value. */
  predicate StrictEq(a: Value, b: Value)
    ensures StrictEq(a, b) ==> a == b
    ensures a.NaN? || a.Bytes? ==> !StrictEq(a, b)
  {
    match (a, b)
    case (Undefined, Undefined) => true
    case (Null, Null) => true
    case (Num(x), Num(y)) => x == y
    case (Str(x), Str(y)) => x == y
    case (Bool(x), Bool(y)) => x == y
    case _ => false
  }

  /** `===` agrees with equality of the model's values, except on NaN and on Buffers. */
  lemma StrictEqIsEquality(a: Value, b: Value)
    ensures StrictEq(a, b) <==> a == b && !a.NaN? && !a.Bytes?
  {
  }

  // ---------------------------------------------------------------------------
  // Whitespace and trim

  /** The characters `trim` removes: WhiteSpace and LineTerminator of
      ECMAScript: tab, line feed, vertical tab, form feed and carriage return
      (U+0009 to U+000D), every space separator of Unicode, U+2028, U+2029 and
      the byte order mark. */
  predicate IsWhite(c: char)
    ensures c < '\U{0100}' ==> (IsWhite(c) <==> c in {'\t', '\n', '\U{B}', '\U{C}', '\r', ' ', '\U{A0}'})
    ensures IsWhite(c) ==> c != '+' && c != '-' && !('0' <= c <= '9')
  {
    || '\t' <= c <= '\r'
    || c == ' ' || c == '\U{A0}' || c == '\U{1680}'
    || '\U{2000}' <= c <= '\U{200A}'
    || c == '\U{2028}' || c == '\U{2029}' || c == '\U{202F}' || c == '\U{205F}'
    || c == '\U{3000}' || c == '\U{FEFF}'
  }

  /** The number of whitespace characters `s` starts with. */
  function LeadingWhite(s: string): (n: nat)
    ensures n <= |s|
    ensures forall i :: 0 <= i < n ==> IsWhite(s[i])
    ensures n == |s| || !IsWhite(s[n])
  {
    if s != [] && IsWhite(s[0]) then 1 + LeadingWhite(s[1..]) else 0
  }

  /** The number of whitespace characters `s` ends with. */
  function TrailingWhite(s: string): (n: nat)
    ensures n <= |s|
    ensures forall i :: |s| - n <= i < |s| ==> IsWhite(s[i])
    ensures n == |s| || !IsWhite(s[|s| - n - 1])
  {
    if s != [] && IsWhite(s[|s| - 1]) then 1 + TrailingWhite(s[..|s| - 1]) else 0
  }

  /** `s.trimStart()`: `s` without its leading whitespace. */
  function TrimStart(s: string): (r: string)
    ensures |r| <= |s| && r == s[|s| - |r|..]
    ensures forall i :: 0 <= i < |s| - |r| ==> IsWhite(s[i])
    ensures r == [] || !IsWhite(r[0])
  {
    s[LeadingWhite(s)..]
  }

  /** `s.trimEnd()`: `s` without its trailing whitespace. */
  function TrimEnd(s: string): (r: string)
    ensures |r| <= |s| && r == s[..|r|]
    ensures forall i :: |r| <= i < |s| ==> IsWhite(s[i])
    ensures r == [] || !IsWhite(r[|r| - 1])
  {
    s[..|s| - TrailingWhite(s)]
  }

  /** `s.trim()` */
  function Trim(s: string): (r: string)
    ensures |r| <= |s|
    ensures r == [] || (!IsWhite(r[0]) && !IsWhite(r[|r| - 1]))
  {
    TrimEnd(TrimStart(s))
  }

  /** Whitespace cut from the front of `s` and then from the back of what is
      left frames a slice of `s` that starts and ends with non-whitespace. */
  lemma SliceOfSuffix(s: string, t: string, r: string, lead: nat)
    requires lead <= |s| && t == s[lead..] && |r| <= |t| && r == t[..|r|]
    requires forall i :: |r| <= i < |t| ==> IsWhite(t[i])
    requires t == [] || !IsWhite(t[0])
    requires r == [] || !IsWhite(r[|r| - 1])
    ensures lead + |r| <= |s| && forall i :: 0 <= i < |r| ==> r[i] == s[lead + i]
    ensures forall i :: lead + |r| <= i < |s| ==> IsWhite(s[i])
    ensures r == [] || (!IsWhite(r[0]) && !IsWhite(r[|r| - 1]))
  {
    forall i | lead + |r| <= i < |s| ensures IsWhite(s[i]) {
      assert s[i] == t[i - lead];
    }
    assert r != [] ==> r[0] == t[0];
  }

  /** `trim` keeps the characters of `s` from `lead` on, for its own length;
      it removes only whitespace, from both ends, and leaves a string that
      neither starts nor ends with whitespace. */
  lemma {:induction false} TrimSpec(s: string)
    ensures var r, lead := Trim(s), |s| - |TrimStart(s)|;
      && 0 <= lead && lead + |r| <= |s| && (forall i :: 0 <= i < |r| ==> r[i] == s[lead + i])
      && (forall i :: 0 <= i < lead ==> IsWhite(s[i]))
      && (forall i :: lead + |r| <= i < |s| ==> IsWhite(s[i]))
      && (r == [] || (!IsWhite(r[0]) && !IsWhite(r[|r| - 1])))
  {
    var t := TrimStart(s);
    SliceOfSuffix(s, t, TrimEnd(t), |s| - |t|);
  }

  /** Trimming twice is trimming once. */
  lemma {:induction false} TrimIdempotent(s: string)
    ensures Trim(Trim(s)) == Trim(s)
  {
    TrimSpec(s);
    TrimUnchanged(Trim(s));
  }

  /** A string of whitespace only trims to the empty string. */
  lemma {:induction false} TrimAllWhite(s: string)
    requires forall i :: 0 <= i < |s| ==> IsWhite(s[i])
    ensures Trim(s) == ""
  {
  }

  /** A string with no whitespace at either end is left alone by `trim`. */
  lemma {:induction false} TrimUnchanged(s: string)
    requires s == [] || (!IsWhite(s[0]) && !IsWhite(s[|s| - 1]))
    ensures Trim(s) == s
  {
  }

  // ---------------------------------------------------------------------------
  // Decimal text of integers

  predicate IsDigit(c: char) {
    '0' <= c <= '9'
  }

  predicate AllDigits(s: string) {
    forall i :: 0 <= i < |s| ==> IsDigit(s[i])
  }

  function DigitChar(d: nat): (c: char)
    requires d < 10
    ensures IsDigit(c)
  {
    "0123456789"[d]
  }

  function DigitValue(c: char): nat
    requires IsDigit(c)
  {
    (c as int - '0' as int) as nat
  }

  /** The decimal number written by a string of digits. */
  function DigitsValue(s: string): nat
    requires AllDigits(s)
  {
    if s == [] then 0 else DigitsValue(s[..|s| - 1]) * 10 + DigitValue(s[|s| - 1])
  }

  /** The decimal digits of a natural number, without leading zeros. */
  function NatToString(n: nat): (s: string)
    ensures |s| > 0 && AllDigits(s)
    ensures |s| > 1 ==> s[0] != '0'
    decreases n
  {
    if n < 10 then [DigitChar(n)] else NatToString(n / 10) + [DigitChar(n % 10)]
  }

  /** Reading the digits of `n` back gives `n`. */
  lemma {:induction false} NatToStringRoundTrip(n: nat)
    ensures DigitsValue(NatToString(n)) == n
    decreases n
  {
    var s := NatToString(n);
    if n < 10 {
      assert s[..0] == [];
    } else {
      NatToStringRoundTrip(n / 10);
      assert s[..|s| - 1] == NatToString(n / 10);
    }
  }

  /** `String(n)` for an integer (the model leaves out exponent notation above 1e21). */
  function IntToString(n: int): (r: string)
    ensures r != [] && (r[0] == '-' <==> n < 0)
    ensures forall i :: 0 < i < |r| ==> IsDigit(r[i])
    ensures n >= 0 ==> IsDigit(r[0])
  {
    if n < 0 then "-" + NatToString(-n) else NatToString(n)
  }

  /** `Number(s)` for a string: surrounding whitespace is ignored, the empty
      string is 0, an optionally signed run of decimal digits is that integer,
      and anything else is NaN. */
  function ParseNumber(s: string): (r: Value)
    ensures IsNumber(r)
    ensures Trim(s) == [] ==> r == Num(0)
    ensures r.NaN? ==> exists i :: 0 <= i < |Trim(s)| && !IsDigit(Trim(s)[i])
  {
    var t := Trim(s);
    if t == [] then Num(0)
    else if AllDigits(t) then Num(DigitsValue(t))
    else if |t| > 1 && t[0] == '+' && AllDigits(t[1..]) then Num(DigitsValue(t[1..]))
    else if |t| > 1 && t[0] == '-' && AllDigits(t[1..]) then Num(0 - DigitsValue(t[1..]))
    else NaN
  }

  lemma DigitNotWhite(c: char)
    requires IsDigit(c) || c == '-'
    ensures !IsWhite(c)
  {
  }

  /** `Number(String(n)) === n` for every integer. */
  lemma {:induction false} IntToStringRoundTrip(n: int)
    ensures ParseNumber(IntToString(n)) == Num(n)
  {
    var s := IntToString(n);
    var d := NatToString(if n < 0 then -n else n);
    NatToStringRoundTrip(if n < 0 then -n else n);
    DigitNotWhite(s[0]);
    DigitNotWhite(d[|d| - 1]);
    assert s[|s| - 1] == d[|d| - 1];
    TrimUnchanged(s);
    assert Trim(s) == s && s != [];
    if n < 0 {
      assert s[1..] == d;
      assert !IsDigit(s[0]);
      assert !AllDigits(s);
    }
  }

  /** `String(v)` */
  function ToText(v: Value): (r: string)
    ensures v.Str? ==> r == v.s
    ensures v.Bytes? ==> r == v.text
    ensures r == [] ==> v == Str("") || v == Bytes("")
  {
    match v
    case Undefined => "undefined"
    case Null => "null"
    case Num(n) => IntToString(n)
    case NaN => "NaN"
    case Str(s) => s
    case Bool(b) => if b then "true" else "false"
    case Bytes(t) => t
  }

  /** `Number(v)` */
  function ToNumber(v: Value): (r: Value)
    ensures IsNumber(r)
  {
    match v
    case Undefined => NaN
    case Null => Num(0)
    case Num(n) => Num(n)
    case NaN => NaN
    case Str(s) => ParseNumber(s)
    case Bool(b) => if b then Num(1) else Num(0)
    case Bytes(t) => ParseNumber(t)
  }
}
