/** The table from a field's declared type to the function that coerces raw
    input into that type. */
module TypeMapper {
  import opened Wrappers
  import opened JsValues

  /** The six field types, in the order of the source's enumeration
      (Integer is 0, Decimal is 5). */
  datatype TypeTag = Integer | Binary | Float | Boolean | String | Decimal

  /** `value ? String(value) : null`, the coercion of String and Decimal fields. */
  function ToNullableText(v: Value): (r: Value)
    ensures r.Null? <==> Falsy(v)
    ensures !Falsy(v) ==> r == Str(ToText(v))
  {
    if Falsy(v) then Null else Str(ToText(v))
  }

  /** `Buffer.from(value)`: a string or a buffer gives a new buffer holding the
      same text; any other value makes it throw a TypeError (None). */
  function ToBuffer(v: Value): (r: Option<Value>)
    ensures r.Some? <==> v.Str? || v.Bytes?
    ensures r.Some? ==> r.value.Bytes? && ToText(r.value) == ToText(v)
  {
    match v
    case Str(s) => Some(Bytes(s))
    case Bytes(t) => Some(Bytes(t))
    case _ => None
  }

  /** `TypeMapper[tag](value)`; None when the coercion throws. */
  function Coerce(tag: TypeTag, v: Value): (r: Option<Value>)
    ensures r.None? <==> tag == Binary && !v.Str? && !v.Bytes?
    ensures r.Some? && (tag == Integer || tag == Float) ==> IsNumber(r.value)
    ensures r.Some? && (tag == String || tag == Decimal) ==> (r.value.Null? <==> Falsy(v)) && (r.value.Null? || r.value.Str?)
    ensures r.Some? && tag == Boolean ==> r.value.Bool? && (r.value.b <==> !Falsy(v))
    ensures r.Some? && tag == Binary ==> r.value.Bytes? && r.value.text == ToText(v)
  {
    match tag
    case Integer => Some(ToNumber(v))
    case Float => Some(ToNumber(v))
    case String => Some(ToNullableText(v))
    case Decimal => Some(ToNullableText(v))
    case Binary => ToBuffer(v)
    case Boolean => Some(Bool(!Falsy(v)))
  }

  /** Every tag has a coercion, and only the Binary one can throw. */
  lemma CoerceTotal(tag: TypeTag, v: Value)
    ensures Coerce(tag, v).None? ==> tag == Binary && !v.Str? && !v.Bytes?
    ensures tag == Binary && (v.Str? || v.Bytes?) ==> Coerce(tag, v).Some?
  {
  }

  /** Integer and Float fields share `Number`; String and Decimal fields share
      the nullable text coercion. */
  lemma SharedCoercions(v: Value)
    ensures Coerce(Integer, v) == Coerce(Float, v) == Some(ToNumber(v))
    ensures Coerce(Decimal, v) == Coerce(String, v)
  {
  }

  /** The String coercion gives null exactly on the falsy inputs (`""`, 0, NaN,
      false, null, undefined) and the text of every other input. */
  lemma StringCoercion(v: Value)
    ensures Falsy(v) ==> Coerce(String, v) == Some(Null)
    ensures !Falsy(v) ==> Coerce(String, v) == Some(Str(ToText(v)))
  {
  }

  /** The Boolean coercion gives the truthiness of its input. */
  lemma BooleanCoercion(v: Value)
    ensures Coerce(Boolean, v) == Some(Bool(!Falsy(v)))
    ensures Coerce(Boolean, v).value.b <==> !Falsy(v)
  {
  }

  /** Every numeric coercion yields a number: an integer or NaN. */
  lemma NumberCoercion(tag: TypeTag, v: Value)
    requires tag == Integer || tag == Float
    ensures Coerce(tag, v).Some? && IsNumber(Coerce(tag, v).value)
  {
  }

  /** A number taken through a String field's coercion and back through an
      Integer field's coercion is unchanged. */
  lemma {:induction false} TextThenNumber(n: int)
    requires n != 0
    ensures Coerce(String, Num(n)) == Some(Str(IntToString(n)))
    ensures Coerce(Integer, Coerce(String, Num(n)).value) == Some(Num(n))
  {
    var t := IntToString(n);
    assert ToNullableText(Num(n)) == Str(t);
    IntToStringRoundTrip(n);
    assert ToNumber(Str(t)) == ParseNumber(t);
  }
}
