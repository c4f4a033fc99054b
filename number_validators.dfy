/** The comparisons `validateNumber` can apply, looked up by the option key the
    caller writes. */
module NumberValidators {
  import opened Wrappers
  import opened JsValues

  datatype NumberValidator = LessThan | GreaterThan | GreaterThanOrEqualTo | LessThanOrEqualTo

  /** `NumberValidators[key](value, expected)` on an integer value. The
      LessThanOrEqualTo entry is the same comparison as GreaterThanOrEqualTo, as
      in the source. */
  predicate Check(validator: NumberValidator, value: int, expected: int)
    ensures value < expected ==> (Check(validator, value, expected) <==> validator == LessThan)
    ensures value == expected ==> (Check(validator, value, expected) <==>
      validator == GreaterThanOrEqualTo || validator == LessThanOrEqualTo)
    ensures value > expected ==> (Check(validator, value, expected) <==> validator != LessThan)
  {
    match validator
    case LessThan => value < expected
    case GreaterThan => value > expected
    case GreaterThanOrEqualTo => value >= expected
    case LessThanOrEqualTo => value >= expected
  }

  /** The same comparison on any number: every comparison with NaN is false. */
  predicate Accepts(validator: NumberValidator, value: Value, expected: int)
    requires IsNumber(value)
    ensures Accepts(validator, value, expected) ==> value.Num?
    ensures value.Num? ==> (Accepts(validator, value, expected) <==> Check(validator, value.n, expected))
  {
    value.Num? && Check(validator, value.n, expected)
  }

  /** The option key that selects each validator. */
  function Key(validator: NumberValidator): string {
    match validator
    case LessThan => "lessThan"
    case GreaterThan => "greaterThan"
    case GreaterThanOrEqualTo => "greaterThanOrEqualTo"
    case LessThanOrEqualTo => "lessThanOrEqualTo"
  }

  /** `NumberValidators[key]`: None for a key that names no validator. */
  function FromKey(key: string): (r: Option<NumberValidator>)
    ensures r.Some? ==> Key(r.value) == key
  {
    if key == "lessThan" then Some(LessThan)
    else if key == "greaterThan" then Some(GreaterThan)
    else if key == "greaterThanOrEqualTo" then Some(GreaterThanOrEqualTo)
    else if key == "lessThanOrEqualTo" then Some(LessThanOrEqualTo)
    else None
  }

  /** Every validator is found under its own key, and only there. */
  lemma KeyRoundTrip(validator: NumberValidator, key: string)
    ensures FromKey(Key(validator)) == Some(validator)
    ensures FromKey(key) == Some(validator) <==> key == Key(validator)
  {
  }

  /** The words of the error message: the key in snake case with `_` replaced by
      a space. Each word break gains a space, so the words open with the key's
      first letter and are longer than the key. */
  function Words(validator: NumberValidator): (w: string)
    ensures |w| > |Key(validator)| && w[0] == Key(validator)[0]
  {
    match validator
    case LessThan => "less than"
    case GreaterThan => "greater than"
    case GreaterThanOrEqualTo => "greater than or equal to"
    case LessThanOrEqualTo => "less than or equal to"
  }

  /** Distinct options put distinct words in their messages. */
  lemma WordsDistinct(a: NumberValidator, b: NumberValidator)
    ensures Words(a) == Words(b) <==> a == b
  {
  }

  /** `lessThan(v, e)` holds iff `v < e`; `greaterThan(v, e)` iff `v > e`;
      `greaterThanOrEqualTo(v, e)` iff `v >= e`. */
  lemma ComparisonsMean(value: int, expected: int)
    ensures Check(LessThan, value, expected) <==> value < expected
    ensures Check(GreaterThan, value, expected) <==> value > expected
    ensures Check(GreaterThanOrEqualTo, value, expected) <==> value >= expected
  {
  }

  /** `lessThan` is the negation of `greaterThanOrEqualTo`, and `greaterThan`
      is `lessThan` with its arguments swapped. */
  lemma ComparisonsRelate(value: int, expected: int)
    ensures Check(LessThan, value, expected) <==> !Check(GreaterThanOrEqualTo, value, expected)
    ensures Check(GreaterThan, value, expected) <==> Check(LessThan, expected, value)
  {
  }

  /** The `lessThanOrEqualTo` entry agrees with `greaterThanOrEqualTo` on every input. */
  lemma LessThanOrEqualToAsWritten(value: int, expected: int)
    ensures Check(LessThanOrEqualTo, value, expected) == Check(GreaterThanOrEqualTo, value, expected)
  {
  }

  /** ... and so it differs from `value <= expected` whenever the two are not equal:
      5 passes `lessThanOrEqualTo: 3`, and 3 fails `lessThanOrEqualTo: 5`. */
  lemma LessThanOrEqualToDiffers(value: int, expected: int)
    ensures Check(LessThanOrEqualTo, value, expected) != (value <= expected) <==> value != expected
    ensures Check(LessThanOrEqualTo, 5, 3) && !Check(LessThanOrEqualTo, 3, 5)
  {
  }

  /** NaN fails every comparison. */
  lemma NaNFailsAll(validator: NumberValidator, expected: int)
    ensures !Accepts(validator, NaN, expected)
  {
  }
}
