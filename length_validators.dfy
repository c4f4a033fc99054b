/** The comparisons `validateLength` can apply to a string's length, looked up
    by the option key the caller writes. */
module LengthValidators {
  import opened Wrappers

  datatype LengthValidator = Min | Max | Is

  /** `LengthValidators[key](value, expected)` */
  predicate Check(validator: LengthValidator, value: string, expected: int)
    ensures |value| < expected ==> (Check(validator, value, expected) <==> validator == Max)
    ensures |value| == expected ==> Check(validator, value, expected)
    ensures |value| > expected ==> (Check(validator, value, expected) <==> validator == Min)
  {
    match validator
    case Min => |value| >= expected
    case Max => |value| <= expected
    case Is => |value| == expected
  }

  /** The option key that selects each validator. */
  function Key(validator: LengthValidator): string {
    match validator
    case Min => "min"
    case Max => "max"
    case Is => "is"
  }

  /** `LengthValidators[key]`: None for a key that names no validator. */
  function FromKey(key: string): (r: Option<LengthValidator>)
    ensures r.Some? ==> Key(r.value) == key
  {
    if key == "min" then Some(Min)
    else if key == "max" then Some(Max)
    else if key == "is" then Some(Is)
    else None
  }

  /** Every validator is found under its own key, and only there. */
  lemma KeyRoundTrip(validator: LengthValidator, key: string)
    ensures FromKey(Key(validator)) == Some(validator)
    ensures FromKey(key) == Some(validator) <==> key == Key(validator)
  {
  }

  /** `is` holds exactly when both `min` and `max` hold with the same bound. */
  lemma IsIsMinAndMax(value: string, expected: int)
    ensures Check(Is, value, expected) <==> Check(Min, value, expected) && Check(Max, value, expected)
  {
  }
}
