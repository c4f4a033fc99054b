/** What each changeset operation computes, as functions of the changeset's
    state (baseline `data`, `schema`, `changes`, `errors`) and the call's
    arguments, with the lemmas that say what those results mean. The class in
    module Changesets runs these operations in place. */
module ChangesetSpec {
  import opened Wrappers
  import opened JsValues
  import opened Records
  import TypeMapper
  import NV = NumberValidators
  import LV = LengthValidators
  import opened Schemas

  /** One entry of the `errors` list. */
  datatype ChangesetError = ChangesetError(field: string, message: string)

  /** Why `cast` throws: the schema has no entry for a permitted key (reading
      `type[0]` of undefined), or `Buffer.from` rejected the raw value. */
  datatype CastError = UnknownField(field: string) | NotBufferSource(field: string)

  /** Why a persistence projection throws: a changed key has no schema entry
      (reading `.virtual` of undefined). */
  datatype ProjectionError = NoFieldOptions(field: string)

  /** `record[key]`, which is `undefined` for an absent key. */
  function Lookup(r: Record<Value>, key: string): (v: Value)
    ensures Find(r, key).Some? ==> v == Find(r, key).value
    ensures Find(r, key).None? ==> v == Undefined
  {
    Find(r, key).GetOr(Undefined)
  }

  /** `getField`: `getChange(field) ?? data[field]`, so a change that is null
      or undefined falls back to the baseline. */
  function EffectiveValue(data: Record<Value>, changes: Record<Value>, field: string): (v: Value)
    ensures v == Lookup(changes, field) || v == Lookup(data, field)
    ensures !IsNullish(Lookup(changes, field)) ==> v == Lookup(changes, field)
    ensures IsNullish(v) <==> IsNullish(Lookup(changes, field)) && IsNullish(Lookup(data, field))
  {
    var change := Lookup(changes, field);
    if IsNullish(change) then Lookup(data, field) else change
  }

  // ===========================================================================
  // cast

  /** The coerced value of one raw input for a schema field, trimmed when it is
      a string and `trimStrings` is set. */
  function CastValue(field: SchemaField, key: string, raw: Value, trimStrings: bool): (r: Result<Value, CastError>)
    ensures r.Failure? <==> TypeMapper.Coerce(field.tag, raw).None?
    ensures r.Failure? ==> r.error == NotBufferSource(key)
    ensures r.Success? ==> var c := TypeMapper.Coerce(field.tag, raw).value;
      && (r.value.Str? <==> c.Str?)
      && (trimStrings && c.Str? ==> r.value.s == Trim(c.s) && (r.value.s == [] || (!IsWhite(r.value.s[0]) && !IsWhite(r.value.s[|r.value.s| - 1]))))
      && (!trimStrings || !c.Str? ==> r.value == c)
  {
    match TypeMapper.Coerce(field.tag, raw)
    case None => Failure(NotBufferSource(key))
    case Some(c) => Success(if trimStrings && c.Str? then Str(Trim(c.s)) else c)
  }

  /** What one `[key, value]` entry of the params contributes to the changes:
      None when the key is not permitted or the cast value is `===` to the
      baseline, otherwise the cast value with every falsy value stored as null. */
  function CastEntry(data: Record<Value>, schema: Schema, permitted: seq<string>, trimStrings: bool,
                     key: string, raw: Value): (r: Result<Option<Value>, CastError>)
    ensures key !in permitted ==> r == Success(None)
    ensures r.Failure? ==> key in permitted && r.error.field == key
    ensures (r.Failure? && r.error.UnknownField?) <==> key in permitted && Find(schema, key).None?
    ensures r.Success? && r.value.Some? ==> Find(schema, key).Some? && (Falsy(r.value.value) ==> r.value.value == Null)
  {
    if key !in permitted then Success(None)
    else match Find(schema, key)
      case None => Failure(UnknownField(key))
      case Some(f) =>
        match CastValue(f, key, raw, trimStrings)
        case Failure(e) => Failure(e)
        case Success(v) =>
          if StrictEq(v, Lookup(data, key)) then Success(None) else Success(Some(OrNull(v)))
  }

  /** The `reduce` over `Object.entries(params)` that builds the new changes,
      starting from `acc`; it throws at the first entry whose cast throws. */
  function CastChanges(data: Record<Value>, schema: Schema, params: Record<Value>, permitted: seq<string>,
                       trimStrings: bool, acc: Record<Value>): (r: Result<Record<Value>, CastError>)
    ensures r.Success? ==> Keys(acc) <= Keys(r.value)
    ensures r.Success? ==> forall k | k in Keys(r.value) :: k in Keys(acc) || (k in Keys(params) && k in permitted)
    ensures r.Failure? ==> r.error.field in Keys(params) && r.error.field in permitted
    decreases |params|
  {
    if params == [] then Success(acc)
    else
      KeysCons(params);
      match CastEntry(data, schema, permitted, trimStrings, params[0].0, params[0].1)
      case Failure(e) => Failure(e)
      case Success(None) => CastChanges(data, schema, params[1..], permitted, trimStrings, acc)
      case Success(Some(v)) => CastChanges(data, schema, params[1..], permitted, trimStrings, Put(acc, params[0].0, v))
  }

  /** Reference definition: the change a cast records for `key`, if any. */
  function CastOf(data: Record<Value>, schema: Schema, params: Record<Value>, permitted: seq<string>,
                  trimStrings: bool, key: string): Option<Value>
  {
    match Find(params, key)
    case None => None
    case Some(raw) =>
      match CastEntry(data, schema, permitted, trimStrings, key, raw)
      case Success(Some(v)) => Some(v)
      case _ => None
  }

  /** A cast records nothing for a key that is not permitted, nothing when the
      cast value is `===` to the baseline, and never a falsy value other than null. */
  lemma CastEntryMeaning(data: Record<Value>, schema: Schema, permitted: seq<string>, trimStrings: bool,
                         key: string, raw: Value)
    ensures key !in permitted ==> CastEntry(data, schema, permitted, trimStrings, key, raw) == Success(None)
    ensures key in permitted && Find(schema, key).None? ==>
      CastEntry(data, schema, permitted, trimStrings, key, raw) == Failure(UnknownField(key))
    ensures key in permitted && Find(schema, key).Some? &&
            CastValue(Find(schema, key).value, key, raw, trimStrings).Success? ==>
      var v := CastValue(Find(schema, key).value, key, raw, trimStrings).value;
      CastEntry(data, schema, permitted, trimStrings, key, raw) ==
        if StrictEq(v, Lookup(data, key)) then Success(None) else Success(Some(OrNull(v)))
    ensures var r := CastEntry(data, schema, permitted, trimStrings, key, raw);
      r.Success? && r.value.Some? ==> r.value.value.Null? || !Falsy(r.value.value)
  {
  }

  /** With `trimStrings`, a string recorded for a String or Decimal field is
      non-empty and has no whitespace at either end. */
  lemma {:induction false} CastEntryTrims(data: Record<Value>, schema: Schema, permitted: seq<string>,
                                          key: string, raw: Value)
    requires Find(schema, key).Some?
    requires Find(schema, key).value.tag == TypeMapper.String || Find(schema, key).value.tag == TypeMapper.Decimal
    requires var r := CastEntry(data, schema, permitted, true, key, raw); r.Success? && r.value.Some? && r.value.value.Str?
    ensures var s := CastEntry(data, schema, permitted, true, key, raw).value.value.s;
      s != "" && Trim(s) == s
  {
    var c := TypeMapper.Coerce(Find(schema, key).value.tag, raw).value;
    TrimIdempotent(c.s);
  }

  /** A cast throws exactly when some permitted entry has no schema field or is
      rejected by its coercion; the error names such an entry. */
  lemma {:induction false} CastChangesSucceeds(data: Record<Value>, schema: Schema, params: Record<Value>,
                                               permitted: seq<string>, trimStrings: bool, acc: Record<Value>)
    ensures var r := CastChanges(data, schema, params, permitted, trimStrings, acc);
      r.Success? <==> forall i :: 0 <= i < |params| ==>
        CastEntry(data, schema, permitted, trimStrings, params[i].0, params[i].1).Success?
    ensures var r := CastChanges(data, schema, params, permitted, trimStrings, acc);
      r.Failure? ==> (exists i :: 0 <= i < |params| && params[i].0 in permitted &&
                                 CastEntry(data, schema, permitted, trimStrings, params[i].0, params[i].1) == Failure(r.error))
    decreases |params|
  {
    if params != [] {
      var e := CastEntry(data, schema, permitted, trimStrings, params[0].0, params[0].1);
      if e.Success? {
        var acc' := if e.value.Some? then Put(acc, params[0].0, e.value.value) else acc;
        CastChangesSucceeds(data, schema, params[1..], permitted, trimStrings, acc');
        assert forall i :: 1 <= i < |params| ==> params[i] == params[1..][i - 1];
        var r := CastChanges(data, schema, params, permitted, trimStrings, acc);
        if r.Failure? {
          var i :| 0 <= i < |params[1..]| && params[1..][i].0 in permitted &&
            CastEntry(data, schema, permitted, trimStrings, params[1..][i].0, params[1..][i].1) == Failure(r.error);
          assert params[i + 1] == params[1..][i];
        }
      }
    }
  }

  /** The changes a cast builds keep distinct keys. */
  lemma {:induction false} CastChangesDistinct(data: Record<Value>, schema: Schema, params: Record<Value>,
                                               permitted: seq<string>, trimStrings: bool, acc: Record<Value>)
    requires DistinctKeys(acc)
    requires CastChanges(data, schema, params, permitted, trimStrings, acc).Success?
    ensures DistinctKeys(CastChanges(data, schema, params, permitted, trimStrings, acc).value)
    decreases |params|
  {
    if params != [] {
      var e := CastEntry(data, schema, permitted, trimStrings, params[0].0, params[0].1);
      if e.value.Some? {
        PutDistinct(acc, params[0].0, e.value.value);
        CastChangesDistinct(data, schema, params[1..], permitted, trimStrings, Put(acc, params[0].0, e.value.value));
      } else {
        CastChangesDistinct(data, schema, params[1..], permitted, trimStrings, acc);
      }
    }
  }

  /** The reduce records for each key exactly what the reference definition says,
      and keeps every other key of its starting accumulator. */
  lemma {:induction false} CastChangesFind(data: Record<Value>, schema: Schema, params: Record<Value>,
                                           permitted: seq<string>, trimStrings: bool, acc: Record<Value>, key: string)
    requires DistinctKeys(params)
    requires CastChanges(data, schema, params, permitted, trimStrings, acc).Success?
    ensures var c := CastOf(data, schema, params, permitted, trimStrings, key);
      Find(CastChanges(data, schema, params, permitted, trimStrings, acc).value, key) ==
        if c.Some? then c else Find(acc, key)
    decreases |params|
  {
    if params != [] {
      FindTail(params, key);
      var e := CastEntry(data, schema, permitted, trimStrings, params[0].0, params[0].1);
      var acc' := if e.value.Some? then Put(acc, params[0].0, e.value.value) else acc;
      CastChangesFind(data, schema, params[1..], permitted, trimStrings, acc', key);
      if e.value.Some? {
        FindPut(acc, params[0].0, e.value.value, key);
      }
    }
  }

  /** After `cast`, `changes` is the old changes spread with the new ones: a key
      the cast records takes its new value, and every other key keeps its old
      value or stays absent. So a key absent from params or not permitted is
      never added, and a re-cast key is overwritten. */
  lemma {:induction false} CastUpdate(data: Record<Value>, schema: Schema, params: Record<Value>, permitted: seq<string>,
                                      trimStrings: bool, changes: Record<Value>, key: string)
    requires DistinctKeys(params)
    requires CastChanges(data, schema, params, permitted, trimStrings, []).Success?
    ensures var c := CastOf(data, schema, params, permitted, trimStrings, key);
      Find(PutAll(changes, CastChanges(data, schema, params, permitted, trimStrings, []).value), key) ==
        if c.Some? then c else Find(changes, key)
    ensures key !in permitted || Find(params, key).None? ==>
      Find(PutAll(changes, CastChanges(data, schema, params, permitted, trimStrings, []).value), key) == Find(changes, key)
  {
    var delta := CastChanges(data, schema, params, permitted, trimStrings, []).value;
    CastChangesDistinct(data, schema, params, permitted, trimStrings, []);
    CastChangesFind(data, schema, params, permitted, trimStrings, [], key);
    FindPutAll(changes, delta, key);
    FindLastDistinct(delta, key);
  }

  // ===========================================================================
  // validators

  /** `["", null, undefined].includes(value)` */
  predicate IsBlank(v: Value) {
    v == Str("") || v == Null || v == Undefined
  }

  const BlankMessage: string := "can't be blank"

  /** The errors `validateRequired(fields)` appends, in list order. */
  function RequiredErrors(data: Record<Value>, changes: Record<Value>, fields: seq<string>): (errs: seq<ChangesetError>)
    ensures |errs| <= |fields|
    ensures forall e | e in errs :: e.field in fields && e.message == BlankMessage
  {
    if fields == [] then []
    else
      var field := fields[|fields| - 1];
      RequiredErrors(data, changes, fields[..|fields| - 1]) +
        if IsBlank(EffectiveValue(data, changes, field)) then [ChangesetError(field, BlankMessage)] else []
  }

  /** `validateRequired` flags exactly the listed fields whose effective value
      is `""`, null or undefined, each with "can't be blank". */
  lemma {:induction false} RequiredErrorsMeaning(data: Record<Value>, changes: Record<Value>, fields: seq<string>,
                                                 e: ChangesetError)
    ensures e in RequiredErrors(data, changes, fields) <==>
      e.field in fields && e.message == BlankMessage && IsBlank(EffectiveValue(data, changes, e.field))
  {
    if fields != [] {
      var init := fields[..|fields| - 1];
      RequiredErrorsMeaning(data, changes, init, e);
      assert fields == init + [fields[|fields| - 1]];
    }
  }

  /** So a field whose effective value is 0 or false is never flagged. */
  lemma RequiredNeverFlagsZeroOrFalse(data: Record<Value>, changes: Record<Value>, fields: seq<string>, field: string)
    requires EffectiveValue(data, changes, field) in {Num(0), Bool(false)}
    ensures forall e | e in RequiredErrors(data, changes, fields) :: e.field != field
  {
    forall e | e in RequiredErrors(data, changes, fields) ensures e.field != field {
      RequiredErrorsMeaning(data, changes, fields, e);
    }
  }

  // The number and length validators share one shape: each option
  // `[key, expected]` yields its own errors, and the validator appends them in
  // option order.

  /** The errors a validator appends for `opts`, where `check` gives the errors
      of a single option. */
  function OptionErrors(check: ((string, int)) -> seq<ChangesetError>, opts: seq<(string, int)>): seq<ChangesetError> {
    if opts == [] then [] else OptionErrors(check, opts[..|opts| - 1]) + check(opts[|opts| - 1])
  }

  /** An error is appended exactly when some option yields it. */
  lemma {:induction false} OptionErrorsMeaning(check: ((string, int)) -> seq<ChangesetError>, opts: seq<(string, int)>,
                                               e: ChangesetError)
    ensures e in OptionErrors(check, opts) <==> exists i :: 0 <= i < |opts| && e in check(opts[i])
  {
    if opts != [] {
      var init := opts[..|opts| - 1];
      OptionErrorsMeaning(check, init, e);
      if e in OptionErrors(check, init) {
        var i :| 0 <= i < |init| && e in check(init[i]);
        assert init[i] == opts[i];
      }
      if exists i :: 0 <= i < |opts| && e in check(opts[i]) {
        var i :| 0 <= i < |opts| && e in check(opts[i]);
        if i < |init| {
          assert init[i] == opts[i];
        }
      }
    }
  }

  /** Taking one more option appends that option's errors. */
  lemma OptionErrorsSnoc(check: ((string, int)) -> seq<ChangesetError>, opts: seq<(string, int)>, i: nat)
    requires i < |opts|
    ensures OptionErrors(check, opts[..i + 1]) == OptionErrors(check, opts[..i]) + check(opts[i])
  {
    assert opts[..i + 1][..i] == opts[..i];
  }

  /** When each option yields at most one error, and only errors on `field`,
      the validator appends at most one error per option, all on `field`. */
  lemma {:induction false} OptionErrorsBounds(check: ((string, int)) -> seq<ChangesetError>, opts: seq<(string, int)>,
                                              field: string)
    requires forall option :: |check(option)| <= 1
    requires forall option, e :: e in check(option) ==> e.field == field
    ensures |OptionErrors(check, opts)| <= |opts|
    ensures forall e | e in OptionErrors(check, opts) :: e.field == field
  {
    if opts != [] {
      OptionErrorsBounds(check, opts[..|opts| - 1], field);
    }
  }

  /** `must be <words> <expected>` */
  function NumberMessage(validator: NV.NumberValidator, expected: int): string {
    "must be " + NV.Words(validator) + " " + IntToString(expected)
  }

  /** Whether option `[key, expected]` of `validateNumber` fails on `value`:
      its key names a validator and that validator rejects the value. */
  predicate NumberOptionFails(value: Value, option: (string, int))
    requires IsNumber(value)
  {
    NV.FromKey(option.0).Some? && !NV.Accepts(NV.FromKey(option.0).value, value, option.1)
  }

  /** The error a failing option `[key, expected]` of `validateNumber` appends. */
  function NumberOptionError(field: string, option: (string, int)): ChangesetError
    requires NV.FromKey(option.0).Some?
  {
    ChangesetError(field, NumberMessage(NV.FromKey(option.0).value, option.1))
  }

  /** What one option of `validateNumber` appends for `value`. */
  function NumberOptionErrors(field: string, value: Value, option: (string, int)): seq<ChangesetError> {
    if IsNumber(value) && NumberOptionFails(value, option) then [NumberOptionError(field, option)] else []
  }

  function NumberCheck(field: string, value: Value): ((string, int)) -> seq<ChangesetError> {
    option => NumberOptionErrors(field, value, option)
  }

  /** The errors `validateNumber(field, opts)` appends for the effective value
      `value`: nothing unless it is a number, otherwise one error per failing
      option, in option order. */
  function NumberErrors(field: string, value: Value, opts: seq<(string, int)>): (errs: seq<ChangesetError>)
    ensures forall e | e in errs :: e.field == field
    ensures |errs| <= |opts|
  {
    OptionErrorsBounds(NumberCheck(field, value), opts, field);
    if IsNumber(value) then OptionErrors(NumberCheck(field, value), opts) else []
  }

  /** An error of `validateNumber` is exactly the error of a failing option. */
  lemma NumberErrorsMeaning(field: string, value: Value, opts: seq<(string, int)>, e: ChangesetError)
    ensures e in NumberErrors(field, value, opts) <==>
      IsNumber(value) && (exists i :: 0 <= i < |opts| && NumberOptionFails(value, opts[i]) &&
                                      e == NumberOptionError(field, opts[i]))
  {
    if IsNumber(value) {
      var check := NumberCheck(field, value);
      OptionErrorsMeaning(check, opts, e);
      forall i | 0 <= i < |opts|
        ensures e in check(opts[i]) <==> NumberOptionFails(value, opts[i]) && e == NumberOptionError(field, opts[i])
      {
      }
    }
  }

  /** One more option of `validateNumber` appends that option's error when
      it fails, and nothing otherwise. */
  lemma NumberErrorsStep(field: string, value: Value, opts: seq<(string, int)>, i: nat)
    requires IsNumber(value) && i < |opts|
    ensures NumberErrors(field, value, opts[..i + 1]) == NumberErrors(field, value, opts[..i]) +
      if NV.FromKey(opts[i].0).Some? && !NV.Accepts(NV.FromKey(opts[i].0).value, value, opts[i].1)
      then [ChangesetError(field, NumberMessage(NV.FromKey(opts[i].0).value, opts[i].1))] else []
  {
    OptionErrorsSnoc(NumberCheck(field, value), opts, i);
  }

  /** The number of option keys that name a number validator. */
  function KnownNumberKeys(opts: seq<(string, int)>): nat {
    if opts == [] then 0
    else KnownNumberKeys(opts[..|opts| - 1]) + if NV.FromKey(opts[|opts| - 1].0).Some? then 1 else 0
  }

  /** NaN is a number that every validator rejects: one error per known key. */
  lemma {:induction false} NaNFailsEveryOption(field: string, opts: seq<(string, int)>)
    ensures |NumberErrors(field, NaN, opts)| == KnownNumberKeys(opts)
  {
    if opts != [] {
      var init, last := opts[..|opts| - 1], opts[|opts| - 1];
      NaNFailsEveryOption(field, init);
      if NV.FromKey(last.0).Some? {
        NV.NaNFailsAll(NV.FromKey(last.0).value, last.1);
      }
      assert |NumberCheck(field, NaN)(last)| == if NV.FromKey(last.0).Some? then 1 else 0;
    }
  }

  /** `length is invalid, expected: <key>: <expected>` */
  function LengthMessage(key: string, expected: int): string {
    "length is invalid, expected: " + key + ": " + IntToString(expected)
  }

  /** Whether option `[key, expected]` of `validateLength` fails on `value`:
      its key names a validator and that validator rejects the value. */
  predicate LengthOptionFails(value: string, option: (string, int)) {
    LV.FromKey(option.0).Some? && !LV.Check(LV.FromKey(option.0).value, value, option.1)
  }

  /** The error a failing option `[key, expected]` of `validateLength` appends. */
  function LengthOptionError(field: string, option: (string, int)): ChangesetError {
    ChangesetError(field, LengthMessage(option.0, option.1))
  }

  /** What one option of `validateLength` appends for the string `value`. */
  function LengthOptionErrors(field: string, value: string, option: (string, int)): seq<ChangesetError> {
    if LengthOptionFails(value, option) then [LengthOptionError(field, option)] else []
  }

  function LengthCheck(field: string, value: string): ((string, int)) -> seq<ChangesetError> {
    option => LengthOptionErrors(field, value, option)
  }

  /** The errors `validateLength(field, opts)` appends for the effective value
      `value`: nothing unless it is a string, otherwise one error per failing
      option, in option order. */
  function LengthErrors(field: string, value: Value, opts: seq<(string, int)>): (errs: seq<ChangesetError>)
    ensures forall e | e in errs :: e.field == field
    ensures |errs| <= |opts|
  {
    if value.Str? then
      OptionErrorsBounds(LengthCheck(field, value.s), opts, field);
      OptionErrors(LengthCheck(field, value.s), opts)
    else []
  }

  /** An error of `validateLength` is exactly the error of a failing option. */
  lemma LengthErrorsMeaning(field: string, value: Value, opts: seq<(string, int)>, e: ChangesetError)
    ensures e in LengthErrors(field, value, opts) <==>
      value.Str? && (exists i :: 0 <= i < |opts| && LengthOptionFails(value.s, opts[i]) &&
                                 e == LengthOptionError(field, opts[i]))
  {
    if value.Str? {
      var check := LengthCheck(field, value.s);
      OptionErrorsMeaning(check, opts, e);
      forall i | 0 <= i < |opts|
        ensures e in check(opts[i]) <==> LengthOptionFails(value.s, opts[i]) && e == LengthOptionError(field, opts[i])
      {
      }
    }
  }

  /** One more option of `validateLength` appends that option's error when
      it fails, and nothing otherwise. */
  lemma LengthErrorsStep(field: string, value: Value, opts: seq<(string, int)>, i: nat)
    requires value.Str? && i < |opts|
    ensures LengthErrors(field, value, opts[..i + 1]) == LengthErrors(field, value, opts[..i]) +
      if LV.FromKey(opts[i].0).Some? && !LV.Check(LV.FromKey(opts[i].0).value, value.s, opts[i].1)
      then [ChangesetError(field, LengthMessage(opts[i].0, opts[i].1))] else []
  {
    OptionErrorsSnoc(LengthCheck(field, value.s), opts, i);
  }

  const FormatMessage: string := "has invalid format"

  /** The errors `validateFormat(field, format, message)` appends for the
      effective value `value`; `matches` stands for `value.match(format) != null`. */
  function FormatErrors(field: string, value: Value, matches: string -> bool, message: Option<string>): (errs: seq<ChangesetError>)
    ensures |errs| <= 1
    ensures errs != [] <==> value.Str? && !matches(value.s)
    ensures errs != [] ==> errs[0] == ChangesetError(field, message.GetOr(FormatMessage))
  {
    if value.Str? && !matches(value.s) then [ChangesetError(field, message.GetOr(FormatMessage))] else []
  }

  // ===========================================================================
  // transformErrors

  /** The fields that have at least one error. */
  function ErrorFields(errors: seq<ChangesetError>): set<string> {
    set e | e in errors :: e.field
  }

  /** The messages of `field`'s errors, in the order they were appended. */
  function MessagesFor(errors: seq<ChangesetError>, field: string): seq<string> {
    if errors == [] then []
    else
      var e := errors[|errors| - 1];
      MessagesFor(errors[..|errors| - 1], field) + if e.field == field then [e.message] else []
  }

  /** `transformErrors`: the reduce that pushes each message onto its field's list. */
  function GroupMessages(errors: seq<ChangesetError>): (r: Record<seq<string>>)
    ensures DistinctKeys(r)
    ensures |r| <= |errors|
  {
    if errors == [] then []
    else
      var acc := GroupMessages(errors[..|errors| - 1]);
      var e := errors[|errors| - 1];
      PutDistinct(acc, e.field, Find(acc, e.field).GetOr([]) + [e.message]);
      Put(acc, e.field, Find(acc, e.field).GetOr([]) + [e.message])
  }

  lemma ErrorFieldsSnoc(errors: seq<ChangesetError>)
    requires errors != []
    ensures ErrorFields(errors) == ErrorFields(errors[..|errors| - 1]) + {errors[|errors| - 1].field}
  {
    var init := errors[..|errors| - 1];
    assert errors == init + [errors[|errors| - 1]];
  }

  /** Each field with errors gets the list of its messages in append order;
      no other key appears. */
  lemma {:induction false} GroupMessagesFind(errors: seq<ChangesetError>, field: string)
    ensures Find(GroupMessages(errors), field) ==
      if field in ErrorFields(errors) then Some(MessagesFor(errors, field)) else None
  {
    if errors != [] {
      var init, e := errors[..|errors| - 1], errors[|errors| - 1];
      var acc := GroupMessages(init);
      var v := Find(acc, e.field).GetOr([]) + [e.message];
      assert GroupMessages(errors) == Put(acc, e.field, v);
      FindPut(acc, e.field, v, field);
      GroupMessagesFind(init, field);
      ErrorFieldsSnoc(errors);
      var tail := if e.field == field then [e.message] else [];
      assert MessagesFor(errors, field) == MessagesFor(init, field) + tail;
      if field == e.field {
        if field !in ErrorFields(init) {
          MessagesForAbsent(init, field);
          assert Find(acc, field) == None;
        } else {
          assert Find(acc, field) == Some(MessagesFor(init, field));
        }
        assert Find(GroupMessages(errors), field) == Some(v);
      } else {
        assert Find(GroupMessages(errors), field) == Find(acc, field);
        assert MessagesFor(errors, field) == MessagesFor(init, field);
        assert field in ErrorFields(errors) <==> field in ErrorFields(init);
      }
    }
  }

  lemma {:induction false} MessagesForAbsent(errors: seq<ChangesetError>, field: string)
    requires field !in ErrorFields(errors)
    ensures MessagesFor(errors, field) == []
  {
    if errors != [] {
      var init := errors[..|errors| - 1];
      assert ErrorFields(init) <= ErrorFields(errors);
      MessagesForAbsent(init, field);
    }
  }

  /** The number of messages in a grouping. */
  function TotalMessages(r: Record<seq<string>>): nat {
    if r == [] then 0 else |r[0].1| + TotalMessages(r[1..])
  }

  lemma {:induction false} TotalMessagesPut(r: Record<seq<string>>, key: string, v: seq<string>)
    ensures TotalMessages(Put(r, key, v)) + |Find(r, key).GetOr([])| == TotalMessages(r) + |v|
  {
    if r != [] {
      if r[0].0 == key {
        assert Put(r, key, v)[1..] == r[1..];
      } else {
        TotalMessagesPut(r[1..], key, v);
        assert Put(r, key, v)[1..] == Put(r[1..], key, v);
      }
    }
  }

  /** The groups' sizes add up to the number of errors. */
  lemma {:induction false} GroupMessagesTotal(errors: seq<ChangesetError>)
    ensures TotalMessages(GroupMessages(errors)) == |errors|
  {
    if errors != [] {
      var init := errors[..|errors| - 1];
      var e := errors[|errors| - 1];
      GroupMessagesTotal(init);
      TotalMessagesPut(GroupMessages(init), e.field, Find(GroupMessages(init), e.field).GetOr([]) + [e.message]);
    }
  }

  // ===========================================================================
  // applyChanges

  /** `{...data, ...changes}`: each changed key takes its change, null and
      undefined included; every other key keeps its baseline value. */
  lemma {:induction false} AppliedFind(data: Record<Value>, changes: Record<Value>, key: string)
    requires DistinctKeys(changes)
    ensures Find(PutAll(data, changes), key) ==
      if key in Keys(changes) then Find(changes, key) else Find(data, key)
  {
    FindPutAll(data, changes, key);
    FindLastDistinct(changes, key);
  }

  /** `getField` agrees with `applyChanges()` except on a change that is null
      or undefined, where `getField` reads the baseline instead. */
  lemma {:induction false} EffectiveVsApplied(data: Record<Value>, changes: Record<Value>, key: string)
    requires DistinctKeys(changes)
    ensures !IsNullish(Lookup(changes, key)) ==>
      EffectiveValue(data, changes, key) == Lookup(PutAll(data, changes), key)
    ensures key in Keys(changes) && IsNullish(Lookup(changes, key)) ==>
      Lookup(PutAll(data, changes), key) == Lookup(changes, key) &&
      EffectiveValue(data, changes, key) == Lookup(data, key)
  {
    AppliedFind(data, changes, key);
  }

  // ===========================================================================
  // persistence projections

  /** A projected value: a plain column value, or `{ connect: { id } }`. */
  datatype Param = Plain(value: Value) | Connect(id: Value)

  /** How changed keys become output keys: `toPrismaParams` turns `<name>Id`
      into a relation `<name>`, `toSnakeCaseParams` renames every key with the
      given snake-casing function. */
  datatype Naming = Prisma | SnakeCase(snakeCase: string -> string)

  /** `key.match(/Id$/)` */
  predicate EndsWithId(key: string) {
    |key| >= 2 && key[|key| - 2..] == "Id"
  }

  /** What one change `[key, value]` with field options `opts` contributes to
      a projection: None when the field is virtual, or when it is a relation
      key whose value is null or undefined. */
  function ProjectEntry(naming: Naming, opts: FieldOptions, key: string, value: Value): (r: Option<(string, Param)>)
    ensures r.None? <==> IsVirtual(opts) || (naming.Prisma? && EndsWithId(key) && IsNullish(value))
    ensures r.Some? && naming.Prisma? ==> r.value.0 == key || (EndsWithId(key) && r.value.0 + "Id" == key)
    ensures r.Some? && naming.SnakeCase? ==> r.value.0 == naming.snakeCase(key)
    ensures r.Some? && r.value.1.Connect? ==> naming.Prisma? && !IsNullish(value) && r.value.1.id == value
    ensures r.Some? && r.value.1.Plain? ==> r.value.1.value == if IsNullish(value) then opts.default else value
  {
    assert EndsWithId(key) ==> key[..|key| - 2] + "Id" == key;
    var plain := Plain(if IsNullish(value) then opts.default else value);
    if IsVirtual(opts) then None
    else match naming
      case Prisma =>
        if !EndsWithId(key) then Some((key, plain))
        else if IsNullish(value) then None
        else Some((key[..|key| - 2], Connect(value)))
      case SnakeCase(snakeCase) => Some((snakeCase(key), plain))
  }

  /** The projection of one change under `schema` (None also when `schema` has
      no entry for the key, where the projection throws). */
  function Projected(naming: Naming, schema: Schema, entry: (string, Value)): Option<(string, Param)> {
    match Find(schema, entry.0)
    case None => None
    case Some(f) => ProjectEntry(naming, f.opts, entry.0, entry.1)
  }

  /** The `reduce` over `Object.entries(changes)` of a projection, from `acc`. */
  function Project(naming: Naming, schema: Schema, entries: Record<Value>, acc: Record<Param>): (r: Result<Record<Param>, ProjectionError>)
    ensures r.Success? ==> Keys(acc) <= Keys(r.value)
    ensures r.Failure? ==> r.error.field in Keys(entries) && Find(schema, r.error.field).None?
    decreases |entries|
  {
    if entries == [] then Success(acc)
    else
      KeysCons(entries);
      if Find(schema, entries[0].0).None? then Failure(NoFieldOptions(entries[0].0))
      else
        match Projected(naming, schema, entries[0])
        case None => Project(naming, schema, entries[1..], acc)
        case Some(p) => Project(naming, schema, entries[1..], Put(acc, p.0, p.1))
  }

  /** Reference definition: the value an output key ends up with is the one
      projected by the last change that projects onto it. */
  function LastProjected(naming: Naming, schema: Schema, entries: Record<Value>, out: string): Option<Param> {
    if entries == [] then None
    else
      var p := Projected(naming, schema, entries[|entries| - 1]);
      if p.Some? && p.value.0 == out then Some(p.value.1)
      else LastProjected(naming, schema, entries[..|entries| - 1], out)
  }

  lemma {:induction false} LastProjectedCons(naming: Naming, schema: Schema, entries: Record<Value>, out: string)
    requires entries != []
    ensures var p := Projected(naming, schema, entries[0]);
      LastProjected(naming, schema, entries, out) ==
        if LastProjected(naming, schema, entries[1..], out).Some? then LastProjected(naming, schema, entries[1..], out)
        else if p.Some? && p.value.0 == out then Some(p.value.1) else None
  {
    if |entries| > 1 {
      assert entries[..|entries| - 1][1..] == entries[1..][..|entries[1..]| - 1];
      LastProjectedCons(naming, schema, entries[..|entries| - 1], out);
    }
  }

  /** A projection throws exactly when some changed key has no schema entry. */
  lemma {:induction false} ProjectSucceeds(naming: Naming, schema: Schema, entries: Record<Value>, acc: Record<Param>)
    ensures Project(naming, schema, entries, acc).Success? <==> Keys(entries) <= Keys(schema)
    decreases |entries|
  {
    if entries != [] {
      KeysCons(entries);
      var acc' := match Projected(naming, schema, entries[0]) case None => acc case Some(p) => Put(acc, p.0, p.1);
      ProjectSucceeds(naming, schema, entries[1..], acc');
    }
  }

  /** The reduce gives each output key the value of the last change that
      projects onto it, and keeps the rest of its starting accumulator. */
  lemma {:induction false} ProjectFind(naming: Naming, schema: Schema, entries: Record<Value>, acc: Record<Param>, out: string)
    requires Project(naming, schema, entries, acc).Success?
    ensures var last := LastProjected(naming, schema, entries, out);
      Find(Project(naming, schema, entries, acc).value, out) == if last.Some? then last else Find(acc, out)
    decreases |entries|
  {
    if entries != [] {
      var p := Projected(naming, schema, entries[0]);
      var acc' := if p.Some? then Put(acc, p.value.0, p.value.1) else acc;
      ProjectFind(naming, schema, entries[1..], acc', out);
      LastProjectedCons(naming, schema, entries, out);
      if p.Some? {
        FindPut(acc, p.value.0, p.value.1, out);
      }
    }
  }

  /** An output key is absent exactly when no change projects onto it. */
  lemma {:induction false} LastProjectedNone(naming: Naming, schema: Schema, entries: Record<Value>, out: string)
    ensures LastProjected(naming, schema, entries, out).None? <==>
      forall i :: 0 <= i < |entries| ==>
        Projected(naming, schema, entries[i]).None? || Projected(naming, schema, entries[i]).value.0 != out
  {
    if entries != [] {
      var init := entries[..|entries| - 1];
      LastProjectedNone(naming, schema, init, out);
      assert forall i :: 0 <= i < |init| ==> init[i] == entries[i];
    }
  }

  /** When only one change projects onto an output key, that key holds its projection. */
  lemma {:induction false} LastProjectedUnique(naming: Naming, schema: Schema, entries: Record<Value>, i: nat, out: string, p: Param)
    requires i < |entries| && Projected(naming, schema, entries[i]) == Some((out, p))
    requires forall j :: 0 <= j < |entries| && j != i ==>
      Projected(naming, schema, entries[j]).None? || Projected(naming, schema, entries[j]).value.0 != out
    ensures LastProjected(naming, schema, entries, out) == Some(p)
  {
    if i < |entries| - 1 {
      var init := entries[..|entries| - 1];
      assert forall j :: 0 <= j < |init| ==> init[j] == entries[j];
      LastProjectedUnique(naming, schema, init, i, out, p);
    }
  }
}
