/** The changeset: a baseline record and a schema, the changes cast or put so
    far, and the errors appended so far. Methods change `changes` and `errors`
    in place; the readers compute from the current state. */
module Changesets {
  import opened Wrappers
  import opened JsValues
  import opened Records
  import opened Schemas
  import opened ChangesetSpec
  import NumberValidators
  import LengthValidators

  class Changeset {
    const data: Record<Value>
    const schema: Schema
    var changes: Record<Value>
    var errors: seq<ChangesetError>

    /** Both records are objects: no key occurs twice. */
    ghost predicate Valid()
      reads this`changes
    {
      DistinctKeys(data) && DistinctKeys(changes)
    }

    constructor (data: Record<Value>, schema: Schema)
      requires DistinctKeys(data)
      ensures Valid()
      ensures this.data == data && this.schema == schema
      ensures changes == [] && errors == []
    {
      this.data := data;
      this.schema := schema;
      changes := [];
      errors := [];
    }

    /** `cast(params, permitted, { trimStrings })`, where `trimStrings` is
        true unless the caller passes false. The new changes are built apart
        and spread over `changes` only at the end, so a cast that throws leaves
        `changes` as it was. */
    method Cast(params: Record<Value>, permitted: seq<string>, trimStrings: bool := true) returns (outcome: Outcome<CastError>)
      requires Valid()
      modifies this`changes
      ensures Valid()
      ensures match CastChanges(data, schema, params, permitted, trimStrings, [])
        case Failure(e) => outcome == Fail(e) && changes == old(changes)
        case Success(delta) => outcome == Pass && changes == PutAll(old(changes), delta)
    {
      var r := CastChanges(data, schema, params, permitted, trimStrings, []);
      match r
      case Failure(e) =>
        outcome := Fail(e);
      case Success(delta) =>
        PutAllDistinct(changes, delta);
        changes := PutAll(changes, delta);
        outcome := Pass;
    }

    /** `validateRequired(fields)` */
    method ValidateRequired(fields: seq<string>)
      modifies this`errors
      ensures errors == old(errors) + RequiredErrors(data, changes, fields)
    {
      for i := 0 to |fields|
        invariant errors == old(errors) + RequiredErrors(data, changes, fields[..i])
      {
        var field := fields[i];
        var value := GetField(field);
        if IsBlank(value) {
          errors := errors + [ChangesetError(field, BlankMessage)];
        }
        assert fields[..i + 1][..i] == fields[..i];
      }
      assert fields[..|fields|] == fields;
    }

    /** `validateNumber(field, opts)`; `opts` lists the option object's
        entries in order. */
    method ValidateNumber(field: string, opts: seq<(string, int)>)
      modifies this`errors
      ensures errors == old(errors) + NumberErrors(field, GetField(field), opts)
    {
      var value := GetField(field);
      if !IsNumber(value) {
        return;
      }
      var found := NumberOptionsErrors(field, value, opts);
      errors := errors + found;
    }

    /** `validateLength(field, opts)`; `opts` lists the option object's
        entries in order. */
    method ValidateLength(field: string, opts: seq<(string, int)>)
      modifies this`errors
      ensures errors == old(errors) + LengthErrors(field, GetField(field), opts)
    {
      var value := GetField(field);
      if !value.Str? {
        return;
      }
      var found := LengthOptionsErrors(field, value, opts);
      errors := errors + found;
    }

    /** `validateFormat(field, format, message)`; `matches(s)` stands for
        `s.match(format) != null`, and `message` is None when not given. */
    method ValidateFormat(field: string, matches: string -> bool, message: Option<string>)
      modifies this`errors
      ensures errors == old(errors) + FormatErrors(field, GetField(field), matches, message)
    {
      var value := GetField(field);
      if value.Str? && !matches(value.s) {
        errors := errors + [ChangesetError(field, message.GetOr(FormatMessage))];
      }
    }

    /** `addError(field, message)` */
    method AddError(field: string, message: string)
      modifies this`errors
      ensures errors == old(errors) + [ChangesetError(field, message)]
    {
      errors := errors + [ChangesetError(field, message)];
    }

    /** `putChange(field, value)`: records the value whatever the baseline holds. */
    method PutChange(field: string, value: Value)
      requires Valid()
      modifies this`changes
      ensures Valid()
      ensures changes == Put(old(changes), field, value)
      ensures IsChanged(field) && GetChange(field) == value
      ensures forall other :: other != field ==> Find(changes, other) == Find(old(changes), other)
    {
      PutDistinct(changes, field, value);
      forall other ensures Find(Put(changes, field, value), other) == if other == field then Some(value) else Find(changes, other) {
        FindPut(changes, field, value, other);
      }
      changes := Put(changes, field, value);
    }

    /** `isChanged(field)`: whether `changes` has the key, whatever its value. */
    predicate IsChanged(field: string)
      reads this`changes
      ensures IsChanged(field) <==> field in Keys(changes)
    {
      Find(changes, field).Some?
    }

    /** `getChange(field)`: the change, or undefined; never the baseline. */
    function GetChange(field: string): (v: Value)
      reads this`changes
      ensures IsChanged(field) ==> (field, v) in changes
      ensures !IsChanged(field) ==> v == Undefined
    {
      Lookup(changes, field)
    }

    /** `getField(field)`: the change when there is one that is neither null nor
        undefined, otherwise the baseline value (undefined when absent). */
    function GetField(field: string): (v: Value)
      reads this`changes
      ensures !IsNullish(GetChange(field)) ==> v == GetChange(field)
      ensures IsNullish(GetChange(field)) ==> v == Lookup(data, field)
    {
      EffectiveValue(data, changes, field)
    }

    /** `valid`: no error has been appended. */
    predicate IsValid()
      reads this`errors
      ensures IsValid() <==> |errors| == 0
    {
      errors == []
    }

    /** `applyChanges()`: the baseline spread with every change, null and
        undefined changes included. */
    function ApplyChanges(): (r: Record<Value>)
      requires Valid()
      reads this`changes
      ensures DistinctKeys(r)
      ensures Keys(r) == Keys(data) + Keys(changes)
      ensures forall key :: Find(r, key) == if IsChanged(key) then Find(changes, key) else Find(data, key)
    {
      PutAllDistinct(data, changes);
      forall key ensures Find(PutAll(data, changes), key) ==
        if key in Keys(changes) then Find(changes, key) else Find(data, key)
      {
        AppliedFind(data, changes, key);
      }
      PutAll(data, changes)
    }

    /** `transformErrors()`: each field's messages, in the order appended. */
    function TransformErrors(): (r: Record<seq<string>>)
      reads this`errors
      ensures Keys(r) == ErrorFields(errors)
      ensures forall field :: field in ErrorFields(errors) ==> Find(r, field) == Some(MessagesFor(errors, field))
      ensures TotalMessages(r) == |errors|
    {
      forall field ensures Find(GroupMessages(errors), field) ==
        if field in ErrorFields(errors) then Some(MessagesFor(errors, field)) else None
      {
        GroupMessagesFind(errors, field);
      }
      GroupMessagesTotal(errors);
      GroupMessages(errors)
    }

    /** `toPrismaParams()`: throws when a changed key has no schema entry;
        otherwise each output key holds the projection of the last change that
        projects onto it. */
    function ToPrismaParams(): (r: Result<Record<Param>, ProjectionError>)
      reads this`changes
      ensures r.Success? <==> Keys(changes) <= Keys(schema)
      ensures r.Success? ==> forall out :: Find(r.value, out) == LastProjected(Prisma, schema, changes, out)
    {
      ProjectSucceeds(Prisma, schema, changes, []);
      var r := Project(Prisma, schema, changes, []);
      if r.Success? then
        forall out ensures Find(r.value, out) == LastProjected(Prisma, schema, changes, out) {
          ProjectFind(Prisma, schema, changes, [], out);
        }
        r
      else r
    }

    /** `toSnakeCaseParams()`, with `snakeCase` the key renaming. */
    function ToSnakeCaseParams(snakeCase: string -> string): (r: Result<Record<Param>, ProjectionError>)
      reads this`changes
      ensures r.Success? <==> Keys(changes) <= Keys(schema)
      ensures r.Success? ==> forall out :: Find(r.value, out) == LastProjected(SnakeCase(snakeCase), schema, changes, out)
    {
      ProjectSucceeds(SnakeCase(snakeCase), schema, changes, []);
      var r := Project(SnakeCase(snakeCase), schema, changes, []);
      if r.Success? then
        forall out ensures Find(r.value, out) == LastProjected(SnakeCase(snakeCase), schema, changes, out) {
          ProjectFind(SnakeCase(snakeCase), schema, changes, [], out);
        }
        r
      else r
    }
  }
  /** The loop of `validateNumber` over the option entries, for a value that
      is a number: each entry whose key names a validator that rejects the
      value contributes its message. */
  method NumberOptionsErrors(field: string, value: Value, opts: seq<(string, int)>) returns (found: seq<ChangesetError>)
    requires IsNumber(value)
    ensures found == NumberErrors(field, value, opts)
  {
    found := [];
    for i := 0 to |opts|
      invariant found == NumberErrors(field, value, opts[..i])
    {
      var key, expected := opts[i].0, opts[i].1;
      var validator := NumberValidators.FromKey(key);
      NumberErrorsStep(field, value, opts, i);
      if validator.Some? && !NumberValidators.Accepts(validator.value, value, expected) {
        found := found + [ChangesetError(field, NumberMessage(validator.value, expected))];
      }
    }
    assert opts[..|opts|] == opts;
  }

  /** The loop of `validateLength` over the option entries, for a value that
      is a string. */
  method LengthOptionsErrors(field: string, value: Value, opts: seq<(string, int)>) returns (found: seq<ChangesetError>)
    requires value.Str?
    ensures found == LengthErrors(field, value, opts)
  {
    found := [];
    for i := 0 to |opts|
      invariant found == LengthErrors(field, value, opts[..i])
    {
      var key, expected := opts[i].0, opts[i].1;
      var validator := LengthValidators.FromKey(key);
      LengthErrorsStep(field, value, opts, i);
      if validator.Some? && !LengthValidators.Check(validator.value, value.s, expected) {
        found := found + [ChangesetError(field, LengthMessage(key, expected))];
      }
    }
    assert opts[..|opts|] == opts;
  }
}
