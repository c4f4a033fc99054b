# node-changesets in Dafny

A verified model of the core of `node-changesets`, a small TypeScript library
for casting and validating untrusted input before it is persisted:

- a `SchemaBuilder` that declares typed fields with options (`default`,
  `virtual`);
- the type mapper that coerces a raw value to a field's type (`Number`,
  `String`-or-null, `Boolean`, `Buffer.from`);
- the `Changeset` class, holding a baseline record (`data`), a schema, the
  changes cast or put so far and the validation errors appended so far, with
  its readers (`getField`, `applyChanges`, `transformErrors`, `valid`) and the
  two persistence projections (`toPrismaParams`, `toSnakeCaseParams`);
- the number and length validators.

Modules:

| file | module | what it holds |
|---|---|---|
| `wrappers.dfy` | `Wrappers` | `Option`, `Result`, `Outcome` |
| `records.dfy` | `Records` | JavaScript objects as ordered key/value sequences: lookup, assignment, spread |
| `js_values.dfy` | `JsValues` | the dynamic values the library handles; truthiness, `===`, `trim`, `String(n)` and `Number(s)` |
| `type_mapper.dfy` | `TypeMapper` | the coercion of each schema type |
| `number_validators.dfy` | `NumberValidators` | the four numeric comparisons, keyed by option name |
| `length_validators.dfy` | `LengthValidators` | the three length comparisons, keyed by option name |
| `schema.dfy` | `Schemas` | field options, the schema, and the `SchemaBuilder` class |
| `changeset_spec.dfy` | `ChangesetSpec` | functions that specify each changeset operation, with their lemmas |
| `changeset.dfy` | `Changesets` | the `Changeset` class; each method is proved against `ChangesetSpec` |
| `changeset_properties.dfy` | `ChangesetProperties` | consequences that span several operations |
| `scenarios.dfy` | `Scenarios` | worked examples of clients, each proved from the contracts |

Modelling choices:

- An object is a `seq<(string, V)>`. Assigning a key keeps its position when
  it exists and appends it otherwise; `{...a, ...b}` assigns `b`'s entries
  in order. So where two entries collide the last one wins, as in JavaScript.
- A `TypeError` the code would throw is a `Failure`, not a precondition.
  There are three such cases:
  - `cast` of a permitted key the schema does not declare;
  - `Buffer.from` of a value that is neither a string nor a buffer;
  - a projection over a change whose key the schema does not declare.
  Because `cast` builds its changes apart and spreads them at the end, a cast
  that throws leaves `changes` as it was.
- `validateNumber` and `validateLength` push one error per failing option
  inside their `forEach`. The model's loop collects those errors in a local
  sequence and appends them to `errors` once the loop ends. Nothing reads
  `errors` during the loop, so the final state is the same.
- `NaN` is a value of its own. It is a number, it is falsy, and it is never
  `===` anything. A buffer made by a cast is a fresh object, so it is never
  `===` the baseline.

Some behaviours of the code may surprise a reader. The model keeps each of
them as written:

- `getField` reads the baseline when the change is missing, and also when the
  change is `null` or `undefined`, since the code uses `??`.
  `ChangesetSpec.EffectiveVsApplied` and
  `ChangesetProperties.ClearedTextFieldReadsBaseline` state the consequence:
  a text field cleared by `cast` is stored as `null`, yet `getField` and
  `validateRequired` still see the old text.
- The "unknown field" guard in `getCastFunction` (`!type === undefined`) is
  always false. What signals an undeclared field is the `TypeError` thrown by
  `type[0]`, modelled as `UnknownField`.
- `lessThanOrEqualTo` compares with `>=`, exactly like `greaterThanOrEqualTo`.
  The model keeps that comparison. `NumberValidators.LessThanOrEqualToAsWritten`
  and `NumberValidators.LessThanOrEqualToDiffers` pin it down: the option
  disagrees with `<=` exactly when the value differs from the threshold.

## Model

| member | source | states |
|---|---|---|
| Records.Find | src/index.ts:199-203 | an object read is absent exactly when the key is not a key of the object, and otherwise returns a value stored under it |
| Records.Put | src/index.ts:257-260 | assignment adds the key to the key set; it keeps the length when the key exists and appends the entry when it is new |
| Records.FindPut | src/index.ts:257-260 | after `o[k] = v`, reading `k` gives `v` and every other key reads as before |
| Records.PutDistinct | src/index.ts:39 | assignment never duplicates a key |
| Records.PutAll | src/index.ts:217-222 | the keys of `{...r, ...es}` are the keys of `r` and of `es` |
| Records.FindLast | src/index.ts:118-121 | the last entry assigned to a key is absent exactly when the key is not assigned |
| Records.FindLastCons | src/index.ts:118-121 | the last assignment to a key is in the tail when the tail assigns it, else the head entry if it has that key |
| Records.FindPutAll | src/index.ts:123 | reading a key after a spread gives the last value the spread assigns to it, else the original value |
| Records.PutAllDistinct | src/index.ts:123 | a spread over an object with distinct keys keeps the keys distinct |
| Records.FindLastDistinct | src/index.ts:217-222 | in an object with distinct keys, the last assignment to a key is its only one |
| Records.FindTail | src/index.ts:199-203 | in an object with distinct keys, a read is answered by the first entry when it has the key and otherwise by the rest, which never holds the first key |
| JsValues.OrNull | src/index.ts:120 | `v \|\| null` is null for a falsy value and the value itself otherwise |
| JsValues.Falsy | src/index.ts:120 | the falsy values are exactly undefined, null, NaN, 0, `""` and false; a buffer is never falsy |
| JsValues.StrictEq | src/index.ts:116 | `===` implies equality of the values, and NaN and freshly built buffers are `===` to nothing |
| JsValues.StrictEqIsEquality | src/index.ts:116 | `===` holds exactly for equal values other than NaN and buffers |
| JsValues.IsWhite | src/index.ts:112-113 | the whitespace `trim()` and `Number()` strip: below U+0100 exactly tab, line feed, vertical tab, form feed, carriage return, space and no-break space; never a sign or a digit |
| JsValues.Trim | src/index.ts:112-113 | `trim()` never lengthens a string and leaves no whitespace at either end |
| JsValues.TrimStart | src/index.ts:112-113 | the result is a suffix of the input, everything cut off is whitespace, and it does not start with whitespace |
| JsValues.TrimEnd | src/index.ts:112-113 | the result is a prefix of the input, everything cut off is whitespace, and it does not end with whitespace |
| JsValues.LeadingWhite | src/index.ts:112-113 | counts the whitespace characters that open a string: all of them are whitespace and the next one, if any, is not |
| JsValues.TrailingWhite | src/index.ts:112-113 | counts the whitespace characters that close a string: all of them are whitespace and the one before, if any, is not |
| JsValues.TrimSpec | src/index.ts:112-113 | the trimmed string equals, character by character, the input from some offset on; only whitespace is removed, from both ends; no whitespace is left at either end |
| JsValues.TrimIdempotent | src/index.ts:112-113 | trimming a trimmed string changes nothing |
| JsValues.TrimAllWhite | src/index.ts:112-113 | a string of only whitespace trims to the empty string |
| JsValues.TrimUnchanged | src/index.ts:112-113 | a string without whitespace at its ends is its own trim |
| JsValues.NatToString | src/typeMapper.ts:8 | the decimal text of a natural is a non-empty run of digits without a leading zero |
| JsValues.IntToString | src/typeMapper.ts:8 | `String(n)` is non-empty, starts with `-` exactly when `n` is negative, and is otherwise made of digits |
| JsValues.ParseNumber | src/typeMapper.ts:6-7 | `Number(s)` on a string is always a number; blank text gives 0, and NaN only when the trimmed text holds a non-digit |
| JsValues.ToText | src/typeMapper.ts:8 | `String(v)` of a string or buffer is its text, and only the empty string or empty buffer gives the empty text |
| JsValues.NatToStringRoundTrip | src/typeMapper.ts:8 | reading back the decimal text of a natural gives the natural |
| JsValues.IntToStringRoundTrip | src/typeMapper.ts:6-8 | `Number(String(n))` is `n` for every integer `n`, negative ones included |
| JsValues.ToNumber | src/typeMapper.ts:6-7 | `Number(v)` always yields a number, possibly NaN |
| TypeMapper.Coerce | src/typeMapper.ts:5-12 | the coercion throws exactly for Binary on a value that is neither a string nor a buffer; Integer and Float yield numbers, String and Decimal yield null exactly for falsy input and text otherwise, Boolean yields truthiness, and Binary yields a buffer of the value's text |
| TypeMapper.ToNullableText | src/typeMapper.ts:8-9 | the text coercion is null exactly for a falsy value and is otherwise the value's text |
| TypeMapper.ToBuffer | src/typeMapper.ts:10 | `Buffer.from` succeeds exactly on strings and buffers and yields a buffer holding the same text |
| TypeMapper.CoerceTotal | src/typeMapper.ts:5-12 | only the Binary coercion can throw, and it throws exactly on a value that is neither a string nor a buffer |
| TypeMapper.SharedCoercions | src/typeMapper.ts:6-9 | Integer and Float coerce alike, with `Number`; Decimal coerces like String |
| TypeMapper.StringCoercion | src/typeMapper.ts:8 | the String coercion maps a falsy value to null and any other value to its text |
| TypeMapper.BooleanCoercion | src/typeMapper.ts:11 | the Boolean coercion is true exactly for a truthy value |
| TypeMapper.NumberCoercion | src/typeMapper.ts:6-7 | the Integer and Float coercions never throw and always yield a number |
| TypeMapper.TextThenNumber | src/typeMapper.ts:6-8 | a non-zero integer coerced to String and back to Integer is itself |
| NumberValidators.Check | src/numberValidators.ts:1-14 | below the threshold only lessThan accepts; at the threshold only greaterThanOrEqualTo and lessThanOrEqualTo accept; above it every comparison but lessThan accepts |
| NumberValidators.Accepts | src/index.ts:146-147 | a validator applied to a JavaScript number accepts only a non-NaN number, and then exactly when the comparison holds |
| NumberValidators.Words | src/index.ts:148 | the message words are the option key in snake case with `_` read as a space: they open with the key's first letter and, since each word break adds a space, are longer than the key |
| NumberValidators.WordsDistinct | src/index.ts:148 | two options give the same message words exactly when they are the same option |
| NumberValidators.FromKey | src/index.ts:145-147 | an option key resolves to a validator only when it is that validator's name |
| NumberValidators.KeyRoundTrip | src/index.ts:145-147 | every validator is found by its own name and by no other key |
| NumberValidators.ComparisonsMean | src/numberValidators.ts:2-10 | lessThan, greaterThan and greaterThanOrEqualTo accept exactly when `<`, `>` and `>=` hold |
| NumberValidators.ComparisonsRelate | src/numberValidators.ts:2-10 | lessThan accepts exactly when greaterThanOrEqualTo rejects; greaterThan is lessThan with the operands swapped |
| NumberValidators.LessThanOrEqualToAsWritten | src/numberValidators.ts:8-13 | lessThanOrEqualTo accepts exactly what greaterThanOrEqualTo accepts |
| NumberValidators.LessThanOrEqualToDiffers | src/numberValidators.ts:11-13 | lessThanOrEqualTo disagrees with `<=` exactly when value and threshold differ: it accepts 5 against 3 and rejects 3 against 5 |
| NumberValidators.NaNFailsAll | src/numberValidators.ts:1-14 | no numeric validator accepts NaN |
| LengthValidators.Check | src/index.ts:13-23 | a length below the bound passes only `max`, a length equal to it passes all three, and a length above it passes only `min` |
| LengthValidators.FromKey | src/index.ts:167-168 | a length option key resolves to a validator only when it is that validator's name |
| LengthValidators.KeyRoundTrip | src/index.ts:167-168 | every length validator is found by its own name and by no other key |
| LengthValidators.IsIsMinAndMax | src/index.ts:13-23 | `is` accepts exactly when both `min` and `max` accept with the same bound |
| Schemas.MergeOptions | src/index.ts:25-38 | merged options take the caller's default, else undefined, and are virtual only when the caller gave a truthy `virtual` |
| Schemas.SchemaBuilder.constructor | src/index.ts:31 | a new builder has no fields |
| Schemas.SchemaBuilder.Build | src/index.ts:33-35 | `build()` returns the fields declared so far |
| Schemas.SchemaBuilder.AddField | src/index.ts:37-40 | the field is set to its type and merged options; every other field is kept |
| Schemas.SchemaBuilder.Integer | src/index.ts:42-45 | declares an Integer field and returns the same builder |
| Schemas.SchemaBuilder.Float | src/index.ts:47-50 | declares a Float field and returns the same builder |
| Schemas.SchemaBuilder.String | src/index.ts:52-55 | declares a String field and returns the same builder |
| Schemas.SchemaBuilder.Boolean | src/index.ts:57-60 | declares a Boolean field and returns the same builder |
| Schemas.SchemaBuilder.Binary | src/index.ts:62-65 | declares a Binary field and returns the same builder |
| Schemas.SchemaBuilder.Decimal | src/index.ts:67-70 | declares a Decimal field and returns the same builder |
| Schemas.BuiltField | src/index.ts:37-40 | after a declaration the field has the given type, is virtual exactly when asked, has the given default or undefined, and no other field changes |
| ChangesetSpec.EffectiveValue | src/index.ts:205-207 | the effective value is the change or the baseline, the change whenever it is not null or undefined, and nullish only when both are |
| ChangesetSpec.Lookup | src/index.ts:199-203 | a read gives the stored value, or undefined when the key is absent |
| ChangesetSpec.CastValue | src/index.ts:110-113 | the cast throws exactly when the field's coercion throws, naming the key; a result is a string exactly when the coerced value is; with `trimStrings` a string is the coerced text trimmed at both ends (its content as in JsValues.TrimSpec), and otherwise the coerced value comes back unchanged |
| ChangesetSpec.CastEntry | src/index.ts:108-121 | a key that is not permitted contributes nothing; a throw names the entry's key, and it is an unknown-field error exactly when the permitted key is not declared; a recorded value belongs to a declared field and is null whenever it is falsy |
| ChangesetSpec.CastChanges | src/index.ts:108-122 | the reduce keeps the accumulator's keys and adds only permitted keys of the params; a throw names a permitted key of the params |
| ChangesetSpec.CastEntryMeaning | src/index.ts:108-121 | a non-permitted key is skipped; an undeclared permitted key throws; otherwise a value `===` the baseline is skipped and any other is recorded, with falsy values as null |
| ChangesetSpec.CastEntryTrims | src/index.ts:112-113 | with trimming on, a string recorded for a String or Decimal field is non-empty and has no whitespace at either end |
| ChangesetSpec.CastChangesSucceeds | src/index.ts:84-90 | a cast throws exactly when one of its entries throws, and its error is that of a permitted entry |
| ChangesetSpec.CastChangesDistinct | src/index.ts:118-121 | the changes a cast builds have distinct keys |
| ChangesetSpec.CastChangesFind | src/index.ts:108-122 | in the changes a cast builds, each key holds the value its entry casts to, or else what the accumulator held |
| ChangesetSpec.CastUpdate | src/index.ts:108-123 | after `cast`, a key the cast records takes its new value, a re-cast key is overwritten, and any other key, non-permitted or absent from params, keeps its old change or stays absent |
| ChangesetSpec.RequiredErrors | src/index.ts:127-135 | at most one error per listed field, each on a listed field with the message "can't be blank" |
| ChangesetSpec.RequiredErrorsMeaning | src/index.ts:127-135 | `validateRequired` adds an error for a field exactly when the field is listed and its effective value is `""`, null or undefined, with the message "can't be blank" |
| ChangesetSpec.RequiredNeverFlagsZeroOrFalse | src/index.ts:130 | a field whose effective value is 0 or false is never reported as blank |
| ChangesetSpec.OptionErrorsMeaning | src/index.ts:144-153 | an error is among those a `forEach` over the option entries appends exactly when some entry yields it |
| ChangesetSpec.OptionErrorsSnoc | src/index.ts:144-153 | taking one more option entry appends exactly that entry's errors after the earlier ones |
| ChangesetSpec.OptionErrorsBounds | src/index.ts:144-153 | when each entry yields at most one error on the field, the loop appends at most one error per entry, all on that field |
| ChangesetSpec.NumberErrorsStep | src/index.ts:144-153 | one more `validateNumber` option appends `must be <words> <expected>` when its key names a validator that rejects the value, and nothing otherwise |
| ChangesetSpec.NumberErrors | src/index.ts:144-153 | the number errors all name the validated field, and there are at most as many as options |
| ChangesetSpec.NumberErrorsMeaning | src/index.ts:137-155 | an error is added exactly when the value is a number and some known option rejects it, with the message `must be <words> <threshold>` |
| ChangesetSpec.NaNFailsEveryOption | src/index.ts:142-153 | NaN passes the number check and gets one error per known option key |
| ChangesetSpec.LengthErrorsStep | src/index.ts:166-176 | one more `validateLength` option appends `length is invalid, expected: <key>: <expected>` when its key names a validator that rejects the string, and nothing otherwise |
| ChangesetSpec.LengthErrors | src/index.ts:166-176 | the length errors all name the validated field, and there are at most as many as options |
| ChangesetSpec.LengthErrorsMeaning | src/index.ts:157-178 | an error is added exactly when the value is a string and some known option rejects its length, with the message naming the option and threshold |
| ChangesetSpec.FormatErrors | src/index.ts:180-193 | at most one error is added, exactly when the value is a string that does not match; its message is the caller's or "has invalid format" |
| ChangesetSpec.GroupMessages | src/index.ts:96-101 | the grouped errors form an object with distinct keys and no more entries than there are errors |
| ChangesetSpec.GroupMessagesFind | src/index.ts:96-101 | the grouped errors have an entry exactly for each field with an error, holding its messages in the order appended |
| ChangesetSpec.MessagesForAbsent | src/index.ts:96-101 | a field without errors has no messages |
| ChangesetSpec.TotalMessagesPut | src/index.ts:98 | replacing a field's message list changes the message total by the difference in length |
| ChangesetSpec.GroupMessagesTotal | src/index.ts:96-101 | grouping keeps every message: the total is the number of errors |
| ChangesetSpec.AppliedFind | src/index.ts:217-222 | the applied record holds each changed key's change, null and undefined included, and the baseline elsewhere |
| ChangesetSpec.EffectiveVsApplied | src/index.ts:205-207 | `getField` agrees with `applyChanges()` except on a null or undefined change, where it reads the baseline instead |
| ChangesetSpec.ProjectEntry | src/index.ts:228-240 | a change contributes nothing exactly when its field is virtual or it is a null or undefined `…Id` relation; the Prisma output key is the key or the key less its `Id`, the snake-case one is the renamed key; a `connect` carries the non-nullish value and a plain entry carries `value ?? default` |
| ChangesetSpec.Project | src/index.ts:228-250 | the reduce keeps the accumulator's keys, and a throw names a changed key the schema does not declare |
| ChangesetSpec.LastProjectedCons | src/index.ts:229-239 | an output key's projection is that of the last change projecting onto it |
| ChangesetSpec.ProjectSucceeds | src/index.ts:228-231 | a projection throws exactly when some changed key is not declared in the schema |
| ChangesetSpec.ProjectFind | src/index.ts:228-240 | each output key holds the projection of the last change that projects onto it |
| ChangesetSpec.LastProjectedNone | src/index.ts:242-250 | an output key is absent exactly when no change projects onto it |
| ChangesetSpec.LastProjectedUnique | src/index.ts:228-240 | when only one change projects onto an output key, the key holds that change's projection |
| Changesets.Changeset.constructor | src/index.ts:79-82 | a new changeset keeps its baseline and schema and has no changes and no errors |
| Changesets.Changeset.Cast | src/index.ts:103-125 | `trimStrings` is true when omitted; a cast that throws leaves the changes as they were; otherwise the old changes are spread with the cast's changes |
| Changesets.Changeset.ValidateRequired | src/index.ts:127-135 | appends, in field order, the blank errors of the listed fields |
| Changesets.Changeset.ValidateNumber | src/index.ts:137-155 | appends, in option order, the number errors of the field's effective value |
| Changesets.Changeset.ValidateLength | src/index.ts:157-178 | appends, in option order, the length errors of the field's effective value |
| Changesets.NumberOptionsErrors | src/index.ts:144-153 | the loop over the option entries of `validateNumber` collects exactly the number errors of the value, in option order |
| Changesets.LengthOptionsErrors | src/index.ts:166-176 | the loop over the option entries of `validateLength` collects exactly the length errors of the string, in option order |
| Changesets.Changeset.ValidateFormat | src/index.ts:180-193 | appends the format error of the field's effective value, if any |
| Changesets.Changeset.AddError | src/index.ts:252-255 | appends exactly the given error |
| Changesets.Changeset.PutChange | src/index.ts:257-260 | the field becomes changed to the given value, whatever the baseline holds, and no other change moves |
| Changesets.Changeset.IsChanged | src/index.ts:195-197 | a field is changed exactly when it is a key of the changes, whatever its value |
| Changesets.Changeset.GetChange | src/index.ts:199-203 | gives the stored change, or undefined when the field is not changed; never the baseline |
| Changesets.Changeset.GetField | src/index.ts:205-207 | gives the change unless it is null or undefined, and the baseline value otherwise |
| Changesets.Changeset.IsValid | src/index.ts:209-211 | a changeset is valid exactly when it has no errors |
| Changesets.Changeset.ApplyChanges | src/index.ts:217-222 | the result has the keys of baseline and changes, without duplicates; each changed key holds its change and the others their baseline value |
| Changesets.Changeset.TransformErrors | src/index.ts:96-101 | the result has one key per field with errors, holding that field's messages in order, and loses no message |
| Changesets.Changeset.ToPrismaParams | src/index.ts:228-240 | throws exactly when a changed key is not in the schema; otherwise each output key holds the projection of the last change onto it |
| Changesets.Changeset.ToSnakeCaseParams | src/index.ts:242-250 | throws exactly when a changed key is not in the schema; otherwise each renamed key holds the last non-virtual change onto it, or its default |
| ChangesetProperties.CastEqualToBaseline | src/index.ts:115-116 | a cast whose value is `===` to the baseline leaves that key's change as it was |
| ChangesetProperties.CastRecordsChange | src/index.ts:116-121 | a cast whose value differs from the baseline records it, with a falsy value stored as null |
| ChangesetProperties.BlankTextCast | src/index.ts:111-113 | a text field cast from whitespace with trimming yields null or `""` |
| ChangesetProperties.ClearingTextRecordsNull | src/index.ts:108-122 | clearing a non-empty text field with whitespace records null for it |
| ChangesetProperties.ClearedTextFieldReadsBaseline | src/index.ts:205-207 | after a null change the field is changed and applies as null, yet `getField` reads the old text and `validateRequired` reports nothing |
| ChangesetProperties.ProjectionKeys | src/index.ts:228-250 | an output key exists exactly when some change projects onto it |
| ChangesetProperties.PrismaParamOfChange | src/index.ts:228-240 | a virtual field yields nothing; an `…Id` key yields its relation `connect`, or nothing when null or undefined; any other key yields `value ?? default` |
| ChangesetProperties.PrismaRelationCollision | src/index.ts:233-238 | when both `author` and `authorId` are changed, the output `author` holds whichever of the two comes later |
| Scenarios.ParseSeventeen | src/typeMapper.ts:6 | `Number("17")` is 17 |
| Scenarios.CastSeventeen | src/index.ts:103-125 | casting the text "17" into an Integer field absent from an empty baseline records the number 17 |
| Scenarios.SeventeenBelowEighteen | src/index.ts:137-155 | validating 17 with `greaterThanOrEqualTo: 18` gives exactly one error, on `age` |

## Left out

- `tap` and `toPromise`: an escape hatch that calls a caller's function, and an async wrapper; neither carries logic of its own.
- The compiled `dist/` files and `src/common.ts`: a stale build and type declarations, with no behaviour of their own.
- Changeset chaining: the `Changeset` methods return nothing instead of `this`. Their effect on the one object is what the contracts state. The `SchemaBuilder` methods do return the builder.
- JsValues.ToNumber: `Number(s)` on a string is modelled only for trimmed, optionally signed decimal integers, with `""` giving 0. Fractions, exponents, hexadecimal and `Infinity` give NaN here. All numbers are integers, so floating point is not modelled.
- JsValues.IntToString: `String(n)` is modelled as plain decimal digits. The exponent notation JavaScript uses for very large numbers is not modelled.
- Changesets.Changeset.ValidateFormat: a regular expression is a caller-supplied `string -> bool` predicate, so regular-expression semantics are not modelled.
- Changesets.Changeset.ToSnakeCaseParams: lodash `snakeCase` is a caller-supplied renaming, so string casing is not modelled. The `validateNumber` messages spell out the words for the four known option names.
- LengthValidators.Check: a length is the number of Dafny characters. JavaScript counts UTF-16 code units, so strings outside the basic plane are not modelled.
- TypeMapper.ToBuffer: a buffer is represented by the text it holds. `Buffer.from` of arrays, array buffers and encodings other than UTF-8 is not modelled.
- Prototype-inherited keys: option names such as `toString` would resolve to inherited functions, and keys such as `__proto__` are special on assignment. Neither is modelled.
- Schemas.SchemaBuilder.Build: `build()` returns the builder's live `fields` object, and a `Changeset` keeps its `schema` and `data` by reference. The model copies both as values, so aliasing is not modelled: a field declared on the builder after a changeset was created is not seen by that changeset, and a later change to the object passed as `data` does not reach it.
- Key order: JavaScript lists integer-like keys first, in numeric order. The model keeps insertion order for every key.
- NumberValidators.Words: the contract states the shape of the words (they open with the key's first letter, are longer than the key, and differ between options) and not their full spelling. The spelling lives in the definition; proving it character by character against a snake-case reference is too costly for the verifier.
