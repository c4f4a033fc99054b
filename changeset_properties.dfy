/** Consequences of the changeset's definitions that span several operations. */
module ChangesetProperties {
  import opened Wrappers
  import opened JsValues
  import opened Records
  import TypeMapper
  import opened Schemas
  import opened ChangesetSpec

  /** A cast whose value is `===` to the baseline leaves that key as it was:
      a key that was not changed before is still not changed. */
  lemma {:induction false} CastEqualToBaseline(data: Record<Value>, schema: Schema, params: Record<Value>, permitted: seq<string>,
                                               trimStrings: bool, changes: Record<Value>, key: string, raw: Value)
    requires DistinctKeys(params) && Find(params, key) == Some(raw) && key in permitted
    requires Find(schema, key).Some?
    requires var c := CastValue(Find(schema, key).value, key, raw, trimStrings);
      c.Success? && StrictEq(c.value, Lookup(data, key))
    requires CastChanges(data, schema, params, permitted, trimStrings, []).Success?
    ensures Find(PutAll(changes, CastChanges(data, schema, params, permitted, trimStrings, []).value), key) == Find(changes, key)
  {
    CastUpdate(data, schema, params, permitted, trimStrings, changes, key);
  }

  /** A cast of a permitted key whose value differs from the baseline records
      it, with a falsy value stored as null. */
  lemma {:induction false} CastRecordsChange(data: Record<Value>, schema: Schema, params: Record<Value>, permitted: seq<string>,
                                             trimStrings: bool, changes: Record<Value>, key: string, raw: Value)
    requires DistinctKeys(params) && Find(params, key) == Some(raw) && key in permitted
    requires Find(schema, key).Some?
    requires var c := CastValue(Find(schema, key).value, key, raw, trimStrings);
      c.Success? && !StrictEq(c.value, Lookup(data, key))
    requires CastChanges(data, schema, params, permitted, trimStrings, []).Success?
    ensures var c := CastValue(Find(schema, key).value, key, raw, trimStrings).value;
      Find(PutAll(changes, CastChanges(data, schema, params, permitted, trimStrings, []).value), key) ==
        Some(if Falsy(c) then Null else c)
  {
    CastUpdate(data, schema, params, permitted, trimStrings, changes, key);
  }

  /** The String cast of `""`, or of only whitespace with trimming, is null or `""`. */
  lemma {:induction false} BlankTextCast(opts: FieldOptions, key: string, raw_text: string)
    requires forall i :: 0 <= i < |raw_text| ==> IsWhite(raw_text[i])
    ensures CastValue(SchemaField(TypeMapper.String, opts), key, Str(raw_text), true) in {Success(Null), Success(Str(""))}
  {
    TypeMapper.StringCoercion(Str(raw_text));
    if raw_text != "" {
      TrimAllWhite(raw_text);
    }
  }

  /** Casting `""`, or only whitespace with trimming, into a String field
      whose baseline is a non-empty string records null. */
  lemma {:induction false} ClearingTextRecordsNull(data: Record<Value>, schema: Schema, key: string, opts: FieldOptions,
                                                   old_text: string, raw_text: string)
    requires Find(schema, key) == Some(SchemaField(TypeMapper.String, opts))
    requires Lookup(data, key) == Str(old_text) && old_text != ""
    requires forall i :: 0 <= i < |raw_text| ==> IsWhite(raw_text[i])
    ensures CastChanges(data, schema, [(key, Str(raw_text))], [key], true, []) == Success([(key, Null)])
  {
    BlankTextCast(opts, key, raw_text);
    assert CastEntry(data, schema, [key], true, key, Str(raw_text)) == Success(Some(Null));
    assert [(key, Str(raw_text))][1..] == [];
    assert Put([], key, Null) == [(key, Null)];
  }

  /** Clearing a text field: after the cast above, the field counts as changed
      and `applyChanges()` holds null, yet `getField` (which uses `??`) still
      reads the old baseline text, so `validateRequired` does not flag it. */
  lemma {:induction false} ClearedTextFieldReadsBaseline(data: Record<Value>, changes: Record<Value>, key: string, old_text: string)
    requires DistinctKeys(changes)
    requires Lookup(data, key) == Str(old_text) && old_text != ""
    ensures var after := PutAll(changes, [(key, Null)]);
      && Find(after, key) == Some(Null)
      && Lookup(PutAll(data, after), key) == Null
      && EffectiveValue(data, after, key) == Str(old_text)
      && RequiredErrors(data, after, [key]) == []
  {
    assert [(key, Null)][1..] == [];
    var after := Put(changes, key, Null);
    assert PutAll(changes, [(key, Null)]) == after;
    FindPut(changes, key, Null, key);
    PutDistinct(changes, key, Null);
    AppliedFind(data, after, key);
    assert EffectiveValue(data, after, key) == Str(old_text);
    assert [key][..0] == [];
    assert RequiredErrors(data, after, [key]) == RequiredErrors(data, after, []);
  }

  /** Every output key of a projection comes from some change that projects
      onto it, and every such change yields an output key: virtual fields and
      relation keys with a null or undefined value yield nothing. */
  lemma {:induction false} ProjectionKeys(naming: Naming, schema: Schema, changes: Record<Value>, out: string)
    requires Project(naming, schema, changes, []).Success?
    ensures out in Keys(Project(naming, schema, changes, []).value) <==>
      exists i :: 0 <= i < |changes| && Projected(naming, schema, changes[i]).Some? &&
                  Projected(naming, schema, changes[i]).value.0 == out
  {
    ProjectFind(naming, schema, changes, [], out);
    LastProjectedNone(naming, schema, changes, out);
  }

  /** `toPrismaParams` on a change `[key, value]` of a field that is not
      virtual, when no other change projects onto the same output key: a key
      ending in `Id` becomes its relation `{ connect: { id: value } }`, or is
      dropped when the value is null or undefined; any other key holds
      `value ?? default`. A virtual field contributes nothing. */
  lemma {:induction false} PrismaParamOfChange(schema: Schema, changes: Record<Value>, i: nat, f: SchemaField)
    requires i < |changes| && Find(schema, changes[i].0) == Some(f)
    requires Project(Prisma, schema, changes, []).Success?
    requires forall j :: 0 <= j < |changes| && j != i && Projected(Prisma, schema, changes[j]).Some? ==>
      Projected(Prisma, schema, changes[j]).value.0 != (if EndsWithId(changes[i].0) then changes[i].0[..|changes[i].0| - 2] else changes[i].0)
    ensures var (key, value) := changes[i];
      var out := Project(Prisma, schema, changes, []).value;
      && (IsVirtual(f.opts) ==> Projected(Prisma, schema, changes[i]).None?)
      && (!IsVirtual(f.opts) && !EndsWithId(key) ==>
            Find(out, key) == Some(Plain(if IsNullish(value) then f.opts.default else value)))
      && (!IsVirtual(f.opts) && EndsWithId(key) && !IsNullish(value) ==>
            Find(out, key[..|key| - 2]) == Some(Connect(value)))
      && (!IsVirtual(f.opts) && EndsWithId(key) && IsNullish(value) ==>
            Projected(Prisma, schema, changes[i]).None?)
  {
    var (key, value) := changes[i];
    var p := Projected(Prisma, schema, changes[i]);
    if p.Some? {
      LastProjectedUnique(Prisma, schema, changes, i, p.value.0, p.value.1);
      ProjectFind(Prisma, schema, changes, [], p.value.0);
    }
  }

  /** When both `author` and `authorId` are changed, the output key `author`
      holds whichever of the two was changed last. */
  lemma {:induction false} PrismaRelationCollision(schema: Schema, f: SchemaField, g: SchemaField, name: string, a: Value, b: Value)
    requires Find(schema, name) == Some(f) && Find(schema, name + "Id") == Some(g)
    requires !EndsWithId(name) && !IsVirtual(f.opts) && !IsVirtual(g.opts) && !IsNullish(a) && !IsNullish(b)
    ensures Project(Prisma, schema, [(name, a), (name + "Id", b)], []) == Success([(name, Connect(b))])
    ensures Project(Prisma, schema, [(name + "Id", b), (name, a)], []) == Success([(name, Plain(a))])
  {
    var key := name + "Id";
    assert EndsWithId(key) && key[..|key| - 2] == name;
    assert Projected(Prisma, schema, (name, a)) == Some((name, Plain(a)));
    assert Projected(Prisma, schema, (key, b)) == Some((name, Connect(b)));
    assert [(name, a), (key, b)][1..] == [(key, b)];
    assert [(key, b), (name, a)][1..] == [(name, a)];
    assert [(key, b)][1..] == [] && [(name, a)][1..] == [];
    assert Put([], name, Plain(a)) == [(name, Plain(a))];
    assert Put([], name, Connect(b)) == [(name, Connect(b))];
    assert Put([(name, Plain(a))], name, Connect(b)) == [(name, Connect(b))];
    assert Put([(name, Connect(b))], name, Plain(a)) == [(name, Plain(a))];
    assert Project(Prisma, schema, [(key, b)], [(name, Plain(a))]) == Success([(name, Connect(b))]);
    assert Project(Prisma, schema, [(name, a), (key, b)], []) == Project(Prisma, schema, [(key, b)], [(name, Plain(a))]);
    assert Project(Prisma, schema, [(name, a)], [(name, Connect(b))]) == Success([(name, Plain(a))]);
    assert Project(Prisma, schema, [(key, b), (name, a)], []) == Project(Prisma, schema, [(name, a)], [(name, Connect(b))]);
  }
}
