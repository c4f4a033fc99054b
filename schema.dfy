/** Schemas: for each field name, its declared type and its options; and the
    builder that assembles one, one typed method per field. */
module Schemas {
  import opened Wrappers
  import opened JsValues
  import opened Records
  import TypeMapper

  /** The options of a schema field: its default value (`undefined` when it has
      none) and its `virtual` flag (read only for its truthiness, so `undefined`
      in a schema written by hand reads as false). */
  datatype FieldOptions = FieldOptions(default: Value, virtual: Value)

  /** A virtual field is left out of the persistence projections. */
  predicate IsVirtual(opts: FieldOptions) {
    !Falsy(opts.virtual)
  }

  datatype SchemaField = SchemaField(tag: TypeMapper.TypeTag, opts: FieldOptions)

  type Schema = Record<SchemaField>

  /** The options a caller passes to a builder method: each property either
      present with a value or absent. Omitting the argument is `NoOptions`. */
  datatype OptionsInput = OptionsInput(default: Option<Value>, virtual: Option<Value>)

  const NoOptions := OptionsInput(None, None)

  /** `{ ...defaultOpts, ...opts }` where the defaults are `default: undefined`
      and `virtual: false`: a property the caller gives wins, even `undefined`. */
  function MergeOptions(opts: OptionsInput): (merged: FieldOptions)
    ensures merged.default == if opts.default.Some? then opts.default.value else Undefined
    ensures IsVirtual(merged) <==> opts.virtual.Some? && !Falsy(opts.virtual.value)
  {
    FieldOptions(opts.default.GetOr(Undefined), opts.virtual.GetOr(Bool(false)))
  }

  class SchemaBuilder {
    var fields: Schema

    ghost predicate Valid()
      reads this
    {
      DistinctKeys(fields)
    }

    constructor ()
      ensures Valid() && fields == []
    {
      fields := [];
    }

    /** `build()`: the schema assembled so far. */
    function Build(): (s: Schema)
      reads this
      ensures s == fields
    {
      fields
    }

    /** `fields[name] = [type, {...defaultOpts, ...opts}]`: a field added
        again keeps its place and takes the new type and options. */
    method AddField(name: string, tag: TypeMapper.TypeTag, opts: OptionsInput := NoOptions)
      requires Valid()
      modifies this
      ensures Valid()
      ensures fields == Put(old(fields), name, SchemaField(tag, MergeOptions(opts)))
    {
      PutDistinct(fields, name, SchemaField(tag, MergeOptions(opts)));
      fields := Put(fields, name, SchemaField(tag, MergeOptions(opts)));
    }

    method Integer(name: string, opts: OptionsInput := NoOptions) returns (self: SchemaBuilder)
      requires Valid()
      modifies this
      ensures Valid() && self == this
      ensures fields == Put(old(fields), name, SchemaField(TypeMapper.Integer, MergeOptions(opts)))
    {
      AddField(name, TypeMapper.Integer, opts);
      self := this;
    }

    method Float(name: string, opts: OptionsInput := NoOptions) returns (self: SchemaBuilder)
      requires Valid()
      modifies this
      ensures Valid() && self == this
      ensures fields == Put(old(fields), name, SchemaField(TypeMapper.Float, MergeOptions(opts)))
    {
      AddField(name, TypeMapper.Float, opts);
      self := this;
    }

    method String(name: string, opts: OptionsInput := NoOptions) returns (self: SchemaBuilder)
      requires Valid()
      modifies this
      ensures Valid() && self == this
      ensures fields == Put(old(fields), name, SchemaField(TypeMapper.String, MergeOptions(opts)))
    {
      AddField(name, TypeMapper.String, opts);
      self := this;
    }

    method Boolean(name: string, opts: OptionsInput := NoOptions) returns (self: SchemaBuilder)
      requires Valid()
      modifies this
      ensures Valid() && self == this
      ensures fields == Put(old(fields), name, SchemaField(TypeMapper.Boolean, MergeOptions(opts)))
    {
      AddField(name, TypeMapper.Boolean, opts);
      self := this;
    }

    method Binary(name: string, opts: OptionsInput := NoOptions) returns (self: SchemaBuilder)
      requires Valid()
      modifies this
      ensures Valid() && self == this
      ensures fields == Put(old(fields), name, SchemaField(TypeMapper.Binary, MergeOptions(opts)))
    {
      AddField(name, TypeMapper.Binary, opts);
      self := this;
    }

    method Decimal(name: string, opts: OptionsInput := NoOptions) returns (self: SchemaBuilder)
      requires Valid()
      modifies this
      ensures Valid() && self == this
      ensures fields == Put(old(fields), name, SchemaField(TypeMapper.Decimal, MergeOptions(opts)))
    {
      AddField(name, TypeMapper.Decimal, opts);
      self := this;
    }
  }

  /** A built field is virtual exactly when the caller asked for a truthy
      `virtual`, and its default is the caller's or `undefined`; a later call for
      the same name replaces an earlier one. */
  lemma {:induction false} BuiltField(fields: Schema, name: string, tag: TypeMapper.TypeTag, opts: OptionsInput, other: string)
    ensures var built := Put(fields, name, SchemaField(tag, MergeOptions(opts)));
      && Find(built, name).Some?
      && Find(built, name).value.tag == tag
      && (IsVirtual(Find(built, name).value.opts) <==> opts.virtual.Some? && !Falsy(opts.virtual.value))
      && Find(built, name).value.opts.default == opts.default.GetOr(Undefined)
      && (other != name ==> Find(built, other) == Find(fields, other))
  {
    FindPut(fields, name, SchemaField(tag, MergeOptions(opts)), name);
    FindPut(fields, name, SchemaField(tag, MergeOptions(opts)), other);
  }
}
