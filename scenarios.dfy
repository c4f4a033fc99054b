/** Worked examples of clients of the changeset; each `assert` is proved from
    the operations' contracts. */
module Scenarios {
  import opened Wrappers
  import opened JsValues
  import opened Records
  import opened Schemas
  import TypeMapper
  import opened ChangesetSpec
  import opened Changesets

  /** Baseline `{a: 1, b: 2}` with the change `{b: 3}` applies to `{a: 1, b: 3}`,
      and reading it twice gives the same record. */
  method ApplyOverBaseline() {
    var cs := new Changeset([("a", Num(1)), ("b", Num(2))], []);
    cs.PutChange("b", Num(3));
    var first := cs.ApplyChanges();
    var second := cs.ApplyChanges();
    assert first == second;
    assert Find(first, "a") == Some(Num(1)) && Find(first, "b") == Some(Num(3));
    assert Keys(first) == {"a", "b"};
  }

  /** `putChange` records a value even when it equals the baseline. */
  method PutChangeOfBaselineValue() {
    var cs := new Changeset([("title", Str("draft"))], []);
    cs.PutChange("title", Str("draft"));
    assert cs.IsChanged("title") && cs.GetChange("title") == Str("draft");
  }

  lemma ParseSeventeen()
    ensures ParseNumber("17") == Num(17)
  {
    assert LeadingWhite("17") == 0 && TrailingWhite("17") == 0;
    assert Trim("17") == "17";
    assert AllDigits("17");
    assert "17"[..1] == "1" && DigitsValue("1") == 1;
  }

  /** Casting the text "17" into an Integer field absent from an empty
      baseline records the number 17. */
  lemma CastSeventeen(schema: Schema)
    requires schema == [("age", SchemaField(TypeMapper.Integer, MergeOptions(NoOptions)))]
    ensures CastChanges([], schema, [("age", Str("17"))], ["age"], true, []) == Success([("age", Num(17))])
  {
    ParseSeventeen();
    var field := schema[0].1;
    assert Find(schema, "age") == Some(field);
    assert TypeMapper.Coerce(field.tag, Str("17")) == Some(Num(17));
    assert CastValue(field, "age", Str("17"), true) == Success(Num(17));
    assert !StrictEq(Num(17), Lookup([], "age")) && OrNull(Num(17)) == Num(17);
    assert CastEntry([], schema, ["age"], true, "age", Str("17")) == Success(Some(Num(17)));
  }

  /** 17 fails `greaterThanOrEqualTo: 18` with one error on `age`. */
  lemma SeventeenBelowEighteen(opts: seq<(string, int)>)
    requires opts == [("greaterThanOrEqualTo", 18)]
    ensures |NumberErrors("age", Num(17), opts)| == 1 && NumberErrors("age", Num(17), opts)[0].field == "age"
  {
    var e := NumberOptionError("age", opts[0]);
    NumberErrorsMeaning("age", Num(17), opts, e);
  }

  /** An Integer field `age` cast from the text "17", with the default
      options, then validated with `greaterThanOrEqualTo: 18`, gets exactly one
      error, on `age`. */
  method AgeBelowMinimum() {
    var builder := new SchemaBuilder();
    var _ := builder.Integer("age");
    var schema := builder.Build();
    var cs := new Changeset([], schema);
    CastSeventeen(schema);
    var outcome := cs.Cast([("age", Str("17"))], ["age"]);
    assert cs.changes == [("age", Num(17))];
    assert cs.GetChange("age") == Num(17);
    var opts := [("greaterThanOrEqualTo", 18)];
    SeventeenBelowEighteen(opts);
    cs.ValidateNumber("age", opts);
    assert outcome == Pass && |cs.errors| == 1 && cs.errors[0].field == "age";
  }
}
