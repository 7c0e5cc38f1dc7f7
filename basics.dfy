/** The structs of the derive's test suite, their parsed layouts and the
    map contents of their serialized examples. The CBOR bytes themselves are
    the business of the CBOR serializer; what is fixed here is the map each
    example byte string encodes: its announced length and its entries. */
module Basics {
  import opened Wrappers
  import opened Cbor
  import opened Parse
  import opened DeriveHelpers
  import opened SerdeIndexed

  // ---------------------------------------------------------------------------
  // SomeKeys
  // ---------------------------------------------------------------------------

  /** `#[serde_indexed(offset = 1)] struct SomeKeys { number, bytes, string,
      #[serde(skip_serializing_if = "Option::is_none")] option, vector }` */
  const SomeKeysAst := DeriveInput(
    "SomeKeys",
    [Attribute("serde_indexed", Some(List([NameValue("offset", IntLit(1))])))],
    Struct(Named([
      AstField("number", OtherType, []),
      AstField("bytes", OtherType, []),
      AstField("string", OtherType, []),
      AstField("option", OptionType, [SkipIfNone]),
      AstField("vector", OtherType, [])])))

  const SomeKeys := Input("SomeKeys", StructAttrs(1, true), [
    Field("number", 0, None, false, false),
    Field("bytes", 1, None, false, false),
    Field("string", 2, None, false, false),
    Field("option", 3, Some("Option::is_none"), false, true),
    Field("vector", 4, None, false, false)])

  /** The derive reads offset 1, numbers the fields from 0 and puts the skip
      predicate on `option` alone. */
  lemma SomeKeysParses()
    ensures ParseInput(SomeKeysAst) == Success(SomeKeys)
    ensures WellFormedLayout(SomeKeys.fields)
    ensures DeriveDeserialize(SomeKeys) == Success(SomeKeys)
  {
    assert ParsedAttrs(SomeKeysAst.attrs) == Success(StructAttrs(1, true));
    SomeKeysFields();
    LayoutWithoutExtras(SomeKeys.fields);
  }

  /** The five fields convert to their descriptors. */
  lemma SomeKeysFields()
    ensures FieldsFromAst(SomeKeysAst.data.fields.named) == Success(SomeKeys.fields)
  {
    var named, fs := SomeKeysAst.data.fields.named, SomeKeys.fields;
    assert SkipFromAttrs([SkipIfNone]) == Success(Some("Option::is_none"));
    assert ExtrasFromAttrs([SkipIfNone]) == Success(false);
    assert SkipFromAttrs([]) == Success(None) && ExtrasFromAttrs([]) == Success(false);
    assert FieldFromAst(0, named[0]) == Success(fs[0]);
    assert FieldFromAst(1, named[1]) == Success(fs[1]);
    assert FieldFromAst(2, named[2]) == Success(fs[2]);
    assert FieldFromAst(3, named[3]) == Success(fs[3]);
    assert FieldFromAst(4, named[4]) == Success(fs[4]);
    FieldsFromEach(named, fs);
  }

  /** Fields numbered by position, without an extras field, whose skip
      predicates stand on `Option` fields, form a well-formed layout. */
  lemma LayoutWithoutExtras(fs: seq<Field>)
    requires forall p :: 0 <= p < |fs| ==> fs[p].index == p && !fs[p].collectExtras
    requires forall p :: 0 <= p < |fs| && fs[p].skipSerializingIf.Some? ==> fs[p].isOption
    ensures WellFormedLayout(fs) && !HasExtras(fs)
  {
  }


  const SevenBytes: seq<Value> := seq(7, _ => Int(37))

  /** `an_example()`: number -7, bytes [37; 7], string "so serde",
      option None, vector [42]. */
  const AnExample := [Single(Int(-7)), Single(Array(SevenBytes)), Single(Text("so serde")),
                      Single(Null), Single(Array([Int(42)]))]

  /** `another_example()`: the same with option Some(0xff). */
  const AnotherExample := [Single(Int(-7)), Single(Array(SevenBytes)), Single(Text("so serde")),
                           Single(Int(0xff)), Single(Array([Int(42)]))]

  /** The map of SERIALIZED_AN_EXAMPLE: a4, then keys 1, 2, 3 and 5. */
  const SerializedAnExample := Encoded(Some(4), [
    (1, Int(-7)), (2, Array(SevenBytes)), (3, Text("so serde")), (5, Array([Int(42)]))])

  /** The map of SERIALIZED_ANOTHER_EXAMPLE: a5, then keys 1 to 5. */
  const SerializedAnotherExample := Encoded(Some(5), [
    (1, Int(-7)), (2, Array(SevenBytes)), (3, Text("so serde")), (4, Int(0xff)), (5, Array([Int(42)]))])

  /** The `serialize` test: the `None` option is left out and the map
      announces 4 entries. */
  lemma SerializeAnExample()
    ensures ValidValue(SomeKeys.fields, AnExample)
    ensures Serialize(SomeKeys, AnExample) == SerializedAnExample
  {
    var fs := SomeKeys.fields;
    assert WellTyped(fs, AnExample);
    var e0, e1, e2 := (1, Int(-7)), (2, Array(SevenBytes)), (3, Text("so serde"));
    var e4 := (5, Array([Int(42)]));
    assert SerializedEntries(fs, 1, AnExample, 1) == [e0];
    assert SerializedEntries(fs, 1, AnExample, 2) == [e0, e1];
    assert SerializedEntries(fs, 1, AnExample, 3) == [e0, e1, e2];
    assert SerializedEntries(fs, 1, AnExample, 4) == [e0, e1, e2];
    assert SerializedEntries(fs, 1, AnExample, 5) == [e0, e1, e2, e4];
    AnnouncedLengthIsEntryCount(SomeKeys, AnExample);
  }

  /** The `another_serialize` test: `Some(0xff)` is written under key 4 and
      the map announces 5 entries. */
  lemma SerializeAnotherExample()
    ensures ValidValue(SomeKeys.fields, AnotherExample)
    ensures Serialize(SomeKeys, AnotherExample) == SerializedAnotherExample
  {
    var fs := SomeKeys.fields;
    assert WellTyped(fs, AnotherExample);
    var e0, e1, e2 := (1, Int(-7)), (2, Array(SevenBytes)), (3, Text("so serde"));
    var e3, e4 := (4, Int(0xff)), (5, Array([Int(42)]));
    assert SerializedEntries(fs, 1, AnotherExample, 1) == [e0];
    assert SerializedEntries(fs, 1, AnotherExample, 2) == [e0, e1];
    assert SerializedEntries(fs, 1, AnotherExample, 3) == [e0, e1, e2];
    assert SerializedEntries(fs, 1, AnotherExample, 4) == [e0, e1, e2, e3];
    assert SerializedEntries(fs, 1, AnotherExample, 5) == [e0, e1, e2, e3, e4];
    AnnouncedLengthIsEntryCount(SomeKeys, AnotherExample);
  }

  /** The `deserialize` test. */
  lemma DeserializeAnExample()
    ensures Deserialize(SomeKeys, SerializedAnExample.entries) == Success(AnExample)
  {
    SomeKeysParses();
    SerializeAnExample();
    NonNegativeOffsetFreesExtras(SomeKeys.fields, SomeKeys.attrs.offset, AnExample);
    RoundTrip(SomeKeys, AnExample);
  }

  /** The `another_deserialize` test. */
  lemma DeserializeAnotherExample()
    ensures Deserialize(SomeKeys, SerializedAnotherExample.entries) == Success(AnotherExample)
  {
    SomeKeysParses();
    SerializeAnotherExample();
    NonNegativeOffsetFreesExtras(SomeKeys.fields, SomeKeys.attrs.offset, AnotherExample);
    RoundTrip(SomeKeys, AnotherExample);
  }

  // ---------------------------------------------------------------------------
  // NakedOption and EmptyStruct
  // ---------------------------------------------------------------------------

  /** `struct NakedOption { option: Option<SomeKeys>, num: usize, key: bool }`
      without container attributes. */
  const NakedOptionAst := DeriveInput(
    "NakedOption", [],
    Struct(Named([
      AstField("option", OptionType, []),
      AstField("num", OtherType, []),
      AstField("key", OtherType, [])])))

  const NakedOption := Input("NakedOption", StructAttrs(0, true), [
    Field("option", 0, None, false, true),
    Field("num", 1, None, false, false),
    Field("key", 2, None, false, false)])

  /** Offset 0 and the emitted length are the defaults; an `Option` without
      a skip predicate is an ordinary field. */
  lemma NakedOptionParses()
    ensures ParseInput(NakedOptionAst) == Success(NakedOption)
  {
    assert ParsedAttrs([]) == Success(DefaultStructAttrs);
    assert SkipFromAttrs([]) == Success(None) && ExtrasFromAttrs([]) == Success(false);
    FieldsFromEach(NakedOptionAst.data.fields.named, NakedOption.fields);
  }

  /** A `None` without a skip predicate is written as null under key 0. */
  lemma NakedOptionWritesNull(key: bool)
    ensures Serialize(NakedOption, [Single(Null), Single(Int(3)), Single(Bool(key))])
         == Encoded(Some(3), [(0, Null), (1, Int(3)), (2, Bool(key))])
  {
    var fs := NakedOption.fields;
    var v := [Single(Null), Single(Int(3)), Single(Bool(key))];
    assert WellTyped(fs, v);
    assert SerializedEntries(fs, 0, v, 1) == [(0, Null)];
    assert SerializedEntries(fs, 0, v, 2) == [(0, Null), (1, Int(3))];
    assert SerializedEntries(fs, 0, v, 3) == [(0, Null), (1, Int(3)), (2, Bool(key))];
    AnnouncedLengthIsEntryCount(NakedOption, v);
  }

  /** A map lacking key 0 still decodes, the `Option` being `None`. */
  lemma NakedOptionMissingOption(key: bool)
    ensures Deserialize(NakedOption, [(1, Int(3)), (2, Bool(key))])
         == Success([Single(Null), Single(Int(3)), Single(Bool(key))])
  {
    var fs := NakedOption.fields;
    var init := Initial(fs);
    assert init.slots == [None, None, None];
    assert MatchField(fs, 0, 1) == Some(1);
    assert MatchField(fs, 0, 2) == Some(2);
    var b1 := DecodeState([None, Some(Int(3)), None], []);
    var b2 := DecodeState([None, Some(Int(3)), Some(Bool(key))], []);
    assert init.slots[1 := Some(Int(3))] == b1.slots;
    assert b1.slots[2 := Some(Bool(key))] == b2.slots;
    assert Step(fs, 0, init, (1, Int(3))) == Success(b1);
    assert Step(fs, 0, b1, (2, Bool(key))) == Success(b2);
    assert [(1, Int(3)), (2, Bool(key))][1..] == [(2, Bool(key))];
    assert DecodeEntries(fs, 0, b1, [(2, Bool(key))]) == Success(b2);
    assert DecodeEntries(fs, 0, init, [(1, Int(3)), (2, Bool(key))]) == Success(b2);
    assert Unwrap(fs, b2, 3) == Success([]);
    assert [Single(Bool(key))] + [] == [Single(Bool(key))];
    assert Unwrap(fs, b2, 2) == Success([Single(Bool(key))]);
    assert [Single(Int(3))] + [Single(Bool(key))] == [Single(Int(3)), Single(Bool(key))];
    assert Unwrap(fs, b2, 1) == Success([Single(Int(3)), Single(Bool(key))]);
    assert [Single(Null)] + [Single(Int(3)), Single(Bool(key))] == [Single(Null), Single(Int(3)), Single(Bool(key))];
    assert Unwrap(fs, b2, 0) == Success([Single(Null), Single(Int(3)), Single(Bool(key))]);
  }

  /** A map lacking key 1 is rejected with `missing_field("num")`. */
  lemma NakedOptionMissingNum(key: bool)
    ensures Deserialize(NakedOption, [(0, Null), (2, Bool(key))]) == Failure(Missing("num"))
  {
    var fs := NakedOption.fields;
    var init := Initial(fs);
    assert init.slots == [None, None, None];
    assert MatchField(fs, 0, 0) == Some(0);
    assert MatchField(fs, 0, 2) == Some(2);
    var a1 := DecodeState([Some(Null), None, None], []);
    var a2 := DecodeState([Some(Null), None, Some(Bool(key))], []);
    assert init.slots[0 := Some(Null)] == a1.slots;
    assert a1.slots[2 := Some(Bool(key))] == a2.slots;
    assert Step(fs, 0, init, (0, Null)) == Success(a1);
    assert Step(fs, 0, a1, (2, Bool(key))) == Success(a2);
    assert [(0, Null), (2, Bool(key))][1..] == [(2, Bool(key))];
    assert DecodeEntries(fs, 0, a1, [(2, Bool(key))]) == Success(a2);
    assert DecodeEntries(fs, 0, init, [(0, Null), (2, Bool(key))]) == Success(a2);
    assert Unwrap(fs, a2, 1) == Failure(Missing("num"));
  }

  const EmptyStructAst := DeriveInput("EmptyStruct", [], Struct(Named([])))

  /** `struct EmptyStruct {}`: it writes an empty map announcing 0 entries,
      and decodes from any map without reading a key. */
  lemma EmptyStructBehaviour(entries: seq<Entry>)
    ensures ParseInput(EmptyStructAst) == Success(Input("EmptyStruct", DefaultStructAttrs, []))
    ensures Serialize(Input("EmptyStruct", DefaultStructAttrs, []), []) == Encoded(Some(0), [])
    ensures Deserialize(Input("EmptyStruct", DefaultStructAttrs, []), entries) == Success([])
  {
    assert ParsedAttrs([]) == Success(DefaultStructAttrs);
  }

  // ---------------------------------------------------------------------------
  // missing_field
  // ---------------------------------------------------------------------------

  /** A missing `Option` field becomes `None`; any other missing field is the
      error `missing_field` with the field's name. */
  lemma MissingFieldCases(name: string)
    ensures MissingField(name, true) == Success(Null)
    ensures MissingField(name, false) == Failure(Missing(name))
  {
  }
}
