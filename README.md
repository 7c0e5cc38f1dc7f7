# c-dns and serde-indexed in Dafny

This project models the core of the `c-dns` crates: a reader and writer for
C-DNS, the compacted DNS capture format of RFC 8618.

## What is modelled

- **serde-indexed.** This is the derive macro that serializes a struct as a
  CBOR map with integer keys: field `i` gets key `i + offset`. It also
  decodes such a map back into the struct. The model covers:
  - the attribute parser (`Parse`);
  - what the generated `serialize` writes: the announced length and the
    entries (`SerdeIndexed`);
  - what the generated `visit_map` makes of a map's entries
    (`SerdeIndexed`);
  - the `missing_field` helper (`DeriveHelpers`);
  - the `SomeKeys`, `NakedOption` and `EmptyStruct` test structs, with the
    maps their test vectors encode (`Basics`).

  CBOR values are an abstract `Value` datatype (`Cbor`), and an `Option`
  that is `None` is written as `Null`. The token streams of the macro are
  replaced by an abstract syntax of attributes and fields. The main results:
  - serialize-then-deserialize gives back every well-formed struct value
    (`SerdeIndexed.RoundTrip`);
  - the announced length is the number of entries written;
  - each field is written once under its key, unless its skip predicate
    holds;
  - the decoding errors: duplicate keys, unknown keys and missing fields;
  - the treatment of negative keys, with and without an extras field.
- **c-dns serialization helpers.**
  - `IpAddr::as_ipv4` and `as_ipv6` (`IpAddresses`), which pad an address
    prefix with zero octets.
  - `NameOrRdata::to_string_domain` (`DomainNames`), which turns a name in
    the wire format of section 3.1 of RFC 1035 into dotted text. Here UTF-8
    validity is a parameter.
  - The `TransportFlags` accessors (`TransportFlags`).
  - The bit positions of every `EnumSet` flag type, with an encode/decode
    round trip (`FlagSets`, `FlagEnums`).
  - The key layout of every record of section 7.3 of RFC 8618 as declared
    for the derive (`RecordLayouts`). Each record is shown to parse to a
    well-formed layout whose keys are the field positions, and to
    round-trip through the derived code.
- **c-dns iterators.** `File::iter_blocks` and `Block::iter_query_responses`
  are classes with a cursor (`Iterators`). `next`, `size_hint` and `fold`
  are each proved against the sequence of items the iterator yields.

## Model

| member | source | states |
|---|---|---|
| Parse.ApplyNested | serde-indexed/src/parse.rs:39-54 | one turn of the `parse_meta` loop; its properties are carried by ParseMeta (the loop applies it item by item), NestedAppliedKeeps, LastOffsetWins, LastEmitLengthWins and NestedAppliedFailsOnlyOutOfRange |
| Parse.ParseMeta | serde-indexed/src/parse.rs:36-57 | the method gives what `MetaApplied` gives: a list's items update the attributes in order, an integer offset outside the `isize` range is an error, and other items are ignored |
| Parse.ParseAttrs | serde-indexed/src/parse.rs:59-74 | the method gives `ParsedAttrs`: start from the defaults, then apply each `serde_indexed`/`serde` attribute in turn; an unparsable one is an error |
| Parse.DefaultsWithoutAttributes | serde-indexed/src/parse.rs:16-23 | with no attribute, the container attributes are offset 0 with the length emitted |
| Parse.SerdeAndSerdeIndexedAgree | serde-indexed/src/parse.rs:63 | `#[serde(..)]` and `#[serde_indexed(..)]` have the same effect |
| Parse.NestedAppliedConcat | serde-indexed/src/parse.rs:38-55 | items apply left to right: the result of xs+ys is ys applied to the result of xs, and an error in xs propagates |
| Parse.NestedAppliedKeeps | serde-indexed/src/parse.rs:39-54 | items that are not an integer `offset` leave the offset unchanged; items that are not a boolean `emit_length` leave that flag unchanged |
| Parse.LastOffsetWins | serde-indexed/src/parse.rs:41-45 | the last integer `offset` item, negative or not, decides the offset; `offset` items with a string or boolean value after it are ignored |
| Parse.LastEmitLengthWins | serde-indexed/src/parse.rs:47-51 | the last boolean `emit_length` item decides the flag |
| Parse.NestedAppliedFailsOnlyOutOfRange | serde-indexed/src/parse.rs:41-45 | the items fail iff one of them is an integer `offset` outside the `isize` range, below `isize::MIN` or above `isize::MAX`, and the error is then the overflow error |
| Parse.AttrsAppliedConcat | serde-indexed/src/parse.rs:61-72 | attributes apply left to right; an error propagates |
| Parse.NestedAppliedPrefixFails | serde-indexed/src/parse.rs:38-53 | once a prefix of the items fails, the whole list fails with that same error |
| Parse.AttrsAppliedPrefixFails | serde-indexed/src/parse.rs:62-71 | once a prefix of the attributes fails, the whole list fails with that same error |
| Parse.SkipSerializingIf | serde-indexed/src/parse.rs:130-157 | the method gives `SkipFromAttrs`: the last string `skip_serializing_if` found in a `#[serde(..)]` list |
| Parse.SkipFromNestedListFails | serde-indexed/src/parse.rs:135-152 | scanning a list fails iff it holds a `name = value` item other than `skip_serializing_if` (the unknown-attribute panic) or a `skip_serializing_if` string that is no path (the `unwrap` panics); the error is that of the first such item |
| Parse.SkipScanFails | serde-indexed/src/parse.rs:130-157 | the field scan fails iff some `#[serde(..)]` of the field holds such an item, with the error of the first one in the first such list |
| Parse.SkipFromNestedListValue | serde-indexed/src/parse.rs:135-152 | a successful list scan keeps the predicate found before when no item is a `skip_serializing_if` string, and otherwise yields the text of the last one |
| Parse.SkipScanValue | serde-indexed/src/parse.rs:130-157 | a successful field scan yields no predicate when no `#[serde(..)]` list of the field sets one, and otherwise the text of the last `skip_serializing_if` string of the last list that does |
| Parse.SkipFromNestedListPrefixFails | serde-indexed/src/parse.rs:135-152 | a failure in a prefix of the items is the failure of the whole list |
| Parse.SkipFromAttrsPrefixFails | serde-indexed/src/parse.rs:130-157 | a failure in a prefix of the attributes is the failure of the whole list |
| Parse.CollectExtras | serde-indexed/src/parse.rs:158-180 | the method gives `ExtrasFromAttrs`: whether some `#[serde_indexed(..)]` holds the bare path `extras`; any other path is an error |
| Parse.ExtrasFromNestedListSpec | serde-indexed/src/parse.rs:163-176 | when the list scan succeeds, it yields true iff the flag was already set or the list holds `extras` |
| Parse.ExtrasScanSpec | serde-indexed/src/parse.rs:158-180 | when the field scan succeeds, it yields true iff some `#[serde_indexed(..)]` of the field holds `extras` |
| Parse.ExtrasFromNestedListFails | serde-indexed/src/parse.rs:164-175 | scanning a list fails iff it holds a bare path other than `extras`, and the error is then the unknown-attribute error |
| Parse.ExtrasScanFails | serde-indexed/src/parse.rs:158-180 | the field scan fails iff some `#[serde_indexed(..)]` of the field holds a bare path other than `extras`, with the unknown-attribute error |
| Parse.ExtrasFromNestedListPrefixFails | serde-indexed/src/parse.rs:164-175 | a failure in a prefix of the items is the failure of the whole list |
| Parse.ExtrasFromAttrsPrefixFails | serde-indexed/src/parse.rs:158-180 | a failure in a prefix of the attributes is the failure of the whole list |
| Parse.FieldFromAst | serde-indexed/src/parse.rs:107-185 | the per-field closure of `fields_from_ast`; its properties are carried by FieldsFromAst (index, identifier, Option-ness and both scans), FieldsFromAstFirstFailure and FieldsFromEach |
| Parse.FieldsFromAst | serde-indexed/src/parse.rs:107-185 | field i gets index i, its identifier, its Option-ness and what both attribute scans found; the list fails iff some field fails |
| Parse.FieldsFromAstFirstFailure | serde-indexed/src/parse.rs:107-185 | a failing conversion fails with the error of the first field, in declaration order, whose attributes are rejected |
| Parse.FieldsFromEach | serde-indexed/src/parse.rs:107-128 | fields that each convert on their own convert together, in order |
| Parse.ParseInput | serde-indexed/src/parse.rs:76-105 | a non-struct, an attribute error, unnamed fields and a field-attribute error are each rejected with their own error; on success the identifier and attributes are kept and the fields are those `fields_from_ast` gives, each numbered by its position |
| DeriveHelpers.MissingField | serde-indexed/tests/basics.rs:140-176 | a missing field succeeds iff it is an `Option`, and then as `None`; otherwise the result is `missing_field` with the field's name |
| SerdeIndexed.Insert | serde-indexed/src/lib.rs:215 | inserting into the extras map: the key now maps to the new value, other keys are unchanged, and the order stays sorted |
| SerdeIndexed.ExtrasPositions | serde-indexed/src/lib.rs:188-192 | gives exactly the positions of the fields marked `extras`, in ascending order |
| SerdeIndexed.DeriveDeserialize | serde-indexed/src/lib.rs:188-200 | the derive succeeds iff at most one field collects extras; otherwise it fails with the "at most one" error |
| SerdeIndexed.MatchField | serde-indexed/src/lib.rs:144-161 | the `match_fields` arms of `visit_map`; see MatchFrom, NegativeKeyMatchesNoField, DuplicateKeyFails and UnknownKeyFails |
| SerdeIndexed.MatchFrom | serde-indexed/src/lib.rs:144-161 | the first field arm from p on that matches the key, or none when no arm matches |
| SerdeIndexed.Initial | serde-indexed/src/lib.rs:109-119 | the state before the loop is valid, with an empty slot per field and an empty extras map |
| SerdeIndexed.Step | serde-indexed/src/lib.rs:228-246 | one loop turn keeps the decoder state valid: slots aligned, extras sorted and negative |
| SerdeIndexed.DecodeEntries | serde-indexed/src/lib.rs:228-246 | the whole loop keeps the decoder state valid |
| SerdeIndexed.UnwrapField | serde-indexed/src/lib.rs:121-142 | a decoded field is the extras map exactly at the extras field, and that map is the one collected |
| SerdeIndexed.Unwrap | serde-indexed/src/lib.rs:121-142 | yields one value per remaining field, with the extras map exactly at the extras field |
| SerdeIndexed.Deserialize | serde-indexed/src/lib.rs:228-275 | at the map-access level, an empty struct decodes from any list of entries; a successful decode is a valid struct value with only negative, sorted extras keys |
| SerdeIndexed.VisitMap | serde-indexed/src/lib.rs:264-275 | reading the entries one at a time in a loop gives `Deserialize` |
| SerdeIndexed.InsertAboveAll | serde-indexed/src/lib.rs:215 | inserting a key above all present keys appends the entry |
| SerdeIndexed.InsertTwice | serde-indexed/src/lib.rs:215 | a second insert under the same key overrides the first |
| SerdeIndexed.FieldEntries | serde-indexed/src/lib.rs:35-61 | the code `serialize_fields` emits for one field; see ValuesAtField, FieldWrittenUnlessSkipped and CountIsEntries |
| SerdeIndexed.FieldCount | serde-indexed/src/lib.rs:63-77 | the term `count_serialized_fields` emits for one field; see CountIsEntries |
| SerdeIndexed.Serialize | serde-indexed/src/lib.rs:80-107 | the generated `serialize`; see CountIsEntries, AnnouncedLengthIsEntryCount, FieldWrittenUnlessSkipped and RoundTrip |
| SerdeIndexed.CountIsEntries | serde-indexed/src/lib.rs:36-77 | the counted fields are as many as the entries written |
| SerdeIndexed.AnnouncedLengthIsEntryCount | serde-indexed/src/lib.rs:85-99 | with `emit_length` the announced length equals the number of entries; without it no length is announced |
| SerdeIndexed.ValuesAtConcat | serde-indexed/src/lib.rs:36-61 | the values under a key in two concatenated entry lists are those of each list, in order |
| SerdeIndexed.ValuesAtAbsent | serde-indexed/src/lib.rs:36-61 | entries without the key hold no value under it |
| SerdeIndexed.ValuesAtField | serde-indexed/src/lib.rs:36-61 | under field p's key, field q writes nothing unless q = p and p is not skipped, in which case it writes p's value |
| SerdeIndexed.ValuesAtPrefix | serde-indexed/src/lib.rs:36-61 | when no field but p writes under a key, the first k fields write there exactly what p writes, or nothing when p is not among them |
| SerdeIndexed.FieldWrittenUnlessSkipped | serde-indexed/src/lib.rs:36-61 | every non-extras field is written exactly once under key index + offset with its own value, or not at all when its skip predicate holds, provided no extras key is a field key |
| SerdeIndexed.ExtrasUpTo | serde-indexed/src/lib.rs:201-226 | the extras collected after k fields are sorted and negative |
| SerdeIndexed.Expected | serde-indexed/src/lib.rs:228-246 | the decoder state expected after k fields is valid |
| SerdeIndexed.DecodeEntriesConcat | serde-indexed/src/lib.rs:228-246 | decoding a+b is decoding b from the state a leaves, or a's error |
| SerdeIndexed.NegativeKeyMatchesNoField | serde-indexed/src/lib.rs:144-161 | with a non-negative offset, no field arm matches a negative key |
| SerdeIndexed.NonNegativeOffsetFreesExtras | serde-indexed/src/lib.rs:144-161 | with a non-negative offset every field key is non-negative, so no (negative) extras key is a field key |
| SerdeIndexed.NoExtrasFieldFreesExtras | serde-indexed/src/lib.rs:201-226 | without an extras field no extras key can collide with a field key, whatever the offset, negative ones included |
| SerdeIndexed.ReadExtras | serde-indexed/src/lib.rs:201-226 | ascending negative keys are appended to the extras map |
| SerdeIndexed.ExtrasUpToEmpty | serde-indexed/src/lib.rs:201-226 | before the extras field is reached, the expected extras are empty |
| SerdeIndexed.ExtrasUpToIs | serde-indexed/src/lib.rs:201-226 | after the extras field, the expected extras are that field's map |
| SerdeIndexed.DecodeField | serde-indexed/src/lib.rs:36-61 | reading what field k-1 wrote moves the decoder from the expected state after k-1 fields to the one after k |
| SerdeIndexed.DecodeChain | serde-indexed/src/lib.rs:228-246 | two successful decodes in sequence are one successful decode of the concatenated entries |
| SerdeIndexed.DecodePrefix | serde-indexed/src/lib.rs:228-246 | reading what the first k fields wrote reaches the expected state after k fields |
| SerdeIndexed.UnwrapExpected | serde-indexed/src/lib.rs:121-142 | unwrapping the expected final state gives back the struct value |
| SerdeIndexed.RoundTrip | serde-indexed/src/lib.rs:80-275 | deserializing what `serialize` wrote gives back any valid value of a well-formed layout, provided no extras key is a field key; this holds for every non-negative offset and, for any offset, without an extras field |
| SerdeIndexed.SlotsStayFilled | serde-indexed/src/lib.rs:150-157 | a slot, once filled, stays filled |
| SerdeIndexed.DuplicateKeyFails | serde-indexed/src/lib.rs:152-156 | a field's key seen a second time fails with `duplicate_field` naming that field, whatever follows |
| SerdeIndexed.UnknownKeyFails | serde-indexed/src/lib.rs:238-240 | a non-negative key that matches no field fails with the "inexistent field index" error |
| SerdeIndexed.NegativeKeyIgnored | serde-indexed/src/lib.rs:201-226 | without an extras field, an unmatched negative key is read and dropped |
| SerdeIndexed.RepeatedExtrasKeyKeepsLast | serde-indexed/src/lib.rs:201-226 | with an extras field, a repeated negative key keeps its last value without error |
| SerdeIndexed.UnwrapEmpty | serde-indexed/src/lib.rs:121-142 | with nothing read, unwrapping succeeds iff no remaining field is mandatory; on failure the first mandatory field is named |
| SerdeIndexed.NoEntries | serde-indexed/src/lib.rs:109-142 | an empty map decodes iff every field is an `Option` or the extras field (each then `None` or empty); otherwise the first other field is reported missing |
| Basics.SomeKeysParses | serde-indexed/tests/basics.rs:40-49 | `SomeKeys` parses to offset 1, fields 0-4, and the skip predicate on `option` only; its layout is well-formed |
| Basics.SomeKeysFields | serde-indexed/tests/basics.rs:40-49 | the five fields of `SomeKeys` convert to their descriptors, the skip predicate on `option` only |
| Basics.LayoutWithoutExtras | serde-indexed/src/parse.rs:107-128 | fields numbered by position, with no extras field and skip predicates on `Option` fields only, form a well-formed layout |
| Basics.SerializeAnExample | serde-indexed/tests/basics.rs:63-101 | `an_example` is a valid value and writes a 4-entry map under keys 1, 2, 3 and 5, the `None` option left out |
| Basics.SerializeAnotherExample | serde-indexed/tests/basics.rs:79-120 | `another_example` is a valid value and writes a 5-entry map under keys 1-5 |
| Basics.DeserializeAnExample | serde-indexed/tests/basics.rs:103-110 | the map of `an_example` decodes to `an_example` |
| Basics.DeserializeAnotherExample | serde-indexed/tests/basics.rs:122-132 | the map of `another_example` decodes to `another_example` |
| Basics.NakedOptionParses | serde-indexed/tests/basics.rs:51-57 | `NakedOption` parses to offset 0 with the length emitted and no skip predicate |
| Basics.NakedOptionWritesNull | serde-indexed/tests/basics.rs:51-57 | without a skip predicate, a `None` is written as null under key 0 and counted in the length |
| Basics.NakedOptionMissingOption | serde-indexed/tests/basics.rs:51-57 | a map lacking the `Option` key decodes, with `None` for it |
| Basics.NakedOptionMissingNum | serde-indexed/tests/basics.rs:51-57 | a map lacking the key of `num` fails with `missing_field("num")` |
| Basics.EmptyStructBehaviour | serde-indexed/tests/basics.rs:59-61 | the empty struct writes an empty map with length 0 and, at the map-access level, decodes from any list of entries |
| Basics.MissingFieldCases | serde-indexed/tests/basics.rs:140-176 | `missing_field` yields `None` for an `Option` and the `missing_field` error otherwise |
| IpAddresses.AsIpv4 | c-dns/src/serialization.rs:106-118 | no bytes and more than 4 bytes are the two errors; 1-4 bytes are the leading octets, and the rest are 0 |
| IpAddresses.AsIpv6 | c-dns/src/serialization.rs:120-135 | no bytes and more than 16 bytes are errors; otherwise the copy is padded with zeros to exactly 16 octets |
| IpAddresses.Ipv4RoundTrip | c-dns/src/serialization.rs:106-118 | an address's four octets convert back to the address |
| IpAddresses.Ipv4TrailingZero | c-dns/src/serialization.rs:106-118 | appending a zero byte to a short prefix names the same address |
| DomainNames.DomainText | c-dns/src/serialization.rs:145-159 | the string `to_string_domain` returns; see ToStringDomain (the loop computes it), EncodeThenDecode, DecodeThenEncode, DottedLength, EndsWithDot and OnlyUpToEndIsRead |
| DomainNames.ToStringDomain | c-dns/src/serialization.rs:145-159 | the loop yields each label followed by a dot, or the invalid-domain text when that is not UTF-8 |
| DomainNames.DottedStep | c-dns/src/serialization.rs:149-155 | one loop turn moves the label at the reading position, and a dot, from the text still to produce to the text written |
| DomainNames.LabelsFrom | c-dns/src/serialization.rs:145-159 | every label read is 1 to 255 bytes long |
| DomainNames.Encode | c-dns/src/serialization.rs:145-159 | a wire-form name ends in the zero length byte |
| DomainNames.RootIsEmpty | c-dns/src/serialization.rs:145-159 | the root name gives the empty text |
| DomainNames.DottedLength | c-dns/src/serialization.rs:145-159 | the text is as long as all labels together plus one dot per label |
| DomainNames.EndsWithDot | c-dns/src/serialization.rs:152-154 | a non-root name's text ends in a dot |
| DomainNames.LabelsOfEncoding | c-dns/src/serialization.rs:145-159 | the encoded labels are read back, whatever precedes or follows them |
| DomainNames.EncodeThenDecode | c-dns/src/serialization.rs:145-159 | encoding labels and then reading them gives their dotted text |
| DomainNames.EndFrom | c-dns/src/serialization.rs:149-151 | reading stops at a zero length byte inside the buffer |
| DomainNames.DecodeThenEncode | c-dns/src/serialization.rs:145-159 | re-encoding the labels read gives back the name, up to and including its zero byte |
| DomainNames.OnlyUpToEndIsRead | c-dns/src/serialization.rs:145-159 | two buffers that agree up to the ending zero byte give the same labels |
| TransportFlags.Discriminant | c-dns/src/lib.rs:6-20 | each transport's discriminant fits in 4 bits |
| TransportFlags.TransportFromCode | c-dns/src/serialization.rs:913-921 | the result is Reserved iff the code is above 4 and not 15 |
| TransportFlags.TransportCode | c-dns/src/serialization.rs:885-899 | the transport code is a 4-bit value |
| TransportFlags.TransportProtocolAsWritten | c-dns/src/serialization.rs:909-922 | the accessor as written reads the code divided by 4, so only UDP, TCP, TLS or DTLS can come out |
| TransportFlags.Compose | c-dns/src/serialization.rs:885-899 | a composed flags word uses bits 0-5 only |
| TransportFlags.DiscriminantRoundTrip | c-dns/src/lib.rs:6-20 | every transport's discriminant maps back to it |
| TransportFlags.TransportProtocolReadsCode | c-dns/src/serialization.rs:909-922 | the corrected accessor reads the code in bits 1-4 |
| TransportFlags.IsIpv4 | c-dns/src/serialization.rs:902-904 | `is_ipv4`; see AccessorsReadBits, ComposeThenRead and ReadThenCompose |
| TransportFlags.IsIpv6 | c-dns/src/serialization.rs:906-908 | `is_ipv6`, the negation of `is_ipv4`; see AccessorsReadBits and ComposeThenRead |
| TransportFlags.HasTrailingData | c-dns/src/serialization.rs:924-926 | `has_trailing_data`; see AccessorsReadBits, ComposeThenRead and ReadThenCompose |
| TransportFlags.AccessorsReadBits | c-dns/src/serialization.rs:901-926 | `is_ipv4`/`is_ipv6` read bit 0 and `has_trailing_data` reads bit 5 of the word as a number |
| TransportFlags.TransportCodeReadsBits | c-dns/src/serialization.rs:909-922 | the transport code is bits 1-4 of the word as a number |
| TransportFlags.ComposeThenRead | c-dns/src/serialization.rs:901-926 | the accessors give back the IP version, transport and trailing flag a word was composed from |
| TransportFlags.ReadThenCompose | c-dns/src/serialization.rs:901-926 | a word using bits 0-5 whose code names a transport is recomposed from its accessors |
| TransportFlags.ShiftLosesTransport | c-dns/src/serialization.rs:909-922 | TCP over IPv4 (0x02) reads as UDP and HTTPS reads as TCP; HTTPS, NonStandard and Reserved never come out |
| TransportFlags.AsWrittenAgreesOnlyForUdp | c-dns/src/serialization.rs:909-922 | the accessor as written agrees with the corrected one iff the code is 0 |
| FlagSets.MaskFromBound | c-dns/src/serialization.rs:398-408 | a mask of positions i..n-1 is below 2^(n-i) |
| FlagSets.BitsFromRange | c-dns/src/serialization.rs:398-408 | decoded positions lie in i..n-1 |
| FlagSets.BitsOfMaskFrom | c-dns/src/serialization.rs:398-408 | decoding a mask gives the set's positions in range |
| FlagSets.MaskFromAgree | c-dns/src/serialization.rs:398-408 | sets that agree on the range have the same mask |
| FlagSets.MaskOfBitsFrom | c-dns/src/serialization.rs:398-408 | a number in range is the mask of its own bits |
| FlagSets.MaskBound | c-dns/src/serialization.rs:398-408 | every mask of n flags fits in n bits |
| FlagSets.MembersOfMask | c-dns/src/serialization.rs:398-408 | set -> mask -> set keeps exactly the positions below n |
| FlagSets.MaskOfMembers | c-dns/src/serialization.rs:398-408 | mask -> set -> mask is the identity below 2^n |
| FlagSets.EncodeSet | c-dns/src/serialization.rs:398-408 | serializing an `EnumSet` as the mask of its flags' bit positions; see MaskBound and EncodeThenDecode |
| FlagSets.DecodeSet | c-dns/src/serialization.rs:398-408 | deserializing a mask as the flags whose bit is set; see EncodeThenDecode and DecodeThenEncode |
| FlagSets.EncodeThenDecode | c-dns/src/serialization.rs:398-408 | for any flag type, encoding a set of flags and decoding it gives the set back, and the mask fits in n bits |
| FlagSets.DecodeThenEncode | c-dns/src/serialization.rs:398-408 | for any flag type, decoding a mask below 2^n and encoding the result gives the mask back |
| FlagEnums.StorageFlagsDense | c-dns/src/serialization.rs:398-408 | the storage flags occupy bits 0-2, one each |
| FlagEnums.StorageFlagsCodec | c-dns/src/serialization.rs:398-408 | a storage-flag set round-trips through its mask, and every mask below 2^3 round-trips through its set |
| FlagEnums.QueryResponseHintsDense | c-dns/src/serialization.rs:455-475 | the Q/R hints occupy bits 0-17, one each, in declaration order |
| FlagEnums.QueryResponseHintsCodec | c-dns/src/serialization.rs:455-475 | a Q/R hint set round-trips through its mask, and every mask below 2^18 round-trips through its set |
| FlagEnums.QueryResponseSignatureHintsDense | c-dns/src/serialization.rs:499-518 | the signature hints occupy bits 0-16, one each |
| FlagEnums.QueryResponseSignatureHintsCodec | c-dns/src/serialization.rs:499-518 | a signature hint set round-trips through its mask, and every mask below 2^17 round-trips through its set |
| FlagEnums.RRHintDense | c-dns/src/serialization.rs:527-531 | the RR hints occupy bits 0-1 |
| FlagEnums.RRHintCodec | c-dns/src/serialization.rs:527-531 | an RR hint set round-trips through its mask, and every mask below 4 round-trips through its set |
| FlagEnums.OtherDataHintsDense | c-dns/src/serialization.rs:540-544 | the other-data hints occupy bits 0-1 |
| FlagEnums.OtherDataHintsCodec | c-dns/src/serialization.rs:540-544 | an other-data hint set round-trips through its mask, and every mask below 4 round-trips through its set |
| FlagEnums.QueryResponseFlagsDense | c-dns/src/serialization.rs:985-993 | the Q/R flags occupy bits 0-5 |
| FlagEnums.QueryResponseFlagsCodec | c-dns/src/serialization.rs:985-993 | a Q/R flag set round-trips through its mask, and every mask below 2^6 round-trips through its set |
| FlagEnums.DNSFlagsDense | c-dns/src/serialization.rs:1014-1031 | the DNS flags occupy bits 0-14 |
| FlagEnums.DNSFlagsCodec | c-dns/src/serialization.rs:1014-1031 | a DNS flag set round-trips through its mask, and every mask below 2^15 round-trips through its set |
| RecordLayouts.SkipSerializingNone | c-dns/src/serialization.rs:270 | `#[skip_serializing_none]` gives every `Option` field the `Option::is_none` skip predicate and changes nothing else |
| RecordLayouts.Described' | serde-indexed/src/parse.rs:107-128 | one descriptor per declared field |
| RecordLayouts.DeclaredIsRecord | c-dns/src/serialization.rs:270-294 | a struct declared like the records is a record, with or without `#[skip_serializing_none]` expanded |
| RecordLayouts.ConventionalField | serde-indexed/src/parse.rs:107-185 | a field with no attribute, the skip predicate or the extras marker converts to the expected descriptor |
| RecordLayouts.RecordAttrs | serde-indexed/src/parse.rs:16-74 | a record's container attributes, none or `emit_length = false`, give offset 0 and emit the length iff there are none |
| RecordLayouts.RecordFields | serde-indexed/src/parse.rs:107-128 | declared fields of the record kinds convert to one descriptor each, in order |
| RecordLayouts.RecordLayoutWellFormed | serde-indexed/src/lib.rs:188-200 | such fields, with the extras marker only on the last, form a well-formed layout |
| RecordLayouts.RecordParses | serde-indexed/src/parse.rs:76-105 | every record parses with offset 0, emits its length iff it lacks `emit_length = false`, has a well-formed layout and derives a deserializer |
| RecordLayouts.KeyIsPosition | serde-indexed/src/lib.rs:144-161 | in a record, the key of every non-extras field is its declaration position |
| RecordLayouts.RecordRoundTrip | serde-indexed/src/lib.rs:80-275 | every record value round-trips through the derived code, and announces its length iff it has no container attribute |
| RecordLayouts.FilePreambleIsRecord | c-dns/src/serialization.rs:270-294 | `FilePreamble` is a record |
| RecordLayouts.BlockParametersIsRecord | c-dns/src/serialization.rs:299-310 | `BlockParameters` is a record |
| RecordLayouts.StorageParametersIsRecord | c-dns/src/serialization.rs:324-373 | `StorageParameters` is a record |
| RecordLayouts.StorageHintsIsRecord | c-dns/src/serialization.rs:416-430 | `StorageHints` is a record |
| RecordLayouts.CollectionParametersIsRecord | c-dns/src/serialization.rs:555-590 | `CollectionParameters` is a record |
| RecordLayouts.BlockIsRecord | c-dns/src/serialization.rs:609-629 | `Block` is a record |
| RecordLayouts.BlockPreambleIsRecord | c-dns/src/serialization.rs:651-666 | `BlockPreamble` is a record |
| RecordLayouts.BlockStatisticsIsRecord | c-dns/src/serialization.rs:673-693 | `BlockStatistics` is a record |
| RecordLayouts.BlockTablesIsRecord | c-dns/src/serialization.rs:714-760 | `BlockTables` is a record |
| RecordLayouts.ClassTypeIsRecord | c-dns/src/serialization.rs:778-784 | `ClassType` is a record |
| RecordLayouts.QueryResponseSignatureIsRecord | c-dns/src/serialization.rs:815-862 | `QueryResponseSignature` is a record |
| RecordLayouts.QuestionIsRecord | c-dns/src/serialization.rs:1036-1043 | `Question` is a record |
| RecordLayouts.RRIsRecord | c-dns/src/serialization.rs:1048-1059 | `RR` is a record |
| RecordLayouts.MalformedMessageDataIsRecord | c-dns/src/serialization.rs:1074-1090 | `MalformedMessageData` is a record |
| RecordLayouts.QueryResponseIsRecord | c-dns/src/serialization.rs:1110-1149 | `QueryResponse` is a record |
| RecordLayouts.ResponseProcessingDataIsRecord | c-dns/src/serialization.rs:1171-1183 | `ResponseProcessingData` is a record |
| RecordLayouts.QueryResponseExtendedIsRecord | c-dns/src/serialization.rs:1202-1220 | `QueryResponseExtended` is a record |
| RecordLayouts.AddressEventCountIsRecord | c-dns/src/serialization.rs:1233-1253 | `AddressEventCount` is a record |
| RecordLayouts.MalformedMessageIsRecord | c-dns/src/serialization.rs:1289-1305 | `MalformedMessage` is a record |
| RecordLayouts.FieldNames | c-dns/src/serialization.rs:714-760 | the names of the fields, in order |
| RecordLayouts.BlockTablesKeys | c-dns/src/serialization.rs:714-760 | `BlockTables` parses to ten fields, keys 0-8 match fields 0-8, the extras field is last, and no length is emitted |
| RecordLayouts.BlockTablesNames | c-dns/src/serialization.rs:714-760 | the fields under keys 0-8 are `ip_address` to `malformed_message_data`, in order |
| RecordLayouts.QueryResponseKeys | c-dns/src/serialization.rs:1110-1149 | `QueryResponse` parses to fourteen fields, keys 0-12 match fields 0-12, the extras field is last, and no length is emitted |
| RecordLayouts.QueryResponseNames | c-dns/src/serialization.rs:1110-1149 | the fields under keys 0-12 are `time_offset` to `response_extended`, in order |
| RecordLayouts.FilePreambleExtrasAreNegative | c-dns/src/serialization.rs:270-294 | a decoded `FilePreamble` keeps only negative keys in `extra_values` |
| Iterators.ParametersIndex | c-dns/src/iterators.rs:29 | `block_parameters_index.unwrap_or(0)`; see BlockItems and FileItems |
| Iterators.BlockItems | c-dns/src/iterators.rs:25-32 | one item per block: block k with the parameter set its preamble selects, or set 0 when it selects none |
| Iterators.BlockIterator.constructor | c-dns/src/iterators.rs:3-12 | the iterator starts at the file's first block, with the file's parameter sets |
| Iterators.BlockIterator.Next | c-dns/src/iterators.rs:25-32 | yields the next block with its parameter set and advances; yields nothing once the blocks are exhausted |
| Iterators.BlockIterator.SizeHint | c-dns/src/iterators.rs:34-36 | lower and upper bound are both the number of blocks left |
| Iterators.BlockIterator.Fold | c-dns/src/iterators.rs:38-52 | the loop gives f folded over the items `next` would yield |
| Iterators.QueryResponseItems | c-dns/src/iterators.rs:98-107 | one item per Q/R record, each with the block's earliest time, parameters and tables |
| Iterators.QueryResponseIterator.constructor | c-dns/src/iterators.rs:55-78 | the iterator starts at the block's first Q/R record (none when absent), with the block's context |
| Iterators.QueryResponseIterator.Next | c-dns/src/iterators.rs:98-107 | yields the next Q/R item with the block context and advances; yields nothing at the end |
| Iterators.QueryResponseIterator.SizeHint | c-dns/src/iterators.rs:109-111 | lower and upper bound are both the number of items left |
| Iterators.QueryResponseIterator.Fold | c-dns/src/iterators.rs:113-131 | the loop gives f folded over the items `next` would yield |
| Iterators.BlockFoldIsRepeatedNext | c-dns/src/iterators.rs:38-52 | folding over the items is f applied to the first item, then folding over the rest |
| Iterators.FileItems | c-dns/src/iterators.rs:3-32 | a file yields one item per block, block k in position k, paired with set 0 when it selects none |

## Left out

- The CBOR byte encoding. Maps are modelled as their announced length and their entries. The test vectors' bytes are represented by the maps they encode.
- Generated `next_value` decoding. Type errors inside a field value belong to the value deserializers, which are not part of this model.
- Proc-macro token streams and `syn` parsing are replaced by an abstract attribute syntax. `syn` parse failures, the `panic!` on an unknown field attribute and the `unwrap` panics on a `skip_serializing_if` string are modelled as error results.
- Whether a `skip_serializing_if` string parses as an expression path is a flag on the string literal. The path grammar of `syn` is not part of this model.
- An integer literal is modelled by its value, negated literals included. Its digits and suffix are not modelled.
- Parse.SkipSerializingIf: the path text is kept, but the model reads every skip predicate as `Option::is_none`. That is the only predicate the crates use.
- SerdeIndexed.Deserialize: map keys are unbounded integers, and the `isize` range of keys is not modelled.
- FlagSets.DecodeSet: `EnumSet` deserialization discards bits at or above the flag count. Masks are plain unsigned integers, and the integer width is not modelled.
- DomainNames.ToStringDomain: the source indexes out of range, and panics, on an empty or truncated name. The model requires a well-formed name instead. UTF-8 validity is a parameter, not a decoder.
- Iterators.BlockIterator.Next: indexing `block_parameters` out of range panics in the source. The model requires an index in range.
- Iterators.QueryResponseIterator.constructor: a block without tables panics in the source. The model requires the tables.
- The iterators hand out references in the source; the model hands out values, so aliasing and lifetimes are not captured.
- `#[skip_serializing_none]` handling of `serialize_always` and of fields that already carry a `serde` attribute. No record uses either.
- `Timestamp` and the `File` tuple serialization, the `Debug` implementations, the TODO-only value checks, `utils.rs`, the debug-print binary and the reserialization test (file I/O).

## Findings

| source | as written | input that shows it | evidently intended | confidence | as-written member | corrected member |
|---|---|---|---|---|---|---|
| c-dns/src/serialization.rs:909-922 | `transport_protocol` masks bits 1-4 and then shifts right by 3, so only the top two bits of the code reach the match | flags 0x02 (TCP over IPv4) read as UDP; 0x08 (HTTPS) reads as TCP | shift right by 1, so that the 4-bit code in bits 1-4 selects the transport | not executed | TransportFlags.TransportProtocolAsWritten (shown by TransportFlags.ShiftLosesTransport) | TransportFlags.TransportProtocol (proved by TransportFlags.ComposeThenRead and TransportFlags.ReadThenCompose) |
