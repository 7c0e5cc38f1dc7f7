/** The C-DNS records of section 7.3 of RFC 8618 as declared for the
    indexed-map derive: field order, `Option` fields, the `extra_values`
    extras map, `#[skip_serializing_none]` and `emit_length = false`. With
    the default offset 0 each field's map key is its declaration position,
    which reproduces the RFC's keys. */
module RecordLayouts {
  import opened Wrappers
  import opened Cbor
  import opened Parse
  import opened DeriveHelpers
  import opened SerdeIndexed

  /** `#[serde_indexed(extras)]` */
  const ExtrasMarker := Attribute("serde_indexed", Some(List([Path("extras")])))

  /** `#[serde_indexed(emit_length = false)]` */
  const NoLength := Attribute("serde_indexed", Some(List([NameValue("emit_length", BoolLit(false))])))

  /** A field of a non-`Option` type without attributes. */
  function Plain(name: string): AstField {
    AstField(name, OtherType, [])
  }

  /** A field of an `Option` type without attributes. */
  function Optional(name: string): AstField {
    AstField(name, OptionType, [])
  }

  /** `#[serde_indexed(extras)] pub extra_values: BTreeMap<isize, Value>` */
  const ExtraValues := AstField("extra_values", OtherType, [ExtrasMarker])

  /** `#[skip_serializing_none]` on a struct: every `Option` field gets the
      attribute `#[serde(skip_serializing_if = "Option::is_none")]`. */
  function SkipSerializingNone(d: DeriveInput): (r: DeriveInput)
    ensures r.ident == d.ident && r.attrs == d.attrs
    ensures d.data.Struct? && d.data.fields.Named? ==>
              && r.data.Struct? && r.data.fields.Named?
              && |r.data.fields.named| == |d.data.fields.named|
              && forall i :: 0 <= i < |d.data.fields.named| ==>
                   var f, g := d.data.fields.named[i], r.data.fields.named[i];
                   && g.ident == f.ident && g.ty == f.ty
                   && g.attrs == (if f.ty == OptionType then [SkipIfNone] + f.attrs else f.attrs)
  {
    if d.data.Struct? && d.data.fields.Named? then
      var fs := d.data.fields.named;
      var gs := seq(|fs|, i requires 0 <= i < |fs| =>
                  if fs[i].ty == OptionType then fs[i].(attrs := [SkipIfNone] + fs[i].attrs) else fs[i]);
      d.(data := Struct(Named(gs)))
    else d
  }

  // ---------------------------------------------------------------------------
  // The shape every C-DNS record has
  // ---------------------------------------------------------------------------

  /** A field as the records declare them: no attribute, the skip predicate
      on an `Option` field, or the extras marker on a non-`Option` field. */
  predicate Conventional(f: AstField) {
    || f.attrs == []
    || (f.attrs == [SkipIfNone] && f.ty == OptionType)
    || (f.attrs == [ExtrasMarker] && f.ty == OtherType)
  }

  /** The descriptor such a field parses to at position i. */
  function Described(i: nat, f: AstField): Field {
    Field(f.ident, i, if f.attrs == [SkipIfNone] then Some("Option::is_none") else None,
          f.attrs == [ExtrasMarker], f.ty == OptionType)
  }

  function Described'(fs: seq<AstField>): (r: seq<Field>)
    ensures |r| == |fs|
  {
    seq(|fs|, i requires 0 <= i < |fs| => Described(i, fs[i]))
  }

  /** A struct as declared in the source, before `#[skip_serializing_none]`
      is expanded: named fields without attributes except the extras marker
      on a last, non-`Option` field. */
  predicate Declared(d: DeriveInput) {
    && d.data.Struct? && d.data.fields.Named?
    && (d.attrs == [] || d.attrs == [NoLength])
    && (forall i :: 0 <= i < |d.data.fields.named| ==>
          || d.data.fields.named[i].attrs == []
          || (&& d.data.fields.named[i] == ExtraValues
              && i == |d.data.fields.named| - 1))
  }

  /** A named struct with `emit_length = false` or no container attribute,
      conventional fields, and the extras field, if any, last. */
  predicate Record(d: DeriveInput) {
    && d.data.Struct? && d.data.fields.Named?
    && (d.attrs == [] || d.attrs == [NoLength])
    && (forall i :: 0 <= i < |d.data.fields.named| ==> Conventional(d.data.fields.named[i]))
    && (forall i :: 0 <= i < |d.data.fields.named| && d.data.fields.named[i].attrs == [ExtrasMarker] ==>
          i == |d.data.fields.named| - 1)
  }

  /** Declared structs are records, with or without `#[skip_serializing_none]`. */
  lemma DeclaredIsRecord(d: DeriveInput)
    requires Declared(d)
    ensures Record(d) && Record(SkipSerializingNone(d))
  {
  }

  /** The layout a record parses to. */
  function LayoutOf(d: DeriveInput): Input
    requires d.data.Struct? && d.data.fields.Named?
  {
    Input(d.ident, StructAttrs(0, d.attrs == []), Described'(d.data.fields.named))
  }

  lemma ConventionalField(i: nat, f: AstField)
    requires Conventional(f)
    ensures FieldFromAst(i, f) == Success(Described(i, f))
  {
    assert SkipFromAttrs([]) == Success(None) && ExtrasFromAttrs([]) == Success(false);
    assert SkipFromAttrs([SkipIfNone]) == Success(Some("Option::is_none"));
    assert ExtrasFromAttrs([SkipIfNone]) == Success(false);
    assert SkipFromAttrs([ExtrasMarker]) == Success(None);
    assert ExtrasFromAttrs([ExtrasMarker]) == Success(true);
  }

  /** A record's container attributes: offset 0, and the length emitted
      unless `emit_length = false` is given. */
  lemma RecordAttrs(d: DeriveInput)
    requires d.attrs == [] || d.attrs == [NoLength]
    ensures ParsedAttrs(d.attrs) == Success(StructAttrs(0, d.attrs == []))
  {
    if d.attrs == [NoLength] {
      var item := NameValue("emit_length", BoolLit(false));
      assert NestedApplied(DefaultStructAttrs, [item]) == Success(StructAttrs(0, false)) by {
        assert [item][..0] == [];
      }
      assert AttrsApplied(DefaultStructAttrs, [NoLength]) == Success(StructAttrs(0, false)) by {
        assert [NoLength][..0] == [];
      }
    }
  }

  /** A record's fields convert to their descriptors. */
  lemma RecordFields(fs: seq<AstField>)
    requires forall i :: 0 <= i < |fs| ==> Conventional(fs[i])
    ensures FieldsFromAst(fs) == Success(Described'(fs))
  {
    var layout := Described'(fs);
    forall i | 0 <= i < |fs|
      ensures FieldFromAst(i, fs[i]) == Success(layout[i])
    {
      ConventionalField(i, fs[i]);
    }
    FieldsFromEach(fs, layout);
  }

  /** The descriptors of a record's fields form a well-formed layout: each
      field at its own position, the extras field, if any, last and not an
      `Option`, and skip predicates on `Option` fields only. */
  lemma RecordLayoutWellFormed(fs: seq<AstField>)
    requires forall i :: 0 <= i < |fs| ==> Conventional(fs[i])
    requires forall i :: 0 <= i < |fs| && fs[i].attrs == [ExtrasMarker] ==> i == |fs| - 1
    ensures WellFormedLayout(Described'(fs))
  {
    var layout := Described'(fs);
    forall p, q | 0 <= p < |layout| && 0 <= q < |layout| && layout[p].collectExtras && layout[q].collectExtras
      ensures p == q
    {
      assert fs[p].attrs == [ExtrasMarker] && fs[q].attrs == [ExtrasMarker];
    }
  }

  /** Every record parses to its layout, a well-formed one with offset 0, and
      its deserializer derives. */
  lemma RecordParses(d: DeriveInput)
    requires Record(d)
    ensures ParseInput(d) == Success(LayoutOf(d))
    ensures LayoutOf(d).attrs.offset == 0
    ensures LayoutOf(d).attrs.emitLength <==> NoLength !in d.attrs
    ensures WellFormedLayout(LayoutOf(d).fields)
    ensures DeriveDeserialize(LayoutOf(d)) == Success(LayoutOf(d))
  {
    var fs := d.data.fields.named;
    RecordAttrs(d);
    RecordFields(fs);
    RecordLayoutWellFormed(fs);
    assert ParseInput(d) == Success(LayoutOf(d));
  }

  /** In a record's layout, every non-negative key below the field count
      that is not the extras field's position is matched by the field at
      that position. */
  lemma KeyIsPosition(d: DeriveInput, k: nat)
    requires Record(d)
    requires k < |d.data.fields.named| && d.data.fields.named[k].attrs != [ExtrasMarker]
    ensures MatchField(LayoutOf(d).fields, 0, k) == Some(k)
    ensures LayoutOf(d).fields[k].name == d.data.fields.named[k].ident
  {
    var fields := LayoutOf(d).fields;
    assert Matches(fields[k], 0, k);
  }

  /** Serializing a value of any record and deserializing the entries gives
      the value back; the declared length is announced only without
      `emit_length = false`. */
  lemma RecordRoundTrip(d: DeriveInput, v: seq<FieldValue>)
    requires Record(d)
    requires ValidValue(LayoutOf(d).fields, v)
    ensures Deserialize(LayoutOf(d), Serialize(LayoutOf(d), v).entries) == Success(v)
    ensures Serialize(LayoutOf(d), v).length.Some? <==> d.attrs == []
  {
    RecordParses(d);
    NonNegativeOffsetFreesExtras(LayoutOf(d).fields, LayoutOf(d).attrs.offset, v);
    RoundTrip(LayoutOf(d), v);
  }

  // ---------------------------------------------------------------------------
  // The records
  // ---------------------------------------------------------------------------

  const FilePreambleDecl := DeriveInput("FilePreamble", [], Struct(Named([
      Plain("major_format_version"),
      Plain("minor_format_version"),
      Optional("private_version"),
      Plain("block_parameters"),
      ExtraValues])))
  const FilePreambleAst := SkipSerializingNone(FilePreambleDecl)

  const BlockParametersDecl := DeriveInput("BlockParameters", [], Struct(Named([
      Plain("storage_parameters"),
      Optional("collection_parameters"),
      ExtraValues])))
  const BlockParametersAst := SkipSerializingNone(BlockParametersDecl)

  const StorageParametersDecl := DeriveInput("StorageParameters", [NoLength], Struct(Named([
      Plain("ticks_per_second"),
      Plain("max_block_items"),
      Plain("storage_hints"),
      Plain("opcodes"),
      Plain("rr_types"),
      Optional("storage_flags"),
      Optional("client_address_prefix_ipv4"),
      Optional("client_address_prefix_ipv6"),
      Optional("server_address_prefix_ipv4"),
      Optional("server_address_prefix_ipv6"),
      Optional("sampling_method"),
      Optional("anonymization_method"),
      ExtraValues])))
  const StorageParametersAst := SkipSerializingNone(StorageParametersDecl)

  const StorageHintsDecl := DeriveInput("StorageHints", [], Struct(Named([
      Plain("query_response_hints"),
      Plain("query_response_signature_hints"),
      Plain("rr_hints"),
      Plain("other_data_hints"),
      ExtraValues])))
  const StorageHintsAst := StorageHintsDecl

  const CollectionParametersDecl := DeriveInput("CollectionParameters", [NoLength], Struct(Named([
      Optional("query_timeout"),
      Optional("skew_timeout"),
      Optional("snaplen"),
      Optional("promisc"),
      Optional("interfaces"),
      Optional("server_addresses"),
      Optional("vlan_ids"),
      Optional("filter"),
      Optional("generator_id"),
      Optional("host_id"),
      ExtraValues])))
  const CollectionParametersAst := SkipSerializingNone(CollectionParametersDecl)

  const BlockDecl := DeriveInput("Block", [NoLength], Struct(Named([
      Plain("block_preamble"),
      Optional("block_statistics"),
      Optional("block_tables"),
      Optional("query_responses"),
      Optional("address_event_counts"),
      Optional("malformed_messages"),
      ExtraValues])))
  const BlockAst := SkipSerializingNone(BlockDecl)

  const BlockPreambleDecl := DeriveInput("BlockPreamble", [], Struct(Named([
      Optional("earliest_time"),
      Optional("block_parameters_index"),
      ExtraValues])))
  const BlockPreambleAst := SkipSerializingNone(BlockPreambleDecl)

  const BlockStatisticsDecl := DeriveInput("BlockStatistics", [NoLength], Struct(Named([
      Optional("processed_messages"),
      Optional("qr_data_items"),
      Optional("unmatched_queries"),
      Optional("unmatched_responses"),
      Optional("discarded_opcode"),
      Optional("malformed_items"),
      ExtraValues])))
  const BlockStatisticsAst := SkipSerializingNone(BlockStatisticsDecl)

  const BlockTablesDecl := DeriveInput("BlockTables", [NoLength], Struct(Named([
      Optional("ip_address"),
      Optional("classtype"),
      Optional("name_rdata"),
      Optional("qr_sig"),
      Optional("qlist"),
      Optional("qrr"),
      Optional("rrlist"),
      Optional("rr"),
      Optional("malformed_message_data"),
      ExtraValues])))
  const BlockTablesAst := SkipSerializingNone(BlockTablesDecl)

  const ClassTypeDecl := DeriveInput("ClassType", [], Struct(Named([
      Plain("type_"),
      Plain("class")])))
  const ClassTypeAst := ClassTypeDecl

  const QueryResponseSignatureDecl := DeriveInput("QueryResponseSignature", [], Struct(Named([
      Optional("server_address_index"),
      Optional("server_port"),
      Optional("qr_transport_flags"),
      Optional("qr_type"),
      Optional("qr_sig_flags"),
      Optional("query_opcode"),
      Optional("qr_dns_flags"),
      Optional("query_rcode"),
      Optional("query_classtype_index"),
      Optional("query_qdcount"),
      Optional("query_ancount"),
      Optional("query_nscount"),
      Optional("query_arcount"),
      Optional("query_edns_version"),
      Optional("query_udp_size"),
      Optional("query_opt_rdata_index"),
      Optional("response_rcode"),
      ExtraValues])))
  const QueryResponseSignatureAst := SkipSerializingNone(QueryResponseSignatureDecl)

  const QuestionDecl := DeriveInput("Question", [NoLength], Struct(Named([
      Plain("name_index"),
      Plain("classtype_index")])))
  const QuestionAst := QuestionDecl

  const RRDecl := DeriveInput("RR", [], Struct(Named([
      Plain("name_index"),
      Plain("classtype_index"),
      Optional("ttl"),
      Optional("rdata_index")])))
  const RRAst := SkipSerializingNone(RRDecl)

  const MalformedMessageDataDecl := DeriveInput("MalformedMessageData", [NoLength], Struct(Named([
      Optional("server_address_index"),
      Optional("server_port"),
      Optional("mm_transport_flags"),
      Optional("mm_payload"),
      ExtraValues])))
  const MalformedMessageDataAst := SkipSerializingNone(MalformedMessageDataDecl)

  const QueryResponseDecl := DeriveInput("QueryResponse", [NoLength], Struct(Named([
      Optional("time_offset"),
      Optional("client_address_index"),
      Optional("client_port"),
      Optional("transaction_id"),
      Optional("qr_signature_index"),
      Optional("client_hoplimit"),
      Optional("response_delay"),
      Optional("query_name_index"),
      Optional("query_size"),
      Optional("response_size"),
      Optional("response_processing_data"),
      Optional("query_extended"),
      Optional("response_extended"),
      ExtraValues])))
  const QueryResponseAst := SkipSerializingNone(QueryResponseDecl)

  const ResponseProcessingDataDecl := DeriveInput("ResponseProcessingData", [NoLength], Struct(Named([
      Optional("bailiwick_index"),
      Optional("processing_flags"),
      ExtraValues])))
  const ResponseProcessingDataAst := SkipSerializingNone(ResponseProcessingDataDecl)

  const QueryResponseExtendedDecl := DeriveInput("QueryResponseExtended", [NoLength], Struct(Named([
      Optional("question_index"),
      Optional("answer_index"),
      Optional("authority_index"),
      Optional("additional_index"),
      ExtraValues])))
  const QueryResponseExtendedAst := SkipSerializingNone(QueryResponseExtendedDecl)

  const AddressEventCountDecl := DeriveInput("AddressEventCount", [], Struct(Named([
      Plain("ae_type"),
      Optional("ae_code"),
      Plain("ae_address_index"),
      Optional("ae_transport_flags"),
      Plain("ae_count"),
      ExtraValues])))
  const AddressEventCountAst := SkipSerializingNone(AddressEventCountDecl)

  const MalformedMessageDecl := DeriveInput("MalformedMessage", [NoLength], Struct(Named([
      Optional("time_offset"),
      Optional("client_address_index"),
      Optional("client_port"),
      Optional("message_data_index"),
      ExtraValues])))
  const MalformedMessageAst := SkipSerializingNone(MalformedMessageDecl)


  // Each of the nineteen indexed records has the conventional shape.

  lemma FilePreambleIsRecord()
    ensures Record(FilePreambleAst)
  {
    assert Declared(FilePreambleDecl);
    DeclaredIsRecord(FilePreambleDecl);
  }

  lemma BlockParametersIsRecord()
    ensures Record(BlockParametersAst)
  {
    assert Declared(BlockParametersDecl);
    DeclaredIsRecord(BlockParametersDecl);
  }

  lemma StorageParametersIsRecord()
    ensures Record(StorageParametersAst)
  {
    assert Declared(StorageParametersDecl);
    DeclaredIsRecord(StorageParametersDecl);
  }

  lemma StorageHintsIsRecord()
    ensures Record(StorageHintsAst)
  {
    assert Declared(StorageHintsDecl);
    DeclaredIsRecord(StorageHintsDecl);
  }

  lemma CollectionParametersIsRecord()
    ensures Record(CollectionParametersAst)
  {
    assert Declared(CollectionParametersDecl);
    DeclaredIsRecord(CollectionParametersDecl);
  }

  lemma BlockIsRecord()
    ensures Record(BlockAst)
  {
    assert Declared(BlockDecl);
    DeclaredIsRecord(BlockDecl);
  }

  lemma BlockPreambleIsRecord()
    ensures Record(BlockPreambleAst)
  {
    assert Declared(BlockPreambleDecl);
    DeclaredIsRecord(BlockPreambleDecl);
  }

  lemma BlockStatisticsIsRecord()
    ensures Record(BlockStatisticsAst)
  {
    assert Declared(BlockStatisticsDecl);
    DeclaredIsRecord(BlockStatisticsDecl);
  }

  lemma BlockTablesIsRecord()
    ensures Record(BlockTablesAst)
  {
    assert Declared(BlockTablesDecl);
    DeclaredIsRecord(BlockTablesDecl);
  }

  lemma ClassTypeIsRecord()
    ensures Record(ClassTypeAst)
  {
    assert Declared(ClassTypeDecl);
    DeclaredIsRecord(ClassTypeDecl);
  }

  lemma QueryResponseSignatureIsRecord()
    ensures Record(QueryResponseSignatureAst)
  {
    assert Declared(QueryResponseSignatureDecl);
    DeclaredIsRecord(QueryResponseSignatureDecl);
  }

  lemma QuestionIsRecord()
    ensures Record(QuestionAst)
  {
    assert Declared(QuestionDecl);
    DeclaredIsRecord(QuestionDecl);
  }

  lemma RRIsRecord()
    ensures Record(RRAst)
  {
    assert Declared(RRDecl);
    DeclaredIsRecord(RRDecl);
  }

  lemma MalformedMessageDataIsRecord()
    ensures Record(MalformedMessageDataAst)
  {
    assert Declared(MalformedMessageDataDecl);
    DeclaredIsRecord(MalformedMessageDataDecl);
  }

  lemma QueryResponseIsRecord()
    ensures Record(QueryResponseAst)
  {
    assert Declared(QueryResponseDecl);
    DeclaredIsRecord(QueryResponseDecl);
  }

  lemma ResponseProcessingDataIsRecord()
    ensures Record(ResponseProcessingDataAst)
  {
    assert Declared(ResponseProcessingDataDecl);
    DeclaredIsRecord(ResponseProcessingDataDecl);
  }

  lemma QueryResponseExtendedIsRecord()
    ensures Record(QueryResponseExtendedAst)
  {
    assert Declared(QueryResponseExtendedDecl);
    DeclaredIsRecord(QueryResponseExtendedDecl);
  }

  lemma AddressEventCountIsRecord()
    ensures Record(AddressEventCountAst)
  {
    assert Declared(AddressEventCountDecl);
    DeclaredIsRecord(AddressEventCountDecl);
  }

  lemma MalformedMessageIsRecord()
    ensures Record(MalformedMessageAst)
  {
    assert Declared(MalformedMessageDecl);
    DeclaredIsRecord(MalformedMessageDecl);
  }

  // ---------------------------------------------------------------------------
  // Keys of section 7.3 of RFC 8618
  // ---------------------------------------------------------------------------

  function FieldNames(fields: seq<Field>): (r: seq<string>)
    ensures |r| == |fields|
    ensures forall k :: 0 <= k < |fields| ==> r[k] == fields[k].name
  {
    seq(|fields|, k requires 0 <= k < |fields| => fields[k].name)
  }

  /** `BlockTables` (section 7.3.2.2 of RFC 8618): keys 0 to 8 are
      ip-address, classtype, name-rdata, qr-sig, qlist, qrr, rrlist, rr and
      malformed-message-data; the tenth field collects the extras. */
  lemma BlockTablesKeys()
    ensures ParseInput(BlockTablesAst) == Success(LayoutOf(BlockTablesAst))
    ensures |LayoutOf(BlockTablesAst).fields| == 10
    ensures LayoutOf(BlockTablesAst).attrs == StructAttrs(0, false)
    ensures forall k :: 0 <= k < 9 ==> MatchField(LayoutOf(BlockTablesAst).fields, 0, k) == Some(k)
    ensures LayoutOf(BlockTablesAst).fields[9].collectExtras
  {
    BlockTablesIsRecord();
    RecordParses(BlockTablesAst);
    forall k | 0 <= k < 9
      ensures MatchField(LayoutOf(BlockTablesAst).fields, 0, k) == Some(k)
    {
      KeyIsPosition(BlockTablesAst, k);
    }
  }

  /** The names of the fields under keys 0 to 8 of `BlockTables`, in key order. */
  lemma BlockTablesNames()
    ensures FieldNames(LayoutOf(BlockTablesAst).fields[..9]) ==
              ["ip_address", "classtype", "name_rdata", "qr_sig", "qlist", "qrr", "rrlist", "rr",
               "malformed_message_data"]
  {
  }

  /** `QueryResponse` (section 7.3.2.4 of RFC 8618): keys 0 to 12 are
      time-offset through response-extended; the fourteenth field collects
      the extras. */
  lemma QueryResponseKeys()
    ensures ParseInput(QueryResponseAst) == Success(LayoutOf(QueryResponseAst))
    ensures |LayoutOf(QueryResponseAst).fields| == 14
    ensures LayoutOf(QueryResponseAst).attrs == StructAttrs(0, false)
    ensures forall k :: 0 <= k < 13 ==> MatchField(LayoutOf(QueryResponseAst).fields, 0, k) == Some(k)
    ensures LayoutOf(QueryResponseAst).fields[13].collectExtras
  {
    QueryResponseIsRecord();
    RecordParses(QueryResponseAst);
    forall k | 0 <= k < 13
      ensures MatchField(LayoutOf(QueryResponseAst).fields, 0, k) == Some(k)
    {
      KeyIsPosition(QueryResponseAst, k);
    }
  }

  /** The names of the fields under keys 0 to 12 of `QueryResponse`, in key order. */
  lemma QueryResponseNames()
    ensures FieldNames(LayoutOf(QueryResponseAst).fields[..13]) ==
              ["time_offset", "client_address_index", "client_port", "transaction_id",
               "qr_signature_index", "client_hoplimit", "response_delay", "query_name_index",
               "query_size", "response_size", "response_processing_data", "query_extended",
               "response_extended"]
  {
  }

  /** `FilePreamble` (section 7.3.1 of RFC 8618): every entry that
      deserializing puts into `extra_values`, the fifth field, has a negative
      key. */
  lemma FilePreambleExtrasAreNegative(entries: seq<Entry>)
    ensures WellFormedLayout(LayoutOf(FilePreambleAst).fields)
    ensures |LayoutOf(FilePreambleAst).fields| == 5 && LayoutOf(FilePreambleAst).fields[4].collectExtras
    ensures var r := Deserialize(LayoutOf(FilePreambleAst), entries);
            r.Success? ==> && r.value[4].ExtrasMap?
                           && forall i :: 0 <= i < |r.value[4].entries| ==> r.value[4].entries[i].0 < 0
  {
    FilePreambleIsRecord();
    RecordParses(FilePreambleAst);
  }
}
