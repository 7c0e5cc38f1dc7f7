/** The flag enumerations of the C-DNS records. Each variant's explicit
    discriminant is its bit position in the `EnumSet` mask the record
    stores; every enumeration is dense from bit 0. */
module FlagEnums {
  import opened FlagSets

  // ---------------------------------------------------------------------------
  // StorageFlags: bits 0-2, stored in `StorageParameters.storage_flags`
  // ---------------------------------------------------------------------------
  datatype StorageFlags =
    | AnonymizedData
    | SampledData
    | NormalizedNames

  const StorageFlagsCount := 3

  const AllStorageFlags: set<StorageFlags> := set p | 0 <= p < StorageFlagsCount :: StorageFlagsAt(p)

  /** The discriminant of each variant, its bit position. */
  function StorageFlagsBit(f: StorageFlags): nat {
    match f
    case AnonymizedData => 0
    case SampledData => 1
    case NormalizedNames => 2
  }

  /** The variant at a bit position below 3 (the last one for any
      larger position). */
  function StorageFlagsAt(p: nat): StorageFlags {
    match p
    case 0 => AnonymizedData
    case 1 => SampledData
    case _ => NormalizedNames
  }

  /** Positions 0 to 2, one per variant. */
  lemma StorageFlagsDense()
    ensures Dense(AllStorageFlags, StorageFlagsBit, StorageFlagsAt, StorageFlagsCount)
  {
    forall f: StorageFlags
      ensures f in AllStorageFlags && StorageFlagsBit(f) < StorageFlagsCount && StorageFlagsAt(StorageFlagsBit(f)) == f
    {
      assert StorageFlagsAt(StorageFlagsBit(f)) == f;
    }
    forall p | 0 <= p < StorageFlagsCount
      ensures StorageFlagsBit(StorageFlagsAt(p)) == p
    {
    }
  }

  /** set -> mask -> set is the identity, every mask is below 2^3, and
      mask -> set -> mask is the identity on those masks. */
  lemma StorageFlagsCodec(s: set<StorageFlags>, m: nat)
    ensures DecodeSet(EncodeSet(s, StorageFlagsBit, StorageFlagsCount), AllStorageFlags, StorageFlagsBit, StorageFlagsCount) == s
    ensures EncodeSet(s, StorageFlagsBit, StorageFlagsCount) < Pow2(StorageFlagsCount)
    ensures m < Pow2(StorageFlagsCount) ==>
              EncodeSet(DecodeSet(m, AllStorageFlags, StorageFlagsBit, StorageFlagsCount), StorageFlagsBit, StorageFlagsCount) == m
  {
    StorageFlagsDense();
    EncodeThenDecode(s, AllStorageFlags, StorageFlagsBit, StorageFlagsAt, StorageFlagsCount);
    if m < Pow2(StorageFlagsCount) {
      DecodeThenEncode(m, AllStorageFlags, StorageFlagsBit, StorageFlagsAt, StorageFlagsCount);
    }
  }

  // ---------------------------------------------------------------------------
  // QueryResponseHints: bits 0-17, stored in `StorageHints.query_response_hints`
  // ---------------------------------------------------------------------------
  datatype QueryResponseHints =
    | TimeOffset
    | ClientAddressIndex
    | ClientPort
    | TransactionId
    | QrSignatureIndex
    | ClientHoplimit
    | ResponseDelay
    | QueryNameIndex
    | QuerySize
    | ResponseSize
    | ResponseProcessingData
    | QueryQuestionSections
    | QueryAnswerSections
    | QueryAuthoritySections
    | QueryAdditionalSections
    | ResponseAnswerSections
    | ResponseAuthoritySections
    | ResponseAdditionalSections

  const QueryResponseHintsCount := 18

  const AllQueryResponseHints: set<QueryResponseHints> := set p | 0 <= p < QueryResponseHintsCount :: QueryResponseHintsAt(p)

  /** The discriminant of each variant, its bit position. */
  function QueryResponseHintsBit(f: QueryResponseHints): nat {
    match f
    case TimeOffset => 0
    case ClientAddressIndex => 1
    case ClientPort => 2
    case TransactionId => 3
    case QrSignatureIndex => 4
    case ClientHoplimit => 5
    case ResponseDelay => 6
    case QueryNameIndex => 7
    case QuerySize => 8
    case ResponseSize => 9
    case ResponseProcessingData => 10
    case QueryQuestionSections => 11
    case QueryAnswerSections => 12
    case QueryAuthoritySections => 13
    case QueryAdditionalSections => 14
    case ResponseAnswerSections => 15
    case ResponseAuthoritySections => 16
    case ResponseAdditionalSections => 17
  }

  /** The variant at a bit position below 18 (the last one for any
      larger position). */
  function QueryResponseHintsAt(p: nat): QueryResponseHints {
    match p
    case 0 => TimeOffset
    case 1 => ClientAddressIndex
    case 2 => ClientPort
    case 3 => TransactionId
    case 4 => QrSignatureIndex
    case 5 => ClientHoplimit
    case 6 => ResponseDelay
    case 7 => QueryNameIndex
    case 8 => QuerySize
    case 9 => ResponseSize
    case 10 => ResponseProcessingData
    case 11 => QueryQuestionSections
    case 12 => QueryAnswerSections
    case 13 => QueryAuthoritySections
    case 14 => QueryAdditionalSections
    case 15 => ResponseAnswerSections
    case 16 => ResponseAuthoritySections
    case _ => ResponseAdditionalSections
  }

  /** Positions 0 to 17, one per variant. */
  lemma QueryResponseHintsDense()
    ensures Dense(AllQueryResponseHints, QueryResponseHintsBit, QueryResponseHintsAt, QueryResponseHintsCount)
  {
    forall f: QueryResponseHints
      ensures f in AllQueryResponseHints && QueryResponseHintsBit(f) < QueryResponseHintsCount && QueryResponseHintsAt(QueryResponseHintsBit(f)) == f
    {
      assert QueryResponseHintsAt(QueryResponseHintsBit(f)) == f;
    }
    forall p | 0 <= p < QueryResponseHintsCount
      ensures QueryResponseHintsBit(QueryResponseHintsAt(p)) == p
    {
    }
  }

  /** set -> mask -> set is the identity, every mask is below 2^18, and
      mask -> set -> mask is the identity on those masks. */
  lemma QueryResponseHintsCodec(s: set<QueryResponseHints>, m: nat)
    ensures DecodeSet(EncodeSet(s, QueryResponseHintsBit, QueryResponseHintsCount), AllQueryResponseHints, QueryResponseHintsBit, QueryResponseHintsCount) == s
    ensures EncodeSet(s, QueryResponseHintsBit, QueryResponseHintsCount) < Pow2(QueryResponseHintsCount)
    ensures m < Pow2(QueryResponseHintsCount) ==>
              EncodeSet(DecodeSet(m, AllQueryResponseHints, QueryResponseHintsBit, QueryResponseHintsCount), QueryResponseHintsBit, QueryResponseHintsCount) == m
  {
    QueryResponseHintsDense();
    EncodeThenDecode(s, AllQueryResponseHints, QueryResponseHintsBit, QueryResponseHintsAt, QueryResponseHintsCount);
    if m < Pow2(QueryResponseHintsCount) {
      DecodeThenEncode(m, AllQueryResponseHints, QueryResponseHintsBit, QueryResponseHintsAt, QueryResponseHintsCount);
    }
  }

  // ---------------------------------------------------------------------------
  // QueryResponseSignatureHints: bits 0-16, stored in `StorageHints.query_response_signature_hints`
  // ---------------------------------------------------------------------------
  datatype QueryResponseSignatureHints =
    | ServerAddressIndex
    | ServerPort
    | QrTransportFlags
    | QrType
    | QrSigFlags
    | QueryOpcode
    | QrDnsFlags
    | QueryRcode
    | QueryClasstypeIndex
    | QueryQdcount
    | QueryAncount
    | QueryNscount
    | QueryArcount
    | QueryEdnsVersion
    | QueryUdpSize
    | QueryOptRdataIndex
    | ResponseRcode

  const QueryResponseSignatureHintsCount := 17

  const AllQueryResponseSignatureHints: set<QueryResponseSignatureHints> := set p | 0 <= p < QueryResponseSignatureHintsCount :: QueryResponseSignatureHintsAt(p)

  /** The discriminant of each variant, its bit position. */
  function QueryResponseSignatureHintsBit(f: QueryResponseSignatureHints): nat {
    match f
    case ServerAddressIndex => 0
    case ServerPort => 1
    case QrTransportFlags => 2
    case QrType => 3
    case QrSigFlags => 4
    case QueryOpcode => 5
    case QrDnsFlags => 6
    case QueryRcode => 7
    case QueryClasstypeIndex => 8
    case QueryQdcount => 9
    case QueryAncount => 10
    case QueryNscount => 11
    case QueryArcount => 12
    case QueryEdnsVersion => 13
    case QueryUdpSize => 14
    case QueryOptRdataIndex => 15
    case ResponseRcode => 16
  }

  /** The variant at a bit position below 17 (the last one for any
      larger position). */
  function QueryResponseSignatureHintsAt(p: nat): QueryResponseSignatureHints {
    match p
    case 0 => ServerAddressIndex
    case 1 => ServerPort
    case 2 => QrTransportFlags
    case 3 => QrType
    case 4 => QrSigFlags
    case 5 => QueryOpcode
    case 6 => QrDnsFlags
    case 7 => QueryRcode
    case 8 => QueryClasstypeIndex
    case 9 => QueryQdcount
    case 10 => QueryAncount
    case 11 => QueryNscount
    case 12 => QueryArcount
    case 13 => QueryEdnsVersion
    case 14 => QueryUdpSize
    case 15 => QueryOptRdataIndex
    case _ => ResponseRcode
  }

  /** Positions 0 to 16, one per variant. */
  lemma QueryResponseSignatureHintsDense()
    ensures Dense(AllQueryResponseSignatureHints, QueryResponseSignatureHintsBit, QueryResponseSignatureHintsAt, QueryResponseSignatureHintsCount)
  {
    forall f: QueryResponseSignatureHints
      ensures f in AllQueryResponseSignatureHints && QueryResponseSignatureHintsBit(f) < QueryResponseSignatureHintsCount && QueryResponseSignatureHintsAt(QueryResponseSignatureHintsBit(f)) == f
    {
      assert QueryResponseSignatureHintsAt(QueryResponseSignatureHintsBit(f)) == f;
    }
    forall p | 0 <= p < QueryResponseSignatureHintsCount
      ensures QueryResponseSignatureHintsBit(QueryResponseSignatureHintsAt(p)) == p
    {
    }
  }

  /** set -> mask -> set is the identity, every mask is below 2^17, and
      mask -> set -> mask is the identity on those masks. */
  lemma QueryResponseSignatureHintsCodec(s: set<QueryResponseSignatureHints>, m: nat)
    ensures DecodeSet(EncodeSet(s, QueryResponseSignatureHintsBit, QueryResponseSignatureHintsCount), AllQueryResponseSignatureHints, QueryResponseSignatureHintsBit, QueryResponseSignatureHintsCount) == s
    ensures EncodeSet(s, QueryResponseSignatureHintsBit, QueryResponseSignatureHintsCount) < Pow2(QueryResponseSignatureHintsCount)
    ensures m < Pow2(QueryResponseSignatureHintsCount) ==>
              EncodeSet(DecodeSet(m, AllQueryResponseSignatureHints, QueryResponseSignatureHintsBit, QueryResponseSignatureHintsCount), QueryResponseSignatureHintsBit, QueryResponseSignatureHintsCount) == m
  {
    QueryResponseSignatureHintsDense();
    EncodeThenDecode(s, AllQueryResponseSignatureHints, QueryResponseSignatureHintsBit, QueryResponseSignatureHintsAt, QueryResponseSignatureHintsCount);
    if m < Pow2(QueryResponseSignatureHintsCount) {
      DecodeThenEncode(m, AllQueryResponseSignatureHints, QueryResponseSignatureHintsBit, QueryResponseSignatureHintsAt, QueryResponseSignatureHintsCount);
    }
  }

  // ---------------------------------------------------------------------------
  // RRHint: bits 0-1, stored in `StorageHints.rr_hints`
  // ---------------------------------------------------------------------------
  datatype RRHint =
    | Ttl
    | RdataIndex

  const RRHintCount := 2

  const AllRRHint: set<RRHint> := set p | 0 <= p < RRHintCount :: RRHintAt(p)

  /** The discriminant of each variant, its bit position. */
  function RRHintBit(f: RRHint): nat {
    match f
    case Ttl => 0
    case RdataIndex => 1
  }

  /** The variant at a bit position below 2 (the last one for any
      larger position). */
  function RRHintAt(p: nat): RRHint {
    match p
    case 0 => Ttl
    case _ => RdataIndex
  }

  /** Positions 0 to 1, one per variant. */
  lemma RRHintDense()
    ensures Dense(AllRRHint, RRHintBit, RRHintAt, RRHintCount)
  {
    forall f: RRHint
      ensures f in AllRRHint && RRHintBit(f) < RRHintCount && RRHintAt(RRHintBit(f)) == f
    {
      assert RRHintAt(RRHintBit(f)) == f;
    }
    forall p | 0 <= p < RRHintCount
      ensures RRHintBit(RRHintAt(p)) == p
    {
    }
  }

  /** set -> mask -> set is the identity, every mask is below 2^2, and
      mask -> set -> mask is the identity on those masks. */
  lemma RRHintCodec(s: set<RRHint>, m: nat)
    ensures DecodeSet(EncodeSet(s, RRHintBit, RRHintCount), AllRRHint, RRHintBit, RRHintCount) == s
    ensures EncodeSet(s, RRHintBit, RRHintCount) < Pow2(RRHintCount)
    ensures m < Pow2(RRHintCount) ==>
              EncodeSet(DecodeSet(m, AllRRHint, RRHintBit, RRHintCount), RRHintBit, RRHintCount) == m
  {
    RRHintDense();
    EncodeThenDecode(s, AllRRHint, RRHintBit, RRHintAt, RRHintCount);
    if m < Pow2(RRHintCount) {
      DecodeThenEncode(m, AllRRHint, RRHintBit, RRHintAt, RRHintCount);
    }
  }

  // ---------------------------------------------------------------------------
  // OtherDataHints: bits 0-1, stored in `StorageHints.other_data_hints`
  // ---------------------------------------------------------------------------
  datatype OtherDataHints =
    | MalformedMessages
    | AddressEventCounts

  const OtherDataHintsCount := 2

  const AllOtherDataHints: set<OtherDataHints> := set p | 0 <= p < OtherDataHintsCount :: OtherDataHintsAt(p)

  /** The discriminant of each variant, its bit position. */
  function OtherDataHintsBit(f: OtherDataHints): nat {
    match f
    case MalformedMessages => 0
    case AddressEventCounts => 1
  }

  /** The variant at a bit position below 2 (the last one for any
      larger position). */
  function OtherDataHintsAt(p: nat): OtherDataHints {
    match p
    case 0 => MalformedMessages
    case _ => AddressEventCounts
  }

  /** Positions 0 to 1, one per variant. */
  lemma OtherDataHintsDense()
    ensures Dense(AllOtherDataHints, OtherDataHintsBit, OtherDataHintsAt, OtherDataHintsCount)
  {
    forall f: OtherDataHints
      ensures f in AllOtherDataHints && OtherDataHintsBit(f) < OtherDataHintsCount && OtherDataHintsAt(OtherDataHintsBit(f)) == f
    {
      assert OtherDataHintsAt(OtherDataHintsBit(f)) == f;
    }
    forall p | 0 <= p < OtherDataHintsCount
      ensures OtherDataHintsBit(OtherDataHintsAt(p)) == p
    {
    }
  }

  /** set -> mask -> set is the identity, every mask is below 2^2, and
      mask -> set -> mask is the identity on those masks. */
  lemma OtherDataHintsCodec(s: set<OtherDataHints>, m: nat)
    ensures DecodeSet(EncodeSet(s, OtherDataHintsBit, OtherDataHintsCount), AllOtherDataHints, OtherDataHintsBit, OtherDataHintsCount) == s
    ensures EncodeSet(s, OtherDataHintsBit, OtherDataHintsCount) < Pow2(OtherDataHintsCount)
    ensures m < Pow2(OtherDataHintsCount) ==>
              EncodeSet(DecodeSet(m, AllOtherDataHints, OtherDataHintsBit, OtherDataHintsCount), OtherDataHintsBit, OtherDataHintsCount) == m
  {
    OtherDataHintsDense();
    EncodeThenDecode(s, AllOtherDataHints, OtherDataHintsBit, OtherDataHintsAt, OtherDataHintsCount);
    if m < Pow2(OtherDataHintsCount) {
      DecodeThenEncode(m, AllOtherDataHints, OtherDataHintsBit, OtherDataHintsAt, OtherDataHintsCount);
    }
  }

  // ---------------------------------------------------------------------------
  // QueryResponseFlags: bits 0-5, stored in `QueryResponseSignature.qr_sig_flags`
  // ---------------------------------------------------------------------------
  datatype QueryResponseFlags =
    | HasQuery
    | HasResponse
    | QueryHasOpt
    | ResponseHasOpt
    | QueryHasNoQuestion
    | ResponseHasNoQuestion

  const QueryResponseFlagsCount := 6

  const AllQueryResponseFlags: set<QueryResponseFlags> := set p | 0 <= p < QueryResponseFlagsCount :: QueryResponseFlagsAt(p)

  /** The discriminant of each variant, its bit position. */
  function QueryResponseFlagsBit(f: QueryResponseFlags): nat {
    match f
    case HasQuery => 0
    case HasResponse => 1
    case QueryHasOpt => 2
    case ResponseHasOpt => 3
    case QueryHasNoQuestion => 4
    case ResponseHasNoQuestion => 5
  }

  /** The variant at a bit position below 6 (the last one for any
      larger position). */
  function QueryResponseFlagsAt(p: nat): QueryResponseFlags {
    match p
    case 0 => HasQuery
    case 1 => HasResponse
    case 2 => QueryHasOpt
    case 3 => ResponseHasOpt
    case 4 => QueryHasNoQuestion
    case _ => ResponseHasNoQuestion
  }

  /** Positions 0 to 5, one per variant. */
  lemma QueryResponseFlagsDense()
    ensures Dense(AllQueryResponseFlags, QueryResponseFlagsBit, QueryResponseFlagsAt, QueryResponseFlagsCount)
  {
    forall f: QueryResponseFlags
      ensures f in AllQueryResponseFlags && QueryResponseFlagsBit(f) < QueryResponseFlagsCount && QueryResponseFlagsAt(QueryResponseFlagsBit(f)) == f
    {
      assert QueryResponseFlagsAt(QueryResponseFlagsBit(f)) == f;
    }
    forall p | 0 <= p < QueryResponseFlagsCount
      ensures QueryResponseFlagsBit(QueryResponseFlagsAt(p)) == p
    {
    }
  }

  /** set -> mask -> set is the identity, every mask is below 2^6, and
      mask -> set -> mask is the identity on those masks. */
  lemma QueryResponseFlagsCodec(s: set<QueryResponseFlags>, m: nat)
    ensures DecodeSet(EncodeSet(s, QueryResponseFlagsBit, QueryResponseFlagsCount), AllQueryResponseFlags, QueryResponseFlagsBit, QueryResponseFlagsCount) == s
    ensures EncodeSet(s, QueryResponseFlagsBit, QueryResponseFlagsCount) < Pow2(QueryResponseFlagsCount)
    ensures m < Pow2(QueryResponseFlagsCount) ==>
              EncodeSet(DecodeSet(m, AllQueryResponseFlags, QueryResponseFlagsBit, QueryResponseFlagsCount), QueryResponseFlagsBit, QueryResponseFlagsCount) == m
  {
    QueryResponseFlagsDense();
    EncodeThenDecode(s, AllQueryResponseFlags, QueryResponseFlagsBit, QueryResponseFlagsAt, QueryResponseFlagsCount);
    if m < Pow2(QueryResponseFlagsCount) {
      DecodeThenEncode(m, AllQueryResponseFlags, QueryResponseFlagsBit, QueryResponseFlagsAt, QueryResponseFlagsCount);
    }
  }

  // ---------------------------------------------------------------------------
  // DNSFlags: bits 0-14, stored in `QueryResponseSignature.qr_dns_flags`
  // ---------------------------------------------------------------------------
  /** Bit 13 is the response's TrunCation flag; the variant keeps its
      declared name `ResponseRc`. */
  datatype DNSFlags =
    | QueryCd
    | QueryAd
    | QueryZ
    | QueryRa
    | QueryRd
    | QueryTc
    | QueryAa
    | QueryDo
    | ResponseCd
    | ResponseAd
    | ResponseZ
    | ResponseRa
    | ResponseRd
    | ResponseRc
    | ResponseAa

  const DNSFlagsCount := 15

  const AllDNSFlags: set<DNSFlags> := set p | 0 <= p < DNSFlagsCount :: DNSFlagsAt(p)

  /** The discriminant of each variant, its bit position. */
  function DNSFlagsBit(f: DNSFlags): nat {
    match f
    case QueryCd => 0
    case QueryAd => 1
    case QueryZ => 2
    case QueryRa => 3
    case QueryRd => 4
    case QueryTc => 5
    case QueryAa => 6
    case QueryDo => 7
    case ResponseCd => 8
    case ResponseAd => 9
    case ResponseZ => 10
    case ResponseRa => 11
    case ResponseRd => 12
    case ResponseRc => 13
    case ResponseAa => 14
  }

  /** The variant at a bit position below 15 (the last one for any
      larger position). */
  function DNSFlagsAt(p: nat): DNSFlags {
    match p
    case 0 => QueryCd
    case 1 => QueryAd
    case 2 => QueryZ
    case 3 => QueryRa
    case 4 => QueryRd
    case 5 => QueryTc
    case 6 => QueryAa
    case 7 => QueryDo
    case 8 => ResponseCd
    case 9 => ResponseAd
    case 10 => ResponseZ
    case 11 => ResponseRa
    case 12 => ResponseRd
    case 13 => ResponseRc
    case _ => ResponseAa
  }

  /** Positions 0 to 14, one per variant. */
  lemma DNSFlagsDense()
    ensures Dense(AllDNSFlags, DNSFlagsBit, DNSFlagsAt, DNSFlagsCount)
  {
    forall f: DNSFlags
      ensures f in AllDNSFlags && DNSFlagsBit(f) < DNSFlagsCount && DNSFlagsAt(DNSFlagsBit(f)) == f
    {
      assert DNSFlagsAt(DNSFlagsBit(f)) == f;
    }
    forall p | 0 <= p < DNSFlagsCount
      ensures DNSFlagsBit(DNSFlagsAt(p)) == p
    {
    }
  }

  /** set -> mask -> set is the identity, every mask is below 2^15, and
      mask -> set -> mask is the identity on those masks. */
  lemma DNSFlagsCodec(s: set<DNSFlags>, m: nat)
    ensures DecodeSet(EncodeSet(s, DNSFlagsBit, DNSFlagsCount), AllDNSFlags, DNSFlagsBit, DNSFlagsCount) == s
    ensures EncodeSet(s, DNSFlagsBit, DNSFlagsCount) < Pow2(DNSFlagsCount)
    ensures m < Pow2(DNSFlagsCount) ==>
              EncodeSet(DecodeSet(m, AllDNSFlags, DNSFlagsBit, DNSFlagsCount), DNSFlagsBit, DNSFlagsCount) == m
  {
    DNSFlagsDense();
    EncodeThenDecode(s, AllDNSFlags, DNSFlagsBit, DNSFlagsAt, DNSFlagsCount);
    if m < Pow2(DNSFlagsCount) {
      DecodeThenEncode(m, AllDNSFlags, DNSFlagsBit, DNSFlagsAt, DNSFlagsCount);
    }
  }
}
