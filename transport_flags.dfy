/** `TransportFlags`, the bit flags describing the transport of a Q/R item
    (section 7.3.2.3.2 of RFC 8618): bit 0 is the IP version (0 IPv4,
    1 IPv6), bits 1-4 a 4-bit transport code, bit 5 set when the query
    packet had trailing bytes. The result type is the crate's `Transport`. */
module TransportFlags {

  /** `Transport` with its discriminants: UDP 0, TCP 1, TLS 2, DTLS 3,
      HTTPS 4, Reserved 5, NonStandard 15. */
  datatype Transport = Udp | Tcp | Tls | Dtls | Https | Reserved | NonStandard

  function Discriminant(t: Transport): (code: nat)
    ensures code < 16
  {
    match t
    case Udp => 0
    case Tcp => 1
    case Tls => 2
    case Dtls => 3
    case Https => 4
    case Reserved => 5
    case NonStandard => 15
  }

  /** The `match` of `transport_protocol`: codes 0-4 and 15 name their
      transport, every other code is `Reserved`. */
  function TransportFromCode(code: nat): (t: Transport)
    ensures t == Reserved <==> code != 15 && code > 4
  {
    match code
    case 0 => Udp
    case 1 => Tcp
    case 2 => Tls
    case 3 => Dtls
    case 4 => Https
    case 15 => NonStandard
    case _ => Reserved
  }

  /** The 8-bit flags word. */
  datatype Flags = Flags(bits: bv8)

  /** `is_ipv4`: bit 0 clear. */
  predicate IsIpv4(f: Flags) {
    f.bits & 0x01 == 0
  }

  /** `is_ipv6`: the negation of `is_ipv4`. */
  predicate IsIpv6(f: Flags) {
    !IsIpv4(f)
  }

  /** `has_trailing_data`: bit 5 set. */
  predicate HasTrailingData(f: Flags) {
    f.bits & 0x20 != 0
  }

  /** The 4-bit transport code stored in bits 1-4. */
  function TransportCode(f: Flags): (code: nat)
    ensures code < 16
  {
    ((f.bits >> 1) & 0x0F) as nat
  }

  /** `transport_protocol` as the source computes it: the masked bits 1-4 are
      shifted right by 3 rather than 1, so only the top two bits of the code
      reach the `match`. */
  function TransportProtocolAsWritten(f: Flags): (t: Transport)
    ensures t == TransportFromCode(TransportCode(f) / 4)
    ensures t in {Udp, Tcp, Tls, Dtls}
  {
    TransportFromCode(((f.bits & 0x1E) >> 3) as nat)
  }

  /** `transport_protocol` as its documentation describes it: the code in
      bits 1-4. */
  function TransportProtocol(f: Flags): (t: Transport) {
    TransportFromCode(((f.bits & 0x1E) >> 1) as nat)
  }

  /** The flags word for an IP version, a transport and the trailing-data
      bit, laid out as the format prescribes. */
  function Compose(ipv6: bool, t: Transport, trailing: bool): (f: Flags)
    ensures f.bits < 64
  {
    Flags((if ipv6 then 0x01 else 0x00)
          | ((Discriminant(t) as bv8) << 1)
          | (if trailing then 0x20 else 0x00))
  }

  /** Every transport's discriminant maps back to it. */
  lemma DiscriminantRoundTrip(t: Transport)
    ensures TransportFromCode(Discriminant(t)) == t
  {
  }

  /** The corrected accessor reads the transport code from bits 1-4. */
  lemma TransportProtocolReadsCode(f: Flags)
    ensures TransportProtocol(f) == TransportFromCode(TransportCode(f))
  {
    assert (f.bits & 0x1E) >> 1 == (f.bits >> 1) & 0x0F;
  }

  /** `is_ipv4`/`is_ipv6` read bit 0 and `has_trailing_data` bit 5 of the
      word taken as a number. */
  lemma AccessorsReadBits(f: Flags)
    ensures IsIpv4(f) <==> (f.bits as int) % 2 == 0
    ensures IsIpv6(f) <==> (f.bits as int) % 2 == 1
    ensures HasTrailingData(f) <==> ((f.bits as int) / 32) % 2 == 1
  {
    MaskIsParity(f.bits);
    ShiftBy5IsDivision(f.bits);
    MaskIsParity(f.bits >> 5);
    assert (f.bits & 0x20 != 0) <==> ((f.bits >> 5) & 0x01 != 0);
  }

  lemma MaskIsParity(x: bv8)
    ensures (x & 0x01) as int == (x as int) % 2
  {
  }

  lemma ShiftBy5IsDivision(x: bv8)
    ensures (x >> 5) as int == (x as int) / 32
  {
  }

  /** The transport code is bits 1-4 of the word taken as a number. */
  lemma TransportCodeReadsBits(f: Flags)
    ensures TransportCode(f) == ((f.bits as int) / 2) % 16
  {
    ShiftIsHalving(f.bits);
    MaskIsRemainder(f.bits >> 1);
  }

  lemma ShiftIsHalving(x: bv8)
    ensures (x >> 1) as int == (x as int) / 2
  {
  }

  lemma MaskIsRemainder(x: bv8)
    ensures (x & 0x0F) as int == (x as int) % 16
  {
  }

  /** Decoding a composed flags word gives back each of its three parts. */
  lemma ComposeThenRead(ipv6: bool, t: Transport, trailing: bool)
    ensures IsIpv6(Compose(ipv6, t, trailing)) == ipv6
    ensures IsIpv4(Compose(ipv6, t, trailing)) == !ipv6
    ensures TransportProtocol(Compose(ipv6, t, trailing)) == t
    ensures HasTrailingData(Compose(ipv6, t, trailing)) == trailing
  {
    var f := Compose(ipv6, t, trailing);
    var c := Discriminant(t) as bv8;
    assert c < 16;
    assert (f.bits & 0x1E) >> 1 == c;
    assert TransportCode(f) == Discriminant(t);
    TransportProtocolReadsCode(f);
    DiscriminantRoundTrip(t);
  }

  /** A flags word with no bit above 5 and a code that names a transport is
      composed of what its accessors read. */
  lemma ReadThenCompose(f: Flags)
    requires f.bits < 64
    requires TransportProtocol(f) != Reserved
    ensures Compose(IsIpv6(f), TransportProtocol(f), HasTrailingData(f)) == f
  {
    TransportProtocolReadsCode(f);
    var code := TransportCode(f);
    assert Discriminant(TransportProtocol(f)) == code;
    assert (code as bv8) == (f.bits >> 1) & 0x0F;
  }

  /** The shift by 3 loses the transport: TCP over IPv4 (0x02) reads as UDP
      and HTTPS (0x08) reads as TCP, and HTTPS, NonStandard and Reserved are
      never returned. */
  lemma ShiftLosesTransport(f: Flags)
    ensures TransportProtocolAsWritten(Flags(0x02)) == Udp
    ensures TransportProtocol(Flags(0x02)) == Tcp
    ensures TransportProtocolAsWritten(Flags(0x08)) == Tcp
    ensures TransportProtocol(Flags(0x08)) == Https
    ensures TransportProtocolAsWritten(f) !in {Https, NonStandard, Reserved}
  {
  }

  /** The accessor as written agrees with the documented one only for UDP,
      code 0. */
  lemma AsWrittenAgreesOnlyForUdp(f: Flags)
    ensures TransportProtocolAsWritten(f) == TransportProtocol(f) <==> TransportCode(f) == 0
  {
    TransportProtocolReadsCode(f);
  }
}
