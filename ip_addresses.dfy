/** `IpAddr`: an address stored as its leading (prefix) bytes, with the
    conversions `as_ipv4` and `as_ipv6` that pad the prefix with zero octets. */
module IpAddresses {
  import opened Wrappers
  import opened Cbor

  /** `std::net::Ipv4Addr`, four octets in network order. */
  datatype Ipv4Addr = Ipv4Addr(a: Byte, b: Byte, c: Byte, d: Byte)

  /** `std::net::Ipv6Addr`, built from its sixteen octets. */
  datatype Ipv6Addr = Ipv6Addr(octets: seq<Byte>)

  /** The two `bail!` messages: no bytes at all, or more bytes than the
      address family holds (`expected` is 4 or 16, `got` the length). */
  datatype IpError = NoBytes | TooManyBytes(expected: nat, got: nat)

  function Octets(addr: Ipv4Addr): (r: seq<Byte>)
    ensures |r| == 4
  {
    [addr.a, addr.b, addr.c, addr.d]
  }

  /** `IpAddr::as_ipv4`: one to four bytes are the leading octets of the
      address, the octets after them are 0. */
  function AsIpv4(bytes: seq<Byte>): (r: Result<Ipv4Addr, IpError>)
    ensures bytes == [] <==> r == Failure(NoBytes)
    ensures |bytes| > 4 <==> r == Failure(TooManyBytes(4, |bytes|))
    ensures 1 <= |bytes| <= 4 <==> r.Success?
    ensures r.Success? ==> && Octets(r.value)[..|bytes|] == bytes
                           && forall i :: |bytes| <= i < 4 ==> Octets(r.value)[i] == 0
  {
    if |bytes| == 0 then Failure(NoBytes)
    else if |bytes| == 1 then Success(Ipv4Addr(bytes[0], 0, 0, 0))
    else if |bytes| == 2 then Success(Ipv4Addr(bytes[0], bytes[1], 0, 0))
    else if |bytes| == 3 then Success(Ipv4Addr(bytes[0], bytes[1], bytes[2], 0))
    else if |bytes| == 4 then Success(Ipv4Addr(bytes[0], bytes[1], bytes[2], bytes[3]))
    else Failure(TooManyBytes(4, |bytes|))
  }

  /** `IpAddr::as_ipv6`: one to sixteen bytes are copied and the copy is
      extended with zero octets to exactly sixteen. */
  method AsIpv6(bytes: seq<Byte>) returns (r: Result<Ipv6Addr, IpError>)
    ensures bytes == [] <==> r == Failure(NoBytes)
    ensures |bytes| > 16 <==> r == Failure(TooManyBytes(16, |bytes|))
    ensures 1 <= |bytes| <= 16 <==> r.Success?
    ensures r.Success? ==> && |r.value.octets| == 16
                           && r.value.octets[..|bytes|] == bytes
                           && forall i :: |bytes| <= i < 16 ==> r.value.octets[i] == 0
  {
    if bytes == [] {
      return Failure(NoBytes);
    }
    if |bytes| > 16 {
      return Failure(TooManyBytes(16, |bytes|));
    }
    var octets := bytes;
    while |octets| < 16
      invariant |bytes| <= |octets| <= 16
      invariant octets[..|bytes|] == bytes
      invariant forall i :: |bytes| <= i < |octets| ==> octets[i] == 0
    {
      octets := octets + [0];
    }
    return Success(Ipv6Addr(octets));
  }

  /** Converting the four octets of an address gives that address back. */
  lemma Ipv4RoundTrip(addr: Ipv4Addr)
    ensures AsIpv4(Octets(addr)) == Success(addr)
  {
    var r := AsIpv4(Octets(addr));
    assert Octets(r.value)[..4] == Octets(addr);
    assert Octets(r.value)[0] == addr.a && Octets(r.value)[1] == addr.b;
    assert Octets(r.value)[2] == addr.c && Octets(r.value)[3] == addr.d;
  }

  /** The bytes are a prefix: a trailing zero byte names the same address. */
  lemma Ipv4TrailingZero(bytes: seq<Byte>)
    requires 1 <= |bytes| < 4
    ensures AsIpv4(bytes + [0]) == AsIpv4(bytes)
  {
    var longer, shorter := AsIpv4(bytes + [0]).value, AsIpv4(bytes).value;
    assert forall i :: 0 <= i < |bytes| ==> Octets(longer)[i] == (bytes + [0])[i] == Octets(shorter)[i];
    assert Octets(longer)[|bytes|] == 0;
    assert Octets(longer) == Octets(shorter);
  }
}
