/**
 * The `force_local_request` middleware of
 * src/middlewares/force_local_request.rs: a request passes only when the
 * client address is a loopback address once an IPv4-mapped IPv6 address
 * (section 2.5.5.2 of RFC 4291) has been turned back into IPv4; otherwise
 * it is answered with 401 Unauthorized.
 *
 * Addresses are their octets in network order, as `octets()` gives them.
 */
module LocalRequest {
  import opened Common

  type Ipv4 = s: seq<byte> | |s| == 4 witness [0, 0, 0, 0]

  type Ipv6 = s: seq<byte> | |s| == 16 witness [0, 0, 0, 0, 0, 0, 0, 0, 0, 0, 0, 0, 0, 0, 0, 0]

  /** `std::net::IpAddr`. */
  datatype IpAddr = V4(ip4: Ipv4) | V6(ip6: Ipv6)

  /** The first 96 bits of an IPv4-mapped IPv6 address: 80 zero bits, then 16 one bits. */
  const MappedPrefix: seq<byte> := [0, 0, 0, 0, 0, 0, 0, 0, 0, 0, 0xff, 0xff]

  /** `::1`, the IPv6 loopback address (section 2.5.3 of RFC 4291). */
  const Localhost6: Ipv6 := [0, 0, 0, 0, 0, 0, 0, 0, 0, 0, 0, 0, 0, 0, 0, 1]

  /** HTTP 401 Unauthorized. */
  const Unauthorized: nat := 401

  /** `Ipv4Addr::to_ipv6_mapped`: `::ffff:a.b.c.d`. */
  function ToIpv6Mapped(a: Ipv4): (b: Ipv6)
    ensures b[..12] == MappedPrefix && b[12..] == a
  {
    MappedPrefix + a
  }

  /** `Ipv6Addr::to_ipv4_mapped`: `a.b.c.d` for `::ffff:a.b.c.d`, nothing for any other address. */
  function ToIpv4Mapped(b: Ipv6): (r: Option<Ipv4>) {
    if b[..12] == MappedPrefix then var a: Ipv4 := b[12..]; Some(a) else None
  }

  /** Mapping into IPv6 and back gives the address, and only mapped addresses map back. */
  lemma MappedRoundTrip(a: Ipv4, b: Ipv6)
    ensures ToIpv4Mapped(ToIpv6Mapped(a)) == Some(a)
    ensures ToIpv4Mapped(b) == Some(a) <==> b == ToIpv6Mapped(a)
  {
    if ToIpv4Mapped(b) == Some(a) {
      assert b == b[..12] + b[12..];
    }
  }

  /** `real_ip`: an IPv4-mapped IPv6 address as IPv4, any other address as it is. */
  function RealIp(ip: IpAddr): (r: IpAddr) {
    if ip.V6? then
      match ToIpv4Mapped(ip.ip6)
        case Some(ip4) => V4(ip4)
        case None => V6(ip.ip6)
    else ip
  }

  /** `Ipv4Addr::is_loopback`: 127.0.0.0/8 (section 3.2.1.3 of RFC 1122). */
  predicate IsLoopback4(a: Ipv4) {
    a[0] == 127
  }

  /** `IpAddr::is_loopback`: 127.0.0.0/8 for IPv4, exactly `::1` for IPv6. */
  predicate IsLoopback(ip: IpAddr) {
    match ip
      case V4(a) => IsLoopback4(a)
      case V6(b) => b == Localhost6
  }

  /** What the middleware does with a request: run the next handler, or answer with a status code. */
  datatype Decision = Pass | Reject(status: nat)

  /** `force_local_request`. */
  function ForceLocalRequest(ip: IpAddr): (d: Decision) {
    if !IsLoopback(RealIp(ip)) then Reject(Unauthorized) else Pass
  }

  /** A mapped address becomes its IPv4 address; every other address stays as it is. */
  lemma RealIpCases(ip: IpAddr)
    ensures ip.V4? ==> RealIp(ip) == ip
    ensures ip.V6? && ip.ip6[..12] == MappedPrefix ==> RealIp(ip) == V4(ip.ip6[12..])
    ensures ip.V6? && ip.ip6[..12] != MappedPrefix ==> RealIp(ip) == ip
    ensures forall a: Ipv4 :: RealIp(V6(ToIpv6Mapped(a))) == V4(a)
  {
    forall a: Ipv4
      ensures RealIp(V6(ToIpv6Mapped(a))) == V4(a)
    {
      MappedRoundTrip(a, ToIpv6Mapped(a));
    }
  }

  /** Normalising a normalised address changes nothing. */
  lemma RealIpIdempotent(ip: IpAddr)
    ensures RealIp(RealIp(ip)) == RealIp(ip)
  {
    if RealIp(ip).V6? {
      assert ToIpv4Mapped(RealIp(ip).ip6).None?;
    }
  }

  /** `::1` is not a mapped address, and so stays IPv6. */
  lemma Localhost6Kept()
    ensures RealIp(V6(Localhost6)) == V6(Localhost6)
  {
    assert Localhost6[..12][10] != MappedPrefix[10];
  }

  /** The request is answered with 401 exactly when the normalised address is not loopback, and passes otherwise. */
  lemma RejectExactly(ip: IpAddr)
    ensures ForceLocalRequest(ip) == Reject(Unauthorized) <==> !IsLoopback(RealIp(ip))
    ensures ForceLocalRequest(ip) == Pass <==> IsLoopback(RealIp(ip))
    ensures ForceLocalRequest(ip).Reject? ==> ForceLocalRequest(ip).status == 401
  {
  }

  /**
   * The addresses that pass, stated on the client address itself: an IPv4
   * address in 127.0.0.0/8, an IPv4-mapped IPv6 address of one, or `::1`.
   */
  lemma PassesExactly(ip: IpAddr)
    ensures ForceLocalRequest(ip) == Pass <==>
      match ip
        case V4(a) => a[0] == 127
        case V6(b) => (b[..12] == MappedPrefix && b[12] == 127) || b == Localhost6
  {
    if ip.V6? {
      var b := ip.ip6;
      if b == Localhost6 {
        Localhost6Kept();
      }
      if b[..12] == MappedPrefix {
        assert b[12..][0] == b[12];
        assert b != Localhost6 by {
          assert b[..12][10] != Localhost6[..12][10];
        }
      }
    }
  }

  /** `::ffff:127.x.y.z`, `127.x.y.z` and `::1` pass. */
  lemma LoopbacksPass(x: byte, y: byte, z: byte)
    ensures ForceLocalRequest(V6(ToIpv6Mapped([127, x, y, z]))) == Pass
    ensures ForceLocalRequest(V4([127, x, y, z])) == Pass
    ensures ForceLocalRequest(V6(Localhost6)) == Pass
  {
    RealIpCases(V6(ToIpv6Mapped([127, x, y, z])));
    Localhost6Kept();
  }

  /**
   * `::ffff:10.0.0.1` is rejected, and so is the IPv4-compatible
   * `::127.0.0.1`, which is not an IPv4-mapped address.
   */
  lemma OthersRejected()
    ensures ForceLocalRequest(V6(ToIpv6Mapped([10, 0, 0, 1]))) == Reject(401)
    ensures ForceLocalRequest(V6([0, 0, 0, 0, 0, 0, 0, 0, 0, 0, 0, 0, 127, 0, 0, 1])) == Reject(401)
  {
    RealIpCases(V6(ToIpv6Mapped([10, 0, 0, 1])));
    var c: Ipv6 := [0, 0, 0, 0, 0, 0, 0, 0, 0, 0, 0, 0, 127, 0, 0, 1];
    assert c[..12][10] != MappedPrefix[10];
    assert c != Localhost6 by {
      assert c[12] != Localhost6[12];
    }
  }
}
