/** Destinations as SOCKS addresses (section 5 of RFC 1928): the printer, the parser, and what survives
    the trip. */
module SocksAddr {
  import opened Common

  type byte = x: int | 0 <= x < 0x100
  type port = x: int | 0 <= x < 0x1_0000
  type bytes4 = s: seq<byte> | |s| == 4 witness [0, 0, 0, 0]
  type bytes16 = s: seq<byte> | |s| == 16 witness seq(16, i => 0)

  const ATYP_IPV4: byte := 1
  const ATYP_DOMAIN_NAME: byte := 3
  const ATYP_IPV6: byte := 4
  const DOT: byte := 46

  datatype Addr = Invalid | V4(b4: bytes4) | V6(b16: bytes16, zone: string)

  /** The fields of a connection's metadata that name its destination; a host is a string of octets. */
  datatype Endpoint = Endpoint(host: seq<byte>, ip: Addr, dstPort: port)

  datatype AddrType = DomainName | IPv4 | IPv6

  function TypeOf(e: Endpoint): AddrType {
    if e.host != [] || e.ip.Invalid? then DomainName
    else if e.ip.V4? then IPv4
    else IPv6
  }

  predicate Is4In6(b: bytes16) { (forall i | 0 <= i < 10 :: b[i] == 0) && b[10] == b[11] == 0xff }

  function Unmap(a: Addr): Addr {
    if a.V6? && Is4In6(a.b16) then V4(a.b16[12..]) else a
  }

  function PortBytes(p: port): seq<byte> { [p / 0x100, p % 0x100] }

  function Word(high: byte, low: byte): port { high as int * 0x100 + low as int }

  lemma WordOfPort(p: port, high: byte, low: byte)
    ensures Word(high, low) == p <==> [high, low] == PortBytes(p)
    ensures Word(high, low) / 0x100 == high && Word(high, low) % 0x100 == low
  {
  }

  /** The length octet holds the length of the host modulo 256; the zone of an address is not sent. */
  function Serialize(e: Endpoint): seq<byte> {
    match TypeOf(e)
    case DomainName => [ATYP_DOMAIN_NAME, |e.host| % 0x100] + e.host + PortBytes(e.dstPort)
    case IPv4 => [ATYP_IPV4] + e.ip.b4 + PortBytes(e.dstPort)
    case IPv6 => [ATYP_IPV6] + e.ip.b16 + PortBytes(e.dstPort)
  }

  predicate EndsWithDot(s: seq<byte>) { s != [] && s[|s| - 1] == DOT }

  /** A host without its trailing dots. */
  function TrimRight(s: seq<byte>): (r: seq<byte>)
    ensures r <= s && !EndsWithDot(r)
    ensures forall i | |r| <= i < |s| :: s[i] == DOT
  {
    if EndsWithDot(s) then TrimRight(s[..|s| - 1]) else s
  }

  /** Where the parser looks for the two octets of the port of a domain name of length `n`: the indices
      are computed in a byte. */
  function PortAt(n: byte): byte { (2 + n as int) % 0x100 }

  function PortLowAt(n: byte): byte { (2 + n as int + 1) % 0x100 }

  /** What the parser makes of `target`; None stands for an index or a slice out of range. */
  function Parse(target: seq<byte>): Option<Endpoint> {
    if target == [] then None
    else if target[0] == ATYP_DOMAIN_NAME then
      if |target| < 2 then None
      else
        var at, low := PortAt(target[1]), PortLowAt(target[1]);
        if 2 <= at < |target| && low < |target| then
          Some(Endpoint(TrimRight(target[2..at]), Invalid, Word(target[at], target[low])))
        else None
    else if target[0] == ATYP_IPV4 then
      if |target| < 7 then None
      else Some(Endpoint([], V4(target[1..5]), Word(target[5], target[6])))
    else if target[0] == ATYP_IPV6 then
      if |target| < 19 then None
      else Some(Endpoint([], Unmap(V6(target[1..17], "")), Word(target[17], target[18])))
    else Some(Endpoint([], Invalid, 0))
  }

  class Metadata {
    var host: seq<byte>
    var dstIP: Addr
    var dstPort: port

    constructor ()
      ensures Value() == Endpoint([], Invalid, 0)
    {
      host, dstIP, dstPort := [], Invalid, 0;
    }

    function Value(): Endpoint
      reads this
    {
      Endpoint(host, dstIP, dstPort)
    }
  }

  /** The parser fills a fresh metadata; `ok` is false where the program would panic. */
  method ParseSocksAddr(target: seq<byte>) returns (ok: bool, metadata: Metadata)
    ensures fresh(metadata)
    ensures Parse(target) == if ok then Some(metadata.Value()) else None
  {
    metadata := new Metadata();
    ok := false;
    if |target| == 0 {
      return;
    }
    if target[0] == ATYP_DOMAIN_NAME {
      if |target| < 2 {
        return;
      }
      var at: byte, low: byte := (2 + target[1] as int) % 0x100, (2 + target[1] as int + 1) % 0x100;
      if at < 2 || at >= |target| || low >= |target| {
        return;
      }
      metadata.host := TrimRight(target[2..at]);
      metadata.dstPort := Word(target[at], target[low]);
    } else if target[0] == ATYP_IPV4 {
      if |target| < 1 + 4 + 2 {
        return;
      }
      metadata.dstIP := V4(target[1..1 + 4]);
      metadata.dstPort := Word(target[1 + 4], target[1 + 4 + 1]);
    } else if target[0] == ATYP_IPV6 {
      if |target| < 1 + 16 + 2 {
        return;
      }
      metadata.dstIP := V6(target[1..1 + 16], "");
      metadata.dstPort := Word(target[1 + 16], target[1 + 16 + 1]);
    }
    metadata.dstIP := Unmap(metadata.dstIP);
    ok := true;
  }

  // ---------- what survives the trip ----------

  /** The destination an endpoint stands for: its host if it has one, else its address, unmapped and
      without its zone. */
  function Destination(e: Endpoint): Endpoint {
    if e.host != [] then Endpoint(e.host, Invalid, e.dstPort)
    else Endpoint([], Unmap(if e.ip.V6? then V6(e.ip.b16, "") else e.ip), e.dstPort)
  }

  predicate Travels(host: seq<byte>, p: port) {
    !EndsWithDot(host) && (|host| <= 252 || (|host| == 253 && p % 0x100 == ATYP_DOMAIN_NAME))
  }

  /** A domain name of `n` octets as it is laid out. */
  predicate DomainAt(t: seq<byte>, host: seq<byte>, p: port) {
    && |t| == |host| + 4 && t[0] == ATYP_DOMAIN_NAME && t[1] == |host| % 0x100
    && t[2..2 + |host|] == host && Word(t[2 + |host|], t[3 + |host|]) == p
  }

  lemma SerializedDomain(t: seq<byte>, host: seq<byte>, p: port)
    ensures DomainAt(t, host, p) <==> t == [ATYP_DOMAIN_NAME, |host| % 0x100] + host + PortBytes(p)
  {
    if DomainAt(t, host, p) {
      WordOfPort(p, t[2 + |host|], t[3 + |host|]);
      assert t == [t[0], t[1]] + t[2..2 + |host|] + [t[2 + |host|], t[3 + |host|]];
    }
    if t == [ATYP_DOMAIN_NAME, |host| % 0x100] + host + PortBytes(p) {
      WordOfPort(p, t[2 + |host|], t[3 + |host|]);
    }
  }

  lemma PortIndex(n: nat)
    ensures n <= 253 ==> PortAt(n % 0x100) == 2 + n
    ensures n <= 252 ==> PortLowAt(n % 0x100) == 3 + n
    ensures n == 253 ==> PortLowAt(n % 0x100) == 0
    ensures n % 0x100 >= 254 <==> PortAt(n % 0x100) < 2
    ensures PortAt(n % 0x100) <= 2 + n && PortLowAt(n % 0x100) <= 3 + n
    ensures n >= 254 ==> PortAt(n % 0x100) < 2 + n
  {
  }

  /** What the parser makes of a domain name laid out whole. */
  lemma ParsedDomain(t: seq<byte>, host: seq<byte>, p: port)
    requires DomainAt(t, host, p)
    ensures |host| <= 252 ==> Parse(t) == Some(Endpoint(TrimRight(host), Invalid, p))
    ensures |host| == 253 ==> Parse(t) == Some(Endpoint(TrimRight(host), Invalid, Word(p / 0x100, ATYP_DOMAIN_NAME)))
    ensures |host| >= 254 && Parse(t).Some? ==> |Parse(t).value.host| < |host|
    ensures Parse(t).None? <==> |host| % 0x100 >= 254
  {
    hide Word, PortAt, PortLowAt;
    PortIndex(|host|);
    WordOfPort(p, t[2 + |host|], t[3 + |host|]);
  }

  lemma ParsedIPv4(t: seq<byte>, b: bytes4, p: port)
    requires t == [ATYP_IPV4] + b + PortBytes(p)
    ensures Parse(t) == Some(Endpoint([], V4(b), p))
  {
    hide Word, PortAt, PortLowAt;
    WordOfPort(p, t[5], t[6]);
    assert t[1..5] == b;
  }

  lemma ParsedIPv6(t: seq<byte>, b: bytes16, p: port)
    requires t == [ATYP_IPV6] + b + PortBytes(p)
    ensures Parse(t) == Some(Endpoint([], Unmap(V6(b, "")), p))
  {
    hide Word, PortAt, PortLowAt, Unmap;
    WordOfPort(p, t[17], t[18]);
    assert t[1..17] == b;
  }

  /** A destination comes back as it was exactly when its host has no trailing dot and at most 252
      octets; a 253-octet host also does when the low octet of the port happens to be 3, the octet the
      parser reads in its place. */
  lemma RoundTrip(e: Endpoint)
    ensures Parse(Serialize(e)) == Some(Destination(e)) <==> Travels(e.host, e.dstPort)
  {
    hide Parse, Unmap, Word;
    var t := Serialize(e);
    if TypeOf(e).DomainName? {
      SerializedDomain(t, e.host, e.dstPort);
      ParsedDomain(t, e.host, e.dstPort);
      WordOfPort(e.dstPort, e.dstPort / 0x100, ATYP_DOMAIN_NAME);
      UnmapInvalid();
    } else if TypeOf(e).IPv4? {
      ParsedIPv4(t, e.ip.b4, e.dstPort);
      UnmapV4(e.ip.b4);
    } else {
      ParsedIPv6(t, e.ip.b16, e.dstPort);
    }
  }

  lemma UnmapInvalid()
    ensures Unmap(Invalid) == Invalid
  {
  }

  /** Exactly the addresses ::ffff:a.b.c.d become IPv4 addresses. */
  lemma UnmapIs(b: bytes16, zone: string)
    ensures var mapped := b[..12] == [0, 0, 0, 0, 0, 0, 0, 0, 0, 0, 0xff, 0xff];
      Unmap(V6(b, zone)) == if mapped then V4(b[12..]) else V6(b, zone)
  {
    var prefix: seq<byte> := [0, 0, 0, 0, 0, 0, 0, 0, 0, 0, 0xff, 0xff];
    if Is4In6(b) {
      assert b[..12] == prefix;
    } else {
      assert b[..12] == prefix ==> forall i | 0 <= i < 12 :: b[i] == prefix[i];
    }
  }

  lemma UnmapV4(b: bytes4)
    ensures Unmap(V4(b)) == V4(b)
  {
  }

  /** Parsing a serialized destination fails only for hosts whose length is 254 or 255 modulo 256. */
  lemma SerializedParses(e: Endpoint)
    ensures Parse(Serialize(e)).None? <==> |e.host| % 0x100 >= 254
  {
    hide Parse, Unmap, Word;
    var t := Serialize(e);
    if TypeOf(e).DomainName? {
      SerializedDomain(t, e.host, e.dstPort);
      ParsedDomain(t, e.host, e.dstPort);
    } else if TypeOf(e).IPv4? {
      ParsedIPv4(t, e.ip.b4, e.dstPort);
    } else {
      ParsedIPv6(t, e.ip.b16, e.dstPort);
    }
  }

  /** An address of a known type with nothing after it. */
  datatype Layout = Name(host: seq<byte>, p: port) | Address4(b4: bytes4, p: port) | Address6(b16: bytes16, p: port)

  function Lay(l: Layout): seq<byte> {
    match l
    case Name(host, p) => [ATYP_DOMAIN_NAME, |host| % 0x100] + host + PortBytes(p)
    case Address4(b, p) => [ATYP_IPV4] + b + PortBytes(p)
    case Address6(b, p) => [ATYP_IPV6] + b + PortBytes(p)
  }

  /** The other way round: the printer undoes the parser exactly on laid-out addresses that hold no
      mapped address, no trailing dot, and no name too long. */
  lemma PrintParsed(l: Layout)
    requires l.Name? ==> |l.host| < 0x100
    ensures (Parse(Lay(l)).Some? && Serialize(Parse(Lay(l)).value) == Lay(l))
       <==> match l
            case Name(host, p) => Travels(host, p)
            case Address4(_, _) => true
            case Address6(b, _) => !Is4In6(b)
  {
    hide Parse, Word, Is4In6;
    var t := Lay(l);
    match l
    case Name(host, p) =>
      SerializedDomain(t, host, p);
      ParsedDomain(t, host, p);
      if |host| <= 253 {
        var e := Parse(t).value;
        SerializedDomain(t, e.host, e.dstPort);
        WordOfPort(p, p / 0x100, ATYP_DOMAIN_NAME);
        assert EndsWithDot(host) ==> |TrimRight(host)| < |host|;
      }
    case Address4(b, p) =>
      ParsedIPv4(t, b, p);
    case Address6(b, p) =>
      ParsedIPv6(t, b, p);
  }
}
