/** IP packets (ip_packet.c): parsing, the IPv6 extension header walk, and what a second parse
    of a parsed packet gives. */
module IpPacket {
  import opened Bytes

  const IPPROTO_TCP: Byte := 6
  const IPPROTO_UDP: Byte := 17
  const IPV4_HEADER: nat := 20
  const IPV6_HEADER: nat := 40

  /** host_t: an address and a port */
  datatype Host = Host(address: seq<Byte>, port: U16)

  predicate IsAny(h: Host) { forall b | b in h.address :: b == 0 }

  /** ip_equals of host.c: the ports do not count, and 0.0.0.0 equals :: */
  predicate IpEquals(a: Host, b: Host) {
    if |a.address| != |b.address| then IsAny(a) && IsAny(b) else a.address == b.address
  }

  /** The same address, or both are the unspecified one of their family */
  ghost predicate SameAddress(a: seq<Byte>, b: seq<Byte>) {
    a == b || ((forall x | x in a :: x == 0) && forall x | x in b :: x == 0)
  }

  lemma IpEqualsExactly(a: Host, b: Host)
    ensures IpEquals(a, b) <==> SameAddress(a.address, b.address)
  {
    if |a.address| == |b.address| && IsAny(a) && IsAny(b) {
      assert forall i | 0 <= i < |a.address| :: a.address[i] in a.address && b.address[i] in b.address;
      assert a.address == b.address;
    }
  }

  datatype Packet = Packet(version: Byte, src: Host, dst: Host, encoding: seq<Byte>, payload: seq<Byte>,
                           nextHeader: Byte)

  datatype Ports = Ports(source: U16, dest: U16)

  function ParseTransportHeader(packet: seq<Byte>, proto: Byte): Option<Ports> {
    if proto == IPPROTO_UDP then
      if |packet| < 8 then None else Some(Ports(FromBe16(packet[..2]), FromBe16(packet[2..4])))
    else if proto == IPPROTO_TCP then
      if |packet| < 20 then None else Some(Ports(FromBe16(packet[..2]), FromBe16(packet[2..4])))
    else
      Some(Ports(0, 0))
  }

  // ---------------------------------------------------------------- IPv6 extension headers

  const FRAGMENT: Byte := 44

  /** Hop-by-Hop, Routing, Fragment, Destination Options, Mobility, HIP and Shim6 */
  predicate IsExtension(proto: Byte) { proto in {0, 43, FRAGMENT, 60, 135, 139, 140} }

  datatype Upper = Upper(proto: Byte, payload: seq<Byte>, ports: Ports)

  /** The upper layer protocol behind a chain of extension headers. */
  function Walk(proto: Byte, payload: seq<Byte>, fragment: bool): Option<Upper>
    decreases |payload|
  {
    if |payload| < 2 then
      Some(Upper(proto, payload, Ports(0, 0)))
    else if IsExtension(proto) then
      Walk(payload[0], Skip(payload, 8 * (payload[1] as int + 1)), fragment || proto == FRAGMENT)
    else if fragment then
      Some(Upper(proto, payload, Ports(0, 0)))
    else
      match ParseTransportHeader(payload, proto)
      case Some(ports) => Some(Upper(proto, payload, ports))
      case None => None
  }

  method ParseTransportHeaderV6(next: Byte, packet: seq<Byte>) returns (ok: bool, upper: Upper)
    ensures ok <==> Walk(next, Skip(packet, IPV6_HEADER), false).Some?
    ensures ok ==> Some(upper) == Walk(next, Skip(packet, IPV6_HEADER), false)
  {
    var fragment := false;
    var proto := next;
    var payload := Skip(packet, IPV6_HEADER);
    upper := Upper(proto, payload, Ports(0, 0));
    while |payload| >= 2
      invariant Walk(proto, payload, fragment) == Walk(next, Skip(packet, IPV6_HEADER), false)
      decreases |payload|
    {
      if IsExtension(proto) {
        if proto == FRAGMENT { fragment := true; }
        var ext := payload;
        proto := ext[0];
        payload := Skip(payload, 8 * (ext[1] as int + 1));
        continue;
      }
      if !fragment {
        var ports := ParseTransportHeader(payload, proto);
        if ports.None? { return false, upper; }
        return true, Upper(proto, payload, ports.value);
      }
      break;
    }
    return true, Upper(proto, payload, Ports(0, 0));
  }

  lemma SkipIsSuffix(t: seq<Byte>, n: nat, s: seq<Byte>)
    requires IsSuffix(s, Skip(t, n))
    ensures IsSuffix(s, t)
  {
  }

  /** However the extension headers are built, the walk ends inside the packet. */
  lemma {:induction false} WalkStaysInside(proto: Byte, payload: seq<Byte>, fragment: bool)
    requires Walk(proto, payload, fragment).Some?
    ensures IsSuffix(Walk(proto, payload, fragment).value.payload, payload)
    decreases |payload|
  {
    if |payload| >= 2 && IsExtension(proto) {
      var rest := Skip(payload, 8 * (payload[1] as int + 1));
      WalkStaysInside(payload[0], rest, fragment || proto == FRAGMENT);
      SkipIsSuffix(payload, 8 * (payload[1] as int + 1), Walk(proto, payload, fragment).value.payload);
    }
  }

  // ---------------------------------------------------------------- ip_packet_create

  function Version(packet: seq<Byte>): Byte
    requires |packet| >= 1
  {
    packet[0] / 16
  }

  /** The length of a packet according to its own header. */
  function DeclaredLength(packet: seq<Byte>): nat
    requires |packet| >= 1
    requires Version(packet) == 4 ==> |packet| >= IPV4_HEADER
    requires Version(packet) != 4 ==> |packet| >= IPV6_HEADER
  {
    if Version(packet) == 4 then FromBe16(packet[2..4]) else IPV6_HEADER + FromBe16(packet[4..6])
  }

  function ParseV4(packet: seq<Byte>): Option<Packet>
    requires |packet| >= 1 && Version(packet) == 4
  {
    if |packet| < IPV4_HEADER then None
    else
      var trimmed := packet[..Min(|packet|, DeclaredLength(packet))];
      var payload := Skip(trimmed, (packet[0] % 16) * 4);
      var proto := packet[9];
      var ports := if FromBe16(packet[6..8]) % 0x2000 == 0 then ParseTransportHeader(payload, proto)
                   else Some(Ports(0, 0));
      if ports.None? then None
      else
        Some(Packet(4, Host(packet[12..16], ports.value.source), Host(packet[16..20], ports.value.dest),
                    trimmed, payload, proto))
  }

  function ParseV6(packet: seq<Byte>): Option<Packet>
    requires |packet| >= 1 && Version(packet) == 6
  {
    if |packet| < IPV6_HEADER then None
    else
      var trimmed := packet[..Min(|packet|, DeclaredLength(packet))];
      var upper := Walk(packet[6], Skip(trimmed, IPV6_HEADER), false);
      if upper.None? then None else Some(PacketV6(packet, trimmed, upper.value))
  }

  function PacketV6(packet: seq<Byte>, trimmed: seq<Byte>, upper: Upper): Packet
    requires |packet| >= IPV6_HEADER
  {
    Packet(6, Host(packet[8..24], upper.ports.source), Host(packet[24..40], upper.ports.dest),
           trimmed, upper.payload, upper.proto)
  }

  function Parse(packet: seq<Byte>): Option<Packet> {
    if |packet| < 1 then None
    else if Version(packet) == 4 then ParseV4(packet)
    else if Version(packet) == 6 then ParseV6(packet)
    else None
  }

  /** ip_packet_create: the loop over the extension headers computes what `Parse` says. */
  method Create(packet: seq<Byte>) returns (r: Option<Packet>)
    ensures r == Parse(packet)
  {
    if |packet| < 1 {
      return None;
    }
    match Version(packet)
    case 4 =>
      if |packet| < IPV4_HEADER {
        return None;
      }
      // traffic flow confidentiality padding goes
      var trimmed := packet;
      if FromBe16(packet[2..4]) < |packet| {
        trimmed := packet[..FromBe16(packet[2..4])];
      }
      assert trimmed == packet[..Min(|packet|, DeclaredLength(packet))];
      var payload := Skip(trimmed, (packet[0] % 16) * 4);
      var ports := Ports(0, 0);
      // later fragments have no ports
      if FromBe16(packet[6..8]) % 0x2000 == 0 {
        var parsed := ParseTransportHeader(payload, packet[9]);
        if parsed.None? {
          return None;
        }
        ports := parsed.value;
      }
      r := Some(Packet(4, Host(packet[12..16], ports.source), Host(packet[16..20], ports.dest),
                       trimmed, payload, packet[9]));
    case 6 =>
      if |packet| < IPV6_HEADER {
        return None;
      }
      var trimmed := packet[..Min(|packet|, DeclaredLength(packet))];
      var ok, upper := ParseTransportHeaderV6(packet[6], trimmed);
      r := if ok then Some(PacketV6(packet, trimmed, upper)) else None;
    case _ =>
      r := None;
  }

  // ---------------------------------------------------------------- parsing again

  /** The encoding of a parsed packet is the received data without trailing traffic flow
      confidentiality padding, and its payload is a suffix of the encoding. */
  lemma ParseTrims(data: seq<Byte>)
    requires Parse(data).Some?
    ensures var p := Parse(data).value;
            && p.encoding == data[..Min(|data|, DeclaredLength(data))]
            && IsSuffix(p.payload, p.encoding)
  {
    if Version(data) == 6 {
      var trimmed := data[..Min(|data|, DeclaredLength(data))];
      WalkStaysInside(data[6], Skip(trimmed, IPV6_HEADER), false);
      SkipIsSuffix(trimmed, IPV6_HEADER, Parse(data).value.payload);
    }
  }

  /** The header of a packet declares at least the header itself. */
  predicate CoversHeader(data: seq<Byte>)
    requires Parse(data).Some?
  {
    Version(data) == 6 || DeclaredLength(data) >= IPV4_HEADER
  }

  /** `data` and `other` agree wherever a parser looks. */
  lemma ParseIgnoresPadding(data: seq<Byte>, other: seq<Byte>)
    requires Parse(data).Some? && CoversHeader(data)
    requires |other| >= Min(|data|, DeclaredLength(data))
    requires other[..Min(|data|, DeclaredLength(data))] == Parse(data).value.encoding
    requires |other| == Min(|data|, DeclaredLength(data)) || DeclaredLength(data) <= |data|
    ensures Parse(other) == Parse(data)
  {
    var n := Min(|data|, DeclaredLength(data));
    var m := if Version(data) == 4 then IPV4_HEADER else IPV6_HEADER;
    assert n >= m;
    assert data[..n][..m] == data[..m] && other[..n][..m] == other[..m];
    assert forall i | 0 <= i < m :: data[i] == data[..m][i] && other[i] == other[..m][i];
    assert DeclaredLength(other) == DeclaredLength(data) by {
      assert other[2..4] == data[2..4] && other[4..6] == data[4..6];
    }
    assert other[..Min(|other|, DeclaredLength(other))] == data[..n];
    if Version(data) == 4 {
      assert other[6..8] == data[6..8] && other[12..16] == data[12..16] && other[16..20] == data[16..20];
    } else {
      assert other[8..24] == data[8..24] && other[24..40] == data[24..40];
    }
  }

  /** Parsing the encoding of a parsed packet gives the same packet again (so clone is faithful
      and trimming is idempotent) if and only if the header declares at least its own length. */
  lemma ReparseExactly(data: seq<Byte>)
    requires Parse(data).Some?
    ensures Parse(Parse(data).value.encoding) == Parse(data) <==> CoversHeader(data)
  {
    if CoversHeader(data) {
      ParseIgnoresPadding(data, Parse(data).value.encoding);
    }
  }

  /** Bytes behind the encoding are ignored if and only if the encoding is as long as its header
      declares. */
  lemma TrailingBytesExactly(data: seq<Byte>, extra: seq<Byte>)
    requires Parse(data).Some? && CoversHeader(data) && extra != []
    ensures Parse(Parse(data).value.encoding + extra) == Parse(data) <==> DeclaredLength(data) <= |data|
  {
    var e := Parse(data).value.encoding;
    if DeclaredLength(data) <= |data| {
      ParseIgnoresPadding(data, e + extra);
    } else {
      assert e == data;
      assert (e + extra)[2..4] == data[2..4] && (e + extra)[4..6] == data[4..6];
      if Parse(e + extra).Some? {
        assert |Parse(e + extra).value.encoding| > |e|;
      }
    }
  }

  /** A packet that is shorter than it could be hides from its own clone: an IPv4 header that
      declares a total length of 0 is accepted, and its clone is rejected. */
  lemma ShortHeaderIsLost()
    ensures var data: seq<Byte> := [0x45] + Zeros(19);
            Parse(data).Some? && Parse(Parse(data).value.encoding).None?
  {
    var data: seq<Byte> := [0x45] + Zeros(19);
    assert FromBe16(data[2..4]) == 0;
  }
}
