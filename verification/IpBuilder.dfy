/** Building IP packets (ip_packet_create_from_data of ip_packet.c), and what parsing them gives. */
module IpBuilder {
  import opened Bytes
  import opened IpPacket

  /** The Internet checksums of an IPv4 header and of a transport header with its pseudo header,
      of which nothing is used but that they are 16 bits wide */
  datatype Sums = Sums(header: seq<Byte> -> U16, transport: (Host, Host, Byte, seq<Byte>) -> U16)

  // ---------------------------------------------------------------- specification

  /** A payload that has the header of a transport protocol with ports */
  predicate HasTransport(proto: Byte, payload: seq<Byte>) {
    (proto == IPPROTO_UDP && |payload| >= 8) || (proto == IPPROTO_TCP && |payload| >= 20)
  }

  function ChecksumAt(proto: Byte): nat { if proto == IPPROTO_UDP then 6 else 16 }

  function Put16(s: seq<Byte>, at: nat, x: U16): (r: seq<Byte>)
    requires at + 2 <= |s|
    ensures |r| == |s| && r[at..at + 2] == Be16(x)
    ensures forall i | 0 <= i < |s| && !(at <= i < at + 2) :: r[i] == s[i]
  {
    s[..at] + Be16(x) + s[at + 2..]
  }

  function PutPort(s: seq<Byte>, at: nat, port: U16): (r: seq<Byte>)
    requires at + 2 <= |s|
    ensures |r| == |s|
  {
    if port == 0 then s else Put16(s, at, port)
  }

  /** fix_transport_header: ports that are set replace those of the data, and the checksum is
      computed over the header with a checksum of 0. */
  function Fixed(sums: Sums, src: Host, dst: Host, proto: Byte, data: seq<Byte>): (r: seq<Byte>)
    ensures |r| == |data|
  {
    if !HasTransport(proto, data) then data
    else
      var p := Put16(PutPort(PutPort(data, 0, src.port), 2, dst.port), ChecksumAt(proto), 0);
      Put16(p, ChecksumAt(proto), sums.transport(src, dst, proto, p))
  }

  function PlainV4(src: Host, dst: Host, proto: Byte, n: nat): (h: seq<Byte>)
    requires |src.address| == |dst.address| == 4
    ensures |h| == IPV4_HEADER
  {
    [0x45, 0] + Be16(ToU16(IPV4_HEADER + n)) + [0, 0, 0, 0, 0x80, proto, 0, 0] + src.address + dst.address
  }

  function HeaderV4(sums: Sums, src: Host, dst: Host, proto: Byte, n: nat): (h: seq<Byte>)
    requires |src.address| == |dst.address| == 4
    ensures |h| == IPV4_HEADER
  {
    var h := PlainV4(src, dst, proto, n);
    Put16(h, 10, sums.header(h))
  }

  function HeaderV6(src: Host, dst: Host, proto: Byte, n: nat): (h: seq<Byte>)
    requires |src.address| == |dst.address| == 16
    ensures |h| == IPV6_HEADER
  {
    [0x60, 0, 0, 0] + Be16(ToU16(n)) + [proto, 0x80] + src.address + dst.address
  }

  predicate SameFamily(src: Host, dst: Host) { |src.address| == |dst.address| && |src.address| in {4, 16} }

  /** The bytes of the packet */
  function Encoded(sums: Sums, src: Host, dst: Host, proto: Byte, data: seq<Byte>): seq<Byte>
    requires SameFamily(src, dst)
  {
    (if |src.address| == 4 then HeaderV4(sums, src, dst, proto, |data|) else HeaderV6(src, dst, proto, |data|))
    + Fixed(sums, src, dst, proto, data)
  }

  function FromData(sums: Sums, src: Host, dst: Host, proto: Byte, data: seq<Byte>): Option<Packet> {
    if SameFamily(src, dst) then Parse(Encoded(sums, src, dst, proto, data)) else None
  }

  // ---------------------------------------------------------------- what the receiver sees

  function Or(port: U16, otherwise: U16): U16 { if port == 0 then otherwise else port }

  lemma PutPortGives(s: seq<Byte>, at: nat, port: U16)
    requires at + 2 <= |s|
    ensures FromBe16(PutPort(s, at, port)[at..at + 2]) == Or(port, FromBe16(s[at..at + 2]))
    ensures forall i | 0 <= i < |s| && !(at <= i < at + 2) :: PutPort(s, at, port)[i] == s[i]
  {
    Be16RoundTrip(port, []);
    assert Be16(port) + [] == Be16(port);
  }

  /** The ports that a parser reads are those of the hosts, and those of the data where they have
      none. */
  lemma FixedPorts(sums: Sums, src: Host, dst: Host, proto: Byte, data: seq<Byte>)
    requires HasTransport(proto, data)
    ensures ParseTransportHeader(Fixed(sums, src, dst, proto, data), proto)
            == Some(Ports(Or(src.port, FromBe16(data[..2])), Or(dst.port, FromBe16(data[2..4]))))
    ensures forall i | 4 <= i < |data| && !(ChecksumAt(proto) <= i < ChecksumAt(proto) + 2) ::
              Fixed(sums, src, dst, proto, data)[i] == data[i]
  {
    var c := ChecksumAt(proto);
    var p1 := PutPort(data, 0, src.port);
    var p2 := PutPort(p1, 2, dst.port);
    var p3 := Put16(p2, c, 0);
    var r := Put16(p3, c, sums.transport(src, dst, proto, p3));
    PutPortGives(data, 0, src.port);
    PutPortGives(p1, 2, dst.port);
    KeepsPorts(p2, c, 0);
    KeepsPorts(p3, c, sums.transport(src, dst, proto, p3));
    assert p2[..2] == p1[0..2] && data[0..2] == data[..2] && p1[2..4] == data[2..4];
  }

  // ---------------------------------------------------------------- the layout

  /** Two bytes have been replaced. */
  ghost function Replaced(s: seq<Byte>, at: nat, a: Byte, b: Byte): seq<Byte>
    requires at + 2 <= |s|
  {
    s[at := a][at + 1 := b]
  }

  lemma Put16Exactly(s: seq<Byte>, at: nat, x: U16)
    requires at + 2 <= |s|
    ensures Put16(s, at, x) == Replaced(s, at, x / 256, x % 256)
  {
  }

  /** Section 3.1 of RFC 791: a header of 5 words without options, a TTL of 128, and the checksum of the
      header with a checksum of 0 */
  lemma HeaderV4Exactly(sums: Sums, src: Host, dst: Host, proto: Byte, n: nat)
    requires |src.address| == |dst.address| == 4
    ensures var h := HeaderV4(sums, src, dst, proto, n);
            var len, sum := (20 + n) % 0x1_0000, sums.header(Replaced(h, 10, 0, 0));
            h == [0x45, 0, len / 256, len % 256, 0, 0, 0, 0, 128, proto, sum / 256, sum % 256]
                 + src.address + dst.address
  {
    var p := PlainV4(src, dst, proto, n);
    var h := HeaderV4(sums, src, dst, proto, n);
    var len := (20 + n) % 0x1_0000;
    Put16Exactly(p, 10, sums.header(p));
    assert p == [0x45, 0, len / 256, len % 256, 0, 0, 0, 0, 128, proto, 0, 0] + src.address + dst.address;
    assert Replaced(h, 10, 0, 0) == p;
  }

  /** Section 3 of RFC 8200: no traffic class or flow label, and a hop limit of 128 */
  lemma HeaderV6Exactly(src: Host, dst: Host, proto: Byte, n: nat)
    requires |src.address| == |dst.address| == 16
    ensures var len := n % 0x1_0000;
            HeaderV6(src, dst, proto, n)
            == [0x60, 0, 0, 0, len / 256, len % 256, proto, 128] + src.address + dst.address
  {
  }

  /** UDP and TCP start with the ports and have their checksum at 6 and 16: ports that are set are
      written, and the checksum is that of the result with a checksum of 0. */
  lemma FixedExactly(sums: Sums, src: Host, dst: Host, proto: Byte, data: seq<Byte>)
    ensures var r := Fixed(sums, src, dst, proto, data);
            if (proto == 17 && |data| >= 8) || (proto == 6 && |data| >= 20) then
              var c := if proto == 17 then 6 else 16;
              var sum := sums.transport(src, dst, proto, Replaced(r, c, 0, 0));
              && |r| == |data| && r[c] == sum / 256 && r[c + 1] == sum % 256
              && r[..2] == (if src.port == 0 then data[..2] else [src.port / 256, src.port % 256])
              && r[2..4] == (if dst.port == 0 then data[2..4] else [dst.port / 256, dst.port % 256])
              && forall i | 4 <= i < |data| && i != c && i != c + 1 :: r[i] == data[i]
            else r == data
  {
    if HasTransport(proto, data) {
      var c := ChecksumAt(proto);
      var p := Put16(PutPort(PutPort(data, 0, src.port), 2, dst.port), c, 0);
      var r := Fixed(sums, src, dst, proto, data);
      Put16Exactly(p, c, sums.transport(src, dst, proto, p));
      assert p[c..c + 2] == Be16(0) && p[c] == p[c..c + 2][0] && p[c + 1] == p[c..c + 2][1];
      assert Replaced(r, c, 0, 0) == p;
      KeepsPorts(PutPort(PutPort(data, 0, src.port), 2, dst.port), c, 0);
      KeepsPorts(p, c, sums.transport(src, dst, proto, p));
      PortsExactly(data, src.port, dst.port);
    }
  }

  lemma PortsExactly(data: seq<Byte>, sport: U16, dport: U16)
    requires |data| >= 4
    ensures var r := PutPort(PutPort(data, 0, sport), 2, dport);
            && |r| == |data| && r[4..] == data[4..]
            && r[..2] == (if sport == 0 then data[..2] else [sport / 256, sport % 256])
            && r[2..4] == (if dport == 0 then data[2..4] else [dport / 256, dport % 256])
  {
    var p := PutPort(data, 0, sport);
    assert p[0..2] == p[..2] && p[2..4] == data[2..4] && p[4..] == data[4..];
  }

  lemma KeepsPorts(s: seq<Byte>, at: nat, x: U16)
    requires 4 <= at && at + 2 <= |s|
    ensures Put16(s, at, x)[..2] == s[..2] && Put16(s, at, x)[2..4] == s[2..4]
  {
  }

  /** The packet that ip_packet_create_from_data is meant to give */
  function Meant(src: Host, dst: Host, proto: Byte, encoding: seq<Byte>, payload: seq<Byte>, ports: Ports): Packet {
    Packet(if |src.address| == 4 then 4 else 6, Host(src.address, ports.source), Host(dst.address, ports.dest),
           encoding, payload, proto)
  }

  /** The length fits its field, and an IPv6 payload is not taken for an extension header. */
  predicate Unambiguous(src: Host, proto: Byte, n: nat) {
    if |src.address| == 4 then IPV4_HEADER + n < 0x1_0000
    else n < 0x1_0000 && (!IsExtension(proto) || n < 2)
  }

  lemma HeaderV4Fields(sums: Sums, src: Host, dst: Host, proto: Byte, n: nat, rest: seq<Byte>)
    requires |src.address| == |dst.address| == 4
    ensures var s := HeaderV4(sums, src, dst, proto, n) + rest;
            && s[0] == 0x45 && s[9] == proto && s[12..16] == src.address && s[16..20] == dst.address
            && FromBe16(s[2..4]) == ToU16(IPV4_HEADER + n) && FromBe16(s[6..8]) == 0 && s[20..] == rest
  {
    var h := PlainV4(src, dst, proto, n);
    var s := HeaderV4(sums, src, dst, proto, n) + rest;
    var len := ToU16(IPV4_HEADER + n);
    assert h[2..4] == Be16(len) + [] && h[12..16] == src.address && h[16..20] == dst.address;
    Be16RoundTrip(len, []);
    assert s[2..4] == h[2..4] && s[12..16] == h[12..16] && s[16..20] == h[16..20] && s[6..8] == [0, 0];
  }

  lemma BuiltV4Exactly(sums: Sums, src: Host, dst: Host, proto: Byte, data: seq<Byte>, ports: Ports)
    requires |src.address| == |dst.address| == 4
    requires ParseTransportHeader(Fixed(sums, src, dst, proto, data), proto) == Some(ports)
    ensures var payload := Fixed(sums, src, dst, proto, data);
            FromData(sums, src, dst, proto, data)
            == Some(Meant(src, dst, proto, Encoded(sums, src, dst, proto, data), payload, ports))
            <==> Unambiguous(src, proto, |data|)
  {
    var payload := Fixed(sums, src, dst, proto, data);
    var s := Encoded(sums, src, dst, proto, data);
    HeaderV4Fields(sums, src, dst, proto, |data|, payload);
    if Unambiguous(src, proto, |data|) {
      assert s[..|s|] == s;
      assert Skip(s, 20) == payload;
    } else if Parse(s).Some? {
      assert |Parse(s).value.encoding| < |s|;
    }
  }

  lemma HeaderV6Fields(src: Host, dst: Host, proto: Byte, n: nat, rest: seq<Byte>)
    requires |src.address| == |dst.address| == 16
    ensures var s := HeaderV6(src, dst, proto, n) + rest;
            && s[0] == 0x60 && s[6] == proto && s[8..24] == src.address && s[24..40] == dst.address
            && FromBe16(s[4..6]) == ToU16(n) && s[40..] == rest
  {
    var s := HeaderV6(src, dst, proto, n) + rest;
    assert s[4..6] == Be16(ToU16(n)) + [];
    Be16RoundTrip(ToU16(n), []);
  }

  /** Behind an extension header there is less than before it. */
  lemma WalkShortens(proto: Byte, payload: seq<Byte>)
    requires IsExtension(proto) && |payload| >= 2 && Walk(proto, payload, false).Some?
    ensures |Walk(proto, payload, false).value.payload| < |payload|
  {
    WalkStaysInside(payload[0], Skip(payload, 8 * (payload[1] as int + 1)), proto == FRAGMENT);
  }

  lemma BuiltV6Exactly(sums: Sums, src: Host, dst: Host, proto: Byte, data: seq<Byte>, ports: Ports)
    requires |src.address| == |dst.address| == 16
    requires ParseTransportHeader(Fixed(sums, src, dst, proto, data), proto) == Some(ports)
    ensures var payload := Fixed(sums, src, dst, proto, data);
            FromData(sums, src, dst, proto, data)
            == Some(Meant(src, dst, proto, Encoded(sums, src, dst, proto, data), payload, ports))
            <==> Unambiguous(src, proto, |data|)
  {
    var payload := Fixed(sums, src, dst, proto, data);
    var s := Encoded(sums, src, dst, proto, data);
    HeaderV6Fields(src, dst, proto, |data|, payload);
    if |data| >= 0x1_0000 {
      assert Parse(s).Some? ==> |Parse(s).value.encoding| < |s|;
    } else {
      assert s[..|s|] == s;
      assert Skip(s, 40) == payload;
      if IsExtension(proto) && |data| >= 2 && Parse(s).Some? {
        WalkShortens(proto, payload);
      }
    }
  }

  /** The ports that a parser sees in a payload: none for protocols without ports, and nothing at
      all if the transport header is cut off.  An IPv6 payload below 2 bytes is not looked into. */
  function SeenPorts(src: Host, proto: Byte, payload: seq<Byte>): Option<Ports> {
    if |src.address| == 16 && |payload| < 2 then Some(Ports(0, 0)) else ParseTransportHeader(payload, proto)
  }

  lemma TinyV6(sums: Sums, src: Host, dst: Host, proto: Byte, data: seq<Byte>)
    requires |src.address| == |dst.address| == 16 && |data| < 2
    ensures FromData(sums, src, dst, proto, data)
            == Some(Meant(src, dst, proto, Encoded(sums, src, dst, proto, data), data, Ports(0, 0)))
  {
    var s := Encoded(sums, src, dst, proto, data);
    HeaderV6Fields(src, dst, proto, |data|, data);
    assert s[..|s|] == s && Skip(s, 40) == data;
  }

  lemma CutTransport(sums: Sums, src: Host, dst: Host, proto: Byte, data: seq<Byte>)
    requires SameFamily(src, dst) && SeenPorts(src, proto, Fixed(sums, src, dst, proto, data)).None?
    ensures FromData(sums, src, dst, proto, data).None?
  {
    var payload := Fixed(sums, src, dst, proto, data);
    var s := Encoded(sums, src, dst, proto, data);
    assert s[..|s|] == s;
    if |src.address| == 4 {
      HeaderV4Fields(sums, src, dst, proto, |data|, payload);
      assert Skip(s, 20) == payload;
    } else {
      HeaderV6Fields(src, dst, proto, |data|, payload);
      assert Skip(s, 40) == payload;
    }
  }

  /** A packet built from data is refused if its transport header is cut off.  Otherwise it parses
      back into its hosts, protocol and data if and only if its length fits and, for IPv6, the
      protocol is not an extension header, unless there are less than 2 bytes of it. */
  lemma BuiltExactly(sums: Sums, src: Host, dst: Host, proto: Byte, data: seq<Byte>)
    requires SameFamily(src, dst)
    ensures var payload := Fixed(sums, src, dst, proto, data);
            var ports := SeenPorts(src, proto, payload);
            var encoding := Encoded(sums, src, dst, proto, data);
            if ports.None? then FromData(sums, src, dst, proto, data).None?
            else (FromData(sums, src, dst, proto, data) == Some(Meant(src, dst, proto, encoding, payload, ports.value))
                  <==> Unambiguous(src, proto, |data|))
  {
    var ports := SeenPorts(src, proto, Fixed(sums, src, dst, proto, data));
    if ports.None? {
      CutTransport(sums, src, dst, proto, data);
    } else if |src.address| == 4 {
      BuiltV4Exactly(sums, src, dst, proto, data, ports.value);
    } else if |data| < 2 {
      TinyV6(sums, src, dst, proto, data);
    } else {
      BuiltV6Exactly(sums, src, dst, proto, data, ports.value);
    }
  }

  /** ip_packet_create_udp_from_data */
  function UdpFromData(sums: Sums, src: Host, dst: Host, data: seq<Byte>): Option<Packet> {
    FromData(sums, src, dst, IPPROTO_UDP, UdpPayload(data))
  }

  function UdpPayload(data: seq<Byte>): (p: seq<Byte>)
    ensures |p| == 8 + |data|
  {
    [0, 0, 0, 0] + Be16(ToU16(8 + |data|)) + [0, 0] + data
  }

  /** RFC 768: no ports yet, the length of header and data, and no checksum yet */
  lemma UdpPayloadExactly(data: seq<Byte>)
    ensures var n := (8 + |data|) % 0x1_0000;
            UdpPayload(data) == [0, 0, 0, 0, n / 256, n % 256, 0, 0] + data
  {
  }

  /** A UDP packet carries the ports of both hosts and the data, if and only if it fits. */
  lemma UdpExactly(sums: Sums, src: Host, dst: Host, data: seq<Byte>)
    requires SameFamily(src, dst)
    ensures var r := UdpFromData(sums, src, dst, data);
            (r.Some? && r.value.src == src && r.value.dst == dst && r.value.nextHeader == IPPROTO_UDP
             && |r.value.payload| == 8 + |data| && r.value.payload[8..] == data)
            <==> Unambiguous(src, IPPROTO_UDP, 8 + |data|)
  {
    var p := UdpPayload(data);
    var payload := Fixed(sums, src, dst, IPPROTO_UDP, p);
    FixedPorts(sums, src, dst, IPPROTO_UDP, p);
    assert p[..2] == [0, 0] && p[2..4] == [0, 0] && p[8..] == data;
    assert payload[8..] == p[8..];
    BuiltExactly(sums, src, dst, IPPROTO_UDP, p);
    if !Unambiguous(src, IPPROTO_UDP, 8 + |data|) {
      TooLongIsCut(sums, src, dst, p);
    }
  }

  lemma TooLongIsCut(sums: Sums, src: Host, dst: Host, p: seq<Byte>)
    requires SameFamily(src, dst) && !Unambiguous(src, IPPROTO_UDP, |p|)
    ensures var r := FromData(sums, src, dst, IPPROTO_UDP, p);
            r.Some? ==> |r.value.payload| < |p|
  {
    var payload := Fixed(sums, src, dst, IPPROTO_UDP, p);
    var s := Encoded(sums, src, dst, IPPROTO_UDP, p);
    if |src.address| == 4 {
      HeaderV4Fields(sums, src, dst, IPPROTO_UDP, |p|, payload);
    } else {
      HeaderV6Fields(src, dst, IPPROTO_UDP, |p|, payload);
    }
  }

  // ---------------------------------------------------------------- implementation

  /** Writes a 16-bit field into the part of a packet behind position `from`. */
  method Write16(packet: array<Byte>, from: nat, at: nat, x: U16)
    requires from + at + 2 <= packet.Length
    modifies packet
    ensures packet[..from] == old(packet[..from])
    ensures packet[from..] == Put16(old(packet[from..]), at, x)
  {
    packet[from + at], packet[from + at + 1] := x / 0x100, x % 0x100;
    assert packet[from..] == Put16(old(packet[from..]), at, x);
  }

  method WritePort(packet: array<Byte>, from: nat, at: nat, port: U16)
    requires from + at + 2 <= packet.Length
    modifies packet
    ensures packet[..from] == old(packet[..from])
    ensures packet[from..] == PutPort(old(packet[from..]), at, port)
  {
    if port != 0 {
      Write16(packet, from, at, port);
    }
  }

  /** fix_transport_header on the part of the packet behind the IP header, in place */
  method FixTransportHeader(sums: Sums, src: Host, dst: Host, proto: Byte, packet: array<Byte>, from: nat)
    requires from <= packet.Length
    modifies packet
    ensures packet[..from] == old(packet[..from])
    ensures packet[from..] == Fixed(sums, src, dst, proto, old(packet[from..]))
  {
    var n := packet.Length - from;
    if !(proto == IPPROTO_UDP && n >= 8) && !(proto == IPPROTO_TCP && n >= 20) {
      return;
    }
    var at := if proto == IPPROTO_UDP then 6 else 16;
    WritePort(packet, from, 0, src.port);
    WritePort(packet, from, 2, dst.port);
    Write16(packet, from, at, 0);
    Write16(packet, from, at, sums.transport(src, dst, proto, packet[from..]));
  }

  /** Header and data in one buffer, and the transport header fixed there */
  method Assemble(sums: Sums, src: Host, dst: Host, proto: Byte, header: seq<Byte>, data: seq<Byte>)
    returns (packet: array<Byte>)
    ensures packet[..] == header + Fixed(sums, src, dst, proto, data)
  {
    var bytes := header + data;
    packet := new Byte[|bytes|](i requires 0 <= i < |bytes| => bytes[i]);
    assert packet[..] == bytes;
    assert packet[|header|..] == data && packet[..|header|] == header;
    FixTransportHeader(sums, src, dst, proto, packet, |header|);
    assert packet[..] == packet[..|header|] + packet[|header|..];
  }

  method CreateFromData(sums: Sums, src: Host, dst: Host, proto: Byte, data: seq<Byte>) returns (r: Option<Packet>)
    ensures r == FromData(sums, src, dst, proto, data)
  {
    if |src.address| != |dst.address| || (|src.address| != 4 && |src.address| != 16) {
      return None;
    }
    var header := if |src.address| == 4 then HeaderV4(sums, src, dst, proto, |data|)
                  else HeaderV6(src, dst, proto, |data|);
    var packet := Assemble(sums, src, dst, proto, header, data);
    r := Create(packet[..]);
  }
}
