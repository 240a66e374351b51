/** IP packets laid out as RFC 791 and RFC 8200 say, and what ip_packet_create finds in them. */
module IpLayout {
  import opened Bytes
  import opened IpPacket

  // ---------------------------------------------------------------- the transport header

  /** TCP and UDP start with both ports, unless these are hidden because the packet is a fragment. */
  ghost function PortAt(payload: seq<Byte>, at: nat, proto: Byte, hidden: bool): nat {
    if !hidden && proto in {6, 17} && |payload| >= at + 2 then Number(payload[at..at + 2]) else 0
  }

  /** The transport header is cut off. */
  ghost predicate Cut(payload: seq<Byte>, proto: Byte, hidden: bool) {
    !hidden && ((proto == 17 && |payload| < 8) || (proto == 6 && |payload| < 20))
  }

  /** What a packet with these contents is parsed into */
  ghost predicate IsParsed(r: Option<Packet>, version: Byte, src: seq<Byte>, dst: seq<Byte>, proto: Byte,
                           payload: seq<Byte>, encoding: seq<Byte>, hidden: bool) {
    && r.Some? && r.value.version == version && r.value.nextHeader == proto
    && r.value.payload == payload && r.value.encoding == encoding
    && r.value.src.address == src && r.value.src.port == PortAt(payload, 0, proto, hidden)
    && r.value.dst.address == dst && r.value.dst.port == PortAt(payload, 2, proto, hidden)
  }

  lemma TransportExactly(payload: seq<Byte>, proto: Byte)
    ensures var r := ParseTransportHeader(payload, proto);
            && (r.None? <==> Cut(payload, proto, false))
            && (r.Some? ==> r.value.source == PortAt(payload, 0, proto, false)
                            && r.value.dest == PortAt(payload, 2, proto, false))
  {
    BigEndian(0, 0);
    assert |payload| >= 2 ==> payload[..2] == payload[0..2];
  }

  // ---------------------------------------------------------------- IPv4

  /** The packet ends at its declared length, or earlier with the data. */
  ghost predicate EndsAt(declared: nat, encoding: seq<Byte>, tail: seq<Byte>) {
    |encoding| == declared || (|encoding| < declared && tail == [])
  }

  /** Section 3.1 of RFC 791: a header of as many words as it says, then the payload.  What follows
      the declared length is not part of the packet.  Only the first fragment has ports. */
  lemma V4Exactly(data: seq<Byte>, head: seq<Byte>, payload: seq<Byte>, tail: seq<Byte>)
    requires data == head + payload + tail && |data| >= 20 && data[0] / 16 == 4
    requires EndsAt(4 * (data[0] % 16), head, payload) && EndsAt(Number(data[2..4]), head + payload, tail)
    ensures var hidden := Number(data[6..8]) % 0x2000 != 0;
            if Cut(payload, data[9], hidden) then Parse(data).None?
            else IsParsed(Parse(data), 4, data[12..16], data[16..20], data[9], payload, head + payload, hidden)
  {
    FieldIsNumber(data[2..4]);
    FieldIsNumber(data[6..8]);
    assert data[..|head| + |payload|] == head + payload;
    assert Skip(head + payload, 4 * (data[0] % 16)) == payload;
    TransportExactly(payload, data[9]);
  }

  /** Every packet with a whole fixed header is laid out in this way. */
  lemma EveryV4(data: seq<Byte>) returns (head: seq<Byte>, payload: seq<Byte>, tail: seq<Byte>)
    requires |data| >= 20 && data[0] / 16 == 4
    ensures data == head + payload + tail
    ensures EndsAt(4 * (data[0] % 16), head, payload) && EndsAt(Number(data[2..4]), head + payload, tail)
  {
    var n, k: nat := Min(|data|, Number(data[2..4])), 4 * (data[0] % 16);
    head, payload, tail := if k < n then data[..k] else data[..n], if k < n then data[k..n] else [], data[n..];
    assert head + payload == data[..n];
    assert data == data[..n] + data[n..];
  }

  // ---------------------------------------------------------------- IPv6

  /** An extension header: its kind, and what follows its next header and length bytes */
  datatype Extension = Extension(kind: Byte, body: seq<Byte>)

  /** Section 4 of RFC 8200: the length counts units of 8 octets, without the first one. */
  ghost predicate WellLaid(x: Extension) {
    && x.kind in {0, 43, 44, 60, 135, 139, 140}
    && (|x.body| + 2) % 8 == 0 && |x.body| + 2 <= 8 * 256
  }

  ghost predicate AllWellLaid(chain: seq<Extension>) { forall x | x in chain :: WellLaid(x) }

  ghost function FirstKind(chain: seq<Extension>, proto: Byte): Byte { if chain == [] then proto else chain[0].kind }

  /** The chain, each header naming the next one, and then the upper layer */
  ghost function Laid(chain: seq<Extension>, proto: Byte, payload: seq<Byte>): seq<Byte>
    requires AllWellLaid(chain)
  {
    if chain == [] then payload
    else
      assert chain[0] in chain;
      [FirstKind(chain[1..], proto), (|chain[0].body| + 2) / 8 - 1] + chain[0].body + Laid(chain[1..], proto, payload)
  }

  ghost predicate Fragmented(chain: seq<Extension>) { exists x | x in chain :: x.kind == 44 }

  lemma FragmentedStep(chain: seq<Extension>)
    requires chain != []
    ensures Fragmented(chain) <==> chain[0].kind == 44 || Fragmented(chain[1..])
  {
    assert forall x | x in chain :: x == chain[0] || x in chain[1..];
    assert chain[0] in chain && forall x | x in chain[1..] :: x in chain;
  }

  /** The chain ends: with no room for another header, with an upper layer, or with an extension
      header that says it is longer than what is left. */
  ghost predicate EndsWith(proto: Byte, rest: seq<Byte>) {
    |rest| < 2 || proto !in {0, 43, 44, 60, 135, 139, 140} || |rest| < 8 * (rest[1] as int + 1)
  }

  /** What the parser takes for the upper layer: nothing is left of an extension header that is cut off. */
  ghost predicate IsUpper(r: Option<Upper>, proto: Byte, rest: seq<Byte>, fragment: bool) {
    if |rest| >= 2 && proto in {0, 43, 44, 60, 135, 139, 140} then r == Some(Upper(rest[0], [], Ports(0, 0)))
    else
      var hidden := fragment || |rest| < 2;
      && (r.None? <==> Cut(rest, proto, hidden))
      && (r.Some? ==> && r.value.proto == proto && r.value.payload == rest
                      && r.value.ports.source == PortAt(rest, 0, proto, hidden)
                      && r.value.ports.dest == PortAt(rest, 2, proto, hidden))
  }

  lemma {:induction false} ChainExactly(chain: seq<Extension>, proto: Byte, rest: seq<Byte>, fragment: bool)
    requires AllWellLaid(chain) && EndsWith(proto, rest)
    ensures IsUpper(Walk(FirstKind(chain, proto), Laid(chain, proto, rest), fragment), proto, rest,
                    fragment || Fragmented(chain))
    decreases |chain|
  {
    if chain == [] {
      TransportExactly(rest, proto);
    } else {
      assert chain[0] in chain;
      var bytes, next := Laid(chain, proto, rest), Laid(chain[1..], proto, rest);
      ExtensionSkips(chain[0], FirstKind(chain[1..], proto), next, bytes);
      FragmentedStep(chain);
      ChainExactly(chain[1..], proto, rest, fragment || chain[0].kind == 44);
    }
  }

  lemma ExtensionSkips(x: Extension, next: Byte, rest: seq<Byte>, bytes: seq<Byte>)
    requires WellLaid(x) && bytes == [next, (|x.body| + 2) / 8 - 1] + x.body + rest
    ensures bytes[0] == next && Skip(bytes, 8 * (bytes[1] as int + 1)) == rest
  {
    assert 8 * (bytes[1] as int + 1) == |x.body| + 2;
    assert bytes[|x.body| + 2..] == rest;
  }

  /** All bytes are laid out in this way, whatever the first header is said to be. */
  lemma {:induction false} EveryChain(kind: Byte, bytes: seq<Byte>)
      returns (chain: seq<Extension>, proto: Byte, rest: seq<Byte>)
    ensures AllWellLaid(chain) && EndsWith(proto, rest)
    ensures kind == FirstKind(chain, proto) && bytes == Laid(chain, proto, rest)
    decreases |bytes|
  {
    if EndsWith(kind, bytes) {
      chain, proto, rest := [], kind, bytes;
    } else {
      var n := 8 * (bytes[1] as int + 1);
      var x := Extension(kind, bytes[2..n]);
      var chain1;
      chain1, proto, rest := EveryChain(bytes[0], bytes[n..]);
      chain := [x] + chain1;
      assert chain[1..] == chain1;
      assert bytes == [bytes[0], bytes[1]] + x.body + bytes[n..];
    }
  }

  /** Section 3 of RFC 8200, with any chain of extension headers: the parser returns the upper layer
      and its ports, which a Fragment header anywhere in the chain hides. */
  lemma V6Exactly(data: seq<Byte>, chain: seq<Extension>, proto: Byte, rest: seq<Byte>, tail: seq<Byte>)
    requires |data| >= 40 && data[0] / 16 == 6 && AllWellLaid(chain) && EndsWith(proto, rest)
    requires data[40..] == Laid(chain, proto, rest) + tail && data[6] == FirstKind(chain, proto)
    requires EndsAt(Number(data[4..6]), Laid(chain, proto, rest), tail)
    ensures var hidden := Fragmented(chain) || |rest| < 2;
            var encoding := data[..40] + Laid(chain, proto, rest);
            if |rest| >= 2 && proto in {0, 43, 44, 60, 135, 139, 140}
            then IsParsed(Parse(data), 6, data[8..24], data[24..40], rest[0], [], encoding, true)
            else if Cut(rest, proto, hidden) then Parse(data).None?
            else IsParsed(Parse(data), 6, data[8..24], data[24..40], proto, rest, encoding, hidden)
  {
    ParsesBehindHeader(data, Laid(chain, proto, rest), tail);
    ChainExactly(chain, proto, rest, false);
  }

  lemma ParsesBehindHeader(data: seq<Byte>, bytes: seq<Byte>, tail: seq<Byte>)
    requires |data| >= 40 && data[0] / 16 == 6 && data[40..] == bytes + tail
    requires EndsAt(Number(data[4..6]), bytes, tail)
    ensures Parse(data) == match Walk(data[6], bytes, false)
                           case None => None
                           case Some(upper) => Some(PacketV6(data, data[..40] + bytes, upper))
  {
    Behind(data, bytes, tail);
    FieldIsNumber(data[4..6]);
    assert Min(|data|, DeclaredLength(data)) == 40 + |bytes|;
  }

  lemma Behind(data: seq<Byte>, bytes: seq<Byte>, tail: seq<Byte>)
    requires |data| >= 40 && data[40..] == bytes + tail
    ensures |data| == 40 + |bytes| + |tail|
    ensures data[..40 + |bytes|] == data[..40] + bytes && Skip(data[..40] + bytes, 40) == bytes
  {
    assert data == data[..40] + data[40..];
  }

  lemma FieldIsNumber(s: seq<Byte>)
    requires |s| == 2
    ensures FromBe16(s) == Number(s)
  {
    BigEndian(0, 0);
  }

  /** What is refused outright */
  lemma Refused(data: seq<Byte>)
    requires data == [] || data[0] / 16 !in {4, 6} || |data| < (if data[0] / 16 == 4 then 20 else 40)
    ensures Parse(data).None?
  {
  }
}
