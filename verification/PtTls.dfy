/** PT-TLS framing over a TLS byte stream (pt_tls.c, section 3.5 of RFC 6876). */
module PtTls {
  import opened Bytes

  const HEADER_LEN: nat := 16

  datatype Message = Message(kind: U32, identifier: U32, value: seq<Byte>)

  /** What pt_tls_read hands to its caller */
  datatype Received = Received(vendor: nat, message: Message)

  // ---------------------------------------------------------------- specification

  /** The bytes of a message: reserved, vendor 0, type, length with the header, identifier, value */
  function Written(m: Message): (s: seq<Byte>)
    ensures |s| == HEADER_LEN + |m.value|
  {
    [0] + [0, 0, 0] + Be32(m.kind) + Be32(ToU32(HEADER_LEN + |m.value|)) + Be32(m.identifier) + m.value
  }

  function DeclaredLen(s: seq<Byte>): nat
    requires |s| >= HEADER_LEN
  {
    FromBe32(s[8..12])
  }

  /** Reading one message from a stream that ends after `s` */
  function Parsed(s: seq<Byte>): Option<Received> {
    if |s| < HEADER_LEN || DeclaredLen(s) < HEADER_LEN || |s| < DeclaredLen(s) then None
    else Some(Received(s[1] as int * 0x1_0000 + FromBe16(s[2..4]),
                       Message(FromBe32(s[4..8]), FromBe32(s[12..16]), s[HEADER_LEN..DeclaredLen(s)])))
  }

  /** What is left of the stream afterwards: a short header is consumed, a missing rest too. */
  function Left(s: seq<Byte>): seq<Byte> {
    if |s| < HEADER_LEN then []
    else if DeclaredLen(s) < HEADER_LEN then s[HEADER_LEN..]
    else if |s| < DeclaredLen(s) then []
    else s[DeclaredLen(s)..]
  }

  function WrittenAll(ms: seq<Message>): seq<Byte> {
    if ms == [] then [] else Written(ms[0]) + WrittenAll(ms[1..])
  }

  /** Reading `n` messages one after the other */
  function ParsedAll(s: seq<Byte>, n: nat): Option<seq<Received>> {
    if n == 0 then Some([])
    else if Parsed(s).None? || ParsedAll(Left(s), n - 1).None? then None
    else Some([Parsed(s).value] + ParsedAll(Left(s), n - 1).value)
  }

  predicate FitsLength(m: Message) { HEADER_LEN + |m.value| < 0x1_0000_0000 }

  lemma WrittenFields(m: Message, rest: seq<Byte>)
    ensures var s := Written(m) + rest;
            && s[1] == 0 && s[2..4] == [0, 0]
            && FromBe32(s[4..8]) == m.kind && FromBe32(s[12..16]) == m.identifier
            && DeclaredLen(s) == ToU32(HEADER_LEN + |m.value|)
            && s[HEADER_LEN..] == m.value + rest
  {
    var s := Written(m) + rest;
    var len := ToU32(HEADER_LEN + |m.value|);
    assert s[4..8] == Be32(m.kind) + [];
    assert s[8..12] == Be32(len) + [];
    assert s[12..16] == Be32(m.identifier) + [];
    Be32RoundTrip(m.kind, []);
    Be32RoundTrip(len, []);
    Be32RoundTrip(m.identifier, []);
  }

  /** Section 3.5 of RFC 6876: a reserved byte, the vendor, the type, the length of all of it and the
      identifier, each in network byte order, and then the value */
  lemma LayoutExactly(m: Message)
    ensures var s := Written(m);
            && s[0] == 0 && Number(s[1..4]) == 0 && Number(s[4..8]) == m.kind
            && Number(s[8..12]) == |s| % 0x1_0000_0000 && Number(s[12..16]) == m.identifier && s[16..] == m.value
  {
    var s := Written(m);
    BigEndian(m.kind, 0);
    BigEndian(ToU32(HEADER_LEN + |m.value|), 0);
    BigEndian(m.identifier, 0);
    assert s[4..8] == Be32(m.kind) && s[8..12] == Be32(ToU32(HEADER_LEN + |m.value|));
    assert s[12..16] == Be32(m.identifier) && s[1..4] == [0, 0, 0];
    assert [0, 0, 0][..2] == [0, 0] && [0, 0][..1] == [0] && [0][..0] == [];
  }

  /** Anything that starts with a header is read in the same layout, of any vendor. */
  lemma ReadExactly(s: seq<Byte>)
    requires |s| >= 16
    ensures var len := Number(s[8..12]);
            if len < 16 then Parsed(s).None? && Left(s) == s[16..]
            else if len > |s| then Parsed(s).None? && Left(s) == []
            else
              && Parsed(s).Some? && Left(s) == s[len..]
              && var r := Parsed(s).value;
                 && r.vendor == Number(s[1..4]) && r.message.kind == Number(s[4..8])
                 && r.message.identifier == Number(s[12..16]) && r.message.value == s[16..len]
  {
    NumberOfThree(s[1..4]);
    assert s[1..4][1..] == s[2..4];
    NumberOfFour(s[4..8]);
    NumberOfFour(s[8..12]);
    NumberOfFour(s[12..16]);
  }

  /** A written message is read back, and what follows it stays in the stream, if and only if its
      length fits the 32-bit length field. */
  lemma RoundTripExactly(m: Message, rest: seq<Byte>)
    ensures Parsed(Written(m) + rest) == Some(Received(0, m)) && Left(Written(m) + rest) == rest <==> FitsLength(m)
  {
    var s := Written(m) + rest;
    WrittenFields(m, rest);
    var len := DeclaredLen(s);
    if FitsLength(m) {
      assert s[HEADER_LEN..len] == s[HEADER_LEN..][..|m.value|] == m.value;
      assert s[len..] == s[HEADER_LEN..][|m.value|..] == rest;
    } else if Parsed(s).Some? {
      assert |Parsed(s).value.message.value| < |m.value|;
    }
  }

  function Plainly(ms: seq<Message>): seq<Received> {
    seq(|ms|, i requires 0 <= i < |ms| => Received(0, ms[i]))
  }

  /** Any sequence of messages comes back in order and unchanged, empty values included. */
  lemma {:induction false} SequenceRoundTrip(ms: seq<Message>, rest: seq<Byte>)
    requires forall m | m in ms :: FitsLength(m)
    ensures ParsedAll(WrittenAll(ms) + rest, |ms|) == Some(Plainly(ms))
  {
    if ms != [] {
      var tail := WrittenAll(ms[1..]) + rest;
      assert WrittenAll(ms) + rest == Written(ms[0]) + tail;
      assert ms[0] in ms;
      RoundTripExactly(ms[0], tail);
      SequenceRoundTrip(ms[1..], rest);
      assert Plainly(ms) == [Received(0, ms[0])] + Plainly(ms[1..]);
    }
  }

  // ---------------------------------------------------------------- implementation

  /** A TLS connection: `incoming` is all the peer has sent before closing, `outgoing` all that
      was written.  How many bytes one read or write moves is up to the transport.  Only on a
      healthy connection does every read before the end return something. */
  class TlsSocket {
    const healthy: bool
    var incoming: seq<Byte>
    var outgoing: seq<Byte>

    constructor (incoming: seq<Byte>, healthy: bool)
      ensures this.incoming == incoming && outgoing == [] && this.healthy == healthy
    {
      this.incoming, outgoing, this.healthy := incoming, [], healthy;
    }

    method Read(max: nat) returns (got: seq<Byte>)
      requires max > 0
      modifies `incoming
      ensures IsSuffix(incoming, old(incoming))
      ensures got == old(incoming)[..|old(incoming)| - |incoming|] && |got| <= max
      ensures got == [] ==> old(incoming) == [] || !healthy
    {
      if |incoming| == 0 {
        return [];
      }
      var n: nat :| (if healthy then 1 else 0) <= n <= max && n <= |incoming|;
      got := incoming[..n];
      incoming := incoming[n..];
    }

    method Write(data: seq<Byte>) returns (n: nat)
      modifies `outgoing
      ensures n <= |data| && outgoing == old(outgoing) + data[..n]
    {
      n :| 0 <= n <= |data|;
      outgoing := outgoing + data[..n];
    }
  }

  /** read_tls: collects `len` bytes however the reads split them.  It fails on a connection that does,
      and on a healthy one exactly if the stream is too short, which is then used up. */
  method ReadTls(tls: TlsSocket, len: nat) returns (r: Option<seq<Byte>>)
    modifies tls`incoming
    ensures IsSuffix(tls.incoming, old(tls.incoming))
    ensures r.Some? ==>
              && len <= |old(tls.incoming)|
              && r.value == old(tls.incoming)[..len] && tls.incoming == old(tls.incoming)[len..]
    ensures r.None? ==> |old(tls.incoming)| < len + |tls.incoming|
    ensures r.None? && tls.healthy ==> tls.incoming == []
  {
    var buf := [];
    ghost var s := tls.incoming;
    while |buf| < len
      invariant |buf| <= len && |buf| <= |s| && buf == s[..|buf|] && tls.incoming == s[|buf|..]
      decreases len - |buf|
    {
      var got := tls.Read(len - |buf|);
      if got == [] {
        return None;
      }
      buf := buf + got;
    }
    return Some(buf);
  }

  method PtTlsRead(tls: TlsSocket) returns (r: Option<Received>)
    modifies tls`incoming
    ensures r.Some? || tls.healthy ==> r == Parsed(old(tls.incoming)) && tls.incoming == Left(old(tls.incoming))
    ensures IsSuffix(tls.incoming, old(tls.incoming))
  {
    ghost var s := tls.incoming;
    var header := ReadTls(tls, HEADER_LEN);
    if header.None? {
      return None;
    }
    var h := header.value;
    var vendor := h[1] as int * 0x1_0000 + FromBe16(h[2..4]);
    var kind, len, identifier := FromBe32(h[4..8]), FromBe32(h[8..12]), FromBe32(h[12..16]);
    assert h[1] == s[1] && h[2..4] == s[2..4] && h[4..8] == s[4..8] && h[8..12] == s[8..12] && h[12..16] == s[12..16];
    if len < HEADER_LEN {
      return None;
    }
    var body := ReadTls(tls, len - HEADER_LEN);
    if body.None? {
      return None;
    }
    assert body.value == s[HEADER_LEN..len] && tls.incoming == s[len..];
    return Some(Received(vendor, Message(kind, identifier, body.value)));
  }

  /** The message has been written entirely if and only if the call says so. */
  method PtTlsWrite(tls: TlsSocket, kind: U32, identifier: U32, data: seq<Byte>) returns (ok: bool)
    modifies tls`outgoing
    ensures ok <==> tls.outgoing == old(tls.outgoing) + Written(Message(kind, identifier, data))
    ensures exists n | 0 <= n <= HEADER_LEN + |data| ::
              tls.outgoing == old(tls.outgoing) + Written(Message(kind, identifier, data))[..n]
  {
    var out := [0] + [0, 0, 0] + Be32(kind) + Be32(ToU32(HEADER_LEN + |data|)) + Be32(identifier) + data;
    var n := tls.Write(out);
    ok := n == |out|;
    assert |tls.outgoing| == |old(tls.outgoing)| + n;
  }
}
