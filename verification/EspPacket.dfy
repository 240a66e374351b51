/** ESP packets (esp_packet.c): padding, encryption and decryption, and when decryption gives
    back what was encrypted (sections 2.4 and 2.7 of RFC 4303). */
module EspPacket {
  import opened Bytes
  import opened EspContext
  import opened IpPacket

  const IPPROTO_IPIP: Byte := 4
  const IPPROTO_IPV6: Byte := 41
  const IPPROTO_NONE: Byte := 59

  datatype Status = SUCCESS | FAILED | NOT_FOUND | PARSE_ERROR | VERIFY_ERROR

  // ---------------------------------------------------------------- padding

  /** The monotonic padding 1, 2, 3, ... of RFC 4303 */
  function Padding(n: nat): (s: seq<Byte>)
    ensures |s| == n && forall i | 0 <= i < n :: s[i] == ToU8(i + 1)
  {
    seq(n, i requires 0 <= i < n => ToU8(i + 1))
  }

  method GeneratePadding(padding: array<Byte>)
    modifies padding
    ensures padding[..] == Padding(padding.Length)
  {
    var i := 0;
    while i < padding.Length
      invariant 0 <= i <= padding.Length
      invariant forall k | 0 <= k < i :: padding[k] == ToU8(k + 1)
    {
      padding[i] := ToU8(i + 1);
      i := i + 1;
    }
  }

  method CheckPadding(padding: seq<Byte>) returns (ok: bool)
    ensures ok <==> padding == Padding(|padding|)
  {
    var i := 0;
    while i < |padding|
      invariant 0 <= i <= |padding|
      invariant forall k | 0 <= k < i :: padding[k] == ToU8(k + 1)
    {
      if padding[i] != ToU8(i + 1) {
        return false;
      }
      i := i + 1;
    }
    return true;
  }

  /** The padding that aligns the plaintext to the block size, and then the ICV to 4 bytes. */
  function PaddingLen(a: Aead, payloadLen: nat): (n: nat)
    requires a.blockSize > 0
    ensures (a.ivSize + payloadLen + 2 + n) % 4 == 0
  {
    var plainLen := payloadLen + 2;
    var n := PadLen(plainLen, a.blockSize);
    n + PadLen(a.ivSize + plainLen + n, 4)
  }

  /** The plaintext fills whole blocks, as decrypt demands. */
  predicate Aligned(a: Aead, payloadLen: nat)
    requires a.blockSize > 0
  {
    (payloadLen + 2 + PaddingLen(a, payloadLen)) % a.blockSize == 0
  }

  function Plaintext(a: Aead, payload: seq<Byte>, nextHeader: Byte): seq<Byte>
    requires a.blockSize > 0
  {
    var n := PaddingLen(a, |payload|);
    payload + Padding(n) + [ToU8(n)] + [nextHeader]
  }

  /** The part of encrypt that writes payload, padding and trailer. */
  method WritePlaintext(a: Aead, payload: seq<Byte>, nextHeader: Byte) returns (plain: seq<Byte>)
    requires a.blockSize > 0
    ensures plain == Plaintext(a, payload, nextHeader)
  {
    var plainLen := |payload| + 2;
    var paddingLen := PadLen(plainLen, a.blockSize);
    paddingLen := paddingLen + PadLen(a.ivSize + plainLen + paddingLen, 4);
    var padding := new Byte[paddingLen];
    GeneratePadding(padding);
    plain := payload + padding[..];
    plain := plain + [ToU8(paddingLen)];
    plain := plain + [nextHeader];
  }

  // ---------------------------------------------------------------- specification

  function Header(spi: U32, seqno: U32): (h: seq<Byte>)
    ensures |h| == 8
  {
    Be32(spi) + Be32(seqno)
  }

  /** The ESP packet for a payload, or why there is none. */
  function Seal(a: Aead, spi: U32, seqno: U32, payload: seq<Byte>, nextHeader: Byte): (Status, seq<Byte>)
    requires a.blockSize > 0
  {
    if a.ivGen.None? then (NOT_FOUND, [])
    else
      match a.ivGen.value(seqno)
      case None => (FAILED, [])
      case Some(iv) =>
        match a.encrypt(Plaintext(a, payload, nextHeader), Header(spi, seqno), iv)
        case None => (FAILED, [])
        case Some(sealed) => (SUCCESS, Header(spi, seqno) + iv + sealed)
  }

  /** encrypt takes a sequence number before anything else can fail. */
  function Encapsulate(a: Aead, r: Replay, spi: U32, payload: seq<Byte>, nextHeader: Byte): (Status, Replay, seq<Byte>)
    requires a.blockSize > 0
  {
    if r.inbound || r.last == 0xffff_ffff then (FAILED, r, [])
    else
      var seqno := r.last + 1;
      var (status, data) := Seal(a, spi, seqno, payload, nextHeader);
      (status, r.(last := seqno), data)
  }

  /** The next header value of a tunnelled packet; a packet without payload is a dummy. */
  function TunnelHeader(payload: Option<Packet>): Byte {
    match payload
    case None => IPPROTO_NONE
    case Some(p) => if p.version == 4 then IPPROTO_IPIP else IPPROTO_IPV6
  }

  function Encoding(payload: Option<Packet>): seq<Byte> {
    if payload.Some? then payload.value.encoding else []
  }

  datatype Frame = Frame(spi: U32, seqno: U32, iv: seq<Byte>, sealed: seq<Byte>)

  function ParseFrame(a: Aead, data: seq<Byte>): Option<Frame>
    requires a.blockSize > 0
  {
    if |data| < 8 + a.ivSize + a.icvSize || (|data| - 8 - a.ivSize - a.icvSize) % a.blockSize != 0 then None
    else Some(Frame(FromBe32(data[..4]), FromBe32(data[4..8]), data[8..8 + a.ivSize], data[8 + a.ivSize..]))
  }

  datatype Content = Content(packet: Packet, nextHeader: Byte)

  function RemovePadding(plain: seq<Byte>): Option<Content> {
    if |plain| < 2 then None
    else
      var n := plain[|plain| - 2] as int;
      var rest := plain[..|plain| - 2];
      if n > |rest| || rest[|rest| - n..] != Padding(n) then None
      else
        match Parse(rest[..|rest| - n])
        case None => None
        case Some(packet) => Some(Content(packet, plain[|plain| - 1]))
  }

  datatype Decapsulated = Decapsulated(status: Status, replay: Replay, content: Option<Content>)

  function Decapsulate(a: Aead, r: Replay, data: seq<Byte>): Decapsulated
    requires a.blockSize > 0
  {
    match ParseFrame(a, data)
    case None => Decapsulated(PARSE_ERROR, r, None)
    case Some(f) =>
      if !Accepts(r, f.seqno) then Decapsulated(VERIFY_ERROR, r, None)
      else
        match a.decrypt(f.sealed, data[..8], f.iv)
        case None => Decapsulated(FAILED, r, None)
        case Some(plain) =>
          var content := RemovePadding(plain);
          Decapsulated(if content.Some? then SUCCESS else PARSE_ERROR, Authenticate(r, f.seqno), content)
  }

  // ---------------------------------------------------------------- implementation

  class Esp {
    var data: seq<Byte>
    var payload: Option<Packet>
    var nextHeader: Byte
    const src: Host
    const dst: Host

    /** esp_packet_create_from_packet */
    constructor FromPacket(src: Host, dst: Host, data: seq<Byte>)
      ensures this.src == src && this.dst == dst && this.data == data
      ensures payload == None && nextHeader == IPPROTO_NONE
    {
      this.src, this.dst, this.data := src, dst, data;
      payload, nextHeader := None, IPPROTO_NONE;
    }

    /** esp_packet_create_from_payload */
    constructor FromPayload(src: Host, dst: Host, payload: Option<Packet>)
      ensures this.src == src && this.dst == dst && this.data == [] && this.payload == payload
      ensures nextHeader == TunnelHeader(payload)
    {
      this.src, this.dst, this.data := src, dst, [];
      this.payload := payload;
      nextHeader := if payload.Some? then
                      (if payload.value.version == 4 then IPPROTO_IPIP else IPPROTO_IPV6)
                    else IPPROTO_NONE;
    }

    method ParseHeader() returns (ok: bool, spi: U32)
      ensures ok <==> |data| >= 8
      ensures ok ==> spi == FromBe32(data[..4])
    {
      if |data| < 4 {
        return false, 0;
      }
      spi := FromBe32(data[..4]);
      if |data[4..]| < 4 {
        return false, spi;
      }
      return true, spi;
    }

    method Encrypt(ctx: Context, spi: U32) returns (status: Status)
      requires ctx.Valid() && ctx.aead.blockSize > 0
      modifies this`data, ctx
      ensures ctx.Valid()
      ensures (status, ctx.State(), data) == Encapsulate(ctx.aead, old(ctx.State()), spi, Encoding(payload), nextHeader)
    {
      data := [];
      var a := ctx.aead;
      var ok, seqno := ctx.NextSeqno();
      if !ok {
        return FAILED;
      }
      if a.ivGen.None? {
        return NOT_FOUND;
      }
      var writer := Be32(spi);
      writer := writer + Be32(seqno);
      var aad := writer;
      var iv := a.ivGen.value(seqno);
      if iv.None? {
        return FAILED;
      }
      writer := writer + iv.value;
      var plain := WritePlaintext(a, Encoding(payload), nextHeader);
      var sealed := a.encrypt(plain, aad, iv.value);
      if sealed.None? {
        return FAILED;
      }
      data := writer + sealed.value;
      return SUCCESS;
    }

    method Decrypt(ctx: Context) returns (status: Status)
      requires ctx.Valid() && ctx.aead.blockSize > 0
      modifies this`payload, this`nextHeader, ctx, ctx.window
      ensures ctx.Valid()
      ensures var d := Decapsulate(ctx.aead, old(ctx.State()), data);
              && status == d.status && ctx.State() == d.replay
              && payload == (if d.content.Some? then Some(d.content.value.packet) else None)
              && nextHeader == (if d.content.Some? then d.content.value.nextHeader else old(nextHeader))
    {
      payload := None;
      var a := ctx.aead;
      if |data| < 8 + a.ivSize + a.icvSize || (|data| - 8 - a.ivSize - a.icvSize) % a.blockSize != 0 {
        return PARSE_ERROR;
      }
      var seqno := FromBe32(data[4..8]);
      var fresh_ := ctx.VerifySeqno(seqno);
      if !fresh_ {
        return VERIFY_ERROR;
      }
      var plain := a.decrypt(data[8 + a.ivSize..], data[..8], data[8..8 + a.ivSize]);
      if plain.None? {
        return FAILED;
      }
      MarkedExactly(ctx.State(), seqno);
      ctx.SetAuthenticatedSeqno(seqno);
      var ok := StripPadding(plain.value);
      return if ok then SUCCESS else PARSE_ERROR;
    }

    /** remove_padding */
    method StripPadding(plain: seq<Byte>) returns (ok: bool)
      requires payload == None
      modifies this`payload, this`nextHeader
      ensures var c := RemovePadding(plain);
              && (ok <==> c.Some?)
              && payload == (if ok then Some(c.value.packet) else None)
              && nextHeader == (if ok then c.value.nextHeader else old(nextHeader))
    {
      if |plain| < 2 {
        return false;
      }
      var next, padLength := plain[|plain| - 1], plain[|plain| - 2] as int;
      var rest := plain[..|plain| - 2];
      if |rest| < padLength {
        return false;
      }
      var padded := CheckPadding(rest[|rest| - padLength..]);
      if !padded {
        return false;
      }
      ghost var body := rest[..|rest| - padLength];
      assert RemovePadding(plain) == if Parse(body).None? then None else Some(Content(Parse(body).value, next));
      payload := Create(rest[..|rest| - padLength]);
      if payload.None? {
        return false;
      }
      nextHeader := next;
      return true;
    }
  }

  // ---------------------------------------------------------------- block sizes that work

  lemma DividesFour(b: nat)
    requires b > 0 && 4 % b == 0
    ensures b == 1 || b == 2 || b == 4
  {
    if b > 4 { DivModUnique(4, b, 0, 4); }
  }

  lemma MultipleOfFour(x: nat, b: nat)
    requires b > 0 && x % b == 0 && b % 4 == 0
    ensures x % 4 == 0
  {
    var q, m := x / b, b / 4;
    assert x == q * b && b == 4 * m;
    assert q * (4 * m) == (q * m) * 4;
    DivModUnique(x, 4, q * m, 0);
  }

  /** For block sizes that divide 4 or are multiples of 4, and IVs of whole words, the plaintext
      fills whole blocks; up to 256 bytes per block the pad length fits its byte. */
  lemma PaddingFits(a: Aead, n: nat)
    requires a.blockSize > 0 && a.ivSize % 4 == 0
    requires 4 % a.blockSize == 0 || a.blockSize % 4 == 0
    ensures Aligned(a, n)
    ensures a.blockSize <= 256 ==> PaddingLen(a, n) <= 255
  {
    var b := a.blockSize;
    var x := n + 2 + PadLen(n + 2, b);
    if b % 4 == 0 {
      MultipleOfFour(x, b);
      FoursAdd(a.ivSize, x);
      assert PaddingLen(a, n) == PadLen(n + 2, b);
    } else {
      DividesFour(b);
      FoursAdd(a.ivSize, n + 2 + PaddingLen(a, n));
      FoursSplit(n + 2 + PaddingLen(a, n), b);
    }
  }

  lemma FoursAdd(x: nat, y: nat)
    requires x % 4 == 0
    ensures (x + y) % 4 == 0 <==> y % 4 == 0
  {
  }

  lemma FoursSplit(x: nat, b: nat)
    requires x % 4 == 0 && (b == 1 || b == 2 || b == 4)
    ensures x % b == 0
  {
    if b == 1 {
      assert x % 1 == 0;
    } else if b == 2 {
      assert x % 2 == 0;
    }
  }

  /** With an IV of whole words, encrypt fills whole blocks for every payload if and only if the
      block size divides 4 or is a multiple of 4. */
  lemma AlignedExactly(a: Aead)
    requires a.blockSize > 0 && a.ivSize % 4 == 0
    ensures (forall n: nat :: Aligned(a, n)) <==> (4 % a.blockSize == 0 || a.blockSize % 4 == 0)
  {
    if 4 % a.blockSize == 0 || a.blockSize % 4 == 0 {
      forall n: nat ensures Aligned(a, n) { PaddingFits(a, n); }
    } else {
      Misaligned(a);
    }
  }

  /** A payload that fills its block needs padding for the ICV only, and less than a block. */
  lemma Misaligned(a: Aead)
    requires a.blockSize > 0 && a.ivSize % 4 == 0 && 4 % a.blockSize != 0 && a.blockSize % 4 != 0
    ensures a.blockSize >= 3 && !Aligned(a, a.blockSize - 2)
  {
    var b := a.blockSize;
    assert 4 % 1 == 0 && 4 % 2 == 0;
    assert b >= 3;
    DivModUnique(b, b, 1, 0);
    assert PadLen(b, b) == 0;
    DivModUnique(a.ivSize + b, 4, a.ivSize / 4 + b / 4, b % 4);
    var extra := 4 - b % 4;
    assert PaddingLen(a, b - 2) == extra;
    DivModUnique(b + extra, b, 1, extra);
  }

  // ---------------------------------------------------------------- round trip

  /** What remove_padding leaves of a plaintext: pad lengths above 255 lose their high bits, so
      some of the padding stays behind the payload. */
  function Unpadded(a: Aead, payload: seq<Byte>): seq<Byte>
    requires a.blockSize > 0
  {
    var n := PaddingLen(a, |payload|);
    payload + Padding(n)[..n - ToU8(n)]
  }

  lemma StripPlaintext(a: Aead, payload: seq<Byte>, nextHeader: Byte)
    requires a.blockSize > 0
    ensures RemovePadding(Plaintext(a, payload, nextHeader))
         == match Parse(Unpadded(a, payload))
            case None => None
            case Some(packet) => Some(Content(packet, nextHeader))
  {
    var n := PaddingLen(a, |payload|);
    PaddingTail(n);
    var pad, m := Padding(n), ToU8(n);
    assert payload + pad == payload + (pad[..n - m] + pad[n - m..]);
    assert payload + pad == Unpadded(a, payload) + Padding(m);
    StripsOwnPadding(Unpadded(a, payload), m, nextHeader);
  }

  lemma StripsOwnPadding(body: seq<Byte>, m: Byte, nextHeader: Byte)
    ensures RemovePadding(body + Padding(m) + [m] + [nextHeader])
         == match Parse(body) case None => None case Some(packet) => Some(Content(packet, nextHeader))
  {
    var plain := body + Padding(m) + [m] + [nextHeader];
    var rest := plain[..|plain| - 2];
    assert rest == body + Padding(m);
    assert rest[|rest| - m..] == Padding(m) && rest[..|rest| - m] == body;
  }

  /** The last bytes of the padding are padding again, as the bytes count modulo 256. */
  lemma PaddingTail(n: nat)
    ensures Padding(n)[n - ToU8(n)..] == Padding(ToU8(n))
  {
    var m := ToU8(n);
    forall i | 0 <= i < m ensures Padding(n)[n - m..][i] == Padding(m)[i] {
      LowByteRepeats(n / 256, i + 1);
    }
  }

  lemma LowByteRepeats(q: nat, x: nat)
    ensures ToU8(256 * q + x) == ToU8(x)
  {
    DivModUnique(256 * q + x, 256, q + x / 256, x % 256);
  }

  /** A sealed packet is parsed back into its parts exactly if its plaintext is aligned. */
  lemma SealedFrame(a: Aead, spi: U32, seqno: U32, payload: seq<Byte>, nextHeader: Byte)
    requires Lawful(a) && Seal(a, spi, seqno, payload, nextHeader).0 == SUCCESS
    ensures var wire := Seal(a, spi, seqno, payload, nextHeader).1;
            && |wire| >= 8 && FromBe32(wire[..4]) == spi
            && (ParseFrame(a, wire).Some? <==> Aligned(a, |payload|))
            && (Aligned(a, |payload|) ==>
                  var f := ParseFrame(a, wire).value;
                  f.seqno == seqno && a.decrypt(f.sealed, wire[..8], f.iv) == Some(Plaintext(a, payload, nextHeader)))
  {
    var iv := a.ivGen.value(seqno).value;
    var plain, aad := Plaintext(a, payload, nextHeader), Header(spi, seqno);
    var sealed := a.encrypt(plain, aad, iv).value;
    var wire := aad + iv + sealed;
    assert GivesIv(a.ivGen.value, seqno, a.ivSize) && Inverts(a, plain, aad, iv);
    assert wire[..8] == aad && wire[..4] == Be32(spi) + [] && wire[4..8] == Be32(seqno) + [];
    Be32RoundTrip(spi, []);
    Be32RoundTrip(seqno, []);
    assert wire[8..8 + a.ivSize] == iv && wire[8 + a.ivSize..] == sealed;
  }

  /** The packet comes back exactly if the plaintext is aligned and what is left of it parses as
      the packet. */
  lemma RoundTripByParsing(a: Aead, r: Replay, spi: U32, seqno: U32, packet: Packet, nextHeader: Byte)
    requires Lawful(a) && Accepts(r, seqno) && Seal(a, spi, seqno, packet.encoding, nextHeader).0 == SUCCESS
    ensures Returns(a, r, spi, seqno, packet, nextHeader)
            <==> Aligned(a, |packet.encoding|) && Parse(Unpadded(a, packet.encoding)) == Some(packet)
  {
    SealedFrame(a, spi, seqno, packet.encoding, nextHeader);
    StripPlaintext(a, packet.encoding, nextHeader);
  }

  /** Decrypting the sealed packet succeeds, authenticates its number and returns the packet. */
  ghost predicate Returns(a: Aead, r: Replay, spi: U32, seqno: U32, packet: Packet, nextHeader: Byte)
    requires a.blockSize > 0
  {
    Decapsulate(a, r, Seal(a, spi, seqno, packet.encoding, nextHeader).1)
    == Decapsulated(SUCCESS, Authenticate(r, seqno), Some(Content(packet, nextHeader)))
  }

  /** decrypt after encrypt returns the packet and its next header if and only if the plaintext
      fills whole blocks and the packet declares at least its own header; the pad length fits
      its byte here (see PaddingFits). */
  lemma RoundTripExactly(a: Aead, r: Replay, spi: U32, seqno: U32, raw: seq<Byte>, nextHeader: Byte)
    requires Lawful(a) && Accepts(r, seqno) && Parse(raw).Some?
    requires PaddingLen(a, |Parse(raw).value.encoding|) <= 255
    requires Seal(a, spi, seqno, Parse(raw).value.encoding, nextHeader).0 == SUCCESS
    ensures Returns(a, r, spi, seqno, Parse(raw).value, nextHeader)
            <==> Aligned(a, |Parse(raw).value.encoding|) && CoversHeader(raw)
  {
    var e := Parse(raw).value.encoding;
    RoundTripByParsing(a, r, spi, seqno, Parse(raw).value, nextHeader);
    assert Unpadded(a, e) == e;
    ReparseExactly(raw);
  }

  /** A pad length above 255 is cut to its low byte; then the packet still comes back if and
      only if it is as long as its header declares, because the rest of the padding looks like
      traffic flow confidentiality padding. */
  lemma LongPaddingExactly(a: Aead, r: Replay, spi: U32, seqno: U32, raw: seq<Byte>, nextHeader: Byte)
    requires Lawful(a) && Accepts(r, seqno) && Parse(raw).Some? && CoversHeader(raw)
    requires PaddingLen(a, |Parse(raw).value.encoding|) > 255 && Aligned(a, |Parse(raw).value.encoding|)
    requires Seal(a, spi, seqno, Parse(raw).value.encoding, nextHeader).0 == SUCCESS
    ensures Returns(a, r, spi, seqno, Parse(raw).value, nextHeader) <==> DeclaredLength(raw) <= |raw|
  {
    var n := PaddingLen(a, |Parse(raw).value.encoding|);
    RoundTripByParsing(a, r, spi, seqno, Parse(raw).value, nextHeader);
    var extra := Padding(n)[..n - ToU8(n)];
    assert |extra| > 0;
    TrailingBytesExactly(raw, extra);
  }

  /** Dummy packets (no payload) are authenticated but never accepted: decrypt insists on an IP
      packet, so process_inbound does not get to its case for them. */
  lemma DummyIsRejected(a: Aead, r: Replay, spi: U32, seqno: U32)
    requires Lawful(a) && Accepts(r, seqno) && Aligned(a, 0)
    requires Seal(a, spi, seqno, [], IPPROTO_NONE).0 == SUCCESS
    ensures Decapsulate(a, r, Seal(a, spi, seqno, [], IPPROTO_NONE).1)
         == Decapsulated(PARSE_ERROR, Authenticate(r, seqno), None)
  {
    SealedFrame(a, spi, seqno, [], IPPROTO_NONE);
    StripPlaintext(a, [], IPPROTO_NONE);
    var n := PaddingLen(a, 0);
    assert Unpadded(a, []) == Padding(n)[..n - ToU8(n)];
    assert n > ToU8(n) ==> Unpadded(a, [])[0] == 1;
  }
}
