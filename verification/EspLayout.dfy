/** ESP packets laid out as section 2 of RFC 4303 says: what encrypt writes, and what decrypt makes of
    anything that is received. */
module EspLayout {
  import opened Bytes
  import opened IpPacket
  import opened EspContext
  import opened EspPacket

  // ---------------------------------------------------------------- the plaintext

  /** Padding bytes count from 1. */
  ghost predicate IsPadding(pad: seq<Byte>) { forall i | 0 <= i < |pad| :: pad[i] == (i + 1) % 256 }

  /** Payload, padding, the length of the padding, and the next header */
  ghost predicate IsPlaintext(plain: seq<Byte>, payload: seq<Byte>, pad: seq<Byte>, next: Byte) {
    plain == payload + pad + [|pad| % 256, next] && IsPadding(pad)
  }

  /** As little padding as fills the block, and then as little as aligns what follows to 4 bytes */
  ghost predicate IsMinimal(a: Aead, payload: seq<Byte>, pad: seq<Byte>)
    requires a.blockSize > 0
  {
    exists fill :: IsFill(a, |payload|, fill, |pad|)
  }

  ghost predicate IsFill(a: Aead, payloadLen: nat, fill: int, padLen: nat)
    requires a.blockSize > 0
  {
    && 0 <= fill < a.blockSize && (payloadLen + 2 + fill) % a.blockSize == 0
    && fill <= padLen < fill + 4 && (a.ivSize + payloadLen + 2 + padLen) % 4 == 0
  }

  lemma PlaintextExactly(a: Aead, payload: seq<Byte>, next: Byte)
    requires a.blockSize > 0
    ensures var pad := Padding(PaddingLen(a, |payload|));
            IsPlaintext(Plaintext(a, payload, next), payload, pad, next) && IsMinimal(a, payload, pad)
  {
    var n := PaddingLen(a, |payload|);
    assert Plaintext(a, payload, next) == payload + Padding(n) + [n % 256, next];
    assert IsFill(a, |payload|, PadLen(|payload| + 2, a.blockSize), n);
  }

  lemma PlaintextParts(plain: seq<Byte>, payload: seq<Byte>, pad: seq<Byte>, next: Byte)
    requires |pad| < 256 && plain == payload + pad + [|pad|, next]
    ensures var k := |plain| - 2;
            && k >= |pad| && plain[k] == |pad| && plain[k + 1] == next && plain[..k] == payload + pad
            && plain[..k][k - |pad|..] == pad && plain[..k][..k - |pad|] == payload
  {
  }

  lemma PaddingExactly(pad: seq<Byte>)
    ensures IsPadding(pad) <==> pad == Padding(|pad|)
  {
  }

  lemma AcceptsPlaintext(plain: seq<Byte>, payload: seq<Byte>, pad: seq<Byte>, next: Byte)
    requires |pad| < 256 && IsPlaintext(plain, payload, pad, next)
    ensures RemovePadding(plain) == if Parse(payload).None? then None else Some(Content(Parse(payload).value, next))
  {
    PlaintextParts(plain, payload, pad, next);
    PaddingExactly(pad);
  }

  lemma LastTwo(s: seq<Byte>)
    requires |s| >= 2
    ensures s == s[..|s| - 2] + [s[|s| - 2], s[|s| - 1]]
  {
  }

  lemma CutAt(s: seq<Byte>, k: nat)
    requires k <= |s|
    ensures s == s[..k] + s[k..] && |s[k..]| == |s| - k
  {
  }

  lemma AcceptedIsPlaintext(plain: seq<Byte>) returns (payload: seq<Byte>, pad: seq<Byte>)
    requires RemovePadding(plain).Some?
    ensures |pad| < 256 && IsPlaintext(plain, payload, pad, plain[|plain| - 1])
  {
    var k := |plain| - 2;
    var n := plain[k] as int;
    payload, pad := plain[..k][..k - n], plain[..k][k - n..];
    LastTwo(plain);
    CutAt(plain[..k], k - n);
    PaddingExactly(pad);
  }

  /** What is accepted as a plaintext is exactly a payload that parses, with proper padding. */
  lemma ContentExactly(plain: seq<Byte>, packet: Packet, next: Byte)
    ensures RemovePadding(plain) == Some(Content(packet, next)) <==>
            exists payload, pad | |pad| < 256 ::
              IsPlaintext(plain, payload, pad, next) && Parse(payload) == Some(packet)
  {
    if payload, pad :| |pad| < 256 && IsPlaintext(plain, payload, pad, next) && Parse(payload) == Some(packet) {
      AcceptsPlaintext(plain, payload, pad, next);
    }
    if RemovePadding(plain) == Some(Content(packet, next)) {
      var payload, pad := AcceptedIsPlaintext(plain);
      AcceptsPlaintext(plain, payload, pad, plain[|plain| - 1]);
    }
  }

  // ---------------------------------------------------------------- the packet

  /** SPI, sequence number, IV, and the sealed plaintext under the first two */
  ghost predicate IsSealed(a: Aead, data: seq<Byte>, spi: U32, seqno: U32, payload: seq<Byte>, next: Byte)
    requires a.blockSize > 0
  {
    exists head, iv, sealed, plain, pad ::
      && data == head + iv + sealed && |head| == 8
      && Number(head[..4]) == spi && Number(head[4..]) == seqno
      && a.ivGen.Some? && a.ivGen.value(seqno) == Some(iv) && a.encrypt(plain, head, iv) == Some(sealed)
      && IsPlaintext(plain, payload, pad, next) && IsMinimal(a, payload, pad)
  }

  /** The cipher accepts this plaintext. */
  ghost predicate CanEncrypt(a: Aead, spi: U32, seqno: U32, payload: seq<Byte>, next: Byte)
    requires a.blockSize > 0 && a.ivGen.Some? && a.ivGen.value(seqno).Some?
  {
    a.encrypt(Plaintext(a, payload, next), Be32(spi) + Be32(seqno), a.ivGen.value(seqno).value).Some?
  }

  lemma SealedExactly(a: Aead, spi: U32, seqno: U32, payload: seq<Byte>, next: Byte)
    requires a.blockSize > 0
    requires Seal(a, spi, seqno, payload, next).0 == SUCCESS
    ensures IsSealed(a, Seal(a, spi, seqno, payload, next).1, spi, seqno, payload, next)
  {
    var iv, head, plain := a.ivGen.value(seqno).value, Header(spi, seqno), Plaintext(a, payload, next);
    var sealed := a.encrypt(plain, head, iv).value;
    BigEndian(spi, 0);
    BigEndian(seqno, 0);
    assert head[..4] == Be32(spi) && head[4..] == Be32(seqno);
    PlaintextExactly(a, payload, next);
  }

  /** Sealing fails only without an IV, or if the cipher does. */
  lemma SealFails(a: Aead, spi: U32, seqno: U32, payload: seq<Byte>, next: Byte)
    requires a.blockSize > 0
    ensures Seal(a, spi, seqno, payload, next).0
            == if a.ivGen.None? then NOT_FOUND
               else if a.ivGen.value(seqno).None? || !CanEncrypt(a, spi, seqno, payload, next) then FAILED else SUCCESS
  {
  }

  /** A number that may come in: positive, not seen, and ahead or less than 128 behind */
  ghost predicate IsAcceptable(r: Replay, seqno: nat) {
    r.inbound && seqno > 0 && seqno !in r.seen && (seqno > r.last || r.last - seqno < 128)
  }

  ghost predicate IsMarked(r: Replay, r': Replay, seqno: nat) {
    && r'.inbound == r.inbound && r'.seen == r.seen + {seqno}
    && r'.last == if seqno > r.last then seqno else r.last
  }

  /** decrypt on anything: what is no whole number of blocks behind header, IV and ICV is malformed;
      the number is checked next and marked exactly if the ICV is right; and the content is what the
      plaintext says. */
  lemma OpenedExactly(a: Aead, r: Replay, data: seq<Byte>)
    requires a.blockSize > 0
    ensures var d := Decapsulate(a, r, data);
            var room := |data| - 8 - a.ivSize - a.icvSize;
            if room < 0 || room % a.blockSize != 0 then d == Decapsulated(PARSE_ERROR, r, None)
            else
              var seqno := Number(data[4..8]);
              var plain := a.decrypt(data[8 + a.ivSize..], data[..8], data[8..8 + a.ivSize]);
              if !IsAcceptable(r, seqno) then d == Decapsulated(VERIFY_ERROR, r, None)
              else if plain.None? then d == Decapsulated(FAILED, r, None)
              else
                && IsMarked(r, d.replay, seqno) && d.content == RemovePadding(plain.value)
                && d.status == if d.content.Some? then SUCCESS else PARSE_ERROR
  {
    if |data| >= 8 {
      NumberOfFour(data[4..8]);
    }
  }
}
