/** What process_outbound and process_inbound do, in the fields of the two databases. */
module Pipelines {
  import opened Bytes
  import opened Lists
  import opened IpPacket
  import opened EspContext
  import opened EspPacket
  import opened EspLayout
  import opened IpsecSa
  import opened Policies
  import opened Processor

  /** Only the SA at index `k` has changed. */
  ghost predicate OnlyChanged(before: seq<SaState>, after: seq<SaState>, k: nat) {
    k < |before| == |after| && forall i | 0 <= i < |before| && i != k :: after[i] == before[i]
  }

  // ---------------------------------------------------------------- outbound

  ghost predicate SendsFor(sa: SaState, reqid: U32) {
    sa.reqid == reqid && !sa.replay.inbound && !sa.hardExpired
  }

  /** The SA that sends for a reqid: the first outbound one that is alive */
  ghost predicate FirstToSend(sad: seq<SaState>, k: nat, reqid: U32) {
    k < |sad| && SendsFor(sad[k], reqid) && forall i | 0 <= i < k :: !SendsFor(sad[i], reqid)
  }

  /** The policy and the SA for an outbound packet */
  ghost predicate Routed(sad: seq<SaState>, spd: seq<Entry>, packet: Packet, i: nat, k: nat) {
    FirstToApply(spd, i, packet, false, 0) && FirstToSend(sad, k, spd[i].policy.reqid)
  }

  /** The SA has taken the next number for a packet, and counted it if it could be sealed. */
  ghost predicate Transmitted(sa: SaState, after: SaState, packet: Packet, wire: Option<Wire>)
    requires sa.aead.blockSize > 0
  {
    if sa.replay.last == 0xffff_ffff then after == sa && wire.None?
    else
      && after.replay.last == sa.replay.last + 1 && SameSetup(sa, after)
      && (wire.None? ==> after.packets == sa.packets && after.bytes == sa.bytes && after.events == sa.events)
      && (wire.Some? ==> Emitted(sa, packet, wire.value) && Counted(sa, after, |packet.encoding|))
  }

  /** It is sealed under the next number and sent between the endpoints of the SA. */
  ghost predicate Emitted(sa: SaState, packet: Packet, wire: Wire)
    requires sa.aead.blockSize > 0 && sa.replay.last < 0xffff_ffff
  {
    && wire.src == sa.src && wire.dst == sa.dst
    && IsSealed(sa.aead, wire.data, sa.spi, sa.replay.last + 1, packet.encoding, if packet.version == 4 then 4 else 41)
  }

  ghost predicate Counted(sa: SaState, after: SaState, bytes: nat) {
    && after.packets == (sa.packets + 1) % 0x1_0000_0000_0000_0000
    && after.bytes == (sa.bytes + bytes % 0x1_0000_0000) % 0x1_0000_0000_0000_0000
  }

  lemma UseIsCounted(sa: SaState, r: Replay, bytes: nat)
    ensures var u := Used(sa.(replay := r), ToU32(bytes));
            Counted(sa, u, bytes) && SameSetup(sa, u) && u.replay == r
  {
    UsedExactly(sa.(replay := r), ToU32(bytes));
  }

  lemma EmittedExactly(sa: SaState, packet: Packet)
    requires sa.aead.blockSize > 0 && !sa.replay.inbound && SaOutbound(sa, packet).1.Some?
    ensures sa.replay.last < 0xffff_ffff && Emitted(sa, packet, SaOutbound(sa, packet).1.value)
  {
    TransmitsSealed(sa, packet);
    SealedExactly(sa.aead, sa.spi, sa.replay.last + 1, packet.encoding, if packet.version == 4 then 4 else 41);
  }

  /** With a number left, what is sent and counted depends on sealing alone. */
  lemma TransmitsSealed(sa: SaState, packet: Packet)
    requires sa.aead.blockSize > 0 && !sa.replay.inbound && sa.replay.last < 0xffff_ffff
    ensures var seqno := sa.replay.last + 1;
            var sa1 := sa.(replay := sa.replay.(last := seqno));
            var (status, data) := Seal(sa.aead, sa.spi, seqno, packet.encoding, if packet.version == 4 then 4 else 41);
            SaOutbound(sa, packet) == if status != SUCCESS then (sa1, None)
                                      else (Used(sa1, ToU32(|packet.encoding|)), Some(Wire(sa.src, sa.dst, data)))
  {
  }

  lemma TransmittedExactly(sa: SaState, packet: Packet)
    requires sa.aead.blockSize > 0 && !sa.replay.inbound
    ensures var (after, wire) := SaOutbound(sa, packet);
            && Transmitted(sa, after, packet, wire)
            && (wire.Some? <==> sa.replay.last < 0xffff_ffff
                                && Seal(sa.aead, sa.spi, sa.replay.last + 1, packet.encoding,
                                        if packet.version == 4 then 4 else 41).0 == SUCCESS)
  {
    if sa.replay.last < 0xffff_ffff {
      TransmitsSealed(sa, packet);
      if SaOutbound(sa, packet).1.Some? {
        EmittedExactly(sa, packet);
        UseIsCounted(sa, sa.replay.(last := sa.replay.last + 1), |packet.encoding|);
      }
    }
  }

  lemma FirstToSendExactly(sad: seq<SaState>, reqid: U32)
    ensures var k := FirstIndex(sad, ByReqid(reqid, false));
            && (k < |sad| ==> FirstToSend(sad, k, reqid))
            && (k == |sad| ==> forall i | 0 <= i < |sad| :: !SendsFor(sad[i], reqid))
  {
    var k := FirstIndex(sad, ByReqid(reqid, false));
    assert forall i | 0 <= i < |sad| :: ByReqid(reqid, false)(sad[i]) <==> SendsFor(sad[i], reqid);
  }

  /** process_outbound sends through the first live outbound SA with the reqid of the first policy
      that applies.  Without such a policy or SA nothing is sent and nothing changes. */
  lemma OutboundExactly(sad: seq<SaState>, spd: seq<Entry>, packet: Packet)
    requires Ready(sad)
    ensures var (after, wire) := Outbound(sad, spd, packet);
            if exists i: nat, k: nat :: Routed(sad, spd, packet, i, k)
            then exists i: nat, k: nat :: Routed(sad, spd, packet, i, k) && OnlyChanged(sad, after, k)
                                          && Transmitted(sad[k], after[k], packet, wire)
            else after == sad && wire.None?
  {
    FindExactly(spd, packet, false, 0);
    var entry := Find(spd, packet, false, 0);
    if entry.Some? {
      var i: nat :| FirstToApply(spd, i, packet, false, 0) && spd[i] == entry.value;
      var reqid := entry.value.policy.reqid;
      var k := FirstIndex(sad, ByReqid(reqid, false));
      FirstToSendExactly(sad, reqid);
      if k < |sad| {
        assert Routed(sad, spd, packet, i, k);
        TransmittedExactly(sad[k], packet);
        assert OnlyChanged(sad, Outbound(sad, spd, packet).0, k);
      } else {
        NotRouted(sad, spd, packet, i);
      }
    } else {
      assert forall i: nat | i < |spd| :: spd[i] in spd;
    }
  }

  lemma NotRouted(sad: seq<SaState>, spd: seq<Entry>, packet: Packet, i: nat)
    requires FirstToApply(spd, i, packet, false, 0)
    requires forall k | 0 <= k < |sad| :: !SendsFor(sad[k], spd[i].policy.reqid)
    ensures !exists j: nat, k: nat :: Routed(sad, spd, packet, j, k)
  {
    forall j: nat, k: nat ensures !Routed(sad, spd, packet, j, k) {
      if FirstToApply(spd, j, packet, false, 0) {
        assert i == j;
      }
    }
  }

  // ---------------------------------------------------------------- inbound

  ghost predicate ReceivesFor(sa: SaState, spi: nat, dst: Host) {
    sa.spi == spi && SameAddress(sa.dst.address, dst.address) && !sa.hardExpired
  }

  /** The SA that a packet is for: the first live one with its SPI and destination */
  ghost predicate FirstToReceive(sad: seq<SaState>, k: nat, spi: nat, dst: Host) {
    k < |sad| && ReceivesFor(sad[k], spi, dst) && forall i | 0 <= i < k :: !ReceivesFor(sad[i], spi, dst)
  }

  /** The SA has opened a packet: an outbound one does not; what could be opened is counted, and it is
      delivered if it is a tunnelled packet to which an inbound policy of the SA applies. */
  ghost predicate Taken(sa: SaState, after: SaState, spd: seq<Entry>, data: seq<Byte>, packet: Option<Packet>)
    requires sa.aead.blockSize > 0
  {
    if !sa.replay.inbound then after == sa && packet.None?
    else
      var d := Decapsulate(sa.aead, sa.replay, data);
      && after.replay == d.replay && SameSetup(sa, after)
      && (d.status != SUCCESS ==> after == sa.(replay := d.replay) && packet.None?)
      && (d.status == SUCCESS ==>
            && d.content.Some? && Counted(sa, after, |d.content.value.packet.encoding|)
            && packet == if Admitted(sa, spd, d.content.value) then Some(d.content.value.packet) else None)
  }

  ghost predicate Admitted(sa: SaState, spd: seq<Entry>, content: Content) {
    content.nextHeader in {4, 41} && exists e | e in spd :: Applies(e.policy, content.packet, true, sa.reqid)
  }

  lemma AdmittedExactly(sa: SaState, spd: seq<Entry>, content: Content)
    ensures Admitted(sa, spd, content) <==>
            content.nextHeader in {4, 41} && Find(spd, content.packet, true, sa.reqid).Some?
  {
    FindExactly(spd, content.packet, true, sa.reqid);
  }

  lemma TakenExactly(sa: SaState, spd: seq<Entry>, data: seq<Byte>)
    requires sa.aead.blockSize > 0
    ensures var (after, packet) := SaInbound(sa, spd, data);
            Taken(sa, after, spd, data, packet)
  {
    var d := Decapsulate(sa.aead, sa.replay, data);
    if sa.replay.inbound && d.status == SUCCESS {
      OpenedExactly(sa.aead, sa.replay, data);
      var content := d.content.value;
      UseIsCounted(sa, d.replay, |content.packet.encoding|);
      AdmittedExactly(sa, spd, content);
    }
  }

  /** process_inbound hands a packet to the first live SA with its SPI and destination.  What is no
      ESP packet, or has no such SA, changes nothing. */
  lemma InboundExactly(sad: seq<SaState>, spd: seq<Entry>, wire: Wire)
    requires Ready(sad)
    ensures var (after, packet) := Inbound(sad, spd, wire);
            if |wire.data| >= 8 && exists k: nat :: FirstToReceive(sad, k, Number(wire.data[..4]), wire.dst)
            then exists k: nat :: FirstToReceive(sad, k, Number(wire.data[..4]), wire.dst)
                                  && OnlyChanged(sad, after, k) && Taken(sad[k], after[k], spd, wire.data, packet)
            else after == sad && packet.None?
  {
    if |wire.data| >= 8 {
      NumberOfFour(wire.data[..4]);
      var spi := FromBe32(wire.data[..4]);
      var k := FirstIndex(sad, BySpiDst(spi, wire.dst));
      FirstToReceiveExactly(sad, spi, wire.dst);
      if k < |sad| {
        TakenExactly(sad[k], spd, wire.data);
        assert OnlyChanged(sad, Inbound(sad, spd, wire).0, k);
      }
    }
  }

  lemma FirstToReceiveExactly(sad: seq<SaState>, spi: U32, dst: Host)
    ensures var k := FirstIndex(sad, BySpiDst(spi, dst));
            && (k < |sad| ==> FirstToReceive(sad, k, spi, dst))
            && (k == |sad| ==> forall i | 0 <= i < |sad| :: !ReceivesFor(sad[i], spi, dst))
  {
    forall i | 0 <= i < |sad| ensures BySpiDst(spi, dst)(sad[i]) <==> ReceivesFor(sad[i], spi, dst) {
      IpEqualsExactly(sad[i].dst, dst);
    }
  }
}
