/** The packet processor (ipsec_processor.c) over the SA and policy databases. */
module Processor {
  import opened Bytes
  import opened Lists
  import opened IpPacket
  import opened EspContext
  import opened EspPacket
  import opened IpsecSa
  import opened Policies

  /** An ESP packet between two endpoints */
  datatype Wire = Wire(src: Host, dst: Host, data: seq<Byte>)

  // ---------------------------------------------------------------- specification

  function BySpiDst(spi: U32, dst: Host): SaState -> bool { (sa: SaState) => MatchBySpiDst(sa, spi, dst) }

  function ByReqid(reqid: U32, inbound: bool): SaState -> bool { (sa: SaState) => MatchByReqid(sa, reqid, inbound) }

  ghost predicate Ready(sad: seq<SaState>) { forall i | 0 <= i < |sad| :: sad[i].aead.blockSize > 0 }

  /** What process_outbound does with the SA it has checked out */
  ghost function SaOutbound(sa: SaState, packet: Packet): (SaState, Option<Wire>)
    requires sa.aead.blockSize > 0
  {
    var (status, replay, data) := Encapsulate(sa.aead, sa.replay, sa.spi, packet.encoding, TunnelHeader(Some(packet)));
    var sa1 := sa.(replay := replay);
    if status != SUCCESS then (sa1, None)
    else (Used(sa1, ToU32(|packet.encoding|)), Some(Wire(sa.src, sa.dst, data)))
  }

  /** process_outbound: the new SA database and the ESP packet that is sent, if any */
  ghost function Outbound(sad: seq<SaState>, spd: seq<Entry>, packet: Packet): (r: (seq<SaState>, Option<Wire>))
    requires Ready(sad)
    ensures Ready(r.0)
  {
    match Find(spd, packet, false, 0)
    case None => (sad, None)
    case Some(entry) =>
      var k := FirstIndex(sad, ByReqid(entry.policy.reqid, false));
      if k == |sad| then (sad, None)
      else
        var (sa, wire) := SaOutbound(sad[k], packet);
        (sad[k := sa], wire)
  }

  lemma OutboundOn(sad: seq<SaState>, spd: seq<Entry>, packet: Packet, k: nat)
    requires Ready(sad) && k < |sad| && Find(spd, packet, false, 0).Some?
    requires k == FirstIndex(sad, ByReqid(Find(spd, packet, false, 0).value.policy.reqid, false))
    ensures var (sa, wire) := SaOutbound(sad[k], packet);
            Outbound(sad, spd, packet) == (sad[k := sa], wire)
  {
  }

  /** What process_inbound does with the SA it has checked out */
  ghost function SaInbound(sa: SaState, spd: seq<Entry>, data: seq<Byte>): (SaState, Option<Packet>)
    requires sa.aead.blockSize > 0
  {
    if !sa.replay.inbound then (sa, None)
    else
      var d := Decapsulate(sa.aead, sa.replay, data);
      var sa1 := sa.(replay := d.replay);
      if d.status != SUCCESS || d.content.None? then (sa1, None)
      else
        var packet, next := d.content.value.packet, d.content.value.nextHeader;
        var admitted := (next == IPPROTO_IPIP || next == IPPROTO_IPV6) && Find(spd, packet, true, sa.reqid).Some?;
        (Used(sa1, ToU32(|packet.encoding|)), if admitted then Some(packet) else None)
  }

  /** process_inbound: the new SA database and the IP packet that is delivered, if any */
  ghost function Inbound(sad: seq<SaState>, spd: seq<Entry>, wire: Wire): (r: (seq<SaState>, Option<Packet>))
    requires Ready(sad)
    ensures Ready(r.0)
  {
    if |wire.data| < 8 then (sad, None)
    else
      var k := FirstIndex(sad, BySpiDst(FromBe32(wire.data[..4]), wire.dst));
      if k == |sad| then (sad, None)
      else
        var (sa, packet) := SaInbound(sad[k], spd, wire.data);
        (sad[k := sa], packet)
  }

  // ---------------------------------------------------------------- implementation

  /** ipsec->sas and ipsec->policies: the SA list and the policy database */
  class Databases {
    var sas: seq<Sa>
    const policies: Manager
    ghost var repr: set<object>

    ghost predicate Valid()
      reads this, repr, policies
    {
      && policies.Valid()
      && this !in repr && policies !in repr
      && (forall i | 0 <= i < |sas| ::
            sas[i] in repr && sas[i].ctx in repr && sas[i].ctx.window in repr && sas[i].Valid())
      && forall i, j | 0 <= i < j < |sas| ::
           sas[i] != sas[j] && sas[i].ctx != sas[j].ctx && sas[i].ctx.window != sas[j].ctx.window
    }

    ghost function Sad(): (s: seq<SaState>)
      requires Valid()
      reads this, repr, policies
      ensures |s| == |sas| && forall i | 0 <= i < |s| :: s[i] == sas[i].State()
    {
      seq(|sas|, i requires 0 <= i < |sas| && Valid() reads this, repr, policies => sas[i].State())
    }

    constructor (policies: Manager)
      requires policies.Valid()
      ensures Valid() && sas == [] && this.policies == policies && repr == {}
    {
      this.policies := policies;
      sas, repr := [], {};
    }

    /** add_sa puts a new SA first. */
    method Install(sa: Sa)
      requires Valid() && sa.Valid() && {sa, sa.ctx, sa.ctx.window} !! repr + {this, policies}
      modifies this
      ensures Valid() && Sad() == [sa.State()] + old(Sad()) && sas == [sa] + old(sas)
    {
      sas, repr := [sa] + sas, repr + {sa, sa.ctx, sa.ctx.window};
    }

    /** checkout_by_spi: the index of the SA in the list */
    method CheckoutBySpi(spi: U32, dst: Host) returns (k: nat)
      requires Valid()
      ensures k == FirstIndex(Sad(), BySpiDst(spi, dst))
      ensures k <= |sas|
      ensures k < |sas| ==> sas[k].spi == spi && SameAddress(sas[k].dst.address, dst.address) && !sas[k].hardExpired
      ensures forall i | 0 <= i < k ::
                !(sas[i].spi == spi && SameAddress(sas[i].dst.address, dst.address) && !sas[i].hardExpired)
    {
      k := 0;
      while k < |sas|
        invariant 0 <= k <= |sas|
        invariant forall i | 0 <= i < k :: !BySpiDst(spi, dst)(Sad()[i])
        invariant forall i | 0 <= i < k ::
                    !(sas[i].spi == spi && SameAddress(sas[i].dst.address, dst.address) && !sas[i].hardExpired)
      {
        IpEqualsExactly(sas[k].dst, dst);
        if sas[k].spi == spi && IpEquals(sas[k].dst, dst) && !sas[k].hardExpired {
          break;
        }
        k := k + 1;
      }
      FirstIndexUnique(Sad(), BySpiDst(spi, dst), k);
    }

    method CheckoutByReqid(reqid: U32, inbound: bool) returns (k: nat)
      requires Valid()
      ensures k == FirstIndex(Sad(), ByReqid(reqid, inbound))
      ensures k <= |sas|
      ensures k < |sas| ==> sas[k].reqid == reqid && sas[k].ctx.inbound == inbound && !sas[k].hardExpired
      ensures forall i | 0 <= i < k ::
                !(sas[i].reqid == reqid && sas[i].ctx.inbound == inbound && !sas[i].hardExpired)
    {
      k := 0;
      while k < |sas|
        invariant 0 <= k <= |sas|
        invariant forall i | 0 <= i < k :: !ByReqid(reqid, inbound)(Sad()[i])
      {
        if sas[k].reqid == reqid && sas[k].ctx.inbound == inbound && !sas[k].hardExpired {
          break;
        }
        k := k + 1;
      }
      FirstIndexUnique(Sad(), ByReqid(reqid, inbound), k);
    }

    /** Only the SA at index `k` has been worked on. */
    twostate lemma OneSaChanged(k: nat)
      requires old(Valid()) && unchanged(this) && unchanged(policies) && k < |sas| && sas[k].Valid()
      requires forall i | 0 <= i < |sas| && i != k :: unchanged(sas[i])
                 && unchanged(sas[i].ctx) && unchanged(sas[i].ctx.window)
      ensures Valid() && Sad() == old(Sad())[k := sas[k].State()]
    {
      forall i | 0 <= i < |sas| && i != k ensures sas[i].Valid() && sas[i].State() == old(sas[i].State()) {}
    }

    /** The part of process_inbound between checkout and the end */
    method ReceiveOn(sa: Sa, esp: Esp) returns (packet: Option<Packet>)
      requires sa.Valid() && policies.Valid()
      modifies esp, sa, sa.ctx, sa.ctx.window
      ensures sa.Valid() && (sa.State(), packet) == SaInbound(old(sa.State()), policies.policies, old(esp.data))
    {
      packet := None;
      if !sa.ctx.inbound {
        return;
      }
      var status := esp.Decrypt(sa.ctx);
      if status != SUCCESS {
        return;
      }
      var ipPacket := esp.payload.value;
      sa.UpdateUsestats(ToU32(|ipPacket.encoding|));
      if esp.nextHeader == IPPROTO_IPIP || esp.nextHeader == IPPROTO_IPV6 {
        var policy := policies.FindByPacket(ipPacket, true, sa.reqid);
        if policy.Some? {
          packet := esp.payload;
        }
      }
    }

    /** The same on the SA at index `k`, and what that is for the database */
    method ReceiveAt(k: nat, esp: Esp) returns (packet: Option<Packet>)
      requires Valid() && k < |sas| && esp !in repr
      modifies esp, sas[k], sas[k].ctx, sas[k].ctx.window
      ensures Valid()
      ensures var (sa, p) := SaInbound(old(Sad())[k], policies.policies, old(esp.data));
              Sad() == old(Sad())[k := sa] && packet == p
    {
      packet := ReceiveOn(sas[k], esp);
      OneSaChanged(k);
    }

    method HandleInbound(wire: Wire) returns (packet: Option<Packet>)
      requires Valid()
      modifies repr
      ensures Valid() && (Sad(), packet) == Inbound(old(Sad()), policies.policies, wire)
    {
      packet := None;
      var esp := new Esp.FromPacket(wire.src, wire.dst, wire.data);
      var ok, spi := esp.ParseHeader();
      if !ok {
        return;
      }
      var k := CheckoutBySpi(spi, esp.dst);
      if k == |sas| {
        return;
      }
      packet := ReceiveAt(k, esp);
    }

    /** The part of process_outbound between checkout and the end */
    method TransmitOn(sa: Sa, packet: Packet) returns (wire: Option<Wire>)
      requires sa.Valid()
      modifies sa, sa.ctx, sa.ctx.window
      ensures sa.Valid() && (sa.State(), wire) == SaOutbound(old(sa.State()), packet)
    {
      var esp := new Esp.FromPayload(sa.src, sa.dst, Some(packet));
      var status := esp.Encrypt(sa.ctx, sa.spi);
      if status != SUCCESS {
        return None;
      }
      sa.UpdateUsestats(ToU32(|packet.encoding|));
      return Some(Wire(esp.src, esp.dst, esp.data));
    }

    method TransmitAt(k: nat, packet: Packet) returns (wire: Option<Wire>)
      requires Valid() && k < |sas|
      modifies sas[k], sas[k].ctx, sas[k].ctx.window
      ensures Valid()
      ensures var (sa, w) := SaOutbound(old(Sad())[k], packet);
              Sad() == old(Sad())[k := sa] && wire == w
    {
      wire := TransmitOn(sas[k], packet);
      OneSaChanged(k);
    }

    /** The policy for a packet, and the SA for the policy */
    method CheckoutByPacket(packet: Packet) returns (k: nat)
      requires Valid()
      ensures k <= |sas|
      ensures if k < |sas| then
                var policy := Find(policies.policies, packet, false, 0);
                policy.Some? && k == FirstIndex(Sad(), ByReqid(policy.value.policy.reqid, false))
              else Outbound(Sad(), policies.policies, packet) == (Sad(), None)
    {
      var policy := policies.FindByPacket(packet, false, 0);
      if policy.None? {
        return |sas|;
      }
      k := CheckoutByReqid(policy.value.policy.reqid, false);
    }

    method HandleOutbound(packet: Packet) returns (wire: Option<Wire>)
      requires Valid()
      modifies repr
      ensures Valid() && (Sad(), wire) == Outbound(old(Sad()), policies.policies, packet)
    {
      var k := CheckoutByPacket(packet);
      if k == |sas| {
        return None;
      }
      wire := TransmitFor(k, packet);
    }

    method TransmitFor(k: nat, packet: Packet) returns (wire: Option<Wire>)
      requires Valid() && k < |sas| && Find(policies.policies, packet, false, 0).Some?
      requires k == FirstIndex(Sad(), ByReqid(Find(policies.policies, packet, false, 0).value.policy.reqid, false))
      modifies repr
      ensures Valid() && (Sad(), wire) == Outbound(old(Sad()), policies.policies, packet)
    {
      OutboundOn(Sad(), policies.policies, packet, k);
      wire := TransmitAt(k, packet);
    }
  }

  class Processor {
    const db: Databases
    var inboundQueue: seq<Wire>
    var outboundQueue: seq<Packet>
    /** whether callbacks are registered, and what they have been given */
    var inboundCb: bool
    var outboundCb: bool
    var delivered: seq<Packet>
    var sent: seq<Wire>

    ghost predicate Valid()
      reads this, db, db.repr, db.policies
    {
      db.Valid() && this !in db.repr
    }

    constructor (db: Databases)
      requires db.Valid()
      ensures Valid() && this.db == db && inboundQueue == [] && outboundQueue == [] && delivered == [] && sent == []
      ensures !inboundCb && !outboundCb
    {
      this.db := db;
      inboundQueue, outboundQueue, delivered, sent := [], [], [], [];
      inboundCb, outboundCb := false, false;
    }

    /** The queues and callbacks are not part of the databases. */
    twostate lemma DatabasesStay()
      requires old(Valid()) && unchanged(db) && unchanged(db.policies)
      requires forall o | o in old(db.repr) :: unchanged(o)
      ensures Valid() && db.Sad() == old(db.Sad())
    {
    }

    /** deliver_inbound */
    method DeliverInbound(packet: Packet)
      modifies this`delivered
      ensures delivered == old(delivered) + (if inboundCb then [packet] else [])
    {
      if inboundCb {
        delivered := delivered + [packet];
      }
    }

    /** send_outbound */
    method SendOutbound(wire: Wire)
      modifies this`sent
      ensures sent == old(sent) + (if outboundCb then [wire] else [])
    {
      if outboundCb {
        sent := sent + [wire];
      }
    }

    method ProcessInbound()
      requires Valid() && inboundQueue != []
      modifies this`inboundQueue, this`delivered, db.repr
      ensures Valid() && inboundQueue == old(inboundQueue)[1..]
      ensures var (sad, packet) := Inbound(old(db.Sad()), db.policies.policies, old(inboundQueue)[0]);
              && db.Sad() == sad
              && delivered == old(delivered) + (if packet.Some? && inboundCb then [packet.value] else [])
    {
      var wire := inboundQueue[0];
      inboundQueue := inboundQueue[1..];
      DatabasesStay();
      var packet := db.HandleInbound(wire);
      if packet.Some? {
        label before:
        DeliverInbound(packet.value);
        DatabasesStay@before();
      }
    }

    method ProcessOutbound()
      requires Valid() && outboundQueue != []
      modifies this`outboundQueue, this`sent, db.repr
      ensures Valid() && outboundQueue == old(outboundQueue)[1..]
      ensures var (sad, wire) := Outbound(old(db.Sad()), db.policies.policies, old(outboundQueue)[0]);
              && db.Sad() == sad
              && sent == old(sent) + (if wire.Some? && outboundCb then [wire.value] else [])
    {
      var packet := outboundQueue[0];
      outboundQueue := outboundQueue[1..];
      DatabasesStay();
      var wire := db.HandleOutbound(packet);
      if wire.Some? {
        label before:
        SendOutbound(wire.value);
        DatabasesStay@before();
      }
    }
  }
}
