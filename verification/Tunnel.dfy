/** What the whole data path promises: every packet that one endpoint sends through an SA comes
    out of the other endpoint exactly once and unchanged, however the network reorders and
    repeats packets within the anti-replay window and whatever else it injects. */
module Tunnel {
  import opened Bytes
  import opened Lists
  import opened IpPacket
  import opened EspContext
  import opened EspPacket
  import opened IpsecSa
  import opened Policies
  import opened Processor
  import opened Pipelines

  // ---------------------------------------------------------------- what an SA keeps

  /** Processing packets changes counters, flags and sequence numbers, nothing else, and never
      takes a hard expiry back. */
  ghost predicate Keeps(a: SaState, b: SaState) {
    && b.spi == a.spi && b.src == a.src && b.dst == a.dst && b.reqid == a.reqid
    && b.lifetime == a.lifetime && b.aead == a.aead && b.replay.inbound == a.replay.inbound
    && (a.hardExpired ==> b.hardExpired)
  }

  ghost predicate AllKept(s: seq<SaState>, t: seq<SaState>) {
    |s| == |t| && forall i | 0 <= i < |s| :: Keeps(s[i], t[i])
  }

  lemma OutboundKeeps(sad: seq<SaState>, spd: seq<Entry>, packet: Packet)
    requires Ready(sad)
    ensures AllKept(sad, Outbound(sad, spd, packet).0)
  {
  }

  lemma InboundKeeps(sad: seq<SaState>, spd: seq<Entry>, wire: Wire)
    requires Ready(sad)
    ensures AllKept(sad, Inbound(sad, spd, wire).0)
  {
  }

  // ---------------------------------------------------------------- the sender

  /** A packet that was sent: through which SA, with which number, and what went out */
  datatype Sent = Sent(sa: nat, seqno: U32, packet: Packet, wire: Wire)

  ghost function Route(sad: seq<SaState>, spd: seq<Entry>, packet: Packet): nat {
    match Find(spd, packet, false, 0)
    case None => |sad|
    case Some(entry) => FirstIndex(sad, ByReqid(entry.policy.reqid, false))
  }

  ghost function SentNow(sad: seq<SaState>, spd: seq<Entry>, packet: Packet): seq<Sent>
    requires Ready(sad)
  {
    var wire := Outbound(sad, spd, packet).1;
    if wire.None? then []
    else
      var k := Route(sad, spd, packet);
      [Sent(k, sad[k].replay.last + 1, packet, wire.value)]
  }

  /** Everything that process_outbound sends for a sequence of packets */
  ghost function SendAll(sad: seq<SaState>, spd: seq<Entry>, packets: seq<Packet>): seq<Sent>
    requires Ready(sad)
    decreases packets
  {
    if packets == [] then []
    else SentNow(sad, spd, packets[0]) + SendAll(Outbound(sad, spd, packets[0]).0, spd, packets[1..])
  }

  /** A sent packet is sealed with the key and SPI of its SA and a number that is ahead. */
  ghost predicate SentThrough(x: Sent, sad: seq<SaState>) {
    && x.sa < |sad|
    && sad[x.sa].aead.blockSize > 0
    && x.seqno > sad[x.sa].replay.last
    && x.wire.dst == sad[x.sa].dst
    && Seal(sad[x.sa].aead, sad[x.sa].spi, x.seqno, x.packet.encoding, TunnelHeader(Some(x.packet)))
       == (SUCCESS, x.wire.data)
  }

  lemma SentNowShape(sad: seq<SaState>, spd: seq<Entry>, packet: Packet)
    requires Ready(sad)
    ensures forall x | x in SentNow(sad, spd, packet) ::
              SentThrough(x, sad) && x.packet == packet && Outbound(sad, spd, packet).0[x.sa].replay.last == x.seqno
    ensures forall i | 0 <= i < |sad| :: Outbound(sad, spd, packet).0[i].replay.last >= sad[i].replay.last
  {
  }

  lemma {:induction false} SendAllSealed(sad: seq<SaState>, spd: seq<Entry>, packets: seq<Packet>)
    requires Ready(sad)
    ensures forall x | x in SendAll(sad, spd, packets) :: SentThrough(x, sad) && x.packet in packets
    decreases packets
  {
    if packets != [] {
      var sad1 := Outbound(sad, spd, packets[0]).0;
      SentNowShape(sad, spd, packets[0]);
      OutboundKeeps(sad, spd, packets[0]);
      SendAllSealed(sad1, spd, packets[1..]);
      forall x | x in SendAll(sad1, spd, packets[1..]) ensures SentThrough(x, sad) {
        assert SentThrough(x, sad1) && Keeps(sad[x.sa], sad1[x.sa]);
      }
    }
  }

  ghost predicate Increasing(sent: seq<Sent>) {
    forall i, j | 0 <= i < j < |sent| && sent[i].sa == sent[j].sa :: sent[i].seqno < sent[j].seqno
  }

  /** Each SA numbers what it sends in strictly increasing order. */
  lemma {:induction false} SendAllIncreases(sad: seq<SaState>, spd: seq<Entry>, packets: seq<Packet>)
    requires Ready(sad)
    ensures Increasing(SendAll(sad, spd, packets))
    decreases packets
  {
    if packets != [] {
      var sad1 := Outbound(sad, spd, packets[0]).0;
      var now, rest := SentNow(sad, spd, packets[0]), SendAll(sad1, spd, packets[1..]);
      SentNowShape(sad, spd, packets[0]);
      SendAllSealed(sad1, spd, packets[1..]);
      SendAllIncreases(sad1, spd, packets[1..]);
      if now != [] {
        forall j | 0 <= j < |rest| && rest[j].sa == now[0].sa ensures now[0].seqno < rest[j].seqno {
          assert rest[j] in rest && now[0] in now;
        }
        assert now == [now[0]];
        assert SendAll(sad, spd, packets) == [now[0]] + rest;
      } else {
        assert SendAll(sad, spd, packets) == rest;
      }
    }
  }

  // ---------------------------------------------------------------- the receiver

  ghost function After(sad: seq<SaState>, spd: seq<Entry>, wires: seq<Wire>): (r: seq<SaState>)
    requires Ready(sad)
    ensures Ready(r)
    decreases |wires|
  {
    if wires == [] then sad
    else Inbound(After(sad, spd, wires[..|wires| - 1]), spd, wires[|wires| - 1]).0
  }

  /** What is delivered when packet number `t` arrives */
  ghost function DeliveredAt(sad: seq<SaState>, spd: seq<Entry>, wires: seq<Wire>, t: nat): Option<Packet>
    requires Ready(sad) && t < |wires|
  {
    Inbound(After(sad, spd, wires[..t]), spd, wires[t]).1
  }

  /** A delivered packet has been admitted by an inbound policy that applies to it with the reqid of
      the live inbound SA that it was addressed to. */
  lemma DeliveryNeedsPolicy(sad: seq<SaState>, spd: seq<Entry>, wire: Wire)
    requires Ready(sad) && Inbound(sad, spd, wire).1.Some?
    ensures |wire.data| >= 8
    ensures var packet := Inbound(sad, spd, wire).1.value;
            exists k: nat :: FirstToReceive(sad, k, Number(wire.data[..4]), wire.dst) && sad[k].replay.inbound
                             && exists e | e in spd :: Applies(e.policy, packet, true, sad[k].reqid)
  {
    InboundExactly(sad, spd, wire);
    var k: nat :| FirstToReceive(sad, k, Number(wire.data[..4]), wire.dst)
                  && Taken(sad[k], Inbound(sad, spd, wire).0[k], spd, wire.data, Inbound(sad, spd, wire).1);
    assert sad[k].replay.inbound;
  }

  /** The SA that a packet is for, and the policy that admits what is in it */
  ghost predicate AdmittedBy(sad: seq<SaState>, spd: seq<Entry>, wire: Wire, packet: Packet, k: nat, i: nat) {
    && |wire.data| >= 8 && FirstToReceive(sad, k, Number(wire.data[..4]), wire.dst)
    && FirstToApply(spd, i, packet, true, sad[k].reqid)
  }

  /** If the packet is delivered through an SA with this reqid, the policy that admits it carries
      the reqid too. */
  ghost predicate BindsReqid(sad: seq<SaState>, spd: seq<Entry>, wire: Wire, reqid: U32)
    requires Ready(sad)
  {
    var packet := Inbound(sad, spd, wire).1;
    packet.Some? ==>
      exists k: nat, i: nat :: AdmittedBy(sad, spd, wire, packet.value, k, i)
                               && (sad[k].reqid == reqid ==> spd[i].policy.reqid == reqid)
  }

  lemma DeliveryBindsReqid(sad: seq<SaState>, spd: seq<Entry>, wire: Wire, reqid: U32)
    requires Ready(sad) && reqid != 0
    ensures BindsReqid(sad, spd, wire, reqid)
  {
    if Inbound(sad, spd, wire).1.Some? {
      DeliveryNeedsPolicy(sad, spd, wire);
      var packet := Inbound(sad, spd, wire).1.value;
      var k: nat :| FirstToReceive(sad, k, Number(wire.data[..4]), wire.dst)
                    && exists e | e in spd :: Applies(e.policy, packet, true, sad[k].reqid);
      FindExactly(spd, packet, true, sad[k].reqid);
      var i: nat :| FirstToApply(spd, i, packet, true, sad[k].reqid);
      assert AdmittedBy(sad, spd, wire, packet, k, i);
    }
  }

  // ---------------------------------------------------------------- the network

  /** What arrives: a packet that was sent, possibly late and possibly again, or anything else */
  datatype Arrival = Genuine(k: nat) | Noise(wire: Wire)

  function WireOf(sent: seq<Sent>, a: Arrival): Wire
    requires a.Genuine? ==> a.k < |sent|
  {
    match a
    case Genuine(k) => sent[k].wire
    case Noise(wire) => wire
  }

  ghost predicate WellAimed(sent: seq<Sent>, arrivals: seq<Arrival>) {
    forall t | 0 <= t < |arrivals| :: arrivals[t].Genuine? ==> arrivals[t].k < |sent|
  }

  ghost function Wires(sent: seq<Sent>, arrivals: seq<Arrival>): (w: seq<Wire>)
    requires WellAimed(sent, arrivals)
    ensures |w| == |arrivals| && forall t | 0 <= t < |w| :: w[t] == WireOf(sent, arrivals[t])
  {
    seq(|arrivals|, t requires 0 <= t < |arrivals| && WellAimed(sent, arrivals) => WireOf(sent, arrivals[t]))
  }

  /** The ICV of a packet is not genuine under `a` (or there is no room for one). */
  ghost predicate Forged(a: Aead, data: seq<Byte>)
    requires a.blockSize > 0
  {
    match ParseFrame(a, data)
    case None => true
    case Some(f) => a.decrypt(f.sealed, data[..8], f.iv).None?
  }

  /** Injected packets are for another SA, or they are forgeries. */
  ghost predicate Harmless(sa: SaState, wire: Wire)
    requires sa.aead.blockSize > 0
  {
    || |wire.data| < 8
    || FromBe32(wire.data[..4]) != sa.spi
    || !IpEquals(sa.dst, wire.dst)
    || Forged(sa.aead, wire.data)
  }

  /** No arrival is 128 or more sequence numbers behind an earlier one. */
  ghost predicate WithinWindow(sent: seq<Sent>, arrivals: seq<Arrival>)
    requires WellAimed(sent, arrivals)
  {
    forall u, t | 0 <= u < t < |arrivals| && arrivals[u].Genuine? && arrivals[t].Genuine? ::
      sent[arrivals[u].k].seqno - sent[arrivals[t].k].seqno < WINDOW_SIZE
  }

  /** The receiver can deliver a packet: the packet declares its header, the cipher aligns it,
      and an inbound policy admits it. */
  ghost predicate Deliverable(packet: Packet, sa: SaState, spd: seq<Entry>)
    requires sa.aead.blockSize > 0
  {
    && (exists raw :: Parse(raw) == Some(packet) && CoversHeader(raw))
    && Aligned(sa.aead, |packet.encoding|) && PaddingLen(sa.aead, |packet.encoding|) <= 255
    && Find(spd, packet, true, sa.reqid).Some?
  }

  /** SA number `j` of the receiver is the new counterpart of the sender's SA `a`: it has the same
      key, and it alone has the sender's SPI and destination. */
  ghost predicate Counterpart(sad: seq<SaState>, j: nat, a: SaState) {
    && j < |sad|
    && sad[j].replay == NewReplay(true) && !sad[j].hardExpired && sad[j].packets == 0 && sad[j].bytes == 0
    && sad[j].aead == a.aead
    && forall i | 0 <= i < |sad| :: (sad[i].spi == a.spi && IpEquals(sad[i].dst, a.dst)) <==> i == j
  }

  // ---------------------------------------------------------------- the invariant

  /** A usage limit of the SA has been reached. */
  predicate Over(life: Lifetime, packets: nat, bytes: nat) {
    || (life.packets.life != 0 && packets >= life.packets.life)
    || (life.bytes.life != 0 && bytes >= life.bytes.life)
  }

  /** How far the receiving SA has got: its anti-replay state, its counters, and whether a limit
      has ended its life */
  datatype Progress = Progress(replay: Replay, packets: nat, bytes: nat, dead: bool)

  function Counted(p: Progress, life: Lifetime, seqno: U32, size: nat): Progress {
    if p.dead || !Accepts(p.replay, seqno) then p
    else
      Progress(Authenticate(p.replay, seqno), p.packets + 1, p.bytes + size,
               Over(life, p.packets + 1, p.bytes + size))
  }

  /** What the genuine arrivals alone lead to */
  ghost function ProgressAfter(sent: seq<Sent>, life: Lifetime, arrivals: seq<Arrival>): (p: Progress)
    requires WellAimed(sent, arrivals)
    ensures p.replay.inbound
    decreases |arrivals|
  {
    if arrivals == [] then Progress(NewReplay(true), 0, 0, false)
    else
      var p := ProgressAfter(sent, life, arrivals[..|arrivals| - 1]);
      match arrivals[|arrivals| - 1]
      case Noise(_) => p
      case Genuine(k) => Counted(p, life, sent[k].seqno, |sent[k].packet.encoding|)
  }

  const MAX_ENCODING: nat := 40 + 0xffff

  /** Every packet counts once, so the counters cannot wrap. */
  ghost predicate Bounded(p: Progress) {
    p.packets == |p.replay.seen| && p.bytes <= MAX_ENCODING * p.packets
  }

  lemma {:induction false} SmallSet(s: set<U32>, n: nat)
    requires forall x | x in s :: x < n
    ensures |s| <= n
    decreases n
  {
    if n > 0 {
      var r := set x | x in s && x < n - 1;
      SmallSet(r, n - 1);
      var last: set<U32> := if n - 1 < 0x1_0000_0000 then {n - 1} else {};
      assert s <= r + last;
      SubsetSize(s, r + last);
    } else {
      assert s == {};
    }
  }

  /** A parsed packet is at most as long as a header can declare. */
  lemma ParsedIsShort(packet: Packet)
    requires exists raw :: Parse(raw) == Some(packet)
    ensures |packet.encoding| <= MAX_ENCODING
  {
    var raw :| Parse(raw) == Some(packet);
    ParseTrims(raw);
  }

  lemma CountersFit(p: Progress, size: nat)
    requires Bounded(p) && size <= MAX_ENCODING
    ensures p.packets + 1 < 0x1_0000_0000_0000_0000 && p.bytes + size < 0x1_0000_0000_0000_0000
  {
    SmallSet(p.replay.seen, 0x1_0000_0000);
  }

  lemma CountedIsBounded(p: Progress, life: Lifetime, seqno: U32, size: nat)
    requires Bounded(p) && size <= MAX_ENCODING && p.replay.inbound
    ensures Bounded(Counted(p, life, seqno, size))
  {
  }

  /** After some arrivals: nothing but the state of the SAs has changed, and the receiving SA is
      where the genuine arrivals lead to. */
  ghost predicate Received(sad: seq<SaState>, now: seq<SaState>, j: nat, p: Progress) {
    && AllKept(sad, now) && j < |now|
    && now[j].replay == p.replay && now[j].hardExpired == p.dead
    && now[j].packets == p.packets && now[j].bytes == p.bytes && Bounded(p)
  }

  /** One packet from the other end is delivered exactly if its number is accepted. */
  lemma GenuineArrives(sa: SaState, spd: seq<Entry>, x: Sent)
    requires Lawful(sa.aead) && sa.replay.inbound && Deliverable(x.packet, sa, spd)
    requires Seal(sa.aead, sa.spi, x.seqno, x.packet.encoding, TunnelHeader(Some(x.packet))) == (SUCCESS, x.wire.data)
    ensures |x.wire.data| >= 8 && FromBe32(x.wire.data[..4]) == sa.spi
    ensures !Accepts(sa.replay, x.seqno) ==> SaInbound(sa, spd, x.wire.data) == (sa, None)
    ensures Accepts(sa.replay, x.seqno) ==>
              SaInbound(sa, spd, x.wire.data)
              == (Used(sa.(replay := Authenticate(sa.replay, x.seqno)), ToU32(|x.packet.encoding|)), Some(x.packet))
  {
    var next := TunnelHeader(Some(x.packet));
    SealedFrame(sa.aead, sa.spi, x.seqno, x.packet.encoding, next);
    if Accepts(sa.replay, x.seqno) {
      var raw :| Parse(raw) == Some(x.packet) && CoversHeader(raw);
      RoundTripExactly(sa.aead, sa.replay, sa.spi, x.seqno, raw, next);
    }
  }

  lemma ForgeryIsDropped(sa: SaState, spd: seq<Entry>, data: seq<Byte>)
    requires sa.aead.blockSize > 0 && Forged(sa.aead, data)
    ensures SaInbound(sa, spd, data) == (sa, None)
  {
  }

  lemma NoiseKeepsReceived(sad: seq<SaState>, now: seq<SaState>, spd: seq<Entry>, j: nat, p: Progress, wire: Wire)
    requires Ready(sad) && Ready(now) && Received(sad, now, j, p) && Harmless(sad[j], wire)
    ensures Received(sad, Inbound(now, spd, wire).0, j, p)
  {
    InboundKeeps(now, spd, wire);
    if |wire.data| >= 8 {
      var k := FirstIndex(now, BySpiDst(FromBe32(wire.data[..4]), wire.dst));
      if k == j {
        assert Keeps(sad[j], now[j]);
        ForgeryIsDropped(now[j], spd, wire.data);
      }
    }
  }

  /** The counters of an SA that has not expired, after one more packet */
  lemma UseCounts(sa: SaState, p: Progress, seqno: U32, size: U32)
    requires sa.replay == p.replay && !sa.hardExpired && !p.dead && Accepts(p.replay, seqno)
    requires sa.packets == p.packets && sa.bytes == p.bytes
    requires p.packets + 1 < 0x1_0000_0000_0000_0000 && p.bytes + size < 0x1_0000_0000_0000_0000
    ensures var u := Used(sa.(replay := Authenticate(sa.replay, seqno)), size);
            Progress(u.replay, u.packets, u.bytes, u.hardExpired) == Counted(p, sa.lifetime, seqno, size)
  {
  }

  /** Where the packets of the sender go: to the counterpart while it lives, and to no SA after
      that. */
  lemma FindsCounterpart(sad: seq<SaState>, now: seq<SaState>, j: nat, a: SaState, p: Progress)
    requires Counterpart(sad, j, a) && Received(sad, now, j, p)
    ensures FirstIndex(now, BySpiDst(a.spi, a.dst)) == if p.dead then |now| else j
  {
    forall i | 0 <= i < |now| ensures BySpiDst(a.spi, a.dst)(now[i]) <==> i == j && !p.dead {
      assert Keeps(sad[i], now[i]);
    }
    FirstIndexUnique(now, BySpiDst(a.spi, a.dst), if p.dead then |now| else j);
  }

  lemma GenuineKeepsReceived(sad: seq<SaState>, now: seq<SaState>, spd: seq<Entry>, j: nat, a: SaState,
                             p: Progress, x: Sent)
    requires Ready(sad) && Ready(now) && Counterpart(sad, j, a) && Received(sad, now, j, p) && p.replay.inbound
    requires Lawful(a.aead) && Deliverable(x.packet, sad[j], spd) && x.wire.dst == a.dst
    requires Seal(a.aead, a.spi, x.seqno, x.packet.encoding, TunnelHeader(Some(x.packet))) == (SUCCESS, x.wire.data)
    ensures Received(sad, Inbound(now, spd, x.wire).0, j, Counted(p, sad[j].lifetime, x.seqno, |x.packet.encoding|))
    ensures Inbound(now, spd, x.wire).1 == if !p.dead && Accepts(p.replay, x.seqno) then Some(x.packet) else None
  {
    assert Keeps(sad[j], now[j]);
    GenuineArrives(now[j], spd, x);
    FindsCounterpart(sad, now, j, a, p);
    InboundKeeps(now, spd, x.wire);
    ParsedIsShort(x.packet);
    CountersFit(p, |x.packet.encoding|);
    CountedIsBounded(p, sad[j].lifetime, x.seqno, |x.packet.encoding|);
    if !p.dead && Accepts(p.replay, x.seqno) {
      UseCounts(now[j], p, x.seqno, |x.packet.encoding|);
    }
  }

  // ---------------------------------------------------------------- the theorem

  /** The set-up of the theorem: what was sent, the counterpart SA, and what arrives. */
  ghost predicate Scenario(sadA: seq<SaState>, i: nat, sent: seq<Sent>, sadB: seq<SaState>, spdB: seq<Entry>, j: nat,
                           arrivals: seq<Arrival>)
  {
    && Ready(sadA) && Ready(sadB) && i < |sadA| && Lawful(sadA[i].aead) && Counterpart(sadB, j, sadA[i])
    && (forall x | x in sent && x.sa == i :: Deliverable(x.packet, sadB[j], spdB))
    && WellAimed(sent, arrivals)
    && (forall t | 0 <= t < |arrivals| && arrivals[t].Genuine? :: sent[arrivals[t].k].sa == i)
    && (forall t | 0 <= t < |arrivals| && arrivals[t].Noise? :: Harmless(sadB[j], arrivals[t].wire))
  }

  lemma {:induction false} ReceivedAfter(sadA: seq<SaState>, i: nat, sent: seq<Sent>, sadB: seq<SaState>,
                                         spdB: seq<Entry>, j: nat, arrivals: seq<Arrival>, t: nat)
    requires Scenario(sadA, i, sent, sadB, spdB, j, arrivals) && t <= |arrivals|
    requires forall x | x in sent :: SentThrough(x, sadA)
    ensures Received(sadB, After(sadB, spdB, Wires(sent, arrivals)[..t]), j,
                     ProgressAfter(sent, sadB[j].lifetime, arrivals[..t]))
    decreases t
  {
    var wires := Wires(sent, arrivals);
    if t > 0 {
      var u := t - 1;
      ReceivedAfter(sadA, i, sent, sadB, spdB, j, arrivals, u);
      assert wires[..t][..u] == wires[..u];
      ArrivalStep(sadA, i, sent, sadB, spdB, j, arrivals, u);
      var now := After(sadB, spdB, wires[..u]);
      assert After(sadB, spdB, wires[..t]) == Inbound(now, spdB, wires[u]).0;
    } else {
      assert wires[..0] == [] && arrivals[..0] == [];
    }
  }

  /** One arrival: the invariant goes on, and a genuine packet is delivered exactly if its number
      is accepted. */
  lemma ArrivalStep(sadA: seq<SaState>, i: nat, sent: seq<Sent>, sadB: seq<SaState>, spdB: seq<Entry>, j: nat,
                    arrivals: seq<Arrival>, u: nat)
    requires Scenario(sadA, i, sent, sadB, spdB, j, arrivals) && u < |arrivals|
    requires forall x | x in sent :: SentThrough(x, sadA)
    requires Received(sadB, After(sadB, spdB, Wires(sent, arrivals)[..u]), j,
                      ProgressAfter(sent, sadB[j].lifetime, arrivals[..u]))
    ensures var p := ProgressAfter(sent, sadB[j].lifetime, arrivals[..u]);
            var r := Inbound(After(sadB, spdB, Wires(sent, arrivals)[..u]), spdB, Wires(sent, arrivals)[u]);
            && Received(sadB, r.0, j, ProgressAfter(sent, sadB[j].lifetime, arrivals[..u + 1]))
            && (arrivals[u].Genuine? ==>
                  r.1 == if !p.dead && Accepts(p.replay, sent[arrivals[u].k].seqno)
                         then Some(sent[arrivals[u].k].packet) else None)
  {
    var now := After(sadB, spdB, Wires(sent, arrivals)[..u]);
    var p := ProgressAfter(sent, sadB[j].lifetime, arrivals[..u]);
    assert arrivals[..u + 1][..u] == arrivals[..u];
    match arrivals[u]
    case Noise(wire) =>
      NoiseKeepsReceived(sadB, now, spdB, j, p, wire);
    case Genuine(k) =>
      var x := sent[k];
      assert x in sent && SentThrough(x, sadA);
      GenuineKeepsReceived(sadB, now, spdB, j, sadA[i], p, x);
  }

  /** End to end, exactly: for every run of the sender and everything that can arrive, a packet is
      delivered byte for byte if and only if at that moment its sequence number is accepted and no
      limit of the receiving SA has been reached. */
  lemma EndToEndExactly(sadA: seq<SaState>, spdA: seq<Entry>, packets: seq<Packet>, i: nat,
                        sadB: seq<SaState>, spdB: seq<Entry>, j: nat, arrivals: seq<Arrival>, t: nat)
    requires Ready(sadA) && Scenario(sadA, i, SendAll(sadA, spdA, packets), sadB, spdB, j, arrivals)
    requires t < |arrivals| && arrivals[t].Genuine?
    ensures var sent := SendAll(sadA, spdA, packets);
            var x := sent[arrivals[t].k];
            var p := ProgressAfter(sent, sadB[j].lifetime, arrivals[..t]);
            DeliveredAt(sadB, spdB, Wires(sent, arrivals), t)
            == if !p.dead && Accepts(p.replay, x.seqno) then Some(x.packet) else None
  {
    var sent := SendAll(sadA, spdA, packets);
    SendAllSealed(sadA, spdA, packets);
    ReceivedAfter(sadA, i, sent, sadB, spdB, j, arrivals, t);
    ArrivalStep(sadA, i, sent, sadB, spdB, j, arrivals, t);
  }

  // ---------------------------------------------------------------- within the window

  ghost function Numbers(sent: seq<Sent>, arrivals: seq<Arrival>): set<U32>
    requires WellAimed(sent, arrivals)
  {
    set t | 0 <= t < |arrivals| && arrivals[t].Genuine? :: sent[arrivals[t].k].seqno
  }

  lemma NumbersGrow(sent: seq<Sent>, arrivals: seq<Arrival>, u: nat)
    requires WellAimed(sent, arrivals) && u < |arrivals|
    ensures Numbers(sent, arrivals[..u + 1])
         == Numbers(sent, arrivals[..u]) + (if arrivals[u].Genuine? then {sent[arrivals[u].k].seqno} else {})
  {
    var a, b := arrivals[..u], arrivals[..u + 1];
    forall t | 0 <= t < |b| ensures b[t] == if t < u then a[t] else arrivals[u] {}
  }

  lemma ArrivedBefore(sent: seq<Sent>, arrivals: seq<Arrival>, t: nat)
    requires WellAimed(sent, arrivals) && t < |arrivals| && arrivals[t].Genuine? && Increasing(sent)
    requires forall u | 0 <= u < |arrivals| && arrivals[u].Genuine? :: sent[arrivals[u].k].sa == sent[arrivals[t].k].sa
    ensures sent[arrivals[t].k].seqno in Numbers(sent, arrivals[..t]) <==> arrivals[t] in arrivals[..t]
  {
    var before := arrivals[..t];
    if sent[arrivals[t].k].seqno in Numbers(sent, before) {
      var u :| 0 <= u < |before| && before[u].Genuine? && sent[before[u].k].seqno == sent[arrivals[t].k].seqno;
      assert before[u] == arrivals[u];
      assert arrivals[u].k == arrivals[t].k;
    }
    if arrivals[t] in before {
      var u :| 0 <= u < |before| && before[u] == arrivals[t];
    }
  }

  /** The number and the bytes of the packets that have arrived, each counted once */
  ghost function Totals(sent: seq<Sent>, arrivals: seq<Arrival>): (nat, nat)
    requires WellAimed(sent, arrivals)
    decreases |arrivals|
  {
    if arrivals == [] then (0, 0)
    else
      var front, last := arrivals[..|arrivals| - 1], arrivals[|arrivals| - 1];
      var (packets, bytes) := Totals(sent, front);
      if last.Noise? || last in front then (packets, bytes)
      else (packets + 1, bytes + |sent[last.k].packet.encoding|)
  }

  /** What arrives is all from one SA, numbered from 1 on, and within the window. */
  ghost predicate InOrder(sent: seq<Sent>, arrivals: seq<Arrival>, i: nat) {
    && WellAimed(sent, arrivals) && WithinWindow(sent, arrivals) && Increasing(sent)
    && forall u | 0 <= u < |arrivals| && arrivals[u].Genuine? ::
         sent[arrivals[u].k].sa == i && sent[arrivals[u].k].seqno > 0
  }

  /** While no limit has been reached, the receiver has seen and counted exactly what has
      arrived. */
  ghost predicate Tracks(p: Progress, sent: seq<Sent>, life: Lifetime, arrivals: seq<Arrival>)
    requires WellAimed(sent, arrivals)
  {
    var (packets, bytes) := Totals(sent, arrivals);
    && (p.dead <==> Over(life, packets, bytes))
    && (!p.dead ==>
          && p.replay.seen == Numbers(sent, arrivals) && (p.replay.last == 0 || p.replay.last in p.replay.seen)
          && Sane(p.replay) && p.packets == packets && p.bytes == bytes)
  }

  /** A number within the window is accepted exactly when it arrives first. */
  lemma AcceptsFirst(sent: seq<Sent>, life: Lifetime, arrivals: seq<Arrival>, i: nat, p: Progress, t: nat)
    requires InOrder(sent, arrivals, i) && t < |arrivals| && arrivals[t].Genuine? && p.replay.inbound
    requires Tracks(p, sent, life, arrivals[..t]) && !p.dead
    ensures Accepts(p.replay, sent[arrivals[t].k].seqno) <==> arrivals[t] !in arrivals[..t]
  {
    ArrivedBefore(sent, arrivals, t);
    var last := p.replay.last;
    if last != 0 {
      var u :| 0 <= u < t && arrivals[..t][u].Genuine? && sent[arrivals[..t][u].k].seqno == last;
      assert arrivals[u] == arrivals[..t][u];
    }
  }

  lemma TotalsGrow(sent: seq<Sent>, arrivals: seq<Arrival>, u: nat)
    requires WellAimed(sent, arrivals) && u < |arrivals|
    ensures var (packets, bytes) := Totals(sent, arrivals[..u]);
            Totals(sent, arrivals[..u + 1])
            == if arrivals[u].Noise? || arrivals[u] in arrivals[..u] then (packets, bytes)
               else (packets + 1, bytes + |sent[arrivals[u].k].packet.encoding|)
  {
    var next := arrivals[..u + 1];
    assert next[..u] == arrivals[..u] && next[u] == arrivals[u];
  }

  lemma TrackStep(sent: seq<Sent>, life: Lifetime, arrivals: seq<Arrival>, i: nat, p: Progress, u: nat)
    requires InOrder(sent, arrivals, i) && u < |arrivals| && arrivals[u].Genuine? && p.replay.inbound
    requires Tracks(p, sent, life, arrivals[..u])
    ensures var x := sent[arrivals[u].k];
            Tracks(Counted(p, life, x.seqno, |x.packet.encoding|), sent, life, arrivals[..u + 1])
  {
    TotalsGrow(sent, arrivals, u);
    if !p.dead {
      NumbersGrow(sent, arrivals, u);
      AcceptsFirst(sent, life, arrivals, i, p, u);
      if arrivals[u] in arrivals[..u] {
        ArrivedBefore(sent, arrivals, u);
      }
    }
  }

  lemma {:induction false} ArrivalsAreTracked(sent: seq<Sent>, life: Lifetime, arrivals: seq<Arrival>, i: nat, t: nat)
    requires InOrder(sent, arrivals, i) && t <= |arrivals|
    ensures Tracks(ProgressAfter(sent, life, arrivals[..t]), sent, life, arrivals[..t])
    decreases t
  {
    if t == 0 {
      assert arrivals[..0] == [];
    } else {
      var u := t - 1;
      ArrivalsAreTracked(sent, life, arrivals, i, u);
      assert arrivals[..t][..u] == arrivals[..u] && arrivals[..t][u] == arrivals[u];
      if arrivals[u].Genuine? {
        TrackStep(sent, life, arrivals, i, ProgressAfter(sent, life, arrivals[..u]), u);
      } else {
        TotalsGrow(sent, arrivals, u);
        NumbersGrow(sent, arrivals, u);
      }
    }
  }

  /** End to end: for every run of the sender, every selection, reordering and repetition of what
      it sent through the SA that stays within the window, and every injection of other packets,
      a packet is delivered byte for byte if and only if it arrives for the first time and the
      packets and bytes that arrived before it are below the limits of the receiving SA. */
  lemma EndToEnd(sadA: seq<SaState>, spdA: seq<Entry>, packets: seq<Packet>, i: nat,
                 sadB: seq<SaState>, spdB: seq<Entry>, j: nat, arrivals: seq<Arrival>, t: nat)
    requires Ready(sadA) && Scenario(sadA, i, SendAll(sadA, spdA, packets), sadB, spdB, j, arrivals)
    requires WithinWindow(SendAll(sadA, spdA, packets), arrivals)
    requires t < |arrivals| && arrivals[t].Genuine?
    ensures var sent := SendAll(sadA, spdA, packets);
            var (before, bytes) := Totals(sent, arrivals[..t]);
            DeliveredAt(sadB, spdB, Wires(sent, arrivals), t)
            == if arrivals[t] in arrivals[..t] || Over(sadB[j].lifetime, before, bytes) then None
               else Some(sent[arrivals[t].k].packet)
  {
    var sent := SendAll(sadA, spdA, packets);
    EndToEndExactly(sadA, spdA, packets, i, sadB, spdB, j, arrivals, t);
    SendAllSealed(sadA, spdA, packets);
    SendAllIncreases(sadA, spdA, packets);
    forall u | 0 <= u < |arrivals| && arrivals[u].Genuine? ensures sent[arrivals[u].k].seqno > 0 {
      assert sent[arrivals[u].k] in sent;
    }
    var life := sadB[j].lifetime;
    var p := ProgressAfter(sent, life, arrivals[..t]);
    ArrivalsAreTracked(sent, life, arrivals, i, t);
    if !p.dead {
      AcceptsFirst(sent, life, arrivals, i, p, t);
    }
  }
}
