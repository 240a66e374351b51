/** A tunnel for which the end-to-end theorem can be applied: two peers with one SA and one policy
    each, and a cipher that does not encrypt. */
module TunnelExample {
  import opened Bytes
  import opened Lists
  import opened IpPacket
  import opened EspContext
  import opened EspPacket
  import opened IpsecSa
  import opened Policies
  import opened Processor
  import opened Tunnel

  function NullCipher(): Aead {
    Aead(4, 0, 0,
         (plain: seq<Byte>, aad: seq<Byte>, iv: seq<Byte>) => Some(plain),
         (sealed: seq<Byte>, aad: seq<Byte>, iv: seq<Byte>) => Some(sealed),
         Some((seqno: U32) => Some([])))
  }

  lemma NullCipherIsLawful()
    ensures Lawful(NullCipher())
  {
    var a := NullCipher();
    forall plain, aad, iv ensures Inverts(a, plain, aad, iv) {}
    forall seqno: U32 ensures GivesIv(a.ivGen.value, seqno, a.ivSize) {}
  }

  const NOBODY := Host([0, 0, 0, 0], 0)

  /** An IPv4 header without payload */
  function Raw(): (raw: seq<Byte>)
    ensures |raw| == 20
  {
    [0x45, 0, 0, 20] + Zeros(16)
  }

  function Sample(): Packet { Packet(4, NOBODY, NOBODY, Raw(), [], 0) }

  lemma SampleParses()
    ensures Parse(Raw()) == Some(Sample()) && CoversHeader(Raw())
  {
    var raw := Raw();
    assert raw[2..4] == [0, 20] && raw[6..8] == [0, 0] && raw[12..16] == [0, 0, 0, 0] && raw[16..20] == [0, 0, 0, 0];
    assert raw[..20] == raw;
  }

  function Everyone(): Selector { Selector([0, 0, 0, 0], [0, 0, 0, 0], 0, 0, 0xffff, 0) }

  function Rule(direction: Direction): Entry {
    var p := Policy(NOBODY, NOBODY, Everyone(), Everyone(), direction, POLICY_IPSEC, 1, Mark(0, 0), PRIORITY_DEFAULT);
    Entry(PriorityOf(p), p, 0)
  }

  lemma RuleMatches()
    ensures Find([Rule(POLICY_OUT)], Sample(), false, 0) == Some(Rule(POLICY_OUT))
    ensures Find([Rule(POLICY_IN)], Sample(), true, 1) == Some(Rule(POLICY_IN))
  {
    assert AddressLe([0, 0, 0, 0], [0, 0, 0, 0]) by {
      assert AddressLe([], []) && AddressLe([0], [0]) && AddressLe([0, 0], [0, 0]) && AddressLe([0, 0, 0], [0, 0, 0]);
    }
    assert Eligible(Rule(POLICY_OUT), Sample(), false, 0) && Eligible(Rule(POLICY_IN), Sample(), true, 1);
    FirstIndexUnique([Rule(POLICY_OUT)], IsEligible(Sample(), false, 0), 0);
    FirstIndexUnique([Rule(POLICY_IN)], IsEligible(Sample(), true, 1), 0);
  }

  function Unlimited(): Lifetime { Lifetime(Limit(0, 0), Limit(0, 0), Limit(0, 0)) }

  function Peer(inbound: bool): SaState { NewSa(256, NOBODY, NOBODY, 1, Unlimited(), NullCipher(), inbound) }

  lemma Seals()
    ensures var (sa, wire) := SaOutbound(Peer(false), Sample()); wire.Some? && sa.replay.last == 1
  {
    assert Seal(NullCipher(), 256, 1, Raw(), TunnelHeader(Some(Sample()))).0 == SUCCESS;
  }

  function Sender(): seq<SaState> { [Peer(false)] }

  function Receiver(): seq<SaState> { [Peer(true)] }

  lemma SendsNow()
    ensures Ready(Sender())
    ensures var sent := SentNow(Sender(), [Rule(POLICY_OUT)], Sample());
            |sent| == 1 && sent[0].sa == 0 && sent[0].seqno == 1 && sent[0].packet == Sample()
  {
    RuleMatches();
    assert MatchByReqid(Sender()[0], 1, false);
    FirstIndexUnique(Sender(), ByReqid(1, false), 0);
    Seals();
  }

  lemma OnlyOne(sad: seq<SaState>, spd: seq<Entry>, packet: Packet)
    requires Ready(sad)
    ensures SendAll(sad, spd, [packet]) == SentNow(sad, spd, packet)
  {
    assert [packet][1..] == [];
    assert SendAll(Outbound(sad, spd, packet).0, spd, []) == [];
  }

  /** The peer sends one packet, with number 1. */
  lemma Sends()
    ensures Ready(Sender())
    ensures var sent := SendAll(Sender(), [Rule(POLICY_OUT)], [Sample()]);
            |sent| == 1 && sent[0].sa == 0 && sent[0].seqno == 1 && sent[0].packet == Sample()
  {
    SendsNow();
    OnlyOne(Sender(), [Rule(POLICY_OUT)], Sample());
  }

  lemma CanReceive()
    ensures Lawful(NullCipher()) && Ready(Receiver()) && Counterpart(Receiver(), 0, Peer(false))
    ensures Deliverable(Sample(), Peer(true), [Rule(POLICY_IN)])
  {
    NullCipherIsLawful();
    SampleParses();
    RuleMatches();
    PaddingFits(NullCipher(), 20);
  }

  // ---------------------------------------------------------------- one packet, twice

  /** One packet has been sent. */
  ghost predicate SentOnce(sadA: seq<SaState>, spdA: seq<Entry>, packet: Packet) {
    Ready(sadA) &&
    var sent := SendAll(sadA, spdA, [packet]);
    |sent| == 1 && sent[0].sa == 0 && sent[0].packet == packet
  }

  lemma TwiceIsScenario(sadA: seq<SaState>, sent: seq<Sent>, sadB: seq<SaState>, spdB: seq<Entry>,
                        arrivals: seq<Arrival>)
    requires Ready(sadA) && Ready(sadB) && |sadA| == 1 && Lawful(sadA[0].aead) && Counterpart(sadB, 0, sadA[0])
    requires |sent| == 1 && sent[0].sa == 0 && Deliverable(sent[0].packet, sadB[0], spdB)
    requires arrivals == [Genuine(0), Genuine(0)]
    ensures Scenario(sadA, 0, sent, sadB, spdB, 0, arrivals) && WithinWindow(sent, arrivals)
    ensures arrivals[0] !in arrivals[..0] && arrivals[1] in arrivals[..1]
  {
    assert arrivals[..1][0] == arrivals[1];
    assert forall t | 0 <= t < |arrivals| :: arrivals[t] == Genuine(0);
  }

  /** The packet is delivered when it arrives, and its copy is not. */
  lemma DeliversOnce(sadA: seq<SaState>, spdA: seq<Entry>, packet: Packet, sadB: seq<SaState>, spdB: seq<Entry>)
    requires |sadA| == 1 && SentOnce(sadA, spdA, packet) && Lawful(sadA[0].aead)
    requires Ready(sadB) && Counterpart(sadB, 0, sadA[0]) && Deliverable(packet, sadB[0], spdB)
    ensures var sent, arrivals := SendAll(sadA, spdA, [packet]), [Genuine(0), Genuine(0)];
            && WellAimed(sent, arrivals)
            && DeliveredAt(sadB, spdB, Wires(sent, arrivals), 0) == Some(packet)
            && DeliveredAt(sadB, spdB, Wires(sent, arrivals), 1) == None
  {
    var sent, arrivals := SendAll(sadA, spdA, [packet]), [Genuine(0), Genuine(0)];
    TwiceIsScenario(sadA, sent, sadB, spdB, arrivals);
    assert arrivals[..0] == [] && Totals(sent, []) == (0, 0);
    EndToEnd(sadA, spdA, [packet], 0, sadB, spdB, 0, arrivals, 0);
    EndToEnd(sadA, spdA, [packet], 0, sadB, spdB, 0, arrivals, 1);
  }

  /** There is such a tunnel. */
  lemma TunnelExists()
    ensures exists sadA: seq<SaState>, spdA: seq<Entry>, sadB: seq<SaState>, spdB: seq<Entry> ::
              && |sadA| == 1 && SentOnce(sadA, spdA, Sample()) && Lawful(sadA[0].aead)
              && Ready(sadB) && Counterpart(sadB, 0, sadA[0]) && Deliverable(Sample(), sadB[0], spdB)
  {
    Sends();
    CanReceive();
    assert SentOnce(Sender(), [Rule(POLICY_OUT)], Sample());
  }

  // ---------------------------------------------------------------- a delivery through an SA without reqid

  function Stray(): SaState { NewSa(256, NOBODY, NOBODY, 0, Unlimited(), NullCipher(), true) }

  /** The sample packet as the other end seals it */
  function StrayWire(): Wire {
    Wire(NOBODY, NOBODY, Seal(NullCipher(), 256, 1, Raw(), IPPROTO_IPIP).1)
  }

  lemma StrayMatches()
    ensures Find([Rule(POLICY_IN)], Sample(), true, 0) == Some(Rule(POLICY_IN))
  {
    RuleMatches();
    FirstIndexUnique([Rule(POLICY_IN)], IsEligible(Sample(), true, 1), 0);
    assert Eligible(Rule(POLICY_IN), Sample(), true, 1);
    assert Eligible(Rule(POLICY_IN), Sample(), true, 0);
    FirstIndexUnique([Rule(POLICY_IN)], IsEligible(Sample(), true, 0), 0);
  }

  lemma StrayIsReady()
    ensures Lawful(Stray().aead) && Deliverable(Sample(), Stray(), [Rule(POLICY_IN)])
    ensures Seal(NullCipher(), 256, 1, Raw(), IPPROTO_IPIP) == (SUCCESS, StrayWire().data)
  {
    NullCipherIsLawful();
    SampleParses();
    StrayMatches();
    PaddingFits(NullCipher(), 20);
  }

  lemma StrayArrives()
    ensures |StrayWire().data| >= 8 && FromBe32(StrayWire().data[..4]) == 256
    ensures SaInbound(Stray(), [Rule(POLICY_IN)], StrayWire().data).1 == Some(Sample())
  {
    StrayIsReady();
    StrayMatches();
    GenuineArrives(Stray(), [Rule(POLICY_IN)], Sent(0, 1, Sample(), StrayWire()));
  }

  lemma StrayFinds()
    ensures Ready([Stray()]) && Inbound([Stray()], [Rule(POLICY_IN)], StrayWire()).1 == Some(Sample())
  {
    StrayArrives();
    var sad := [Stray()];
    assert MatchBySpiDst(sad[0], 256, NOBODY);
    FirstIndexUnique(sad, BySpiDst(256, NOBODY), 0);
  }

  /** An SA with reqid 0 delivers the sample packet under a policy with reqid 1. */
  lemma StrayIsDelivered()
    ensures Ready([Stray()]) && Inbound([Stray()], [Rule(POLICY_IN)], StrayWire()).1 == Some(Sample())
    ensures !BindsReqid([Stray()], [Rule(POLICY_IN)], StrayWire(), 0)
  {
    StrayFinds();
    forall k: nat, i: nat | AdmittedBy([Stray()], [Rule(POLICY_IN)], StrayWire(), Sample(), k, i)
      ensures [Stray()][k].reqid == 0 && [Rule(POLICY_IN)][i].policy.reqid == 1
    {
      assert k == 0 && i == 0;
    }
  }
}
