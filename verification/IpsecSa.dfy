/** One IPsec SA (ipsec_sa.c): use counters, soft and hard expiry. */
module IpsecSa {
  import opened Bytes
  import opened IpPacket
  import opened EspContext

  type U64 = x: int | 0 <= x < 0x1_0000_0000_0000_0000

  function ToU64(x: int): (r: U64)
    ensures 0 <= x < 0x1_0000_0000_0000_0000 ==> r == x
  {
    x % 0x1_0000_0000_0000_0000
  }

  datatype Limit = Limit(life: U64, rekey: U64)
  datatype Lifetime = Lifetime(time: Limit, bytes: Limit, packets: Limit)

  /** A call of the event relay */
  datatype Event = Soft | Hard

  // ---------------------------------------------------------------- specification

  datatype SaState = SaState(
    spi: U32, src: Host, dst: Host, reqid: U32, lifetime: Lifetime, aead: Aead, replay: Replay,
    packets: U64, bytes: U64, softExpired: bool, hardExpired: bool, events: seq<Event>)

  function Expired(sa: SaState, hard: bool): SaState {
    if hard then
      if sa.hardExpired then sa else sa.(hardExpired := true, events := sa.events + [Hard])
    else
      if sa.hardExpired || sa.softExpired then sa else sa.(softExpired := true, events := sa.events + [Soft])
  }

  predicate Reaches(limit: U64, used: U64) { limit != 0 && used >= limit }

  function Used(sa: SaState, bytes: U32): SaState {
    var u := sa.(packets := ToU64(sa.packets + 1), bytes := ToU64(sa.bytes + bytes));
    if Reaches(u.lifetime.packets.life, u.packets) then Expired(u, true)
    else if Reaches(u.lifetime.bytes.life, u.bytes) then Expired(u, true)
    else if Reaches(u.lifetime.packets.rekey, u.packets) then Expired(u, false)
    else if Reaches(u.lifetime.bytes.rekey, u.bytes) then Expired(u, false)
    else u
  }

  predicate MatchBySpiDst(sa: SaState, spi: U32, dst: Host) {
    sa.spi == spi && IpEquals(sa.dst, dst) && !sa.hardExpired
  }

  predicate MatchByReqid(sa: SaState, reqid: U32, inbound: bool) {
    sa.reqid == reqid && sa.replay.inbound == inbound && !sa.hardExpired
  }

  /** A use, in one go: counters go up and wrap at 64 bits; a life limit that is set and reached ends
      the SA, a rekey limit only if none is; each event is sent once. */
  lemma UsedExactly(sa: SaState, n: U32)
    ensures var u, life := Used(sa, n), sa.lifetime;
            var packets, bytes := (sa.packets + 1) % 0x1_0000_0000_0000_0000, (sa.bytes + n) % 0x1_0000_0000_0000_0000;
            var ends := 0 < life.packets.life <= packets || 0 < life.bytes.life <= bytes;
            var ages := 0 < life.packets.rekey <= packets || 0 < life.bytes.rekey <= bytes;
            && u.packets == packets && u.bytes == bytes
            && (u.hardExpired <==> sa.hardExpired || ends)
            && (u.softExpired <==> sa.softExpired || (ages && !ends && !sa.hardExpired))
            && u.events == sa.events + (if ends && !sa.hardExpired then [Hard]
                                        else if ages && !ends && !sa.hardExpired && !sa.softExpired then [Soft] else [])
            && SameSetup(sa, u) && u.replay == sa.replay
  {
  }

  /** What no use and no expiry changes */
  ghost predicate SameSetup(a: SaState, b: SaState) {
    && a.spi == b.spi && a.src == b.src && a.dst == b.dst && a.reqid == b.reqid
    && a.lifetime == b.lifetime && a.aead == b.aead
  }

  /** expire: nothing follows hard, and neither comes twice. */
  lemma ExpiredExactly(sa: SaState, hard: bool)
    ensures var u := Expired(sa, hard);
            && (u.hardExpired <==> sa.hardExpired || hard)
            && (u.softExpired <==> sa.softExpired || (!hard && !sa.hardExpired))
            && u.events == sa.events + (if sa.hardExpired then [] else if hard then [Hard]
                                        else if sa.softExpired then [] else [Soft])
            && SameSetup(sa, u) && u.replay == sa.replay && u.packets == sa.packets && u.bytes == sa.bytes
  {
  }

  const IPPROTO_ESP: Byte := 50
  const IPCOMP_NONE: U16 := 0

  datatype Mode = NoMode | Transport | Tunnel | Beet | Passthrough | Drop

  /** What ipsec_sa_create is asked for beside the contents of the SA */
  datatype Request = Request(protocol: Byte, mode: Mode, ipcomp: U16, encap: bool, esn: bool)

  /** The one kind of SA this library processes */
  const ESP_IN_UDP := Request(IPPROTO_ESP, Tunnel, IPCOMP_NONE, true, false)

  // ---------------------------------------------------------------- implementation

  class Sa {
    const spi: U32
    var src: Host
    var dst: Host
    const reqid: U32
    const lifetime: Lifetime
    const ctx: Context
    var packets: U64
    var bytes: U64
    var softExpired: bool
    var hardExpired: bool
    /** what has been sent to the event relay */
    var events: seq<Event>

    ghost predicate Valid()
      reads this, ctx, ctx.window
    {
      ctx.Valid() && ctx.aead.blockSize > 0
    }

    ghost function State(): SaState
      reads this, ctx
    {
      SaState(spi, src, dst, reqid, lifetime, ctx.aead, ctx.State(), packets, bytes, softExpired, hardExpired, events)
    }

    constructor (spi: U32, src: Host, dst: Host, reqid: U32, lifetime: Lifetime, aead: Aead, inbound: bool)
      requires aead.blockSize > 0
      ensures Valid() && fresh(ctx) && fresh(ctx.window)
      ensures this.spi == spi && this.src == src && this.dst == dst && this.reqid == reqid && this.lifetime == lifetime
      ensures ctx.aead == aead && ctx.inbound == inbound && ctx.lastSeqno == 0 && ctx.seen == {}
      ensures packets == bytes == 0 && !softExpired && !hardExpired && events == []
      ensures State() == NewSa(spi, src, dst, reqid, lifetime, aead, inbound)
    {
      this.spi, this.src, this.dst, this.reqid, this.lifetime := spi, src, dst, reqid, lifetime;
      packets, bytes, softExpired, hardExpired, events := 0, 0, false, false, [];
      ctx := new Context(aead, inbound);
    }

    /** ipsec_sa_create; `aead` is what the context could make of the algorithms and keys. */
    static method Create(spi: U32, src: Host, dst: Host, reqid: U32, lifetime: Lifetime, request: Request,
                         aead: Option<Aead>, inbound: bool) returns (sa: Sa?)
      requires aead.Some? ==> aead.value.blockSize > 0
      ensures sa != null <==> request == ESP_IN_UDP && aead.Some?
      ensures sa != null ==> sa.Valid() && fresh(sa) && fresh(sa.ctx) && fresh(sa.ctx.window)
      ensures sa != null ==> sa.State() == NewSa(spi, src, dst, reqid, lifetime, aead.value, inbound)
    {
      if request.protocol != IPPROTO_ESP {
        return null;
      }
      if !request.encap {
        return null;
      }
      if request.esn {
        return null;
      }
      if request.ipcomp != IPCOMP_NONE {
        return null;
      }
      if request.mode != Tunnel {
        return null;
      }
      if aead.None? {
        return null;
      }
      sa := new Sa(spi, src, dst, reqid, lifetime, aead.value, inbound);
    }

    method Expire(hard: bool)
      requires Valid()
      modifies this`softExpired, this`hardExpired, this`events
      ensures Valid() && State() == Expired(old(State()), hard)
    {
      if hard {
        if !hardExpired {
          hardExpired := true;
          events := events + [Hard];
        }
      } else {
        if !hardExpired && !softExpired {
          softExpired := true;
          events := events + [Soft];
        }
      }
    }

    method UpdateUsestats(n: U32)
      requires Valid()
      modifies this`packets, this`bytes, this`softExpired, this`hardExpired, this`events
      ensures Valid() && State() == Used(old(State()), n)
    {
      packets := ToU64(packets + 1);
      bytes := ToU64(bytes + n);
      if lifetime.packets.life != 0 && packets >= lifetime.packets.life {
        Expire(true);
        return;
      }
      if lifetime.bytes.life != 0 && bytes >= lifetime.bytes.life {
        Expire(true);
        return;
      }
      if lifetime.packets.rekey != 0 && packets >= lifetime.packets.rekey {
        Expire(false);
        return;
      }
      if lifetime.bytes.rekey != 0 && bytes >= lifetime.bytes.rekey {
        Expire(false);
        return;
      }
    }
  }

  function NewSa(spi: U32, src: Host, dst: Host, reqid: U32, lifetime: Lifetime, aead: Aead, inbound: bool): SaState {
    SaState(spi, src, dst, reqid, lifetime, aead, NewReplay(inbound), 0, 0, false, false, [])
  }

  // ---------------------------------------------------------------- runs of one SA, one operation at a time

  datatype Op = Use(bytes: U32) | Timer(hard: bool)

  function Do(sa: SaState, op: Op): SaState {
    match op
    case Use(n) => Used(sa, n)
    case Timer(hard) => Expired(sa, hard)
  }

  function Run(sa: SaState, ops: seq<Op>): SaState
    decreases ops
  {
    if ops == [] then sa else Run(Do(sa, ops[0]), ops[1..])
  }

  predicate Fresh(sa: SaState) {
    sa.packets == 0 && sa.bytes == 0 && !sa.softExpired && !sa.hardExpired && sa.events == []
  }

  /** The events sent so far are exactly what the two flags say, soft before hard. */
  ghost predicate Consistent(sa: SaState) {
    && sa.events == (if sa.softExpired then [Soft] else []) + (if sa.hardExpired then [Hard] else [])
  }

  lemma {:induction false} RunIsConsistent(sa: SaState, ops: seq<Op>)
    requires Consistent(sa)
    ensures Consistent(Run(sa, ops))
    decreases ops
  {
    if ops != [] {
      RunIsConsistent(Do(sa, ops[0]), ops[1..]);
    }
  }

  /** Over any run of operations one after the other an SA reports nothing, soft, hard, or soft and
      then hard; never soft after hard and nothing twice.  For threads see SaExpiry. */
  lemma EventsOfRun(sa: SaState, ops: seq<Op>)
    requires Fresh(sa)
    ensures Run(sa, ops).events in [[], [Soft], [Hard], [Soft, Hard]]
    ensures Hard in Run(sa, ops).events <==> Run(sa, ops).hardExpired
    ensures Soft in Run(sa, ops).events <==> Run(sa, ops).softExpired
  {
    RunIsConsistent(sa, ops);
    var r := Run(sa, ops);
    assert r.events == (if r.softExpired then (if r.hardExpired then [Soft, Hard] else [Soft])
                        else if r.hardExpired then [Hard] else []);
  }

  function CountUses(ops: seq<Op>): nat {
    if ops == [] then 0 else (if ops[0].Use? then 1 else 0) + CountUses(ops[1..])
  }

  function SumBytes(ops: seq<Op>): nat {
    if ops == [] then 0 else (if ops[0].Use? then ops[0].bytes else 0) + SumBytes(ops[1..])
  }

  /** What ends the life of an SA: a hard timer, or a usage limit that has been reached. */
  predicate LifeEnds(life: Lifetime, ops: seq<Op>, packets: nat, bytes: nat) {
    || Timer(true) in ops
    || (life.packets.life != 0 && packets >= life.packets.life && CountUses(ops) > 0)
    || (life.bytes.life != 0 && bytes >= life.bytes.life && CountUses(ops) > 0)
  }

  lemma {:induction false} NoUsesNoBytes(ops: seq<Op>)
    ensures CountUses(ops) == 0 ==> SumBytes(ops) == 0
  {
    if ops != [] { NoUsesNoBytes(ops[1..]); }
  }

  /** While the totals fit 64 bits, the counters are the sums of what was recorded, and the SA is
      hard-expired exactly when a hard timer fired or a limit was reached. */
  lemma {:induction false} RunCounts(sa: SaState, ops: seq<Op>)
    requires sa.packets + CountUses(ops) < 0x1_0000_0000_0000_0000
    requires sa.bytes + SumBytes(ops) < 0x1_0000_0000_0000_0000
    ensures Run(sa, ops).packets == sa.packets + CountUses(ops)
    ensures Run(sa, ops).bytes == sa.bytes + SumBytes(ops)
    ensures Run(sa, ops).hardExpired <==>
            sa.hardExpired || LifeEnds(sa.lifetime, ops, sa.packets + CountUses(ops), sa.bytes + SumBytes(ops))
    decreases ops
  {
    if ops != [] {
      var sa1 := Do(sa, ops[0]);
      RunCounts(sa1, ops[1..]);
      assert sa1.lifetime == sa.lifetime;
      if ops[0].Use? {
        var life := sa.lifetime;
        assert sa1.hardExpired <==>
               sa.hardExpired || Reaches(life.packets.life, sa1.packets) || Reaches(life.bytes.life, sa1.bytes);
        assert CountUses(ops[1..]) == 0 ==> SumBytes(ops[1..]) == 0 by { NoUsesNoBytes(ops[1..]); }
      }
      assert Timer(true) in ops <==> ops[0] == Timer(true) || Timer(true) in ops[1..];
    }
  }
}
