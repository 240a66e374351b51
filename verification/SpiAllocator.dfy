/** SPI allocation in the SA manager (get_spi, add_sa, del_sa, update_sa of ipsec_sa_mgr.c).
    SPIs are numbers in host byte order here. */
module SpiAllocator {
  import opened Bytes
  import opened Lists
  import opened IpPacket

  datatype Installed = Installed(spi: U32, src: Host, dst: Host, inbound: bool)

  /** The SPIs handed out by get_spi, and the installed SAs, newest first */
  datatype Spis = Spis(reserved: set<U32>, installed: seq<Installed>)

  // ---------------------------------------------------------------- specification

  predicate InUse(s: Spis, spi: U32) { exists sa | sa in s.installed :: sa.inbound && sa.spi == spi }

  predicate Taken(s: Spis, spi: U32) { spi in s.reserved || InUse(s, spi) }

  /** The configured range, put in order and clamped to valid SPIs (256 and up) */
  function Low(spiMin: U32, spiMax: U32): U32 { Max(Min(spiMin, spiMax), 0x100) }

  function High(spiMin: U32, spiMax: U32): U32 { Max(Max(spiMin, spiMax), 0x100) }

  /** The modulus of get_spi, in 32-bit arithmetic */
  function Modulus(spiMin: U32, spiMax: U32): (m: U32)
    ensures m > 0 && m == High(spiMin, spiMax) - Low(spiMin, spiMax) + 1
  {
    ToU32(High(spiMin, spiMax) - Low(spiMin, spiMax) + 1)
  }

  /** Where a random number lands in the range */
  function Candidate(spiMin: U32, spiMax: U32, random: U32): (spi: U32)
    ensures Low(spiMin, spiMax) <= spi <= High(spiMin, spiMax)
  {
    ToU32(Low(spiMin, spiMax) + random % Modulus(spiMin, spiMax))
  }

  /** The first candidate that is free; None when the generator fails first */
  function Pick(s: Spis, spiMin: U32, spiMax: U32, draws: seq<U32>): Option<U32> {
    if draws == [] then None
    else
      var spi := Candidate(spiMin, spiMax, draws[0]);
      if Taken(s, spi) then Pick(s, spiMin, spiMax, draws[1..]) else Some(spi)
  }

  predicate SameSa(sa: Installed, spi: U32, src: Host, dst: Host) {
    sa.spi == spi && IpEquals(sa.src, src) && IpEquals(sa.dst, dst)
  }

  function ForKey(spi: U32, src: Host, dst: Host): Installed -> bool {
    (sa: Installed) => SameSa(sa, spi, src, dst)
  }

  /** The first installed SA for a key, or the length of the list */
  function Lookup(list: seq<Installed>, spi: U32, src: Host, dst: Host): nat {
    FirstIndex(list, ForKey(spi, src, dst))
  }

  /** `created` tells whether ipsec_sa_create has made the SA, `refused` whether another thread is
      already deleting the entry, and `busy` which entries of the list other threads are deleting. */
  datatype Op =
    | GetSpi(spiMin: U32, spiMax: U32, draws: seq<U32>)
    | AddSa(sa: Installed, created: bool, update: bool)
    | DelSa(spi: U32, src: Host, dst: Host, refused: bool)
    | UpdateSa(spi: U32, src: Host, dst: Host, newSrc: Host, newDst: Host, newEncap: bool, refused: bool)
    | FlushSas(busy: set<nat>)

  /** flush_entries leaves what others are deleting. */
  function Remaining(list: seq<Installed>, busy: set<nat>): (r: seq<Installed>)
    ensures forall sa | sa in r :: sa in list
    ensures busy == {} ==> r == []
  {
    if list == [] then []
    else
      var n := |list| - 1;
      Remaining(list[..n], busy) + if n in busy then [list[n]] else []
  }

  function Do(s: Spis, op: Op): Spis {
    match op
    case GetSpi(spiMin, spiMax, draws) =>
      var spi := Pick(s, spiMin, spiMax, draws);
      if spi.Some? then s.(reserved := s.reserved + {spi.value}) else s
    case AddSa(sa, created, update) =>
      if !created then s
      else
        var s1 := if update then s.(reserved := s.reserved - {sa.spi}) else s;
        if Lookup(s.installed, sa.spi, sa.src, sa.dst) < |s.installed| then s1
        else s1.(installed := [sa] + s.installed)
    case DelSa(spi, src, dst, refused) =>
      var k := Lookup(s.installed, spi, src, dst);
      if k == |s.installed| || refused then s else s.(installed := s.installed[..k] + s.installed[k + 1..])
    case UpdateSa(spi, src, dst, newSrc, newDst, newEncap, refused) =>
      var k := Lookup(s.installed, spi, src, dst);
      if !newEncap || k == |s.installed| || refused then s
      else s.(installed := s.installed[k := s.installed[k].(src := newSrc, dst := newDst)])
    case FlushSas(busy) => s.(installed := Remaining(s.installed, busy))
  }

  // ---------------------------------------------------------------- what is promised

  ghost predicate HasKey(sa: Installed, spi: U32, src: Host, dst: Host) {
    sa.spi == spi && SameAddress(sa.src.address, src.address) && SameAddress(sa.dst.address, dst.address)
  }

  /** An SA with this key is installed. */
  ghost predicate Known(list: seq<Installed>, spi: U32, src: Host, dst: Host) {
    exists sa | sa in list :: HasKey(sa, spi, src, dst)
  }

  ghost predicate FirstWithKey(list: seq<Installed>, k: nat, spi: U32, src: Host, dst: Host) {
    k < |list| && HasKey(list[k], spi, src, dst) && forall i | 0 <= i < k :: !HasKey(list[i], spi, src, dst)
  }

  lemma LookupExactly(list: seq<Installed>, spi: U32, src: Host, dst: Host)
    ensures var k := Lookup(list, spi, src, dst);
            && (k < |list| <==> Known(list, spi, src, dst))
            && (k < |list| ==> FirstWithKey(list, k, spi, src, dst))
  {
    var k := Lookup(list, spi, src, dst);
    forall i | 0 <= i < |list| ensures ForKey(spi, src, dst)(list[i]) <==> HasKey(list[i], spi, src, dst) {
      IpEqualsExactly(list[i].src, src);
      IpEqualsExactly(list[i].dst, dst);
    }
    assert k < |list| ==> list[k] in list;
  }

  /** The SA with the key is gone, and all others stay in their order. */
  ghost predicate RemovedAt(before: seq<Installed>, after: seq<Installed>, k: nat, spi: U32, src: Host, dst: Host) {
    FirstWithKey(before, k, spi, src, dst) && after == before[..k] + before[k + 1..]
  }

  /** The SA with the key has new endpoints, and nothing else has changed. */
  ghost predicate MovedAt(before: seq<Installed>, after: seq<Installed>, k: nat, spi: U32, src: Host, dst: Host,
                          newSrc: Host, newDst: Host) {
    && FirstWithKey(before, k, spi, src, dst) && |after| == |before|
    && after[k] == Installed(before[k].spi, newSrc, newDst, before[k].inbound)
    && forall i | 0 <= i < |before| && i != k :: after[i] == before[i]
  }

  /** Those that other threads are deleting are left, in their order, and no others are. */
  ghost predicate OnlyBusyLeft(before: seq<Installed>, after: seq<Installed>, busy: set<nat>) {
    exists ks :: ArePlaces(before, after, busy, ks)
  }

  ghost predicate ArePlaces(before: seq<Installed>, after: seq<Installed>, busy: set<nat>, ks: seq<nat>) {
    && |ks| == |after|
    && (forall j | 0 <= j < |ks| :: ks[j] < |before| && ks[j] in busy && after[j] == before[ks[j]])
    && (forall i, j | 0 <= i < j < |ks| :: ks[i] < ks[j])
    && forall k | k in busy && k < |before| :: k in ks
  }

  lemma {:induction false} RemainingExactly(list: seq<Installed>, busy: set<nat>) returns (ks: seq<nat>)
    ensures ArePlaces(list, Remaining(list, busy), busy, ks)
    decreases |list|
  {
    ks := [];
    if list != [] {
      var n := |list| - 1;
      ks := RemainingExactly(list[..n], busy);
      assert list == list[..n] + [list[n]];
      PlacesGrow(list[..n], list[n], Remaining(list[..n], busy), busy, ks);
      ks := if n in busy then ks + [n] else ks;
    }
  }

  lemma PlacesGrow(before: seq<Installed>, sa: Installed, after: seq<Installed>, busy: set<nat>, ks: seq<nat>)
    requires ArePlaces(before, after, busy, ks)
    ensures if |before| in busy then ArePlaces(before + [sa], after + [sa], busy, ks + [|before|])
            else ArePlaces(before + [sa], after, busy, ks)
  {
    if |before| in busy {
      var more := ks + [|before|];
      forall k | k in busy && k < |before| + 1 ensures k in more {
        assert if k < |before| then k in ks else more[|ks|] == k;
      }
    }
  }

  /** The range in order, and without the reserved SPIs up to 255 */
  ghost predicate InSpiRange(spi: U32, spiMin: U32, spiMax: U32) {
    || (spi >= 256 && (spiMin <= spi <= spiMax || spiMax <= spi <= spiMin))
    || (spi == 256 && spiMin < 256 && spiMax < 256)
  }

  datatype Status = SUCCESS | FAILED | NOT_SUPPORTED

  // ---------------------------------------------------------------- implementation

  class Allocator {
    var reserved: set<U32>
    var installed: seq<Installed>

    ghost function State(): Spis
      reads this
    {
      Spis(reserved, installed)
    }

    constructor ()
      ensures State() == Spis({}, [])
    {
      reserved, installed := {}, [];
    }

    /** allocate_spi */
    method AllocateSpi(spi: U32) returns (ok: bool)
      modifies this`reserved
      ensures ok <==> !Taken(old(State()), spi)
      ensures reserved == if ok then old(reserved) + {spi} else old(reserved)
    {
      if spi in reserved {
        return false;
      }
      var k := 0;
      while k < |installed|
        invariant 0 <= k <= |installed|
        invariant forall i | 0 <= i < k :: !(installed[i].inbound && installed[i].spi == spi)
      {
        if installed[k].spi == spi && installed[k].inbound {
          return false;
        }
        k := k + 1;
      }
      reserved := reserved + {spi};
      return true;
    }

    /** get_spi; `draws` are the numbers that the generator yields before it fails. */
    method GetSpi(spiMin: U32, spiMax: U32, draws: seq<U32>) returns (r: Option<U32>)
      modifies this`reserved
      ensures r == Pick(old(State()), spiMin, spiMax, draws)
      ensures State() == Do(old(State()), Op.GetSpi(spiMin, spiMax, draws))
      ensures r.Some? ==> InSpiRange(r.value, spiMin, spiMax) && r.value !in old(reserved)
                          && forall sa | sa in installed :: !(sa.inbound && sa.spi == r.value)
      ensures reserved == old(reserved) + if r.Some? then {r.value} else {}
    {
      var lo, hi := spiMin, spiMax;
      if lo > hi {
        lo, hi := hi, lo;
      }
      lo := Max(lo, 0x100);
      hi := Max(hi, 0x100);
      var n := 0;
      while n < |draws|
        invariant 0 <= n <= |draws| && State() == old(State())
        invariant Pick(State(), spiMin, spiMax, draws) == Pick(State(), spiMin, spiMax, draws[n..])
      {
        var spi := ToU32(lo + draws[n] % ToU32(hi - lo + 1));
        assert spi == Candidate(spiMin, spiMax, draws[n]);
        var ok := AllocateSpi(spi);
        if ok {
          return Some(spi);
        }
        n := n + 1;
      }
      return None;
    }

    method Find(spi: U32, src: Host, dst: Host) returns (k: nat)
      ensures k == Lookup(installed, spi, src, dst)
    {
      k := 0;
      while k < |installed|
        invariant 0 <= k <= |installed|
        invariant forall i | 0 <= i < k :: !ForKey(spi, src, dst)(installed[i])
      {
        if SameSa(installed[k], spi, src, dst) {
          break;
        }
        k := k + 1;
      }
      FirstIndexUnique(installed, ForKey(spi, src, dst), k);
    }

    /** add_sa; the reserved SPI is released even if the SA turns out to be installed already, but
        not if it could not be created. */
    method AddSa(sa: Installed, created: bool, update: bool) returns (status: Status)
      modifies this
      ensures State() == Do(old(State()), Op.AddSa(sa, created, update))
      ensures installed == (if status == SUCCESS then [sa] else []) + old(installed)
      ensures reserved == if created && update then old(reserved) - {sa.spi} else old(reserved)
      ensures status == if created && !Known(old(installed), sa.spi, sa.src, sa.dst) then SUCCESS else FAILED
    {
      if !created {
        return FAILED;
      }
      if update {
        reserved := reserved - {sa.spi};
      }
      var k := Find(sa.spi, sa.src, sa.dst);
      LookupExactly(installed, sa.spi, sa.src, sa.dst);
      if k < |installed| {
        return FAILED;
      }
      installed := [sa] + installed;
      return SUCCESS;
    }

    method DelSa(spi: U32, src: Host, dst: Host, refused: bool) returns (status: Status)
      modifies this`installed
      ensures State() == Do(old(State()), Op.DelSa(spi, src, dst, refused))
      ensures if status == SUCCESS then exists k: nat :: RemovedAt(old(installed), installed, k, spi, src, dst)
              else installed == old(installed)
      ensures status == if Known(old(installed), spi, src, dst) && !refused then SUCCESS else FAILED
    {
      var k := Find(spi, src, dst);
      LookupExactly(installed, spi, src, dst);
      if k == |installed| || refused {
        return FAILED;
      }
      assert RemovedAt(installed, installed[..k] + installed[k + 1..], k, spi, src, dst);
      installed := installed[..k] + installed[k + 1..];
      return SUCCESS;
    }

    /** update_sa reports success even if the entry is being deleted and stays as it is. */
    method UpdateSa(spi: U32, src: Host, dst: Host, newSrc: Host, newDst: Host, newEncap: bool, refused: bool)
      returns (status: Status)
      modifies this`installed
      ensures State() == Do(old(State()), Op.UpdateSa(spi, src, dst, newSrc, newDst, newEncap, refused))
      ensures if status == SUCCESS && !refused
              then exists k: nat :: MovedAt(old(installed), installed, k, spi, src, dst, newSrc, newDst)
              else installed == old(installed)
      ensures status == if !newEncap then NOT_SUPPORTED
                        else if Known(old(installed), spi, src, dst) then SUCCESS else FAILED
    {
      if !newEncap {
        return NOT_SUPPORTED;
      }
      var k := Find(spi, src, dst);
      LookupExactly(installed, spi, src, dst);
      if k == |installed| {
        return FAILED;
      }
      if !refused {
        assert MovedAt(installed, installed[k := installed[k].(src := newSrc, dst := newDst)], k, spi, src, dst,
                       newSrc, newDst);
        installed := installed[k := installed[k].(src := newSrc, dst := newDst)];
      }
      return SUCCESS;
    }

    method FlushSas(busy: set<nat>)
      modifies this`installed
      ensures State() == Do(old(State()), Op.FlushSas(busy))
      ensures OnlyBusyLeft(old(installed), installed, busy)
    {
      var left := [];
      for i := 0 to |installed|
        invariant left == Remaining(installed[..i], busy)
      {
        assert installed[..i + 1][..i] == installed[..i];
        if i in busy {
          left := left + [installed[i]];
        }
      }
      assert installed[..|installed|] == installed;
      ghost var ks := RemainingExactly(installed, busy);
      installed := left;
    }
  }

  // ---------------------------------------------------------------- over all runs

  /** No SPI is both handed out and in use by an inbound SA. */
  ghost predicate Disjoint(s: Spis) { forall spi | spi in s.reserved :: !InUse(s, spi) }

  /** The SPI is that of the first draw that is free, and all are taken if there is none. */
  lemma {:induction false} PickIsFirst(s: Spis, spiMin: U32, spiMax: U32, draws: seq<U32>) returns (n: nat)
    ensures var r := Pick(s, spiMin, spiMax, draws);
            && n <= |draws| && (r.Some? <==> n < |draws|)
            && (r.Some? ==> r.value == Candidate(spiMin, spiMax, draws[n]) && !Taken(s, r.value))
            && forall i | 0 <= i < n :: Taken(s, Candidate(spiMin, spiMax, draws[i]))
  {
    n := 0;
    if draws != [] && Taken(s, Candidate(spiMin, spiMax, draws[0])) {
      var m := PickIsFirst(s, spiMin, spiMax, draws[1..]);
      n := m + 1;
      assert forall i | 1 <= i < n :: draws[i] == draws[1..][i - 1];
    }
  }

  /** What get_spi hands out is valid and new, for every setting and every random numbers. */
  lemma {:induction false} PickIsFree(s: Spis, spiMin: U32, spiMax: U32, draws: seq<U32>)
    requires Pick(s, spiMin, spiMax, draws).Some?
    ensures var spi := Pick(s, spiMin, spiMax, draws).value;
            Low(spiMin, spiMax) <= spi <= High(spiMin, spiMax) && spi >= 0x100 && !Taken(s, spi)
  {
    if Taken(s, Candidate(spiMin, spiMax, draws[0])) {
      PickIsFree(s, spiMin, spiMax, draws[1..]);
    }
  }

  lemma RangeExactly(spiMin: U32, spiMax: U32, spi: U32)
    ensures InSpiRange(spi, spiMin, spiMax) <==> Low(spiMin, spiMax) <= spi <= High(spiMin, spiMax)
  {
  }

  /** Every SPI of the range can be handed out, and by the number of SPIs below it first. */
  lemma EverySpi(spiMin: U32, spiMax: U32, spi: U32)
    requires InSpiRange(spi, spiMin, spiMax)
    ensures spi >= Low(spiMin, spiMax) && Candidate(spiMin, spiMax, spi - Low(spiMin, spiMax)) == spi
  {
    RangeExactly(spiMin, spiMax, spi);
    var random := spi - Low(spiMin, spiMax);
    DivModUnique(random, Modulus(spiMin, spiMax), 0, random);
  }

  lemma RemovalKeepsOthersUnused(s: Spis, s': Spis, spi: U32)
    requires !InUse(s, spi)
    requires forall sa | sa in s'.installed ::
               exists old_ | old_ in s.installed :: old_.spi == sa.spi && old_.inbound == sa.inbound
    ensures !InUse(s', spi)
  {
  }

  /** An operation keeps the two kinds of SPIs apart if and only if it does not install an inbound
      SA under an SPI that stays reserved: add_sa must be called with `update` for SPIs that come
      from get_spi. */
  lemma StepKeepsDisjointExactly(s: Spis, op: Op)
    requires Disjoint(s)
    ensures Disjoint(Do(s, op)) <==>
            !(op.AddSa? && op.created && op.sa.inbound && !op.update && op.sa.spi in s.reserved
              && Lookup(s.installed, op.sa.spi, op.sa.src, op.sa.dst) == |s.installed|)
  {
    var s' := Do(s, op);
    match op
    case GetSpi(spiMin, spiMax, draws) =>
      if Pick(s, spiMin, spiMax, draws).Some? { PickIsFree(s, spiMin, spiMax, draws); }
    case AddSa(sa, created, update) =>
      AddedDisjoint(s, sa, update);
    case DelSa(_, _, _, _) =>
      forall spi | spi in s.reserved ensures !InUse(s', spi) { RemovalKeepsOthersUnused(s, s', spi); }
    case UpdateSa(spi0, src, dst, _, _, _, _) =>
      var k := Lookup(s.installed, spi0, src, dst);
      forall sa | sa in s'.installed
        ensures exists old_ | old_ in s.installed :: old_.spi == sa.spi && old_.inbound == sa.inbound
      {
        var i :| 0 <= i < |s'.installed| && s'.installed[i] == sa;
        assert s.installed[i] in s.installed;
      }
      forall spi | spi in s.reserved ensures !InUse(s', spi) { RemovalKeepsOthersUnused(s, s', spi); }
    case FlushSas(busy) =>
      forall spi | spi in s.reserved ensures !InUse(s', spi) { RemovalKeepsOthersUnused(s, s', spi); }
  }

  /** Installing an inbound SA under a reserved SPI without saying that it is an update */
  lemma ReservedIsInstalled(host: Host)
    ensures var s, op := Spis({256}, []), AddSa(Installed(256, host, host, true), true, false);
            Disjoint(s) && !Disjoint(Do(s, op))
  {
    var s, op := Spis({256}, []), AddSa(Installed(256, host, host, true), true, false);
    assert op.sa in Do(s, op).installed;
    assert InUse(Do(s, op), 256);
  }

  lemma AddedDisjoint(s: Spis, sa: Installed, update: bool)
    requires Disjoint(s)
    ensures Disjoint(Do(s, AddSa(sa, true, update))) <==>
            !(sa.inbound && !update && sa.spi in s.reserved
              && Lookup(s.installed, sa.spi, sa.src, sa.dst) == |s.installed|)
  {
    var s' := Do(s, AddSa(sa, true, update));
    if s'.installed == [sa] + s.installed {
      forall spi ensures InUse(s', spi) <==> InUse(s, spi) || (sa.inbound && sa.spi == spi) {
        if sa.inbound && sa.spi == spi { assert sa in s'.installed; }
        if InUse(s, spi) {
          var x :| x in s.installed && x.inbound && x.spi == spi;
          assert x in s'.installed;
        }
      }
    }
  }

  function Run(s: Spis, ops: seq<Op>): Spis
    decreases ops
  {
    if ops == [] then s else Run(Do(s, ops[0]), ops[1..])
  }

  /** If inbound SAs are installed with `update` only, reserved and installed inbound SPIs stay
      disjoint over every run. */
  lemma {:induction false} RunKeepsDisjoint(s: Spis, ops: seq<Op>)
    requires Disjoint(s)
    requires forall i | 0 <= i < |ops| && ops[i].AddSa? && ops[i].sa.inbound :: ops[i].update
    ensures Disjoint(Run(s, ops))
    decreases ops
  {
    if ops != [] {
      StepKeepsDisjointExactly(s, ops[0]);
      RunKeepsDisjoint(Do(s, ops[0]), ops[1..]);
    }
  }
}
