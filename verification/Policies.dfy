/** The policy database (ipsec_policy.c, ipsec_policy_mgr.c). */
module Policies {
  import opened Bytes
  import opened Lists
  import opened IpPacket

  // ---------------------------------------------------------------- traffic selectors

  type Mask = m: int | 0 <= m <= 128

  /** traffic_selector_t: an address range, a protocol and a port range.  `netbits` is the mask
      that to_subnet reports. */
  datatype Selector = Selector(from: seq<Byte>, to: seq<Byte>, protocol: Byte, fromPort: U16, toPort: U16,
                               netbits: Mask)

  /** memcmp(a, b) <= 0 on addresses of one family */
  predicate AddressLe(a: seq<Byte>, b: seq<Byte>) {
    if a == [] || b == [] then a == []
    else a[0] < b[0] || (a[0] == b[0] && AddressLe(a[1..], b[1..]))
  }

  predicate Includes(ts: Selector, h: Host) {
    |ts.from| == |ts.to| == |h.address| && AddressLe(ts.from, h.address) && AddressLe(h.address, ts.to)
  }

  /** traffic_selector_cmp compares everything but the mask. */
  predicate SameSelector(a: Selector, b: Selector) { a.(netbits := 0) == b.(netbits := 0) }

  /** The port of the subnet that to_subnet reports. */
  function NetPort(ts: Selector): U16 { if ts.toPort == ts.fromPort then ts.toPort else 0 }

  // ---------------------------------------------------------------- policies

  datatype Direction = POLICY_IN | POLICY_OUT | POLICY_FWD
  datatype PolicyType = POLICY_IPSEC | POLICY_PASS | POLICY_DROP
  datatype Class = PRIORITY_PASS | PRIORITY_DEFAULT | PRIORITY_ROUTED | PRIORITY_FALLBACK
  datatype Mark = Mark(value: U32, mask: U32)

  datatype Policy = Policy(
    src: Host, dst: Host, srcTs: Selector, dstTs: Selector, direction: Direction, kind: PolicyType,
    reqid: U32, mark: Mark, priority: Class)

  predicate Match(p: Policy, srcTs: Selector, dstTs: Selector, direction: Direction, reqid: U32, mark: Mark,
                  priority: Class) {
    && p.direction == direction && p.priority == priority && p.reqid == reqid && p.mark == mark
    && SameSelector(p.srcTs, srcTs) && SameSelector(p.dstTs, dstTs)
  }

  predicate MatchPort(ts: Selector, h: Host) {
    || (ts.fromPort == 0 && ts.toPort == 0xffff)
    || (ts.fromPort == 0xffff && ts.toPort == 0)
    || ts.fromPort <= h.port <= ts.toPort
  }

  predicate MatchPacket(p: Policy, packet: Packet) {
    var protocol := Max(p.srcTs.protocol, p.dstTs.protocol);
    && (protocol == 0 || protocol == packet.nextHeader)
    && Includes(p.srcTs, packet.src) && MatchPort(p.srcTs, packet.src)
    && Includes(p.dstTs, packet.dst) && MatchPort(p.dstTs, packet.dst)
  }

  // ---------------------------------------------------------------- what a match means

  /** memcmp orders addresses of one family as numbers. */
  lemma {:induction false} AddressOrder(a: seq<Byte>, b: seq<Byte>)
    requires |a| == |b|
    ensures AddressLe(a, b) <==> Number(a) <= Number(b)
    decreases |a|
  {
    if a != [] {
      AddressOrder(a[1..], b[1..]);
      FirstByteCounts(a);
      FirstByteCounts(b);
      NumberIsSmall(a[1..]);
      NumberIsSmall(b[1..]);
      FirstByteDecides(a[0], b[0], Power(|a| - 1), Number(a[1..]), Number(b[1..]));
    }
  }

  /** 256 to the n */
  ghost function Power(n: nat): (p: nat)
    ensures p > 0
  {
    if n == 0 then 1 else 0x100 * Power(n - 1)
  }

  lemma {:induction false} NumberIsSmall(s: seq<Byte>)
    ensures Number(s) < Power(|s|)
    decreases |s|
  {
    if s != [] {
      NumberIsSmall(s[..|s| - 1]);
    }
  }

  lemma {:induction false} FirstByteCounts(s: seq<Byte>)
    requires s != []
    ensures Number(s) == s[0] as int * Power(|s| - 1) + Number(s[1..])
    decreases |s|
  {
    var n := |s| - 1;
    if n > 0 {
      FirstByteCounts(s[..n]);
      assert s[..n][1..] == s[1..][..n - 1] && s[1..][n - 1] == s[n];
      assert Power(n) == 0x100 * Power(n - 1);
    } else {
      assert s[..0] == [] && s[1..] == [];
    }
  }

  lemma FirstByteDecides(a: Byte, b: Byte, p: nat, x: nat, y: nat)
    requires x < p && y < p
    ensures a as int * p + x <= b as int * p + y <==> a < b || (a == b && x <= y)
  {
    if a < b {
      assert (a as int + 1) * p <= b as int * p;
    } else if b < a {
      assert (b as int + 1) * p <= a as int * p;
    }
  }

  /** An address lies in a range of its family. */
  ghost predicate InRange(address: seq<Byte>, from: seq<Byte>, to: seq<Byte>) {
    |from| == |to| == |address| && Number(from) <= Number(address) <= Number(to)
  }

  /** A port lies in a range; all ports and opaque ports are ranges for any. */
  ghost predicate PortInRange(port: U16, from: U16, to: U16) {
    (from, to) in {(0, 0xffff), (0xffff, 0)} || from <= port <= to
  }

  /** What it means that a policy applies to a packet */
  ghost predicate Applies(p: Policy, packet: Packet, inbound: bool, reqid: U32) {
    var protocol := if p.srcTs.protocol > p.dstTs.protocol then p.srcTs.protocol else p.dstTs.protocol;
    && (p.direction == POLICY_IN <==> inbound)
    && reqid in {0, p.reqid}
    && protocol in {0, packet.nextHeader}
    && InRange(packet.src.address, p.srcTs.from, p.srcTs.to)
    && InRange(packet.dst.address, p.dstTs.from, p.dstTs.to)
    && PortInRange(packet.src.port, p.srcTs.fromPort, p.srcTs.toPort)
    && PortInRange(packet.dst.port, p.dstTs.fromPort, p.dstTs.toPort)
  }

  lemma EligibleExactly(e: Entry, packet: Packet, inbound: bool, reqid: U32)
    ensures Eligible(e, packet, inbound, reqid) <==> Applies(e.policy, packet, inbound, reqid)
  {
    RangeExactly(e.policy.srcTs, packet.src);
    RangeExactly(e.policy.dstTs, packet.dst);
  }

  lemma RangeExactly(ts: Selector, h: Host)
    ensures Includes(ts, h) <==> InRange(h.address, ts.from, ts.to)
  {
    if |ts.from| == |ts.to| == |h.address| {
      AddressOrder(ts.from, h.address);
      AddressOrder(h.address, ts.to);
    }
  }

  /** The entry at index `k` is the first of the list that applies. */
  ghost predicate FirstToApply(list: seq<Entry>, k: nat, packet: Packet, inbound: bool, reqid: U32) {
    && k < |list| && Applies(list[k].policy, packet, inbound, reqid)
    && forall i | 0 <= i < k :: !Applies(list[i].policy, packet, inbound, reqid)
  }

  ghost predicate IsFirstToApply(list: seq<Entry>, found: Option<Entry>, packet: Packet, inbound: bool, reqid: U32) {
    && (found.Some? <==> exists e | e in list :: Applies(e.policy, packet, inbound, reqid))
    && (found.Some? ==> exists k: nat :: FirstToApply(list, k, packet, inbound, reqid) && list[k] == found.value)
  }

  /** find_by_packet finds the first entry that applies, and nothing only if none does. */
  lemma FindExactly(list: seq<Entry>, packet: Packet, inbound: bool, reqid: U32)
    ensures IsFirstToApply(list, Find(list, packet, inbound, reqid), packet, inbound, reqid)
  {
    var k := FirstIndex(list, IsEligible(packet, inbound, reqid));
    forall i | 0 <= i < |list|
      ensures IsEligible(packet, inbound, reqid)(list[i]) <==> Applies(list[i].policy, packet, inbound, reqid)
    {
      EligibleExactly(list[i], packet, inbound, reqid);
    }
    assert k < |list| ==> FirstToApply(list, k, packet, inbound, reqid) && list[k] in list;
  }

  // ---------------------------------------------------------------- priorities

  const PRIO_BASE: U32 := 384

  /** calculate_priority, in 32-bit arithmetic: small values are preferred. */
  function CalculatePriority(class_: Class, src: Selector, dst: Selector): U32 {
    var p0 := match class_
      case PRIORITY_FALLBACK => ToU32(ToU32(ToU32(PRIO_BASE * 2) * 2) * 2)
      case PRIORITY_ROUTED => ToU32(ToU32(PRIO_BASE * 2) * 2)
      case PRIORITY_DEFAULT => ToU32(PRIO_BASE * 2)
      case PRIORITY_PASS => PRIO_BASE;
    var p1 := ToU32(p0 - src.netbits);
    var p2 := ToU32(p1 - dst.netbits);
    var proto := Max(src.protocol, dst.protocol);
    var port := Max(NetPort(src), NetPort(dst));
    var p3 := ToU32(p2 * 4);
    var p4 := ToU32(p3 + if port != 0 then 0 else 2);
    ToU32(p4 + if proto != 0 then 0 else 1)
  }

  /** How specific a policy is: its class, the prefix bits it leaves open, whether neither side has a
      single port, whether it leaves the protocol open. */
  datatype Rank = Rank(class_: nat, open: nat, anyPort: bool, anyProtocol: bool)

  function RankOf(class_: Class, src: Selector, dst: Selector): Rank {
    Rank(match class_
         case PRIORITY_PASS => 0
         case PRIORITY_DEFAULT => 1
         case PRIORITY_ROUTED => 2
         case PRIORITY_FALLBACK => 3,
         256 - src.netbits - dst.netbits,
         (src.fromPort != src.toPort || src.fromPort == 0) && (dst.fromPort != dst.toPort || dst.fromPort == 0),
         src.protocol == 0 && dst.protocol == 0)
  }

  predicate RankLess(a: Rank, b: Rank) {
    || a.class_ < b.class_
    || (a.class_ == b.class_ && a.open < b.open)
    || (a.class_ == b.class_ && a.open == b.open && !a.anyPort && b.anyPort)
    || (a.class_ == b.class_ && a.open == b.open && a.anyPort == b.anyPort && !a.anyProtocol && b.anyProtocol)
  }

  /** The priority without machine arithmetic: nothing underflows or overflows. */
  function PlainPriority(r: Rank): nat {
    4 * (if r.class_ == 0 then 128 else if r.class_ == 1 then 512 else if r.class_ == 2 then 1280 else 2816)
    + 4 * r.open + (if r.anyPort then 2 else 0) + (if r.anyProtocol then 1 else 0)
  }

  lemma PriorityIsPlain(class_: Class, src: Selector, dst: Selector)
    ensures CalculatePriority(class_, src, dst) == PlainPriority(RankOf(class_, src, dst))
  {
  }

  /** Priorities order policies lexicographically: by class, then total mask length, then port,
      then protocol. */
  lemma PriorityOrder(c: Class, src: Selector, dst: Selector, c': Class, src': Selector, dst': Selector)
    ensures CalculatePriority(c, src, dst) < CalculatePriority(c', src', dst')
            <==> RankLess(RankOf(c, src, dst), RankOf(c', src', dst'))
    ensures CalculatePriority(c, src, dst) == CalculatePriority(c', src', dst')
            <==> RankOf(c, src, dst) == RankOf(c', src', dst')
  {
    PriorityIsPlain(c, src, dst);
    PriorityIsPlain(c', src', dst');
    PlainOrder(RankOf(c, src, dst), RankOf(c', src', dst'));
  }

  lemma PlainOrder(a: Rank, b: Rank)
    requires a.class_ <= 3 && b.class_ <= 3 && a.open <= 256 && b.open <= 256
    ensures PlainPriority(a) < PlainPriority(b) <==> RankLess(a, b)
    ensures PlainPriority(a) == PlainPriority(b) <==> a == b
  {
  }

  // ---------------------------------------------------------------- the sorted list

  /** A list entry.  `serial` numbers the entries in the order in which they were added; it
      stands for the identity of the policy object. */
  datatype Entry = Entry(priority: U32, policy: Policy, serial: nat)

  predicate Before(a: Entry, b: Entry) {
    a.priority < b.priority || (a.priority == b.priority && a.serial > b.serial)
  }

  ghost predicate Sorted(list: seq<Entry>) {
    forall i, j | 0 <= i < j < |list| :: Before(list[i], list[j])
  }

  function NotBefore(e: Entry): Entry -> bool { (x: Entry) => x.priority >= e.priority }

  function Inserted(list: seq<Entry>, e: Entry): seq<Entry> {
    var k := FirstIndex(list, NotBefore(e));
    list[..k] + [e] + list[k..]
  }

  function IsTarget(p: Policy): Entry -> bool {
    (x: Entry) => x.priority == CalculatePriority(p.priority, p.srcTs, p.dstTs)
         && Match(x.policy, p.srcTs, p.dstTs, p.direction, p.reqid, p.mark, p.priority)
  }

  function Deleted(list: seq<Entry>, p: Policy): seq<Entry> {
    var k := FirstIndex(list, IsTarget(p));
    if k < |list| then list[..k] + list[k + 1..] else list
  }

  predicate Eligible(e: Entry, packet: Packet, inbound: bool, reqid: U32) {
    && inbound == e.policy.direction.POLICY_IN?
    && MatchPacket(e.policy, packet)
    && (reqid == 0 || reqid == e.policy.reqid)
  }

  function IsEligible(packet: Packet, inbound: bool, reqid: U32): Entry -> bool {
    (x: Entry) => Eligible(x, packet, inbound, reqid)
  }

  function Find(list: seq<Entry>, packet: Packet, inbound: bool, reqid: U32): Option<Entry> {
    var k := FirstIndex(list, IsEligible(packet, inbound, reqid));
    if k < |list| then Some(list[k]) else None
  }

  // ---------------------------------------------------------------- laws of the list

  lemma InsertedIsSorted(list: seq<Entry>, e: Entry)
    requires Sorted(list) && forall i | 0 <= i < |list| :: list[i].serial < e.serial
    ensures Sorted(Inserted(list, e))
  {
    var k := FirstIndex(list, NotBefore(e));
    assert forall i | 0 <= i < k :: !NotBefore(e)(list[i]);
    assert forall i | k <= i < |list| :: list[k] == list[i] || Before(list[k], list[i]);
  }

  lemma DeletedIsSorted(list: seq<Entry>, p: Policy)
    requires Sorted(list)
    ensures Sorted(Deleted(list, p))
  {
  }

  /** The first match is the best match: of all eligible entries it has the smallest priority,
      and among equals it is the newest. */
  lemma FindIsBest(list: seq<Entry>, packet: Packet, inbound: bool, reqid: U32)
    requires Sorted(list)
    ensures var r := Find(list, packet, inbound, reqid);
            && (r.None? <==> forall e | e in list :: !Applies(e.policy, packet, inbound, reqid))
            && (r.Some? ==> r.value in list && Applies(r.value.policy, packet, inbound, reqid)
                            && forall e | e in list && Applies(e.policy, packet, inbound, reqid) ::
                              e == r.value || Before(r.value, e))
  {
    FindExactly(list, packet, inbound, reqid);
    var r := Find(list, packet, inbound, reqid);
    if r.Some? {
      var k: nat :| FirstToApply(list, k, packet, inbound, reqid) && list[k] == r.value;
      forall e | e in list && Applies(e.policy, packet, inbound, reqid) ensures e == r.value || Before(r.value, e) {
        var i :| 0 <= i < |list| && list[i] == e;
        assert i >= k;
      }
    }
  }

  /** Deleting a policy that has just been added restores the list. */
  lemma DeleteUndoesAdd(list: seq<Entry>, e: Entry)
    requires e.priority == CalculatePriority(e.policy.priority, e.policy.srcTs, e.policy.dstTs)
    ensures Deleted(Inserted(list, e), e.policy) == list
  {
    var k := FirstIndex(list, NotBefore(e));
    var added := Inserted(list, e);
    assert added[k] == e && IsTarget(e.policy)(e);
    forall i | 0 <= i < k ensures !IsTarget(e.policy)(added[i]) {
      assert !NotBefore(e)(list[i]) && added[i] == list[i];
    }
    FirstIndexUnique(added, IsTarget(e.policy), k);
    assert added[..k] + added[k + 1..] == list;
  }

  // ---------------------------------------------------------------- the manager

  /** Entries as add_policy makes them, with serial numbers below `next` */
  ghost predicate Proper(list: seq<Entry>, next: nat) {
    forall i | 0 <= i < |list| ::
      && list[i].serial < next
      && list[i].policy.kind.POLICY_IPSEC? && !list[i].policy.direction.POLICY_FWD?
      && list[i].priority == PriorityOf(list[i].policy)
  }

  lemma InsertedIsProper(list: seq<Entry>, e: Entry, next: nat)
    requires Proper(list, next) && Proper([e], next + 1)
    ensures Proper(Inserted(list, e), next + 1)
  {
  }

  lemma RemovedIsProper(list: seq<Entry>, k: nat, next: nat)
    requires Proper(list, next) && k < |list|
    ensures Proper(list[..k] + list[k + 1..], next)
  {
  }

  /** An entry with this priority and policy has been put at index `k`, behind all smaller priorities
      and before all others. */
  ghost predicate PutAt(before: seq<Entry>, after: seq<Entry>, k: nat, priority: U32, p: Policy) {
    && k < |after| == |before| + 1
    && after[k].policy == p && after[k].priority == priority
    && after[..k] == before[..k] && after[k + 1..] == before[k..]
    && (forall i | 0 <= i < k :: before[i].priority < priority)
    && forall i | k <= i < |before| :: before[i].priority >= priority
  }

  ghost predicate SameRange(a: Selector, b: Selector) {
    && a.from == b.from && a.to == b.to && a.protocol == b.protocol
    && a.fromPort == b.fromPort && a.toPort == b.toPort
  }

  lemma InsertedIsPut(list: seq<Entry>, e: Entry)
    requires Sorted(list)
    ensures PutAt(list, Inserted(list, e), FirstIndex(list, NotBefore(e)), e.priority, e.policy)
  {
    var k := FirstIndex(list, NotBefore(e));
    PutSlices(list, k, e);
    assert forall i | 0 <= i < k :: !NotBefore(e)(list[i]);
    forall i | k <= i < |list| ensures list[i].priority >= e.priority {
      assert NotBefore(e)(list[k]) && (i == k || Before(list[k], list[i]));
    }
  }

  lemma PutSlices(list: seq<Entry>, k: nat, e: Entry)
    requires k <= |list|
    ensures var r := list[..k] + [e] + list[k..];
            |r| == |list| + 1 && r[k] == e && r[..k] == list[..k] && r[k + 1..] == list[k..]
  {
  }

  /** The same direction, class, reqid, mark and selectors, of which the sum of the masks counts */
  ghost predicate SamePolicy(a: Policy, b: Policy) {
    && a.direction == b.direction && a.priority == b.priority && a.reqid == b.reqid && a.mark == b.mark
    && SameRange(a.srcTs, b.srcTs) && SameRange(a.dstTs, b.dstTs)
    && a.srcTs.netbits + a.dstTs.netbits == b.srcTs.netbits + b.dstTs.netbits
  }

  lemma TargetExactly(e: Entry, p: Policy)
    requires e.priority == PriorityOf(e.policy)
    ensures IsTarget(p)(e) <==> SamePolicy(e.policy, p)
  {
    PriorityOrder(e.policy.priority, e.policy.srcTs, e.policy.dstTs, p.priority, p.srcTs, p.dstTs);
    SelectorExactly(e.policy.srcTs, p.srcTs);
    SelectorExactly(e.policy.dstTs, p.dstTs);
  }

  lemma TargetsExactly(list: seq<Entry>, next: nat, p: Policy)
    requires Proper(list, next)
    ensures forall i | 0 <= i < |list| :: IsTarget(p)(list[i]) <==> SamePolicy(list[i].policy, p)
  {
    forall i | 0 <= i < |list| ensures IsTarget(p)(list[i]) <==> SamePolicy(list[i].policy, p) {
      TargetExactly(list[i], p);
    }
  }

  lemma SelectorExactly(a: Selector, b: Selector)
    ensures SameSelector(a, b) <==> SameRange(a, b)
  {
  }

  /** The first entry of such a policy, at index `k`, has been taken out. */
  ghost predicate TakenAt(before: seq<Entry>, after: seq<Entry>, k: nat, p: Policy) {
    && k < |before| && SamePolicy(before[k].policy, p) && after == before[..k] + before[k + 1..]
    && forall i | 0 <= i < k :: !SamePolicy(before[i].policy, p)
  }

  class Manager {
    var policies: seq<Entry>
    var nextSerial: nat

    ghost predicate Valid()
      reads this
    {
      Sorted(policies) && Proper(policies, nextSerial)
    }

    constructor ()
      ensures Valid() && policies == []
    {
      policies, nextSerial := [], 0;
    }

    /** add_policy ignores policies that are not for IPsec or are for forwarding. */
    method AddPolicy(p: Policy)
      requires Valid()
      modifies this
      ensures Valid()
      ensures if p.kind != POLICY_IPSEC || p.direction == POLICY_FWD then policies == old(policies)
              else exists k: nat :: PutAt(old(policies), policies, k, PriorityOf(p), p)
    {
      if !p.kind.POLICY_IPSEC? || p.direction.POLICY_FWD? {
        return;
      }
      var entry := Entry(CalculatePriority(p.priority, p.srcTs, p.dstTs), p, nextSerial);
      var k := FindPosition(entry);
      InsertedIsSorted(policies, entry);
      InsertedIsPut(policies, entry);
      InsertedIsProper(policies, entry, nextSerial);
      policies, nextSerial := policies[..k] + [entry] + policies[k..], nextSerial + 1;
      assert PutAt(old(policies), policies, k, PriorityOf(p), p);
    }

    /** The loop of add_policy */
    method FindPosition(entry: Entry) returns (k: nat)
      ensures k == FirstIndex(policies, NotBefore(entry))
    {
      k := 0;
      while k < |policies|
        invariant 0 <= k <= |policies|
        invariant forall i | 0 <= i < k :: !NotBefore(entry)(policies[i])
      {
        if policies[k].priority >= entry.priority {
          break;
        }
        k := k + 1;
      }
      FirstIndexUnique(policies, NotBefore(entry), k);
    }

    method DelPolicy(p: Policy) returns (found: bool)
      requires Valid()
      modifies this
      ensures Valid()
      ensures if p.kind != POLICY_IPSEC || p.direction == POLICY_FWD then found && policies == old(policies)
              else if found then exists k: nat :: TakenAt(old(policies), policies, k, p)
              else policies == old(policies) && forall e | e in policies :: !SamePolicy(e.policy, p)
    {
      if !p.kind.POLICY_IPSEC? || p.direction.POLICY_FWD? {
        return true;
      }
      var k := FindPolicy(p);
      if k == |policies| {
        return false;
      }
      DeletedIsSorted(policies, p);
      RemovedIsProper(policies, k, nextSerial);
      assert TakenAt(policies, policies[..k] + policies[k + 1..], k, p);
      policies := policies[..k] + policies[k + 1..];
      return true;
    }

    /** The loop of del_policy */
    method FindPolicy(p: Policy) returns (k: nat)
      requires Valid()
      ensures k == FirstIndex(policies, IsTarget(p))
      ensures k < |policies| ==> SamePolicy(policies[k].policy, p)
      ensures forall i | 0 <= i < k :: !SamePolicy(policies[i].policy, p)
    {
      var priority := CalculatePriority(p.priority, p.srcTs, p.dstTs);
      k := 0;
      while k < |policies|
        invariant 0 <= k <= |policies|
        invariant forall i | 0 <= i < k :: !IsTarget(p)(policies[i])
      {
        if policies[k].priority == priority
           && Match(policies[k].policy, p.srcTs, p.dstTs, p.direction, p.reqid, p.mark, p.priority) {
          break;
        }
        k := k + 1;
      }
      FirstIndexUnique(policies, IsTarget(p), k);
      TargetsExactly(policies, nextSerial, p);
    }

    method FlushPolicies()
      requires Valid()
      modifies this
      ensures Valid() && policies == []
    {
      while policies != []
        invariant Valid()
        decreases |policies|
      {
        policies := policies[..|policies| - 1];
      }
    }

    method FindByPacket(packet: Packet, inbound: bool, reqid: U32) returns (found: Option<Entry>)
      requires Valid()
      ensures found == Find(policies, packet, inbound, reqid)
      ensures IsFirstToApply(policies, found, packet, inbound, reqid)
    {
      found := SearchPacket(packet, inbound, reqid);
      FindExactly(policies, packet, inbound, reqid);
    }

    /** The loop of find_by_packet */
    method SearchPacket(packet: Packet, inbound: bool, reqid: U32) returns (found: Option<Entry>)
      ensures found == Find(policies, packet, inbound, reqid)
    {
      var k := 0;
      while k < |policies|
        invariant 0 <= k <= |policies|
        invariant forall i | 0 <= i < k :: !IsEligible(packet, inbound, reqid)(policies[i])
      {
        if inbound == policies[k].policy.direction.POLICY_IN? && MatchPacket(policies[k].policy, packet) {
          if reqid == 0 || reqid == policies[k].policy.reqid {
            FirstIndexUnique(policies, IsEligible(packet, inbound, reqid), k);
            return Some(policies[k]);
          }
        }
        k := k + 1;
      }
      FirstIndexUnique(policies, IsEligible(packet, inbound, reqid), k);
      return None;
    }
  }

  predicate Ignored(p: Policy) { !p.kind.POLICY_IPSEC? || p.direction.POLICY_FWD? }

  function PriorityOf(p: Policy): U32 { CalculatePriority(p.priority, p.srcTs, p.dstTs) }
}
