/**
 * The router (Router): seeding the dynamic RIP table with the attached
 * subnets, classifying inbound frames, answering RIP requests, merging RIP
 * responses into the table (distance-vector relaxation), and the forwarding
 * decision for ordinary IPv4 traffic.
 */
module Routing {
  import opened Net
  import Sender

  // ---------------------------------------------------------------------------
  // Seeding the table with the attached subnets
  // ---------------------------------------------------------------------------

  /** The network address of an interface's subnet: its address under its mask. */
  function Subnet(i: Iface): Addr {
    BitAnd(i.ip, i.mask)
  }

  /** The direct route for an attached subnet: metric 1, no next hop, out of that interface. */
  function DirectEntry(i: Iface, now: int): RipEntry {
    RipEntry(Subnet(i), i.mask, 1, 0, Some(i), true, now)
  }

  /** The table after putting the direct route of each interface in turn into an empty table. */
  function Seeded(ifaces: seq<Iface>, now: int): map<Addr, RipEntry>
    decreases |ifaces|
  {
    if ifaces == [] then map[]
    else
      var last := ifaces[|ifaces| - 1];
      Seeded(ifaces[..|ifaces| - 1], now)[Subnet(last) := DirectEntry(last, now)]
  }

  /** After seeding, each interface's subnet is a key. */
  lemma {:induction false} SeededHasEverySubnet(ifaces: seq<Iface>, now: int)
    ensures forall j :: 0 <= j < |ifaces| ==> Subnet(ifaces[j]) in Seeded(ifaces, now)
    decreases |ifaces|
  {
    if ifaces != [] {
      var init := ifaces[..|ifaces| - 1];
      SeededHasEverySubnet(init, now);
      forall j | 0 <= j < |ifaces| - 1
        ensures Subnet(ifaces[j]) in Seeded(ifaces, now)
      {
        assert ifaces[j] == init[j];
      }
    }
  }

  /** After seeding, each key is some interface's subnet. */
  lemma {:induction false} SeededOnlySubnets(ifaces: seq<Iface>, now: int)
    ensures forall k :: k in Seeded(ifaces, now) ==> exists j :: 0 <= j < |ifaces| && Subnet(ifaces[j]) == k
    decreases |ifaces|
  {
    if ifaces != [] {
      var init := ifaces[..|ifaces| - 1];
      var last := ifaces[|ifaces| - 1];
      SeededOnlySubnets(init, now);
      forall k | k in Seeded(ifaces, now)
        ensures exists j :: 0 <= j < |ifaces| && Subnet(ifaces[j]) == k
      {
        if k == Subnet(last) {
          assert Subnet(ifaces[|ifaces| - 1]) == k;
        } else {
          assert k in Seeded(init, now);
          var j :| 0 <= j < |init| && Subnet(init[j]) == k;
          assert ifaces[j] == init[j];
        }
      }
    }
  }

  /**
   * After seeding, the subnet of interface `j` holds the direct route of the
   * last interface with that subnet: a later interface overwrites an earlier one.
   */
  lemma {:induction false} SeededLastWins(ifaces: seq<Iface>, now: int, j: nat)
    requires j < |ifaces|
    requires forall j' :: j < j' < |ifaces| ==> Subnet(ifaces[j']) != Subnet(ifaces[j])
    ensures Subnet(ifaces[j]) in Seeded(ifaces, now)
    ensures Seeded(ifaces, now)[Subnet(ifaces[j])] == DirectEntry(ifaces[j], now)
    decreases |ifaces|
  {
    var init := ifaces[..|ifaces| - 1];
    if j < |ifaces| - 1 {
      SeededLastWins(init, now, j);
    }
  }

  /**
   * Every seeded entry is a direct route stored under its own address: metric
   * 1, next hop 0, marked as a host route, out of an interface whose subnet is the key.
   */
  lemma {:induction false} SeededDirect(ifaces: seq<Iface>, now: int)
    ensures AddressKeyed(Seeded(ifaces, now))
    ensures forall k :: k in Seeded(ifaces, now) ==>
      var e := Seeded(ifaces, now)[k];
      && e.metric == 1 && e.nextHop == 0 && e.isHost && e.lastUpdated == now
      && e.outIface.Some? && Subnet(e.outIface.value) == k && e.subnetMask == e.outIface.value.mask
    decreases |ifaces|
  {
    if ifaces != [] {
      SeededDirect(ifaces[..|ifaces| - 1], now);
    }
  }

  // ---------------------------------------------------------------------------
  // Subnet lookup
  // ---------------------------------------------------------------------------

  /** What `lookupSubnet` returns when no entry matches: the Java `int` -1. */
  const NoSubnet: Addr := 0xFFFF_FFFF

  /** Key `k` is in the table and its entry's mask maps `ip` onto `k`. */
  predicate Matches(t: map<Addr, RipEntry>, k: Addr, ip: Addr) {
    k in t && BitAnd(t[k].subnetMask, ip) == k
  }

  /**
   * `r` is a possible answer of the lookup: some matching key whenever one
   * exists (which one depends on the map's iteration order), -1 otherwise.
   */
  ghost predicate IsLookupResult(t: map<Addr, RipEntry>, ip: Addr, r: Addr) {
    if exists k :: Matches(t, k, ip) then Matches(t, r, ip) else r == NoSubnet
  }

  /**
   * Scans the table for an entry whose mask maps `ip` onto its key and returns
   * `ip` under that mask, or -1 when there is none.
   */
  method LookupSubnet(t: map<Addr, RipEntry>, ip: Addr) returns (r: Addr)
    ensures IsLookupResult(t, ip, r)
    ensures (exists k :: Matches(t, k, ip)) <==> Matches(t, r, ip)
  {
    var todo := t.Keys;
    while todo != {}
      invariant todo <= t.Keys
      invariant forall k :: k in t && k !in todo ==> !Matches(t, k, ip)
      decreases |todo|
    {
      var k := Choose(todo);
      if BitAnd(t[k].subnetMask, ip) == k {
        r := BitAnd(ip, t[k].subnetMask);
        assert Matches(t, k, ip) && r == k;
        return;
      }
      todo := todo - {k};
    }
    r := NoSubnet;
  }

  // ---------------------------------------------------------------------------
  // Distance-vector merge of a RIP response
  // ---------------------------------------------------------------------------

  /** The cost of a route learned from an advertised entry: its metric plus the cost to the sender, as a Java `int`. */
  function Candidate(t: map<Addr, RipEntry>, adv: RipEntry, sourceSubnet: Addr): Int32
    requires sourceSubnet in t
  {
    AddInt32(adv.metric, t[sourceSubnet].metric)
  }

  /** The entry stored for a route learned from `sourceIP` on `sourceIface`. */
  function Learned(adv: RipEntry, cost: Int32, sourceIP: Addr, sourceIface: Iface, now: int): RipEntry {
    RipEntry(adv.address, adv.subnetMask, cost, sourceIP, Some(sourceIface), false, now)
  }

  /**
   * The table after one advertised entry of a response: the learned route is
   * put when the destination is new or the candidate is strictly cheaper;
   * nothing changes otherwise, and nothing changes when the sender's subnet is
   * not in the table (the lookup of its cost throws and the entry is skipped).
   */
  function MergeEntry(t: map<Addr, RipEntry>, adv: RipEntry, sourceSubnet: Addr, sourceIP: Addr,
                      sourceIface: Iface, now: int): (r: map<Addr, RipEntry>)
    ensures sourceSubnet !in t ==> r == t
    ensures forall k :: k != adv.address ==> (k in r <==> k in t) && (k in t ==> r[k] == t[k])
    ensures sourceSubnet in t ==> adv.address in r
    ensures adv.address in t ==> adv.address in r && r[adv.address].metric <= t[adv.address].metric
    ensures sourceSubnet in t && (adv.address !in t || Candidate(t, adv, sourceSubnet) < t[adv.address].metric)
      ==> r[adv.address] == Learned(adv, Candidate(t, adv, sourceSubnet), sourceIP, sourceIface, now)
    ensures adv.address in t && (sourceSubnet !in t || Candidate(t, adv, sourceSubnet) >= t[adv.address].metric)
      ==> r == t
  {
    if sourceSubnet !in t then t
    else
      var cost := Candidate(t, adv, sourceSubnet);
      if adv.address in t && cost >= t[adv.address].metric then t
      else t[adv.address := Learned(adv, cost, sourceIP, sourceIface, now)]
  }

  /** The table after merging every advertised entry of a response, in order. */
  function MergeAll(t: map<Addr, RipEntry>, advs: seq<RipEntry>, sourceSubnet: Addr, sourceIP: Addr,
                    sourceIface: Iface, now: int): map<Addr, RipEntry>
    decreases |advs|
  {
    if advs == [] then t
    else
      var prior := MergeAll(t, advs[..|advs| - 1], sourceSubnet, sourceIP, sourceIface, now);
      MergeEntry(prior, advs[|advs| - 1], sourceSubnet, sourceIP, sourceIface, now)
  }

  /** A response from a sender whose subnet is not in the table changes nothing. */
  lemma {:induction false} MergeWithoutSourceUnchanged(t: map<Addr, RipEntry>, advs: seq<RipEntry>,
      sourceSubnet: Addr, sourceIP: Addr, sourceIface: Iface, now: int)
    requires sourceSubnet !in t
    ensures MergeAll(t, advs, sourceSubnet, sourceIP, sourceIface, now) == t
    decreases |advs|
  {
    if advs != [] {
      MergeWithoutSourceUnchanged(t, advs[..|advs| - 1], sourceSubnet, sourceIP, sourceIface, now);
    }
  }

  /** A merge never removes a destination and never raises a stored metric. */
  lemma {:induction false} MergeMonotone(t: map<Addr, RipEntry>, advs: seq<RipEntry>,
      sourceSubnet: Addr, sourceIP: Addr, sourceIface: Iface, now: int)
    ensures forall k :: k in t ==>
      var r := MergeAll(t, advs, sourceSubnet, sourceIP, sourceIface, now);
      k in r && r[k].metric <= t[k].metric
    decreases |advs|
  {
    if advs != [] {
      MergeMonotone(t, advs[..|advs| - 1], sourceSubnet, sourceIP, sourceIface, now);
    }
  }

  /** `k` is not the address of any advertised entry. */
  predicate NotAdvertised(advs: seq<RipEntry>, k: Addr) {
    forall j :: 0 <= j < |advs| ==> advs[j].address != k
  }

  /** Destinations that the response does not advertise are left exactly as they were. */
  lemma {:induction false} MergeFrame(t: map<Addr, RipEntry>, advs: seq<RipEntry>,
      sourceSubnet: Addr, sourceIP: Addr, sourceIface: Iface, now: int, k: Addr)
    requires NotAdvertised(advs, k)
    ensures var r := MergeAll(t, advs, sourceSubnet, sourceIP, sourceIface, now);
      (k in r <==> k in t) && (k in t ==> r[k] == t[k])
    decreases |advs|
  {
    if advs != [] {
      MergeFrame(t, advs[..|advs| - 1], sourceSubnet, sourceIP, sourceIface, now, k);
    }
  }

  /** The addresses advertised by a response. */
  function Advertised(advs: seq<RipEntry>): set<Addr> {
    set j | 0 <= j < |advs| :: advs[j].address
  }

  /**
   * When the sender's subnet is known, every advertised destination ends up in
   * the table, and the table gains no other key.
   */
  lemma {:induction false} MergeKeys(t: map<Addr, RipEntry>, advs: seq<RipEntry>,
      sourceSubnet: Addr, sourceIP: Addr, sourceIface: Iface, now: int)
    requires sourceSubnet in t
    ensures MergeAll(t, advs, sourceSubnet, sourceIP, sourceIface, now).Keys == t.Keys + Advertised(advs)
    decreases |advs|
  {
    if advs != [] {
      var init := advs[..|advs| - 1];
      MergeKeys(t, init, sourceSubnet, sourceIP, sourceIface, now);
      MergeMonotone(t, init, sourceSubnet, sourceIP, sourceIface, now);
      assert Advertised(advs) == Advertised(init) + {advs[|advs| - 1].address} by {
        forall a | a in Advertised(advs) ensures a in Advertised(init) + {advs[|advs| - 1].address} {
          var j :| 0 <= j < |advs| && a == advs[j].address;
          if j < |advs| - 1 { assert a == init[j].address; }
        }
        forall a | a in Advertised(init) ensures a in Advertised(advs) {
          var j :| 0 <= j < |init| && a == init[j].address;
          assert a == advs[j].address;
        }
      }
    }
  }

  /**
   * Every entry a merge changes or adds is a learned route through the sender:
   * not a host route, next hop the sender's address, out of the receiving
   * interface, created now, stored under its own address.
   */
  lemma {:induction false} MergeLearnsFromSender(t: map<Addr, RipEntry>, advs: seq<RipEntry>,
      sourceSubnet: Addr, sourceIP: Addr, sourceIface: Iface, now: int)
    ensures forall k :: k in MergeAll(t, advs, sourceSubnet, sourceIP, sourceIface, now) ==>
      var e := MergeAll(t, advs, sourceSubnet, sourceIP, sourceIface, now)[k];
      (k in t && e == t[k]) ||
      (e.address == k && !e.isHost && e.nextHop == sourceIP && e.outIface == Some(sourceIface) && e.lastUpdated == now)
    decreases |advs|
  {
    if advs != [] {
      MergeLearnsFromSender(t, advs[..|advs| - 1], sourceSubnet, sourceIP, sourceIface, now);
    }
  }

  /** Merging keeps every entry stored under its own address. */
  lemma {:induction false} MergeKeepsAddressKeyed(t: map<Addr, RipEntry>, advs: seq<RipEntry>,
      sourceSubnet: Addr, sourceIP: Addr, sourceIface: Iface, now: int)
    requires AddressKeyed(t)
    ensures AddressKeyed(MergeAll(t, advs, sourceSubnet, sourceIP, sourceIface, now))
  {
    MergeLearnsFromSender(t, advs, sourceSubnet, sourceIP, sourceIface, now);
  }

  /** All stored metrics are at least 1. */
  ghost predicate PositiveMetrics(t: map<Addr, RipEntry>) {
    forall k :: k in t ==> t[k].metric >= 1
  }

  /**
   * With non-negative advertised metrics that cannot overflow when added to the
   * sender's cost, a merge keeps all metrics positive, keeps the sender's
   * subnet, and never raises its cost.
   */
  lemma {:induction false} MergeKeepsPositive(t: map<Addr, RipEntry>, advs: seq<RipEntry>,
      sourceSubnet: Addr, sourceIP: Addr, sourceIface: Iface, now: int)
    requires PositiveMetrics(t) && sourceSubnet in t
    requires forall j :: 0 <= j < |advs| ==> 0 <= advs[j].metric && advs[j].metric + t[sourceSubnet].metric <= MaxInt32
    ensures var r := MergeAll(t, advs, sourceSubnet, sourceIP, sourceIface, now);
      PositiveMetrics(r) && sourceSubnet in r && r[sourceSubnet].metric <= t[sourceSubnet].metric
    decreases |advs|
  {
    if advs != [] {
      var init := advs[..|advs| - 1];
      MergeKeepsPositive(t, init, sourceSubnet, sourceIP, sourceIface, now);
    }
  }

  /**
   * A route of metric 1, such as a direct route, survives a response unchanged
   * as long as the advertised metrics are non-negative and do not overflow.
   */
  lemma {:induction false} MergeKeepsMetricOneRoute(t: map<Addr, RipEntry>, advs: seq<RipEntry>,
      sourceSubnet: Addr, sourceIP: Addr, sourceIface: Iface, now: int, k: Addr)
    requires PositiveMetrics(t) && sourceSubnet in t
    requires forall j :: 0 <= j < |advs| ==> 0 <= advs[j].metric && advs[j].metric + t[sourceSubnet].metric <= MaxInt32
    requires k in t && t[k].metric == 1
    ensures var r := MergeAll(t, advs, sourceSubnet, sourceIP, sourceIface, now);
      k in r && r[k] == t[k]
    decreases |advs|
  {
    if advs != [] {
      var init := advs[..|advs| - 1];
      MergeKeepsMetricOneRoute(t, init, sourceSubnet, sourceIP, sourceIface, now, k);
      MergeKeepsPositive(t, init, sourceSubnet, sourceIP, sourceIface, now);
    }
  }

  /**
   * Right after seeding, a response from a sender on an attached subnet
   * displaces no direct route, as long as the advertised metrics are
   * non-negative and below the largest Java `int`.
   */
  lemma SeededRoutesSurviveResponse(ifaces: seq<Iface>, seededAt: int, advs: seq<RipEntry>,
      sourceSubnet: Addr, sourceIP: Addr, sourceIface: Iface, now: int, k: Addr)
    requires sourceSubnet in Seeded(ifaces, seededAt) && k in Seeded(ifaces, seededAt)
    requires forall j :: 0 <= j < |advs| ==> 0 <= advs[j].metric < MaxInt32
    ensures var r := MergeAll(Seeded(ifaces, seededAt), advs, sourceSubnet, sourceIP, sourceIface, now);
      k in r && r[k] == Seeded(ifaces, seededAt)[k]
  {
    SeededDirect(ifaces, seededAt);
    MergeKeepsMetricOneRoute(Seeded(ifaces, seededAt), advs, sourceSubnet, sourceIP, sourceIface, now, k);
  }

  // ---------------------------------------------------------------------------
  // Frames: RIP classification and the unicast reply
  // ---------------------------------------------------------------------------

  /**
   * `isRIPv2Packet`: the RIP message of a UDP datagram sent to 224.0.0.9 on
   * port 520, or nothing. The frame must carry IPv4.
   */
  function RipPayload(f: Frame): (r: Option<RipMessage>)
    ensures r.Some? ==>
      && f.ip.protocol == ProtocolUdp && f.ip.dst == RipMulticast
      && f.ip.payload.Udp? && f.ip.payload.dstPort == RipPort
    ensures
      && f.ip.protocol == ProtocolUdp && f.ip.dst == RipMulticast
      && f.ip.payload.Udp? && f.ip.payload.dstPort == RipPort && f.ip.payload.body.RipBody?
      ==> r == Some(f.ip.payload.body.msg)
  {
    if f.ip.protocol == ProtocolUdp && f.ip.dst == RipMulticast then
      if f.ip.payload.Udp? && f.ip.payload.dstPort == RipPort && f.ip.payload.body.RipBody? then
        Some(f.ip.payload.body.msg)
      else None
    else None
  }

  /**
   * `encapsulateRIPv2Packet` of the router: `msg` in UDP port 520 to 520, in
   * IPv4 with TTL 2 between the given addresses, in Ethernet between the given MACs.
   */
  function EncapsulateUnicast(msg: RipMessage, srcMac: Mac, dstMac: Mac, srcIP: Addr, dstIP: Addr): Frame {
    var udp := Udp(RipPort, RipPort, RipBody(msg));
    var ip := Ipv4(srcIP, dstIP, ProtocolUdp, 2, 0, udp);
    Frame(srcMac, dstMac, EtherTypeIPv4, ip)
  }

  /**
   * The advertiser's flooded frame is the router's encapsulation addressed to
   * the broadcast MAC and 224.0.0.9, and it is always classified as RIP,
   * carrying back the message it was built from.
   */
  lemma FloodedFrameIsRip(msg: RipMessage, i: Iface)
    ensures Sender.Encapsulate(msg, i) == EncapsulateUnicast(msg, i.mac, BroadcastMac, i.ip, RipMulticast)
    ensures RipPayload(Sender.Encapsulate(msg, i)) == Some(msg)
  {
  }

  /**
   * Every frame the advertiser sends is classified as RIP by a receiving
   * router, carrying the message that was flooded.
   */
  lemma {:induction false} AdvertisementsAreRip(sent: seq<Transmission>, msg: RipMessage)
    requires forall j :: 0 <= j < |sent| ==> Sender.Advertises(sent[j], msg)
    ensures forall j :: 0 <= j < |sent| ==>
      sent[j].frame.etherType == EtherTypeIPv4 && RipPayload(sent[j].frame) == Some(msg)
  {
    forall j | 0 <= j < |sent|
      ensures RipPayload(sent[j].frame) == Some(msg)
    {
      assert Sender.Advertises(sent[j], msg);
    }
  }

  /**
   * The unicast reply to a request is classified as RIP by its receiver only
   * if the requester's address is 224.0.0.9: normally it is not.
   */
  lemma UnicastReplyIsRipOnlyToMulticast(msg: RipMessage, srcMac: Mac, dstMac: Mac, srcIP: Addr, dstIP: Addr)
    ensures RipPayload(EncapsulateUnicast(msg, srcMac, dstMac, srcIP, dstIP)).Some? <==> dstIP == RipMulticast
  {
  }

  /** The reply to a request received on `inIface`: back to the requester's IP and MAC. */
  function ReplyFrame(f: Frame, inIface: Iface, entries: seq<RipEntry>): Frame {
    EncapsulateUnicast(RipMessage(CommandResponse, entries), inIface.mac, f.srcMac, inIface.ip, f.ip.src)
  }

  // ---------------------------------------------------------------------------
  // The forwarding decision for ordinary IPv4 traffic
  // ---------------------------------------------------------------------------

  /** What happens to a packet handed to the forwarding path. */
  datatype Outcome =
    | Drop
    | Send(iface: Iface, srcMac: Mac, dstMac: Mac, ttl: bv8)

  /** `a` is the address of one of the router's interfaces. */
  predicate IsLocal(ifaces: seq<Iface>, a: Addr) {
    exists j :: 0 <= j < |ifaces| && ifaces[j].ip == a
  }

  /**
   * The checks of `handleIpPacket` before the route lookup: the frame carries
   * IPv4, its checksum is the one recomputed over the header, the TTL
   * decremented as a Java `byte` is not 0, and the packet is not for the
   * router itself. The result is the decremented TTL, or nothing for a drop.
   */
  function Admit(f: Frame, recomputed: bv16, ifaces: seq<Iface>): (r: Option<bv8>)
    ensures r.Some? <==>
      && f.etherType == EtherTypeIPv4 && f.ip.checksum == recomputed
      && f.ip.ttl != 1 && !IsLocal(ifaces, f.ip.dst)
    ensures r.Some? ==> r.value as int == (f.ip.ttl as int - 1) % 256
  {
    if f.etherType != EtherTypeIPv4 || f.ip.checksum != recomputed then None
    else
      var ttl := f.ip.ttl - 1;
      if ttl == 0 || IsLocal(ifaces, f.ip.dst) then None
      else Some(ttl)
  }

  /** A packet arriving with TTL 0 wraps to 255 and is not dropped for its TTL. */
  lemma ZeroTtlWraps(f: Frame, recomputed: bv16, ifaces: seq<Iface>)
    requires f.etherType == EtherTypeIPv4 && f.ip.checksum == recomputed && !IsLocal(ifaces, f.ip.dst)
    requires f.ip.ttl == 0
    ensures Admit(f, recomputed, ifaces) == Some(255)
  {
  }

  /** The address to resolve: the route's next hop, or the destination itself for a direct route. */
  function NextHop(e: RipEntry, dst: Addr): Addr {
    if e.nextHop == 0 then dst else e.nextHop
  }

  /**
   * `forwardIpPacket` once the lookup has answered `subnet`: drop when the table
   * has no entry under it, the entry has no interface, or the next hop is not
   * in the ARP cache; otherwise send out the entry's interface from its MAC to
   * the next hop's MAC.
   */
  function ForwardDecision(t: map<Addr, RipEntry>, arp: map<Addr, Mac>, dst: Addr, ttl: bv8, subnet: Addr): (r: Outcome)
    ensures r.Send? <==> subnet in t && t[subnet].outIface.Some? && NextHop(t[subnet], dst) in arp
    ensures r.Send? ==>
      && r.iface == t[subnet].outIface.value && r.srcMac == r.iface.mac
      && r.dstMac == arp[NextHop(t[subnet], dst)] && r.ttl == ttl
  {
    if subnet !in t then Drop
    else
      var best := t[subnet];
      if best.outIface.None? then Drop
      else
        var nextHop := NextHop(best, dst);
        if nextHop !in arp then Drop
        else Send(best.outIface.value, best.outIface.value.mac, arp[nextHop], ttl)
  }

  /**
   * A sent packet follows a route whose mask maps the destination onto its key,
   * unless no route matches and the table holds a route for 255.255.255.255:
   * the -1 that the lookup returns for "none" is that key.
   */
  lemma ForwardFollowsMatchingRoute(t: map<Addr, RipEntry>, arp: map<Addr, Mac>, dst: Addr, ttl: bv8, subnet: Addr)
    requires IsLookupResult(t, dst, subnet)
    requires ForwardDecision(t, arp, dst, ttl, subnet).Send?
    ensures Matches(t, subnet, dst) || (subnet == NoSubnet && NoSubnet in t && forall k :: !Matches(t, k, dst))
  {
  }

  /**
   * The sentinel collision: with no matching route, a packet is still sent
   * along a stored route for 255.255.255.255 when that route has an interface
   * and its next hop resolves.
   */
  lemma SentinelRouteCatchesUnmatched(t: map<Addr, RipEntry>, arp: map<Addr, Mac>, dst: Addr, ttl: bv8, subnet: Addr)
    requires forall k :: !Matches(t, k, dst)
    requires IsLookupResult(t, dst, subnet)
    requires NoSubnet in t && t[NoSubnet].outIface.Some? && NextHop(t[NoSubnet], dst) in arp
    ensures ForwardDecision(t, arp, dst, ttl, subnet) ==
      Send(t[NoSubnet].outIface.value, t[NoSubnet].outIface.value.mac, arp[NextHop(t[NoSubnet], dst)], ttl)
  {
  }

  /** The forwarded frame: new MACs and TTL; the checksum is recomputed when the frame is serialised. */
  function Rewrite(f: Frame, out: Outcome): Frame
    requires out.Send?
  {
    f.(srcMac := out.srcMac, dstMac := out.dstMac, ip := f.ip.(ttl := out.ttl, checksum := 0))
  }

  // ---------------------------------------------------------------------------
  // The router
  // ---------------------------------------------------------------------------

  class Router {
    /** The dynamic RIP table, shared with the expiry loop. */
    var ripTable: RipTable
    /** The router's interfaces, in the device's iteration order. */
    const interfaces: seq<Iface>
    /** The ARP cache: IP address to MAC address. */
    const arpCache: map<Addr, Mac>

    constructor (interfaces: seq<Iface>, arpCache: map<Addr, Mac>)
      ensures this.interfaces == interfaces && this.arpCache == arpCache
      ensures fresh(ripTable) && ripTable.entries == map[]
    {
      this.interfaces := interfaces;
      this.arpCache := arpCache;
      ripTable := new RipTable();
    }

    /**
     * `start`: a new table holding the direct route of every interface, then
     * the advertiser's initial request flooded out of every interface.
     */
    method Start(now: int) returns (sent: seq<Transmission>)
      modifies this
      ensures fresh(ripTable)
      ensures ripTable.entries == Seeded(interfaces, now)
      ensures |sent| == |interfaces|
      ensures forall j :: 0 <= j < |sent| ==>
        sent[j].iface == interfaces[j] && Sender.Advertises(sent[j], Sender.RequestMessage())
    {
      ripTable := new RipTable();
      for j := 0 to |interfaces|
        invariant fresh(ripTable)
        invariant ripTable.entries == Seeded(interfaces[..j], now)
      {
        var i := interfaces[j];
        var subnet := BitAnd(i.ip, i.mask);
        ripTable.entries := ripTable.entries[subnet := RipEntry(subnet, i.mask, 1, 0, Some(i), true, now)];
        assert interfaces[..j + 1][..j] == interfaces[..j];
      }
      assert interfaces[..|interfaces|] == interfaces;
      sent := Sender.Announce(interfaces);
    }

    /**
     * `handleResponse`: each advertised entry in turn is merged into the table
     * at the sender's cost, the cost of the table's route to `sourceSubnet`.
     */
    method HandleResponse(response: RipMessage, sourceSubnet: Addr, sourceIP: Addr, sourceIface: Iface, now: int)
      modifies ripTable
      ensures ripTable.entries == MergeAll(old(ripTable.entries), response.entries, sourceSubnet, sourceIP, sourceIface, now)
    {
      var advs := response.entries;
      for j := 0 to |advs|
        invariant ripTable.entries == MergeAll(old(ripTable.entries), advs[..j], sourceSubnet, sourceIP, sourceIface, now)
      {
        var entry := advs[j];
        var dest := entry.address;
        var cost := entry.metric;
        if dest in ripTable.entries {
          if sourceSubnet in ripTable.entries {
            cost := AddInt32(cost, ripTable.entries[sourceSubnet].metric);
            if cost < ripTable.entries[dest].metric {
              ripTable.entries := ripTable.entries[dest := RipEntry(dest, entry.subnetMask, cost, sourceIP, Some(sourceIface), false, now)];
            }
          }
          // otherwise the sender's cost is looked up in vain: the exception is caught and the entry skipped
        } else if sourceSubnet in ripTable.entries {
          ripTable.entries := ripTable.entries[dest := RipEntry(dest, entry.subnetMask, AddInt32(cost, ripTable.entries[sourceSubnet].metric), sourceIP, Some(sourceIface), false, now)];
        }
        assert advs[..j + 1][..j] == advs[..j];
      }
      assert advs[..|advs|] == advs;
    }

    /**
     * `forwardIpPacket`: look the destination up, then send along the route
     * found if it has an interface and its next hop resolves.
     */
    method ForwardIpPacket(f: Frame, ttl: bv8) returns (out: Outcome)
      ensures f.etherType != EtherTypeIPv4 ==> out == Drop
      ensures f.etherType == EtherTypeIPv4 ==> exists subnet ::
        IsLookupResult(ripTable.entries, f.ip.dst, subnet) && out == ForwardDecision(ripTable.entries, arpCache, f.ip.dst, ttl, subnet)
    {
      if f.etherType != EtherTypeIPv4 {
        return Drop;
      }
      var destAddr := f.ip.dst;
      var subnet := LookupSubnet(ripTable.entries, destAddr);
      if subnet !in ripTable.entries {
        return Drop;
      }
      var bestMatch := ripTable.entries[subnet];
      if bestMatch.outIface.None? {
        return Drop;
      }
      var outIface := bestMatch.outIface.value;
      var nextHopAddr := bestMatch.nextHop;
      nextHopAddr := if nextHopAddr == 0 then destAddr else nextHopAddr;
      if nextHopAddr !in arpCache {
        return Drop;
      }
      out := Send(outIface, outIface.mac, arpCache[nextHopAddr], ttl);
    }

    /**
     * `handleIpPacket`: the checks of `Admit` (checksum, TTL, local
     * destination), then the forwarding decision. `recomputed` is the checksum
     * the packet library computes over the header with its checksum zeroed.
     */
    method HandleIpPacket(f: Frame, recomputed: bv16) returns (out: Outcome)
      ensures Admit(f, recomputed, interfaces).None? ==> out == Drop
      ensures Admit(f, recomputed, interfaces).Some? ==> exists subnet ::
        && IsLookupResult(ripTable.entries, f.ip.dst, subnet)
        && out == ForwardDecision(ripTable.entries, arpCache, f.ip.dst, Admit(f, recomputed, interfaces).value, subnet)
    {
      if f.etherType != EtherTypeIPv4 {
        return Drop;
      }
      if f.ip.checksum != recomputed {
        return Drop;
      }
      var ttl := f.ip.ttl - 1;
      if ttl == 0 {
        return Drop;
      }
      for j := 0 to |interfaces|
        invariant forall j' :: 0 <= j' < j ==> interfaces[j'].ip != f.ip.dst
      {
        if f.ip.dst == interfaces[j].ip {
          return Drop;
        }
      }
      out := ForwardIpPacket(f, ttl);
    }

    /**
     * `handlePacket`: IPv4 frames only. A RIP request is answered with the
     * whole table, unicast out of the receiving interface; any other RIP
     * message is merged as a response from the sender's subnet on that
     * interface; everything else takes the forwarding path.
     */
    method HandlePacket(f: Frame, inIface: Iface, recomputed: bv16, now: int) returns (sent: seq<Transmission>)
      modifies ripTable
      ensures f.etherType != EtherTypeIPv4 ==> sent == [] && ripTable.entries == old(ripTable.entries)
      ensures f.etherType == EtherTypeIPv4 && RipPayload(f).Some? && RipPayload(f).value.command == CommandRequest ==>
        && ripTable.entries == old(ripTable.entries)
        && exists entries :: IsSnapshot(ripTable.entries, entries) && sent == [Transmission(inIface, ReplyFrame(f, inIface, entries))]
      ensures f.etherType == EtherTypeIPv4 && RipPayload(f).Some? && RipPayload(f).value.command != CommandRequest ==>
        && sent == []
        && ripTable.entries == MergeAll(old(ripTable.entries), RipPayload(f).value.entries,
                                        BitAnd(f.ip.src, inIface.mask), f.ip.src, inIface, now)
      ensures f.etherType == EtherTypeIPv4 && RipPayload(f).None? ==>
        && ripTable.entries == old(ripTable.entries)
        && exists out: Outcome ::
          && (Admit(f, recomputed, interfaces).None? ==> out == Drop)
          && (Admit(f, recomputed, interfaces).Some? ==> exists subnet ::
                && IsLookupResult(ripTable.entries, f.ip.dst, subnet)
                && out == ForwardDecision(ripTable.entries, arpCache, f.ip.dst, Admit(f, recomputed, interfaces).value, subnet))
          && sent == (if out.Send? then [Transmission(out.iface, Rewrite(f, out))] else [])
    {
      sent := [];
      if f.etherType == EtherTypeIPv4 {
        var ripPacket := RipPayload(f);
        if ripPacket.Some? {
          if ripPacket.value.command == CommandRequest {
            var entries := Snapshot(ripTable.entries);
            var ripFrame := EncapsulateUnicast(RipMessage(CommandResponse, entries), inIface.mac, f.srcMac, inIface.ip, f.ip.src);
            sent := [Transmission(inIface, ripFrame)];
          } else {
            var sourceSubnet := BitAnd(f.ip.src, inIface.mask);
            HandleResponse(ripPacket.value, sourceSubnet, f.ip.src, inIface, now);
          }
        } else {
          var out := HandleIpPacket(f, recomputed);
          if out.Send? {
            sent := [Transmission(out.iface, Rewrite(f, out))];
          }
        }
      }
    }
  }
}
