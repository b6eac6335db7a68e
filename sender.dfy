/**
 * The periodic RIPv2 advertiser (RIPv2Sender): it floods a request out of
 * every interface when it is created, and then, every ten seconds, a response
 * carrying the whole dynamic table. Each call here is one step of that
 * behaviour; the thread, the sleep and its interruption are not modelled, and
 * a transmission is returned as a value instead of being handed to the device.
 */
module Sender {
  import opened Net

  /** The message flooded once when the advertiser is created: a request with no entries. */
  function RequestMessage(): RipMessage {
    RipMessage(CommandRequest, [])
  }

  /**
   * The multicast frame that carries `msg` out of interface `i`: RIP port 520
   * at both ends of the UDP datagram, an IPv4 packet with TTL 2 from the
   * interface's address to 224.0.0.9, in an Ethernet frame from the
   * interface's MAC to the broadcast MAC. The IPv4 checksum is left 0 for the
   * packet library to fill in when it serialises the packet.
   */
  function Encapsulate(msg: RipMessage, i: Iface): Frame {
    var udp := Udp(RipPort, RipPort, RipBody(msg));
    var ip := Ipv4(i.ip, RipMulticast, ProtocolUdp, 2, 0, udp);
    Frame(i.mac, BroadcastMac, EtherTypeIPv4, ip)
  }

  /**
   * `t` is a RIPv2 advertisement of `msg` on `t.iface`: it has the fields
   * `encapsulateRIPv2Packet` sets. The UDP ports are 520, the IP destination is
   * the RIPv2 group 224.0.0.9 (section 4 of RFC 2453), the TTL is 2, the MAC
   * destination is broadcast, the source addresses are those of the interface
   * the frame leaves by, and the checksum is still 0 (a new IPv4 header's,
   * filled in when the packet is serialised).
   */
  ghost predicate Advertises(t: Transmission, msg: RipMessage) {
    && t.frame.etherType == EtherTypeIPv4
    && t.frame.srcMac == t.iface.mac
    && t.frame.dstMac == BroadcastMac
    && t.frame.ip.src == t.iface.ip
    && t.frame.ip.dst == RipMulticast
    && t.frame.ip.protocol == ProtocolUdp
    && t.frame.ip.ttl == 2
    && t.frame.ip.checksum == 0
    && t.frame.ip.payload == Udp(RipPort, RipPort, RipBody(msg))
  }

  /** The frame built for an interface is an advertisement of the message on that interface. */
  lemma EncapsulateAdvertises(msg: RipMessage, i: Iface)
    ensures Advertises(Transmission(i, Encapsulate(msg, i)), msg)
  {
  }

  /** Sends `msg` out of every interface, one frame each, in interface order. */
  method Flood(ifaces: seq<Iface>, msg: RipMessage) returns (sent: seq<Transmission>)
    ensures |sent| == |ifaces|
    ensures forall j :: 0 <= j < |sent| ==> sent[j].iface == ifaces[j] && Advertises(sent[j], msg)
  {
    sent := [];
    for j := 0 to |ifaces|
      invariant |sent| == j
      invariant forall j' :: 0 <= j' < j ==> sent[j'].iface == ifaces[j'] && Advertises(sent[j'], msg)
    {
      var frame := Encapsulate(msg, ifaces[j]);
      sent := sent + [Transmission(ifaces[j], frame)];
    }
  }

  /** Creating the advertiser floods a request with no entries out of every interface. */
  method Announce(ifaces: seq<Iface>) returns (sent: seq<Transmission>)
    ensures |sent| == |ifaces|
    ensures forall j :: 0 <= j < |sent| ==>
      sent[j].iface == ifaces[j] && Advertises(sent[j], RipMessage(CommandRequest, []))
  {
    sent := Flood(ifaces, RequestMessage());
  }

  /**
   * One period of the advertiser: a snapshot of the table, sent as a response
   * out of every interface.
   */
  method PeriodicResponse(ifaces: seq<Iface>, table: RipTable) returns (sent: seq<Transmission>)
    ensures |sent| == |ifaces|
    ensures exists entries ::
      && IsSnapshot(table.entries, entries)
      && (forall j :: 0 <= j < |sent| ==>
            sent[j].iface == ifaces[j] && Advertises(sent[j], RipMessage(CommandResponse, entries)))
  {
    var entries := Snapshot(table.entries);
    var response := RipMessage(CommandResponse, entries);
    sent := Flood(ifaces, response);
  }
}
