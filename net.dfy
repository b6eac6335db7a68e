/**
 * The value types the router works on: interfaces, RIPv2 routing entries and
 * messages, and the Ethernet/IPv4/UDP headers of a frame. In the router these
 * come from a packet library; here they are plain records holding the fields
 * the router reads or writes. A Java `int` address is its unsigned 32-bit
 * pattern (so `-1` is 255.255.255.255), MAC addresses are `bv48`, a Java `byte`
 * TTL is `bv8`.
 */
module Net {

  datatype Option<+T> = None | Some(value: T)

  /** An IPv4 address or mask: the 32 bits of a Java `int`, read unsigned. */
  newtype Addr = x: int | 0 <= x < 0x1_0000_0000

  /** Java's `&` on two `int` addresses. */
  function BitAnd(a: Addr, b: Addr): Addr {
    ((a as bv32) & (b as bv32)) as Addr
  }

  type Mac = bv48

  /** Java `int`: the range of a signed 32-bit integer. */
  const MinInt32: int := -0x8000_0000
  const MaxInt32: int := 0x7FFF_FFFF
  type Int32 = x: int | MinInt32 <= x <= MaxInt32

  /** Java `int` addition: the mathematical sum taken modulo 2^32 into the signed range. */
  function AddInt32(a: Int32, b: Int32): (r: Int32)
    ensures MinInt32 <= a + b <= MaxInt32 ==> r == a + b
    ensures (r - (a + b)) % 0x1_0000_0000 == 0
  {
    var s := (a + b) % 0x1_0000_0000;
    if s <= MaxInt32 then s else s - 0x1_0000_0000
  }

  /** Constants of the packet library and of RIPv2 (section 4 of RFC 2453). */
  const EtherTypeIPv4: bv16 := 0x0800
  const ProtocolUdp: bv8 := 0x11
  const RipPort: bv16 := 520
  const RipMulticast: Addr := 0xE000_0009  // 224.0.0.9
  const BroadcastMac: Mac := 0xFFFF_FFFF_FFFF
  const CommandRequest: bv8 := 1
  const CommandResponse: bv8 := 2

  /** A router interface: name, IP address, subnet mask and MAC address. */
  datatype Iface = Iface(name: string, ip: Addr, mask: Addr, mac: Mac)

  /**
   * One RIPv2 entry, as stored in the dynamic route table and as carried in a
   * RIP message: destination address, subnet mask, metric, next hop (0 means
   * directly connected), outgoing interface (a Java reference that may be
   * null), whether the route is to an attached subnet, and the time it was
   * created.
   */
  datatype RipEntry = RipEntry(
    address: Addr,
    subnetMask: Addr,
    metric: Int32,
    nextHop: Addr,
    outIface: Option<Iface>,
    isHost: bool,
    lastUpdated: int)

  /** A RIPv2 message: its command and its list of entries. */
  datatype RipMessage = RipMessage(command: bv8, entries: seq<RipEntry>)

  /** What a UDP datagram carries: a decoded RIPv2 message, or other data. */
  datatype UdpBody = RipBody(msg: RipMessage) | RawBody

  /** What an IPv4 packet carries: a UDP datagram or some other protocol's payload. */
  datatype IpPayload =
    | Udp(srcPort: bv16, dstPort: bv16, body: UdpBody)
    | OtherPayload

  datatype Ipv4 = Ipv4(
    src: Addr,
    dst: Addr,
    protocol: bv8,
    ttl: bv8,
    checksum: bv16,
    payload: IpPayload)

  /** An Ethernet frame; `ip` is meaningful only when `etherType` is IPv4. */
  datatype Frame = Frame(srcMac: Mac, dstMac: Mac, etherType: bv16, ip: Ipv4)

  /** A frame handed to the device layer for transmission out of an interface. */
  datatype Transmission = Transmission(iface: Iface, frame: Frame)

  /**
   * The dynamic RIP table: a map from destination address to entry, shared by
   * the router, the periodic advertiser and the expiry loop. Every operation on
   * it is one atomic step; the lock that serialises them is not modelled.
   */
  class RipTable {
    var entries: map<Addr, RipEntry>

    constructor ()
      ensures entries == map[]
    {
      entries := map[];
    }
  }

  /** Every entry is stored under its own address. */
  ghost predicate AddressKeyed(t: map<Addr, RipEntry>) {
    forall k :: k in t ==> t[k].address == k
  }

  /** Some element of a non-empty key set: the next key a map iteration visits. */
  method Choose(keys: set<Addr>) returns (k: Addr)
    requires keys != {}
    ensures k in keys
  {
    k :| k in keys;
  }

  /** `e` is the value of some key of `t`. */
  ghost predicate Stores(t: map<Addr, RipEntry>, e: RipEntry) {
    exists k :: k in t && t[k] == e
  }

  /** `ks` lists every key of `t` exactly once. */
  ghost predicate ListsKeys(t: map<Addr, RipEntry>, ks: seq<Addr>) {
    && (forall i, j :: 0 <= i < j < |ks| ==> ks[i] != ks[j])
    && (forall i :: 0 <= i < |ks| ==> ks[i] in t)
    && (forall k :: k in t ==> k in ks)
  }

  /**
   * `s` lists the table's values, as `new ArrayList<>(map.values())` does: the
   * value of each key exactly once, in some order of the keys.
   */
  ghost predicate IsSnapshot(t: map<Addr, RipEntry>, s: seq<RipEntry>) {
    && |s| == |t|
    && exists ks: seq<Addr> ::
      && ListsKeys(t, ks) && |ks| == |s|
      && (forall i :: 0 <= i < |s| ==> s[i] == t[ks[i]])
  }

  /** A snapshot holds only stored values, and every stored value appears in it. */
  lemma SnapshotValues(t: map<Addr, RipEntry>, s: seq<RipEntry>)
    requires IsSnapshot(t, s)
    ensures forall i :: 0 <= i < |s| ==> Stores(t, s[i])
    ensures forall k :: k in t ==> t[k] in s
  {
    var ks: seq<Addr> :| ListsKeys(t, ks) && |ks| == |s| && (forall i :: 0 <= i < |s| ==> s[i] == t[ks[i]]);
    forall i | 0 <= i < |s|
      ensures Stores(t, s[i])
    {
      assert ks[i] in t && t[ks[i]] == s[i];
    }
    forall k | k in t
      ensures t[k] in s
    {
      var i :| 0 <= i < |ks| && ks[i] == k;
      assert s[i] == t[k];
    }
  }

  /** Copies the table's values into a list, in the map's (unspecified) iteration order. */
  method Snapshot(t: map<Addr, RipEntry>) returns (s: seq<RipEntry>)
    ensures IsSnapshot(t, s)
  {
    s := [];
    ghost var ks: seq<Addr> := [];
    var todo := t.Keys;
    while todo != {}
      invariant todo <= t.Keys
      invariant |s| + |todo| == |t|
      invariant |ks| == |s|
      invariant forall i, j :: 0 <= i < j < |ks| ==> ks[i] != ks[j]
      invariant forall i :: 0 <= i < |ks| ==> ks[i] in t && ks[i] !in todo && s[i] == t[ks[i]]
      invariant forall k :: k in t && k !in todo ==> k in ks
      decreases |todo|
    {
      var k := Choose(todo);
      s := s + [t[k]];
      ks := ks + [k];
      todo := todo - {k};
    }
    assert ListsKeys(t, ks);
  }
}
