# RIPv2 software router: dynamic route table and forwarding decision

This project models the routing core of a Java software router that keeps its
forwarding table up to date with RIPv2 (RFC 2453), and proves properties of the
model in Dafny. The modelled behaviour is:

- **Seeding** (`Router.start`). The dynamic RIP table gets one direct route per
  interface. Each route is keyed by `ip & mask` and has metric 1, next hop 0 and
  the host flag set. Then the advertiser floods its initial request.
- **Subnet lookup** (`Router.lookupSubnet`). The lookup scans the table for a key
  `k` whose entry's mask maps the destination onto `k`. It returns -1
  (255.255.255.255) when no entry matches. The scan order is the map's
  iteration order, so the model picks among matching keys nondeterministically.
- **Distance-vector merge** (`Router.handleResponse`). Each advertised entry is
  relaxed against the table. Its cost is its metric plus the metric of the route
  to the sender's subnet, added as a Java `int` with 32-bit wrap-around. The
  table takes the learned route when the destination is new, or when the new
  cost is strictly lower. When the sender's subnet is not in the table, the
  cost lookup throws, the exception is caught, and the entry is skipped.
- **Packet dispatch and forwarding** (`Router.handlePacket`, `handleIpPacket`,
  `forwardIpPacket`).
  - An IPv4 frame is RIP when it is UDP to 224.0.0.9 on port 520.
  - A RIP request is answered with the whole table, unicast back out of the
    receiving interface. Any other RIP command is merged as a response.
  - Other IPv4 traffic goes through four steps: the checksum check; the TTL
    decrement as a Java `byte`, where 1 drops and 0 wraps to 255; the drop of
    packets for the router's own addresses; then lookup, next hop, ARP and the
    MAC rewrite.
- **Advertiser** (`RIPv2Sender`). The advertiser builds the multicast
  advertisement frame and sends one frame out of each interface. It floods a
  request once, then periodically floods a response that carries a snapshot of
  the table.
- **Expiry** (one iteration of `RIPv2Updater.run`). The first loop removes every
  learned route at least 30000 ms old and collects its next hop. The second loop
  removes every remaining route whose next hop was collected, whether it was
  learned or direct.
- **Static route entry** (`RouteEntry`). The entry's derived network address is
  the destination under the mask. Only the gateway and the interface can be
  changed.

Values follow Java's types. An address is the 32 bits of a Java `int`, read
unsigned, with `&` computed on `bv32`. A metric is an `int` in the signed 32-bit
range. A TTL is a `bv8`. The shared `ConcurrentHashMap` is a `RipTable` object
whose `entries` map the router methods and the expiry loop reassign. Every
operation is one atomic step. Each transmission is returned as an interface and
frame pair. The clock reading `now` and the checksum that the packet library
recomputes are parameters.

In these respects the code departs from RIPv2 as commonly described, and the model
follows the code:

- Learned routes are keyed by the advertised address as sent, without applying
  the advertised mask (Router.java:181, 186). So a key need not equal its
  address under its mask.
- The second expiry loop can remove a direct route: it removes one whenever an
  expired route had next hop 0 (RIPv2Updater.java:51-52,
  `Expiry.DirectRouteRemovedIff`).
- There is no metric cap at 16, no split horizon and no timer refresh.
- Because -1 doubles as 255.255.255.255, a stored route for that address
  carries traffic that matches no route (`Routing.SentinelRouteCatchesUnmatched`).

## Model

| member | source | states |
|---|---|---|
| `Net.AddInt32` | src/edu/wisc/cs/sdn/vnet/rt/Router.java:178 | Java `int` addition: the exact sum when it fits in 32 bits, and otherwise the sum wrapped modulo 2^32 |
| `Net.Snapshot` | src/edu/wisc/cs/sdn/vnet/rt/RIPv2Sender.java:80 | copying the table's values gives the value of each key exactly once, in some order of the keys |
| `Net.SnapshotValues` | src/edu/wisc/cs/sdn/vnet/rt/Router.java:231 | every element of a snapshot is a stored value, and every stored value is in the snapshot |
| `Sender.EncapsulateAdvertises` | src/edu/wisc/cs/sdn/vnet/rt/RIPv2Sender.java:48-65 | the frame built for an interface has UDP ports 520/520, IPv4 protocol UDP, TTL 2, checksum 0 until serialisation, destination 224.0.0.9, the interface's IP and MAC as sources, broadcast destination MAC and ethertype IPv4 |
| `Sender.Flood` | src/edu/wisc/cs/sdn/vnet/rt/RIPv2Sender.java:41-47 | exactly one frame per interface, in interface order; each one leaves by its own interface and is an advertisement of the message on it |
| `Sender.Announce` | src/edu/wisc/cs/sdn/vnet/rt/RIPv2Sender.java:27-36 | creating the advertiser floods a REQUEST with no entries out of every interface |
| `Sender.PeriodicResponse` | src/edu/wisc/cs/sdn/vnet/rt/RIPv2Sender.java:79-83 | each period floods a RESPONSE whose entries are a snapshot of the whole table, the same message on every interface |
| `Routing.SeededHasEverySubnet` | src/edu/wisc/cs/sdn/vnet/rt/Router.java:63-67 | after seeding, every interface's `ip & mask` is a key |
| `Routing.SeededOnlySubnets` | src/edu/wisc/cs/sdn/vnet/rt/Router.java:63-67 | after seeding, every key is some interface's `ip & mask` |
| `Routing.SeededLastWins` | src/edu/wisc/cs/sdn/vnet/rt/Router.java:63-67 | the key of interface `j` holds `j`'s direct route when no later interface has the same subnet, so a later interface overwrites an earlier one |
| `Routing.SeededDirect` | src/edu/wisc/cs/sdn/vnet/rt/Router.java:64-66 | every seeded entry has metric 1, next hop 0 and the host flag, is stored under its own address, and leaves by an interface whose subnet is the key |
| `Routing.LookupSubnet` | src/edu/wisc/cs/sdn/vnet/rt/Router.java:156-166 | the result is a key whose mask maps the IP onto it exactly when such a key exists; otherwise it is -1 |
| `Routing.MergeEntry` | src/edu/wisc/cs/sdn/vnet/rt/Router.java:172-192 | one advertised entry changes only its own address: it is skipped when the sender's subnet is unknown, and inserted when new; a stored route is replaced only by a strictly cheaper candidate `{dest, advMask, cost, sourceIP, sourceIface, not host}` and is otherwise untouched, so its metric never rises |
| `Routing.MergeWithoutSourceUnchanged` | src/edu/wisc/cs/sdn/vnet/rt/Router.java:175-192 | a response whose sender's subnet is not a key leaves the table unchanged |
| `Routing.MergeMonotone` | src/edu/wisc/cs/sdn/vnet/rt/Router.java:177-183 | a whole response removes no key and raises no stored metric |
| `Routing.MergeFrame` | src/edu/wisc/cs/sdn/vnet/rt/Router.java:172-187 | a destination not advertised in the response is left exactly as it was, present or absent |
| `Routing.MergeKeys` | src/edu/wisc/cs/sdn/vnet/rt/Router.java:184-187 | when the sender's subnet is known, the keys afterwards are the old keys plus every advertised address |
| `Routing.MergeLearnsFromSender` | src/edu/wisc/cs/sdn/vnet/rt/Router.java:181-186 | every entry a response changes or adds is a learned route: not a host route, next hop the sender's IP, out of the receiving interface, stamped now, stored under its own address |
| `Routing.MergeKeepsAddressKeyed` | src/edu/wisc/cs/sdn/vnet/rt/Router.java:181-186 | merging keeps every entry stored under its own address |
| `Routing.MergeKeepsPositive` | src/edu/wisc/cs/sdn/vnet/rt/Router.java:177-186 | with non-negative advertised metrics that do not overflow, all metrics stay at least 1 and the cost to the sender never rises |
| `Routing.MergeKeepsMetricOneRoute` | src/edu/wisc/cs/sdn/vnet/rt/Router.java:177-183 | under the same bounds, a route of metric 1 survives a whole response unchanged |
| `Routing.SeededRoutesSurviveResponse` | src/edu/wisc/cs/sdn/vnet/rt/Router.java:59-67 | right after seeding, a response from an attached subnet with advertised metrics in `[0, 2^31-1)` displaces no direct route |
| `Routing.RipPayload` | src/edu/wisc/cs/sdn/vnet/rt/Router.java:145-155 | a frame yields a RIP message only if it is UDP to 224.0.0.9 on port 520, and every such frame carrying a RIP body yields that body |
| `Routing.FloodedFrameIsRip` | src/edu/wisc/cs/sdn/vnet/rt/RIPv2Sender.java:48-65 | the advertiser's frame is the router's unicast encapsulation sent to the broadcast MAC and 224.0.0.9, and it is classified as RIP, giving back its message |
| `Routing.AdvertisementsAreRip` | src/edu/wisc/cs/sdn/vnet/rt/Router.java:145-155 | every frame of a flood is an IPv4 frame that a receiving router classifies as RIP, with the flooded message |
| `Routing.UnicastReplyIsRipOnlyToMulticast` | src/edu/wisc/cs/sdn/vnet/rt/Router.java:242-244 | the unicast reply to a request is classified as RIP exactly when the requester's address is 224.0.0.9 |
| `Routing.Admit` | src/edu/wisc/cs/sdn/vnet/rt/Router.java:273-301 | a packet passes the pre-routing checks exactly when it is IPv4, its checksum matches, its TTL is not 1, and its destination is no interface address; the TTL passed on is `(ttl - 1) mod 256` |
| `Routing.ZeroTtlWraps` | src/edu/wisc/cs/sdn/vnet/rt/Router.java:288-291 | a packet arriving with TTL 0 is passed on with TTL 255 |
| `Routing.ForwardDecision` | src/edu/wisc/cs/sdn/vnet/rt/Router.java:325-363 | the packet is sent exactly when the looked-up key is stored, its entry has an interface and its next hop (the destination when next hop is 0) is in the ARP cache; it then leaves by that interface, from its MAC, to the resolved MAC |
| `Routing.ForwardFollowsMatchingRoute` | src/edu/wisc/cs/sdn/vnet/rt/Router.java:320-329 | a sent packet follows a route whose mask maps the destination onto its key, except when no route matches and a route for 255.255.255.255 is stored |
| `Routing.SentinelRouteCatchesUnmatched` | src/edu/wisc/cs/sdn/vnet/rt/Router.java:165 | when nothing matches, a stored, resolvable route for 255.255.255.255 is used because -1 is that key |
| `Routing.Router.constructor` | src/edu/wisc/cs/sdn/vnet/rt/Router.java:51-57 | a new router has the given interfaces and ARP cache and an empty table |
| `Routing.Router.Start` | src/edu/wisc/cs/sdn/vnet/rt/Router.java:59-71 | a fresh table equal to the seeded table, then the initial request flooded once out of each interface |
| `Routing.Router.HandleResponse` | src/edu/wisc/cs/sdn/vnet/rt/Router.java:171-194 | the table afterwards is the in-order merge of every advertised entry |
| `Routing.Router.ForwardIpPacket` | src/edu/wisc/cs/sdn/vnet/rt/Router.java:307-366 | a non-IPv4 frame is dropped; otherwise the outcome is the forwarding decision for some possible lookup answer |
| `Routing.Router.HandleIpPacket` | src/edu/wisc/cs/sdn/vnet/rt/Router.java:270-305 | a packet that fails the checks is dropped, including one for a local address; an admitted one gets the forwarding decision with the decremented TTL |
| `Routing.Router.HandlePacket` | src/edu/wisc/cs/sdn/vnet/rt/Router.java:210-267 | a non-IPv4 frame is ignored; a RIP request gets one reply out of the receiving interface, sent from that interface's IP and MAC to the sender's IP and MAC and carrying a snapshot of the table; any other RIP message merges with `sourceSubnet = srcIP & inIface.mask`; other traffic is sent at most once with the rewritten MACs and TTL, and leaves the table unchanged |
| `Expiry.SurvivesIff` | src/edu/wisc/cs/sdn/vnet/rt/RIPv2Updater.java:41-53 | the result is a sub-map: an entry survives, unchanged, exactly when its next hop is not that of an expired entry |
| `Expiry.NoStaleSurvives` | src/edu/wisc/cs/sdn/vnet/rt/RIPv2Updater.java:43-48 | after a pass no learned route with `now - lastUpdated >= 30000` remains |
| `Expiry.FirstPassKeepsHosts` | src/edu/wisc/cs/sdn/vnet/rt/RIPv2Updater.java:44 | the first loop never removes a host route |
| `Expiry.DirectRouteRemovedIff` | src/edu/wisc/cs/sdn/vnet/rt/RIPv2Updater.java:51-53 | a direct route (host flag, next hop 0) is removed exactly when some expired learned route had next hop 0 |
| `Expiry.ExpiryIdempotent` | src/edu/wisc/cs/sdn/vnet/rt/RIPv2Updater.java:41-53 | a second pass at the same time changes nothing |
| `Expiry.ExpiryKeepsAddressKeyed` | src/edu/wisc/cs/sdn/vnet/rt/RIPv2Updater.java:41-53 | a pass keeps every entry stored under its own address |
| `Expiry.RipUpdater.constructor` | src/edu/wisc/cs/sdn/vnet/rt/RIPv2Updater.java:25-32 | the updater holds the table it shares with the router |
| `Expiry.RipUpdater.RunOnce` | src/edu/wisc/cs/sdn/vnet/rt/RIPv2Updater.java:41-53 | one iteration leaves the shared table equal to the expiry of the old table |
| `Expiry.RipUpdater.RemoveStale` | src/edu/wisc/cs/sdn/vnet/rt/RIPv2Updater.java:43-49 | the first loop removes exactly the stale entries in place and collects exactly their next hops |
| `Expiry.RipUpdater.RemoveByNextHop` | src/edu/wisc/cs/sdn/vnet/rt/RIPv2Updater.java:51-53 | the second loop removes exactly the entries whose next hop was collected |
| `RouteEntries.RouteEntry.constructor` | src/edu/wisc/cs/sdn/vnet/rt/RouteEntry.java:40-50 | the getters return the constructor's destination, gateway, mask and interface; the network address is `destination & mask`; the creation time is recorded |
| `RouteEntries.RouteEntry.SetGatewayAddress` | src/edu/wisc/cs/sdn/vnet/rt/RouteEntry.java:64-65 | only the gateway changes; the network-address invariant is preserved |
| `RouteEntries.RouteEntry.SetInterface` | src/edu/wisc/cs/sdn/vnet/rt/RouteEntry.java:88-89 | only the interface changes; the network-address invariant is preserved |

## Left out

- Threads, the `ReentrantLock`, the endless loops, `sleep` and its interruption
  are not modelled. Each call is one atomic step. Unlocked reads of the table,
  for the request reply and the periodic snapshot, are concurrency matters.
- The expiry loop calls `System.currentTimeMillis()` once per entry. The model
  uses one `now` for the whole pass. The timestamp of a new table entry is also
  a `now` parameter.
- The IPv4 checksum is computed by the packet library, which is not part of this
  model. `Router.HandleIpPacket` receives the recomputed value as a parameter.
- The packet library's classes are reduced to the fields the router uses.
  Serialisation, RIP address family and route tag are not modelled. A UDP
  datagram to port 520 whose body is not a RIP message is treated as non-RIP;
  the Java cast would throw there instead.
- `Routing.RipPayload`: classifies only frames whose ethertype is IPv4, as
  `handlePacket` does. The Java cast of a non-IPv4 payload is not modelled.
- `Device.getInterfaces()` is a name-to-interface map. The model uses a
  sequence fixed at construction, so its order stands for the map's iteration
  order. Interfaces are compared as values, not as object references.
- A router that handles a packet before `start` has no RIP table yet, so the
  Java throws. That case is not modelled: the model's constructor creates an
  empty table, and a packet handled before `Start` meets that empty table.
- The ARP cache is a map from address to MAC, and the ARP cache class itself is
  not part of this model.
- Loading the static route table and the ARP cache from files, `printRIPTable`,
  console output and `System.exit` are file and console I/O.
- The static `RouteTable` and `getRouteTable` are left out because forwarding
  does not use them.
- `RouteEntry.toString` is string formatting.
- `RIPv2Handler` is an unused draft that the router never constructs.
- The `RouteEntry` getters carry no contract of their own. The constructor and
  the setters state what they return.
- Java `long` arithmetic on timestamps is unbounded here: `now - lastUpdated`
  does not overflow.

