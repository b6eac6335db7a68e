/**
 * An entry of the static route table (RouteEntry): destination, gateway and
 * mask addresses, the network address derived from them, the outgoing
 * interface, the creation time and the link cost. Only the gateway and the
 * interface have setters; the network address stays the destination under the mask.
 */
module RouteEntries {
  import opened Net

  class RouteEntry {
    var destinationAddress: Addr
    var gatewayAddress: Addr
    var maskAddress: Addr
    /** The network address used by RIP: the destination under the mask. */
    var networkAddress: Addr
    /** The outgoing interface; a Java reference, so possibly null. */
    var iface: Option<Iface>
    /** When the entry was created. */
    var lastUpdated: int
    var cost: Int32

    /** The derived network address agrees with the destination and the mask. */
    ghost predicate Valid()
      reads this
    {
      networkAddress == BitAnd(destinationAddress, maskAddress)
    }

    /** A new entry created at time `now`. */
    constructor (destinationAddress: Addr, gatewayAddress: Addr, maskAddress: Addr,
                 iface: Option<Iface>, linkCost: Int32, now: int)
      ensures Valid()
      ensures DestinationAddress() == destinationAddress && GatewayAddress() == gatewayAddress
      ensures MaskAddress() == maskAddress && Interface() == iface
      ensures NetworkAddress() == BitAnd(destinationAddress, maskAddress)
      ensures LastUpdated() == now && cost == linkCost
    {
      this.destinationAddress := destinationAddress;
      this.gatewayAddress := gatewayAddress;
      this.maskAddress := maskAddress;
      this.networkAddress := BitAnd(destinationAddress, maskAddress);
      this.iface := iface;
      this.cost := linkCost;
      this.lastUpdated := now;
    }

    function DestinationAddress(): Addr
      reads this
    {
      destinationAddress
    }

    function GatewayAddress(): Addr
      reads this
    {
      gatewayAddress
    }

    function MaskAddress(): Addr
      reads this
    {
      maskAddress
    }

    function NetworkAddress(): Addr
      reads this
    {
      networkAddress
    }

    function LastUpdated(): int
      reads this
    {
      lastUpdated
    }

    function Interface(): Option<Iface>
      reads this
    {
      iface
    }

    /** Replaces the gateway; every other field, and so the invariant, is unchanged. */
    method SetGatewayAddress(gatewayAddress: Addr)
      requires Valid()
      modifies this`gatewayAddress
      ensures GatewayAddress() == gatewayAddress
      ensures DestinationAddress() == old(DestinationAddress()) && MaskAddress() == old(MaskAddress())
      ensures NetworkAddress() == old(NetworkAddress()) && Interface() == old(Interface())
      ensures LastUpdated() == old(LastUpdated()) && cost == old(cost)
      ensures Valid()
    {
      this.gatewayAddress := gatewayAddress;
    }

    /** Replaces the interface; every other field, and so the invariant, is unchanged. */
    method SetInterface(iface: Option<Iface>)
      requires Valid()
      modifies this`iface
      ensures Interface() == iface
      ensures DestinationAddress() == old(DestinationAddress()) && GatewayAddress() == old(GatewayAddress())
      ensures MaskAddress() == old(MaskAddress()) && NetworkAddress() == old(NetworkAddress())
      ensures LastUpdated() == old(LastUpdated()) && cost == old(cost)
      ensures Valid()
    {
      this.iface := iface;
    }
  }
}
