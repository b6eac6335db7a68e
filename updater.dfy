/**
 * The expiry loop (RIPv2Updater): one pass over the shared RIP table. The
 * first loop removes every learned route not refreshed within the timeout and
 * collects the next hops of the routes it removed; the second loop removes
 * every remaining route, learned or direct, whose next hop is one of them.
 * The clock is read once, as `now`; the lock and the endless loop are not modelled.
 */
module Expiry {
  import opened Net

  /** Milliseconds after which a learned route counts as expired. */
  const Timeout: int := 30000

  /** A learned route whose age has reached the timeout; exactly `Timeout` counts. */
  predicate IsStale(e: RipEntry, now: int) {
    now - e.lastUpdated >= Timeout && !e.isHost
  }

  /** The table after the first loop: every stale entry removed. */
  function FirstPass(t: map<Addr, RipEntry>, now: int): map<Addr, RipEntry> {
    map k | k in t && !IsStale(t[k], now) :: t[k]
  }

  /** The next hops of the entries the first loop removes. */
  function ExpiredNextHops(t: map<Addr, RipEntry>, now: int): set<Addr> {
    set k | k in t && IsStale(t[k], now) :: t[k].nextHop
  }

  /** The table after the second loop: every entry whose next hop is in `hops` removed. */
  function SecondPass(t: map<Addr, RipEntry>, hops: set<Addr>): map<Addr, RipEntry> {
    map k | k in t && t[k].nextHop !in hops :: t[k]
  }

  /** The table after one whole pass. */
  function AfterExpiry(t: map<Addr, RipEntry>, now: int): map<Addr, RipEntry> {
    SecondPass(FirstPass(t, now), ExpiredNextHops(t, now))
  }

  /**
   * The pass keeps a sub-map of the table: an entry survives, unchanged,
   * exactly when its next hop is not that of an expired entry (an expired
   * entry's own next hop is one of those).
   */
  lemma SurvivesIff(t: map<Addr, RipEntry>, now: int, k: Addr)
    ensures k in AfterExpiry(t, now) <==> k in t && t[k].nextHop !in ExpiredNextHops(t, now)
    ensures k in AfterExpiry(t, now) ==> AfterExpiry(t, now)[k] == t[k]
  {
    if k in t && IsStale(t[k], now) {
      assert t[k].nextHop in ExpiredNextHops(t, now);
    }
  }

  /** No stale entry remains after a pass. */
  lemma NoStaleSurvives(t: map<Addr, RipEntry>, now: int)
    ensures forall k :: k in AfterExpiry(t, now) ==> !IsStale(AfterExpiry(t, now)[k], now)
  {
  }

  /** The first loop never removes a host route. */
  lemma FirstPassKeepsHosts(t: map<Addr, RipEntry>, now: int)
    ensures forall k :: k in t && t[k].isHost ==> k in FirstPass(t, now) && FirstPass(t, now)[k] == t[k]
  {
  }

  /**
   * A direct route (a host route with next hop 0) is removed by a pass exactly
   * when some expired learned route also had next hop 0.
   */
  lemma DirectRouteRemovedIff(t: map<Addr, RipEntry>, now: int, k: Addr)
    requires k in t && t[k].isHost && t[k].nextHop == 0
    ensures k !in AfterExpiry(t, now) <==> exists k' :: k' in t && IsStale(t[k'], now) && t[k'].nextHop == 0
  {
    SurvivesIff(t, now, k);
  }

  /** After a pass nothing is stale, so a second pass at the same time changes nothing. */
  lemma {:induction false} ExpiryIdempotent(t: map<Addr, RipEntry>, now: int)
    ensures AfterExpiry(AfterExpiry(t, now), now) == AfterExpiry(t, now)
  {
    var r := AfterExpiry(t, now);
    NoStaleSurvives(t, now);
    assert ExpiredNextHops(r, now) == {};
    assert FirstPass(r, now) == r;
  }

  /** A pass keeps every entry stored under its own address. */
  lemma ExpiryKeepsAddressKeyed(t: map<Addr, RipEntry>, now: int)
    requires AddressKeyed(t)
    ensures AddressKeyed(AfterExpiry(t, now))
  {
  }

  /** The expiry loop, holding the table it shares with the router. */
  class RipUpdater {
    const ripTable: RipTable

    constructor (ripTable: RipTable)
      ensures this.ripTable == ripTable
    {
      this.ripTable := ripTable;
    }

    /** One iteration of `run`: both loops over the table, in place. */
    method RunOnce(now: int)
      modifies ripTable
      ensures ripTable.entries == AfterExpiry(old(ripTable.entries), now)
    {
      var expiredNextHops := RemoveStale(now);
      RemoveByNextHop(expiredNextHops);
    }

    /** The first loop: removes the stale entries and collects their next hops. */
    method RemoveStale(now: int) returns (expiredNextHops: set<Addr>)
      modifies ripTable
      ensures ripTable.entries == FirstPass(old(ripTable.entries), now)
      ensures expiredNextHops == ExpiredNextHops(old(ripTable.entries), now)
    {
      ghost var t0 := ripTable.entries;
      expiredNextHops := {};
      var todo := ripTable.entries.Keys;
      while todo != {}
        invariant todo <= t0.Keys
        invariant forall k :: k in ripTable.entries <==> k in t0 && (k in todo || !IsStale(t0[k], now))
        invariant forall k :: k in ripTable.entries ==> ripTable.entries[k] == t0[k]
        invariant forall k :: k in t0 && k !in todo && IsStale(t0[k], now) ==> t0[k].nextHop in expiredNextHops
        invariant forall h :: h in expiredNextHops ==> exists k :: k in t0 && k !in todo && IsStale(t0[k], now) && t0[k].nextHop == h
        decreases |todo|
      {
        var key := Choose(todo);
        var entry := ripTable.entries[key];
        if now - entry.lastUpdated >= Timeout && entry.isHost == false {
          expiredNextHops := expiredNextHops + {entry.nextHop};
          ripTable.entries := ripTable.entries - {key};
        }
        todo := todo - {key};
      }
      assert ripTable.entries == FirstPass(t0, now);
    }

    /** The second loop: removes every entry whose next hop is in `hops`. */
    method RemoveByNextHop(hops: set<Addr>)
      modifies ripTable
      ensures ripTable.entries == SecondPass(old(ripTable.entries), hops)
    {
      ghost var t1 := ripTable.entries;
      var todo := ripTable.entries.Keys;
      while todo != {}
        invariant todo <= t1.Keys
        invariant forall k :: k in ripTable.entries <==> k in t1 && (k in todo || t1[k].nextHop !in hops)
        invariant forall k :: k in ripTable.entries ==> ripTable.entries[k] == t1[k]
        decreases |todo|
      {
        var key := Choose(todo);
        if ripTable.entries[key].nextHop in hops {
          ripTable.entries := ripTable.entries - {key};
        }
        todo := todo - {key};
      }
      assert ripTable.entries == SecondPass(t1, hops);
    }
  }
}
