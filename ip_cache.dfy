/** The in-memory cache of ip.go and the two operations on it: `Update`,
  which refreshes it in place, and `Return`, which projects it for the map
  client.  The package-level variables IPTable and lastUpdate are the two
  fields of `Cache`. */
module IpCache {
  import opened RefreshSpec

  class Cache {
    /** IPTable: the cached record of each address. */
    var ipTable: map<string, IPLocation>
    /** When the last update completed; None is Go's zero time, which is
      more than UpdateInterval before any clock reading. */
    var lastUpdate: Option<int>

    /** The state at process start: an empty table, never updated. */
    constructor ()
      ensures ipTable == map[] && lastUpdate == None
    {
      ipTable := map[];
      lastUpdate := None;
    }

    /** One refresh.  `now` is the clock at the cooldown check, `online` the
      result of the query for online addresses, `lookup` the lookup service
      and `finish` the clock once the loop is over.  Returns how the call
      ended and the lookups and pauses it performed, in order. */
    method Update(now: int, online: Online, lookup: string -> Response, finish: int)
      returns (outcome: Outcome, events: seq<Event>)
      modifies this
      ensures var r := Refresh(old(ipTable), old(lastUpdate), now, online, lookup, finish);
        outcome == r.status && ipTable == r.table && lastUpdate == r.lastUpdate && events == r.events
    {
      if lastUpdate.Some? && now - lastUpdate.value < UpdateInterval {
        return TooSoon, [];
      }
      if online.QueryError? {
        return QueryFailed, [];
      }
      var ips := online.ips;
      if |ips| < 1 {
        return NoneOnline, [];
      }

      ghost var start := Pass(ipTable, 0, [], false);
      var ipLookupCount: nat := 0;
      events := [];
      for i := 0 to |ips|
        invariant lastUpdate == old(lastUpdate)
        invariant Run(Pass(ipTable, ipLookupCount, events, false), ips[i..], lookup) == Run(start, ips, lookup)
      {
        ghost var s := Pass(ipTable, ipLookupCount, events, false);
        assert Run(s, ips[i..], lookup) == Run(Step(s, ips[i], lookup), ips[i + 1..], lookup) by {
          assert ips[i..][0] == ips[i] && ips[i..][1..] == ips[i + 1..];
        }
        var addr := ips[i];
        if addr in ipTable {
          continue;
        }
        if ipLookupCount >= MaxLookupsPerMinute {
          events := events + [Pause];
          ipLookupCount := 0;
        }
        var response := lookup(addr);
        events := events + [Lookup(addr)];
        if response.GetError? {
          assert Step(s, addr, lookup) == Pass(ipTable, ipLookupCount, events, true);
          return Fatal, events;
        }
        ipLookupCount := ipLookupCount + 1;
        if response.ReadError? {
          assert Step(s, addr, lookup) == Pass(ipTable, ipLookupCount, events, true);
          return Fatal, events;
        }
        ipTable := ipTable[addr := response.loc];
        assert Step(s, addr, lookup) == Pass(ipTable, ipLookupCount, events, false);
      }
      assert ips[|ips|..] == [];
      lastUpdate := Some(finish);
      outcome := Completed;
    }

    /** The published view of the cache: one Location per entry, in an
      unspecified order, so each Location occurs as often as there are
      entries that project to it. */
    method Return() returns (ret: seq<Location>)
      ensures |ret| == |ipTable|
      ensures forall l :: multiset(ret)[l] == |Projecting(ipTable, ipTable.Keys, l)|
    {
      ret := [];
      var rest := ipTable.Keys;
      ghost var done: set<string> := {};
      while rest != {}
        invariant rest !! done && rest + done == ipTable.Keys
        invariant |ret| == |done|
        invariant forall l :: multiset(ret)[l] == |Projecting(ipTable, done, l)|
        decreases |rest|
      {
        var addr :| addr in rest;
        forall l ensures |Projecting(ipTable, done + {addr}, l)| == |Projecting(ipTable, done, l)| + if ToLocation(ipTable[addr]) == l then 1 else 0 {
          ProjectingAdd(ipTable, done, addr, l);
        }
        ret := ret + [ToLocation(ipTable[addr])];
        rest := rest - {addr};
        done := done + {addr};
      }
    }
  }

  /** The keys among `keys` whose entries project to `l`. */
  ghost function Projecting(m: map<string, IPLocation>, keys: set<string>, l: Location): set<string>
  {
    set k | k in keys && k in m && ToLocation(m[k]) == l
  }

  lemma ProjectingAdd(m: map<string, IPLocation>, keys: set<string>, addr: string, l: Location)
    requires addr in m && addr !in keys
    ensures |Projecting(m, keys + {addr}, l)| == |Projecting(m, keys, l)| + if ToLocation(m[addr]) == l then 1 else 0
  {
    if ToLocation(m[addr]) == l {
      assert Projecting(m, keys + {addr}, l) == Projecting(m, keys, l) + {addr};
    } else {
      assert Projecting(m, keys + {addr}, l) == Projecting(m, keys, l);
    }
  }
}
