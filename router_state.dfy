/**
 * `State` (src/state.js): the per-router statistics table the syslog
 * listener and the file writer update in place. A JavaScript `Map` keeps its
 * keys in insertion order, so the table is a map together with the order in
 * which its routers were first seen.
 */
module RouterState {

  /** The record kept per router: `{ syslogCount, saveCount, lastSeen }`. */
  datatype RouterStats = RouterStats(syslogCount: nat, saveCount: nat, lastSeen: int)

  /** `{ syslogCount, saveCount }` summed over routers. */
  datatype Totals = Totals(syslogCount: nat, saveCount: nat)

  /** `updateRouterStats` on one record: each counter goes up by one when its flag is set, and `lastSeen` becomes `now`. */
  function Bump(r: RouterStats, syslog: bool, save: bool, now: int): (b: RouterStats)
    ensures b.syslogCount >= r.syslogCount && b.saveCount >= r.saveCount
  {
    RouterStats(r.syslogCount + (if syslog then 1 else 0), r.saveCount + (if save then 1 else 0), now)
  }

  /** The record `initRouter` creates for a router seen for the first time. */
  function Fresh(now: int): RouterStats
  {
    RouterStats(0, 0, now)
  }

  /** Hearing from a router and then saving for it, both at `now`, is one bump of both counters. */
  lemma BumpTwice(m: map<string, RouterStats>, address: string, base: RouterStats, save: bool, now: int)
    ensures var heard := m[address := Bump(base, true, false, now)];
            var after := if save then heard[address := Bump(heard[address], false, true, now)] else heard;
            after == m[address := Bump(base, true, save, now)]
  {
    var heard := m[address := Bump(base, true, false, now)];
    if save {
      assert Bump(heard[address], false, true, now) == Bump(base, true, true, now);
    }
  }

  /** The per-field sums over the routers listed in `keys`. */
  function TotalOver(keys: seq<string>, m: map<string, RouterStats>): Totals
    requires forall k :: k in keys ==> k in m
  {
    if keys == [] then Totals(0, 0)
    else
      var before := TotalOver(keys[..|keys| - 1], m);
      var last := m[keys[|keys| - 1]];
      Totals(before.syslogCount + last.syslogCount, before.saveCount + last.saveCount)
  }

  /** Routers not named in `keys` do not contribute to the sums. */
  lemma {:induction false} TotalOverIgnores(keys: seq<string>, m: map<string, RouterStats>, k: string, v: RouterStats)
    requires forall j :: j in keys ==> j in m
    requires k !in keys
    ensures TotalOver(keys, m[k := v]) == TotalOver(keys, m)
  {
    if keys != [] {
      TotalOverIgnores(keys[..|keys| - 1], m, k, v);
    }
  }

  /**
   * Replacing the record of a router listed once in `keys` changes the sums
   * by exactly the change in that record.
   */
  lemma {:induction false} TotalOverReplace(keys: seq<string>, m: map<string, RouterStats>, k: string, v: RouterStats)
    requires forall j :: j in keys ==> j in m
    requires k in m
    requires forall i, j :: 0 <= i < j < |keys| ==> keys[i] != keys[j]
    ensures var before, after := TotalOver(keys, m), TotalOver(keys, m[k := v]);
            if k in keys then
              after.syslogCount + m[k].syslogCount == before.syslogCount + v.syslogCount
              && after.saveCount + m[k].saveCount == before.saveCount + v.saveCount
            else after == before
  {
    if keys == [] {
    } else {
      var init := keys[..|keys| - 1];
      var last := keys[|keys| - 1];
      if last == k {
        assert k !in init by {
          forall i | 0 <= i < |init| ensures init[i] != k {
            assert keys[i] != keys[|keys| - 1];
          }
        }
        TotalOverIgnores(init, m, k, v);
      } else {
        TotalOverReplace(init, m, k, v);
      }
    }
  }

  class State {
    var startTime: int
    var routers: map<string, RouterStats>
    /** The routers in the order they were first seen, as `routers.values()` visits them. */
    var order: seq<string>

    ghost predicate Valid()
      reads this
    {
      Table(order, routers)
    }

    /** `new State()` at instant `now`: no routers yet. */
    constructor(now: int)
      ensures Valid()
      ensures startTime == now && routers == map[] && order == []
    {
      startTime := now;
      routers := map[];
      order := [];
    }

    /** `initRouter(routerAddress)`: adds a fresh record only when the router is new, and returns the router's record. */
    method InitRouter(address: string, now: int) returns (stats: RouterStats)
      requires Valid()
      modifies this
      ensures Valid()
      ensures address in old(routers) ==> routers == old(routers) && order == old(order)
      ensures address !in old(routers) ==> routers == old(routers)[address := Fresh(now)] && order == old(order) + [address]
      ensures startTime == old(startTime)
      ensures address in routers && stats == routers[address]
    {
      if address !in routers {
        routers := routers[address := Fresh(now)];
        order := order + [address];
      }
      stats := routers[address];
    }

    /**
     * `updateRouterStats(routerAddress, { syslog, save })`: the router's record
     * (created first if needed) gets its counters bumped and `lastSeen` set;
     * no other router's record changes.
     */
    method UpdateRouterStats(address: string, syslog: bool, save: bool, now: int)
      requires Valid()
      modifies this
      ensures Valid()
      ensures var base := if address in old(routers) then old(routers)[address] else Fresh(now);
              routers == old(routers)[address := Bump(base, syslog, save, now)]
      ensures order == if address in old(routers) then old(order) else old(order) + [address]
      ensures startTime == old(startTime)
    {
      var record := InitRouter(address, now);
      routers := routers[address := Bump(record, syslog, save, now)];
    }

    /** `getTotalStats()`: the counters summed over every router. */
    method GetTotalStats() returns (totals: Totals)
      requires Valid()
      ensures totals == TotalOver(order, routers)
    {
      totals := Totals(0, 0);
      var i := 0;
      while i < |order|
        invariant 0 <= i <= |order|
        invariant totals == TotalOver(order[..i], routers)
      {
        assert order[..i + 1][..i] == order[..i];
        var r := routers[order[i]];
        totals := Totals(totals.syslogCount + r.syslogCount, totals.saveCount + r.saveCount);
        i := i + 1;
      }
      assert order[..i] == order;
    }
  }

  /** The table's invariants say every listed router has a record, once. */
  ghost predicate Table(order: seq<string>, m: map<string, RouterStats>)
  {
    && (forall k :: k in order <==> k in m)
    && (forall i, j :: 0 <= i < j < |order| ==> order[i] != order[j])
  }

  /**
   * After `updateRouterStats(r, { syslog, save })` the totals have grown by
   * exactly one for each flag that was set.
   */
  lemma TotalsAfterUpdate(order: seq<string>, m: map<string, RouterStats>, address: string, syslog: bool, save: bool, now: int)
    requires Table(order, m)
    ensures var base := if address in m then m[address] else Fresh(now);
            var m' := m[address := Bump(base, syslog, save, now)];
            var order' := if address in m then order else order + [address];
            var before, after := TotalOver(order, m), TotalOver(order', m');
            && after.syslogCount == before.syslogCount + (if syslog then 1 else 0)
            && after.saveCount == before.saveCount + (if save then 1 else 0)
  {
    var base := if address in m then m[address] else Fresh(now);
    var v := Bump(base, syslog, save, now);
    if address in m {
      TotalOverReplace(order, m, address, v);
    } else {
      var order' := order + [address];
      assert order'[..|order'| - 1] == order;
      TotalOverIgnores(order, m, address, v);
    }
  }
}
