/**
 * PPPoE session lookup (src/ipLookup.js): the address-to-username table
 * built from a router's active sessions, the lookup in it, and the
 * registry of requests in flight per router. The RouterOS session itself
 * is an outcome handed to the registry: the active-session list, or the
 * error message of the failure.
 */
module IpLookup {
  import opened Wrappers
  import opened Text

  /** One entry of `/ppp/active/print`: the session's address and user name. */
  datatype Session = Session(address: string, name: string)

  /** The table `pppActive.forEach(conn => pppoeMap.set(conn.address, conn.name))` leaves in a fresh map. */
  function SessionMap(sessions: seq<Session>): map<string, string>
  {
    if sessions == [] then map[]
    else
      var last := sessions[|sessions| - 1];
      SessionMap(sessions[..|sessions| - 1])[last.address := last.name]
  }

  /**
   * An address is in the table exactly when some session has it, and then
   * it maps to the name of the last such session.
   */
  lemma SessionMapLookup(sessions: seq<Session>, a: string)
    ensures a in SessionMap(sessions) <==> exists i :: 0 <= i < |sessions| && sessions[i].address == a
    ensures a in SessionMap(sessions) ==>
              exists i :: && 0 <= i < |sessions| && sessions[i].address == a
                          && SessionMap(sessions)[a] == sessions[i].name
                          && forall j :: i < j < |sessions| ==> sessions[j].address != a
  {
    SessionMapDomain(sessions, a);
    if a in SessionMap(sessions) {
      SessionMapValue(sessions, a);
    }
  }

  /** The addresses of the table are those of the sessions. */
  lemma {:induction false} SessionMapDomain(sessions: seq<Session>, a: string)
    ensures a in SessionMap(sessions) <==> exists i :: 0 <= i < |sessions| && sessions[i].address == a
    decreases |sessions|
  {
    if sessions != [] {
      var init, last := sessions[..|sessions| - 1], sessions[|sessions| - 1];
      SessionMapDomain(init, a);
      if exists i :: 0 <= i < |init| && init[i].address == a {
        var i :| 0 <= i < |init| && init[i].address == a;
        assert sessions[i].address == a;
      }
      if last.address != a && exists i :: 0 <= i < |sessions| && sessions[i].address == a {
        var i :| 0 <= i < |sessions| && sessions[i].address == a;
        assert init[i].address == a;
      }
    }
  }

  /** An address of the table maps to the name of its last session. */
  lemma {:induction false} SessionMapValue(sessions: seq<Session>, a: string)
    requires a in SessionMap(sessions)
    ensures exists i :: && 0 <= i < |sessions| && sessions[i].address == a
                        && SessionMap(sessions)[a] == sessions[i].name
                        && forall j :: i < j < |sessions| ==> sessions[j].address != a
    decreases |sessions|
  {
    var n := |sessions|;
    var init, last := sessions[..n - 1], sessions[n - 1];
    if last.address == a {
      assert SessionMap(sessions)[a] == sessions[n - 1].name;
    } else {
      assert a in SessionMap(init) && SessionMap(sessions)[a] == SessionMap(init)[a];
      SessionMapValue(init, a);
      var i :| && 0 <= i < |init| && init[i].address == a && SessionMap(init)[a] == init[i].name
               && forall j :: i < j < |init| ==> init[j].address != a;
      assert sessions[i] == init[i];
      assert forall j :: i < j < n ==> sessions[j].address != a by {
        forall j | i < j < n ensures sessions[j].address != a {
          if j < n - 1 {
            assert sessions[j] == init[j];
          }
        }
      }
    }
  }

  /** The `forEach` in `getPPPoEData` filling `pppoeMap`. */
  method BuildSessionMap(sessions: seq<Session>) returns (pppoeMap: map<string, string>)
    ensures pppoeMap == SessionMap(sessions)
  {
    pppoeMap := map[];
    var i := 0;
    while i < |sessions|
      invariant 0 <= i <= |sessions|
      invariant pppoeMap == SessionMap(sessions[..i])
    {
      assert sessions[..i + 1][..i] == sessions[..i];
      pppoeMap := pppoeMap[sessions[i].address := sessions[i].name];
      i := i + 1;
    }
    assert sessions[..i] == sessions;
  }

  const InvalidMap := "Invalid PPPoE data map provided"
  const IpRequired := "IP address is required"
  const NoUsernamePrefix := "No username found for IP: "

  /**
   * `lookupUsernameByIP(ipAddress, pppoeMap)`; `None` stands for a missing
   * map or a value that is not a `Map`.
   */
  function LookupUsernameByIP(ipAddress: string, pppoeMap: Option<map<string, string>>): Result<string>
  {
    if pppoeMap.None? then Err(InvalidMap)
    else if ipAddress == "" then Err(IpRequired)
    else if ipAddress !in pppoeMap.value || pppoeMap.value[ipAddress] == "" then Err(NoUsernamePrefix + ipAddress)
    else Ok(pppoeMap.value[ipAddress])
  }

  /**
   * The lookup succeeds exactly when there is a map, the address is
   * non-empty and has a non-empty name, which it returns; otherwise it
   * fails with the first applicable of its three messages.
   */
  lemma LookupIff(ipAddress: string, pppoeMap: Option<map<string, string>>)
    ensures LookupUsernameByIP(ipAddress, pppoeMap).Ok?
            <==> pppoeMap.Some? && ipAddress != "" && ipAddress in pppoeMap.value && pppoeMap.value[ipAddress] != ""
    ensures LookupUsernameByIP(ipAddress, pppoeMap).Ok? ==> LookupUsernameByIP(ipAddress, pppoeMap).value == pppoeMap.value[ipAddress]
    ensures pppoeMap.None? ==> LookupUsernameByIP(ipAddress, pppoeMap) == Err(InvalidMap)
    ensures pppoeMap.Some? && ipAddress == "" ==> LookupUsernameByIP(ipAddress, pppoeMap) == Err(IpRequired)
    ensures pppoeMap.Some? && ipAddress != "" && !LookupUsernameByIP(ipAddress, pppoeMap).Ok? ==>
              LookupUsernameByIP(ipAddress, pppoeMap) == Err(NoUsernamePrefix + ipAddress)
  {
  }

  /**
   * Looking an address up in a freshly built table finds the name of the
   * last session with that address, as long as that name is not empty.
   */
  lemma LookupAfterBuild(sessions: seq<Session>, i: nat)
    requires i < |sessions| && sessions[i].address != "" && sessions[i].name != ""
    requires forall j :: i < j < |sessions| ==> sessions[j].address != sessions[i].address
    ensures LookupUsernameByIP(sessions[i].address, Some(SessionMap(sessions))) == Ok(sessions[i].name)
  {
    var a := sessions[i].address;
    SessionMapLookup(sessions, a);
    var k :| && 0 <= k < |sessions| && sessions[k].address == a && SessionMap(sessions)[a] == sessions[k].name
             && forall j :: k < j < |sessions| ==> sessions[j].address != a;
    assert k == i;
  }

  /** `${config.host}:${config.port}`. */
  function RouterKey(host: string, port: nat): string
  {
    host + ":" + NatToString(port)
  }

  /** For a host name or IPv4 address (no `:`), the key determines the host and the port. */
  lemma RouterKeyInjective(h1: string, p1: nat, h2: string, p2: nat)
    requires ':' !in h1 && ':' !in h2
    requires RouterKey(h1, p1) == RouterKey(h2, p2)
    ensures h1 == h2 && p1 == p2
  {
    DigitsAvoid(NatToString(p1), ':');
    DigitsAvoid(NatToString(p2), ':');
    SplitPairAt(h1, ":", NatToString(p1));
    SplitPairAt(h2, ":", NatToString(p2));
    NatToStringInjective(p1, p2);
  }

  const FailurePrefix := "Failed to get PPPoE data: "

  /** `ongoingRequests`: the pending request of each router key, by request number. */
  class RequestRegistry {
    var ongoing: map<string, nat>
    /** The number the next new request gets. */
    var next: nat

    constructor()
      ensures ongoing == map[] && next == 0
    {
      ongoing := map[];
      next := 0;
    }

    /** `hasOngoingRequest(host, port)`. */
    predicate HasOngoingRequest(host: string, port: nat)
      reads this
    {
      RouterKey(host, port) in ongoing
    }

    /**
     * The first half of `getPPPoEData(config)`: a router with a request in
     * flight gets that request back (`reused`); otherwise a new request is
     * registered under the router's key.
     */
    method Start(host: string, port: nat) returns (request: nat, reused: bool)
      modifies this
      ensures var key := RouterKey(host, port);
              && (reused <==> key in old(ongoing))
              && (reused ==> request == old(ongoing)[key] && ongoing == old(ongoing) && next == old(next))
              && (!reused ==> request == old(next) && ongoing == old(ongoing)[key := request] && next == old(next) + 1)
      ensures HasOngoingRequest(host, port)
    {
      var key := RouterKey(host, port);
      if key in ongoing {
        return ongoing[key], true;
      }
      request := next;
      ongoing := ongoing[key := request];
      next := next + 1;
      reused := false;
    }

    /**
     * The settlement of a request: an active-session list resolves to a
     * fresh table, a failure rejects with the prefixed message. The
     * `finally` block then closes a connected API and removes the router's
     * key; when that `api.close()` rejects (`closeFails`), the removal never
     * runs and the key keeps naming the settled request, so later calls for
     * the router are handed that request again.
     */
    method Finish(host: string, port: nat, outcome: Result<seq<Session>>, closeFails: bool)
      returns (result: Result<map<string, string>>)
      modifies this
      ensures ongoing == (if closeFails then old(ongoing) else old(ongoing) - {RouterKey(host, port)})
      ensures next == old(next)
      ensures !closeFails ==> !HasOngoingRequest(host, port)
      ensures closeFails ==> (HasOngoingRequest(host, port) <==> RouterKey(host, port) in old(ongoing))
      ensures outcome.Ok? ==> result == Ok(SessionMap(outcome.value))
      ensures outcome.Err? ==> result == Err(FailurePrefix + outcome.message)
    {
      match outcome {
        case Ok(sessions) =>
          var pppoeMap := BuildSessionMap(sessions);
          result := Ok(pppoeMap);
        case Err(message) =>
          result := Err(FailurePrefix + message);
      }
      if !closeFails {
        ongoing := ongoing - {RouterKey(host, port)};
      }
    }
  }
}
