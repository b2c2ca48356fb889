/**
 * The syslog listener's message handler (src/syslogServer.js): every
 * datagram counts towards its router's `syslogCount`; the ones that parse
 * into a connection event are appended as one line to the router's current
 * hourly partition, which counts towards its `saveCount`.
 */
module SyslogServer {
  import opened Text
  import opened TimeUtils
  import opened RouterState
  import opened SyslogProcessor
  import opened FileUtils

  /** How one call of `handleSyslogMessage` ends. */
  datatype Handled =
    | Ignored                          // `processMessage` returned `null`
    | Rejected(error: string)          // `processMessage` threw
    | Stored(outcome: WriteOutcome)    // the line went to `writeToFile`

  /** No router has been saved more often than it has been heard from. */
  ghost predicate SavesBounded(routers: map<string, RouterStats>)
  {
    forall r :: r in routers ==> routers[r].saveCount <= routers[r].syslogCount
  }

  /** Hearing from a router keeps the bound, and leaves it with a save to spare. */
  lemma HeardKeepsBound(routers: map<string, RouterStats>, address: string, now: int)
    requires SavesBounded(routers)
    ensures var base := if address in routers then routers[address] else Fresh(now);
            var after := routers[address := Bump(base, true, false, now)];
            SavesBounded(after) && after[address].saveCount < after[address].syslogCount
  {
  }

  /** Saving for a router with a save to spare keeps the bound. */
  lemma SavedKeepsBound(routers: map<string, RouterStats>, address: string, now: int)
    requires SavesBounded(routers)
    requires address in routers && routers[address].saveCount < routers[address].syslogCount
    ensures SavesBounded(routers[address := Bump(routers[address], false, true, now)])
  {
  }

  /**
   * `handleSyslogMessage(info)`, with the clock read as `nowMs` and the
   * local calendar fields as `local`: the router's `syslogCount` goes up
   * first; a message `processMessage` turns into an event is then written
   * with `formatLogLine` to the partition `getFormattedFilename` names.
   * Only the sender's record changes: both counter updates set its
   * `lastSeen` to the same `nowMs`, so together they are one bump.
   */
  method HandleSyslogMessage(info: SyslogInfo, nowMs: int, local: DateTime, state: State, store: LogStore, faults: WriteFaults)
    returns (handled: Handled)
    requires state.Valid() && SavesBounded(state.routers)
    requires state != store as object
    modifies state, store
    ensures state.Valid() && SavesBounded(state.routers)
    ensures info.address in state.routers
    ensures state.routers[info.address].syslogCount
            == (if info.address in old(state.routers) then old(state.routers)[info.address].syslogCount else 0) + 1
    ensures state.routers[info.address].saveCount
            == (if info.address in old(state.routers) then old(state.routers)[info.address].saveCount else 0)
               + (if handled == Stored(Written) then 1 else 0)
    ensures var base := if info.address in old(state.routers) then old(state.routers)[info.address] else Fresh(nowMs);
            state.routers == old(state.routers)[info.address := Bump(base, true, handled == Stored(Written), nowMs)]
    ensures state.order == if info.address in old(state.routers) then old(state.order) else old(state.order) + [info.address]
    ensures state.startTime == old(state.startTime)
    ensures handled == Ignored <==> ProcessMessage(info, nowMs) == NoEvent
    ensures handled.Rejected? <==> ProcessMessage(info, nowMs).Thrown?
    ensures handled.Rejected? ==> handled.error == ProcessMessage(info, nowMs).error
    ensures handled == Stored(Written) ==>
              ProcessMessage(info, nowMs).Event?
              && var key := (info.address, FormattedFilename(local));
                 store.files == old(store.files)[key := Existing(old(store.files), key.0, key.1)
                                                       + FormatLogLine(ProcessMessage(info, nowMs).event)]
    ensures handled != Stored(Written) ==> store.files == old(store.files)
    ensures store.dirs == if handled.Stored? then DirsAfterWrite(old(store.dirs), info.address, faults.mkdirFails)
                          else old(store.dirs)
  {
    ghost var before := state.routers;
    ghost var base := if info.address in before then before[info.address] else Fresh(nowMs);
    state.UpdateRouterStats(info.address, true, false, nowMs);
    HeardKeepsBound(before, info.address, nowMs);
    BumpTwice(before, info.address, base, false, nowMs);
    var processed := ProcessMessage(info, nowMs);
    if processed.NoEvent? {
      handled := Ignored;
    } else if processed.Thrown? {
      handled := Rejected(processed.error);
    } else {
      var filename := FormattedFilename(local);
      var logLine := FormatLogLine(processed.event);
      ghost var heard, heardOrder := state.routers, state.order;
      var outcome := store.WriteToFile(info.address, filename, logLine, state, faults, nowMs);
      assert state.order == heardOrder by {
        assert info.address in heard;
      }
      if outcome == Written {
        SavedKeepsBound(heard, info.address, nowMs);
        BumpTwice(before, info.address, base, true, nowMs);
      }
      handled := Stored(outcome);
    }
  }
}
