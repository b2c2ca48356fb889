/**
 * The older single-file server (index.js): its `syslogProcessor`, which
 * writes six columns and never throws, and its `/router/:routerId` route,
 * which serves only the router's most recently modified partition. Its
 * `cut`, `timeUtils` and `fileUtils` copies have the same text as the ones
 * in src/ and are modelled once, by `StringUtils`, `TimeUtils` and
 * `FileUtils`.
 */
module Legacy {
  import opened Wrappers
  import opened Text
  import opened TimeUtils
  import opened SyslogProcessor
  import opened FileUtils
  import opened ExpressServer

  /** The record the legacy `processMessage` returns: the connection halves are kept whole. */
  datatype LegacyEvent = LegacyEvent(time: string, userId: string, protocol: string, mac: string, localIp: JsValue, remoteIp: JsValue)

  /** The legacy `processMessage` returns `null` or a record; it has no path that throws. */
  datatype LegacyOutcome = LegacyNoEvent | LegacyRecord(event: LegacyEvent)

  /**
   * The legacy `processMessage(info)`: the same gate, protocol and
   * connection cuts as the current one, the `->` halves kept as `ip:port`
   * text, and the timestamp of `nowMs` itself.
   */
  function LegacyProcessMessage(info: SyslogInfo, nowMs: int): LegacyOutcome
  {
    if !Admitted(info) then LegacyNoEvent
    else
      var halves := Split(Connection(info.msg), "->");
      LegacyRecord(LegacyEvent(FormatDate(UtcFields(nowMs)), UserId(info.msg), Protocol(info.msg), Mac(info.msg),
                               Element(halves, 0), Element(halves, 1)))
  }

  /**
   * The legacy parser answers `null` under the same condition as the current
   * one; otherwise its local half is the text before the first `->`, and
   * its remote half is `undefined` exactly when there is no `->`.
   */
  lemma LegacyOutcomeIff(info: SyslogInfo, nowMs: int)
    ensures LegacyProcessMessage(info, nowMs) == LegacyNoEvent <==> ProcessMessage(info, nowMs) == NoEvent
    ensures LegacyProcessMessage(info, nowMs).LegacyRecord? ==>
              var e := LegacyProcessMessage(info, nowMs).event;
              && e.userId != ""
              && e.localIp.Str? && !Contains(e.localIp.s, "->")
              && (e.remoteIp.Undefined? <==> !Contains(Connection(info.msg), "->"))
  {
    SplitHasSecondPiece(Connection(info.msg), "->");
    if Admitted(info) {
      var halves := Split(Connection(info.msg), "->");
      SplitPiecesAvoidSeparator(Connection(info.msg), "->", 0);
    }
  }

  /**
   * Where the current parser yields a record, the legacy one run six hours
   * later yields the same timestamp, subscriber, protocol and MAC, and its
   * unsplit halves come apart into the current record's endpoints.
   */
  lemma LegacyAgreesWithCurrent(info: SyslogInfo, nowMs: int)
    requires ProcessMessage(info, nowMs).Event?
    ensures LegacyProcessMessage(info, nowMs + SixHoursMs).LegacyRecord?
    ensures var e, prior := ProcessMessage(info, nowMs).event, LegacyProcessMessage(info, nowMs + SixHoursMs).event;
            && prior.time == e.time && prior.userId == e.userId && prior.protocol == e.protocol && prior.mac == e.mac
            && IpPortToIpAndPort(prior.localIp) == Result.Ok(Endpoint(e.localIp, e.localPort))
            && IpPortToIpAndPort(prior.remoteIp) == Result.Ok(Endpoint(e.remoteIp, e.remotePort))
  {
  }

  /** The six values a legacy log line is made of, in order, the protocol inside double quotes. */
  function LegacyLineFields(e: LegacyEvent): (fields: seq<string>)
    ensures |fields| == 6
  {
    [e.time, e.userId, "\"" + e.protocol + "\"", e.mac, Render(e.localIp), Render(e.remoteIp)]
  }

  /** The legacy `formatLogLine(data)`: `time,user_id,"protocol",mac,local_ip,remote_ip` and a newline. */
  function LegacyFormatLogLine(e: LegacyEvent): (line: string)
    ensures EndsWith(line, "\n")
  {
    var body := e.time + "," + e.userId + "," + "\"" + e.protocol + "\"" + "," + e.mac + ","
                + Render(e.localIp) + "," + Render(e.remoteIp);
    EndsWithConcat(body, "\n");
    body + "\n"
  }

  /** Six values joined by a separator, written out. */
  lemma JoinSix(f: seq<string>, sep: string)
    requires |f| == 6
    ensures Join(f, sep) == f[0] + sep + f[1] + sep + f[2] + sep + f[3] + sep + f[4] + sep + f[5]
  {
    assert Join(f[4..], sep) == f[4] + sep + f[5];
    assert Join(f[2..], sep) == f[2] + sep + f[3] + sep + Join(f[4..], sep);
  }

  /**
   * When no value holds a comma, splitting a legacy line (without its
   * newline) at commas gives back exactly its six values.
   */
  lemma LegacyLineColumns(e: LegacyEvent)
    requires forall k :: 0 <= k < 6 ==> ',' !in LegacyLineFields(e)[k]
    ensures var line := LegacyFormatLogLine(e);
            Split(line[..|line| - 1], ",") == LegacyLineFields(e)
  {
    var f := LegacyLineFields(e);
    JoinSix(f, ",");
    var q := "\"";
    var x := e.time + "," + e.userId + ",";
    assert x + (q + e.protocol + q) == x + q + e.protocol + q;
    var line := LegacyFormatLogLine(e);
    assert line[..|line| - 1] == Join(f, ",");
    SplitJoin(f, ",");
  }

  /**
   * The partition `.sort((a, b) => b.mtime - a.mtime)[0]` picks: the first
   * one with the greatest modification time (the sort is stable).
   */
  function Latest(files: seq<LogFile>, mtime: map<string, int>): (k: nat)
    requires |files| > 0 && forall f :: f in files ==> f.path in mtime
    ensures k < |files|
    ensures forall j :: 0 <= j < |files| ==> mtime[files[j].path] <= mtime[files[k].path]
    ensures forall j :: 0 <= j < k ==> mtime[files[j].path] < mtime[files[k].path]
  {
    if |files| == 1 then 0
    else
      var init := files[..|files| - 1];
      assert forall f :: f in init ==> f in files;
      var k := Latest(init, mtime);
      if mtime[files[|files| - 1].path] > mtime[files[k].path] then |files| - 1 else k
  }

  /** The error `res.status(500)` sends. */
  const InternalError := "Internal server error"

  /** The reply of the legacy `/router/:routerId`: lines, a 404, or a 500 when a partition cannot be stat-ed. */
  datatype LegacyReply = LegacySent(body: seq<LogLine>) | LegacyNotFound(error: string) | LegacyFailed(error: string)

  /**
   * The legacy `GET /router/:routerId`: 404 without partitions, 500 when the
   * modification time of one of them cannot be read (`mtime` holds the
   * readable ones, by path), otherwise the lines of the latest partition.
   */
  function LegacyRouterLogs(routerId: string, files: seq<LogFile>, mtime: map<string, int>, contents: map<(string, string), string>)
    : LegacyReply
  {
    var mine := FilesOf(routerId, files);
    if |mine| == 0 then LegacyNotFound(RouterMissing)
    else if exists f :: f in mine && f.path !in mtime then LegacyFailed(InternalError)
    else LegacySent(ReadLogFile(mine[Latest(mine, mtime)], contents))
  }

  /**
   * The legacy route answers 404 exactly when the current one does; when it
   * sends lines, they are the lines of one of the router's partitions, one
   * modified no earlier than any other, and so a part of what the current
   * route sends.
   */
  lemma LegacyServesLatestOnly(routerId: string, files: seq<LogFile>, mtime: map<string, int>, contents: map<(string, string), string>)
    ensures LegacyRouterLogs(routerId, files, mtime, contents).LegacyNotFound?
            <==> RouterLogs(routerId, files, contents).NotFound?
    ensures LegacyRouterLogs(routerId, files, mtime, contents).LegacySent? ==>
              exists f :: && f in files && f.router == routerId
                          && LegacyRouterLogs(routerId, files, mtime, contents).body == ReadLogFile(f, contents)
                          && (forall g :: g in files && g.router == routerId ==> mtime[g.path] <= mtime[f.path])
    ensures LegacyRouterLogs(routerId, files, mtime, contents).LegacySent? ==>
              forall l :: l in LegacyRouterLogs(routerId, files, mtime, contents).body ==> l in RouterLogs(routerId, files, contents).body
  {
    var mine := FilesOf(routerId, files);
    if |mine| > 0 && forall f :: f in mine ==> f.path in mtime {
      var f := mine[Latest(mine, mtime)];
      forall g | g in files && g.router == routerId ensures mtime[g.path] <= mtime[f.path] {
        var j :| 0 <= j < |mine| && mine[j] == g;
      }
      forall l | l in ReadLogFile(f, contents) ensures l in RouterLogs(routerId, files, contents).body {
        ReadAcrossMember(mine, contents, l);
      }
    }
  }
}
