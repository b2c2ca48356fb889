/**
 * `syslogProcessor` (src/syslogProcessor.js): turns one router syslog
 * message into a connection record and the record into one line of a log
 * file. The clock read by `new Date()` is the parameter `nowMs`, the instant
 * in milliseconds since the Unix epoch.
 */
module SyslogProcessor {
  import opened Wrappers
  import opened Text
  import opened StringUtils
  import opened TimeUtils

  /** A JavaScript value that is either a string or `undefined`, as destructuring and indexing past the end produce. */
  datatype JsValue = Str(s: string) | Undefined

  /** How a template literal renders a value: `undefined` becomes the text `undefined`. */
  function Render(v: JsValue): string
  {
    match v
    case Str(s) => s
    case Undefined => "undefined"
  }

  /** `parts[k]`: the k-th piece, or `undefined` past the end. */
  function Element(parts: seq<string>, k: nat): (v: JsValue)
    ensures v.Str? <==> k < |parts|
    ensures v.Str? ==> v.s == parts[k]
  {
    if k < |parts| then Str(parts[k]) else Undefined
  }

  /** The fields of the `info` object the syslog listener hands over. */
  datatype SyslogInfo = SyslogInfo(msg: string, tag: string, address: string)

  /** `{ ip, port }`. */
  datatype Endpoint = Endpoint(ip: JsValue, port: JsValue)

  /** The object `processMessage` returns. */
  datatype ConnectionEvent = ConnectionEvent(
    time: string, routerIp: string, userId: string, protocol: string, mac: string,
    localIp: JsValue, localPort: JsValue, remoteIp: JsValue, remotePort: JsValue,
    natIp: JsValue, natPort: JsValue)

  /** `processMessage` returns `null`, returns a record, or throws. */
  datatype Outcome = NoEvent | Event(event: ConnectionEvent) | Thrown(error: string)

  /** The TypeError raised by calling `.split` on `undefined`. */
  const SplitOfUndefined := "TypeError: Cannot read properties of undefined (reading 'split')"

  /** `ip_port_to_ip_and_port(ip_port)`: the first two pieces of `ip_port.split(':')`; throws when `ip_port` is `undefined`. */
  function IpPortToIpAndPort(ipPort: JsValue): (r: Result<Endpoint>)
    ensures r.Err? <==> ipPort.Undefined?
    ensures r.Ok? ==> r.value.ip.Str?
  {
    match ipPort
    case Undefined => Err(SplitOfUndefined)
    case Str(s) =>
      var pieces := Split(s, ":");
      Ok(Endpoint(Element(pieces, 0), Element(pieces, 1)))
  }

  /** A host or port written without `:` or `-`, as IPv4 addresses and port numbers are. */
  predicate Plain(s: string)
  {
    ':' !in s && '-' !in s
  }

  /** `ip:port` comes apart into its address and its port. */
  lemma EndpointOfPair(ip: string, port: string)
    requires Plain(ip) && Plain(port)
    ensures IpPortToIpAndPort(Str(ip + ":" + port)) == Ok(Endpoint(Str(ip), Str(port)))
  {
    SplitJoin([ip, port], ":");
  }

  /** Text without a `:` is all address, and the port is `undefined`. */
  lemma EndpointWithoutPort(s: string)
    requires ':' !in s
    ensures IpPortToIpAndPort(Str(s)) == Ok(Endpoint(Str(s), Undefined))
  {
    SplitWhole(s, ":");
  }

  /** `cut(info.msg, 'in:<', '>')`: the subscriber id. */
  function UserId(msg: string): string
  {
    Cut(msg, "in:<", ">", false)
  }

  /** `cut(info.msg, 'proto ', ', ')`. */
  function Protocol(msg: string): string
  {
    Cut(msg, "proto ", ", ", false)
  }

  /** `cut(info.msg, protocol + ', ', ', len')`: the protocol text itself opens the connection field. */
  function Connection(msg: string): string
  {
    Cut(msg, Protocol(msg) + ", ", ", len", false)
  }

  /** `cut(info.msg, 'NAT (', ')')`. */
  function NatText(msg: string): string
  {
    Cut(msg, "NAT (", ")", false)
  }

  /** `cut(info.msg, 'src-mac ', ', ')`. */
  function Mac(msg: string): string
  {
    Cut(msg, "src-mac ", ", ", false)
  }

  /** The message passes the gate: tag `prerouting` and a non-empty subscriber id. */
  predicate Admitted(info: SyslogInfo)
  {
    UserId(info.msg) != "" && info.tag == "prerouting"
  }

  /**
   * `processMessage(info)`. The NAT pair is destructured as `{ nat_ip,
   * nat_port }` from an object whose keys are `ip` and `port`, so both
   * fields are always `undefined`; the call on the NAT text's second half
   * still throws when that half is missing. `time` is the instant six hours
   * after `nowMs`, rendered from its UTC fields.
   */
  function ProcessMessage(info: SyslogInfo, nowMs: int): Outcome
  {
    if !Admitted(info) then NoEvent
    else
      var halves := Split(Connection(info.msg), "->");
      var local, remote := IpPortToIpAndPort(Element(halves, 0)), IpPortToIpAndPort(Element(halves, 1));
      if remote.Err? then Thrown(remote.message)
      else
        var natPair := IpPortToIpAndPort(Element(Split(NatText(info.msg), "->"), 1));
        if natPair.Err? then Thrown(natPair.message)
        else
          Event(ConnectionEvent(
            FormatDate(UtcFields(nowMs + SixHoursMs)), info.address, UserId(info.msg), Protocol(info.msg),
            Mac(info.msg), local.value.ip, local.value.port, remote.value.ip, remote.value.port,
            Undefined, Undefined))
  }

  /** `null` comes back exactly when the tag is not `prerouting` or the subscriber id is empty. */
  lemma NullIff(info: SyslogInfo, nowMs: int)
    ensures ProcessMessage(info, nowMs) == NoEvent <==> UserId(info.msg) == "" || info.tag != "prerouting"
  {
  }

  /**
   * An admitted message throws exactly when its connection has no second
   * half around `->` or its NAT text has none; in particular every admitted
   * message without a `NAT (` section throws.
   */
  lemma ThrowsIff(info: SyslogInfo, nowMs: int)
    ensures ProcessMessage(info, nowMs).Thrown?
            <==> Admitted(info) && (!Contains(Connection(info.msg), "->") || !Contains(NatText(info.msg), "->"))
    ensures ProcessMessage(info, nowMs).Thrown? ==> ProcessMessage(info, nowMs).error == SplitOfUndefined
    ensures Admitted(info) && !Contains(info.msg, "NAT (") ==> ProcessMessage(info, nowMs).Thrown?
  {
    SplitHasSecondPiece(Connection(info.msg), "->");
    SplitHasSecondPiece(NatText(info.msg), "->");
    if !Contains(info.msg, "NAT (") {
      CutEmpty(info.msg, "NAT (", ")", false);
      assert !OccursAt(NatText(info.msg), "->", 0);
    }
  }

  /**
   * A record carries the sender's address as `router_ip`, the cut subscriber
   * id, protocol and MAC, and `undefined` NAT fields; its local address is
   * always a string.
   */
  lemma EventFields(info: SyslogInfo, nowMs: int)
    requires ProcessMessage(info, nowMs).Event?
    ensures var e := ProcessMessage(info, nowMs).event;
            && e.routerIp == info.address && e.userId == UserId(info.msg) && e.userId != ""
            && e.protocol == Protocol(info.msg) && e.mac == Mac(info.msg)
            && e.natIp == Undefined && e.natPort == Undefined
            && e.localIp.Str? && e.remoteIp.Str?
  {
  }

  /**
   * With a connection field `li:lp->ri:rp` and a NAT text that has a second
   * half, the message yields a record holding exactly those four pieces.
   */
  lemma EventEndpoints(info: SyslogInfo, nowMs: int, li: string, lp: string, ri: string, rp: string)
    requires Admitted(info)
    requires Plain(li) && Plain(lp) && Plain(ri) && Plain(rp)
    requires Connection(info.msg) == li + ":" + lp + "->" + ri + ":" + rp
    requires Contains(NatText(info.msg), "->")
    ensures ProcessMessage(info, nowMs).Event?
    ensures var e := ProcessMessage(info, nowMs).event;
            e.localIp == Str(li) && e.localPort == Str(lp) && e.remoteIp == Str(ri) && e.remotePort == Str(rp)
  {
    var halves := Split(Connection(info.msg), "->");
    ConnectionHalves(li, lp, ri, rp);
    assert Element(halves, 0) == Str(li + ":" + lp) && Element(halves, 1) == Str(ri + ":" + rp);
    EndpointOfPair(li, lp);
    EndpointOfPair(ri, rp);
    SplitHasSecondPiece(NatText(info.msg), "->");
    assert Element(Split(NatText(info.msg), "->"), 1).Str?;
  }

  /** `li:lp->ri:rp` splits at `->` into its two endpoints. */
  lemma ConnectionHalves(li: string, lp: string, ri: string, rp: string)
    requires Plain(li) && Plain(lp) && Plain(ri) && Plain(rp)
    ensures Split(li + ":" + lp + "->" + ri + ":" + rp, "->") == [li + ":" + lp, ri + ":" + rp]
  {
    assert li + ":" + lp + "->" + ri + ":" + rp == (li + ":" + lp) + "->" + (ri + ":" + rp);
    SplitPairAt(li + ":" + lp, "->", ri + ":" + rp);
  }

  /**
   * The record's timestamp reads back as the UTC fields of the instant six
   * hours after `nowMs`: the hour moves six forward modulo 24 and the minutes
   * and seconds are those of `nowMs`.
   */
  lemma EventTime(info: SyslogInfo, nowMs: int)
    requires nowMs >= 0
    requires ProcessMessage(info, nowMs).Event?
    ensures var t := ParseTimestamp(ProcessMessage(info, nowMs).event.time);
            var before := UtcFields(nowMs);
            && t == Some(UtcFields(nowMs + SixHoursMs))
            && t.value.hours == (before.hours + 6) % 24
            && t.value.minutes == before.minutes && t.value.seconds == before.seconds
  {
    assert ProcessMessage(info, nowMs).event.time == FormatDate(UtcFields(nowMs + SixHoursMs));
    FormatDateRoundTrip(UtcFields(nowMs + SixHoursMs));
    UtcSixHoursLater(nowMs);
  }

  /** The eight values a log line is made of, in order, the protocol inside double quotes. */
  function LineFields(e: ConnectionEvent): (fields: seq<string>)
    ensures |fields| == 8
  {
    [e.time, e.userId, "\"" + e.protocol + "\"", e.mac,
     Render(e.localIp), Render(e.localPort), Render(e.remoteIp), Render(e.remotePort)]
  }

  /** `formatLogLine(data)`: `time,user_id,"protocol",mac,local_ip,local_port,remote_ip,remote_port` and a newline. */
  function FormatLogLine(e: ConnectionEvent): (line: string)
    ensures EndsWith(line, "\n")
  {
    var body := e.time + "," + e.userId + "," + "\"" + e.protocol + "\"" + "," + e.mac + ","
                + Render(e.localIp) + "," + Render(e.localPort) + ","
                + Render(e.remoteIp) + "," + Render(e.remotePort);
    EndsWithConcat(body, "\n");
    body + "\n"
  }

  /** The line is its eight values joined by commas, then a newline. */
  lemma LineIsJoin(e: ConnectionEvent)
    ensures FormatLogLine(e) == Join(LineFields(e), ",") + "\n"
  {
    var f := LineFields(e);
    JoinEight(f, ",");
    var a, b, p, m := e.time, e.userId, e.protocol, e.mac;
    var li, lp, ri, rp := Render(e.localIp), Render(e.localPort), Render(e.remoteIp), Render(e.remotePort);
    var q := "\"";
    var x := a + "," + b + ",";
    assert x + (q + p + q) == x + q + p + q;
  }

  /** Eight values joined by a separator, written out. */
  lemma JoinEight(f: seq<string>, sep: string)
    requires |f| == 8
    ensures Join(f, sep) == f[0] + sep + f[1] + sep + f[2] + sep + f[3] + sep + f[4] + sep + f[5] + sep + f[6] + sep + f[7]
  {
    assert Join(f, sep) == f[0] + sep + Join(f[1..], sep);
    JoinShift(f, sep, 1, f[0]);
    var l2 := f[0] + sep + f[1];
    JoinShift(f, sep, 2, l2);
    var l3 := l2 + sep + f[2];
    JoinShift(f, sep, 3, l3);
    var l4 := l3 + sep + f[3];
    JoinShift(f, sep, 4, l4);
    var l5 := l4 + sep + f[4];
    JoinShift(f, sep, 5, l5);
    var l6 := l5 + sep + f[5];
    JoinShift(f, sep, 6, l6);
    assert Join(f[7..], sep) == f[7];
  }

  /** One more value moves from the rest of a join onto the joined front. */
  lemma JoinShift(f: seq<string>, sep: string, k: nat, front: string)
    requires 1 <= k <= |f| - 2
    ensures front + sep + Join(f[k..], sep) == front + sep + f[k] + sep + Join(f[k + 1..], sep)
  {
    assert f[k..][1..] == f[k + 1..];
    var rest := Join(f[k + 1..], sep);
    assert Join(f[k..], sep) == f[k] + sep + rest;
  }

  /**
   * When no value holds a comma, splitting the line (without its newline) at
   * commas gives back exactly the eight values: the sender address and the
   * NAT fields are never written.
   */
  lemma LineColumns(e: ConnectionEvent)
    requires forall k :: 0 <= k < 8 ==> ',' !in LineFields(e)[k]
    ensures var line := FormatLogLine(e);
            Split(line[..|line| - 1], ",") == LineFields(e)
  {
    LineIsJoin(e);
    var line := FormatLogLine(e);
    assert line[..|line| - 1] == Join(LineFields(e), ",");
    SplitJoin(LineFields(e), ",");
  }

  /** Two records that differ only in `router_ip` and the NAT fields give the same line. */
  lemma LineIgnoresRouterAndNat(e1: ConnectionEvent, e2: ConnectionEvent)
    requires LineFields(e1) == LineFields(e2)
    ensures FormatLogLine(e1) == FormatLogLine(e2)
  {
    LineIsJoin(e1);
    LineIsJoin(e2);
  }
}
