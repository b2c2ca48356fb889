/**
 * The dashboard's uptime text (public/summary.js): the server's uptime in
 * seconds as days, hours, minutes and seconds, each shown only when it is
 * not zero.
 */
module Summary {
  import opened Text

  /** The four components of an uptime. */
  datatype Uptime = Uptime(days: nat, hours: nat, minutes: nat, seconds: nat)

  /** The components `formatUptime` computes with `Math.floor` and `%`. */
  function Components(total: nat): (u: Uptime)
    ensures u.hours < 24 && u.minutes < 60 && u.seconds < 60
    ensures 86400 * u.days + 3600 * u.hours + 60 * u.minutes + u.seconds == total
  {
    var r := total % 86400;
    assert total % 3600 == r % 3600 by {
      assert total == 86400 * (total / 86400) + r;
      assert total == 3600 * (24 * (total / 86400) + r / 3600) + r % 3600;
    }
    assert r == 3600 * (r / 3600) + 60 * ((total % 3600) / 60) + total % 60 by {
      assert total % 60 == (total % 3600) % 60 by {
        assert total == 3600 * (total / 3600) + total % 3600;
        assert total == 60 * (60 * (total / 3600) + (total % 3600) / 60) + (total % 3600) % 60;
      }
    }
    Uptime(total / 86400, r / 3600, (total % 3600) / 60, total % 60)
  }

  /** A component written as its number and its unit letter. */
  function Part(n: nat, unit: char): string
  {
    NatToString(n) + [unit]
  }

  /** The parts `formatUptime` pushes: the non-zero components in the order days, hours, minutes, seconds. */
  function UptimeParts(total: nat): seq<string>
  {
    PartsOf(Components(total))
  }

  /** The parts of given components. */
  function PartsOf(u: Uptime): seq<string>
  {
    OptionalPart(u.days, 'd') + OptionalPart(u.hours, 'h')
    + OptionalPart(u.minutes, 'm') + OptionalPart(u.seconds, 's')
  }

  /** A component is pushed only when it is not zero. */
  function OptionalPart(n: nat, unit: char): seq<string>
  {
    if n > 0 then [Part(n, unit)] else []
  }

  /** `formatUptime(seconds)`: each non-zero component is pushed in turn, and the parts are joined by single spaces. */
  method FormatUptime(total: nat) returns (text: string)
    ensures text == Join(UptimeParts(total), " ")
  {
    var days := total / 86400;
    var hours := (total % 86400) / 3600;
    var minutes := (total % 3600) / 60;
    var remainingSeconds := total % 60;
    ghost var u := Components(total);
    assert u == Uptime(days, hours, minutes, remainingSeconds);
    var parts: seq<string> := [];
    if days > 0 {
      parts := parts + [Part(days, 'd')];
    }
    ghost var upToDays := parts;
    if hours > 0 {
      parts := parts + [Part(hours, 'h')];
    }
    ghost var upToHours := parts;
    if minutes > 0 {
      parts := parts + [Part(minutes, 'm')];
    }
    ghost var upToMinutes := parts;
    if remainingSeconds > 0 {
      parts := parts + [Part(remainingSeconds, 's')];
    }
    assert parts == upToMinutes + (if remainingSeconds > 0 then [Part(remainingSeconds, 's')] else []);
    assert upToMinutes == upToHours + (if minutes > 0 then [Part(minutes, 'm')] else []);
    assert upToHours == upToDays + (if hours > 0 then [Part(hours, 'h')] else []);
    assert upToDays == (if days > 0 then [Part(days, 'd')] else []);
    text := Join(parts, " ");
  }

  /** The seconds one unit letter stands for. */
  function UnitSeconds(unit: char): nat
  {
    match unit
    case 'd' => 86400
    case 'h' => 3600
    case 'm' => 60
    case 's' => 1
    case _ => 0
  }

  /** The seconds one part of the text stands for. */
  function PartValue(p: string): nat
  {
    if |p| >= 1 && AllDigits(p[..|p| - 1]) then DigitsValue(p[..|p| - 1]) * UnitSeconds(p[|p| - 1]) else 0
  }

  function SumParts(parts: seq<string>): nat
  {
    if parts == [] then 0 else PartValue(parts[0]) + SumParts(parts[1..])
  }

  /** Reading an uptime text back: the sum of its space-separated parts. */
  function ParseUptime(text: string): nat
  {
    if text == "" then 0 else SumParts(Split(text, " "))
  }

  lemma {:induction false} SumPartsAppend(a: seq<string>, b: seq<string>)
    ensures SumParts(a + b) == SumParts(a) + SumParts(b)
    decreases |a|
  {
    if a != [] {
      assert (a + b)[1..] == a[1..] + b;
      SumPartsAppend(a[1..], b);
    } else {
      assert a + b == b;
    }
  }

  /** A written component reads back as its number of seconds. */
  lemma PartRoundTrip(n: nat, unit: char)
    ensures PartValue(Part(n, unit)) == n * UnitSeconds(unit)
    ensures ' ' !in Part(n, unit) || unit == ' '
  {
    var p := Part(n, unit);
    assert p[..|p| - 1] == NatToString(n);
    DigitsValueOfNatToString(n);
    DigitsAvoid(NatToString(n), ' ');
  }

  /** The optional part of one component contributes its seconds to the sum. */
  lemma OptionalPartSum(n: nat, unit: char)
    ensures SumParts(OptionalPart(n, unit)) == UnitSeconds(unit) * n
  {
    PartRoundTrip(n, unit);
    assert SumParts([Part(n, unit)]) == PartValue(Part(n, unit)) + SumParts([]);
  }

  /** The text is empty exactly for an uptime of zero seconds. */
  lemma EmptyIffZero(total: nat)
    ensures Join(UptimeParts(total), " ") == "" <==> total == 0
  {
    var parts := UptimeParts(total);
    if total > 0 {
      assert |parts| >= 1;
      assert |Join(parts, " ")| >= |parts[0]|;
      var u := Components(total);
      assert parts[0] in [Part(u.days, 'd'), Part(u.hours, 'h'), Part(u.minutes, 'm'), Part(u.seconds, 's')];
    }
  }

  /** The parts add up to the uptime: 86400 per day, 3600 per hour, 60 per minute, 1 per second. */
  lemma SumOfParts(total: nat)
    ensures SumParts(UptimeParts(total)) == total
  {
    PartsOfSum(Components(total));
  }

  /** The parts of any components add up to their weighted sum. */
  lemma PartsOfSum(u: Uptime)
    ensures SumParts(PartsOf(u)) == 86400 * u.days + 3600 * u.hours + 60 * u.minutes + u.seconds
  {
    var a, b, c, d := OptionalPart(u.days, 'd'), OptionalPart(u.hours, 'h'),
      OptionalPart(u.minutes, 'm'), OptionalPart(u.seconds, 's');
    assert UnitSeconds('d') == 86400 && UnitSeconds('h') == 3600;
    assert UnitSeconds('m') == 60 && UnitSeconds('s') == 1;
    OptionalPartSum(u.days, 'd');
    OptionalPartSum(u.hours, 'h');
    OptionalPartSum(u.minutes, 'm');
    OptionalPartSum(u.seconds, 's');
    SumFour(a, b, c, d);
  }

  lemma SumFour(a: seq<string>, b: seq<string>, c: seq<string>, d: seq<string>)
    ensures SumParts(a + b + c + d) == SumParts(a) + SumParts(b) + SumParts(c) + SumParts(d)
  {
    SumPartsAppend(a, b);
    SumPartsAppend(a + b, c);
    SumPartsAppend(a + b + c, d);
  }

  /** No part holds a space. */
  lemma PartsAvoidSpace(total: nat)
    ensures forall k :: 0 <= k < |UptimeParts(total)| ==> ' ' !in UptimeParts(total)[k]
  {
    var u := Components(total);
    PartRoundTrip(u.days, 'd');
    PartRoundTrip(u.hours, 'h');
    PartRoundTrip(u.minutes, 'm');
    PartRoundTrip(u.seconds, 's');
    var parts := UptimeParts(total);
    forall k | 0 <= k < |parts| ensures ' ' !in parts[k] {
      assert parts[k] in parts;
    }
  }

  /** Reading the text back gives the uptime it was written from: the text loses nothing. */
  lemma ParseFormatUptime(total: nat)
    ensures ParseUptime(Join(UptimeParts(total), " ")) == total
  {
    SumOfParts(total);
    EmptyIffZero(total);
    if total > 0 {
      PartsAvoidSpace(total);
      SplitJoin(UptimeParts(total), " ");
    }
  }
}
