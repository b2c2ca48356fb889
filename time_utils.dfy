/**
 * `timeUtils` (src/timeUtils.js): the record timestamp, the hourly bucket
 * file name and the console uptime text. The clock is never read here: an
 * instant is passed in as milliseconds since the Unix epoch, or as the
 * calendar fields a `Date` reports for it.
 */
module TimeUtils {
  import opened Wrappers
  import opened Text

  /** The fields of a `Date`: full year, month counted from 0 as `getMonth()` does, day of month, time of day. */
  datatype DateTime = DateTime(year: int, month: int, day: int, hours: int, minutes: int, seconds: int)

  /** Each field within its range, the day at most 31. */
  predicate FieldRanges(d: DateTime)
  {
    0 <= d.month < 12 && 1 <= d.day <= 31 && 0 <= d.hours < 24 && 0 <= d.minutes < 60 && 0 <= d.seconds < 60
  }

  /** The fields of a real date, as a `Date` reports them: the day within its month's length. */
  predicate ValidFields(d: DateTime)
  {
    FieldRanges(d) && d.day <= MonthLength(d.year, d.month + 1)
  }

  const MsPerSecond := 1000
  const MsPerMinute := 60000
  const MsPerHour := 3600000
  const MsPerDay := 86400000

  /** The offset `processMessage` adds to the current instant: six hours. */
  const SixHoursMs := 6 * 60 * 60 * 1000

  /** A Gregorian leap year. */
  predicate IsLeap(y: int)
  {
    (y % 4 == 0 && y % 100 != 0) || y % 400 == 0
  }

  function YearLength(y: int): int
  {
    if IsLeap(y) then 366 else 365
  }

  /** The number of days in month `m` (1..12) of a leap or a common year. */
  function DaysInMonth(leap: bool, m: int): (n: int)
    ensures 28 <= n <= 31
  {
    if m == 2 then (if leap then 29 else 28)
    else if m == 4 || m == 6 || m == 9 || m == 11 then 30
    else 31
  }

  /** The number of days in month `m` (1..12) of year `y`. */
  function MonthLength(y: int, m: int): (n: int)
    ensures 28 <= n <= 31
  {
    DaysInMonth(IsLeap(y), m)
  }

  /** The days from the first of month `m` to the end of the year. */
  function DaysFrom(leap: bool, m: int): int
    requires 1 <= m <= 12
    decreases 12 - m
  {
    if m == 12 then DaysInMonth(leap, 12) else DaysInMonth(leap, m) + DaysFrom(leap, m + 1)
  }

  /** The months of a year add up to its length. */
  lemma MonthsFillYear(y: int)
    ensures DaysFrom(IsLeap(y), 1) == YearLength(y)
  {
    var leap := IsLeap(y);
    assert DaysFrom(leap, 10) == 92;
    assert DaysFrom(leap, 7) == 184;
    assert DaysFrom(leap, 4) == 275;
  }

  /** The year and the day within it (from 0) of the day `z` days after 1 January of year `y`. */
  function YearAndDay(y: int, z: int): (r: (int, int))
    ensures 0 <= r.1 < YearLength(r.0)
    ensures z >= 0 ==> r.0 >= y
    decreases if z < 0 then 1 else 0, if z < 0 then -z else z
  {
    if z < 0 then YearAndDay(y - 1, z + YearLength(y - 1))
    else if z >= YearLength(y) then YearAndDay(y + 1, z - YearLength(y))
    else (y, z)
  }

  /** The month (1..12) and day of the month of the day `z` days after the first of month `m`. */
  function MonthAndDay(leap: bool, m: int, z: int): (r: (int, int))
    requires 1 <= m <= 12 && 0 <= z < DaysFrom(leap, m)
    ensures m <= r.0 <= 12 && 1 <= r.1 <= DaysInMonth(leap, r.0)
    decreases 12 - m
  {
    if m == 12 || z < DaysInMonth(leap, m) then (m, z + 1)
    else MonthAndDay(leap, m + 1, z - DaysInMonth(leap, m))
  }

  /** The proleptic Gregorian (year, month 1..12, day) of the day `z` days after 1970-01-01. */
  function CivilFromDays(z: int): (r: (int, int, int))
    ensures 1 <= r.1 <= 12 && 1 <= r.2 <= MonthLength(r.0, r.1)
    ensures z >= 0 ==> r.0 >= 1970
  {
    var (y, doy) := YearAndDay(1970, z);
    MonthsFillYear(y);
    var (m, d) := MonthAndDay(IsLeap(y), 1, doy);
    (y, m, d)
  }

  /** The days from 1 January 1970 to 1 January of year `y` (negative before 1970). */
  function DaysBeforeYear(y: int): int
    decreases if y >= 1970 then y - 1970 else 1970 - y
  {
    if y == 1970 then 0
    else if y > 1970 then DaysBeforeYear(y - 1) + YearLength(y - 1)
    else DaysBeforeYear(y + 1) - YearLength(y)
  }

  /** The days from 1 January to the first of month `m` (1..13). */
  function DaysBeforeMonth(leap: bool, m: int): int
    decreases m
  {
    if m <= 1 then 0 else DaysBeforeMonth(leap, m - 1) + DaysInMonth(leap, m - 1)
  }

  /** The day number of the date (year, month 1..12, day), counted from 1970-01-01 as day 0. */
  function DaysFromCivil(y: int, m: int, d: int): int
  {
    DaysBeforeYear(y) + DaysBeforeMonth(IsLeap(y), m) + d - 1
  }

  lemma DaysBeforeYearStep(y: int)
    ensures DaysBeforeYear(y + 1) == DaysBeforeYear(y) + YearLength(y)
  {
  }

  /** A year later, a whole year more of days has passed. */
  lemma {:induction false} DaysBeforeYearGrows(a: int, b: int)
    requires a < b
    ensures DaysBeforeYear(b) >= DaysBeforeYear(a) + YearLength(a)
    decreases b - a
  {
    DaysBeforeYearStep(b - 1);
    if a < b - 1 {
      DaysBeforeYearGrows(a, b - 1);
    }
  }

  /** The months before `m` and the months from `m` on fill the same total. */
  lemma {:induction false} MonthsBeforeAndFrom(leap: bool, m: int)
    requires 1 <= m <= 12
    ensures DaysBeforeMonth(leap, m) + DaysFrom(leap, m) == DaysFrom(leap, 1)
    decreases m
  {
    if m > 1 {
      MonthsBeforeAndFrom(leap, m - 1);
    }
  }

  /** A later month starts at least a whole month later. */
  lemma {:induction false} DaysBeforeMonthGrows(leap: bool, a: int, b: int)
    requires 1 <= a < b
    ensures DaysBeforeMonth(leap, b) >= DaysBeforeMonth(leap, a) + DaysInMonth(leap, a)
    decreases b - a
  {
    if a < b - 1 {
      DaysBeforeMonthGrows(leap, a, b - 1);
    }
  }

  /** `YearAndDay` keeps the day number: its year's start plus the day within it is where it started from. */
  lemma {:induction false} YearAndDayKeepsDays(y: int, z: int)
    ensures var r := YearAndDay(y, z);
            DaysBeforeYear(r.0) + r.1 == DaysBeforeYear(y) + z
    decreases if z < 0 then 1 else 0, if z < 0 then -z else z
  {
    if z < 0 {
      YearAndDayKeepsDays(y - 1, z + YearLength(y - 1));
      DaysBeforeYearStep(y - 1);
    } else if z >= YearLength(y) {
      YearAndDayKeepsDays(y + 1, z - YearLength(y));
      DaysBeforeYearStep(y);
    }
  }

  /** `MonthAndDay` keeps the day within the year. */
  lemma {:induction false} MonthAndDayKeepsDays(leap: bool, m: int, z: int)
    requires 1 <= m <= 12 && 0 <= z < DaysFrom(leap, m)
    ensures var r := MonthAndDay(leap, m, z);
            DaysBeforeMonth(leap, r.0) + r.1 - 1 == DaysBeforeMonth(leap, m) + z
    decreases 12 - m
  {
    if !(m == 12 || z < DaysInMonth(leap, m)) {
      MonthAndDayKeepsDays(leap, m + 1, z - DaysInMonth(leap, m));
    }
  }

  /** Every day number is the day number of the date `CivilFromDays` gives it. */
  lemma CivilRoundTrip(z: int)
    ensures var r := CivilFromDays(z);
            DaysFromCivil(r.0, r.1, r.2) == z
  {
    var (y, doy) := YearAndDay(1970, z);
    YearAndDayKeepsDays(1970, z);
    MonthsFillYear(y);
    MonthAndDayKeepsDays(IsLeap(y), 1, doy);
  }

  /** Counting from year `y0`, the day `doy` of year `y` is found in year `y` at `doy`. */
  lemma {:induction false} YearAndDayOf(y0: int, y: int, doy: int, z: int)
    requires 0 <= doy < YearLength(y)
    requires z == DaysBeforeYear(y) - DaysBeforeYear(y0) + doy
    ensures YearAndDay(y0, z) == (y, doy)
    decreases if y >= y0 then y - y0 else y0 - y
  {
    if y > y0 {
      DaysBeforeYearGrows(y0, y);
      DaysBeforeYearStep(y0);
      YearAndDayOf(y0 + 1, y, doy, z - YearLength(y0));
    } else if y < y0 {
      DaysBeforeYearGrows(y, y0);
      DaysBeforeYearStep(y0 - 1);
      YearAndDayOf(y0 - 1, y, doy, z + YearLength(y0 - 1));
    }
  }

  /** Counting from month `m0`, the day `d` of month `m` is found in month `m` at `d`. */
  lemma {:induction false} MonthAndDayOf(leap: bool, m0: int, m: int, d: int, z: int)
    requires 1 <= m0 <= m <= 12 && 1 <= d <= DaysInMonth(leap, m)
    requires z == DaysBeforeMonth(leap, m) - DaysBeforeMonth(leap, m0) + d - 1
    requires 0 <= z < DaysFrom(leap, m0)
    ensures MonthAndDay(leap, m0, z) == (m, d)
    decreases m - m0
  {
    if m0 < m {
      var len := DaysInMonth(leap, m0);
      DaysBeforeMonthGrows(leap, m0, m);
      assert DaysBeforeMonth(leap, m0 + 1) == DaysBeforeMonth(leap, m0) + len;
      assert DaysFrom(leap, m0) == len + DaysFrom(leap, m0 + 1);
      MonthAndDayOf(leap, m0 + 1, m, d, z - len);
    }
  }

  /** Every valid date is the date of its own day number. */
  lemma CivilOfDays(y: int, m: int, d: int)
    requires 1 <= m <= 12 && 1 <= d <= MonthLength(y, m)
    ensures CivilFromDays(DaysFromCivil(y, m, d)) == (y, m, d)
  {
    var leap := IsLeap(y);
    var doy := DaysBeforeMonth(leap, m) + d - 1;
    var z := DaysFromCivil(y, m, d);
    MonthsBeforeAndFrom(leap, m);
    MonthsFillYear(y);
    assert 0 <= doy < YearLength(y) by {
      if m > 1 {
        DaysBeforeMonthGrows(leap, 1, m);
      }
    }
    YearAndDayOf(1970, y, doy, z);
    MonthAndDayOf(leap, 1, m, d, doy);
  }


  /** The day number (days since 1970-01-01, rounded down) of an instant. */
  function EpochDay(ms: int): int
  {
    ms / MsPerDay
  }

  /** The hour, minute and second `t` milliseconds into a day. */
  function ClockOf(t: int): (int, int, int)
  {
    (t / MsPerHour, (t / MsPerMinute) % 60, (t / MsPerSecond) % 60)
  }

  /** The UTC hour, minute and second of an instant. */
  function TimeOfDay(ms: int): (hms: (int, int, int))
    ensures 0 <= hms.0 < 24 && 0 <= hms.1 < 60 && 0 <= hms.2 < 60
  {
    ClockOf(ms % MsPerDay)
  }

  /** `getUTCFullYear()`, `getUTCMonth()`, `getUTCDate()`, `getUTCHours()`, `getUTCMinutes()`, `getUTCSeconds()`. */
  function UtcFields(ms: int): (d: DateTime)
    ensures ValidFields(d)
    ensures ms >= 0 ==> d.year >= 1970
  {
    var (y, m, day) := CivilFromDays(EpochDay(ms));
    var (h, mi, s) := TimeOfDay(ms);
    DateTime(y, m - 1, day, h, mi, s)
  }

  /** Euclidean division is determined by any quotient and remainder that rebuild the dividend. */
  lemma DivModUnique(x: int, d: int, q: int, r: int)
    requires d > 0 && 0 <= r < d && x == q * d + r
    ensures x / d == q && x % d == r
  {
    var k := q - x / d;
    assert k * d == x % d - r;
    MultipleBound(k, d);
  }

  /** A non-zero multiple of a positive number is at least that number in size. */
  lemma MultipleBound(k: int, d: int)
    requires d > 0
    ensures k > 0 ==> k * d >= d
    ensures k < 0 ==> k * d <= -d
  {
    if k > 0 {
      ProductNonNegative(k - 1, d);
      assert k * d == (k - 1) * d + d;
    } else if k < 0 {
      ProductNonNegative(-k - 1, d);
      assert k * d == -((-k - 1) * d) - d;
    }
  }

  lemma {:induction false} ProductNonNegative(a: nat, b: nat)
    ensures a * b >= 0
  {
    if a > 0 {
      ProductNonNegative(a - 1, b);
      assert a * b == (a - 1) * b + b;
    }
  }

  lemma DivShift(x: int, q: int, d: int)
    requires d > 0
    ensures (x + q * d) / d == x / d + q && (x + q * d) % d == x % d
  {
    assert x + q * d == (x / d + q) * d + x % d;
    DivModUnique(x + q * d, d, x / d + q, x % d);
  }
  lemma ClockShift(t: int, c: int)
    ensures ClockOf(t + c * MsPerHour) == (ClockOf(t).0 + c, ClockOf(t).1, ClockOf(t).2)
  {
    DivShift(t, c, MsPerHour);
    DivShift(t, 60 * c, MsPerMinute);
    assert t + c * MsPerHour == t + (60 * c) * MsPerMinute;
    DivShift(t / MsPerMinute, c, 60);
    DivShift(t, 3600 * c, MsPerSecond);
    assert t + c * MsPerHour == t + (3600 * c) * MsPerSecond;
    DivShift(t / MsPerSecond, 60 * c, 60);
  }
  /**
   * Adding six hours to an instant moves its UTC hour six forward modulo 24,
   * keeps its minutes and seconds, and moves to the next day exactly when the
   * hour was 18 or later.
   */
  lemma SixHoursLater(ms: int)
    ensures var before, after := TimeOfDay(ms), TimeOfDay(ms + SixHoursMs);
            && after.0 == (before.0 + 6) % 24
            && after.1 == before.1 && after.2 == before.2
            && EpochDay(ms + SixHoursMs) == EpochDay(ms) + (if before.0 >= 18 then 1 else 0)
  {
    var t := ms % MsPerDay;
    var day := EpochDay(ms);
    assert ms == t + day * MsPerDay;
    var h := t / MsPerHour;
    if t < 18 * MsPerHour {
      assert h < 18;
      DivModUnique(ms + SixHoursMs, MsPerDay, day, t + 6 * MsPerHour);
      ClockShift(t, 6);
    } else {
      assert h >= 18;
      DivModUnique(ms + SixHoursMs, MsPerDay, day + 1, t - 18 * MsPerHour);
      ClockShift(t, -18);
    }
  }

  /** `formatDate(dateString)`: `YYYY-MM-DD HH:MM:SS` with the month counted from 1 and every field but the year padded to two digits. */
  function FormatDate(d: DateTime): string
  {
    IntToString(d.year) + "-" + Pad2(d.month + 1) + "-" + Pad2(d.day) + " "
    + Pad2(d.hours) + ":" + Pad2(d.minutes) + ":" + Pad2(d.seconds)
  }

  /** The number in a non-empty run of digits. */
  function Number(s: string): Option<nat>
  {
    if |s| > 0 && AllDigits(s) then Some(DigitsValue(s)) else None
  }

  /** Reads a `Y-M-D H:M:S` timestamp back into its fields by splitting it at its separators. */
  function ParseTimestamp(s: string): Option<DateTime>
  {
    var halves := Split(s, " ");
    if |halves| != 2 then None
    else ReadFields(Split(halves[0], "-"), Split(halves[1], ":"))
  }

  /** The fields named by three date pieces and three clock pieces, when all six are digit runs. */
  function ReadFields(date: seq<string>, clock: seq<string>): Option<DateTime>
  {
    if |date| != 3 || |clock| != 3 then None
    else
      var y, mo, d := Number(date[0]), Number(date[1]), Number(date[2]);
      var h, mi, se := Number(clock[0]), Number(clock[1]), Number(clock[2]);
      if y.Some? && mo.Some? && d.Some? && h.Some? && mi.Some? && se.Some?
      then Some(DateTime(y.value, mo.value as int - 1, d.value, h.value, mi.value, se.value))
      else None
  }

  /** Three digit runs joined by a one-character non-digit separator split back into the three runs. */
  lemma SplitTriple(a: string, sep: string, b: string, c: string)
    requires |sep| == 1 && !IsDigit(sep[0]) && AllDigits(a) && AllDigits(b) && AllDigits(c)
    ensures Split(a + sep + b + sep + c, sep) == [a, b, c]
  {
    DigitsAvoid(a, sep[0]);
    DigitsAvoid(b, sep[0]);
    DigitsAvoid(c, sep[0]);
    assert a + sep + b + sep + c == a + sep + (b + sep + c);
    SplitAfterSeparator(a, sep, b + sep + c);
    SplitPairAt(b, sep, c);
  }

  /** A digit run joined to two more by a one-character non-digit separator holds no space. */
  lemma TripleAvoidsSpace(a: string, sep: string, b: string, c: string)
    requires |sep| == 1 && sep[0] != ' ' && AllDigits(a) && AllDigits(b) && AllDigits(c)
    ensures ' ' !in a + sep + b + sep + c
  {
    DigitsAvoid(a, ' ');
    DigitsAvoid(b, ' ');
    DigitsAvoid(c, ' ');
  }

  /** The decimal rendering of a non-negative number reads back as that number. */
  lemma NumberOfRendering(n: nat)
    ensures Number(IntToString(n)) == Some(n)
  {
    DigitsValueOfNatToString(n);
  }

  /** A two-digit padded number below 100 reads back as that number. */
  lemma NumberOfPadded(i: int)
    requires 0 <= i < 100
    ensures Number(Pad2(i)) == Some(i)
  {
  }

  /** Six pieces that read as numbers give the date with those fields, the month moved down by one. */
  lemma ReadNumbers(y: string, mo: string, da: string, h: string, mi: string, se: string,
                    vy: nat, vmo: nat, vda: nat, vh: nat, vmi: nat, vse: nat)
    requires Number(y) == Some(vy) && Number(mo) == Some(vmo) && Number(da) == Some(vda)
    requires Number(h) == Some(vh) && Number(mi) == Some(vmi) && Number(se) == Some(vse)
    ensures ReadFields([y, mo, da], [h, mi, se]) == Some(DateTime(vy, vmo - 1, vda, vh, vmi, vse))
  {
  }

  /** A timestamp whose two halves hold no space is read by splitting each half at its own separator. */
  lemma ParseHalves(date: string, clock: string)
    requires ' ' !in date && ' ' !in clock
    ensures ParseTimestamp(date + " " + clock) == ReadFields(Split(date, "-"), Split(clock, ":"))
  {
    SplitPairAt(date, " ", clock);
  }

  /** A timestamp assembled from digit runs splits back into those runs. */
  lemma SplitAssembled(y: string, mo: string, da: string, h: string, mi: string, se: string)
    requires AllDigits(y) && AllDigits(mo) && AllDigits(da) && AllDigits(h) && AllDigits(mi) && AllDigits(se)
    ensures ParseTimestamp(y + "-" + mo + "-" + da + " " + h + ":" + mi + ":" + se) == ReadFields([y, mo, da], [h, mi, se])
  {
    var date, clock := y + "-" + mo + "-" + da, h + ":" + mi + ":" + se;
    assert y + "-" + mo + "-" + da + " " + h + ":" + mi + ":" + se == date + " " + clock;
    TripleAvoidsSpace(y, "-", mo, da);
    TripleAvoidsSpace(h, ":", mi, se);
    ParseHalves(date, clock);
    SplitTriple(y, "-", mo, da);
    SplitTriple(h, ":", mi, se);
  }

  /** The timestamp of a date with a non-negative year reads back to the same fields; with a four-digit year it is 19 characters long. */
  lemma FormatDateRoundTrip(d: DateTime)
    requires FieldRanges(d) && d.year >= 0
    ensures ParseTimestamp(FormatDate(d)) == Some(d)
    ensures 1000 <= d.year <= 9999 ==> |FormatDate(d)| == 19
  {
    NatToStringLength(d.year);
    var y, mo, da := IntToString(d.year), Pad2(d.month + 1), Pad2(d.day);
    var h, mi, se := Pad2(d.hours), Pad2(d.minutes), Pad2(d.seconds);
    SplitAssembled(y, mo, da, h, mi, se);
    NumberOfRendering(d.year);
    NumberOfPadded(d.month + 1);
    NumberOfPadded(d.day);
    NumberOfPadded(d.hours);
    NumberOfPadded(d.minutes);
    NumberOfPadded(d.seconds);
    ReadNumbers(y, mo, da, h, mi, se, d.year, d.month + 1, d.day, d.hours, d.minutes, d.seconds);
  }

  /** Six hours later the UTC hour is six further on modulo 24, with the same minutes and seconds. */
  lemma UtcSixHoursLater(ms: int)
    ensures UtcFields(ms + SixHoursMs).hours == (UtcFields(ms).hours + 6) % 24
    ensures UtcFields(ms + SixHoursMs).minutes == UtcFields(ms).minutes
    ensures UtcFields(ms + SixHoursMs).seconds == UtcFields(ms).seconds
  {
    UtcClock(ms);
    UtcClock(ms + SixHoursMs);
    SixHoursLater(ms);
  }

  /** The UTC hour, minute and second of an instant are those of its time of day. */
  lemma UtcClock(ms: int)
    ensures var d := UtcFields(ms);
            (d.hours, d.minutes, d.seconds) == TimeOfDay(ms)
  {
  }

  /** The hour, minute and second of a time of day, with its leftover milliseconds, add back up to it. */
  lemma ClockRebuild(t: int)
    requires t >= 0
    ensures var c := ClockOf(t);
            t == c.0 * MsPerHour + c.1 * MsPerMinute + c.2 * MsPerSecond + t % MsPerSecond
  {
    var s, r := t / MsPerSecond, t % MsPerSecond;
    DivModUnique(t, MsPerMinute, s / 60, (s % 60) * MsPerSecond + r);
    var m := t / MsPerMinute;
    assert t == m * MsPerMinute + (s % 60) * MsPerSecond + r;
    DivModUnique(t, MsPerHour, m / 60, (m % 60) * MsPerMinute + (s % 60) * MsPerSecond + r);
  }

  /**
   * The UTC fields of an instant pin it down to the second: their date is
   * the instant's day number, and date and clock add back up to the instant
   * without its milliseconds.
   */
  lemma UtcFieldsRebuild(ms: int)
    ensures var d := UtcFields(ms);
            && DaysFromCivil(d.year, d.month + 1, d.day) == EpochDay(ms)
            && ms == DaysFromCivil(d.year, d.month + 1, d.day) * MsPerDay
                     + d.hours * MsPerHour + d.minutes * MsPerMinute + d.seconds * MsPerSecond + ms % MsPerSecond
  {
    var day, t := EpochDay(ms), ms % MsPerDay;
    CivilRoundTrip(day);
    ClockRebuild(t);
    UtcClock(ms);
    assert ms == t + day * MsPerDay;
    DivShift(t, day * 86400, MsPerSecond);
    assert t + (day * 86400) * MsPerSecond == ms;
  }

  /** `now.getHours() % 12 || 12`: the hour on a 12-hour clock. */
  function ClockHour(hours: int): int
  {
    var r := JsRemainder(hours, 12);
    if r == 0 then 12 else r
  }

  /** JavaScript `%`: the remainder takes the sign of the dividend. */
  function JsRemainder(a: int, b: int): int
    requires b > 0
  {
    if a >= 0 then a % b else -((-a) % b)
  }

  /** `now.getHours() >= 12 ? 'PM' : 'AM'`. */
  function Period(hours: int): string
  {
    if hours >= 12 then "PM" else "AM"
  }

  /** The 12-hour clock hour lies in 1..12, and the period is PM exactly from hour 12 on. */
  lemma ClockHourRange(hours: int)
    requires 0 <= hours < 24
    ensures 1 <= ClockHour(hours) <= 12
    ensures Period(hours) == "PM" <==> hours >= 12
    ensures ClockHour(hours) == if hours == 0 || hours == 12 then 12 else hours % 12
  {
  }

  /** `DD-MM-YY` from `getDate()`, `getMonth() + 1` and the last two characters of `getFullYear()`. */
  function DatePart(local: DateTime): string
  {
    Pad2(local.day) + "-" + Pad2(local.month + 1) + "-" + LastTwo(IntToString(local.year))
  }

  /**
   * `getFormattedFilename(router)`: `DD-MM-YY H-00 AM.log` from the local
   * calendar fields of the current instant. The router argument is unused by
   * the source, so it is not a parameter here.
   */
  function FormattedFilename(local: DateTime): (name: string)
    ensures EndsWith(name, ".log")
  {
    var stem := DatePart(local) + " " + IntToString(ClockHour(local.hours)) + "-00 " + Period(local.hours);
    EndsWithConcat(stem, ".log");
    stem + ".log"
  }

  /** The 12-hour clock hour and the period together give back the hour of the day. */
  lemma ClockHourInjective(h1: int, h2: int)
    requires 0 <= h1 < 24 && 0 <= h2 < 24
    requires ClockHour(h1) == ClockHour(h2) && Period(h1) == Period(h2)
    ensures h1 == h2
  {
    ClockHourRange(h1);
    ClockHourRange(h2);
  }

  /** With a year of at least two digits, `DD-MM-YY` is eight characters long. */
  lemma DatePartLength(d: DateTime)
    requires FieldRanges(d) && d.year >= 10
    ensures |DatePart(d)| == 8
  {
    NatToStringLength(d.year);
  }

  /** With years of at least two digits, `DD-MM-YY` tells apart day, month and the last two year digits. */
  lemma DatePartIff(a: DateTime, b: DateTime)
    requires FieldRanges(a) && FieldRanges(b) && a.year >= 10 && b.year >= 10
    ensures DatePart(a) == DatePart(b)
            <==> a.day == b.day && a.month == b.month && LastTwo(IntToString(a.year)) == LastTwo(IntToString(b.year))
  {
    if DatePart(a) == DatePart(b) {
      DatePartInjective(a, b);
    }
  }

  lemma DatePartInjective(a: DateTime, b: DateTime)
    requires FieldRanges(a) && FieldRanges(b) && DatePart(a) == DatePart(b)
    ensures a.day == b.day && a.month == b.month && LastTwo(IntToString(a.year)) == LastTwo(IntToString(b.year))
  {
    PaddedPairInjective(a.day, a.month + 1, LastTwo(IntToString(a.year)), b.day, b.month + 1, LastTwo(IntToString(b.year)));
  }

  /** Two two-digit numbers and a tail, joined by dashes, come apart again. */
  lemma PaddedPairInjective(x: int, y: int, z: string, x': int, y': int, z': string)
    requires 0 <= x < 100 && 0 <= y < 100 && 0 <= x' < 100 && 0 <= y' < 100
    requires Pad2(x) + "-" + Pad2(y) + "-" + z == Pad2(x') + "-" + Pad2(y') + "-" + z'
    ensures x == x' && y == y' && z == z'
  {
    CancelTriple(Pad2(x), Pad2(y), z, Pad2(x'), Pad2(y'), z', "-");
    Pad2Injective(x, x');
    Pad2Injective(y, y');
  }

  /** Three pieces joined by one separator come apart again when the first two match in length. */
  lemma CancelTriple(x1: string, x2: string, x3: string, y1: string, y2: string, y3: string, sep: string)
    requires |x1| == |y1| && |x2| == |y2|
    requires x1 + sep + x2 + sep + x3 == y1 + sep + y2 + sep + y3
    ensures x1 == y1 && x2 == y2 && x3 == y3
  {
    ConcatCancel(x1 + sep + x2 + sep, x3, y1 + sep + y2 + sep, y3);
    assert x1 + sep + x2 + sep == (x1 + sep) + (x2 + sep);
    assert y1 + sep + y2 + sep == (y1 + sep) + (y2 + sep);
    ConcatCancel(x1 + sep, x2 + sep, y1 + sep, y2 + sep);
    ConcatCancel(x1, sep, y1, sep);
    ConcatCancel(x2, sep, y2, sep);
  }

  /** Two-digit padding tells apart the numbers below 100. */
  lemma Pad2Injective(i: int, j: int)
    requires 0 <= i < 100 && 0 <= j < 100 && Pad2(i) == Pad2(j)
    ensures i == j
  {
    NumberOfPadded(i);
    NumberOfPadded(j);
  }

  /** The file name tells apart the `DD-MM-YY` date part and the hour of the day. */
  lemma FilenameStemIff(a: DateTime, b: DateTime)
    requires FieldRanges(a) && FieldRanges(b) && a.year >= 10 && b.year >= 10
    ensures FormattedFilename(a) == FormattedFilename(b) <==> DatePart(a) == DatePart(b) && a.hours == b.hours
  {
    var ca, cb := ClockHour(a.hours), ClockHour(b.hours);
    ClockHourRange(a.hours);
    ClockHourRange(b.hours);
    var ha, hb := NatToString(ca), NatToString(cb);
    assert IntToString(ca) == ha && IntToString(cb) == hb;
    var pa, pb := Period(a.hours), Period(b.hours);
    var da, db := DatePart(a), DatePart(b);
    assert FormattedFilename(a) == da + " " + ha + "-00 " + pa + ".log";
    assert FormattedFilename(b) == db + " " + hb + "-00 " + pb + ".log";
    if FormattedFilename(a) == FormattedFilename(b) {
      DatePartLength(a);
      DatePartLength(b);
      ConcatCancel(da + " " + ha + "-00 " + pa, ".log", db + " " + hb + "-00 " + pb, ".log");
      ConcatCancel(da + " " + ha + "-00 ", pa, db + " " + hb + "-00 ", pb);
      ConcatCancel(da + " " + ha, "-00 ", db + " " + hb, "-00 ");
      assert da + " " + ha == (da + " ") + ha && db + " " + hb == (db + " ") + hb;
      ConcatCancel(da + " ", ha, db + " ", hb);
      ConcatCancel(da, " ", db, " ");
      NatToStringInjective(ca, cb);
      ClockHourInjective(a.hours, b.hours);
    }
  }

  /**
   * Two instants share a bucket file exactly when they fall on the same day,
   * month and last two year digits and in the same hour: minutes and seconds
   * never matter, and different hours of one date never collide.
   */
  lemma SameFilenameIff(a: DateTime, b: DateTime)
    requires FieldRanges(a) && FieldRanges(b) && a.year >= 10 && b.year >= 10
    ensures FormattedFilename(a) == FormattedFilename(b)
            <==> a.day == b.day && a.month == b.month && a.hours == b.hours
                 && LastTwo(IntToString(a.year)) == LastTwo(IntToString(b.year))
  {
    FilenameStemIff(a, b);
    DatePartIff(a, b);
  }

  /** `formatUptime(seconds)` in src/timeUtils.js: whole hours, then minutes and seconds below 60. */
  function UptimeHms(seconds: nat): (hms: (nat, nat, nat))
    ensures hms.1 < 60 && hms.2 < 60
    ensures 3600 * hms.0 + 60 * hms.1 + hms.2 == seconds
  {
    (seconds / 3600, (seconds % 3600) / 60, seconds % 60)
  }

  /** `${hours}h ${minutes}m ${remainingSeconds}s`. */
  function FormatUptime(seconds: nat): string
  {
    var (h, m, s) := UptimeHms(seconds);
    NatToString(h) + "h " + NatToString(m) + "m " + NatToString(s) + "s"
  }

  /** The number of decimal digits at the start of a text. */
  function LeadingDigits(s: string): nat
  {
    if s != [] && IsDigit(s[0]) then 1 + LeadingDigits(s[1..]) else 0
  }

  /** A digit run followed by a non-digit mark has exactly its own length of leading digits. */
  lemma {:induction false} LeadingDigitsOfRun(u: string, mark: char, r: string)
    requires AllDigits(u) && !IsDigit(mark)
    ensures LeadingDigits(u + [mark] + r) == |u|
  {
    if u != [] {
      assert (u + [mark] + r)[1..] == u[1..] + [mark] + r;
      LeadingDigitsOfRun(u[1..], mark, r);
    }
  }

  /** A digit run ended by a non-digit mark is determined by the text: the run and what follows are equal. */
  lemma DigitRunCancel(u: string, v: string, mark: char, r1: string, r2: string)
    requires AllDigits(u) && AllDigits(v) && !IsDigit(mark)
    requires u + [mark] + r1 == v + [mark] + r2
    ensures u == v && r1 == r2
  {
    LeadingDigitsOfRun(u, mark, r1);
    LeadingDigitsOfRun(v, mark, r2);
    assert u + [mark] + r1 == u + ([mark] + r1) && v + [mark] + r2 == v + ([mark] + r2);
    ConcatCancel(u, [mark] + r1, v, [mark] + r2);
    ConcatCancel([mark], r1, [mark], r2);
  }

  /** The text `${h}h ${m}m ${s}s` of three digit runs determines the three runs. */
  lemma UptimeTextCancel(h1: string, m1: string, s1: string, h2: string, m2: string, s2: string)
    requires AllDigits(h1) && AllDigits(m1) && AllDigits(s1) && AllDigits(h2) && AllDigits(m2) && AllDigits(s2)
    requires h1 + "h " + m1 + "m " + s1 + "s" == h2 + "h " + m2 + "m " + s2 + "s"
    ensures h1 == h2 && m1 == m2 && s1 == s2
  {
    var t1, t2 := m1 + ['m'] + (" " + s1 + "s"), m2 + ['m'] + (" " + s2 + "s");
    assert h1 + "h " + m1 + "m " + s1 + "s" == h1 + ['h'] + (" " + t1);
    assert h2 + "h " + m2 + "m " + s2 + "s" == h2 + ['h'] + (" " + t2);
    DigitRunCancel(h1, h2, 'h', " " + t1, " " + t2);
    ConcatCancel(" ", t1, " ", t2);
    DigitRunCancel(m1, m2, 'm', " " + s1 + "s", " " + s2 + "s");
    assert " " + s1 + "s" == " " + (s1 + "s") && " " + s2 + "s" == " " + (s2 + "s");
    ConcatCancel(" ", s1 + "s", " ", s2 + "s");
    assert s1 + ['s'] + [] == s2 + ['s'] + [];
    DigitRunCancel(s1, s2, 's', [], []);
  }

  /** Different uptimes give different texts: the text determines the number of seconds. */
  lemma FormatUptimeInjective(a: nat, b: nat)
    requires FormatUptime(a) == FormatUptime(b)
    ensures a == b
  {
    var (h1, m1, s1) := UptimeHms(a);
    var (h2, m2, s2) := UptimeHms(b);
    UptimeTextCancel(NatToString(h1), NatToString(m1), NatToString(s1), NatToString(h2), NatToString(m2), NatToString(s2));
    NatToStringInjective(h1, h2);
    NatToStringInjective(m1, m2);
    NatToStringInjective(s1, s2);
  }
}
