/** Seconds since the Epoch: the encoding loops of SYS_clock_gettime (kernel/syscall.c:378-401) and
    the decoding loops of localtime_r (kernel/sys/time/localtime_r.c:28-59). */
module Calendar {

  predicate Leap(y: int) { (y % 4 == 0 && y % 100 != 0) || y % 400 == 0 }

  function YearLen(y: int): int { if Leap(y) then 366 else 365 }

  const MONTH_DAYS: seq<int> := [31, 28, 31, 30, 31, 30, 31, 31, 30, 31, 30, 31]

  function MonthLen(y: int, m: nat): (d: int)
    requires m < 12
    ensures 28 <= d <= 31
  {
    MONTH_DAYS[m] + (if m == 1 && Leap(y) then 1 else 0)
  }

  /** Days from 1970-01-01 to January 1st of year `y`. */
  function YearStart(y: int): int
    decreases if y >= 1970 then y - 1970 else 1970 - y
  {
    if y == 1970 then 0 else if y > 1970 then YearStart(y - 1) + YearLen(y - 1) else YearStart(y + 1) - YearLen(y)
  }

  /** Days of year `y` before month `m` (0-based). */
  function MonthStart(y: int, m: nat): int
    requires m <= 12
  {
    if m == 0 then 0 else MonthStart(y, m - 1) + MonthLen(y, m - 1)
  }

  lemma MonthsFillYear(y: int)
    ensures MonthStart(y, 12) == YearLen(y)
  {
    hide Leap;
    assert MonthStart(y, 1) == 31 && MonthStart(y, 2) == 31 + MonthLen(y, 1);
    var d := MonthStart(y, 2);
    assert MonthStart(y, 3) == d + 31 && MonthStart(y, 4) == d + 61 && MonthStart(y, 5) == d + 92;
    assert MonthStart(y, 6) == d + 122 && MonthStart(y, 7) == d + 153 && MonthStart(y, 8) == d + 184;
    assert MonthStart(y, 9) == d + 214 && MonthStart(y, 10) == d + 245 && MonthStart(y, 11) == d + 275;
  }

  /** A broken-down time; `mon` counts from 0. */
  datatype Tm = Tm(year: int, mon: nat, mday: int, hour: int, min: int, sec: int, yday: int)

  /** A date and time as POSIX understands it. */
  predicate ValidTm(t: Tm) {
    && t.year >= 1970 && t.mon < 12 && 1 <= t.mday <= MonthLen(t.year, t.mon)
    && 0 <= t.hour < 24 && 0 <= t.min < 60 && 0 <= t.sec < 60
    && t.yday == MonthStart(t.year, t.mon) + t.mday - 1
  }

  // ---- Encoding ----

  function Encode(year: int, mon: nat, mday: int, hour: int, min: int, sec: int): int
    requires mon < 12
  {
    (YearStart(year) + MonthStart(year, mon) + mday - 1) * 86400 + hour * 3600 + min * 60 + sec
  }

  /** The conversion of SYS_clock_gettime; `month` counts from 1 there. */
  method ToSeconds(year: int, month: int, day: int, hour: int, min: int, sec: int) returns (t: int)
    requires 1 <= month <= 12
    ensures t == Encode(year, month - 1, day, hour, min, sec)
  {
    var days := 0;
    if year < 1970 {
      var y := year;
      while y < 1970
        invariant year <= y <= 1970 && days == YearStart(year) - YearStart(y)
      {
        days := days - YearLen(y);
        y := y + 1;
      }
    } else {
      var y := 1970;
      while y < year
        invariant 1970 <= y <= year && days == YearStart(y)
      {
        days := days + YearLen(y);
        y := y + 1;
      }
    }
    var m := 0;
    while m < month - 1
      invariant 0 <= m <= month - 1 && days == YearStart(year) + MonthStart(year, m)
    {
      days := days + MONTH_DAYS[m];
      if m == 1 && Leap(year) { days := days + 1; }
      m := m + 1;
    }
    days := days + day - 1;
    t := days * 86400 + hour * 3600 + min * 60 + sec;
  }

  // ---- Decoding ----

  datatype Split = Split(unit: int, rest: int)

  function FindYear(days: int, y: int): (r: Split)
    requires days >= 0
    ensures r.unit >= y && 0 <= r.rest < YearLen(r.unit)
    decreases days
  {
    if days < YearLen(y) then Split(y, days) else FindYear(days - YearLen(y), y + 1)
  }

  function FindMonth(rest: int, y: int, m: nat): Split
    requires m <= 12
    decreases 12 - m
  {
    if m == 12 || rest < MonthLen(y, m) then Split(m, rest) else FindMonth(rest - MonthLen(y, m), y, m + 1)
  }

  function Decode(t: int): Tm
    requires t >= 0
  {
    var y := FindYear(t / 86400, 1970);
    MonthInYear(y.unit, y.rest, 0);
    var m := FindMonth(y.rest, y.unit, 0);
    Tm(y.unit, m.unit, m.rest + 1, t % 86400 / 3600, t % 86400 % 3600 / 60, t % 86400 % 60, y.rest)
  }

  method YearLoop(start: int) returns (year: int, days: int)
    requires start >= 0
    ensures Split(year, days) == FindYear(start, 1970)
  {
    year, days := 1970, start;
    while true
      invariant days >= 0 && FindYear(start, 1970) == FindYear(days, year)
      decreases days
    {
      var len := if Leap(year) then 366 else 365;
      if days < len { break; }
      days := days - len;
      year := year + 1;
    }
  }

  method MonthLoop(yday: int, year: int) returns (month: nat, rest: int)
    ensures Split(month, rest) == FindMonth(yday, year, 0)
  {
    hide Leap;
    month, rest := 0, yday;
    while month < 12
      invariant month <= 12 && FindMonth(yday, year, 0) == FindMonth(rest, year, month)
    {
      var dim := MONTH_DAYS[month];
      if month == 1 && Leap(year) { dim := dim + 1; }
      if rest < dim { break; }
      rest := rest - dim;
      month := month + 1;
    }
  }

  /** localtime_r for times from the Epoch on. */
  method Localtime(t: int) returns (r: Tm)
    requires t >= 0
    ensures r == Decode(t)
  {
    hide FindYear, FindMonth;
    var year, yday := YearLoop(t / 86400);
    var secs := t % 86400;
    var month, rest := MonthLoop(yday, year);
    r := Tm(year, month, rest + 1, secs / 3600, secs % 3600 / 60, secs % 60, yday);
  }

  /** A day number within the year falls into one of the twelve months. */
  lemma {:induction false} MonthInYear(y: int, rest: int, m: nat)
    requires m <= 12 && 0 <= rest < YearLen(y) - MonthStart(y, m)
    ensures var r := FindMonth(rest, y, m);
      m <= r.unit < 12 && 0 <= r.rest < MonthLen(y, r.unit) && MonthStart(y, r.unit) + r.rest == MonthStart(y, m) + rest
    decreases 12 - m
  {
    MonthsFillYear(y);
    if m < 12 && rest >= MonthLen(y, m) {
      MonthInYear(y, rest - MonthLen(y, m), m + 1);
    }
  }

  lemma {:induction false} YearFound(days: int, y: int)
    requires days >= 0 && y >= 1970
    ensures var r := FindYear(days, y); YearStart(r.unit) + r.rest == YearStart(y) + days
    decreases days
  {
    if days >= YearLen(y) {
      YearFound(days - YearLen(y), y + 1);
    }
  }

  // ---- The two compositions ----

  /** Decoding gives a valid date, and encoding it again gives back the time. */
  lemma EncodeDecode(t: int)
    requires t >= 0
    ensures var d := Decode(t);
      ValidTm(d) && Encode(d.year, d.mon, d.mday, d.hour, d.min, d.sec) == t
  {
    YearFound(t / 86400, 1970);
    var y := FindYear(t / 86400, 1970);
    MonthInYear(y.unit, y.rest, 0);
    SecondsSplit(t % 86400);
  }

  lemma SecondsSplit(s: int)
    requires 0 <= s < 86400
    ensures 0 <= s / 3600 < 24 && 0 <= s % 3600 / 60 < 60 && 0 <= s % 60 < 60
    ensures s / 3600 * 3600 + s % 3600 / 60 * 60 + s % 60 == s
  {
    var r := s % 3600;
    assert s == 3600 * (s / 3600) + r && r == 60 * (r / 60) + r % 60;
    assert s % 60 == r % 60;
  }

  lemma {:induction false} FindYearIs(days: int, y: int, goal: int)
    requires 1970 <= y <= goal && YearStart(goal) <= YearStart(y) + days < YearStart(goal) + YearLen(goal) && days >= 0
    ensures FindYear(days, y) == Split(goal, YearStart(y) + days - YearStart(goal))
    decreases goal - y
  {
    if y < goal {
      YearsGrow(y + 1, goal);
      FindYearIs(days - YearLen(y), y + 1, goal);
    }
  }

  lemma {:induction false} YearsGrow(y: int, z: int)
    requires 1970 <= y <= z
    ensures YearStart(y) + 365 * (z - y) <= YearStart(z)
    decreases z - y
  {
    if y < z { YearsGrow(y, z - 1); }
  }

  lemma {:induction false} FindMonthIs(rest: int, y: int, m: nat, goal: nat)
    requires m <= goal < 12 && MonthStart(y, goal) <= MonthStart(y, m) + rest < MonthStart(y, goal) + MonthLen(y, goal)
    ensures FindMonth(rest, y, m) == Split(goal, MonthStart(y, m) + rest - MonthStart(y, goal))
    decreases goal - m
  {
    if m < goal {
      MonthsGrow(y, m + 1, goal);
      FindMonthIs(rest - MonthLen(y, m), y, m + 1, goal);
    }
  }

  lemma {:induction false} MonthsGrow(y: int, m: nat, n: nat)
    requires m <= n <= 12
    ensures MonthStart(y, m) + 28 * (n - m) <= MonthStart(y, n)
    decreases n - m
  {
    if m < n { MonthsGrow(y, m, n - 1); }
  }

  /** Encoding a valid date from 1970 on and decoding it gives back every field. */
  lemma DecodeEncode(d: Tm)
    requires ValidTm(d)
    ensures var t := Encode(d.year, d.mon, d.mday, d.hour, d.min, d.sec); t >= 0 && Decode(t) == d
  {
    hide YearStart, MonthStart, YearLen, FindYear, FindMonth, MonthLen;
    var s := d.hour * 3600 + d.min * 60 + d.sec;
    var days := YearStart(d.year) + MonthStart(d.year, d.mon) + d.mday - 1;
    DateInYear(d);
    var t := days * 86400 + s;
    assert t == Encode(d.year, d.mon, d.mday, d.hour, d.min, d.sec);
    assert t / 86400 == days && t % 86400 == s;
    FindYearIs(days, 1970, d.year);
    FindMonthIs(d.yday, d.year, 0, d.mon);
    SecondsUnique(d.hour, d.min, d.sec);
  }

  lemma DateInYear(d: Tm)
    requires ValidTm(d)
    ensures YearStart(1970) == 0 && MonthStart(d.year, 0) == 0 && YearStart(d.year) >= 0
    ensures 0 <= d.yday < YearLen(d.year)
  {
    YearsGrow(1970, d.year);
    MonthsGrow(d.year, 0, d.mon);
    MonthsGrow(d.year, d.mon + 1, 12);
    MonthsFillYear(d.year);
  }

  lemma SecondsUnique(h: int, m: int, s: int)
    requires 0 <= h < 24 && 0 <= m < 60 && 0 <= s < 60
    ensures var t := h * 3600 + m * 60 + s; t / 3600 == h && t % 3600 / 60 == m && t % 60 == s
  {
    var t := h * 3600 + m * 60 + s;
    assert t / 3600 == h && t % 3600 == m * 60 + s;
  }

  // ---- The closed formula ----

  /** The looped day count is the closed formula, for every year before and after the Epoch. */
  lemma {:induction false} YearStartClosed(y: int)
    ensures YearStart(y) == (y - 1970) * 365 + (y - 1969) / 4 - (y - 1901) / 100 + (y - 1601) / 400
    decreases if y >= 1970 then y - 1970 else 1970 - y
  {
    hide Leap;
    if y > 1970 {
      YearStartClosed(y - 1);
      LeapStep(y - 1);
    } else if y < 1970 {
      YearStartClosed(y + 1);
      LeapStep(y);
    }
  }

  /** What one more year adds to the three quotients. */
  lemma LeapStep(y: int)
    ensures (y - 1968) / 4 - (y - 1900) / 100 + (y - 1600) / 400
         == (y - 1969) / 4 - (y - 1901) / 100 + (y - 1601) / 400 + (if Leap(y) then 1 else 0)
  {
    Step4(y - 1969);
    Step100(y - 1901);
    Step400(y - 1601);
    Shift4(y);
    Shift100(y);
    Shift400(y);
    Nested(y);
  }

  lemma Step4(a: int)
    ensures (a + 1) / 4 == a / 4 + (if (a + 1) % 4 == 0 then 1 else 0)
  {
  }

  lemma Step100(a: int)
    ensures (a + 1) / 100 == a / 100 + (if (a + 1) % 100 == 0 then 1 else 0)
  {
  }

  lemma Step400(a: int)
    ensures (a + 1) / 400 == a / 400 + (if (a + 1) % 400 == 0 then 1 else 0)
  {
  }

  lemma Shift4(y: int)
    ensures (y - 1968) % 4 == y % 4
  {
  }

  lemma Shift100(y: int)
    ensures (y - 1900) % 100 == y % 100
  {
  }

  lemma Shift400(y: int)
    ensures (y - 1600) % 400 == y % 400
  {
  }

  lemma Nested(y: int)
    ensures y % 400 == 0 ==> y % 100 == 0
    ensures y % 100 == 0 ==> y % 4 == 0
  {
    Times100(4 * (y / 400));
    Times4(25 * (y / 100));
  }

  lemma Times100(k: int)
    ensures 100 * k % 100 == 0
  {
  }

  lemma Times4(k: int)
    ensures 4 * k % 4 == 0
  {
  }

  /** The months without a table: alternating 31 and 30 days, starting over in August, but for February. */
  function DaysIn(leap: bool, m: nat): int {
    if m == 1 then (if leap then 29 else 28) else if m % 7 % 2 == 0 then 31 else 30
  }

  lemma MonthLenIs(y: int, m: nat)
    requires m < 12
    ensures MonthLen(y, m) == DaysIn(Leap(y), m)
  {
    hide Leap;
  }

  /** Days before month `m`, in closed form. */
  function DaysBefore(leap: bool, m: nat): int {
    (367 * (m + 1) - 362) / 12 - (if m < 2 then 0 else if leap then 1 else 2)
  }

  /** The looped month count is the closed formula. */
  lemma {:induction false} MonthStartClosed(y: int, m: nat)
    requires m < 12
    ensures MonthStart(y, m) == DaysBefore(Leap(y), m)
  {
    hide Leap;
    if m > 0 {
      MonthStartClosed(y, m - 1);
      MonthLenIs(y, m - 1);
      OneMonth(Leap(y), m - 1);
    }
  }

  lemma OneMonth(leap: bool, m: nat)
    requires m < 11
    ensures DaysBefore(leap, m + 1) - DaysBefore(leap, m) == DaysIn(leap, m)
  {
  }

  /** Seconds since the Epoch as section 4.16 of POSIX.1-2017 XBD defines them, with tm_year
      counted from 1900. */
  function Posix(sec: int, min: int, hour: int, yday: int, tmYear: int): int {
    sec + min * 60 + hour * 3600 + yday * 86400 + (tmYear - 70) * 31536000
    + (tmYear - 69) / 4 * 86400 - (tmYear - 1) / 100 * 86400 + (tmYear + 299) / 400 * 86400
  }

  /** Main result: for every valid date the encoding is that number, the day of the year being the closed
      formula for the month plus the day. */
  lemma EncodeIsPosix(d: Tm)
    requires ValidTm(d)
    ensures d.yday == DaysBefore(Leap(d.year), d.mon) + d.mday - 1
    ensures Encode(d.year, d.mon, d.mday, d.hour, d.min, d.sec) == Posix(d.sec, d.min, d.hour, d.yday, d.year - 1900)
  {
    hide YearStart, MonthStart, MonthLen, Leap;
    YearStartClosed(d.year);
    MonthStartClosed(d.year, d.mon);
  }

  /** A valid date has a day of its month. */
  lemma ValidDays(d: Tm)
    requires ValidTm(d)
    ensures 1 <= d.mday <= DaysIn(Leap(d.year), d.mon)
  {
    hide Leap;
    MonthLenIs(d.year, d.mon);
  }

  /** The Gregorian rule. */
  lemma LeapIs(y: int)
    ensures Leap(y) <==> y % 4 == 0 && (y % 100 == 0 ==> y % 400 == 0)
  {
    Nested(y);
  }
}
