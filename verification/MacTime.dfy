/** Conversion of calendar time to Mac OS time, in seconds since 1904. */
module MacTime {
  import opened Bytes

  const TM_EPOCH_YEAR := 1900
  const MAC_EPOCH_YEAR := 1904

  /** Broken-down local time; `year` counts from 1900, `yday` from 0. */
  datatype Tm = Tm(sec: int, min: int, hour: int, yday: int, year: int)

  // ---------- The code ----------

  /** C's remainder: it has the sign of the dividend. */
  function CRem(a: int, b: int): (r: int)
    requires b > 0
  {
    if a >= 0 then a % b else -((-a) % b)
  }

  /** C's quotient: it truncates toward zero. */
  function CDiv(a: int, b: int): (q: int)
    requires b > 0
  {
    if a >= 0 then a / b else -((-a) / b)
  }

  /** The year after the year offset, clipped to 1904. */
  function ClippedYear(year: int, yearofs: int): (y: int)
    ensures y >= MAC_EPOCH_YEAR - TM_EPOCH_YEAR
  {
    if MAC_EPOCH_YEAR - TM_EPOCH_YEAR < year + yearofs then year + yearofs else MAC_EPOCH_YEAR - TM_EPOCH_YEAR
  }

  /** Days since 1904, by the closed form. */
  function DayCount(yday: int, year: int): (days: int) {
    var a4 := (year + TM_EPOCH_YEAR) / 4 - if year % 4 == 0 then 1 else 0;
    var b4 := MAC_EPOCH_YEAR / 4 - if MAC_EPOCH_YEAR % 4 == 0 then 1 else 0;
    var a100 := CDiv(a4, 25) - if CRem(a4, 25) < 0 then 1 else 0;
    var b100 := CDiv(b4, 25) - if CRem(b4, 25) < 0 then 1 else 0;
    var a400 := a100 / 4;
    var b400 := b100 / 4;
    var interveningLeapDays := (a4 - b4) - (a100 - b100) + (a400 - b400);
    yday + 365 * (year - 4) + interveningLeapDays
  }

  function TimeToMacTime(t: Tm, yearofs: int, dayofsPref: int): (seconds: Word32)
    requires -0x8000_0000 < dayofsPref < 0x8000_0000
  {
    var year := ClippedYear(t.year, yearofs);
    var days := U32(DayCount(t.yday, year));
    var dayofs := if -dayofsPref > 0 && -dayofsPref > days then days else -dayofsPref;
    U32(t.sec + 60 * (t.min + 60 * (t.hour + 24 * (days - dayofs))))
  }

  // ---------- The calendar ----------

  predicate IsLeap(y: int) {
    y % 4 == 0 && (y % 100 != 0 || y % 400 == 0)
  }

  function YearLength(y: int): (n: nat) {
    if IsLeap(y) then 366 else 365
  }

  /** The lengths of the years from 1904 up to, not including, `y`. */
  function DaysBefore(y: int): (n: nat)
    decreases y
  {
    if y <= MAC_EPOCH_YEAR then 0 else DaysBefore(y - 1) + YearLength(y - 1)
  }

  /** A calendar time from 1904 on, without leap seconds. */
  predicate Proper(t: Tm) {
    && 0 <= t.sec < 60 && 0 <= t.min < 60 && 0 <= t.hour < 24
    && t.year >= MAC_EPOCH_YEAR - TM_EPOCH_YEAR
    && 0 <= t.yday < YearLength(t.year + TM_EPOCH_YEAR)
  }

  /** Calendar order. */
  predicate Before(s: Tm, t: Tm) {
    s.year < t.year ||
    (s.year == t.year && (s.yday < t.yday ||
    (s.yday == t.yday && (s.hour < t.hour ||
    (s.hour == t.hour && (s.min < t.min ||
    (s.min == t.min && s.sec < t.sec)))))))
  }

  /** The second count before it is cut to 32 bits. */
  function Seconds(t: Tm): (n: int) {
    t.sec + 60 * (t.min + 60 * (t.hour + 24 * DayCount(t.yday, t.year)))
  }

  // ---------- Properties ----------

  /** Leap days before year `y`, from the start of the calendar. */
  function LeapDays(y: int): (n: int) {
    (y - 1) / 4 - (y - 1) / 100 + (y - 1) / 400
  }

  lemma QuotientsNest(n: int)
    ensures n / 4 / 25 == n / 100 && n / 100 / 4 == n / 400
  {
  }

  lemma QuotientsStep(y: int)
    ensures y / 4 == (y - 1) / 4 + if y % 4 == 0 then 1 else 0
    ensures y / 100 == (y - 1) / 100 + if y % 100 == 0 then 1 else 0
    ensures y / 400 == (y - 1) / 400 + if y % 400 == 0 then 1 else 0
  {
  }

  lemma LeapsNest(y: int)
    ensures y % 400 == 0 ==> y % 100 == 0
    ensures y % 100 == 0 ==> y % 4 == 0
  {
  }

  lemma LeapDaysStep(y: int)
    ensures LeapDays(y + 1) == LeapDays(y) + if IsLeap(y) then 1 else 0
  {
    QuotientsStep(y);
    LeapsNest(y);
  }

  lemma DayCountByLeapDays(yday: int, y: int)
    requires y >= MAC_EPOCH_YEAR
    ensures DayCount(yday, y - TM_EPOCH_YEAR)
        == yday + 365 * (y - MAC_EPOCH_YEAR) + LeapDays(y) - LeapDays(MAC_EPOCH_YEAR)
  {
    assert y / 4 - (if (y - TM_EPOCH_YEAR) % 4 == 0 then 1 else 0) == (y - 1) / 4;
    QuotientsNest(y - 1);
  }

  lemma {:induction false} DaysBeforeByLeapDays(y: int)
    requires y >= MAC_EPOCH_YEAR
    ensures DaysBefore(y) == 365 * (y - MAC_EPOCH_YEAR) + LeapDays(y) - LeapDays(MAC_EPOCH_YEAR)
    decreases y
  {
    hide LeapDays;
    if y > MAC_EPOCH_YEAR {
      DaysBeforeByLeapDays(y - 1);
      LeapDaysStep(y - 1);
    }
  }

  /** The closed form counts the Gregorian calendar's days. */
  lemma DayCountIsCalendar(yday: int, year: int)
    requires year >= MAC_EPOCH_YEAR - TM_EPOCH_YEAR
    ensures DayCount(yday, year) == yday + DaysBefore(year + TM_EPOCH_YEAR)
  {
    hide DayCount, LeapDays;
    DayCountByLeapDays(yday, year + TM_EPOCH_YEAR);
    DaysBeforeByLeapDays(year + TM_EPOCH_YEAR);
  }

  lemma {:induction false} DaysBeforeGrows(y: int, z: int)
    requires MAC_EPOCH_YEAR <= y < z
    ensures DaysBefore(y) + YearLength(y) <= DaysBefore(z)
    decreases z
  {
    if y + 1 < z { DaysBeforeGrows(y, z - 1); }
  }

  /** With zero offsets the second count is strictly increasing in calendar time. */
  lemma SecondsIncrease(s: Tm, t: Tm)
    requires Proper(s) && Proper(t) && Before(s, t)
    ensures Seconds(s) < Seconds(t)
  {
    hide DayCount, DaysBefore, YearLength;
    DayCountIsCalendar(s.yday, s.year);
    DayCountIsCalendar(t.yday, t.year);
    var a, b := DayCount(s.yday, s.year), DayCount(t.yday, t.year);
    if s.year < t.year {
      DaysBeforeGrows(s.year + TM_EPOCH_YEAR, t.year + TM_EPOCH_YEAR);
      assert a < b;
    }
  }

  /** With zero offsets the Mac time is the calendar's second count, cut to 32 bits. */
  lemma MacTimeCountsSeconds(t: Tm)
    requires Proper(t)
    ensures TimeToMacTime(t, 0, 0) == U32(Seconds(t))
    ensures Seconds(t) == t.sec + 60 * (t.min + 60 * (t.hour + 24 * (t.yday + DaysBefore(t.year + TM_EPOCH_YEAR))))
  {
    DayCountIsCalendar(t.yday, t.year);
    hide DayCount, DaysBefore, U32;
    var d := DayCount(t.yday, t.year);
    var k := U32Drops(d);
    assert ClippedYear(t.year, 0) == t.year;
    var cut := t.sec + 60 * (t.min + 60 * (t.hour + 24 * U32(d)));
    assert TimeToMacTime(t, 0, 0) == U32(cut);
    U32Period(cut, 86400 * k);
  }

  lemma U32Drops(x: int) returns (k: int)
    ensures x == U32(x) + k * 0x1_0000_0000
  {
    k := x / 0x1_0000_0000;
  }

  lemma U32Period(x: int, k: int)
    ensures U32(x + k * 0x1_0000_0000) == U32(x)
  {
  }

  /** Two different times are told apart as long as the count fits: up to the year 2040. */
  lemma MacTimeOrders(s: Tm, t: Tm)
    requires Proper(s) && Proper(t) && Before(s, t) && Seconds(t) < 0x1_0000_0000
    ensures TimeToMacTime(s, 0, 0) < TimeToMacTime(t, 0, 0)
  {
    hide TimeToMacTime, DayCount;
    MacTimeCountsSeconds(s);
    MacTimeCountsSeconds(t);
    SecondsIncrease(s, t);
    DayCountIsCalendar(s.yday, s.year);
  }

  /** A day offset moves the count by whole days, but never before the first day of 1904. */
  lemma DayOffsetClips(t: Tm, dayofsPref: int)
    requires Proper(t) && -0x8000_0000 < dayofsPref < 0x8000_0000
    requires DayCount(t.yday, t.year) < 0x8000_0000
    ensures var days := t.yday + DaysBefore(t.year + TM_EPOCH_YEAR) + dayofsPref;
      TimeToMacTime(t, 0, dayofsPref)
      == U32(t.sec + 60 * (t.min + 60 * (t.hour + 24 * if days < 0 then 0 else days)))
  {
    DayCountIsCalendar(t.yday, t.year);
    DaysFit(t.yday + DaysBefore(t.year + TM_EPOCH_YEAR));
    hide DayCount, DaysBefore, U32;
    assert ClippedYear(t.year, 0) == t.year;
  }

  lemma DaysFit(d: int)
    requires 0 <= d < 0x8000_0000
    ensures U32(d) == d
  {
  }

  /** A year offset moves the year, but never before 1904. */
  lemma YearOffsetClips(t: Tm, yearofs: int, dayofsPref: int)
    requires -0x8000_0000 < dayofsPref < 0x8000_0000
    ensures var year := t.year + TM_EPOCH_YEAR + yearofs;
      TimeToMacTime(t, yearofs, dayofsPref)
      == TimeToMacTime(t.(year := (if year < 1904 then 1904 else year) - 1900), 0, dayofsPref)
  {
    hide DayCount, U32;
  }
}
