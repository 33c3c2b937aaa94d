/** UTC broken-down time, as `gmtime_r` and `timegm` convert it: the seconds since 1970 of section 4.16 of the
    POSIX.1-2017 Base Definitions, extended to any year, and its inverse on days of the Gregorian calendar.
  */
module Calendar {

  const SECONDS_PER_DAY := 86400

  datatype Time = Time(year: int, month: int, day: int, hour: int, minute: int, second: int)

  predicate Leap(y: int) {
    y % 4 == 0 && (y % 100 != 0 || y % 400 == 0)
  }

  /** Days from 1970-01-01 to the first of January; the leap-day terms are those of the POSIX formula. */
  function DaysBeforeYear(y: int): int {
    (y - 1970) * 365 + (y - 1969) / 4 - (y - 1901) / 100 + (y - 1601) / 400
  }

  function YearLength(y: int): nat {
    if Leap(y) then 366 else 365
  }

  function MonthLength(y: int, m: int): (n: nat)
    ensures 28 <= n <= 31
  {
    if m == 2 then (if Leap(y) then 29 else 28)
    else if m == 4 || m == 6 || m == 9 || m == 11 then 30
    else 31
  }

  function DaysBeforeMonth(y: int, m: int): (n: nat)
    requires 1 <= m <= 13
    ensures n <= 31 * (m - 1)
  {
    if m == 1 then 0 else DaysBeforeMonth(y, m - 1) + MonthLength(y, m - 1)
  }

  predicate FieldsInRange(t: Time) {
    1 <= t.month <= 12 && 1 <= t.day <= 31 && 0 <= t.hour <= 23 && 0 <= t.minute <= 59 && 0 <= t.second <= 59
  }

  /** The number of days in a year before a month, by the closed formula for months counted from March; month 13 stands
      for the end of the year. */
  function FirstDay(y: int, m: int): int {
    if m == 1 then 0
    else if m == 2 then 31
    else 59 + (153 * (m - 3) + 2) / 5 + (if y % 4 == 0 && (y % 100 != 0 || y % 400 == 0) then 1 else 0)
  }

  /** A moment from 1970 on that exists: no 30th of February, no 31st of April. */
  predicate Exists(t: Time) {
    FieldsInRange(t) && t.year >= 1970 && t.day <= FirstDay(t.year, t.month + 1) - FirstDay(t.year, t.month)
  }

  /** Summing the lengths of the months gives the closed formula. */
  lemma {:induction false} MonthsClosedForm(y: int, m: int)
    requires 1 <= m <= 13
    ensures DaysBeforeMonth(y, m) == FirstDay(y, m)
    decreases m
  {
    if m > 1 {
      MonthsClosedForm(y, m - 1);
      FirstDayNext(y, m - 1);
    }
  }

  lemma FirstDayNext(y: int, m: int)
    requires 1 <= m <= 12
    ensures FirstDay(y, m + 1) == FirstDay(y, m) + MonthLength(y, m)
  {
    if m >= 3 {
      MarchMonths(m);
    }
  }

  lemma MarchMonths(m: int)
    requires 3 <= m <= 12
    ensures (153 * (m - 2) + 2) / 5 ==
      (153 * (m - 3) + 2) / 5 + if m == 4 || m == 6 || m == 9 || m == 11 then 30 else 31
  {
  }

  function DayNumber(t: Time): int
    requires 1 <= t.month <= 12
  {
    DaysBeforeYear(t.year) + DaysBeforeMonth(t.year, t.month) + t.day - 1
  }

  function Timegm(t: Time): int
    requires 1 <= t.month <= 12
  {
    DayNumber(t) * SECONDS_PER_DAY + t.hour * 3600 + t.minute * 60 + t.second
  }

  lemma FourthYear(y: int)
    ensures (y - 1968) / 4 == (y - 1969) / 4 + if y % 4 == 0 then 1 else 0
  {
  }

  lemma HundredthYear(y: int)
    ensures (y - 1900) / 100 == (y - 1901) / 100 + if y % 100 == 0 then 1 else 0
  {
    var q, r := (y - 1901) / 100, (y - 1901) % 100;
    assert y == 100 * (q + 19) + r + 1;
  }

  lemma FourHundredthYear(y: int)
    ensures (y - 1600) / 400 == (y - 1601) / 400 + if y % 400 == 0 then 1 else 0
  {
    var q, r := (y - 1601) / 400, (y - 1601) % 400;
    assert y == 400 * (q + 4) + r + 1;
  }

  lemma CenturiesAreFourthYears(y: int)
    ensures y % 100 == 0 ==> y % 4 == 0
  {
    assert y % 100 == 0 ==> y == 4 * (25 * (y / 100));
  }

  lemma FourthCenturiesAreCenturies(y: int)
    ensures y % 400 == 0 ==> y % 100 == 0
  {
    assert y % 400 == 0 ==> y == 100 * (4 * (y / 400));
  }

  lemma LeapDays(y: int, fourth: int, hundredth: int, fourHundredth: int)
    requires fourth == if y % 4 == 0 then 1 else 0
    requires hundredth == if y % 100 == 0 then 1 else 0
    requires fourHundredth == if y % 400 == 0 then 1 else 0
    requires (y % 100 == 0 ==> y % 4 == 0) && (y % 400 == 0 ==> y % 100 == 0)
    ensures YearLength(y) == 365 + fourth - hundredth + fourHundredth
  {
  }

  lemma YearNext(y: int)
    ensures DaysBeforeYear(y + 1) == DaysBeforeYear(y) + YearLength(y)
  {
    hide YearLength;
    FourthYear(y);
    HundredthYear(y);
    FourHundredthYear(y);
    CenturiesAreFourthYears(y);
    FourthCenturiesAreCenturies(y);
    LeapDays(y, if y % 4 == 0 then 1 else 0, if y % 100 == 0 then 1 else 0, if y % 400 == 0 then 1 else 0);
  }

  lemma {:induction false} YearsApart(y: int, z: int)
    requires y <= z
    ensures DaysBeforeYear(y) + 365 * (z - y) <= DaysBeforeYear(z)
    decreases z - y
  {
    hide DaysBeforeYear;
    if y < z {
      YearNext(y);
      YearsApart(y + 1, z);
    }
  }

  lemma MonthsFillYear(y: int)
    ensures DaysBeforeMonth(y, 13) == YearLength(y)
  {
    assert DaysBeforeMonth(y, 3) == 31 + MonthLength(y, 2);
    assert DaysBeforeMonth(y, 5) == DaysBeforeMonth(y, 3) + 61;
    assert DaysBeforeMonth(y, 7) == DaysBeforeMonth(y, 5) + 61;
    assert DaysBeforeMonth(y, 9) == DaysBeforeMonth(y, 7) + 62;
    assert DaysBeforeMonth(y, 11) == DaysBeforeMonth(y, 9) + 61;
    assert DaysBeforeMonth(y, 13) == DaysBeforeMonth(y, 11) + 61;
  }

  lemma {:induction false} MonthsApart(y: int, m: int, n: int)
    requires 1 <= m <= n <= 13
    ensures DaysBeforeMonth(y, m) + (if m < n then MonthLength(y, m) else 0) <= DaysBeforeMonth(y, n)
    decreases n
  {
    hide MonthLength;
    if m < n {
      MonthsApart(y, m, n - 1);
    }
  }

  // ----- Broken-down time

  /** The year of a day, counting up from `y`. */
  function YearFrom(y: int, day: int): (r: int)
    requires DaysBeforeYear(y) <= day
    ensures y <= r && DaysBeforeYear(r) <= day < DaysBeforeYear(r + 1)
    decreases day - DaysBeforeYear(y)
  {
    YearNext(y);
    if day < DaysBeforeYear(y + 1) then y else YearFrom(y + 1, day)
  }

  /** The month of a day of a year, counting up from `m`. */
  function MonthFrom(y: int, m: int, yday: int): (r: int)
    requires 1 <= m <= 12 && DaysBeforeMonth(y, m) <= yday < DaysBeforeMonth(y, 13)
    ensures m <= r <= 12 && DaysBeforeMonth(y, r) <= yday < DaysBeforeMonth(y, r + 1)
    decreases 12 - m
  {
    if yday < DaysBeforeMonth(y, m + 1) then m else MonthFrom(y, m + 1, yday)
  }

  function Gmtime(seconds: nat): Time {
    var day, rest := seconds / SECONDS_PER_DAY, seconds % SECONDS_PER_DAY;
    var y := YearFrom(1970, day);
    YearNext(y);
    MonthsFillYear(y);
    var yday := day - DaysBeforeYear(y);
    var m := MonthFrom(y, 1, yday);
    Time(y, m, yday - DaysBeforeMonth(y, m) + 1, rest / 3600, rest / 60 % 60, rest % 60)
  }

  /** Every second is the second of an existing moment, and converts back. */
  lemma GmtimeInverse(seconds: nat)
    ensures Exists(Gmtime(seconds)) && Timegm(Gmtime(seconds)) == seconds
  {
    hide DaysBeforeYear, DaysBeforeMonth, YearFrom, MonthFrom, MonthLength, FirstDay;
    var t := Gmtime(seconds);
    MonthNext(t.year, t.month);
    FirstDayNext(t.year, t.month);
    MonthsFillYear(t.year);
    ClockParts(seconds % SECONDS_PER_DAY);
  }

  lemma MonthNext(y: int, m: int)
    requires 1 <= m <= 12
    ensures DaysBeforeMonth(y, m + 1) == DaysBeforeMonth(y, m) + MonthLength(y, m)
  {
  }

  lemma ClockParts(rest: nat)
    requires rest < SECONDS_PER_DAY
    ensures 0 <= rest / 3600 <= 23 && 0 <= rest / 60 % 60 <= 59 && 0 <= rest % 60 <= 59
    ensures rest / 3600 * 3600 + rest / 60 % 60 * 60 + rest % 60 == rest
  {
    assert rest / 60 / 60 == rest / 3600;
  }

  lemma PartsOfClock(hour: nat, minute: nat, second: nat)
    requires hour <= 23 && minute <= 59 && second <= 59
    ensures var rest := hour * 3600 + minute * 60 + second;
            rest < SECONDS_PER_DAY && rest / 3600 == hour && rest / 60 % 60 == minute && rest % 60 == second
  {
    var rest := hour * 3600 + minute * 60 + second;
    assert rest / 60 == hour * 60 + minute;
  }

  lemma YearIs(y: int, day: int)
    requires y >= 1970 && DaysBeforeYear(y) <= day < DaysBeforeYear(y + 1)
    ensures day >= 0 && YearFrom(1970, day) == y
  {
    hide DaysBeforeYear, YearFrom;
    YearsApart(1970, y);
    assert DaysBeforeYear(1970) == 0 by { EpochStart(); }
    var r := YearFrom(1970, day);
    if r < y {
      YearsApart(r + 1, y);
    } else if r > y {
      YearsApart(y + 1, r);
    }
  }

  lemma EpochStart()
    ensures DaysBeforeYear(1970) == 0
  {
  }

  lemma MonthIs(y: int, m: int, yday: int)
    requires 1 <= m <= 12 && DaysBeforeMonth(y, m) <= yday < DaysBeforeMonth(y, m + 1)
    ensures yday < DaysBeforeMonth(y, 13) && MonthFrom(y, 1, yday) == m
  {
    hide MonthLength, MonthFrom;
    MonthsApart(y, m + 1, 13);
    var r := MonthFrom(y, 1, yday);
    if r < m {
      MonthsApart(y, r + 1, m);
    } else if r > m {
      MonthsApart(y, m + 1, r);
    }
  }

  /** Every existing moment is found again from its second. */
  lemma TimegmInverse(t: Time)
    requires Exists(t)
    ensures Timegm(t) >= 0 && Gmtime(Timegm(t)) == t
  {
    hide DaysBeforeYear, DaysBeforeMonth, MonthLength, YearFrom, MonthFrom, FirstDay;
    var day, rest := DayNumber(t), t.hour * 3600 + t.minute * 60 + t.second;
    MonthNext(t.year, t.month);
    FirstDayNext(t.year, t.month);
    MonthsApart(t.year, t.month + 1, 13);
    MonthsFillYear(t.year);
    YearNext(t.year);
    YearIs(t.year, day);
    MonthIs(t.year, t.month, day - DaysBeforeYear(t.year));
    PartsOfClock(t.hour, t.minute, t.second);
    assert Timegm(t) == day * SECONDS_PER_DAY + rest;
    assert Timegm(t) / SECONDS_PER_DAY == day && Timegm(t) % SECONDS_PER_DAY == rest;
  }

  /** Converting to seconds and back is an exact test of existence. */
  lemma ExistsIff(t: Time)
    requires FieldsInRange(t)
    ensures Timegm(t) >= 0 && Gmtime(Timegm(t)) == t <==> Exists(t)
  {
    hide Timegm, Gmtime, Exists;
    if Exists(t) {
      TimegmInverse(t);
    } else if Timegm(t) >= 0 {
      GmtimeInverse(Timegm(t));
    }
  }

  /** The second of a moment, written out. */
  lemma SecondsOf(t: Time)
    requires 1 <= t.month <= 12
    ensures Timegm(t) ==
            (((((t.year - 1970) * 365 + (t.year - 1969) / 4 - (t.year - 1901) / 100 + (t.year - 1601) / 400
                + FirstDay(t.year, t.month) + t.day - 1) * 24 + t.hour) * 60) + t.minute) * 60 + t.second
  {
    hide DaysBeforeMonth, FirstDay;
    MonthsClosedForm(t.year, t.month);
  }
}
