/** src/timeutils.c: seconds since the epoch to a civil date and time, and the formula it inverts. */
module TimeUtils {
  import opened Words
  import opened YearTable

  datatype ZxError = ZxOk | ZxOutOfBounds

  const MONTH_DAYS: seq<nat> := [31, 28, 31, 30, 31, 30, 31, 31, 30, 31, 30, 31]

  /** getMonth */
  function MonthName(mon: nat): string {
    match mon
    case 1 => "Jan"
    case 2 => "Feb"
    case 3 => "Mar"
    case 4 => "Apr"
    case 5 => "May"
    case 6 => "Jun"
    case 7 => "Jul"
    case 8 => "Aug"
    case 9 => "Sep"
    case 10 => "Oct"
    case 11 => "Nov"
    case 12 => "Dec"
    case _ => "ERR"
  }

  // ---------------------------------------------------------------- civil dates

  predicate IsLeap(year: nat) {
    year % 4 == 0 && (year % 100 != 0 || year % 400 == 0)
  }

  function DaysInMonth(mon: nat, year: nat): nat
    requires 1 <= mon <= 12
  {
    MONTH_DAYS[mon - 1] + if mon == 2 && IsLeap(year) then 1 else 0
  }

  function YearLength(year: nat): nat { if IsLeap(year) then 366 else 365 }

  /** Days of the year before the first of the month; for 13, the length of the year. */
  function DaysBeforeMonth(mon: nat, year: nat): nat
    requires 1 <= mon <= 13
  {
    if mon == 1 then 0 else DaysBeforeMonth(mon - 1, year) + DaysInMonth(mon - 1, year)
  }

  datatype Civil = Civil(year: nat, mon: nat, day: nat, hour: nat, min: nat, sec: nat)

  predicate ValidCivil(c: Civil) {
    && 1970 <= c.year && 1 <= c.mon <= 12 && 1 <= c.day <= DaysInMonth(c.mon, c.year)
    && c.hour < 24 && c.min < 60 && c.sec < 60
  }

  /** Day of the year, counted from 0. */
  function YearDay(c: Civil): nat
    requires ValidCivil(c)
  {
    DaysBeforeMonth(c.mon, c.year) + c.day - 1
  }

  /** POSIX.1-2017, Base Definitions, section 4.16, with tm_year the years since 1900. */
  function SecondsSinceEpoch(c: Civil): int
    requires ValidCivil(c)
  {
    var tm_year := c.year - 1900;
    c.sec + c.min * 60 + c.hour * 3600 + YearDay(c) * 86400
    + (tm_year - 70) * 31536000 + ((tm_year - 69) / 4) * 86400
    - ((tm_year - 1) / 100) * 86400 + ((tm_year + 299) / 400) * 86400
  }

  /** The lengths of the months: 30 and 31 in turn, once changing places from July to August. */
  lemma MonthLengths(mon: nat, year: nat)
    requires 1 <= mon <= 12
    ensures DaysInMonth(mon, year) ==
            if mon == 2 then (if year % 4 == 0 && (year % 100 != 0 || year % 400 == 0) then 29 else 28)
            else 30 + (mon + mon / 8) % 2
  {
  }

  lemma MonthNames()
    ensures seq(12, i requires 0 <= i < 12 => MonthName(i + 1))
         == ["Jan", "Feb", "Mar", "Apr", "May", "Jun", "Jul", "Aug", "Sep", "Oct", "Nov", "Dec"]
  {
  }

  /** The first of July 1970, and the leap day of 2000. */
  lemma KnownTimes()
    ensures ValidCivil(Civil(1970, 7, 1, 0, 0, 0)) && SecondsSinceEpoch(Civil(1970, 7, 1, 0, 0, 0)) == 15638400
    ensures ValidCivil(Civil(2000, 2, 29, 0, 0, 0)) && SecondsSinceEpoch(Civil(2000, 2, 29, 0, 0, 0)) == 951782400
  {
    assert DaysBeforeMonth(4, 1970) == 90;
  }

  // ---------------------------------------------------------------- the calendar

  /** One year after the other: the table grows by the length of the year. */
  lemma YearStep(i: nat)
    ensures DaysBefore(i + 1) == DaysBefore(i) + YearLength(1970 + i)
  {
    Quarter(i);
    Century(i);
    FourCenturies(i);
  }

  lemma Quarter(i: nat)
    ensures (i + 2) / 4 - (i + 1) / 4 == if (1970 + i) % 4 == 0 then 1 else 0
  {
  }

  lemma Century(i: nat)
    ensures (i + 70) / 100 - (i + 69) / 100 == if (1970 + i) % 100 == 0 then 1 else 0
    ensures (1970 + i) % 100 == 0 ==> (1970 + i) % 4 == 0
  {
  }

  lemma FourCenturies(i: nat)
    ensures (i + 370) / 400 - (i + 369) / 400 == if (1970 + i) % 400 == 0 then 1 else 0
    ensures (1970 + i) % 400 == 0 ==> (1970 + i) % 100 == 0
  {
  }

  lemma {:induction false} YearsGrow(i: nat, k: nat)
    requires i < k
    ensures DaysBefore(i) + YearLength(1970 + i) <= DaysBefore(k)
    decreases k
  {
    hide DaysBefore, IsLeap;
    if i + 1 == k {
      YearStep(i);
    } else {
      YearsGrow(i, k - 1);
      YearStep(k - 1);
    }
  }

  lemma {:induction false} MonthsGrow(m: nat, k: nat, year: nat)
    requires 1 <= m < k <= 13
    ensures DaysBeforeMonth(m, year) + DaysInMonth(m, year) <= DaysBeforeMonth(k, year)
    decreases k
  {
    hide IsLeap;
    if m + 1 < k {
      MonthsGrow(m, k - 1, year);
    }
  }

  lemma MonthsTotal(year: nat)
    ensures DaysBeforeMonth(13, year) == YearLength(year)
  {
    hide IsLeap;
    var leap := if IsLeap(year) then 1 else 0;
    assert DaysBeforeMonth(2, year) == 31;
    assert DaysBeforeMonth(3, year) == 59 + leap;
    assert DaysBeforeMonth(4, year) == 90 + leap;
    assert DaysBeforeMonth(5, year) == 120 + leap;
    assert DaysBeforeMonth(6, year) == 151 + leap;
    assert DaysBeforeMonth(7, year) == 181 + leap;
    assert DaysBeforeMonth(8, year) == 212 + leap;
    assert DaysBeforeMonth(9, year) == 243 + leap;
    assert DaysBeforeMonth(10, year) == 273 + leap;
    assert DaysBeforeMonth(11, year) == 304 + leap;
    assert DaysBeforeMonth(12, year) == 334 + leap;
  }

  lemma YearDayBound(c: Civil)
    requires ValidCivil(c)
    ensures YearDay(c) < YearLength(c.year)
  {
    hide IsLeap;
    MonthsGrow(c.mon, 13, c.year);
    MonthsTotal(c.year);
  }

  /** Days since the epoch. */
  function DayNumber(c: Civil): int
    requires ValidCivil(c)
  {
    DaysBefore(c.year - 1970) + YearDay(c)
  }

  lemma SecondsOfDay(c: Civil)
    requires ValidCivil(c)
    ensures SecondsSinceEpoch(c) == c.sec + 60 * (c.min + 60 * (c.hour + 24 * DayNumber(c)))
  {
  }

  /** A date is determined by its day number. */
  lemma SameDay(a: Civil, b: Civil)
    requires ValidCivil(a) && ValidCivil(b) && DayNumber(a) == DayNumber(b)
    ensures a.year == b.year && a.mon == b.mon && a.day == b.day
  {
    hide DaysBefore, DaysBeforeMonth, YearLength, IsLeap;
    YearDayBound(a);
    YearDayBound(b);
    if a.year < b.year {
      YearsGrow(a.year - 1970, b.year - 1970);
    } else if b.year < a.year {
      YearsGrow(b.year - 1970, a.year - 1970);
    } else if a.mon < b.mon {
      MonthsGrow(a.mon, b.mon, a.year);
    } else if b.mon < a.mon {
      MonthsGrow(b.mon, a.mon, a.year);
    }
  }

  lemma SplitSixty(x: int, y: int, r: nat, s: nat)
    requires r < 60 && s < 60 && r + 60 * x == s + 60 * y
    ensures x == y && r == s
  {
  }

  /** Different dates or times have different seconds since the epoch. */
  lemma SecondsInjective(a: Civil, b: Civil)
    requires ValidCivil(a) && ValidCivil(b) && SecondsSinceEpoch(a) == SecondsSinceEpoch(b)
    ensures a == b
  {
    hide SecondsSinceEpoch, DayNumber;
    SecondsOfDay(a);
    SecondsOfDay(b);
    SplitSixty(a.min + 60 * (a.hour + 24 * DayNumber(a)), b.min + 60 * (b.hour + 24 * DayNumber(b)), a.sec, b.sec);
    SplitSixty(a.hour + 24 * DayNumber(a), b.hour + 24 * DayNumber(b), a.min, b.min);
    assert a.hour + 24 * DayNumber(a) == b.hour + 24 * DayNumber(b);
    SameDay(a, b);
  }

  const LIMIT: nat := 230103 * 86400

  /** The times in the table are those before the year 2600. */
  lemma BeforeLimit(c: Civil)
    requires ValidCivil(c)
    ensures 0 <= SecondsSinceEpoch(c)
    ensures SecondsSinceEpoch(c) < LIMIT <==> c.year < 2600
  {
    hide SecondsSinceEpoch, DaysBeforeMonth, YearLength, IsLeap;
    SecondsOfDay(c);
    YearDayBound(c);
    assert DaysBefore(0) == 0 && DaysBefore(630) == 230103;
    var i := c.year - 1970;
    DayNumberRange(c);
  }

  lemma DayNumberRange(c: Civil)
    requires ValidCivil(c)
    ensures 0 <= DayNumber(c)
    ensures DayNumber(c) < DaysBefore(630) <==> c.year < 2600
  {
    hide DaysBefore, DaysBeforeMonth, YearLength, IsLeap;
    YearDayBound(c);
    var i := c.year - 1970;
    if i > 0 {
      YearsGrow(0, i);
    }
    if i < 630 {
      YearsGrow(i, 630);
    } else if i > 630 {
      YearsGrow(630, i);
    }
    EpochStart();
  }

  lemma EpochStart()
    ensures DaysBefore(0) == 0
  {
  }

  // ---------------------------------------------------------------- the conversion

  class TimeData {
    var sec: nat
    var min: nat
    var hour: nat
    var day: nat
    var mon: nat
    var year: nat
    var monthName: string

    ghost function Fields(): Civil
      reads this
    {
      Civil(year, mon, day, hour, min, sec)
    }

    /** Finds the year a day falls in. */
    method LookUpYear(days: nat) returns (i: nat)
      ensures i <= YEARS
      ensures i < YEARS <==> days < DaysBefore(630)
      ensures i < YEARS ==> DaysBefore(i) <= days < DaysBefore(i + 1)
    {
      hide DaysBefore;
      EpochStart();
      i := 0;
      while i < YEARS && YearLookup(i) <= days
        invariant i <= YEARS
        invariant i > 0 ==> DaysBefore(i - 1) <= days
      {
        i := i + 1;
      }
      if i == YEARS {
        return;
      }
      if i < 630 {
        YearsGrow(i, 630);
      }
      i := i - 1;
    }

    /** Turns the day of the year, counted from 1, into month and day. */
    method FindMonth(leap: bool)
      requires 1 <= day <= 366 && leap == IsLeap(year) && day <= YearLength(year)
      modifies this`mon, this`day
      ensures 1 <= mon <= 12 && 1 <= day <= DaysInMonth(mon, year)
      ensures DaysBeforeMonth(mon, year) + day == old(day)
    {
      hide IsLeap, YearLength;
      ghost var yearDay := day;
      mon := 0;
      MonthsTotal(year);
      while mon < 12
        invariant 0 <= mon <= 12 && day >= 1 && year == old(year)
        invariant DaysBeforeMonth(mon + 1, year) + day == yearDay
      {
        var tmp := MONTH_DAYS[mon] + if mon == 1 && leap then 1 else 0;
        assert tmp == DaysInMonth(mon + 1, year);
        if day <= tmp {
          break;
        }
        day := day - tmp;
        mon := mon + 1;
      }
      mon := mon + 1;
    }

    /** Takes the time of day off; the days are returned. */
    method SplitClock(time: u64) returns (days: nat)
      modifies this`sec, this`min, this`hour
      ensures hour < 24 && min < 60 && sec < 60
      ensures time == sec + 60 * (min + 60 * (hour + 24 * days))
    {
      var rest: nat := time;
      sec := rest % 60;
      rest := rest - sec;
      rest := rest / 60;
      min := rest % 60;
      rest := rest - min;
      rest := rest / 60;
      hour := rest % 24;
      rest := rest - hour;
      days := rest / 24;
    }

    /** The fields are the civil date and time whose seconds since the epoch were given; from the year 2600
        on there is an error instead. */
    method ExtractTime(time: u64) returns (err: ZxError)
      modifies this
      ensures err == if time < LIMIT then ZxOk else ZxOutOfBounds
      ensures err == ZxOk ==> ValidCivil(Fields()) && SecondsSinceEpoch(Fields()) == time
      ensures err == ZxOk ==> monthName == MonthName(mon)
    {
      hide SecondsSinceEpoch, DaysBefore, DaysBeforeMonth, IsLeap, DaysInMonth, YearLength;
      var days := SplitClock(time);
      TableEnd();
      var i := LookUpYear(days);
      if i == YEARS {
        return ZxOutOfBounds;
      }
      YearStep(i);
      YearLengths(1970 + i);
      day := days - YearLookup(i) + 1;
      year := 1970 + i;
      var leap := year % 4 == 0 && (year % 100 != 0 || year % 400 == 0);
      LeapRule(year);
      FindMonth(leap);
      monthName := MonthName(mon);
      SecondsOfDay(Fields());
      err := ZxOk;
    }
  }

  lemma YearLengths(year: nat)
    ensures 365 <= YearLength(year) <= 366
  {
  }

  lemma TableEnd()
    ensures DaysBefore(630) == 230103
  {
  }

  lemma LeapRule(year: nat)
    ensures IsLeap(year) <==> year % 4 == 0 && (year % 100 != 0 || year % 400 == 0)
  {
  }

  /** Read the other way: whatever the conversion yields for the seconds of a date is that date. */
  lemma InverseOfFormula(c: Civil, fields: Civil)
    requires ValidCivil(c) && c.year < 2600
    requires ValidCivil(fields) && SecondsSinceEpoch(fields) == SecondsSinceEpoch(c)
    ensures SecondsSinceEpoch(c) < LIMIT && fields == c
  {
    BeforeLimit(c);
    SecondsInjective(fields, c);
  }
}
