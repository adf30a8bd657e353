/** The calendar arithmetic of base/htime.c: days added and taken month by month, against the number of a day. */
module Calendar {
  const DAYS: seq<nat> := [31, 28, 31, 30, 31, 30, 31, 31, 30, 31, 30, 31]

  /** IS_LEAP_YEAR. */
  predicate IsLeap(year: int) { (year % 4 == 0 && year % 100 != 0) || year % 400 == 0 }

  /** days_of_month. */
  function DaysOfMonth(month: int, year: int): nat {
    if month < 1 || month > 12 then 0
    else DAYS[month - 1] + (if month == 2 && IsLeap(year) then 1 else 0)
  }

  predicate IsDate(year: int, month: int, day: int) { 1 <= month <= 12 && 1 <= day <= DaysOfMonth(month, year) }

  /** The days of the years before `year`, by the Gregorian rule. */
  function BeforeYear(year: int): int { 365 * (year - 1) + (year - 1) / 4 - (year - 1) / 100 + (year - 1) / 400 }

  function BeforeMonth(month: int, year: int): nat
    requires 1 <= month <= 12
  {
    if month == 1 then 0 else BeforeMonth(month - 1, year) + DaysOfMonth(month - 1, year)
  }

  /** Day 1 is the first of January of the year 1. */
  function DayNumber(year: int, month: int, day: int): int
    requires 1 <= month <= 12
  {
    BeforeYear(year) + BeforeMonth(month, year) + day
  }

  /** A year has 365 days, or 366. */
  lemma YearLength(year: int)
    ensures BeforeYear(year + 1) == BeforeYear(year) + 365 + (if IsLeap(year) then 1 else 0)
  {
    Fourth(year);
    Hundredth(year);
    FourHundredth(year);
    HundredsAreFourths(year);
    FourHundredsAreHundreds(year);
    assert year + 1 - 1 == year;
  }

  lemma Fourth(n: int)
    ensures n / 4 == (n - 1) / 4 + if n % 4 == 0 then 1 else 0
  {
  }

  lemma Hundredth(n: int)
    ensures n / 100 == (n - 1) / 100 + if n % 100 == 0 then 1 else 0
  {
  }

  lemma FourHundredth(n: int)
    ensures n / 400 == (n - 1) / 400 + if n % 400 == 0 then 1 else 0
  {
  }

  lemma HundredsAreFourths(n: int)
    ensures n % 100 == 0 ==> n % 4 == 0
  {
  }

  lemma FourHundredsAreHundreds(n: int)
    ensures n % 400 == 0 ==> n % 100 == 0
  {
  }

  lemma December(year: int)
    ensures BeforeMonth(12, year) + DaysOfMonth(12, year) == 365 + if IsLeap(year) then 1 else 0
  {
    assert BeforeMonth(1, year) == 0;
    assert BeforeMonth(3, year) == BeforeMonth(2, year) + DaysOfMonth(2, year);
    assert BeforeMonth(5, year) == BeforeMonth(4, year) + 30;
    assert BeforeMonth(7, year) == BeforeMonth(6, year) + 30;
    assert BeforeMonth(9, year) == BeforeMonth(8, year) + 31;
    assert BeforeMonth(11, year) == BeforeMonth(10, year) + 31;
  }

  /** The first of the next month follows the last of this one. */
  lemma NextMonth(year: int, month: int)
    requires 1 <= month <= 12
    ensures DayNumber(year, month, DaysOfMonth(month, year)) + 1
            == if month < 12 then DayNumber(year, month + 1, 1) else DayNumber(year + 1, 1, 1)
  {
    YearLength(year);
    December(year);
  }

  lemma {:induction false} LaterYear(a: int, b: int)
    requires a <= b
    ensures BeforeYear(a) + 365 * (b - a) <= BeforeYear(b)
    decreases b - a
  {
    if a < b {
      LaterYear(a, b - 1);
      YearLength(b - 1);
    }
  }

  lemma {:induction false} LaterMonth(year: int, a: int, b: int)
    requires 1 <= a < b <= 12
    ensures BeforeMonth(a, year) + DaysOfMonth(a, year) <= BeforeMonth(b, year)
    decreases b - a
  {
    if a + 1 < b { LaterMonth(year, a, b - 1); }
  }

  lemma WithinYear(year: int, month: int, day: int)
    requires IsDate(year, month, day)
    ensures BeforeYear(year) < DayNumber(year, month, day) <= BeforeYear(year + 1)
  {
    YearLength(year);
    December(year);
    if month < 12 { LaterMonth(year, month, 12); }
  }

  /** A later date has a greater number. */
  lemma Later(y: int, m: int, d: int, y': int, m': int, d': int)
    requires IsDate(y, m, d) && IsDate(y', m', d')
    requires y < y' || (y == y' && (m < m' || (m == m' && d < d')))
    ensures DayNumber(y, m, d) < DayNumber(y', m', d')
  {
    WithinYear(y, m, d);
    WithinYear(y', m', d');
    if y < y' {
      LaterYear(y + 1, y');
    } else if m < m' {
      LaterMonth(y, m, m');
    }
  }

  /** No two dates have the same number. */
  lemma Unique(y: int, m: int, d: int, y': int, m': int, d': int)
    requires IsDate(y, m, d) && IsDate(y', m', d') && DayNumber(y, m, d) == DayNumber(y', m', d')
    ensures y == y' && m == m' && d == d'
  {
    if y < y' || (y == y' && (m < m' || (m == m' && d < d'))) {
      Later(y, m, d, y', m', d');
    } else if y != y' || m != m' || d != d' {
      Later(y', m', d', y, m, d);
    }
  }

  /** The fields of datetime_t that count days. */
  class DateTime {
    var year: int
    var month: int
    var day: int

    ghost predicate Valid()
      reads this
    {
      IsDate(year, month, day)
    }

    ghost function Number(): int
      requires Valid()
      reads this
    {
      DayNumber(year, month, day)
    }

    constructor (year: int, month: int, day: int)
      requires IsDate(year, month, day)
      ensures Valid() && this.year == year && this.month == month && this.day == day
    {
      this.year, this.month, this.day := year, month, day;
    }

    /** datetime_past. */
    method Past(days: nat)
      requires Valid()
      modifies this
      ensures Valid() && Number() == old(Number()) - days
    {
      hide BeforeYear, BeforeMonth;
      var sub := days;
      while sub != 0
        invariant Valid() && sub >= 0 && Number() - sub == old(Number()) - days
      {
        if day > sub {
          day := day - sub;
          break;
        }
        sub := sub - day;
        NextMonth(if month == 1 then year - 1 else year, if month == 1 then 12 else month - 1);
        month := month - 1;
        if month == 0 {
          month := 12;
          year := year - 1;
        }
        day := DaysOfMonth(month, year);
      }
    }

    /** datetime_future. */
    method Future(days: nat)
      requires Valid()
      modifies this
      ensures Valid() && Number() == old(Number()) + days
    {
      hide BeforeYear, BeforeMonth;
      var sub := days;
      while sub != 0
        invariant Valid() && sub >= 0 && Number() + sub == old(Number()) + days
      {
        var mdays := DaysOfMonth(month, year);
        if day + sub <= mdays {
          day := day + sub;
          break;
        }
        sub := sub - (mdays - day + 1);
        NextMonth(year, month);
        month := month + 1;
        if month > 12 {
          month := 1;
          year := year + 1;
        }
        day := 1;
      }
    }
  }

  /** Past takes back what Future added, and the other way round. */
  method ThereAndBack(dt: DateTime, days: nat, pastFirst: bool)
    requires dt.Valid()
    modifies dt
    ensures dt.year == old(dt.year) && dt.month == old(dt.month) && dt.day == old(dt.day)
  {
    hide DayNumber;
    if pastFirst {
      dt.Past(days);
      dt.Future(days);
    } else {
      dt.Future(days);
      dt.Past(days);
    }
    Unique(dt.year, dt.month, dt.day, old(dt.year), old(dt.month), old(dt.day));
  }
}
