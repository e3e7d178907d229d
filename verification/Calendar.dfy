/**
 * Civil dates and day numbers as `Date.UTC` and `getUTC*` relate them: the proleptic Gregorian
 * calendar, days counted from 1970-01-01.
 */
module Calendar {
  datatype Civil = Civil(y: int, m: int, d: int)

  const EPOCH := 719162

  predicate Leap(y: int) {
    y % 4 == 0 && (y % 100 != 0 || y % 400 == 0)
  }

  function YearLength(y: int): int {
    if Leap(y) then 366 else 365
  }

  function MonthLength(y: int, m: int): int {
    if m == 2 then (if Leap(y) then 29 else 28)
    else if m == 4 || m == 6 || m == 9 || m == 11 then 30
    else 31
  }

  /** A date that exists. */
  predicate Real(c: Civil) {
    1 <= c.m <= 12 && 1 <= c.d <= MonthLength(c.y, c.m)
  }

  /** Days from 0001-01-01 to the first day of year `y`. */
  function BeforeYear(y: int): int {
    var n := y - 1;
    365 * n + n / 4 - n / 100 + n / 400
  }

  lemma YearStep(y: int)
    ensures BeforeYear(y + 1) == BeforeYear(y) + YearLength(y)
  {
    Step4(y);
    Step100(y);
    Step400(y);
    LeapNested(y);
  }

  lemma Step4(y: int)
    ensures y / 4 == (y - 1) / 4 + (if y % 4 == 0 then 1 else 0)
  {
  }

  lemma Step100(y: int)
    ensures y / 100 == (y - 1) / 100 + (if y % 100 == 0 then 1 else 0)
  {
  }

  lemma Step400(y: int)
    ensures y / 400 == (y - 1) / 400 + (if y % 400 == 0 then 1 else 0)
  {
  }

  lemma LeapNested(y: int)
    ensures y % 400 == 0 ==> y % 100 == 0
    ensures y % 100 == 0 ==> y % 4 == 0
  {
    Hundreds(y / 400);
    Fours(y / 100);
  }

  lemma Hundreds(k: int)
    ensures 400 * k % 100 == 0
  {
    assert 400 * k == 100 * (4 * k);
  }

  lemma Fours(k: int)
    ensures 100 * k % 4 == 0
  {
    assert 100 * k == 4 * (25 * k);
  }

  function BeforeMonth(y: int, m: int): int
    requires 1 <= m <= 13
  {
    if m == 1 then 0 else BeforeMonth(y, m - 1) + MonthLength(y, m - 1)
  }

  lemma MonthsFillYear(y: int)
    ensures BeforeMonth(y, 13) == YearLength(y)
  {
    assert BeforeMonth(y, 2) == 31;
    assert BeforeMonth(y, 3) == 31 + MonthLength(y, 2);
    assert BeforeMonth(y, 5) == BeforeMonth(y, 3) + 31 + 30;
    assert BeforeMonth(y, 7) == BeforeMonth(y, 5) + 31 + 30;
    assert BeforeMonth(y, 9) == BeforeMonth(y, 7) + 31 + 31;
    assert BeforeMonth(y, 11) == BeforeMonth(y, 9) + 30 + 31;
    assert BeforeMonth(y, 13) == BeforeMonth(y, 11) + 30 + 31;
  }

  lemma {:induction false} MonthsAscend(y: int, m: int, n: int)
    requires 1 <= m <= n <= 13
    ensures BeforeMonth(y, m) <= BeforeMonth(y, n)
    ensures m < n ==> BeforeMonth(y, m) + MonthLength(y, m) <= BeforeMonth(y, n)
    decreases n
  {
    if m < n {
      MonthsAscend(y, m, n - 1);
    }
  }

  /** `Date.UTC(y, m - 1, d)` in days: months and days roll over. */
  function DayNumber(c: Civil): int {
    var y, m := c.y + (c.m - 1) / 12, (c.m - 1) % 12 + 1;
    BeforeYear(y) + BeforeMonth(y, m) + c.d - 1 - EPOCH
  }

  /** `Date.UTC` reads the years 0 to 99 as 1900 to 1999. */
  function DateUtc(c: Civil): int {
    DayNumber(if 0 <= c.y <= 99 then c.(y := c.y + 1900) else c)
  }

  lemma RealDayNumber(c: Civil)
    requires Real(c)
    ensures DayNumber(c) == BeforeYear(c.y) + BeforeMonth(c.y, c.m) + c.d - 1 - EPOCH
  {
  }

  lemma RealWithinYear(c: Civil)
    requires Real(c)
    ensures BeforeYear(c.y) <= DayNumber(c) + EPOCH < BeforeYear(c.y + 1)
  {
    RealDayNumber(c);
    YearStep(c.y);
    MonthsFillYear(c.y);
    MonthsAscend(c.y, 1, c.m);
    MonthsAscend(c.y, c.m, 13);
  }

  lemma {:induction false} YearsAscend(y: int, z: int)
    requires y <= z
    ensures BeforeYear(y) <= BeforeYear(z)
    decreases z - y
  {
    if y < z {
      YearStep(y);
      YearsAscend(y + 1, z);
    }
  }

  /** A day has one date. */
  lemma RealUnique(a: Civil, b: Civil)
    requires Real(a) && Real(b) && DayNumber(a) == DayNumber(b)
    ensures a == b
  {
    hide DayNumber, BeforeYear, BeforeMonth, MonthLength;
    RealWithinYear(a);
    RealWithinYear(b);
    if a.y < b.y { YearsAscend(a.y + 1, b.y); }
    if b.y < a.y { YearsAscend(b.y + 1, a.y); }
    RealDayNumber(a);
    RealDayNumber(b);
    if a.m < b.m { MonthsAscend(a.y, a.m, b.m); }
    if b.m < a.m { MonthsAscend(b.y, b.m, a.m); }
  }

  /** The years `Date.UTC` takes for years of the 1900s. */
  predicate Misread(c: Civil) {
    0 <= c.y <= 99
  }

  /** For a day that exists it counts right exactly outside those years, and inside them it runs ahead. */
  lemma DateUtcExact(c: Civil)
    requires Real(c)
    ensures if Misread(c) then DayNumber(c) < DateUtc(c) else DateUtc(c) == DayNumber(c)
  {
    hide BeforeYear, Leap;
    if Misread(c) {
      hide DayNumber;
      var y := c.y + 1900;
      assert BeforeMonth(y, 1) == 0;
      assert DateUtc(c) == DayNumber(Civil(y, c.m, c.d));
      RealWithinYear(c);
      YearsAscend(c.y + 1, y);
      MonthsAscend(y, 1, c.m);
      RolledDayNumber(y, c.m, c.d);
    }
  }

  lemma RolledDayNumber(y: int, m: int, d: int)
    requires 1 <= m <= 12
    ensures DayNumber(Civil(y, m, d)) == BeforeYear(y) + BeforeMonth(y, m) + d - 1 - EPOCH
  {
    hide BeforeYear, BeforeMonth;
  }

  // ----- the date of a day -----------------------------------------------------------------

  function YearUp(n: int, y: int): (r: int)
    requires BeforeYear(y) <= n
    ensures BeforeYear(r) <= n < BeforeYear(r + 1)
    decreases n - BeforeYear(y)
  {
    YearStep(y);
    if n < BeforeYear(y + 1) then y else YearUp(n, y + 1)
  }

  function YearOf(n: int): (y: int)
    ensures BeforeYear(y) <= n < BeforeYear(y + 1)
  {
    var low := if n >= 0 then n / 366 else n / 365;
    assert BeforeYear(low + 1) <= n;
    YearUp(n, low + 1)
  }

  function MonthUp(y: int, k: int, m: int): (r: int)
    requires 1 <= m <= 12 && BeforeMonth(y, m) <= k < BeforeMonth(y, 13)
    ensures m <= r <= 12 && BeforeMonth(y, r) <= k < BeforeMonth(y, r) + MonthLength(y, r)
    decreases 12 - m
  {
    if k < BeforeMonth(y, m + 1) then m else MonthUp(y, k, m + 1)
  }

  function CivilOf(n: int): (c: Civil)
    ensures Real(c) && DayNumber(c) == n
  {
    var y := YearOf(n + EPOCH);
    var k := n + EPOCH - BeforeYear(y);
    YearStep(y);
    MonthsFillYear(y);
    var m := MonthUp(y, k, 1);
    var c := Civil(y, m, k - BeforeMonth(y, m) + 1);
    RealDayNumber(c);
    c
  }

  lemma CivilOfDayNumber(c: Civil)
    requires Real(c)
    ensures CivilOf(DayNumber(c)) == c
  {
    RealUnique(CivilOf(DayNumber(c)), c);
  }

  /** `shiftDate`: whole days, exact. */
  function ShiftDate(c: Civil, days: int): Civil {
    CivilOf(DateUtc(c) + days)
  }

  /** A day that exists is shifted right exactly when its year is not misread. */
  lemma ShiftExact(c: Civil, days: int)
    requires Real(c)
    ensures ShiftDate(c, days) == CivilOf(DayNumber(c) + days) <==> !Misread(c)
  {
    hide DayNumber, DateUtc, Real;
    DateUtcExact(c);
    assert DayNumber(ShiftDate(c, days)) == DateUtc(c) + days;
    assert DayNumber(CivilOf(DayNumber(c) + days)) == DayNumber(c) + days;
  }

  /** How many days each month has, February by its year. */
  lemma MonthLengths(y: int, m: int)
    requires 1 <= m <= 12
    ensures MonthLength(y, m) == [31, if Leap(y) then 29 else 28, 31, 30, 31, 30, 31, 31, 30, 31, 30, 31][m - 1]
  {
  }

  /** Every fourth year is a leap year, but of the full centuries only every fourth. */
  lemma LeapYears(century: int, year: int)
    requires 0 <= year < 100
    ensures Leap(100 * century + year) <==> if year == 0 then century % 4 == 0 else year % 4 == 0
  {
    var y := 100 * century + year;
    assert y % 4 == year % 4;
    assert y % 100 == year;
    if year == 0 {
      var c := century / 4;
      assert y == 400 * c + 100 * (century % 4);
      assert y % 400 == 100 * (century % 4);
    }
  }
}
