/**
 * `packages/domain/src/business-day.ts`: `businessDayBoundsOfDate`, which takes a date as text
 * and refuses every text that names no day.
 */
module NamedDate {
  import opened Wrappers
  import opened Text16
  import opened Calendar
  import opened BusinessDay

  const DASH: CodeUnit := 0x2D

  // ----- YYYY-MM-DD -----------------------------------------------------------------------

  function Zeros(n: nat): (t: Text)
    ensures |t| == n && AllDigits(t) && forall i :: 0 <= i < n ==> t[i] == 0x30
  {
    seq(n, i => 0x30)
  }

  /** `String(n).padStart(width, "0")`. */
  function Pad(width: nat, n: nat): (t: Text)
    ensures AllDigits(t) && |t| >= width
  {
    var digits := Decimal(n);
    if |digits| >= width then digits else Zeros(width - |digits|) + digits
  }

  predicate IsIsoDate(t: Text) {
    |t| == 10 && AllDigits(t[..4]) && t[4] == DASH && AllDigits(t[5..7]) && t[7] == DASH && AllDigits(t[8..])
  }

  function ParseDate(t: Text): Civil
    requires IsIsoDate(t)
  {
    Civil(Value(t[..4]), Value(t[5..7]), Value(t[8..]))
  }

  function YearText(y: int): Text {
    if y < 0 then [DASH] + Decimal(-y) else Pad(4, y)
  }

  function Iso(c: Civil): Text
    requires c.m >= 0 && c.d >= 0
  {
    YearText(c.y) + ([DASH] + (Pad(2, c.m) + ([DASH] + Pad(2, c.d))))
  }

  lemma {:induction false} ValueOfZeros(n: nat, t: Text)
    requires AllDigits(t)
    ensures Value(Zeros(n) + t) == Value(t)
    decreases |t|, n
  {
    var u := Zeros(n) + t;
    if t != [] {
      assert u[..|u| - 1] == Zeros(n) + t[..|t| - 1];
      ValueOfZeros(n, t[..|t| - 1]);
    } else if n > 0 {
      assert u[..|u| - 1] == Zeros(n - 1) + t;
      ValueOfZeros(n - 1, t);
    } else {
      assert u == t;
    }
  }

  lemma ValueOfPad(width: nat, n: nat)
    ensures Value(Pad(width, n)) == n
  {
    ValueOfDecimal(n);
    if |Decimal(n)| < width {
      ValueOfZeros(width - |Decimal(n)|, Decimal(n));
    }
  }

  /** Digit texts of one length are told apart by their values. */
  lemma {:induction false} ValueInjective(a: Text, b: Text)
    requires AllDigits(a) && AllDigits(b) && |a| == |b| && Value(a) == Value(b)
    ensures a == b
  {
    if a != [] {
      var n := |a| - 1;
      assert Value(a[..n]) * 10 + (a[n] - 0x30) == Value(b[..n]) * 10 + (b[n] - 0x30);
      ValueInjective(a[..n], b[..n]);
      assert a == a[..n] + [a[n]] && b == b[..n] + [b[n]];
    }
  }

  lemma {:induction false} ValueBound(t: Text, limit: nat)
    requires AllDigits(t) && limit == Power10(|t|)
    ensures Value(t) < limit
  {
    if t != [] {
      ValueBound(t[..|t| - 1], Power10(|t| - 1));
    }
  }

  function Power10(n: nat): nat {
    if n == 0 then 1 else 10 * Power10(n - 1)
  }

  lemma {:induction false} DecimalLength(n: nat, width: nat)
    requires width > 0 && n < Power10(width)
    ensures |Decimal(n)| <= width
    decreases n
  {
    if n >= 10 {
      DecimalLength(n / 10, width - 1);
    }
  }

  lemma PadLength(width: nat, n: nat)
    requires width > 0 && n < Power10(width)
    ensures |Pad(width, n)| == width
  {
    DecimalLength(n, width);
  }

  lemma PadBack(t: Text)
    requires AllDigits(t) && t != []
    ensures Pad(|t|, Value(t)) == t
  {
    ValueBound(t, Power10(|t|));
    PadLength(|t|, Value(t));
    ValueOfPad(|t|, Value(t));
    ValueInjective(Pad(|t|, Value(t)), t);
  }

  /** The text prints back from the date it parses to, and from no other. */
  lemma IsoExact(t: Text, c: Civil)
    requires IsIsoDate(t) && c.m >= 0 && c.d >= 0
    ensures Iso(c) == t <==> c == ParseDate(t)
  {
    if c == ParseDate(t) {
      PadBack(t[..4]);
      PadBack(t[5..7]);
      PadBack(t[8..]);
      assert t == t[..4] + ([DASH] + (t[5..7] + ([DASH] + t[8..])));
    }
    if Iso(c) == t {
      IsoParses(t, c);
    }
  }

  lemma IsoParses(t: Text, c: Civil)
    requires IsIsoDate(t) && c.m >= 0 && c.d >= 0 && Iso(c) == t
    ensures c == ParseDate(t)
  {
    hide Pad, Value;
    var rest := [DASH] + (Pad(2, c.m) + ([DASH] + Pad(2, c.d)));
    assert t == t[..4] + t[4..];
    assert t[0] == YearText(c.y)[0];
    assert c.y >= 0;
    SplitDigits(YearText(c.y), rest, t[..4], t[4..]);
    assert t[4..] == [DASH] + (t[5..7] + t[7..]);
    Cut([DASH], Pad(2, c.m) + ([DASH] + Pad(2, c.d)), [DASH], t[5..7] + t[7..]);
    SplitDigits(Pad(2, c.m), [DASH] + Pad(2, c.d), t[5..7], t[7..]);
    assert t[7..] == [DASH] + t[8..];
    Cut([DASH], Pad(2, c.d), [DASH], t[8..]);
    ValueOfPad(4, c.y);
    ValueOfPad(2, c.m);
    ValueOfPad(2, c.d);
  }

  // ----- businessDayBoundsOfDate ------------------------------------------------------------

  function BusinessDayBoundsOfDate(z: Zone, text: Text, cutover: int): Result<Bounds> {
    if !IsCutover(cutover) || !IsIsoDate(text) then Refused
    else
      var bounds := BoundsOfDate(z, ParseDate(text), cutover);
      var landed :- BusinessDate(z, bounds.startMs + 1, cutover);
      if landed.m < 0 || landed.d < 0 || Iso(landed) != text then Refused else Ok(bounds)
  }

  /** Rolling a date over never takes it back past the year before. */
  lemma RollsForward(date: Civil)
    requires date.m >= 0 && date.d >= 0
    ensures CivilOf(DayNumber(date)).y >= date.y - 1
  {
    hide CivilOf, BeforeYear;
    var y, m := date.y + (date.m - 1) / 12, (date.m - 1) % 12 + 1;
    YearsAscend(date.y - 1, y);
    YearStep(date.y - 1);
    if date.m == 0 {
      MonthsAscend(y, 2, 12);
      assert BeforeMonth(y, 2) == 31;
    } else {
      YearsAscend(date.y, y);
      MonthsAscend(y, 1, m);
    }
    assert DayNumber(date) + EPOCH >= BeforeYear(date.y - 1);
    YearAtLeast(DayNumber(date), date.y - 1);
  }

  lemma YearAtLeast(n: int, y: int)
    requires n + EPOCH >= BeforeYear(y)
    ensures CivilOf(n).y >= y
  {
    hide CivilOf, DayNumber, BeforeYear;
    var c := CivilOf(n);
    RealWithinYear(c);
    if c.y < y {
      YearsAscend(c.y + 1, y);
    }
  }

  /** The instant just past the start of the day a date names. */
  function JustAfter(z: Zone, date: Civil, cutover: int): int {
    BoundsOfDate(z, date, cutover).startMs + 1
  }

  /** It has the day `Date.UTC` gives the date, and rolls back at most into December of the year before. */
  lemma JustAfterLands(z: Zone, date: Civil, cutover: int)
    requires ValidZone(z) && IsCutover(cutover) && date.y >= 0 && date.m >= 0 && date.d >= 0
    ensures var t := JustAfter(z, date, cutover);
      && DayOf(z, t, cutover) == DateUtc(date)
      && CivilAt(z, t).y >= (if Misread(date) then date.y + 1900 else date.y) - 1
  {
    hide CivilOf, DayNumber, InstantOfWall, OffsetAt;
    var n := DateUtc(date);
    var t := Start(z, n, cutover) + 1;
    StartInDay(z, n, cutover);
    HourSplits(Wall(z, t), cutover);
    var years := if Misread(date) then date.(y := date.y + 1900) else date;
    RollsForward(years);
    RealWithinYear(CivilOf(n));
    YearAtLeast(Wall(z, t) / DAY, years.y - 1);
  }

  /** As a date: the day's own, or one `Date.UTC` moved to the 1900s. */
  lemma Landing(z: Zone, date: Civil, cutover: int)
    requires ValidZone(z) && IsCutover(cutover) && date.y >= 0 && date.m >= 0 && date.d >= 0
    ensures var landed := BusinessDate(z, JustAfter(z, date, cutover), cutover);
      && landed.Ok? && Real(landed.value)
      && (landed.value == date <==> Real(date) && !Misread(date))
  {
    hide CivilOf, DayNumber, InstantOfWall, OffsetAt, BoundsOfDate, DayOf, HourAt, CivilAt;
    var t := JustAfter(z, date, cutover);
    JustAfterLands(z, date, cutover);
    if ShiftMisread(z, t, cutover) {
      LandsInYear99(z, date, t, cutover);
    } else {
      BusinessDateIsDayOf(z, t, cutover);
      LandsOnDay(date);
    }
  }

  /** The date of the day `Date.UTC` gives is the date itself exactly when it exists and is not misread. */
  lemma LandsOnDay(date: Civil)
    ensures CivilOf(DateUtc(date)) == date <==> Real(date) && !Misread(date)
  {
    hide CivilOf, DayNumber;
    if Real(date) {
      DateUtcExact(date);
      CivilOfDayNumber(date);
      assert DayNumber(CivilOf(DateUtc(date))) == DateUtc(date);
    }
  }

  lemma LandsInYear99(z: Zone, date: Civil, t: int, cutover: int)
    requires IsCutover(cutover) && ShiftMisread(z, t, cutover) && date.y >= 0
    requires DayOf(z, t, cutover) == DateUtc(date) && CivilAt(z, t).y >= (if Misread(date) then date.y + 1900 else date.y) - 1
    ensures BusinessDate(z, t, cutover).Ok? && BusinessDate(z, t, cutover).value != date && !Real(date)
  {
    hide CivilOf, DayNumber;
    var c := CivilAt(z, t);
    HourSplits(Wall(z, t), cutover);
    RealWithinYear(c);
    if Real(date) {
      RealWithinYear(date);
    }
    var moved := c.(y := 1999);
    if Real(moved) {
      RealWithinYear(moved);
      YearStep(1998);
      YearAtLeast(DateUtc(c) - 1, 1998);
    }
  }

  /**
   * A text is answered exactly when it is `YYYY-MM-DD` naming a day that exists, from the year
   * 100 on: a date that rolls over is refused, and so are the years `Date.UTC` misreads.
   */
  lemma AcceptsRealDates(z: Zone, text: Text, cutover: int)
    requires ValidZone(z) && IsCutover(cutover)
    ensures BusinessDayBoundsOfDate(z, text, cutover).Ok?
      <==> IsIsoDate(text) && Real(ParseDate(text)) && ParseDate(text).y >= 100
  {
    hide Iso, BusinessDate, BoundsOfDate, Value;
    if IsIsoDate(text) {
      var date := ParseDate(text);
      Landing(z, date, cutover);
      IsoExact(text, BusinessDate(z, JustAfter(z, date, cutover), cutover).value);
    }
  }

  lemma IsoOfDate(date: Civil)
    requires Real(date) && 0 <= date.y <= 9999
    ensures IsIsoDate(Iso(date)) && ParseDate(Iso(date)) == date
  {
    hide Pad, Value;
    var t := Iso(date);
    assert Power10(2) == 100 && Power10(4) == 100 * Power10(2);
    PadLength(4, date.y);
    PadLength(2, date.m);
    PadLength(2, date.d);
    assert t[..4] == Pad(4, date.y) && t[5..7] == Pad(2, date.m) && t[8..] == Pad(2, date.d);
    IsoParses(t, date);
  }

  /** So of the days that exist, each written out as text, exactly those of the years 0 to 99 are refused. */
  lemma EarlyYearsRefused(z: Zone, date: Civil, cutover: int)
    requires ValidZone(z) && IsCutover(cutover) && Real(date) && 0 <= date.y <= 9999
    ensures IsIsoDate(Iso(date)) && ParseDate(Iso(date)) == date
    ensures BusinessDayBoundsOfDate(z, Iso(date), cutover).Refused? <==> date.y <= 99
  {
    hide BusinessDayBoundsOfDate, Iso;
    IsoOfDate(date);
    AcceptsRealDates(z, Iso(date), cutover);
  }

  /** And the answer is that day's own bounds: the instants whose business date prints as the text. */
  lemma NamedDayHoldsItsInstants(z: Zone, text: Text, cutover: int, t: int)
    requires ValidZone(z) && IsCutover(cutover) && BusinessDayBoundsOfDate(z, text, cutover).Ok?
    requires CleanDay(z, DayNumber(ParseDate(text)), cutover) && !ShiftMisread(z, t, cutover)
    ensures var b := BusinessDayBoundsOfDate(z, text, cutover).value;
      b.startMs <= t < b.endMs <==> BusinessDate(z, t, cutover) == Ok(ParseDate(text))
  {
    hide Iso, BusinessDate, BoundsOfDate, Value, CivilOf, DayNumber, Start, CleanDay;
    AcceptsRealDates(z, text, cutover);
    var date := ParseDate(text);
    NextYearNotBefore(date);
    BoundsOfRealDate(z, date, cutover);
    OneDayEach(z, cutover, t, DayNumber(date));
    BusinessDateIsDayOf(z, t, cutover);
    CivilOfDayNumber(date);
  }

  /** And no text is answered at any other cutover. */
  lemma OtherCutoversRefused(z: Zone, text: Text, cutover: int)
    requires cutover < 0 || cutover > 23
    ensures BusinessDayBoundsOfDate(z, text, cutover) == Refused
  {
  }

  /** What is answered are the bounds of the date the text spells. */
  lemma AnswersItsDate(z: Zone, text: Text, cutover: int)
    requires BusinessDayBoundsOfDate(z, text, cutover).Ok?
    ensures IsIsoDate(text) && BusinessDayBoundsOfDate(z, text, cutover).value == BoundsOfDate(z, ParseDate(text), cutover)
  {
    hide BoundsOfDate, BusinessDate, Iso, ParseDate;
  }
}
