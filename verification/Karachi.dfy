/**
 * The zone `packages/domain/src/business-day.ts` fixes, `Asia/Karachi`, and the business days that its
 * changes of offset disturb.
 */
module Karachi {
  import opened Calendar
  import opened BusinessDay

  const MINUTE := 60_000

  /** The clock changes at midnight of this day, as read before the change. */
  function AtMidnight(day: int, before: int, after: int): Change {
    Change(day * DAY - before, after)
  }

  /** Every change of offset so far, all at midnight: standard time, the war, 1951, and three summers. */
  const TURNS := [
    Civil(1907, 1, 1), Civil(1942, 9, 1), Civil(1945, 10, 15), Civil(1951, 9, 30),
    Civil(2002, 4, 7), Civil(2002, 10, 6), Civil(2008, 6, 1), Civil(2008, 11, 1), Civil(2009, 4, 15), Civil(2009, 11, 1)]

  /** The offset before the first change, which is local mean time, and after each. */
  const OFFSETS := [
    4 * HOUR + 28 * MINUTE + 12_000, 5 * HOUR + 30 * MINUTE, 6 * HOUR + 30 * MINUTE, 5 * HOUR + 30 * MINUTE,
    5 * HOUR, 6 * HOUR, 5 * HOUR, 6 * HOUR, 5 * HOUR, 6 * HOUR, 5 * HOUR]

  const KARACHI := Zone(OFFSETS[0],
    seq(10, i requires 0 <= i < 10 => AtMidnight(DayNumber(TURNS[i]), OFFSETS[i], OFFSETS[i + 1])))

  /** The days of the changes, counted from 1970. */
  const DAYS := [-23011, -9984, -8844, -6668, 11784, 11966, 14031, 14184, 14349, 14549]

  lemma TurnDay(i: nat)
    requires i < 10
    ensures DayNumber(TURNS[i]) == DAYS[i]
  {
    hide DayNumber;
    var c := TURNS[i];
    DaysTo(c.y, c.m, c.d);
  }

  lemma DaysTo(y: int, m: int, d: int)
    requires m in {1, 4, 6, 9, 10, 11}
    ensures DayNumber(Civil(y, m, d)) == BeforeYear(y) - EPOCH + d - 1
      + (if m == 1 then 0 else
           (if Leap(y) then 60 else 59) + (match m case 4 => 31 case 6 => 92 case 9 => 184 case 10 => 214 case _ => 245))
  {
    assert BeforeMonth(y, 1) == 0 && BeforeMonth(y, 2) == 31;
    assert BeforeMonth(y, 4) == BeforeMonth(y, 3) + 31 && BeforeMonth(y, 3) == (if Leap(y) then 60 else 59);
    if m >= 6 { assert BeforeMonth(y, 6) == BeforeMonth(y, 5) + 31 && BeforeMonth(y, 5) == BeforeMonth(y, 4) + 30; }
    if m >= 9 {
      assert BeforeMonth(y, 8) == BeforeMonth(y, 7) + 31 && BeforeMonth(y, 7) == BeforeMonth(y, 6) + 30;
      assert BeforeMonth(y, 9) == BeforeMonth(y, 8) + 31 && BeforeMonth(y, 10) == BeforeMonth(y, 9) + 30;
    }
    if m == 11 { assert BeforeMonth(y, 11) == BeforeMonth(y, 10) + 31; }
  }

  lemma KarachiChange(i: nat)
    requires i < 10
    ensures KARACHI.changes[i] == AtMidnight(DAYS[i], OFFSETS[i], OFFSETS[i + 1])
    ensures Latest(KARACHI.(changes := KARACHI.changes[..i])) == OFFSETS[i]
  {
    hide DayNumber;
    TurnDay(i);
  }

  lemma {:induction false} DaysApart(i: nat, j: nat)
    requires i < j < 10
    ensures DAYS[i] + 2 <= DAYS[j]
    decreases j
  {
    if i < j - 1 {
      DaysApart(i, j - 1);
    }
  }

  lemma KarachiChangeAt(i: nat)
    requires i < 10
    ensures KARACHI.changes[i] == Change(DAYS[i] * DAY - OFFSETS[i], OFFSETS[i + 1])
    ensures IsOffset(OFFSETS[i]) && IsOffset(OFFSETS[i + 1])
  {
    hide DayNumber;
    KarachiChange(i);
  }

  lemma ChangesApart(i: nat, j: nat)
    requires i < j < 10
    ensures KARACHI.changes[i].at + DAY <= KARACHI.changes[j].at
  {
    hide DayNumber;
    KarachiChangeAt(i);
    KarachiChangeAt(j);
    DaysApart(i, j);
    MidnightsApart(DAYS[i], OFFSETS[i], DAYS[j], OFFSETS[j]);
  }

  lemma MidnightsApart(c: int, o: int, d: int, p: int)
    requires c + 2 <= d && IsOffset(o) && IsOffset(p)
    ensures c * DAY - o + DAY <= d * DAY - p
  {
    assert d * DAY - c * DAY - 2 * DAY == (d - c - 2) * DAY;
  }

  lemma KarachiValid()
    ensures ValidZone(KARACHI)
  {
    hide DayNumber;
    forall i: nat | i < 10 ensures IsOffset(KARACHI.changes[i].offset) {
      KarachiChangeAt(i);
    }
    forall i: nat, j: nat | i < j < 10 ensures KARACHI.changes[i].at + DAY <= KARACHI.changes[j].at {
      ChangesApart(i, j);
    }
  }

  /** This change skips the cutover of this day, or makes it come twice. */
  predicate Disturbs(i: nat, day: int, cutover: int)
    requires i < 10
  {
    if i == 0 then cutover == 1 && day == DAYS[0]
    else cutover == 23 && i in {2, 5, 7, 9} && day == DAYS[i] - 1
  }

  /** Midnight is never skipped past, and only a whole hour or more reaches a cutover. */
  lemma MidnightClean(d: int, before: int, after: int, day: int, cutover: int)
    requires IsCutover(cutover) && -HOUR <= after - before < 2 * HOUR
    ensures CleanAt(before, AtMidnight(d, before, after), CutoverWall(day, cutover)) <==>
      !(if after - before > HOUR then day == d && cutover == 1
        else after - before == -HOUR && day == d - 1 && cutover == 23)
  {
    var w := CutoverWall(day, cutover) - d * DAY;
    assert w == (day - d) * DAY + cutover * HOUR;
    if day < d { assert w <= (if cutover == 23 && day == d - 1 then -HOUR else -2 * HOUR); }
    if day == d { assert w == cutover * HOUR; }
    if day > d { assert w >= DAY; }
  }

  lemma KarachiCleanAt(i: nat, day: int, cutover: int)
    requires i < 10 && IsCutover(cutover)
    ensures CleanAt(Latest(KARACHI.(changes := KARACHI.changes[..i])), KARACHI.changes[i], CutoverWall(day, cutover))
      <==> !Disturbs(i, day, cutover)
  {
    hide DayNumber, CleanAt, CutoverWall, AtMidnight;
    KarachiChange(i);
    MidnightClean(DAYS[i], OFFSETS[i], OFFSETS[i + 1], day, cutover);
  }

  /** The cutovers the clock skipped or repeated: 1:00 of one morning, 23:00 of four nights. */
  predicate Disturbed(day: int, cutover: int) {
    (cutover == 1 && day == -23011) || (cutover == 23 && day in {-8845, 11965, 14183, 14548})
  }

  lemma DisturbedBy(day: int, cutover: int)
    ensures Disturbed(day, cutover) <==> exists i: nat :: i < 10 && Disturbs(i, day, cutover)
  {
    if Disturbed(day, cutover) {
      var i := if cutover == 1 then 0 else if day == -8845 then 2 else if day == 11965 then 5 else if day == 14183 then 7 else 9;
      assert Disturbs(i, day, cutover);
    }
  }

  lemma KarachiClean(day: int, cutover: int)
    requires IsCutover(cutover)
    ensures Clean(KARACHI, CutoverWall(day, cutover)) <==> !Disturbed(day, cutover)
  {
    hide DayNumber, Latest, CleanAt, CutoverWall, AtMidnight, Disturbs, Disturbed;
    DisturbedBy(day, cutover);
    forall i: nat | i < 10
      ensures CleanAt(Latest(KARACHI.(changes := KARACHI.changes[..i])), KARACHI.changes[i], CutoverWall(day, cutover))
        <==> !Disturbs(i, day, cutover)
    {
      KarachiCleanAt(i, day, cutover);
    }
  }

  /** In Karachi the bounds of a day are exact unless the clock skipped or repeated its own cutover or the next one. */
  lemma KarachiDayExact(day: int, cutover: int)
    requires IsCutover(cutover)
    ensures DayExact(KARACHI, day, cutover) <==> !Disturbed(day, cutover) && !Disturbed(day + 1, cutover)
  {
    hide Clean, DayExact, Disturbed;
    KarachiValid();
    KarachiClean(day, cutover);
    KarachiClean(day + 1, cutover);
    DayExactIff(KARACHI, day, cutover);
  }

  /** So business days tile Karachi time at every cutover but 1 and 23. */
  lemma KarachiTiles(cutover: int)
    requires IsCutover(cutover)
    ensures (forall t :: InOwnDay(KARACHI, t, cutover)) <==> cutover != 1 && cutover != 23
  {
    hide Clean, CutoverWall, InOwnDay;
    KarachiValid();
    forall day ensures Clean(KARACHI, CutoverWall(day, cutover)) <==> !Disturbed(day, cutover) {
      KarachiClean(day, cutover);
    }
    assert Disturbed(-23011, 1) && Disturbed(14183, 23);
    DaysTileIffClean(KARACHI, cutover);
  }

  /** At 23 the last millisecond before the clocks went back in November 2008 lies outside its own day. */
  lemma RepeatedCutoverMisfiles()
    ensures var back := KARACHI.changes[7].at;
      && Wall(KARACHI, back - 1) == DayNumber(Civil(2008, 11, 1)) * DAY - 1
      && !InOwnDay(KARACHI, back - 1, 23)
  {
    hide DayNumber;
    KarachiChange(7);
    TurnDay(7);
    var back := 14184 * DAY - 6 * HOUR;
    NovemberOffsets(back - 1);
    NovemberOffsets(back + HOUR);
    var wall := CutoverWall(14183, 23);
    NovemberOffsets(wall);
    NovemberOffsets(wall - 5 * HOUR);
    assert DayOf(KARACHI, back - 1, 23) == 14183;
    assert Start(KARACHI, 14183, 23) == back;
  }

  lemma NovemberOffsets(t: int)
    requires 14032 * DAY <= t < 14300 * DAY
    ensures OffsetAt(KARACHI, t) == if t < 14184 * DAY - 6 * HOUR then 6 * HOUR else 5 * HOUR
  {
    hide DayNumber;
    KarachiChange(6);
    KarachiChange(7);
    KarachiChange(8);
    KarachiChange(9);
    var z8 := Earlier(Earlier(KARACHI));
    assert z8.changes == KARACHI.changes[..8] && Earlier(z8).changes == KARACHI.changes[..7];
    assert OffsetAt(KARACHI, t) == OffsetAt(z8, t);
  }
}
