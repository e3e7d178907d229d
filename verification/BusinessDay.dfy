/**
 * `packages/domain/src/business-day.ts`: business days that start at a local cutover hour, in a
 * zone whose offset changes with time. The zone's history is data; times are milliseconds.
 */
module BusinessDay {
  import opened Wrappers
  import opened Text16
  import opened Calendar

  const DAY := 86_400_000
  const HOUR := 3_600_000

  // ----- the zone ---------------------------------------------------------------------------

  /** From the instant `at` on, local time runs `offset` ahead of UTC. */
  datatype Change = Change(at: int, offset: int)

  datatype Zone = Zone(first: int, changes: seq<Change>)

  function Latest(z: Zone): int {
    if z.changes == [] then z.first else z.changes[|z.changes| - 1].offset
  }

  function Earlier(z: Zone): Zone
    requires z.changes != []
  {
    z.(changes := z.changes[..|z.changes| - 1])
  }

  function OffsetAt(z: Zone, t: int): int
    decreases |z.changes|
  {
    if z.changes == [] then z.first
    else
      var last := z.changes[|z.changes| - 1];
      if last.at <= t then last.offset else OffsetAt(Earlier(z), t)
  }

  predicate IsOffset(o: int) {
    0 < o < DAY
  }

  /** Offsets east of UTC and under a day; changes at least a day apart. */
  predicate ValidZone(z: Zone) {
    && IsOffset(z.first)
    && (forall i :: 0 <= i < |z.changes| ==> IsOffset(z.changes[i].offset))
    && (forall i, j :: 0 <= i < j < |z.changes| ==> z.changes[i].at + DAY <= z.changes[j].at)
  }

  function Wall(z: Zone, t: int): int {
    t + OffsetAt(z, t)
  }

  /** `instantOfKarachiWall`: two passes, the second with the offset the first one found. */
  function InstantOfWall(z: Zone, wall: int): int {
    var t := wall - OffsetAt(z, wall);
    wall - OffsetAt(z, t)
  }

  /** A change does not skip past `wall` after the first skipped instant, nor repeat it. */
  predicate CleanAt(before: int, c: Change, wall: int) {
    !(c.at + before < wall < c.at + c.offset) && !(c.at + c.offset <= wall < c.at + before)
  }

  predicate Clean(z: Zone, wall: int) {
    forall i :: 0 <= i < |z.changes| ==> CleanAt(Latest(z.(changes := z.changes[..i])), z.changes[i], wall)
  }

  // ----- what the day before a wall time looks like ------------------------------------------

  /** One offset throughout, or one change at `u` from `before` to `after`. */
  datatype Shape = Flat(o: int) | Step(u: int, before: int, after: int)

  function ShapeBefore(z: Zone, wall: int): Shape
    decreases |z.changes|
  {
    if z.changes == [] then Flat(z.first)
    else
      var last := z.changes[|z.changes| - 1];
      if last.at > wall then ShapeBefore(Earlier(z), wall)
      else if last.at <= wall - DAY then Flat(last.offset)
      else Step(last.at, Latest(Earlier(z)), last.offset)
  }

  predicate Fits(s: Shape, z: Zone, wall: int) {
    match s
    case Flat(o) => IsOffset(o)
    case Step(u, before, after) => IsOffset(before) && IsOffset(after) && wall - DAY < u <= wall
  }

  function OffsetIn(s: Shape, t: int): int {
    match s
    case Flat(o) => o
    case Step(u, before, after) => if t < u then before else after
  }

  predicate CleanIn(s: Shape, wall: int) {
    match s
    case Flat(_) => true
    case Step(u, before, after) => CleanAt(before, Change(u, after), wall)
  }

  lemma {:induction false} LatestIsOffset(z: Zone)
    requires ValidZone(z)
    ensures IsOffset(Latest(z)) && forall t :: IsOffset(OffsetAt(z, t))
    decreases |z.changes|
  {
    if z.changes != [] {
      LatestIsOffset(Earlier(z));
    }
  }

  /** After its last change a zone keeps its latest offset. */
  lemma AfterLast(z: Zone, t: int)
    requires z.changes != [] ==> z.changes[|z.changes| - 1].at <= t
    ensures OffsetAt(z, t) == Latest(z)
  {
  }

  lemma {:induction false} ShapeOffsets(z: Zone, wall: int)
    requires ValidZone(z)
    ensures Fits(ShapeBefore(z, wall), z, wall)
    ensures forall t :: wall - DAY < t <= wall ==> OffsetAt(z, t) == OffsetIn(ShapeBefore(z, wall), t)
    decreases |z.changes|
  {
    if z.changes != [] {
      var e, last := Earlier(z), z.changes[|z.changes| - 1];
      LatestIsOffset(e);
      if last.at > wall {
        ShapeOffsets(e, wall);
      } else {
        forall t | wall - DAY < t < last.at ensures OffsetAt(z, t) == Latest(e) {
          AfterLast(e, t);
        }
      }
    }
  }

  lemma {:induction false} ShapeClean(z: Zone, wall: int)
    requires ValidZone(z)
    ensures Clean(z, wall) <==> CleanIn(ShapeBefore(z, wall), wall)
    decreases |z.changes|
  {
    hide Clean;
    if z.changes != [] {
      var e, last := Earlier(z), z.changes[|z.changes| - 1];
      LatestIsOffset(e);
      CleanDrop(z, wall);
      if last.at > wall {
        ShapeClean(e, wall);
      } else {
        CleanEarlier(e, wall, last.at);
      }
    } else {
      CleanNone(z, wall);
    }
  }

  lemma CleanNone(z: Zone, wall: int)
    requires z.changes == []
    ensures Clean(z, wall)
  {
  }

  lemma ShapeExact(z: Zone, wall: int)
    requires ValidZone(z)
    ensures Fits(ShapeBefore(z, wall), z, wall)
    ensures forall t :: wall - DAY < t <= wall ==> OffsetAt(z, t) == OffsetIn(ShapeBefore(z, wall), t)
    ensures Clean(z, wall) <==> CleanIn(ShapeBefore(z, wall), wall)
  {
    ShapeOffsets(z, wall);
    ShapeClean(z, wall);
  }

  lemma CleanDrop(z: Zone, wall: int)
    requires z.changes != []
    ensures Clean(z, wall)
      <==> Clean(Earlier(z), wall) && CleanAt(Latest(Earlier(z)), z.changes[|z.changes| - 1], wall)
  {
    hide CleanAt, Latest;
    var e := Earlier(z);
    assert forall i :: 0 <= i < |e.changes| ==>
      e.changes[i] == z.changes[i] && e.(changes := e.changes[..i]) == z.(changes := z.changes[..i]);
  }

  /** Changes a day or more before the wall time do not disturb it. */
  lemma {:induction false} CleanEarlier(z: Zone, wall: int, later: int)
    requires ValidZone(z) && later <= wall
    requires forall i :: 0 <= i < |z.changes| ==> z.changes[i].at + DAY <= later
    ensures Clean(z, wall)
    decreases |z.changes|
  {
    if z.changes != [] {
      LatestIsOffset(Earlier(z));
      CleanEarlier(Earlier(z), wall, later);
      CleanDrop(z, wall);
    }
  }

  // ----- the solver ---------------------------------------------------------------------------

  /** `start` divides time: the wall clock has reached `wall` exactly from `start` on. */
  ghost predicate Divides(z: Zone, wall: int, start: int) {
    forall t :: Wall(z, t) >= wall <==> t >= start
  }

  function SolveIn(s: Shape, wall: int): int {
    wall - OffsetIn(s, wall - OffsetIn(s, wall))
  }

  lemma SolverInWindow(z: Zone, wall: int)
    requires ValidZone(z)
    ensures InstantOfWall(z, wall) == SolveIn(ShapeBefore(z, wall), wall)
    ensures wall - DAY < InstantOfWall(z, wall) < wall
  {
    LatestIsOffset(z);
    ShapeExact(z, wall);
  }

  /** A clock inside the window decides; before it the wall is not reached, after it it is. */
  lemma WallOutside(z: Zone, wall: int, t: int)
    requires ValidZone(z)
    ensures t <= wall - DAY ==> Wall(z, t) < wall
    ensures t >= wall ==> Wall(z, t) >= wall
  {
    LatestIsOffset(z);
  }

  /** When the two passes go wrong, this instant shows it. */
  function Witness(s: Shape, wall: int): int
    requires s.Step?
  {
    if s.before < s.after then s.u else wall - s.before
  }

  /** The two-pass solution divides time correctly exactly at clean wall times. */
  lemma SolverExact(z: Zone, wall: int)
    requires ValidZone(z)
    ensures Divides(z, wall, InstantOfWall(z, wall)) <==> Clean(z, wall)
    ensures !Clean(z, wall) ==> exists t :: Misplaced(z, wall, t)
  {
    var s := ShapeBefore(z, wall);
    ShapeExact(z, wall);
    SolverInWindow(z, wall);
    if CleanIn(s, wall) {
      forall t ensures Wall(z, t) >= wall <==> t >= InstantOfWall(z, wall) {
        WallOutside(z, wall, t);
      }
    } else {
      var t := Witness(s, wall);
      assert wall - DAY < t <= wall;
      assert Misplaced(z, wall, t);
    }
  }

  /** An instant on the wrong side of the solved boundary, with the clock within a day of it. */
  predicate Misplaced(z: Zone, wall: int, t: int) {
    && (Wall(z, t) >= wall) != (t >= InstantOfWall(z, wall))
    && wall - DAY <= Wall(z, t) < wall + DAY
  }

  // ----- the day an instant belongs to --------------------------------------------------------

  predicate IsCutover(c: int) {
    0 <= c <= 23
  }

  /** `civilInKarachi`: the date and the hour on the wall. */
  function CivilAt(z: Zone, t: int): Civil {
    CivilOf(Wall(z, t) / DAY)
  }

  function HourAt(z: Zone, t: int): int {
    Wall(z, t) % DAY / HOUR
  }

  function BusinessDate(z: Zone, t: int, cutover: int): Result<Civil> {
    if !IsCutover(cutover) then Refused
    else if HourAt(z, t) >= cutover then Ok(CivilAt(z, t))
    else Ok(ShiftDate(CivilAt(z, t), -1))
  }

  /** The day number of the business day: the wall clock, put back by the cutover. */
  function DayOf(z: Zone, t: int, cutover: int): int {
    (Wall(z, t) - cutover * HOUR) / DAY
  }

  function CutoverWall(day: int, cutover: int): int {
    day * DAY + cutover * HOUR
  }

  function Start(z: Zone, day: int, cutover: int): int {
    InstantOfWall(z, CutoverWall(day, cutover))
  }

  lemma DayOfReached(z: Zone, t: int, cutover: int, day: int)
    ensures DayOf(z, t, cutover) >= day <==> Wall(z, t) >= CutoverWall(day, cutover)
  {
  }

  /** Before the cutover hour the date is shifted back, and `Date.UTC` would misread its year. */
  predicate ShiftMisread(z: Zone, t: int, cutover: int) {
    HourAt(z, t) < cutover && Misread(CivilAt(z, t))
  }

  /** Before the cutover hour the business day is the calendar day before: the date is right exactly when no shift misreads it. */
  lemma BusinessDateIsDayOf(z: Zone, t: int, cutover: int)
    requires IsCutover(cutover)
    ensures BusinessDate(z, t, cutover) == Ok(CivilOf(DayOf(z, t, cutover))) <==> !ShiftMisread(z, t, cutover)
  {
    hide CivilOf, OffsetAt, ShiftDate, DayNumber;
    HourSplits(Wall(z, t), cutover);
    ShiftExact(CivilAt(z, t), -1);
  }

  lemma HourSplits(w: int, cutover: int)
    requires IsCutover(cutover)
    ensures (w - cutover * HOUR) / DAY == if w % DAY / HOUR >= cutover then w / DAY else w / DAY - 1
  {
    var q, r := w / DAY, w % DAY;
    assert w == q * DAY + r;
  }

  /** The instant lies in the half-open bounds computed for its own business day. */
  predicate InOwnDay(z: Zone, t: int, cutover: int) {
    Start(z, DayOf(z, t, cutover), cutover) <= t < Start(z, DayOf(z, t, cutover) + 1, cutover)
  }

  /**
   * Business days tile time - every instant lies in the bounds of its own day - exactly when no
   * change of offset skips past a cutover or repeats one.
   */
  lemma DaysTileIffClean(z: Zone, cutover: int)
    requires ValidZone(z) && IsCutover(cutover)
    ensures (forall t :: InOwnDay(z, t, cutover)) <==> (forall day :: Clean(z, CutoverWall(day, cutover)))
  {
    hide Clean, OffsetAt, InstantOfWall;
    if forall day :: Clean(z, CutoverWall(day, cutover)) {
      forall t ensures InOwnDay(z, t, cutover) {
        var day := DayOf(z, t, cutover);
        CleanDivides(z, cutover, day, t);
        CleanDivides(z, cutover, day + 1, t);
      }
    }
    if day :| !Clean(z, CutoverWall(day, cutover)) {
      UncleanMisfiles(z, cutover, day);
    }
  }

  lemma CleanDivides(z: Zone, cutover: int, day: int, t: int)
    requires ValidZone(z) && Clean(z, CutoverWall(day, cutover))
    ensures DayOf(z, t, cutover) >= day <==> t >= Start(z, day, cutover)
  {
    hide Clean, OffsetAt, InstantOfWall;
    SolverExact(z, CutoverWall(day, cutover));
    DayOfReached(z, t, cutover, day);
  }

  lemma UncleanMisfiles(z: Zone, cutover: int, day: int)
    requires ValidZone(z) && !Clean(z, CutoverWall(day, cutover))
    ensures exists t :: !InOwnDay(z, t, cutover)
  {
    hide Clean, OffsetAt, InstantOfWall;
    SolverExact(z, CutoverWall(day, cutover));
    var t :| Misplaced(z, CutoverWall(day, cutover), t);
    DayOfReached(z, t, cutover, day - 1);
    DayOfReached(z, t, cutover, day);
    DayOfReached(z, t, cutover, day + 1);
    assert !InOwnDay(z, t, cutover);
  }

  /** Every instant has business day `day` exactly when it lies in the half-open bounds computed for it. */
  ghost predicate DayExact(z: Zone, day: int, cutover: int) {
    forall t :: DayOf(z, t, cutover) == day <==> Start(z, day, cutover) <= t < Start(z, day + 1, cutover)
  }

  predicate CleanDay(z: Zone, day: int, cutover: int) {
    Clean(z, CutoverWall(day, cutover)) && Clean(z, CutoverWall(day + 1, cutover))
  }

  /** The bounds of a day are exact when its own two cutovers are clean, whatever happens to other days. */
  lemma OneDayEach(z: Zone, cutover: int, t: int, day: int)
    requires ValidZone(z) && CleanDay(z, day, cutover)
    ensures DayOf(z, t, cutover) == day <==> Start(z, day, cutover) <= t < Start(z, day + 1, cutover)
  {
    hide Clean, OffsetAt, InstantOfWall;
    CleanDivides(z, cutover, day, t);
    CleanDivides(z, cutover, day + 1, t);
  }

  /** And only then. */
  lemma DayExactIff(z: Zone, day: int, cutover: int)
    requires ValidZone(z)
    ensures DayExact(z, day, cutover) <==> CleanDay(z, day, cutover)
  {
    hide Clean, OffsetAt, InstantOfWall, DayOf, Start;
    if CleanDay(z, day, cutover) {
      forall t ensures DayOf(z, t, cutover) == day <==> Start(z, day, cutover) <= t < Start(z, day + 1, cutover) {
        OneDayEach(z, cutover, t, day);
      }
    } else if !Clean(z, CutoverWall(day, cutover)) {
      FirstUnclean(z, day, cutover);
    } else {
      SecondUnclean(z, day, cutover);
    }
  }

  lemma WallAhead(z: Zone, t: int)
    requires ValidZone(z)
    ensures t < Wall(z, t) < t + DAY
  {
    LatestIsOffset(z);
  }

  /** An instant misplaced at the start of a day is nowhere near its end. */
  lemma FirstUnclean(z: Zone, day: int, cutover: int)
    requires ValidZone(z) && !Clean(z, CutoverWall(day, cutover))
    ensures !DayExact(z, day, cutover)
  {
    hide Clean, OffsetAt, InstantOfWall;
    var wall := CutoverWall(day, cutover);
    SolverExact(z, wall);
    var t :| Misplaced(z, wall, t);
    SolverInWindow(z, CutoverWall(day + 1, cutover));
    WallAhead(z, t);
    DayOfReached(z, t, cutover, day);
    DayOfReached(z, t, cutover, day + 1);
  }

  lemma SecondUnclean(z: Zone, day: int, cutover: int)
    requires ValidZone(z) && !Clean(z, CutoverWall(day + 1, cutover))
    ensures !DayExact(z, day, cutover)
  {
    hide Clean, OffsetAt, InstantOfWall;
    var wall := CutoverWall(day + 1, cutover);
    SolverExact(z, wall);
    var t :| Misplaced(z, wall, t);
    SolverInWindow(z, CutoverWall(day, cutover));
    WallAhead(z, t);
    DayOfReached(z, t, cutover, day);
    DayOfReached(z, t, cutover, day + 1);
  }

  // ----- the bounds of a named date -----------------------------------------------------------

  datatype Bounds = Bounds(startMs: int, endMs: int)

  /** `boundsOfDate`. */
  function BoundsOfDate(z: Zone, date: Civil, cutover: int): Bounds {
    var next := ShiftDate(date, 1);
    Bounds(Start(z, DateUtc(date), cutover), Start(z, DateUtc(next), cutover))
  }

  /** The day's own bounds, when neither its year nor the next day's is misread. */
  lemma BoundsOfRealDate(z: Zone, date: Civil, cutover: int)
    requires Real(date) && !Misread(date) && !Misread(CivilOf(DayNumber(date) + 1))
    ensures BoundsOfDate(z, date, cutover)
      == Bounds(Start(z, DayNumber(date), cutover), Start(z, DayNumber(date) + 1, cutover))
  {
    hide CivilOf, Start, DayNumber, DateUtc;
    ShiftExact(date, 1);
    DateUtcExact(date);
    DateUtcExact(CivilOf(DayNumber(date) + 1));
  }

  lemma StartsAscend(z: Zone, m: int, n: int, cutover: int)
    requires ValidZone(z) && m < n
    ensures Start(z, m, cutover) < Start(z, n, cutover)
  {
    hide InstantOfWall;
    SolverInWindow(z, CutoverWall(m, cutover));
    SolverInWindow(z, CutoverWall(n, cutover));
  }

  /** And only then. */
  lemma BoundsOfRealDateIff(z: Zone, date: Civil, cutover: int)
    requires ValidZone(z) && Real(date)
    ensures BoundsOfDate(z, date, cutover)
      == Bounds(Start(z, DayNumber(date), cutover), Start(z, DayNumber(date) + 1, cutover))
      <==> !Misread(date) && !Misread(CivilOf(DayNumber(date) + 1))
  {
    hide CivilOf, Start, DayNumber, DateUtc;
    var next := CivilOf(DayNumber(date) + 1);
    DateUtcExact(date);
    DateUtcExact(next);
    if Misread(date) {
      StartsAscend(z, DayNumber(date), DateUtc(date), cutover);
    } else if Misread(next) {
      ShiftExact(date, 1);
      StartsAscend(z, DayNumber(date) + 1, DateUtc(next), cutover);
    } else {
      BoundsOfRealDate(z, date, cutover);
    }
  }

  lemma NextYearNotBefore(date: Civil)
    requires Real(date)
    ensures CivilOf(DayNumber(date) + 1).y >= date.y
  {
    hide CivilOf, DayNumber;
    var next := CivilOf(DayNumber(date) + 1);
    RealWithinYear(date);
    RealWithinYear(next);
    if next.y < date.y {
      YearsAscend(next.y + 1, date.y);
    }
  }

  /** Consecutive days share their edge: one ends at the instant the next starts. */
  lemma DaysMeet(z: Zone, date: Civil, cutover: int)
    requires Real(date) && !Misread(date)
    ensures BoundsOfDate(z, date, cutover).endMs == BoundsOfDate(z, CivilOf(DayNumber(date) + 1), cutover).startMs
  {
    hide CivilOf, Start;
    ShiftExact(date, 1);
  }

  /** One millisecond past its start an instant is in the day, clean cutover or not. */
  lemma StartInDay(z: Zone, day: int, cutover: int)
    requires ValidZone(z)
    ensures DayOf(z, Start(z, day, cutover) + 1, cutover) == day
  {
    hide Clean, OffsetAt, InstantOfWall;
    var wall := CutoverWall(day, cutover);
    var t := Start(z, day, cutover) + 1;
    JustAfterStart(z, wall);
    DayOfReached(z, t, cutover, day);
    DayOfReached(z, t, cutover, day + 1);
  }

  lemma JustAfterStart(z: Zone, wall: int)
    requires ValidZone(z)
    ensures wall <= Wall(z, InstantOfWall(z, wall) + 1) < wall + DAY
  {
    hide Clean;
    var s := ShapeBefore(z, wall);
    ShapeExact(z, wall);
    SolverInWindow(z, wall);
    LatestIsOffset(z);
    var t := InstantOfWall(z, wall) + 1;
    assert OffsetAt(z, t) == OffsetIn(s, t);
  }

  /** A date is answered exactly for the cutover hours 0 to 23. */
  lemma CutoverHours(z: Zone, t: int, cutover: int)
    ensures BusinessDate(z, t, cutover).Ok? <==> 0 <= cutover < 24
  {
    hide CivilOf, OffsetAt, ShiftDate;
  }
}
