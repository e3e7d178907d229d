/**
 * `packages/auditor/src/auditor.ts`, leg 1: which lamport slots a device was obliged to fill and
 * nothing filled, found as runs over the sorted covered slots.
 */
module GapLeg {
  import opened Wrappers

  /** Device ids are compared and nothing else. */
  type DeviceId(==, !new)

  datatype MergedRow = MergedRow(deviceId: DeviceId, lamportSeq: int)

  /** `claim` is the integer lamport the stored bytes yield, if they parse and yield one. */
  datatype QuarantineRow = QuarantineRow(deviceId: DeviceId, claim: Option<int>)

  /** One finding: a single missing slot, or a whole run named by its extent. */
  datatype Finding = Slot(deviceId: DeviceId, slot: int) | Range(deviceId: DeviceId, first: int, last: int)

  const GAP_RUN_SLOT_FINDINGS := 8

  // ----- the coverage law -------------------------------------------------------------------

  predicate Covers(events: seq<MergedRow>, quarantine: seq<QuarantineRow>, d: DeviceId, slot: int) {
    MergedRow(d, slot) in events || (slot >= 0 && QuarantineRow(d, Some(slot)) in quarantine)
  }

  /** The largest merged lamport of a device, or -1. */
  function MaxMerged(events: seq<MergedRow>, d: DeviceId): (m: int)
    ensures m >= -1
    ensures forall r :: r in events && r.deviceId == d ==> r.lamportSeq <= m
    ensures m == -1 || MergedRow(d, m) in events
  {
    if events == [] then -1
    else
      var rest := MaxMerged(events[..|events| - 1], d);
      var r := events[|events| - 1];
      if r.deviceId == d && r.lamportSeq > rest then r.lamportSeq else rest
  }

  predicate Merged(events: seq<MergedRow>, d: DeviceId) {
    exists r :: r in events && r.deviceId == d
  }

  function Watermark(watermarks: map<DeviceId, int>, d: DeviceId): int {
    if d in watermarks then watermarks[d] else -1
  }

  /** A device owes slots 0 to its watermark or its largest merged lamport, whichever is more. */
  function Owed(events: seq<MergedRow>, watermarks: map<DeviceId, int>, d: DeviceId): int {
    var w, m := Watermark(watermarks, d), MaxMerged(events, d);
    if w > m then w else m
  }

  predicate Missing(events: seq<MergedRow>, quarantine: seq<QuarantineRow>, watermarks: map<DeviceId, int>,
                    d: DeviceId, slot: int) {
    0 <= slot <= Owed(events, watermarks, d) && !Covers(events, quarantine, d, slot)
  }

  predicate Names(f: Finding, d: DeviceId, slot: int) {
    match f
    case Slot(e, s) => e == d && s == slot
    case Range(e, first, last) => e == d && first <= slot <= last
  }

  // ----- runs over a sorted covered set -----------------------------------------------------

  predicate Ascending(slots: seq<int>) {
    forall i, j :: 0 <= i < j < |slots| ==> slots[i] < slots[j]
  }

  datatype Run = Run(first: int, last: int)

  predicate InRun(r: Run, slot: int) {
    r.first <= slot <= r.last
  }

  predicate InSome(runs: seq<Run>, slot: int) {
    exists r :: r in runs && InRun(r, slot)
  }

  lemma InSomeMore(runs: seq<Run>, r: Run, slot: int)
    ensures InSome(runs + [r], slot) <==> InSome(runs, slot) || InRun(r, slot)
  {
    if InSome(runs, slot) {
      var q :| q in runs && InRun(q, slot);
      assert q in runs + [r];
    }
    if InRun(r, slot) {
      assert r in runs + [r];
    }
  }

  /** Non-empty, ascending, and apart: between two runs lies at least one slot of neither. */
  predicate Disjoint(runs: seq<Run>) {
    && (forall i :: 0 <= i < |runs| ==> runs[i].first <= runs[i].last)
    && (forall i, j :: 0 <= i < j < |runs| ==> runs[i].last + 1 < runs[j].first)
  }

  /** Exactly the slots of 0..hi that `covered` lacks lie in some run. */
  ghost predicate Cover(runs: seq<Run>, covered: set<int>, hi: int) {
    forall slot :: InSome(runs, slot) <==> 0 <= slot <= hi && slot !in covered
  }

  function SlotSet(slots: seq<int>): set<int> {
    set s | s in slots
  }

  /** The runs found once every slot below `next` is behind. */
  ghost predicate FoundBelow(runs: seq<Run>, covered: set<int>, next: int) {
    && Disjoint(runs) && Cover(runs, covered, next - 1)
    && (forall k :: 0 <= k < |runs| ==> runs[k].last + 1 < next)
    && (forall s :: s in covered ==> s < next)
  }

  lemma RunAppended(runs: seq<Run>, covered: set<int>, next: int, slot: int)
    requires FoundBelow(runs, covered, next) && 0 <= next < slot
    ensures Disjoint(runs + [Run(next, slot - 1)]) && Cover(runs + [Run(next, slot - 1)], covered, slot - 1)
    ensures FoundBelow(runs + [Run(next, slot - 1)], covered + {slot}, slot + 1)
  {
    hide Cover;
    CoverOneMore(runs, covered, next, slot - 1);
    CoverSlot(runs + [Run(next, slot - 1)], covered, slot);
  }

  lemma RunContinued(runs: seq<Run>, covered: set<int>, next: int)
    requires FoundBelow(runs, covered, next) && 0 <= next
    ensures FoundBelow(runs, covered + {next}, next + 1)
  {
    hide Cover;
    CoverSlot(runs, covered, next);
  }

  method MissingRuns(covered: seq<int>, hi: int) returns (runs: seq<Run>)
    requires Ascending(covered) && forall s :: s in covered ==> 0 <= s <= hi
    ensures Disjoint(runs) && Cover(runs, SlotSet(covered), hi)
    ensures |runs| <= |covered| + 1
  {
    hide Disjoint, Cover;
    runs := [];
    var next := 0;
    NothingFound();
    assert SlotSet(covered[..0]) == {};
    for i := 0 to |covered|
      invariant next == if i == 0 then 0 else covered[i - 1] + 1
      invariant 0 <= next && |runs| <= i
      invariant i > 0 ==> covered[i - 1] <= hi
      invariant FoundBelow(runs, SlotSet(covered[..i]), next)
    {
      hide FoundBelow;
      var slot := covered[i];
      assert slot in covered;
      assert covered[..i + 1] == covered[..i] + [slot];
      assert SlotSet(covered[..i + 1]) == SlotSet(covered[..i]) + {slot};
      if slot > next {
        RunAppended(runs, SlotSet(covered[..i]), next, slot);
        runs := runs + [Run(next, slot - 1)];
      } else {
        RunContinued(runs, SlotSet(covered[..i]), next);
      }
      next := slot + 1;
    }
    assert covered[..|covered|] == covered;
    if next <= hi {
      RunAppended(runs, SlotSet(covered), next, hi + 1);
      runs := runs + [Run(next, hi)];
    } else {
      NothingAbove(runs, SlotSet(covered), next, hi);
    }
  }

  lemma NothingAbove(runs: seq<Run>, covered: set<int>, next: int, hi: int)
    requires FoundBelow(runs, covered, next) && (next == hi + 1 || (next == 0 && hi < 0))
    ensures Disjoint(runs) && Cover(runs, covered, hi)
  {
  }

  lemma NothingFound()
    ensures FoundBelow([], {}, 0)
  {
  }

  /** A run from just past the last covered slot to `hi` extends the cover to `hi`. */
  lemma CoverOneMore(runs: seq<Run>, covered: set<int>, next: int, hi: int)
    requires Cover(runs, covered, next - 1) && 0 <= next <= hi
    requires forall s :: s in covered ==> s < next
    ensures Cover(runs + [Run(next, hi)], covered, hi)
  {
    forall slot ensures InSome(runs + [Run(next, hi)], slot) <==> 0 <= slot <= hi && slot !in covered {
      InSomeMore(runs, Run(next, hi), slot);
    }
  }

  /** Covering the slot just past `hi` needs no run. */
  lemma CoverSlot(runs: seq<Run>, covered: set<int>, slot: int)
    requires Cover(runs, covered, slot - 1)
    ensures Cover(runs, covered + {slot}, slot)
  {
  }

  // ----- findings from runs -----------------------------------------------------------------

  /** A short run slot by slot, a long one as its extent. */
  function Emit(d: DeviceId, r: Run): (fs: seq<Finding>)
    requires r.first <= r.last
    ensures |fs| <= GAP_RUN_SLOT_FINDINGS
  {
    if r.last - r.first + 1 <= GAP_RUN_SLOT_FINDINGS then
      seq(r.last - r.first + 1, i requires 0 <= i => Slot(d, r.first + i))
    else [Range(d, r.first, r.last)]
  }

  function EmitAll(d: DeviceId, runs: seq<Run>): (fs: seq<Finding>)
    requires forall i :: 0 <= i < |runs| ==> runs[i].first <= runs[i].last
    ensures |fs| <= GAP_RUN_SLOT_FINDINGS * |runs|
  {
    if runs == [] then [] else EmitAll(d, runs[..|runs| - 1]) + Emit(d, runs[|runs| - 1])
  }

  function FindingsOf(findings: seq<Finding>, d: DeviceId): (fs: seq<Finding>)
    ensures forall f :: f in fs <==> f in findings && f.deviceId == d
  {
    if findings == [] then []
    else
      var rest := FindingsOf(findings[..|findings| - 1], d);
      var f := findings[|findings| - 1];
      if f.deviceId == d then rest + [f] else rest
  }

  lemma {:induction false} FindingsOfConcat(a: seq<Finding>, b: seq<Finding>, d: DeviceId)
    ensures FindingsOf(a + b, d) == FindingsOf(a, d) + FindingsOf(b, d)
  {
    if b == [] {
      assert a + b == a;
    } else {
      var b' := b[..|b| - 1];
      FindingsOfConcat(a, b', d);
      assert (a + b)[..|a + b| - 1] == a + b';
    }
  }

  lemma {:induction false} FindingsOfOne(findings: seq<Finding>, d: DeviceId, e: DeviceId)
    requires forall f :: f in findings ==> f.deviceId == d
    ensures FindingsOf(findings, e) == if e == d then findings else []
  {
    if findings != [] {
      var rest, last := findings[..|findings| - 1], findings[|findings| - 1];
      assert findings == rest + [last];
      assert last in findings;
      FindingsOfOne(rest, d, e);
    }
  }

  lemma {:induction false} EmitAllNames(d: DeviceId, runs: seq<Run>, slot: int)
    requires forall i :: 0 <= i < |runs| ==> runs[i].first <= runs[i].last
    ensures NamedIn(EmitAll(d, runs), d, slot) <==> InSome(runs, slot)
    ensures forall f :: f in EmitAll(d, runs) ==> f.deviceId == d
  {
    if runs != [] {
      var init, last := runs[..|runs| - 1], runs[|runs| - 1];
      EmitAllNames(d, init, slot);
      EmitNames(d, last, slot);
      NamedInConcat(EmitAll(d, init), Emit(d, last), d, slot);
      InSomeMore(init, last, slot);
      assert runs == init + [last];
    }
  }

  predicate NamedIn(findings: seq<Finding>, d: DeviceId, slot: int) {
    exists f :: f in findings && Names(f, d, slot)
  }

  lemma NamedInConcat(a: seq<Finding>, b: seq<Finding>, d: DeviceId, slot: int)
    ensures NamedIn(a + b, d, slot) <==> NamedIn(a, d, slot) || NamedIn(b, d, slot)
  {
    if NamedIn(a, d, slot) {
      var f :| f in a && Names(f, d, slot);
      assert f in a + b;
    }
    if NamedIn(b, d, slot) {
      var f :| f in b && Names(f, d, slot);
      assert f in a + b;
    }
  }

  lemma EmitNames(d: DeviceId, r: Run, slot: int)
    requires r.first <= r.last
    ensures NamedIn(Emit(d, r), d, slot) <==> InRun(r, slot)
    ensures forall f :: f in Emit(d, r) ==> f.deviceId == d
  {
    var fs := Emit(d, r);
    assert r.last - r.first + 1 <= GAP_RUN_SLOT_FINDINGS ==>
      forall i :: 0 <= i < |fs| ==> fs[i] == Slot(d, r.first + i);
    if InRun(r, slot) {
      if r.last - r.first + 1 <= GAP_RUN_SLOT_FINDINGS {
        assert fs[slot - r.first] == Slot(d, slot) && Names(fs[slot - r.first], d, slot);
      } else {
        assert fs[0] == Range(d, r.first, r.last) && Names(fs[0], d, slot);
      }
    }
  }

  // ----- the leg ----------------------------------------------------------------------------

  /** The slots that cover part of what device `d` owes. */
  ghost predicate CoveredSlots(events: seq<MergedRow>, quarantine: seq<QuarantineRow>,
                               watermarks: map<DeviceId, int>, d: DeviceId, covered: seq<int>) {
    Ascending(covered) &&
    forall s :: s in covered <==> Covers(events, quarantine, d, s) && s <= Owed(events, watermarks, d)
  }

  /** The report on one device: its runs, emitted in order, over exactly its covered slots. */
  ghost predicate Report(events: seq<MergedRow>, quarantine: seq<QuarantineRow>, watermarks: map<DeviceId, int>,
                         d: DeviceId, findings: seq<Finding>, runs: seq<Run>, covered: seq<int>) {
    && Disjoint(runs) && |runs| <= |covered| + 1
    && CoveredSlots(events, quarantine, watermarks, d, covered)
    && Cover(runs, SlotSet(covered), Owed(events, watermarks, d))
    && FindingsOf(findings, d) == EmitAll(d, runs)
  }

  ghost predicate Reported(events: seq<MergedRow>, quarantine: seq<QuarantineRow>,
                           watermarks: map<DeviceId, int>, d: DeviceId, findings: seq<Finding>) {
    exists runs, covered :: Report(events, quarantine, watermarks, d, findings, runs, covered)
  }

  /**
   * What a report says: exactly the missing slots, and a number of findings bounded by what is
   * covered, whatever the watermark claims.
   */
  lemma ReportExact(events: seq<MergedRow>, quarantine: seq<QuarantineRow>, watermarks: map<DeviceId, int>,
                    d: DeviceId, findings: seq<Finding>, runs: seq<Run>, covered: seq<int>)
    requires Report(events, quarantine, watermarks, d, findings, runs, covered)
    ensures forall slot :: NamedIn(findings, d, slot) <==> Missing(events, quarantine, watermarks, d, slot)
    ensures |FindingsOf(findings, d)| <= GAP_RUN_SLOT_FINDINGS * (|covered| + 1)
  {
    forall slot
      ensures NamedIn(findings, d, slot) <==> Missing(events, quarantine, watermarks, d, slot)
    {
      EmitAllNames(d, runs, slot);
      var mine := FindingsOf(findings, d);
      if NamedIn(findings, d, slot) {
        var f :| f in findings && Names(f, d, slot);
        assert f in mine;
      }
    }
  }

  /** Quarantined rows cover slots and never add to what a device owes. */
  lemma QuarantineOnlyCovers(events: seq<MergedRow>, q: seq<QuarantineRow>, more: seq<QuarantineRow>,
                             watermarks: map<DeviceId, int>, d: DeviceId, slot: int)
    ensures Missing(events, q + more, watermarks, d, slot)
      <==> Missing(events, q, watermarks, d, slot) && QuarantineRow(d, Some(slot)) !in more
  {
  }

  function InsertSlot(slot: int, sorted: seq<int>): (r: seq<int>)
    requires Ascending(sorted) && slot !in sorted
    ensures Ascending(r) && |r| == |sorted| + 1
    ensures forall s :: s in r <==> s == slot || s in sorted
  {
    if sorted == [] || slot < sorted[0] then [slot] + sorted
    else
      var rest := InsertSlot(slot, sorted[1..]);
      assert forall i :: 0 <= i < |rest| ==> rest[i] in rest;
      assert forall s :: s in sorted[1..] ==> sorted[0] < s;
      [sorted[0]] + rest
  }

  lemma SomeSlot(slots: set<int>)
    requires slots != {}
    ensures exists x: int :: x in slots
  {
    assert (forall x: int :: x !in slots) ==> slots == {};
  }

  /** `[...set].filter(slot <= hi).sort(ascending)`. */
  method SortedUpTo(slots: set<int>, hi: int) returns (sorted: seq<int>)
    ensures Ascending(sorted) && forall s :: s in sorted <==> s in slots && s <= hi
  {
    sorted := [];
    var todo := slots;
    while todo != {}
      invariant todo <= slots && Ascending(sorted)
      invariant forall s :: s in sorted <==> s in slots && s !in todo && s <= hi
      decreases |todo|
    {
      SomeSlot(todo);
      var s :| s in todo;
      if s <= hi {
        sorted := InsertSlot(s, sorted);
      }
      todo := todo - {s};
    }
  }

  function SlotsAt(covered: map<DeviceId, set<int>>, d: DeviceId): set<int> {
    if d in covered then covered[d] else {}
  }

  function AddSlot(covered: map<DeviceId, set<int>>, d: DeviceId, slot: int): (r: map<DeviceId, set<int>>)
    ensures forall e, s :: s in SlotsAt(r, e) <==> s in SlotsAt(covered, e) || (e == d && s == slot)
  {
    covered[d := SlotsAt(covered, d) + {slot}]
  }

  ghost predicate MergedSlots(covered: map<DeviceId, set<int>>, events: seq<MergedRow>) {
    forall d, s :: s in SlotsAt(covered, d) <==> MergedRow(d, s) in events
  }

  ghost predicate MaxTracked(maxMerged: map<DeviceId, int>, events: seq<MergedRow>) {
    && (forall d :: d in maxMerged <==> Merged(events, d))
    && (forall d :: MaxMerged(events, d) == if d in maxMerged then maxMerged[d] else -1)
  }

  method CollectMerged(events: seq<MergedRow>)
    returns (covered: map<DeviceId, set<int>>, maxMerged: map<DeviceId, int>)
    requires forall r :: r in events ==> r.lamportSeq >= 0
    ensures MergedSlots(covered, events) && MaxTracked(maxMerged, events)
  {
    hide MergedSlots, MaxTracked;
    covered, maxMerged := map[], map[];
    NothingMerged();
    for i := 0 to |events|
      invariant MergedSlots(covered, events[..i]) && MaxTracked(maxMerged, events[..i])
    {
      var row := events[i];
      assert row in events;
      assert events[..i + 1] == events[..i] + [row];
      OneMoreMerged(covered, maxMerged, events[..i], row);
      covered := AddSlot(covered, row.deviceId, row.lamportSeq);
      if row.lamportSeq > (if row.deviceId in maxMerged then maxMerged[row.deviceId] else -1) {
        maxMerged := maxMerged[row.deviceId := row.lamportSeq];
      }
    }
    assert events[..|events|] == events;
  }

  lemma NothingMerged()
    ensures MergedSlots(map[], []) && MaxTracked(map[], [])
  {
  }

  lemma OneMoreMerged(covered: map<DeviceId, set<int>>, maxMerged: map<DeviceId, int>, events: seq<MergedRow>, row: MergedRow)
    requires MergedSlots(covered, events) && MaxTracked(maxMerged, events) && row.lamportSeq >= 0
    ensures MergedSlots(AddSlot(covered, row.deviceId, row.lamportSeq), events + [row])
    ensures var known := if row.deviceId in maxMerged then maxMerged[row.deviceId] else -1;
      MaxTracked(if row.lamportSeq > known then maxMerged[row.deviceId := row.lamportSeq] else maxMerged, events + [row])
  {
    hide MaxMerged, Merged;
    MergedMore(events, row);
    MaxMergedMore(events, row);
  }

  method CollectQuarantined(events: seq<MergedRow>, merged: map<DeviceId, set<int>>, quarantine: seq<QuarantineRow>)
    returns (covered: map<DeviceId, set<int>>)
    requires MergedSlots(merged, events)
    ensures forall d, s :: s in SlotsAt(covered, d) <==> Covers(events, quarantine, d, s)
  {
    covered := merged;
    for i := 0 to |quarantine|
      invariant forall d, s :: s in SlotsAt(covered, d) <==> Covers(events, quarantine[..i], d, s)
    {
      hide AddSlot, SlotsAt;
      var row := quarantine[i];
      CoversMore(events, quarantine[..i], row);
      assert quarantine[..i + 1] == quarantine[..i] + [row];
      if row.claim.Some? && row.claim.value >= 0 {
        covered := AddSlot(covered, row.deviceId, row.claim.value);
      }
    }
    assert quarantine[..|quarantine|] == quarantine;
  }

  lemma CoversMore(events: seq<MergedRow>, quarantine: seq<QuarantineRow>, row: QuarantineRow)
    ensures forall d, s :: (Covers(events, quarantine + [row], d, s)
                            <==> Covers(events, quarantine, d, s) || (s >= 0 && row == QuarantineRow(d, Some(s))))
  {
  }

  lemma MaxMergedMore(events: seq<MergedRow>, row: MergedRow)
    ensures forall d :: (MaxMerged(events + [row], d) ==
                         if d == row.deviceId && row.lamportSeq > MaxMerged(events, d) then row.lamportSeq
                         else MaxMerged(events, d))
  {
    assert (events + [row])[..|events|] == events;
  }

  lemma MergedMore(events: seq<MergedRow>, row: MergedRow)
    ensures forall d :: Merged(events + [row], d) <==> Merged(events, d) || row.deviceId == d
  {
    forall d ensures Merged(events + [row], d) <==> Merged(events, d) || row.deviceId == d {
      if Merged(events, d) {
        var r :| r in events && r.deviceId == d;
        assert r in events + [row];
      }
      assert row in events + [row];
    }
  }

  /** A device nothing obliges has an empty report. */
  lemma NothingOwed(events: seq<MergedRow>, quarantine: seq<QuarantineRow>, watermarks: map<DeviceId, int>, d: DeviceId)
    requires !Merged(events, d) && d !in watermarks
    ensures Reported(events, quarantine, watermarks, d, [])
  {
    assert MaxMerged(events, d) == -1;
    assert forall s :: Covers(events, quarantine, d, s) ==> s > -1;
    assert Report(events, quarantine, watermarks, d, [], [], []);
  }

  /** Emitting one device's findings settles that device and leaves the others as they were. */
  lemma EmitOne(before: seq<Finding>, d: DeviceId, runs: seq<Run>)
    requires Disjoint(runs) && FindingsOf(before, d) == []
    ensures FindingsOf(before + EmitAll(d, runs), d) == EmitAll(d, runs)
    ensures forall e :: e != d ==> FindingsOf(before + EmitAll(d, runs), e) == FindingsOf(before, e)
  {
    var mine := EmitAll(d, runs);
    EmitAllNames(d, runs, 0);
    forall e ensures FindingsOf(before + mine, e) == if e == d then mine else FindingsOf(before, e) {
      FindingsOfConcat(before, mine, e);
      FindingsOfOne(mine, d, e);
    }
  }

  lemma ReportedStill(events: seq<MergedRow>, quarantine: seq<QuarantineRow>, watermarks: map<DeviceId, int>,
                      d: DeviceId, before: seq<Finding>, after: seq<Finding>)
    requires Reported(events, quarantine, watermarks, d, before)
    requires FindingsOf(after, d) == FindingsOf(before, d)
    ensures Reported(events, quarantine, watermarks, d, after)
  {
    var runs, covered :| Report(events, quarantine, watermarks, d, before, runs, covered);
    assert Report(events, quarantine, watermarks, d, after, runs, covered);
  }

  /** The report is complete for every device but those still to do, which it does not mention. */
  ghost predicate Settled(events: seq<MergedRow>, quarantine: seq<QuarantineRow>, watermarks: map<DeviceId, int>,
                          todo: set<DeviceId>, findings: seq<Finding>) {
    && (forall d :: d in todo ==> FindingsOf(findings, d) == [])
    && (forall d :: d !in todo ==> Reported(events, quarantine, watermarks, d, findings))
  }

  lemma SettleNone(events: seq<MergedRow>, quarantine: seq<QuarantineRow>, watermarks: map<DeviceId, int>,
                   obligated: set<DeviceId>)
    requires forall d :: d in obligated <==> Merged(events, d) || d in watermarks
    ensures Settled(events, quarantine, watermarks, obligated, [])
  {
    hide Reported;
    forall d | d !in obligated ensures Reported(events, quarantine, watermarks, d, []) {
      NothingOwed(events, quarantine, watermarks, d);
    }
  }

  lemma SettleOne(events: seq<MergedRow>, quarantine: seq<QuarantineRow>, watermarks: map<DeviceId, int>,
                  todo: set<DeviceId>, before: seq<Finding>, d: DeviceId, runs: seq<Run>, covered: seq<int>)
    requires Settled(events, quarantine, watermarks, todo, before) && d in todo
    requires Disjoint(runs) && |runs| <= |covered| + 1
    requires CoveredSlots(events, quarantine, watermarks, d, covered)
    requires Cover(runs, SlotSet(covered), Owed(events, watermarks, d))
    ensures Settled(events, quarantine, watermarks, todo - {d}, before + EmitAll(d, runs))
  {
    hide Reported, EmitAll, FindingsOf, Cover, CoveredSlots, Owed;
    var after := before + EmitAll(d, runs);
    EmitOne(before, d, runs);
    ReportOne(events, quarantine, watermarks, d, after, runs, covered);
    forall e | e !in todo ensures Reported(events, quarantine, watermarks, e, after) {
      ReportedStill(events, quarantine, watermarks, e, before, after);
    }
  }

  /** One device: what it owes, what of that is covered, and the runs between. */
  method DeviceRuns(events: seq<MergedRow>, quarantine: seq<QuarantineRow>, watermarks: map<DeviceId, int>,
                    slots: map<DeviceId, set<int>>, maxMerged: map<DeviceId, int>, d: DeviceId)
    returns (runs: seq<Run>, ghost covered: seq<int>)
    requires forall r :: r in events ==> r.lamportSeq >= 0
    requires forall s :: s in SlotsAt(slots, d) <==> Covers(events, quarantine, d, s)
    requires MaxMerged(events, d) == if d in maxMerged then maxMerged[d] else -1
    ensures Disjoint(runs) && |runs| <= |covered| + 1
    ensures CoveredSlots(events, quarantine, watermarks, d, covered)
    ensures Cover(runs, SlotSet(covered), Owed(events, watermarks, d))
  {
    hide Covers, MaxMerged, Cover, Disjoint, Ascending, SlotsAt;
    CoveredNonNegative(events, quarantine);
    var w := if d in watermarks then watermarks[d] else -1;
    var m := if d in maxMerged then maxMerged[d] else -1;
    var hi := if w > m then w else m;
    var sorted := SortedUpTo(SlotsAt(slots, d), hi);
    covered := sorted;
    runs := MissingRuns(sorted, hi);
  }

  /** Devices are taken in any order: the report on each does not depend on it. */
  method RunGapLeg(events: seq<MergedRow>, quarantine: seq<QuarantineRow>, watermarks: map<DeviceId, int>)
    returns (findings: seq<Finding>)
    requires forall r :: r in events ==> r.lamportSeq >= 0
    ensures forall d :: Reported(events, quarantine, watermarks, d, findings)
  {
    hide EmitAll, Covers, MaxMerged, Merged, Cover, Reported, CoveredSlots, SlotsAt, Owed;
    var merged, maxMerged := CollectMerged(events);
    var slots := CollectQuarantined(events, merged, quarantine);
    findings := [];
    var todo := maxMerged.Keys + watermarks.Keys;
    SettleNone(events, quarantine, watermarks, todo);
    while todo != {}
      invariant Settled(events, quarantine, watermarks, todo, findings)
      decreases |todo|
    {
      hide Settled, FindingsOf;
      assert |todo| > 0;
      var d :| d in todo;
      var runs, covered := DeviceRuns(events, quarantine, watermarks, slots, maxMerged, d);
      SettleOne(events, quarantine, watermarks, todo, findings, d, runs, covered);
      findings := findings + EmitAll(d, runs);
      todo := todo - {d};
    }
  }

  lemma CoveredNonNegative(events: seq<MergedRow>, quarantine: seq<QuarantineRow>)
    requires forall r :: r in events ==> r.lamportSeq >= 0
    ensures forall d, s :: Covers(events, quarantine, d, s) ==> s >= 0
  {
  }

  lemma ReportOne(events: seq<MergedRow>, quarantine: seq<QuarantineRow>, watermarks: map<DeviceId, int>,
                  d: DeviceId, findings: seq<Finding>, runs: seq<Run>, covered: seq<int>)
    requires Report(events, quarantine, watermarks, d, findings, runs, covered)
    ensures Reported(events, quarantine, watermarks, d, findings)
  {
  }

  // ----- how each gap is told, and how much is owed -----------------------------------------------------

  /** A device owes every slot up to its watermark and up to any merged lamport of its own, and no more. */
  lemma OwedExact(events: seq<MergedRow>, watermarks: map<DeviceId, int>, d: DeviceId, slot: nat)
    ensures slot <= Owed(events, watermarks, d) <==>
      ((d in watermarks && slot <= watermarks[d]) || exists r :: r in events && r.deviceId == d && slot <= r.lamportSeq)
  {
    if slot <= MaxMerged(events, d) {
      assert MergedRow(d, MaxMerged(events, d)) in events;
    }
  }

  /** A run of at most eight slots is told slot by slot in ascending order, a longer one by its first and last. */
  lemma EmitExact(d: DeviceId, r: Run)
    requires r.first <= r.last
    ensures r.last - r.first < 8 ==>
      |Emit(d, r)| == r.last - r.first + 1 && forall i :: 0 <= i < |Emit(d, r)| ==> Emit(d, r)[i] == Slot(d, r.first + i)
    ensures r.last - r.first >= 8 ==> Emit(d, r) == [Range(d, r.first, r.last)]
  {
  }

  /** So a single slot is named exactly when its run is short, and a range exactly for a long run. */
  lemma {:induction false} ToldByLength(d: DeviceId, runs: seq<Run>, slot: int, first: int, last: int)
    requires forall i :: 0 <= i < |runs| ==> runs[i].first <= runs[i].last
    ensures Slot(d, slot) in EmitAll(d, runs) <==> exists r :: r in runs && InRun(r, slot) && r.last - r.first < 8
    ensures Range(d, first, last) in EmitAll(d, runs) <==> Run(first, last) in runs && last - first >= 8
  {
    if runs != [] {
      var init, r := runs[..|runs| - 1], runs[|runs| - 1];
      ToldByLength(d, init, slot, first, last);
      ToldOne(d, r, slot, first, last);
      assert runs == init + [r];
    }
  }

  lemma ToldOne(d: DeviceId, r: Run, slot: int, first: int, last: int)
    requires r.first <= r.last
    ensures Slot(d, slot) in Emit(d, r) <==> InRun(r, slot) && r.last - r.first < 8
    ensures Range(d, first, last) in Emit(d, r) <==> r == Run(first, last) && last - first >= 8
  {
    EmitExact(d, r);
    if InRun(r, slot) && r.last - r.first < 8 {
      assert Emit(d, r)[slot - r.first] == Slot(d, slot);
    }
  }
}
