/**
 * `apps/waiter/src/Pad.tsx` as steps: taps and presses of SEND, and the till at the other end of a
 * line that can lose a reply. One press runs at a time and nothing is tapped
 * during it; counts are for the table now open.
 */
module PadMachine {
  import opened Wrappers

  type ItemId(==, !new)

  /** A line on the glass that no reply has acknowledged. */
  datatype Row = Row(item: ItemId, qty: nat)

  /**
   * What one call comes to: the till took it and said so; the till refused it; the till took it
   * and the reply was lost; or it never arrived. The pad cannot tell the last two apart.
   */
  datatype Reply = Acked | Rejected | LostLanded | LostUnsent

  predicate Landed(r: Reply) {
    r == Acked || r == LostLanded
  }

  predicate Heard(r: Reply) {
    r == Acked || r == Rejected
  }

  datatype Call = Call(row: Row, reply: Reply)

  /** One press of SEND: the rows on the glass, the lines sent, and the confirm, if it was sent. */
  datatype Press = Press(rows: seq<Row>, calls: seq<Call>, confirm: Option<Reply>)

  /** The pad, the till's lines for this table, and what happened: every tap and every press. */
  datatype State = State(
    unsent: seq<Row>, refused: bool, reachable: bool, till: seq<Row>, taps: seq<ItemId>, presses: seq<Press>)

  // ----- quantities -----------------------------------------------------------------------------

  function Qty(rows: seq<Row>, item: ItemId): nat {
    if rows == [] then 0
    else Qty(rows[..|rows| - 1], item) + (if rows[|rows| - 1].item == item then rows[|rows| - 1].qty else 0)
  }

  function Taps(taps: seq<ItemId>, item: ItemId): nat {
    if taps == [] then 0 else Taps(taps[..|taps| - 1], item) + (if taps[|taps| - 1] == item then 1 else 0)
  }

  /** Landed although the pad never heard so. */
  function LostQty(calls: seq<Call>, item: ItemId): nat {
    if calls == [] then 0
    else
      var c := calls[|calls| - 1];
      LostQty(calls[..|calls| - 1], item) + (if c.reply == LostLanded && c.row.item == item then c.row.qty else 0)
  }

  function LostInAll(presses: seq<Press>, item: ItemId): nat {
    if presses == [] then 0
    else LostInAll(presses[..|presses| - 1], item) + LostQty(presses[|presses| - 1].calls, item)
  }

  // ----- a tap ----------------------------------------------------------------------------------

  predicate DistinctItems(rows: seq<Row>) {
    forall i, j :: 0 <= i < j < |rows| ==> rows[i].item != rows[j].item
  }

  function IndexOf(rows: seq<Row>, item: ItemId): (i: nat)
    ensures i <= |rows| && (i < |rows| ==> rows[i].item == item)
    ensures forall k :: 0 <= k < i ==> rows[k].item != item
  {
    if rows == [] || rows[0].item == item then 0 else 1 + IndexOf(rows[1..], item)
  }

  function Captured(rows: seq<Row>, item: ItemId): seq<Row> {
    var at := IndexOf(rows, item);
    if at == |rows| then rows + [Row(item, 1)] else rows[at := Row(item, rows[at].qty + 1)]
  }

  function AfterTap(s: State, item: ItemId): State {
    s.(unsent := Captured(s.unsent, item), taps := s.taps + [item])
  }

  // ----- a press --------------------------------------------------------------------------------

  /** `rows.filter(held.item_id !== row.item_id)`. */
  function Without(rows: seq<Row>, item: ItemId): (r: seq<Row>)
    ensures forall x :: x in r <==> x in rows && x.item != item
  {
    if rows == [] then []
    else
      var init, last := Without(rows[..|rows| - 1], item), rows[|rows| - 1];
      if last.item == item then init else init + [last]
  }

  /** The line loop: it trims each row on its own acknowledgment and stops at the first other reply. */
  function Sending(rows: seq<Row>, net: nat -> Reply, n: nat, s: State): (State, seq<Call>)
    requires n <= |rows|
    decreases |rows| - n
  {
    if n == |rows| then (s, [])
    else
      var row, reply := rows[n], net(n);
      var till := if Landed(reply) then s.till + [row] else s.till;
      if reply == Acked then
        var (last, calls) := Sending(rows, net, n + 1, s.(till := till, unsent := Without(s.unsent, row.item), reachable := true));
        (last, [Call(row, reply)] + calls)
      else (s.(till := till, refused := reply == Rejected, reachable := Heard(reply)), [Call(row, reply)])
  }

  predicate AllAcked(rows: seq<Row>, calls: seq<Call>) {
    |calls| == |rows| && forall i :: 0 <= i < |rows| ==> calls[i] == Call(rows[i], Acked)
  }

  /** The whole handler, its refusals in place included; `poll` is the reply to the closing refresh. */
  function AfterPress(s: State, kitchenOwes: bool, net: nat -> Reply, poll: bool): State {
    if !s.reachable || !(s.unsent != [] || kitchenOwes) then s
    else
      var (sent, calls) := Sending(s.unsent, net, 0, s.(refused := false));
      if AllAcked(s.unsent, calls) then
        var reply := net(|s.unsent|);
        sent.(refused := reply == Rejected, reachable := poll,
          presses := s.presses + [Press(s.unsent, calls, Some(reply))])
      else sent.(reachable := poll, presses := s.presses + [Press(s.unsent, calls, None)])
  }

  // ----- conservation -----------------------------------------------------------------------------

  predicate Conserved(s: State, item: ItemId) {
    Qty(s.till, item) + Qty(s.unsent, item) == Taps(s.taps, item) + LostInAll(s.presses, item)
  }

  /** A press whose lines went out in order, all acknowledged but perhaps the last one sent. */
  predicate Orderly(p: Press) {
    && |p.calls| <= |p.rows|
    && (forall i :: 0 <= i < |p.calls| ==> p.calls[i].row == p.rows[i])
    && (forall i :: 0 <= i < |p.calls| - 1 ==> p.calls[i].reply == Acked)
    && (p.confirm.Some? <==> AllAcked(p.rows, p.calls))
  }

  ghost predicate Sound(s: State) {
    && DistinctItems(s.unsent) && (forall i :: 0 <= i < |s.unsent| ==> s.unsent[i].qty > 0)
    && (forall item :: Conserved(s, item))
    && (forall i :: 0 <= i < |s.presses| ==> Orderly(s.presses[i]))
  }

  lemma {:induction false} QtyConcat(a: seq<Row>, b: seq<Row>, item: ItemId)
    ensures Qty(a + b, item) == Qty(a, item) + Qty(b, item)
  {
    if b == [] {
      assert a + b == a;
    } else {
      QtyConcat(a, b[..|b| - 1], item);
      assert (a + b)[..|a + b| - 1] == a + b[..|b| - 1];
    }
  }

  lemma {:induction false} QtyBump(rows: seq<Row>, at: nat, item: ItemId)
    requires at < |rows|
    ensures Qty(rows[at := Row(rows[at].item, rows[at].qty + 1)], item)
      == Qty(rows, item) + (if rows[at].item == item then 1 else 0)
  {
    var n := |rows| - 1;
    var bumped := rows[at := Row(rows[at].item, rows[at].qty + 1)];
    if at == n {
      assert bumped[..n] == rows[..n];
    } else {
      QtyBump(rows[..n], at, item);
      assert bumped[..n] == rows[..n][at := Row(rows[at].item, rows[at].qty + 1)];
    }
  }

  lemma CapturedKeeps(rows: seq<Row>, tapped: ItemId, item: ItemId)
    requires DistinctItems(rows) && forall i :: 0 <= i < |rows| ==> rows[i].qty > 0
    ensures DistinctItems(Captured(rows, tapped)) && forall i :: 0 <= i < |Captured(rows, tapped)| ==> Captured(rows, tapped)[i].qty > 0
    ensures Qty(Captured(rows, tapped), item) == Qty(rows, item) + (if item == tapped then 1 else 0)
  {
    var at := IndexOf(rows, tapped);
    if at == |rows| {
      assert (rows + [Row(tapped, 1)])[..|rows|] == rows;
    } else {
      QtyBump(rows, at, item);
    }
  }

  lemma TapSound(s: State, tapped: ItemId)
    requires Sound(s)
    ensures Sound(AfterTap(s, tapped))
  {
    hide Captured;
    forall item ensures Conserved(AfterTap(s, tapped), item) {
      CapturedKeeps(s.unsent, tapped, item);
      assert (s.taps + [tapped])[..|s.taps|] == s.taps;
      assert Conserved(s, item);
    }
    CapturedKeeps(s.unsent, tapped, tapped);
  }

  lemma WithoutLast(rows: seq<Row>, last: Row, item: ItemId)
    ensures Without([], item) == []
    ensures Without(rows + [last], item) == if last.item == item then Without(rows, item) else Without(rows, item) + [last]
  {
    assert (rows + [last])[..|rows|] == rows;
  }

  lemma {:induction false} WithoutAbsent(rows: seq<Row>, item: ItemId)
    requires forall i :: 0 <= i < |rows| ==> rows[i].item != item
    ensures Without(rows, item) == rows
  {
    hide Without;
    if rows != [] {
      var init, last := rows[..|rows| - 1], rows[|rows| - 1];
      WithoutAbsent(init, item);
      WithoutLast(init, last, item);
      assert rows == init + [last];
    } else {
      WithoutLast(rows, Row(item, 0), item);
    }
  }

  lemma {:induction false} WithoutConcat(a: seq<Row>, b: seq<Row>, item: ItemId)
    ensures Without(a + b, item) == Without(a, item) + Without(b, item)
  {
    hide Without;
    if b == [] {
      assert a + b == a;
      WithoutLast(a, Row(item, 0), item);
    } else {
      var init, last := b[..|b| - 1], b[|b| - 1];
      WithoutConcat(a, init, item);
      WithoutLast(init, last, item);
      WithoutLast(a + init, last, item);
      assert b == init + [last] && a + b == a + init + [last];
    }
  }

  /** Trimming the row just acknowledged leaves the rows still to send. */
  lemma TrimFirst(rows: seq<Row>, n: nat)
    requires n < |rows| && DistinctItems(rows)
    ensures Without(rows[n..], rows[n].item) == rows[n + 1..]
  {
    assert rows[n..] == [rows[n]] + rows[n + 1..];
    WithoutConcat([rows[n]], rows[n + 1..], rows[n].item);
    WithoutAbsent(rows[n + 1..], rows[n].item);
  }

  lemma {:induction false} LostQtyConcat(a: seq<Call>, b: seq<Call>, item: ItemId)
    ensures LostQty(a + b, item) == LostQty(a, item) + LostQty(b, item)
  {
    if b == [] {
      assert a + b == a;
    } else {
      LostQtyConcat(a, b[..|b| - 1], item);
      assert (a + b)[..|a + b| - 1] == a + b[..|b| - 1];
    }
  }

  /** The calls are the rows from `n` in order, each but the last acknowledged. */
  predicate InOrder(rows: seq<Row>, n: nat, calls: seq<Call>) {
    && n + |calls| <= |rows|
    && (forall i :: 0 <= i < |calls| ==> calls[i].row == rows[n + i])
    && (forall i :: 0 <= i < |calls| - 1 ==> calls[i].reply == Acked)
    && (|calls| < |rows| - n ==> calls != [] && calls[|calls| - 1].reply != Acked)
  }

  function StillUnsent(rows: seq<Row>, n: nat, calls: seq<Call>): seq<Row>
    requires n + |calls| <= |rows|
  {
    if calls == [] || calls[|calls| - 1].reply == Acked then rows[n + |calls|..] else rows[n + |calls| - 1..]
  }

  lemma {:induction false} SendingShape(rows: seq<Row>, net: nat -> Reply, n: nat, s: State)
    requires n <= |rows| && DistinctItems(rows) && s.unsent == rows[n..]
    ensures var sent := Sending(rows, net, n, s);
      && InOrder(rows, n, sent.1) && sent.0.unsent == StillUnsent(rows, n, sent.1)
      && sent.0.taps == s.taps && sent.0.presses == s.presses
    decreases |rows| - n
  {
    hide Without, InOrder, StillUnsent;
    if n == |rows| {
      ShapeOfNone(rows);
    } else if net(n) == Acked {
      TrimFirst(rows, n);
      var next := s.(till := s.till + [rows[n]], unsent := Without(s.unsent, rows[n].item), reachable := true);
      SendingShape(rows, net, n + 1, next);
      ShapeOfMore(rows, n, Sending(rows, net, n + 1, next).1);
    } else {
      ShapeOfLast(rows, n, net(n));
    }
  }

  lemma ShapeOfNone(rows: seq<Row>)
    ensures InOrder(rows, |rows|, []) && StillUnsent(rows, |rows|, []) == rows[|rows|..]
  {
  }

  lemma ShapeOfLast(rows: seq<Row>, n: nat, reply: Reply)
    requires n < |rows| && reply != Acked
    ensures InOrder(rows, n, [Call(rows[n], reply)]) && StillUnsent(rows, n, [Call(rows[n], reply)]) == rows[n..]
  {
  }

  lemma ShapeOfMore(rows: seq<Row>, n: nat, calls: seq<Call>)
    requires n < |rows| && InOrder(rows, n + 1, calls)
    ensures InOrder(rows, n, [Call(rows[n], Acked)] + calls)
    ensures StillUnsent(rows, n, [Call(rows[n], Acked)] + calls) == StillUnsent(rows, n + 1, calls)
  {
    var more := [Call(rows[n], Acked)] + calls;
    assert |more| == |calls| + 1 && more[0] == Call(rows[n], Acked);
    assert forall i :: 0 < i < |more| ==> more[i] == calls[i - 1];
    MoreInOrder(rows, n, calls, more);
    hide InOrder;
    assert n + |more| == n + 1 + |calls|;
    assert calls != [] ==> more[|more| - 1] == calls[|calls| - 1];
  }

  lemma MoreInOrder(rows: seq<Row>, n: nat, calls: seq<Call>, more: seq<Call>)
    requires n < |rows| && InOrder(rows, n + 1, calls)
    requires |more| == |calls| + 1 && more[0] == Call(rows[n], Acked)
    requires forall i :: 0 < i < |more| ==> more[i] == calls[i - 1]
    ensures InOrder(rows, n, more)
  {
    forall i | 0 <= i < |more| ensures more[i].row == rows[n + i] {
      if i > 0 { assert calls[i - 1].row == rows[n + 1 + (i - 1)]; }
    }
  }

  lemma LostOne(c: Call, item: ItemId)
    ensures LostQty([c], item) == if c.reply == LostLanded && c.row.item == item then c.row.qty else 0
  {
    assert [c][..0] == [];
  }

  lemma QtyOne(row: Row, item: ItemId)
    ensures Qty([row], item) == if row.item == item then row.qty else 0
  {
    assert [row][..0] == [];
  }

  lemma {:induction false} SendingConserves(rows: seq<Row>, net: nat -> Reply, n: nat, s: State, item: ItemId)
    requires n <= |rows| && DistinctItems(rows) && s.unsent == rows[n..]
    ensures var sent := Sending(rows, net, n, s);
      Qty(sent.0.till, item) + Qty(sent.0.unsent, item)
      == Qty(s.till, item) + Qty(s.unsent, item) + LostQty(sent.1, item)
    decreases |rows| - n
  {
    hide Qty, LostQty, Without;
    if n < |rows| {
      var row, reply := rows[n], net(n);
      QtyOne(row, item);
      LostOne(Call(row, reply), item);
      QtyConcat(s.till, [row], item);
      if reply == Acked {
        assert rows[n..] == [row] + rows[n + 1..];
        QtyConcat([row], rows[n + 1..], item);
        TrimFirst(rows, n);
        var next := s.(till := s.till + [row], unsent := Without(s.unsent, row.item), reachable := true);
        SendingConserves(rows, net, n + 1, next, item);
        LostQtyConcat([Call(row, reply)], Sending(rows, net, n + 1, next).1, item);
      }
    } else {
      NothingLost(item);
    }
  }

  lemma NothingLost(item: ItemId)
    ensures LostQty([], item) == 0
  {
  }

  predicate Presses(s: State, kitchenOwes: bool) {
    s.reachable && (s.unsent != [] || kitchenOwes)
  }

  lemma PressConserves(s: State, kitchenOwes: bool, net: nat -> Reply, poll: bool, item: ItemId)
    requires Sound(s)
    ensures Conserved(AfterPress(s, kitchenOwes, net, poll), item)
  {
    hide Sending, Qty, Taps, LostQty;
    var t, begun := AfterPress(s, kitchenOwes, net, poll), s.(refused := false);
    SendingShape(s.unsent, net, 0, begun);
    SendingConserves(s.unsent, net, 0, begun, item);
    assert Conserved(s, item);
    if Presses(s, kitchenOwes) {
      assert t.presses[..|s.presses|] == s.presses;
    }
  }

  /** A press keeps everything, and a confirm goes out exactly when every row of it was acknowledged. */
  lemma PressSound(s: State, kitchenOwes: bool, net: nat -> Reply, poll: bool)
    requires Sound(s)
    ensures Sound(AfterPress(s, kitchenOwes, net, poll))
  {
    hide Sending, Conserved;
    var t, begun := AfterPress(s, kitchenOwes, net, poll), s.(refused := false);
    SendingShape(s.unsent, net, 0, begun);
    forall item ensures Conserved(t, item) {
      PressConserves(s, kitchenOwes, net, poll, item);
    }
  }

  // ----- every run ----------------------------------------------------------------------------------

  datatype Action = Tap(item: ItemId) | Send(kitchenOwes: bool, net: nat -> Reply, poll: bool) | Poll(reachable: bool)

  function After(s: State, a: Action): State {
    match a
    case Tap(item) => AfterTap(s, item)
    case Send(owes, net, poll) => AfterPress(s, owes, net, poll)
    case Poll(reachable) => s.(reachable := reachable)
  }

  function Run(s: State, actions: seq<Action>): State {
    if actions == [] then s else After(Run(s, actions[..|actions| - 1]), actions[|actions| - 1])
  }

  /** A table just opened on the pad: nothing on the glass, and counts start here. */
  const OPENED := State([], false, true, [], [], [])

  /**
   * Over any run: for each item, what the till holds and what is still on the glass add up to
   * what was tapped plus what landed while its reply was lost; and no confirm was ever sent
   * before every row of its press had been acknowledged.
   */
  lemma {:induction false} EveryRunSound(actions: seq<Action>)
    ensures Sound(Run(OPENED, actions))
  {
    hide Conserved, Orderly;
    if actions != [] {
      var s := Run(OPENED, actions[..|actions| - 1]);
      EveryRunSound(actions[..|actions| - 1]);
      match actions[|actions| - 1]
      case Tap(item) => TapSound(s, item);
      case Send(owes, net, poll) => PressSound(s, owes, net, poll);
      case Poll(reachable) => PollSound(s, reachable);
    } else {
      OpenedSound();
    }
  }

  lemma PollSound(s: State, answered: bool)
    requires Sound(s)
    ensures Sound(s.(reachable := answered))
  {
    forall item ensures Conserved(s.(reachable := answered), item) {
      assert Conserved(s, item);
    }
  }

  lemma OpenedSound()
    ensures Sound(OPENED)
  {
  }

  /** Once nothing is on the glass, the till's surplus is exactly what landed unheard. */
  lemma SurplusIsWhatWasLost(actions: seq<Action>, item: ItemId)
    ensures var s := Run(OPENED, actions);
      s.unsent == [] ==> Qty(s.till, item) == Taps(s.taps, item) + LostInAll(s.presses, item)
  {
    EveryRunSound(actions);
    var s := Run(OPENED, actions);
    assert Conserved(s, item);
  }

  // ----- what was sent twice -------------------------------------------------------------------------

  function AllCalls(presses: seq<Press>): seq<Call> {
    if presses == [] then [] else AllCalls(presses[..|presses| - 1]) + presses[|presses| - 1].calls
  }

  predicate Lands(c: Call, item: ItemId) {
    c.row.item == item && Landed(c.reply)
  }

  predicate LandsIn(calls: seq<Call>, item: ItemId) {
    exists c :: c in calls && Lands(c, item)
  }

  /** What landed unheard and landed again later: the till has it twice, the second time as a resend. */
  function Resent(calls: seq<Call>, item: ItemId): nat {
    if calls == [] then 0
    else
      var c := calls[0];
      Resent(calls[1..], item)
      + (if c.row.item == item && c.reply == LostLanded && LandsIn(calls[1..], item) then c.row.qty else 0)
  }

  /** Of two calls the first was for nothing exactly when both were for the item and landed, the first unheard. */
  lemma ResentOfTwo(a: Call, b: Call, item: ItemId)
    ensures Resent([a, b], item) ==
      if a.row.item == item && a.reply == LostLanded && b.row.item == item && (b.reply == Acked || b.reply == LostLanded)
      then a.row.qty else 0
  {
    var none: seq<Call> := [];
    assert [a, b][1..] == [b] && [b][1..] == none;
    assert b in [b] && !LandsIn(none, item);
    assert Resent([b], item) == 0;
  }

  /** The last landing of the item went unheard. */
  predicate LastUnheard(calls: seq<Call>, item: ItemId) {
    exists i :: 0 <= i < |calls| && calls[i].row.item == item && calls[i].reply == LostLanded && !LandsIn(calls[i + 1..], item)
  }

  predicate OnGlass(rows: seq<Row>, item: ItemId) {
    exists i :: 0 <= i < |rows| && rows[i].item == item
  }

  /** Of what landed unheard, all but the last landing of an item has landed again. */
  lemma {:induction false} LostIsResent(calls: seq<Call>, item: ItemId)
    requires forall i :: 0 <= i < |calls| ==> calls[i].row.qty > 0
    ensures LostQty(calls, item) >= Resent(calls, item)
    ensures LostQty(calls, item) == Resent(calls, item) <==> !LastUnheard(calls, item)
  {
    hide LostQty, LandsIn;
    if calls == [] {
      NothingLost(item);
    } else {
      var c, rest := calls[0], calls[1..];
      LostIsResent(rest, item);
      assert calls == [c] + rest;
      LostQtyConcat([c], rest, item);
      LostOne(c, item);
      LastUnheardHead(calls, item);
    }
  }

  lemma LastUnheardHead(calls: seq<Call>, item: ItemId)
    requires calls != []
    ensures LastUnheard(calls, item) <==>
      (LastUnheard(calls[1..], item)
       || (calls[0].row.item == item && calls[0].reply == LostLanded && !LandsIn(calls[1..], item)))
  {
    hide LandsIn;
    var rest := calls[1..];
    forall i | 0 <= i < |rest| ensures rest[i] == calls[i + 1] && rest[i + 1..] == calls[i + 2..] {
    }
  }

  /** The last landing of two runs of calls is that of the second, if it has one. */
  lemma LastUnheardConcat(a: seq<Call>, b: seq<Call>, item: ItemId)
    ensures LastUnheard(a + b, item) ==> LastUnheard(b, item) || (LastUnheard(a, item) && !LandsIn(b, item))
  {
    if i :| 0 <= i < |a + b| && (a + b)[i].row.item == item && (a + b)[i].reply == LostLanded && !LandsIn((a + b)[i + 1..], item) {
      if i < |a| {
        assert (a + b)[i + 1..] == a[i + 1..] + b;
      } else {
        assert (a + b)[i + 1..] == b[i - |a| + 1..];
      }
    }
  }

  /** Every call carried something, and an item whose last landing went unheard is still on the glass. */
  ghost predicate Remembered(s: State) {
    && (forall c :: c in AllCalls(s.presses) ==> c.row.qty > 0)
    && (forall item :: LastUnheard(AllCalls(s.presses), item) ==> OnGlass(s.unsent, item))
  }

  lemma StillOnGlass(rows: seq<Row>, calls: seq<Call>, item: ItemId)
    requires InOrder(rows, 0, calls)
    requires LastUnheard(calls, item) || (OnGlass(rows, item) && !LandsIn(calls, item))
    ensures OnGlass(StillUnsent(rows, 0, calls), item)
  {
    var left := StillUnsent(rows, 0, calls);
    if LastUnheard(calls, item) {
      assert left[0] == rows[|calls| - 1] == calls[|calls| - 1].row;
    } else {
      var k :| 0 <= k < |rows| && rows[k].item == item;
      if k < |calls| {
        assert !Lands(calls[k], item);
        assert k == |calls| - 1;
      }
      assert left[|left| - |rows| + k] == rows[k];
    }
  }

  lemma PressRemembers(s: State, kitchenOwes: bool, net: nat -> Reply, poll: bool)
    requires Sound(s) && Remembered(s)
    ensures Remembered(AfterPress(s, kitchenOwes, net, poll))
  {
    hide Sending, Conserved, LastUnheard, LandsIn, OnGlass, StillUnsent;
    var t, begun := AfterPress(s, kitchenOwes, net, poll), s.(refused := false);
    if Presses(s, kitchenOwes) {
      SendingShape(s.unsent, net, 0, begun);
      var calls := Sending(s.unsent, net, 0, begun).1;
      assert t.presses[..|s.presses|] == s.presses;
      assert AllCalls(t.presses) == AllCalls(s.presses) + calls;
      forall item | LastUnheard(AllCalls(t.presses), item) ensures OnGlass(t.unsent, item) {
        LastUnheardConcat(AllCalls(s.presses), calls, item);
        StillOnGlass(s.unsent, calls, item);
      }
    }
  }

  lemma TapRemembers(s: State, tapped: ItemId)
    requires Remembered(s)
    ensures Remembered(AfterTap(s, tapped))
  {
    hide LastUnheard;
    forall item | OnGlass(s.unsent, item) ensures OnGlass(Captured(s.unsent, tapped), item) {
      var i :| 0 <= i < |s.unsent| && s.unsent[i].item == item;
      assert Captured(s.unsent, tapped)[i].item == item;
    }
  }

  lemma {:induction false} EveryRunRemembers(actions: seq<Action>)
    ensures Remembered(Run(OPENED, actions))
  {
    hide Remembered, Sound;
    if actions != [] {
      var s := Run(OPENED, actions[..|actions| - 1]);
      EveryRunRemembers(actions[..|actions| - 1]);
      match actions[|actions| - 1]
      case Tap(item) => TapRemembers(s, item);
      case Send(owes, net, poll) =>
        EveryRunSound(actions[..|actions| - 1]);
        PressRemembers(s, owes, net, poll);
      case Poll(reachable) => PollRemembers(s, reachable);
    } else {
      OpenedRemembers();
    }
  }

  lemma PollRemembers(s: State, answered: bool)
    requires Remembered(s)
    ensures Remembered(s.(reachable := answered))
  {
  }

  lemma OpenedRemembers()
    ensures Remembered(OPENED)
  {
  }

  lemma {:induction false} LostOverCalls(presses: seq<Press>, item: ItemId)
    ensures LostInAll(presses, item) == LostQty(AllCalls(presses), item)
  {
    if presses != [] {
      var init := presses[..|presses| - 1];
      LostOverCalls(init, item);
      LostQtyConcat(AllCalls(init), presses[|presses| - 1].calls, item);
    }
  }

  predicate ResentBalances(s: State, item: ItemId) {
    Qty(s.till, item) + Qty(s.unsent, item) == Taps(s.taps, item) + Resent(AllCalls(s.presses), item)
  }

  /**
   * Till plus glass is taps plus resends exactly for the items whose last landing was heard: a landing that
   * nobody heard is on both sides of the line before it is ever sent again, and then its row is on the glass.
   */
  lemma ResentBalancesIff(actions: seq<Action>, item: ItemId)
    ensures var s := Run(OPENED, actions);
      && (ResentBalances(s, item) <==> !LastUnheard(AllCalls(s.presses), item))
      && (!OnGlass(s.unsent, item) ==> ResentBalances(s, item))
  {
    hide Run, Qty, Taps, LostInAll, LastUnheard, OnGlass, Resent;
    var s := Run(OPENED, actions);
    EveryRunSound(actions);
    EveryRunRemembers(actions);
    assert Conserved(s, item);
    LostOverCalls(s.presses, item);
    LostIsResent(AllCalls(s.presses), item);
  }

  /** A line that delivers every call and loses every reply. */
  function Unheard(call: nat): Reply {
    LostLanded
  }

  /** One tap, one press whose reply is lost: on the till and on the glass, and nothing sent again. */
  lemma LandedAndNotResent(item: ItemId)
    ensures var s := Run(OPENED, [Tap(item), Send(false, Unheard, true)]);
      && Qty(s.till, item) == Qty(s.unsent, item) == Taps(s.taps, item) == 1
      && Resent(AllCalls(s.presses), item) == 0
      && !ResentBalances(s, item)
  {
    hide AfterTap, AfterPress, Qty, Taps, Resent, LostInAll, AllCalls;
    var tap, send := Tap(item), Send(false, Unheard, true);
    assert [tap, send][..1] == [tap] && [tap][..0] == [];
    TapThenLost(item, Unheard);
    ResentOfOne(item);
    assert Run(OPENED, [tap]) == AfterTap(OPENED, item);
    assert Run(OPENED, [tap, send]) == AfterPress(AfterTap(OPENED, item), false, Unheard, true);
  }

  lemma TapThenLost(item: ItemId, net: nat -> Reply)
    requires net(0) == LostLanded
    ensures var row := Row(item, 1);
      AfterPress(AfterTap(OPENED, item), false, net, true)
      == State([row], false, true, [row], [item], [Press([row], [Call(row, LostLanded)], None)])
  {
    var row, one := Row(item, 1), AfterTap(OPENED, item);
    assert one == State([row], false, true, [], [item], []);
    assert Sending([row], net, 0, one) == (one.(till := [row], reachable := false), [Call(row, LostLanded)]);
  }

  lemma ResentOfOne(item: ItemId)
    ensures var row := Row(item, 1);
      && Qty([row], item) == Taps([item], item) == 1
      && Resent(AllCalls([Press([row], [Call(row, LostLanded)], None)]), item) == 0
  {
    var row := Row(item, 1);
    QtyOne(row, item);
    assert [item][..0] == [];
    var press := Press([row], [Call(row, LostLanded)], None);
    assert [press][..0] == [];
    assert AllCalls([press]) == [Call(row, LostLanded)];
  }

  /** A press whose lines were all acknowledged leaves the glass empty and sends the confirm. */
  lemma ConfirmedPressEmptiesGlass(s: State, kitchenOwes: bool, net: nat -> Reply, poll: bool)
    requires Sound(s) && Presses(s, kitchenOwes)
    ensures var t := AfterPress(s, kitchenOwes, net, poll);
      && |t.presses| == |s.presses| + 1
      && (t.presses[|s.presses|].confirm.Some? <==> forall n :: 0 <= n < |s.unsent| ==> net(n) == Acked)
      && (t.presses[|s.presses|].confirm.Some? ==> t.unsent == [])
  {
    hide Conserved, Orderly;
    SendingShape(s.unsent, net, 0, s.(refused := false));
    SendingHears(s.unsent, net, 0, s.(refused := false));
    var calls := Sending(s.unsent, net, 0, s.(refused := false)).1;
    assert calls != [] ==> calls[|calls| - 1].reply == net(|calls| - 1);
    AckedIffHeard(s.unsent, calls, net);
  }

  lemma AckedIffHeard(rows: seq<Row>, calls: seq<Call>, net: nat -> Reply)
    requires InOrder(rows, 0, calls) && forall i :: 0 <= i < |calls| ==> calls[i].reply == net(i)
    ensures AllAcked(rows, calls) <==> forall n :: 0 <= n < |rows| ==> net(n) == Acked
  {
    if AllAcked(rows, calls) {
      forall n | 0 <= n < |rows| ensures net(n) == Acked {
        assert calls[n] == Call(rows[n], Acked);
      }
    } else if |calls| < |rows| {
      assert net(|calls| - 1) != Acked;
    } else {
      var i :| 0 <= i < |rows| && calls[i] != Call(rows[i], Acked);
      assert net(i) != Acked;
    }
  }

  lemma {:induction false} SendingHears(rows: seq<Row>, net: nat -> Reply, n: nat, s: State)
    requires n <= |rows|
    ensures forall i :: 0 <= i < |Sending(rows, net, n, s).1| ==> Sending(rows, net, n, s).1[i].reply == net(n + i)
    decreases |rows| - n
  {
    if n < |rows| && net(n) == Acked {
      SendingHears(rows, net, n + 1, s.(till := s.till + [rows[n]], unsent := Without(s.unsent, rows[n].item), reachable := true));
    }
  }

  // ----- one press, as the network answers it --------------------------------------------------------------

  /** The first call not acknowledged, or the number of rows when every one is. */
  predicate StopsAt(rows: seq<Row>, net: nat -> Reply, k: nat) {
    k <= |rows| && (forall i :: 0 <= i < k ==> net(i) == Acked) && (k < |rows| ==> net(k) != Acked)
  }

  /** What is on the till once the rows from `n` to `k` landed, and row `k` if its reply was lost. */
  function TillAt(rows: seq<Row>, net: nat -> Reply, n: nat, k: nat): seq<Row>
    requires n <= k <= |rows|
  {
    rows[n..k] + (if k < |rows| && net(k) == LostLanded then [rows[k]] else [])
  }

  lemma TillMore(rows: seq<Row>, net: nat -> Reply, n: nat, k: nat, till: seq<Row>)
    requires n < k <= |rows|
    ensures till + TillAt(rows, net, n, k) == (till + [rows[n]]) + TillAt(rows, net, n + 1, k)
  {
    assert rows[n..k] == [rows[n]] + rows[n + 1..k];
  }

  lemma SendingOne(rows: seq<Row>, net: nat -> Reply, n: nat, s: State)
    requires n <= |rows|
    ensures n < |rows| && net(n) == Acked ==>
      var next := s.(till := s.till + [rows[n]], unsent := Without(s.unsent, rows[n].item), reachable := true);
      Sending(rows, net, n, s).0 == Sending(rows, net, n + 1, next).0
    ensures n < |rows| && net(n) != Acked ==>
      Sending(rows, net, n, s).0 == s.(till := s.till + (if net(n) == LostLanded then [rows[n]] else []),
                                       refused := net(n) == Rejected, reachable := Heard(net(n)))
    ensures n == |rows| ==> Sending(rows, net, n, s).0 == s
  {
    hide Without;
    assert s.till + [] == s.till;
  }

  lemma {:induction false} SendingExact(rows: seq<Row>, net: nat -> Reply, n: nat, s: State, k: nat)
    requires n <= k && StopsAt(rows, net, k) && DistinctItems(rows) && s.unsent == rows[n..]
    ensures var sent := Sending(rows, net, n, s).0;
      && sent.unsent == rows[k..] && sent.till == s.till + TillAt(rows, net, n, k)
      && sent.refused == (if k < |rows| then net(k) == Rejected else s.refused)
    decreases k - n
  {
    hide Without, Sending, TillAt;
    SendingOne(rows, net, n, s);
    if n < k {
      TrimFirst(rows, n);
      TillMore(rows, net, n, k, s.till);
      var next := s.(till := s.till + [rows[n]], unsent := Without(s.unsent, rows[n].item), reachable := true);
      SendingExact(rows, net, n + 1, next, k);
    } else {
      TillNone(rows, net, k, s.till);
    }
  }

  lemma TillNone(rows: seq<Row>, net: nat -> Reply, k: nat, till: seq<Row>)
    requires k <= |rows|
    ensures till + TillAt(rows, net, k, k) == till + (if k < |rows| && net(k) == LostLanded then [rows[k]] else [])
    ensures till + [] == till
  {
  }

  /**
   * What a press leaves, where `k` is the first row not acknowledged: the rows before it are on the till and off
   * the glass, that row is on the till too if only its reply was lost, and the rest stay; the pad shows a refusal
   * exactly when the last call made was refused, the confirm included; and it is reachable as the refresh found.
   */
  lemma PressExact(s: State, kitchenOwes: bool, net: nat -> Reply, poll: bool, k: nat)
    requires DistinctItems(s.unsent) && Presses(s, kitchenOwes) && StopsAt(s.unsent, net, k)
    ensures var t := AfterPress(s, kitchenOwes, net, poll);
      && t.unsent == s.unsent[k..] && t.taps == s.taps && t.reachable == poll
      && t.till == s.till + TillAt(s.unsent, net, 0, k)
      && (t.refused <==> net(k) == Rejected)
      && |t.presses| == |s.presses| + 1 && t.presses[..|s.presses|] == s.presses
      && t.presses[|s.presses|].confirm == (if k == |s.unsent| then Some(net(k)) else None)
  {
    var begun := s.(refused := false);
    SendingExact(s.unsent, net, 0, begun, k);
    AllAckedAt(s.unsent, net, begun, k);
    hide Sending, TillAt, AllAcked, DistinctItems, StopsAt;
  }

  /** Every row is acknowledged exactly when the press stops at none. */
  lemma AllAckedAt(rows: seq<Row>, net: nat -> Reply, s: State, k: nat)
    requires DistinctItems(rows) && StopsAt(rows, net, k) && s.unsent == rows
    ensures var sent := Sending(rows, net, 0, s);
      && (AllAcked(rows, sent.1) <==> k == |rows|) && sent.0.taps == s.taps && sent.0.presses == s.presses
  {
    hide *;
    HeardFromStart(rows, net, s);
    AckedIffHeard(rows, Sending(rows, net, 0, s).1, net);
    StopsAtAll(rows, net, k);
  }

  lemma HeardFromStart(rows: seq<Row>, net: nat -> Reply, s: State)
    requires DistinctItems(rows) && s.unsent == rows
    ensures var sent := Sending(rows, net, 0, s);
      && InOrder(rows, 0, sent.1) && sent.0.taps == s.taps && sent.0.presses == s.presses
      && forall i :: 0 <= i < |sent.1| ==> sent.1[i].reply == net(i)
  {
    hide *;
    assert rows[0..] == rows;
    SendingShape(rows, net, 0, s);
    SendingHears(rows, net, 0, s);
    forall i | 0 <= i < |Sending(rows, net, 0, s).1| ensures Sending(rows, net, 0, s).1[i].reply == net(i) {
      assert net(0 + i) == net(i);
    }
  }

  lemma StopsAtAll(rows: seq<Row>, net: nat -> Reply, k: nat)
    requires StopsAt(rows, net, k)
    ensures k == |rows| <==> forall n :: 0 <= n < |rows| ==> net(n) == Acked
  {
  }

  /** A press that cannot start changes nothing. */
  lemma PressIgnored(s: State, kitchenOwes: bool, net: nat -> Reply, poll: bool)
    requires !s.reachable || (s.unsent == [] && !kitchenOwes)
    ensures AfterPress(s, kitchenOwes, net, poll) == s
  {
  }
}
