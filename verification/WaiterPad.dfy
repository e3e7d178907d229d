/**
 * `apps/waiter/src/Pad.tsx`: the tap and SEND handlers, updating the pad's own state call by call.
 */
module WaiterPad {
  import opened Wrappers
  import opened PadMachine

  /** The rest of the loop from row `n`, after `calls` were made. */
  function Resumed(rows: seq<Row>, net: nat -> Reply, n: nat, s: State, calls: seq<Call>): (State, seq<Call>)
    requires n <= |rows|
  {
    var (last, more) := Sending(rows, net, n, s);
    (last, calls + more)
  }

  /** What one call does to the pad and the till. */
  function AfterCall(s: State, row: Row, reply: Reply): State {
    var till := if Landed(reply) then s.till + [row] else s.till;
    if reply == Acked then s.(till := till, unsent := Without(s.unsent, row.item), reachable := true)
    else s.(till := till, refused := reply == Rejected, reachable := Heard(reply))
  }

  lemma ResumedStep(rows: seq<Row>, net: nat -> Reply, n: nat, s: State, calls: seq<Call>)
    requires n < |rows|
    ensures var next, more := AfterCall(s, rows[n], net(n)), calls + [Call(rows[n], net(n))];
      Resumed(rows, net, n, s, calls) == if net(n) == Acked then Resumed(rows, net, n + 1, next, more) else (next, more)
  {
    hide Without;
    if net(n) == Acked {
      var rest := Sending(rows, net, n + 1, AfterCall(s, rows[n], Acked)).1;
      assert calls + ([Call(rows[n], Acked)] + rest) == (calls + [Call(rows[n], Acked)]) + rest;
    }
  }

  lemma ResumedStart(rows: seq<Row>, net: nat -> Reply, s: State)
    ensures Resumed(rows, net, 0, s, []) == Sending(rows, net, 0, s)
  {
    assert [] + Sending(rows, net, 0, s).1 == Sending(rows, net, 0, s).1;
  }

  lemma ResumedEnd(rows: seq<Row>, net: nat -> Reply, s: State, calls: seq<Call>)
    ensures Resumed(rows, net, |rows|, s, calls) == (s, calls)
  {
    assert calls + [] == calls;
  }

  class Pad {
    var unsent: seq<Row>
    var refused: bool
    var reachable: bool
    /** The till's lines for this table: they change when a call lands, not when it is heard of. */
    ghost var till: seq<Row>
    ghost var taps: seq<ItemId>
    ghost var presses: seq<Press>

    ghost function Snapshot(): State
      reads this
    {
      State(unsent, refused, reachable, till, taps, presses)
    }

    /** A table tile: the pad opens it with nothing on the glass. */
    constructor ()
      ensures Snapshot() == OPENED
    {
      unsent, refused, reachable := [], false, true;
      till, taps, presses := [], [], [];
    }

    /** An item tile. A greyed tile is refused unless it is greyed for being sold out. */
    method Tap(item: ItemId, unavailable: bool, soldOut: bool)
      modifies this
      ensures Snapshot() == if unavailable && !soldOut then old(Snapshot()) else AfterTap(old(Snapshot()), item)
    {
      if unavailable && !soldOut {
        return;
      }
      var at := IndexOf(unsent, item);
      if at == |unsent| {
        unsent := unsent + [Row(item, 1)];
      } else {
        unsent := unsent[at := Row(item, unsent[at].qty + 1)];
      }
      taps := taps + [item];
    }

    /** SEND: one call per row, each trimmed on its own answer, then the confirm, then a re-read. */
    method Send(kitchenOwes: bool, net: nat -> Reply, poll: bool)
      modifies this
      ensures Snapshot() == AfterPress(old(Snapshot()), kitchenOwes, net, poll)
    {
      if !reachable || !(unsent != [] || kitchenOwes) {
        return;
      }
      hide Sending, Resumed, Without;
      refused := false;
      var rows := unsent;
      ghost var begun := Snapshot();
      ghost var calls: seq<Call> := [];
      ResumedStart(rows, net, begun);
      for n := 0 to |rows|
        invariant |calls| == n && (forall i :: 0 <= i < n ==> calls[i] == Call(rows[i], Acked))
        invariant presses == begun.presses
        invariant Sending(rows, net, 0, begun) == Resumed(rows, net, n, Snapshot(), calls)
      {
        var row, reply := rows[n], net(n);
        ResumedStep(rows, net, n, Snapshot(), calls);
        ghost var next := AfterCall(Snapshot(), row, reply);
        calls := calls + [Call(row, reply)];
        if Landed(reply) {
          till := till + [row];
        }
        reachable := Heard(reply);
        if reply != Acked {
          refused := reply == Rejected;
          assert Snapshot() == next;
          reachable := poll;
          assert calls[n].reply != Acked;
          presses := presses + [Press(rows, calls, None)];
          return;
        }
        unsent := Without(unsent, row.item);
        assert Snapshot() == next;
      }
      ResumedEnd(rows, net, Snapshot(), calls);
      var confirmed := net(|rows|);
      refused := confirmed == Rejected;
      reachable := poll;
      presses := presses + [Press(rows, calls, Some(confirmed))];
    }
  }
}
