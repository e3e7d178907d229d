/**
 * `services/sync-gateway/src/gateway.ts`, `checkInvariants`: the refund cap as the gateway merges one event
 * after another into a log it only appends to.
 */
module RefundGate {
  import opened Wrappers
  import opened Text16
  import opened Money
  import opened MergeLattice
  import opened MergeMoney

  /** A merged event: a payment, a refund of one, each under its settlement attempt, or anything else. */
  datatype Row =
    | Paid(attempt: Name, amount: nat)
    | Repaid(attempt: Name, parent: Name, amount: nat)
    | Other

  predicate Pays(row: Row, parent: Name) {
    row.Paid? && row.attempt == parent
  }

  predicate Refunds(row: Row, parent: Name) {
    row.Repaid? && row.parent == parent
  }

  /** The first merged payment under this attempt. */
  function PaymentOf(rows: seq<Row>, parent: Name): Option<nat> {
    if rows == [] then None
    else
      var before := PaymentOf(rows[..|rows| - 1], parent);
      if before.None? && Pays(rows[|rows| - 1], parent) then Some(rows[|rows| - 1].amount) else before
  }

  /** The refunds of one payment by attempt, the first merged winning. */
  function Priors(rows: seq<Row>, parent: Name): map<Name, nat> {
    if rows == [] then map[]
    else
      var before, row := Priors(rows[..|rows| - 1], parent), rows[|rows| - 1];
      if Refunds(row, parent) && row.attempt !in before then before[row.attempt := row.amount] else before
  }

  function AmountIn(priors: map<Name, nat>): Name -> nat {
    a => if a in priors then priors[a] else 0
  }

  /** What has been refunded of one payment, each attempt once. */
  ghost function PriorTotal(rows: seq<Row>, parent: Name): nat {
    SumBy(Priors(rows, parent).Keys, AmountIn(Priors(rows, parent)))
  }

  /** An unsafe argument is a violation too. */
  predicate Exceeds(payment: int, prior: int, refund: int) {
    var answer := RefundRemainderExceeded(payment, prior, refund);
    answer.Refused? || answer.value
  }

  ghost predicate Violates(rows: seq<Row>, row: Row) {
    && row.Repaid? && PaymentOf(rows, row.parent).Some? && row.attempt !in Priors(rows, row.parent)
    && Exceeds(PaymentOf(rows, row.parent).value, PriorTotal(rows, row.parent), row.amount)
  }

  /** The check, over the merged rows in their order and the attempts in any order. */
  method CheckInvariants(rows: seq<Row>, row: Row) returns (violation: bool)
    ensures violation <==> Violates(rows, row)
  {
    if !row.Repaid? {
      return false;
    }
    var payment := PaymentOf(rows, row.parent);
    if payment.None? {
      return false;
    }
    hide PaymentOf, SumBy, Exceeds;
    var priors: map<Name, nat> := map[];
    for i := 0 to |rows|
      invariant priors == Priors(rows[..i], row.parent)
    {
      assert rows[..i + 1][..i] == rows[..i];
      if Refunds(rows[i], row.parent) && rows[i].attempt !in priors {
        priors := priors[rows[i].attempt := rows[i].amount];
      }
    }
    assert rows[..|rows|] == rows;
    if row.attempt in priors {
      return false;
    }
    var total := TotalOf(priors);
    violation := Exceeds(payment.value, total, row.amount);
  }

  method TotalOf(priors: map<Name, nat>) returns (total: nat)
    ensures total == SumBy(priors.Keys, AmountIn(priors))
  {
    hide SumBy;
    total := 0;
    var todo := priors.Keys;
    SumByNone(AmountIn(priors));
    assert priors.Keys - todo == {};
    while todo != {}
      invariant todo <= priors.Keys
      invariant total == SumBy(priors.Keys - todo, AmountIn(priors))
      decreases |todo|
    {
      var a :| a in todo;
      SumByAdd(priors.Keys - todo, AmountIn(priors), a);
      assert priors.Keys - todo + {a} == priors.Keys - (todo - {a});
      total := total + priors[a];
      todo := todo - {a};
    }
    assert priors.Keys - todo == priors.Keys;
  }

  // ----- what the merged log says ---------------------------------------------------------------------

  predicate FirstPayment(rows: seq<Row>, i: int, parent: Name, amount: nat) {
    && 0 <= i < |rows| && rows[i] == Paid(parent, amount)
    && forall j :: 0 <= j < i ==> !(rows[j].Paid? && rows[j].attempt == parent)
  }

  predicate FirstRefund(rows: seq<Row>, i: int, parent: Name, attempt: Name, amount: nat) {
    && 0 <= i < |rows| && rows[i] == Repaid(attempt, parent, amount)
    && forall j :: 0 <= j < i ==> !(rows[j].Repaid? && rows[j].parent == parent && rows[j].attempt == attempt)
  }

  /** The payment a refund is held against is the first merged under the attempt the refund names. */
  lemma {:induction false} PaymentExact(rows: seq<Row>, parent: Name, amount: nat)
    ensures PaymentOf(rows, parent) == Some(amount) <==> exists i :: FirstPayment(rows, i, parent, amount)
    ensures PaymentOf(rows, parent).None? <==> forall row :: row in rows ==> !(row.Paid? && row.attempt == parent)
  {
    if rows != [] {
      var front, last := rows[..|rows| - 1], |rows| - 1;
      assert rows == front + [rows[last]];
      PaymentExact(front, parent, amount);
      if i :| FirstPayment(front, i, parent, amount) {
        assert FirstPayment(rows, i, parent, amount);
      }
      if i :| FirstPayment(rows, i, parent, amount) && i < last {
        assert FirstPayment(front, i, parent, amount);
      }
      if PaymentOf(front, parent).None? && rows[last] == Paid(parent, amount) {
        assert forall j :: 0 <= j < last ==> rows[j] in front;
        assert FirstPayment(rows, last, parent, amount);
      }
    }
  }

  /** The refunds counted against it are those that name it, the first merged of each attempt. */
  lemma {:induction false} PriorsExact(rows: seq<Row>, parent: Name, attempt: Name, amount: nat)
    ensures attempt in Priors(rows, parent) && Priors(rows, parent)[attempt] == amount
      <==> exists i :: FirstRefund(rows, i, parent, attempt, amount)
    ensures attempt !in Priors(rows, parent)
      <==> forall row :: row in rows ==> !(row.Repaid? && row.parent == parent && row.attempt == attempt)
  {
    if rows != [] {
      var front, last := rows[..|rows| - 1], |rows| - 1;
      assert rows == front + [rows[last]];
      PriorsExact(front, parent, attempt, amount);
      if i :| FirstRefund(front, i, parent, attempt, amount) {
        assert FirstRefund(rows, i, parent, attempt, amount);
      }
      if i :| FirstRefund(rows, i, parent, attempt, amount) && i < last {
        assert FirstRefund(front, i, parent, attempt, amount);
      }
      if attempt !in Priors(front, parent) && rows[last] == Repaid(attempt, parent, amount) {
        assert forall j :: 0 <= j < last ==> rows[j] in front;
        assert FirstRefund(rows, last, parent, attempt, amount);
      }
    }
  }

  // ----- every run --------------------------------------------------------------------------------------------

  /** A violation is quarantined; everything else is merged. */
  ghost function Merge(rows: seq<Row>, row: Row): seq<Row> {
    if Violates(rows, row) then rows else rows + [row]
  }

  ghost function MergeAll(arrivals: seq<Row>): seq<Row> {
    if arrivals == [] then []
    else Merge(MergeAll(arrivals[..|arrivals| - 1]), arrivals[|arrivals| - 1])
  }

  /** What had been refunded of a payment when it was merged, or so far while it has not been. */
  ghost function EarlyTotal(rows: seq<Row>, parent: Name): nat {
    if rows == [] then 0
    else if PaymentOf(rows[..|rows| - 1], parent).Some? then EarlyTotal(rows[..|rows| - 1], parent)
    else PriorTotal(rows, parent)
  }

  lemma RowAdded(rows: seq<Row>, row: Row, parent: Name)
    ensures PaymentOf(rows + [row], parent)
      == if PaymentOf(rows, parent).None? && Pays(row, parent) then Some(row.amount) else PaymentOf(rows, parent)
    ensures EarlyTotal(rows + [row], parent)
      == if PaymentOf(rows, parent).Some? then EarlyTotal(rows, parent) else PriorTotal(rows + [row], parent)
    ensures PriorTotal(rows + [row], parent) == PriorTotal(rows, parent)
      + (if Refunds(row, parent) && row.attempt !in Priors(rows, parent) then row.amount else 0)
  {
    hide SumBy;
    assert (rows + [row])[..|rows|] == rows;
    var was, now := Priors(rows, parent), Priors(rows + [row], parent);
    if Refunds(row, parent) && row.attempt !in was {
      assert now == was[row.attempt := row.amount] && now.Keys == was.Keys + {row.attempt};
      SumByAdd(was.Keys, AmountIn(now), row.attempt);
      SumByRestricted(was.Keys, was.Keys, AmountIn(now), AmountIn(was));
    }
  }

  lemma ExceedsExactly(payment: nat, prior: nat, refund: nat)
    ensures Exceeds(payment, prior, refund) <==> payment > MAX_SAFE || prior + refund > payment
  {
  }

  /** After its payment, a refund under a new attempt is merged exactly when it still fits. */
  lemma MergedIffItFits(rows: seq<Row>, row: Row)
    requires row.Repaid? && PaymentOf(rows, row.parent).Some? && row.attempt !in Priors(rows, row.parent)
    ensures var payment := PaymentOf(rows, row.parent).value;
      Merge(rows, row) == rows + [row] <==> payment <= MAX_SAFE && PriorTotal(rows, row.parent) + row.amount <= payment
  {
    ExceedsExactly(PaymentOf(rows, row.parent).value, PriorTotal(rows, row.parent), row.amount);
  }

  /** The refunds of a merged payment fit it, or are those that came before it and no more. */
  ghost predicate Capped(rows: seq<Row>, parent: Name) {
    var payment := PaymentOf(rows, parent);
    && (payment.None? ==> EarlyTotal(rows, parent) == PriorTotal(rows, parent))
    && (payment.Some? ==>
          PriorTotal(rows, parent) == EarlyTotal(rows, parent)
          || EarlyTotal(rows, parent) <= PriorTotal(rows, parent) <= payment.value)
  }

  lemma MergeKeepsCap(rows: seq<Row>, row: Row, parent: Name)
    requires Capped(rows, parent)
    ensures Capped(Merge(rows, row), parent)
  {
    hide Priors, PriorTotal, EarlyTotal, PaymentOf, Exceeds;
    RowAdded(rows, row, parent);
    if Refunds(row, parent) && PaymentOf(rows, parent).Some? {
      ExceedsExactly(PaymentOf(rows, parent).value, PriorTotal(rows, parent), row.amount);
    }
  }

  lemma {:induction false} EveryRunKeepsCap(arrivals: seq<Row>, parent: Name)
    ensures Capped(MergeAll(arrivals), parent)
  {
    if arrivals != [] {
      EveryRunKeepsCap(arrivals[..|arrivals| - 1], parent);
      MergeKeepsCap(MergeAll(arrivals[..|arrivals| - 1]), arrivals[|arrivals| - 1], parent);
    } else {
      SumByNone(AmountIn(map[]));
    }
  }

  /**
   * Over any run, each attempt counted once: a merged payment is over-refunded exactly when the refunds
   * merged before it were already too much, and then not one refund more is counted.
   */
  lemma EveryRunCapped(arrivals: seq<Row>, parent: Name)
    requires PaymentOf(MergeAll(arrivals), parent).Some?
    ensures var rows := MergeAll(arrivals);
      var payment := PaymentOf(rows, parent).value;
      && (PriorTotal(rows, parent) > payment <==> EarlyTotal(rows, parent) > payment)
      && (PriorTotal(rows, parent) > payment ==> PriorTotal(rows, parent) == EarlyTotal(rows, parent))
  {
    EveryRunKeepsCap(arrivals, parent);
  }
}
