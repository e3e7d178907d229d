/**
 * The money of one order as `packages/sync-client/src/folds/merge.ts` projects it: sums keyed by attempt,
 * where a disputed attempt counts for nothing, and the refund cap.
 */
module MergeMoney {
  import opened MergeLattice
  import opened MergeConvergence

  /** The members recorded under each attempt key; no cell is empty. */
  type Cells<T> = map<Name, set<T>>

  function PaymentSlots(l: Lattice, order: Name): set<Slot> {
    set s | s in l && s.PaymentAt? && s.order == order
  }

  function RefundSlots(l: Lattice, order: Name): set<Slot> {
    set s | s in l && s.RefundAt? && s.order == order
  }

  function PaymentsIn(slots: set<Slot>): Cells<Payment> {
    var attempts := set s | s in slots && s.PaymentAt? :: s.attempt;
    map a | a in attempts :: set s | s in slots && s.PaymentAt? && s.attempt == a :: s.payment
  }

  function RefundsIn(slots: set<Slot>): Cells<Refund> {
    var attempts := set s | s in slots && s.RefundAt? :: s.attempt;
    map a | a in attempts :: set s | s in slots && s.RefundAt? && s.attempt == a :: s.refund
  }

  function PaymentCells(l: Lattice, order: Name): Cells<Payment> {
    PaymentsIn(PaymentSlots(l, order))
  }

  function RefundCells(l: Lattice, order: Name): Cells<Refund> {
    RefundsIn(RefundSlots(l, order))
  }

  lemma CellsNotEmpty(l: Lattice, order: Name)
    ensures forall a :: a in PaymentCells(l, order) ==> PaymentCells(l, order)[a] != {}
    ensures forall a :: a in RefundCells(l, order) ==> RefundCells(l, order)[a] != {}
  {
    forall a | a in PaymentCells(l, order)
      ensures PaymentCells(l, order)[a] != {}
    {
      var s :| s in PaymentSlots(l, order) && s.attempt == a;
      assert s.payment in PaymentCells(l, order)[a];
    }
    forall a | a in RefundCells(l, order)
      ensures RefundCells(l, order)[a] != {}
    {
      var s :| s in RefundSlots(l, order) && s.attempt == a;
      assert s.refund in RefundCells(l, order)[a];
    }
  }

  // ----- sums over a finite set ------------------------------------------------------------------------

  ghost function SumBy(keys: set<Name>, f: Name -> nat): nat {
    if keys == {} then 0
    else
      var k :| k in keys;
      f(k) + SumBy(keys - {k}, f)
  }

  lemma {:induction false} SumByRemove(keys: set<Name>, f: Name -> nat, k: Name)
    requires k in keys
    ensures SumBy(keys, f) == f(k) + SumBy(keys - {k}, f)
  {
    var j :| j in keys && SumBy(keys, f) == f(j) + SumBy(keys - {j}, f);
    if j != k {
      SumByRemove(keys - {j}, f, k);
      SumByRemove(keys - {k}, f, j);
      assert keys - {j} - {k} == keys - {k} - {j};
    }
  }

  lemma SumByAdd(keys: set<Name>, f: Name -> nat, k: Name)
    requires k !in keys
    ensures SumBy(keys + {k}, f) == SumBy(keys, f) + f(k)
  {
    SumByRemove(keys + {k}, f, k);
    assert keys + {k} - {k} == keys;
  }

  /** A part counted under `f` is at most the whole counted under a larger `g`. */
  lemma {:induction false} SumByAtMost(part: set<Name>, whole: set<Name>, f: Name -> nat, g: Name -> nat)
    requires part <= whole && forall k :: k in part ==> f(k) <= g(k)
    ensures SumBy(part, f) <= SumBy(whole, g)
    decreases |whole|
  {
    if whole != {} {
      var k :| k in whole;
      SumByRemove(whole, g, k);
      if k in part { SumByRemove(part, f, k); }
      assert k !in part ==> part - {k} == part;
      SumByAtMost(part - {k}, whole - {k}, f, g);
    }
  }

  /** Keys that count for nothing can be left out. */
  lemma {:induction false} SumByRestricted(part: set<Name>, whole: set<Name>, f: Name -> nat, g: Name -> nat)
    requires part <= whole && (forall k :: k in part ==> f(k) == g(k)) && forall k :: k in whole - part ==> g(k) == 0
    ensures SumBy(part, f) == SumBy(whole, g)
    decreases |whole|
  {
    if whole != {} {
      var k :| k in whole;
      SumByRemove(whole, g, k);
      if k in part { SumByRemove(part, f, k); }
      assert k !in part ==> part - {k} == part;
      SumByRestricted(part - {k}, whole - {k}, f, g);
    }
  }

  // ----- keyed totals ------------------------------------------------------------------------------------

  predicate Disputed<T(==)>(cell: set<T>) {
    |cell| != 1
  }

  /** What one attempt adds to a total: its only member's amount. */
  function Worth<T>(cell: set<T>, amount: T -> nat): nat {
    if exists m :: m in cell && cell == {m} then
      var m :| m in cell && cell == {m};
      amount(m)
    else 0
  }

  function WorthOf<T>(cells: Cells<T>, amount: T -> nat): Name -> nat {
    a => if a in cells then Worth(cells[a], amount) else 0
  }

  ghost function Total<T>(cells: Cells<T>, amount: T -> nat): nat {
    SumBy(cells.Keys, WorthOf(cells, amount))
  }

  /** What a payment adds to the tendered, or to the repaid, total. */
  function Paid(repays: bool): Payment -> nat {
    (m: Payment) => if m.repays == repays then m.amount else 0
  }

  function Refunded(): Refund -> nat {
    (m: Refund) => m.amount
  }

  predicate Divergent<T(==)>(cells: Cells<T>) {
    exists a :: a in cells && Disputed(cells[a])
  }

  lemma SingleMember<T>(cell: set<T>, m: T)
    requires |cell| == 1 && m in cell
    ensures cell == {m}
  {
    var rest := cell - {m};
    assert |rest| == 0;
  }

  /** The payment totals over the attempts already visited. */
  ghost predicate TotalledButFor(pay: Cells<Payment>, todo: set<Name>, tendered: nat, repaid: nat, divergence: bool) {
    && tendered == SumBy(pay.Keys - todo, WorthOf(pay, Paid(false)))
    && repaid == SumBy(pay.Keys - todo, WorthOf(pay, Paid(true)))
    && (divergence <==> exists a :: a in pay && a !in todo && Disputed(pay[a]))
  }

  lemma NothingTotalled(pay: Cells<Payment>)
    ensures TotalledButFor(pay, pay.Keys, 0, 0, false)
  {
    SumByNone(WorthOf(pay, Paid(false)));
    SumByNone(WorthOf(pay, Paid(true)));
    assert pay.Keys - pay.Keys == {};
  }

  lemma OneMoreTotalled(pay: Cells<Payment>, todo: set<Name>, a: Name, tendered: nat, repaid: nat, divergence: bool)
    requires TotalledButFor(pay, todo, tendered, repaid, divergence) && todo <= pay.Keys && a in todo
    ensures TotalledButFor(pay, todo - {a}, tendered + Worth(pay[a], Paid(false)), repaid + Worth(pay[a], Paid(true)),
                           divergence || Disputed(pay[a]))
  {
    hide Worth, WorthOf, SumBy, Disputed, Paid;
    SumWithKey(pay, Paid(false), pay.Keys - todo, a);
    SumWithKey(pay, Paid(true), pay.Keys - todo, a);
    assert pay.Keys - (todo - {a}) == pay.Keys - todo + {a};
  }

  /** The payment totals, over the attempts in any order they are visited. */
  method Totals(pay: Cells<Payment>) returns (tendered: nat, repaid: nat, divergence: bool)
    ensures tendered == Total(pay, Paid(false)) && repaid == Total(pay, Paid(true))
    ensures divergence <==> Divergent(pay)
  {
    hide Worth, WorthOf, SumBy, TotalledButFor;
    tendered, repaid, divergence := 0, 0, false;
    var todo := pay.Keys;
    NothingTotalled(pay);
    while todo != {}
      invariant todo <= pay.Keys
      invariant TotalledButFor(pay, todo, tendered, repaid, divergence)
      decreases |todo|
    {
      var a :| a in todo;
      var cell := pay[a];
      OneMoreTotalled(pay, todo, a, tendered, repaid, divergence);
      if |cell| == 1 {
        var m :| m in cell;
        SingleMember(cell, m);
        WorthOne(m, Paid(false));
        WorthOne(m, Paid(true));
        if m.repays { repaid := repaid + m.amount; } else { tendered := tendered + m.amount; }
      } else {
        WorthNone(cell, Paid(false));
        WorthNone(cell, Paid(true));
        divergence := true;
      }
      todo := todo - {a};
    }
    AllTotalled(pay, tendered, repaid, divergence);
  }

  lemma AllTotalled(pay: Cells<Payment>, tendered: nat, repaid: nat, divergence: bool)
    requires TotalledButFor(pay, {}, tendered, repaid, divergence)
    ensures tendered == Total(pay, Paid(false)) && repaid == Total(pay, Paid(true))
    ensures divergence <==> Divergent(pay)
  {
    assert pay.Keys - {} == pay.Keys;
  }

  lemma SumByNone(f: Name -> nat)
    ensures SumBy({}, f) == 0
  {
  }

  /** One attempt more adds its only member's amount, or nothing when it is disputed. */
  lemma SumWithKey<T>(cells: Cells<T>, amount: T -> nat, done: set<Name>, a: Name)
    requires a in cells && a !in done
    ensures SumBy(done + {a}, WorthOf(cells, amount)) == SumBy(done, WorthOf(cells, amount)) + Worth(cells[a], amount)
    ensures Disputed(cells[a]) ==> Worth(cells[a], amount) == 0
    ensures forall m :: cells[a] == {m} ==> Worth(cells[a], amount) == amount(m)
  {
    SumByAdd(done, WorthOf(cells, amount), a);
    if m :| cells[a] == {m} { WorthOne(m, amount); }
  }

  lemma WorthOne<T>(m: T, amount: T -> nat)
    ensures Worth({m}, amount) == amount(m)
  {
    assert m in {m};
  }

  lemma WorthNone<T>(cell: set<T>, amount: T -> nat)
    requires Disputed(cell)
    ensures Worth(cell, amount) == 0
  {
  }

  function WithMember<T>(cells: Cells<T>, a: Name, m: T): Cells<T> {
    cells[a := (if a in cells then cells[a] else {}) + {m}]
  }

  lemma TotalWith<T>(cells: Cells<T>, a: Name, m: T, amount: T -> nat)
    ensures Total(WithMember(cells, a, m), amount) + (if a in cells then Worth(cells[a], amount) else 0)
      == Total(cells, amount) + Worth((if a in cells then cells[a] else {}) + {m}, amount)
  {
    hide Worth;
    var after := WithMember(cells, a, m);
    var rest := cells.Keys - {a};
    SumByRemove(after.Keys, WorthOf(after, amount), a);
    if a in cells { SumByRemove(cells.Keys, WorthOf(cells, amount), a); }
    assert after.Keys - {a} == rest && (a !in cells ==> rest == cells.Keys);
    SumByRestricted(rest, rest, WorthOf(after, amount), WorthOf(cells, amount));
  }

  /**
   * A payment or a refund counts once, whatever a member is worth. The first member of an attempt adds its
   * amount; the same member again, under any event id, adds nothing; a second, different member takes the
   * attempt out of the total; and a disputed attempt stays out.
   */
  lemma MemberCountsOnce<T>(cells: Cells<T>, a: Name, m: T, amount: T -> nat)
    requires forall k :: k in cells ==> cells[k] != {}
    ensures a !in cells ==> Total(WithMember(cells, a, m), amount) == Total(cells, amount) + amount(m)
    ensures a in cells && m in cells[a] ==> WithMember(cells, a, m) == cells
    ensures a in cells && m !in cells[a] && |cells[a]| == 1 ==>
      Total(cells, amount) == Total(WithMember(cells, a, m), amount) + Worth(cells[a], amount)
    ensures a in cells && m !in cells[a] && |cells[a]| > 1 ==> Total(WithMember(cells, a, m), amount) == Total(cells, amount)
  {
    TotalWith(cells, a, m, amount);
    WorthOne(m, amount);
    if a !in cells {
      assert {} + {m} == {m};
    } else if m in cells[a] {
      assert cells[a] + {m} == cells[a];
    } else {
      assert |cells[a] + {m}| == |cells[a]| + 1;
      assert |cells[a]| != 0;
      WorthNone(cells[a] + {m}, amount);
      if |cells[a]| > 1 { WorthNone(cells[a], amount); }
    }
  }

  /** Folding a payment adds its member to its attempt's cell, and to no other. */
  lemma PaymentFolds(l: Lattice, e: Event, order: Name)
    requires e.OfOrder? && e.body.PaymentRecorded?
    ensures PaymentCells(l + Writes(e), order)
      == if e.order == order then WithMember(PaymentCells(l, order), e.body.attempt, e.body.payment) else PaymentCells(l, order)
  {
    var slot := PaymentAt(e.order, e.body.attempt, e.body.payment);
    var after := PaymentCells(l + Writes(e), order);
    var want := if e.order == order then WithMember(PaymentCells(l, order), e.body.attempt, e.body.payment) else PaymentCells(l, order);
    assert forall s :: s in l + Writes(e) <==> s in l || s == slot;
    assert after.Keys == want.Keys;
    forall a | a in after
      ensures after[a] == want[a]
    {
    }
  }

  /** And a refund to its own. */
  lemma RefundFolds(l: Lattice, e: Event, order: Name)
    requires e.OfOrder? && e.body.PaymentRefunded?
    ensures RefundCells(l + Writes(e), order)
      == if e.order == order then WithMember(RefundCells(l, order), e.body.attempt, e.body.refund) else RefundCells(l, order)
  {
    var slot := RefundAt(e.order, e.body.attempt, e.body.refund);
    var after := RefundCells(l + Writes(e), order);
    var want := if e.order == order then WithMember(RefundCells(l, order), e.body.attempt, e.body.refund) else RefundCells(l, order);
    assert forall s :: s in l + Writes(e) <==> s in l || s == slot;
    assert after.Keys == want.Keys;
    forall a | a in after
      ensures after[a] == want[a]
    {
    }
  }

  // ----- the refund cap ------------------------------------------------------------------------------------

  /** The largest claim the members of one refund attempt make on a payment; 0 when none names it. */
  ghost predicate IsLargest(cell: set<Refund>, parent: Name, x: nat) {
    && (forall r :: r in cell && r.parent == parent ==> r.amount <= x)
    && (x == 0 || exists r :: r in cell && r.parent == parent && r.amount == x)
  }

  ghost function Largest(cell: set<Refund>, parent: Name): (x: nat)
    ensures IsLargest(cell, parent, x)
    decreases |cell|
  {
    if cell == {} then 0
    else
      var r :| r in cell;
      var rest := Largest(cell - {r}, parent);
      assert cell == cell - {r} + {r};
      if r.parent == parent && r.amount > rest then r.amount else rest
  }

  ghost function ClaimBy(refund: Cells<Refund>, parent: Name): Name -> nat {
    a => if a in refund then Largest(refund[a], parent) else 0
  }

  /** What the refunds could at most claim on one payment. */
  ghost function Claimed(refund: Cells<Refund>, parent: Name): nat {
    SumBy(refund.Keys, ClaimBy(refund, parent))
  }

  ghost predicate Busts(pay: Cells<Payment>, refund: Cells<Refund>, parent: Name) {
    parent in pay && exists m :: m in pay[parent] && Claimed(refund, parent) > m.amount
  }

  ghost predicate CapBusted(pay: Cells<Payment>, refund: Cells<Refund>) {
    exists parent :: Busts(pay, refund, parent)
  }

  function Lookup(m: map<Name, nat>, k: Name): nat {
    if k in m then m[k] else 0
  }

  /** One refund attempt's members grouped by the payment they name, the largest kept. */
  method LargestByParent(cell: set<Refund>) returns (largest: map<Name, nat>)
    ensures forall parent :: Lookup(largest, parent) == Largest(cell, parent)
  {
    largest := map[];
    var todo := cell;
    while todo != {}
      invariant todo <= cell
      invariant forall parent :: IsLargest(cell - todo, parent, Lookup(largest, parent))
      decreases |todo|
    {
      var r :| r in todo;
      ghost var before := largest;
      if r.amount > Lookup(largest, r.parent) {
        largest := largest[r.parent := r.amount];
      }
      forall parent
        ensures IsLargest(cell - (todo - {r}), parent, Lookup(largest, parent))
      {
        LargestWith(cell - todo, parent, Lookup(before, parent), r);
        assert cell - todo + {r} == cell - (todo - {r});
      }
      todo := todo - {r};
    }
    forall parent
      ensures Lookup(largest, parent) == Largest(cell, parent)
    {
      assert cell - todo == cell;
      LargestUnique(cell, parent, Lookup(largest, parent), Largest(cell, parent));
    }
  }

  lemma LargestWith(cell: set<Refund>, parent: Name, x: nat, r: Refund)
    requires IsLargest(cell, parent, x)
    ensures IsLargest(cell + {r}, parent, if r.parent == parent && r.amount > x then r.amount else x)
  {
  }

  lemma LargestUnique(cell: set<Refund>, parent: Name, x: nat, y: nat)
    requires IsLargest(cell, parent, x) && IsLargest(cell, parent, y)
    ensures x == y
  {
  }

  function Plus(a: map<Name, nat>, b: map<Name, nat>): (c: map<Name, nat>)
    ensures forall k :: Lookup(c, k) == Lookup(a, k) + Lookup(b, k)
  {
    map k | k in a.Keys + b.Keys :: Lookup(a, k) + Lookup(b, k)
  }

  /** The refund total and the claims on each payment, over the attempts already visited. */
  ghost predicate RefundedButFor(
    refund: Cells<Refund>, todo: set<Name>, total: nat, divergence: bool, claims: map<Name, nat>)
  {
    && total == SumBy(refund.Keys - todo, WorthOf(refund, Refunded()))
    && (divergence <==> exists a :: a in refund && a !in todo && Disputed(refund[a]))
    && ClaimsOf(claims, refund, refund.Keys - todo)
  }

  lemma NothingRefunded(refund: Cells<Refund>)
    ensures RefundedButFor(refund, refund.Keys, 0, false, map[])
  {
    NoClaims(refund);
    SumByNone(WorthOf(refund, Refunded()));
    assert refund.Keys - refund.Keys == {};
  }

  lemma OneMoreRefunded(
    refund: Cells<Refund>, todo: set<Name>, a: Name, total: nat, divergence: bool, claims: map<Name, nat>, largest: map<Name, nat>)
    requires RefundedButFor(refund, todo, total, divergence, claims) && todo <= refund.Keys && a in todo
    requires forall parent :: Lookup(largest, parent) == Largest(refund[a], parent)
    ensures RefundedButFor(refund, todo - {a}, total + Worth(refund[a], Refunded()), divergence || Disputed(refund[a]), Plus(claims, largest))
  {
    hide SumBy, Largest, Lookup, Plus, Worth, WorthOf, ClaimsOf, Disputed;
    SumWithKey(refund, Refunded(), refund.Keys - todo, a);
    ClaimsMore(refund, refund.Keys - todo, a, claims, largest);
    assert refund.Keys - (todo - {a}) == refund.Keys - todo + {a};
  }

  /** The refund total and the claims on each payment, over the attempts in any order they are visited. */
  method Refunds(refund: Cells<Refund>) returns (total: nat, divergence: bool, claims: map<Name, nat>)
    ensures total == Total(refund, Refunded())
    ensures divergence <==> Divergent(refund)
    ensures forall parent :: Lookup(claims, parent) == Claimed(refund, parent)
  {
    hide SumBy, Largest, Lookup, Plus, Worth, WorthOf, RefundedButFor, Claimed;
    total, divergence, claims := 0, false, map[];
    var todo := refund.Keys;
    NothingRefunded(refund);
    while todo != {}
      invariant todo <= refund.Keys && RefundedButFor(refund, todo, total, divergence, claims)
      decreases |todo|
    {
      var a :| a in todo;
      var cell := refund[a];
      var largest := LargestByParent(cell);
      OneMoreRefunded(refund, todo, a, total, divergence, claims, largest);
      if |cell| == 1 {
        var m :| m in cell;
        SingleMember(cell, m);
        WorthOne(m, Refunded());
        total := total + m.amount;
      } else {
        WorthNone(cell, Refunded());
        divergence := true;
      }
      claims := Plus(claims, largest);
      todo := todo - {a};
    }
    AllRefunded(refund, total, divergence, claims);
  }

  lemma AllRefunded(refund: Cells<Refund>, total: nat, divergence: bool, claims: map<Name, nat>)
    requires RefundedButFor(refund, {}, total, divergence, claims)
    ensures total == Total(refund, Refunded())
    ensures divergence <==> Divergent(refund)
    ensures forall parent :: Lookup(claims, parent) == Claimed(refund, parent)
  {
    assert refund.Keys - {} == refund.Keys;
    ClaimedInAll(claims, refund);
  }

  /** What the attempts done so far claim on each payment. */
  ghost predicate ClaimsOf(claims: map<Name, nat>, refund: Cells<Refund>, done: set<Name>) {
    forall parent :: Lookup(claims, parent) == SumBy(done, ClaimBy(refund, parent))
  }

  lemma NoClaims(refund: Cells<Refund>)
    ensures ClaimsOf(map[], refund, {})
  {
  }

  lemma ClaimsMore(refund: Cells<Refund>, done: set<Name>, a: Name, claims: map<Name, nat>, largest: map<Name, nat>)
    requires a in refund && a !in done && ClaimsOf(claims, refund, done)
    requires forall parent :: Lookup(largest, parent) == Largest(refund[a], parent)
    ensures ClaimsOf(Plus(claims, largest), refund, done + {a})
  {
    hide Largest, Lookup, SumBy;
    forall parent
      ensures Lookup(Plus(claims, largest), parent) == SumBy(done + {a}, ClaimBy(refund, parent))
    {
      SumByAdd(done, ClaimBy(refund, parent), a);
    }
  }

  lemma ClaimedInAll(claims: map<Name, nat>, refund: Cells<Refund>)
    requires ClaimsOf(claims, refund, refund.Keys)
    ensures forall parent :: Lookup(claims, parent) == Claimed(refund, parent)
  {
  }

  /** The flag, over attempts and members in any order they are visited. */
  method CapViolated(pay: Cells<Payment>, refund: Cells<Refund>) returns (violated: bool)
    requires forall a :: a in pay ==> pay[a] != {}
    ensures violated <==> CapBusted(pay, refund)
  {
    hide Claimed, Lookup;
    var _, _, claims := Refunds(refund);
    violated := false;
    var todo := pay.Keys;
    while todo != {}
      invariant todo <= pay.Keys
      invariant violated <==> exists parent :: parent !in todo && Busts(pay, refund, parent)
      decreases |todo|
    {
      var a :| a in todo;
      var floor := Floor(pay[a]);
      assert Busts(pay, refund, a) <==> Lookup(claims, a) > floor;
      if Lookup(claims, a) > floor {
        violated := true;
      }
      todo := todo - {a};
    }
  }

  /** The smallest member of a payment attempt. */
  method Floor(cell: set<Payment>) returns (floor: nat)
    requires cell != {}
    ensures exists m :: m in cell && m.amount == floor
    ensures forall m :: m in cell ==> floor <= m.amount
  {
    var first :| first in cell;
    floor := first.amount;
    var todo := cell - {first};
    while todo != {}
      invariant todo <= cell
      invariant exists m :: m in cell && m.amount == floor
      invariant forall m :: m in cell - todo ==> floor <= m.amount
      decreases |todo|
    {
      var m :| m in todo;
      if m.amount < floor { floor := m.amount; }
      todo := todo - {m};
    }
  }

  // ----- what the flag means ----------------------------------------------------------------------------------

  /** A reading of the refunds that keeps at most one member of each attempt. */
  ghost predicate SubView(choice: map<Name, Refund>, refund: Cells<Refund>) {
    forall a :: a in choice ==> a in refund && choice[a] in refund[a]
  }

  ghost function ChosenBy(choice: map<Name, Refund>, parent: Name): Name -> nat {
    a => if a in choice && choice[a].parent == parent then choice[a].amount else 0
  }

  ghost predicate Exceeds(choice: map<Name, Refund>, parent: Name, m: Payment, pay: Cells<Payment>, refund: Cells<Refund>) {
    SubView(choice, refund) && parent in pay && m in pay[parent] && SumBy(choice.Keys, ChosenBy(choice, parent)) > m.amount
  }

  /** Some reading refunds more of a payment than some reading says was paid. */
  ghost predicate OverRefunded(pay: Cells<Payment>, refund: Cells<Refund>) {
    exists choice, parent, m :: Exceeds(choice, parent, m, pay, refund)
  }

  ghost function Best(refund: Cells<Refund>, parent: Name): (choice: map<Name, Refund>)
    ensures SubView(choice, refund)
    ensures forall a :: a in refund && a !in choice ==> Largest(refund[a], parent) == 0
    ensures forall a :: a in choice ==> choice[a].parent == parent && choice[a].amount == Largest(refund[a], parent)
  {
    map a | a in refund && exists r :: r in refund[a] && r.parent == parent && r.amount == Largest(refund[a], parent)
      :: var r :| r in refund[a] && r.parent == parent && r.amount == Largest(refund[a], parent); r
  }

  lemma BestClaimsAll(refund: Cells<Refund>, parent: Name)
    ensures SumBy(Best(refund, parent).Keys, ChosenBy(Best(refund, parent), parent)) == Claimed(refund, parent)
  {
    hide Best, Largest;
    SumByRestricted(Best(refund, parent).Keys, refund.Keys, ChosenBy(Best(refund, parent), parent), ClaimBy(refund, parent));
  }

  lemma ChoiceClaimsLess(choice: map<Name, Refund>, refund: Cells<Refund>, parent: Name)
    requires SubView(choice, refund)
    ensures SumBy(choice.Keys, ChosenBy(choice, parent)) <= Claimed(refund, parent)
  {
    hide Largest;
    SumByAtMost(choice.Keys, refund.Keys, ChosenBy(choice, parent), ClaimBy(refund, parent));
  }

  /** The flag is raised exactly when some agreed reading of the delivered set busts the cap. */
  lemma CapIffOverRefunded(pay: Cells<Payment>, refund: Cells<Refund>)
    ensures CapBusted(pay, refund) <==> OverRefunded(pay, refund)
  {
    hide Claimed, ChosenBy, Best, SumBy;
    if CapBusted(pay, refund) {
      var parent :| Busts(pay, refund, parent);
      var m :| m in pay[parent] && Claimed(refund, parent) > m.amount;
      BestClaimsAll(refund, parent);
      assert Exceeds(Best(refund, parent), parent, m, pay, refund);
    }
    if OverRefunded(pay, refund) {
      var choice, parent, m :| Exceeds(choice, parent, m, pay, refund);
      ChoiceClaimsLess(choice, refund, parent);
      assert Busts(pay, refund, parent);
    }
  }

  ghost predicate Grown<T(!new)>(was: Cells<T>, now: Cells<T>) {
    forall a :: a in was ==> a in now && was[a] <= now[a]
  }

  /** However more payments and refunds arrive, and however they dispute what is held, the flag never regresses. */
  lemma CapNeverRegresses(pay: Cells<Payment>, refund: Cells<Refund>, morePay: Cells<Payment>, moreRefund: Cells<Refund>)
    requires Grown(pay, morePay) && Grown(refund, moreRefund) && CapBusted(pay, refund)
    ensures CapBusted(morePay, moreRefund)
  {
    CapIffOverRefunded(pay, refund);
    CapIffOverRefunded(morePay, moreRefund);
    var choice, parent, m :| Exceeds(choice, parent, m, pay, refund);
    assert Exceeds(choice, parent, m, morePay, moreRefund);
  }

  /** The second lattice keeps every place of the first that is not a confirm. */
  ghost predicate Keeps(l: Lattice, m: Lattice) {
    forall slot :: slot in l && !slot.ConfirmAt? ==> slot in m
  }

  lemma CellsGrow(l: Lattice, m: Lattice, order: Name)
    requires Keeps(l, m)
    ensures Grown(PaymentCells(l, order), PaymentCells(m, order)) && Grown(RefundCells(l, order), RefundCells(m, order))
  {
  }

  /** On any log and any two devices, the one that was delivered more keeps every cap violation the other shows. */
  lemma DeliveredViolationStays(a: seq<Event>, b: seq<Event>, order: Name)
    requires EventsIn(a) <= EventsIn(b)
    requires CapBusted(PaymentCells(Deliver(a).lattice, order), RefundCells(Deliver(a).lattice, order))
    ensures CapBusted(PaymentCells(Deliver(b).lattice, order), RefundCells(Deliver(b).lattice, order))
  {
    hide PaymentCells, RefundCells, CapBusted;
    PlacesNeverLeave(a, b);
    CellsGrow(Deliver(a).lattice, Deliver(b).lattice, order);
    CapNeverRegresses(
      PaymentCells(Deliver(a).lattice, order), RefundCells(Deliver(a).lattice, order),
      PaymentCells(Deliver(b).lattice, order), RefundCells(Deliver(b).lattice, order));
  }

  /** On any log, devices that hold the same events hold the same payments and refunds, whatever else collides. */
  lemma MoneyConverges(a: seq<Event>, b: seq<Event>, order: Name)
    requires EventsIn(a) == EventsIn(b)
    ensures PaymentCells(Deliver(a).lattice, order) == PaymentCells(Deliver(b).lattice, order)
    ensures RefundCells(Deliver(a).lattice, order) == RefundCells(Deliver(b).lattice, order)
  {
    hide Deliver;
    PlacesNeverLeave(a, b);
    PlacesNeverLeave(b, a);
    assert PaymentSlots(Deliver(a).lattice, order) == PaymentSlots(Deliver(b).lattice, order);
    assert RefundSlots(Deliver(a).lattice, order) == RefundSlots(Deliver(b).lattice, order);
  }

  /** The money columns of one order. */
  datatype Money = Money(tendered: nat, repaid: nat, refunded: nat, divergence: bool, violated: bool)

  ghost predicate IsMoneyOf(l: Lattice, order: Name, m: Money) {
    var pay, refund := PaymentCells(l, order), RefundCells(l, order);
    && m.tendered == Total(pay, Paid(false)) && m.repaid == Total(pay, Paid(true)) && m.refunded == Total(refund, Refunded())
    && (m.divergence <==> Divergent(pay) || Divergent(refund))
    && (m.violated <==> OverRefunded(pay, refund))
  }

  /** All of them from one lattice: every cell it holds has a member, so every payment has a smallest one. */
  method ProjectMoney(l: Lattice, order: Name) returns (m: Money)
    ensures IsMoneyOf(l, order, m)
  {
    hide PaymentCells, RefundCells, Total, Divergent, CapBusted, OverRefunded, Paid, Refunded, Claimed, Lookup;
    var pay, refund := PaymentCells(l, order), RefundCells(l, order);
    CellsNotEmpty(l, order);
    var tendered, repaid, payDisputed := Totals(pay);
    var refunded, refundDisputed, _ := Refunds(refund);
    var violated := CapViolated(pay, refund);
    CapIffOverRefunded(pay, refund);
    m := Money(tendered, repaid, refunded, payDisputed || refundDisputed, violated);
  }

  /** One payment, of an amount that settles the order or repays a receivable, and its totals. */
  lemma OnePaymentTotals(a: Name, m: Payment)
    ensures Total(map[a := {m}], Paid(false)) == (if m.repays then 0 else m.amount)
    ensures Total(map[a := {m}], Paid(true)) == (if m.repays then m.amount else 0)
  {
    OneMemberTotal(a, m, Paid(false));
    OneMemberTotal(a, m, Paid(true));
  }

  /** One refund, and its total. */
  lemma OneRefundTotal(a: Name, m: Refund)
    ensures Total(map[a := {m}], Refunded()) == m.amount
  {
    OneMemberTotal(a, m, Refunded());
  }

  lemma OneMemberTotal<T>(a: Name, m: T, amount: T -> nat)
    ensures Total(map[a := {m}], amount) == amount(m)
  {
    var none: Cells<T> := map[];
    MemberCountsOnce(none, a, m, amount);
    assert WithMember(none, a, m) == map[a := {m}];
    SumByNone(WorthOf(none, amount));
  }
}
