/**
 * `packages/domain/src/money.ts` and `invariants.ts`: integer paisa under half-up rounding,
 * exact totals, the charge at the organisation's granularity, and the conservation residual.
 */
module Money {
  import opened Wrappers
  import opened Text16

  /** `asPaisaInt`: a non-negative safe integer, or a thrown RangeError. */
  function AsPaisa(n: int): Result<nat> {
    if 0 <= n <= MAX_SAFE then Ok(n) else Refused
  }

  // ----- division that rounds half up -----------------------------------------------------

  /** floor((num + den/2) / den), as the source spells it for an even and for any divisor. */
  function HalfUp(num: nat, den: nat): (q: nat)
    requires den > 0
  {
    (2 * num + den) / (2 * den)
  }

  /** `q` is the nearest quotient, ties going up. */
  predicate Nearest(q: int, num: int, den: int) {
    2 * q * den <= 2 * num + den < 2 * q * den + 2 * den
  }

  lemma HalfUpNearest(num: nat, den: nat)
    requires den > 0
    ensures Nearest(HalfUp(num, den), num, den)
  {
    var n, d := 2 * num + den, 2 * den;
    assert n == n / d * d + n % d;
  }

  lemma NearestUnique(q: int, r: int, num: int, den: int)
    requires den > 0 && Nearest(q, num, den) && Nearest(r, num, den)
    ensures q == r
  {
    StepsApart(q, r, den);
    StepsApart(r, q, den);
  }

  /** Multiples of `d` with different factors lie at least `d` apart. */
  lemma StepsApart(q: int, r: int, d: int)
    requires d > 0
    ensures q < r ==> q * d + d <= r * d
  {
    assert r * d - q * d - d == (r - q - 1) * d;
  }

  // ----- applyRateBps -----------------------------------------------------------------------

  /** The exact rounded product, before the overflow guard. */
  function RateOf(amount: nat, bps: nat): (tax: nat) {
    (amount * bps + 5000) / 10000
  }

  lemma RateIsHalfUp(amount: nat, bps: nat)
    ensures RateOf(amount, bps) == HalfUp(amount * bps, 10000)
  {
  }

  function ApplyRateBps(amount: int, bps: int): Result<nat> {
    var a :- AsPaisa(amount);
    var r :- AsPaisa(bps);
    if RateOf(a, r) > MAX_SAFE then Refused else Ok(RateOf(a, r))
  }

  // ----- totals -----------------------------------------------------------------------------

  function Sum(values: seq<int>): int {
    if values == [] then 0 else Sum(values[..|values| - 1]) + values[|values| - 1]
  }

  predicate AllSafe(values: seq<int>) {
    forall i :: 0 <= i < |values| ==> -MAX_SAFE <= values[i] <= MAX_SAFE
  }

  function ExactTotal(values: seq<int>): Option<int> {
    if AllSafe(values) && -MAX_SAFE <= Sum(values) <= MAX_SAFE then Some(Sum(values)) else None
  }

  /** Accumulates without bound, so only the end can overflow. */
  method TotalPaisaOrNull(values: seq<int>) returns (total: Option<int>)
    ensures total == ExactTotal(values)
  {
    var acc := 0;
    for i := 0 to |values|
      invariant AllSafe(values[..i]) && acc == Sum(values[..i])
    {
      if !(-MAX_SAFE <= values[i] <= MAX_SAFE) {
        return None;
      }
      assert values[..i + 1][..i] == values[..i];
      acc := acc + values[i];
    }
    assert values[..|values|] == values;
    return if acc > MAX_SAFE || acc < -MAX_SAFE then None else Some(acc);
  }

  function SumPaisa(values: seq<int>): Result<nat> {
    match ExactTotal(values)
    case None => Refused
    case Some(t) => AsPaisa(t)
  }

  lemma {:induction false} SumConcat(a: seq<int>, b: seq<int>)
    ensures Sum(a + b) == Sum(a) + Sum(b)
  {
    if b == [] {
      assert a + b == a;
    } else {
      SumConcat(a, b[..|b| - 1]);
      assert (a + b)[..|a + b| - 1] == a + b[..|b| - 1];
    }
  }

  lemma SumWithout(b: seq<int>, i: nat)
    requires i < |b|
    ensures Sum(b) == Sum(b[..i] + b[i + 1..]) + b[i]
  {
    hide Sum;
    var front, back := b[..i], b[i + 1..];
    assert b == front + ([b[i]] + back);
    SumConcat(front, [b[i]] + back);
    SumConcat([b[i]], back);
    SumConcat(front, back);
    SumOne(b[i]);
  }

  lemma SumOne(v: int)
    ensures Sum([v]) == v
  {
    assert Sum([v]) == Sum([]) + v;
  }

  lemma BagWithout<T>(b: seq<T>, i: nat)
    requires i < |b|
    ensures multiset(b[..i] + b[i + 1..]) == multiset(b) - multiset{b[i]}
  {
    assert b == b[..i] + [b[i]] + b[i + 1..];
  }

  /** The order in which amounts arrive decides no total. */
  lemma {:induction false} SumPermutes(a: seq<int>, b: seq<int>)
    requires multiset(a) == multiset(b)
    ensures Sum(a) == Sum(b)
  {
    if a == [] {
      assert |b| == |multiset(b)| == |multiset(a)| == 0;
    } else {
      var last := |a| - 1;
      assert a[last] in multiset(b);
      var i :| 0 <= i < |b| && b[i] == a[last];
      SumWithout(a, last);
      SumWithout(b, i);
      BagWithout(a, last);
      BagWithout(b, i);
      SumPermutes(a[..last] + a[last + 1..], b[..i] + b[i + 1..]);
    }
  }

  lemma TotalPermutes(a: seq<int>, b: seq<int>)
    requires multiset(a) == multiset(b)
    ensures ExactTotal(a) == ExactTotal(b) && SumPaisa(a) == SumPaisa(b)
  {
    SumPermutes(a, b);
    if AllSafe(a) { SafePermutes(a, b); }
    if AllSafe(b) { SafePermutes(b, a); }
  }

  lemma SafePermutes(a: seq<int>, b: seq<int>)
    requires multiset(a) == multiset(b) && AllSafe(a)
    ensures AllSafe(b)
  {
    forall i | 0 <= i < |b| ensures -MAX_SAFE <= b[i] <= MAX_SAFE {
      assert b[i] in multiset(b);
      assert b[i] in a;
    }
  }

  // ----- splitPaisa -------------------------------------------------------------------------

  function SplitPaisa(total: int, n: int): Result<seq<nat>> {
    var t :- AsPaisa(total);
    var k :- AsPaisa(n);
    if k == 0 then Refused
    else
      var r := t % k;
      QuotientBack(t, k);
      var q := (t - r) / k;
      Ok(seq(k, i requires 0 <= i => if i < r then q + 1 else q))
  }

  lemma {:induction false} SumOfSteps(k: nat, r: nat, q: nat, parts: seq<int>)
    requires r <= |parts| == k
    requires forall i :: 0 <= i < k ==> parts[i] == if i < r then q + 1 else q
    ensures Sum(parts) == k * q + r
  {
    if k > 0 {
      SumOfSteps(k - 1, if r < k then r else k - 1, q, parts[..k - 1]);
    }
  }

  /** The parts add back to the total, differ by at most one, and put the larger first. */
  lemma SplitConserves(total: nat, n: nat)
    requires total <= MAX_SAFE && 0 < n <= MAX_SAFE
    ensures SplitPaisa(total, n).Ok? && |SplitPaisa(total, n).value| == n
    ensures Sum(SplitPaisa(total, n).value) == total
    ensures forall i, j :: 0 <= i <= j < n ==>
      SplitPaisa(total, n).value[j] <= SplitPaisa(total, n).value[i] <= SplitPaisa(total, n).value[j] + 1
  {
    var r := total % n;
    QuotientBack(total, n);
    var q := (total - r) / n;
    SumOfSteps(n, r, q, SplitPaisa(total, n).value);
  }

  lemma QuotientBack(t: nat, n: nat)
    requires n > 0
    ensures t % n < n && t % n <= t && (t - t % n) / n == t / n && n * (t / n) + t % n == t
  {
    assert t == n * (t / n) + t % n;
    assert 0 <= n * (t / n);
    MultipleQuotient(t / n, n);
  }

  lemma MultipleQuotient(q: nat, n: nat)
    requires n > 0
    ensures n * q / n == q && n * q % n == 0
  {
    var d := n * q / n;
    assert n * q == n * d + n * q % n;
    StepsApart(d, q, n);
    StepsApart(q, d, n);
  }

  // ----- chargePaisaAtGranularity -----------------------------------------------------------

  /** Half-up to a multiple of the step, except that a positive amount is never charged nothing. */
  function ChargeOf(amount: nat, step: nat): (charge: nat)
    requires step > 0
  {
    var r := amount % step;
    QuotientBack(amount, step);
    var rounded := if 2 * r >= step then amount - r + step else amount - r;
    if amount > 0 && rounded == 0 then step else rounded
  }

  function ChargePaisaAtGranularity(amount: int, step: int): Result<nat> {
    var a :- AsPaisa(amount);
    var g :- AsPaisa(step);
    if g == 0 then Refused else AsPaisa(ChargeOf(a, g))
  }

  /** The charge as a number of steps: the nearest multiple, but at least one for any bill. */
  function Steps(amount: nat, step: nat): nat
    requires step > 0
  {
    var k := if 2 * (amount % step) >= step then amount / step + 1 else amount / step;
    if amount > 0 && k == 0 then 1 else k
  }

  lemma ChargeIsSteps(amount: nat, step: nat)
    requires step > 0
    ensures ChargeOf(amount, step) == Steps(amount, step) * step
    ensures ChargeOf(amount, step) % step == 0
  {
    var q, r := amount / step, amount % step;
    QuotientBack(amount, step);
    assert amount - r == q * step;
    StepsApart(0, q, step);
    MultipleQuotient(Steps(amount, step), step);
  }

  /** Within half a step of the bill, ties up, unless the bill is under half a step. */
  lemma ChargeNear(amount: nat, step: nat)
    requires step > 0
    ensures ChargeOf(amount, step) == 0 <==> amount == 0
    ensures !(0 < 2 * amount < step) ==>
      2 * amount - step < 2 * ChargeOf(amount, step) <= 2 * amount + step
    ensures 0 < 2 * amount < step ==> ChargeOf(amount, step) == step
  {
    var q, r := amount / step, amount % step;
    QuotientBack(amount, step);
    StepsApart(0, q, step);
  }

  lemma QuotientMonotone(a: nat, b: nat, n: nat)
    requires n > 0 && a <= b
    ensures a / n <= b / n
    ensures a / n == b / n ==> a % n <= b % n
  {
    var p, q := a / n, b / n;
    QuotientBack(a, n);
    QuotientBack(b, n);
    StepsApart(q, p, n);
  }

  lemma StepsMonotone(a: nat, b: nat, step: nat)
    requires step > 0 && a <= b
    ensures Steps(a, step) <= Steps(b, step)
  {
    QuotientMonotone(a, b, step);
  }

  lemma ChargeMonotone(a: nat, b: nat, step: nat)
    requires step > 0 && a <= b
    ensures ChargeOf(a, step) <= ChargeOf(b, step)
  {
    hide Steps, ChargeOf;
    StepsMonotone(a, b, step);
    ChargeIsSteps(a, step);
    ChargeIsSteps(b, step);
    StepsApart(Steps(a, step), Steps(b, step), step);
  }

  lemma ChargeIdempotent(amount: nat, step: nat)
    requires step > 0
    ensures ChargeOf(ChargeOf(amount, step), step) == ChargeOf(amount, step)
  {
    ChargeIsSteps(amount, step);
  }

  // ----- conservation -----------------------------------------------------------------------

  /** `refundRemainderExceeded`: exact cover is not a violation, one paisa over is. */
  function RefundRemainderExceeded(payment: int, prior: int, refund: int): Result<bool> {
    var p :- AsPaisa(payment);
    var q :- AsPaisa(prior);
    var r :- AsPaisa(refund);
    Ok(r > p - q)
  }

  function SettledConservationResidual(billed: int, tendered: int, refunded: int): Result<int> {
    var b :- AsPaisa(billed);
    var t :- AsPaisa(tendered);
    var r :- AsPaisa(refunded);
    Ok(b - (t - r))
  }

  /**
   * The Auditor derives the bill before rounding. An order tendered exactly its charge then
   * leaves a residual above -step and at most below half a step, and the residual is flagged,
   * a positive one, exactly when the charge rounded down.
   */
  lemma RoundedOrderResidual(bill: int, step: int)
    requires ChargePaisaAtGranularity(bill, step).Ok?
    ensures var charge := ChargePaisaAtGranularity(bill, step).value;
      var residual := SettledConservationResidual(bill, charge, 0);
      && residual.Ok? && residual.value == bill - charge
      && -step < residual.value && 2 * residual.value < step
      && (residual.value > 0 <==> 0 < 2 * (bill % step) < step && bill > step)
  {
    QuotientBack(bill, step);
    StepsApart(0, bill / step, step);
    ChargeNear(bill, step);
  }

  /** The residual is what the bill still lacks once refunds are taken off the tender: none exactly when it is covered. */
  lemma ResidualExact(billed: int, tendered: int, refunded: int)
    ensures var residual := SettledConservationResidual(billed, tendered, refunded);
      && (residual.Ok? <==> IsAmount(billed) && IsAmount(tendered) && IsAmount(refunded))
      && (residual.Ok? ==> residual.value + tendered == billed + refunded)
  {
  }

  /** Money handed back re-opens exactly as much of the bill. */
  lemma RefundReopens(billed: int, tendered: int, refunded: int)
    requires SettledConservationResidual(billed, tendered, refunded).Ok?
    ensures SettledConservationResidual(billed, tendered, 0).Ok?
    ensures SettledConservationResidual(billed, tendered, refunded).value
      == SettledConservationResidual(billed, tendered, 0).value + refunded
  {
    ResidualExact(billed, tendered, refunded);
    ResidualExact(billed, tendered, 0);
  }

  // ----- what each call answers --------------------------------------------------------------------

  /** A non-negative integer a JavaScript number holds exactly. */
  predicate IsAmount(n: int) {
    0 <= n <= 9_007_199_254_740_991
  }

  /** The charge is the nearest number of steps, ties going up and one at least for any bill; or it is refused. */
  lemma ChargeExact(amount: int, step: int)
    ensures var charge := ChargePaisaAtGranularity(amount, step);
      && (charge.Ok? <==> IsAmount(amount) && IsAmount(step) && step > 0 && IsAmount(Steps(amount, step) * step))
      && (charge.Ok? ==> charge.value == Steps(amount, step) * step)
      && (charge.Ok? && (amount == 0 || 2 * amount >= step) ==> exists k: nat :: charge.value == k * step && Nearest(k, amount, step))
  {
    if amount >= 0 && step > 0 {
      ChargeIsSteps(amount, step);
      QuotientBack(amount, step);
      if amount == 0 || 2 * amount >= step {
        StepsNearest(amount, step);
      }
    }
  }

  lemma StepsNearest(amount: nat, step: nat)
    requires step > 0 && (amount == 0 || 2 * amount >= step)
    ensures Nearest(Steps(amount, step), amount, step)
  {
    var q, r := amount / step, amount % step;
    QuotientBack(amount, step);
    assert amount == step * q + r;
    assert 2 * q * step == 2 * (step * q) && 2 * (q + 1) * step == 2 * (step * q) + 2 * step;
    if q == 0 { assert amount == r; }
  }

  /** A rate is answered with the nearest amount, ties going up, exactly when everything is a safe amount. */
  lemma RateExact(amount: int, bps: int)
    ensures var tax := ApplyRateBps(amount, bps);
      && (tax.Ok? <==> IsAmount(amount) && IsAmount(bps) && IsAmount(RateOf(amount, bps)))
      && (tax.Ok? ==> Nearest(tax.value, amount * bps, 10000))
  {
    if amount >= 0 && bps >= 0 {
      RateIsHalfUp(amount, bps);
      HalfUpNearest(amount * bps, 10000);
    }
  }

  /** A split is refused exactly for an amount or a number of parts that is none, or no parts. */
  lemma SplitAnswered(total: int, n: int)
    ensures SplitPaisa(total, n).Ok? <==> IsAmount(total) && IsAmount(n) && n > 0
  {
  }

  /** A sum is answered exactly when every member is safe and the whole is a safe amount. */
  lemma SumExact(values: seq<int>)
    ensures SumPaisa(values).Ok? <==>
      (forall i :: 0 <= i < |values| ==> IsAmount(values[i]) || IsAmount(-values[i])) && IsAmount(Sum(values))
    ensures SumPaisa(values).Ok? ==> SumPaisa(values).value == Sum(values)
  {
    hide Sum;
    assert AllSafe(values) <==> forall i :: 0 <= i < |values| ==> IsAmount(values[i]) || IsAmount(-values[i]);
  }
}
