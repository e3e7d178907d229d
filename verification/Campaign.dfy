/**
 * `packages/domain/src/campaign.ts`: what a campaign's benefit is worth, which orders a campaign
 * reaches, and the two renderings of a loyalty count.
 */
module Campaign {
  import opened Wrappers
  import opened Text16
  import opened Money
  import opened Calendar
  import opened NamedDate

  // ----- the benefit in paisa ----------------------------------------------------------------------

  datatype Form = PercentBps | AmountPaisa | FreeItem

  datatype Benefit = Benefit(form: Form, value: int, cap: Option<int>)

  function Min(a: int, b: int): int {
    if a <= b then a else b
  }

  /** `None` is the free item, whose worth is its line's. */
  function CampaignBenefitPaisa(benefit: Benefit, base: int): Result<Option<int>> {
    if benefit.form.FreeItem? then Ok(None)
    else
      var gross :- if benefit.form.PercentBps?
        then var b :- AsPaisa(base); ApplyRateBps(b, benefit.value)
        else AsPaisa(benefit.value);
      var bounded := Min(gross, base);
      Ok(Some(match benefit.cap case None => bounded case Some(cap) => Min(bounded, cap)))
  }

  /** What the writer's schema and its refinement let a row carry. */
  predicate BenefitSchema(b: Benefit) {
    && 0 <= b.value <= MAX_SAFE
    && (b.form.PercentBps? ==> b.value <= 10000)
    && (b.cap.Some? ==> 0 <= b.cap.value <= MAX_SAFE)
  }

  lemma RateWithinAmount(amount: nat, bps: nat)
    requires bps <= 10000
    ensures RateOf(amount, bps) <= amount
  {
    assert amount * 10000 - amount * bps == amount * (10000 - bps);
    assert amount * bps <= amount * 10000;
  }

  lemma RateMonotone(a: nat, b: nat, bps: nat)
    requires a <= b
    ensures RateOf(a, bps) <= RateOf(b, bps)
  {
    assert b * bps - a * bps == (b - a) * bps;
    DivideMonotone(a * bps + 5000, b * bps + 5000);
  }

  lemma DivideMonotone(x: nat, y: nat)
    requires x <= y
    ensures x / 10000 <= y / 10000
  {
  }

  /**
   * A row the writer accepted, on any bill: never a refusal, never more than the bill or the cap, and as
   * large as the form, the bill and the cap together allow.
   */
  lemma BenefitWithinBounds(b: Benefit, base: int)
    requires BenefitSchema(b) && !b.form.FreeItem? && 0 <= base <= MAX_SAFE
    ensures match CampaignBenefitPaisa(b, base)
      case Ok(Some(worth)) =>
        var gross := if b.form.PercentBps? then RateOf(base, b.value) else b.value;
        && 0 <= worth <= base && worth <= gross
        && (b.cap.Some? ==> worth <= b.cap.value)
        && (worth == base || worth == gross || b.cap == Some(worth))
      case _ => false
  {
    hide RateOf;
    if b.form.PercentBps? {
      RateWithinAmount(base, b.value);
    }
  }

  predicate IsLeastOf(worth: int, bounds: set<int>) {
    worth in bounds && forall x :: x in bounds ==> worth <= x
  }

  /**
   * Any row at all, on any bill: a percentage is answered exactly when bill, rate and the share are amounts, a
   * sum exactly when it is one; and what is answered is the least of the share or the sum, the bill and the cap.
   */
  lemma BenefitExact(b: Benefit, base: int)
    requires !b.form.FreeItem?
    ensures var answer := CampaignBenefitPaisa(b, base);
      && (b.form.PercentBps? ==>
            (answer.Ok? <==> IsAmount(base) && IsAmount(b.value) && IsAmount(RateOf(base, b.value))))
      && (b.form.AmountPaisa? ==> (answer.Ok? <==> IsAmount(b.value)))
      && (answer.Ok? ==>
            answer.value.Some?
            && IsLeastOf(answer.value.value,
                 {if b.form.PercentBps? then RateOf(base, b.value) else b.value, base}
                 + (if b.cap.Some? then {b.cap.value} else {})))
  {
    hide RateOf;
  }

  /** A bigger bill is never worth a smaller benefit. */
  lemma BenefitMonotone(b: Benefit, small: int, large: int)
    requires BenefitSchema(b) && !b.form.FreeItem? && 0 <= small <= large <= MAX_SAFE
    ensures CampaignBenefitPaisa(b, small).Ok? && CampaignBenefitPaisa(b, large).Ok?
    ensures CampaignBenefitPaisa(b, small).value.value <= CampaignBenefitPaisa(b, large).value.value
  {
    hide RateOf;
    BenefitWithinBounds(b, small);
    BenefitWithinBounds(b, large);
    if b.form.PercentBps? {
      RateMonotone(small, large, b.value);
    }
  }

  /**
   * A base that is no amount: a percentage refuses it, but a fixed amount answers, and answers a negative
   * benefit for exactly the negative bases.
   */
  lemma BaseOutOfRange(b: Benefit, base: int)
    requires BenefitSchema(b) && (base < 0 || base > MAX_SAFE)
    ensures b.form.PercentBps? ==> CampaignBenefitPaisa(b, base).Refused?
    ensures b.form.AmountPaisa? ==> CampaignBenefitPaisa(b, base).Ok? && CampaignBenefitPaisa(b, base).value.Some?
    ensures b.form.AmountPaisa? ==> (CampaignBenefitPaisa(b, base).value.value < 0 <==> base < 0)
  {
  }

  // ----- dates compared as texts --------------------------------------------------------------------

  lemma {:induction false} ValueFront(t: Text)
    requires t != [] && AllDigits(t)
    ensures Value(t) == (t[0] - 0x30) * Power10(|t| - 1) + Value(t[1..])
  {
    var n := |t| - 1;
    if n == 0 {
      assert t[..n] == [] && t[1..] == [];
    } else {
      ValueFront(t[..n]);
      assert t[..n][1..] == t[1..][..n - 1];
      assert t[1..][n - 1] == t[n];
      TenTimes(t[0] - 0x30, Power10(n - 1));
    }
  }

  lemma TenTimes(d: int, p: int)
    ensures d * p * 10 == d * (10 * p)
  {
  }

  lemma DigitApart(d: int, e: int, p: int)
    requires d < e && p >= 0
    ensures d * p + p <= e * p
  {
    assert e * p - d * p - p == (e - d - 1) * p;
  }

  /** Digit texts of one length are ordered as the numbers they spell. */
  lemma {:induction false} DigitsOrder(a: Text, b: Text)
    requires AllDigits(a) && AllDigits(b) && |a| == |b|
    ensures Less(a, b) <==> Value(a) < Value(b)
  {
    if a != [] {
      var p := Power10(|a| - 1);
      ValueFront(a);
      ValueFront(b);
      ValueBound(a[1..], p);
      ValueBound(b[1..], p);
      DigitsOrder(a[1..], b[1..]);
      if a[0] < b[0] { DigitApart(a[0] - 0x30, b[0] - 0x30, p); }
      if b[0] < a[0] { DigitApart(b[0] - 0x30, a[0] - 0x30, p); }
    }
  }

  lemma {:induction false} LessConcat(a: Text, x: Text, b: Text, y: Text)
    requires |a| == |b|
    ensures Less(a + x, b + y) <==> Less(a, b) || (a == b && Less(x, y))
  {
    if a == [] {
      assert a + x == x && b + y == y;
    } else {
      LessConcat(a[1..], x, b[1..], y);
      assert (a + x)[1..] == a[1..] + x && (b + y)[1..] == b[1..] + y;
      assert a == b <==> a[0] == b[0] && a[1..] == b[1..];
    }
  }

  predicate Earlier(a: Civil, b: Civil) {
    a.y < b.y || (a.y == b.y && (a.m < b.m || (a.m == b.m && a.d < b.d)))
  }

  lemma SamePart(a: Text, b: Text)
    requires AllDigits(a) && AllDigits(b) && |a| == |b|
    ensures a == b <==> Value(a) == Value(b)
  {
    if Value(a) == Value(b) {
      ValueInjective(a, b);
    }
  }

  lemma PartsOrder(a: Text, x: Text, b: Text, y: Text)
    requires AllDigits(a) && AllDigits(b) && |a| == |b|
    ensures Less(a + ([DASH] + x), b + ([DASH] + y)) <==> Value(a) < Value(b) || (Value(a) == Value(b) && Less(x, y))
  {
    LessConcat(a, [DASH] + x, b, [DASH] + y);
    LessConcat([DASH], x, [DASH], y);
    DigitsOrder(a, b);
    SamePart(a, b);
  }

  lemma IsoCut(t: Text)
    requires IsIsoDate(t)
    ensures t == t[..4] + ([DASH] + (t[5..7] + ([DASH] + t[8..])))
  {
  }

  /** `<` on `YYYY-MM-DD` texts is the order of year, then month, then day, real date or not. */
  lemma TextOrderIsDateOrder(a: Text, b: Text)
    requires IsIsoDate(a) && IsIsoDate(b)
    ensures Less(a, b) <==> Earlier(ParseDate(a), ParseDate(b))
  {
    hide Less, Value;
    IsoCut(a);
    IsoCut(b);
    PartsOrder(a[..4], a[5..7] + ([DASH] + a[8..]), b[..4], b[5..7] + ([DASH] + b[8..]));
    PartsOrder(a[5..7], a[8..], b[5..7], b[8..]);
    DigitsOrder(a[8..], b[8..]);
  }

  lemma EarlierIsFewerDays(a: Civil, b: Civil)
    requires Real(a) && Real(b)
    ensures Earlier(a, b) <==> DayNumber(a) < DayNumber(b)
  {
    if Earlier(a, b) {
      EarlierFewer(a, b);
    } else if Earlier(b, a) {
      EarlierFewer(b, a);
    } else {
      assert a == b;
    }
  }

  lemma EarlierFewer(a: Civil, b: Civil)
    requires Real(a) && Real(b) && Earlier(a, b)
    ensures DayNumber(a) < DayNumber(b)
  {
    RealWithinYear(a);
    RealWithinYear(b);
    RealDayNumber(a);
    RealDayNumber(b);
    if a.y < b.y {
      YearsAscend(a.y + 1, b.y);
    } else if a.m < b.m {
      MonthsAscend(a.y, a.m, b.m);
    }
  }

  // ----- which orders a campaign reaches ---------------------------------------------------------------

  datatype Status = Active | Paused | Completed

  datatype Row = Row(
    status: Status, validFrom: Option<Text>, validTo: Option<Text>, branches: Option<seq<Text>>,
    channels: seq<Text>, minOrder: int, requiresCustomer: bool)

  datatype Context = Context(
    branch: Text, channel: Text, businessDate: Text, orderTotal: int, hasLinkedCustomer: bool)

  predicate CampaignApplies(row: Row, ctx: Context) {
    if row.status != Active then false
    else if row.validFrom.Some? && Less(ctx.businessDate, row.validFrom.value) then false
    else if row.validTo.Some? && Less(row.validTo.value, ctx.businessDate) then false
    else if row.branches.Some? && ctx.branch !in row.branches.value then false
    else if |row.channels| > 0 && ctx.channel !in row.channels then false
    else if ctx.orderTotal < row.minOrder then false
    else if row.requiresCustomer && !ctx.hasLinkedCustomer then false
    else true
  }

  /** The window's ends are real dates, as texts. */
  predicate WindowReal(row: Row) {
    && (row.validFrom.Some? ==> IsIsoDate(row.validFrom.value) && Real(ParseDate(row.validFrom.value)))
    && (row.validTo.Some? ==> IsIsoDate(row.validTo.value) && Real(ParseDate(row.validTo.value)))
  }

  function DayOfText(t: Text): int
    requires IsIsoDate(t)
  {
    DayNumber(ParseDate(t))
  }

  /** Everything a campaign asks of an order except when it happens. */
  predicate ReachesOnItsDays(row: Row, ctx: Context) {
    && row.status == Active
    && (row.branches.None? || ctx.branch in row.branches.value)
    && (row.channels == [] || ctx.channel in row.channels)
    && row.minOrder <= ctx.orderTotal
    && (row.requiresCustomer ==> ctx.hasLinkedCustomer)
  }

  /**
   * Comparing dates as texts admits exactly the business days from the window's first day to its last,
   * both included, and an open end admits every day on its side.
   */
  lemma WindowIsChronological(row: Row, ctx: Context)
    requires WindowReal(row) && IsIsoDate(ctx.businessDate) && Real(ParseDate(ctx.businessDate))
    ensures CampaignApplies(row, ctx) <==>
      && ReachesOnItsDays(row, ctx)
      && (row.validFrom.Some? ==> DayOfText(row.validFrom.value) <= DayOfText(ctx.businessDate))
      && (row.validTo.Some? ==> DayOfText(ctx.businessDate) <= DayOfText(row.validTo.value))
  {
    hide Less, ParseDate, Real, DayNumber;
    if row.validFrom.Some? {
      TextOrderIsDateOrder(ctx.businessDate, row.validFrom.value);
      EarlierIsFewerDays(ParseDate(ctx.businessDate), ParseDate(row.validFrom.value));
    }
    if row.validTo.Some? {
      TextOrderIsDateOrder(row.validTo.value, ctx.businessDate);
      EarlierIsFewerDays(ParseDate(row.validTo.value), ParseDate(ctx.businessDate));
    }
  }

  // ----- loyalty ------------------------------------------------------------------------------------------

  /** `consumed` is summed without a bound, so the remainder may be any integer. */
  function LoyaltyAvailable(eligible: nat, consumed: nat, everyN: int): Result<nat> {
    if everyN < 1 then Refused
    else if eligible - consumed <= 0 then Ok(0)
    else Ok((eligible - consumed) / everyN)
  }

  function LoyaltyOrdersToNextReward(eligible: nat, consumed: nat, everyN: int): Result<nat> {
    var available :- LoyaltyAvailable(eligible, consumed, everyN);
    if available > 0 then Ok(0)
    else
      var owed := everyN - (eligible - consumed);
      assert owed > 0 by { if owed <= 0 { QuotientAtLeastOne(eligible - consumed, everyN); } }
      Ok(if owed > MAX_SAFE then MAX_SAFE else owed)
  }

  lemma QuotientAtLeastOne(x: int, n: int)
    requires n >= 1
    ensures x / n >= 1 <==> x >= n
  {
    assert x == x / n * n + x % n;
    if x / n >= 1 {
      StepsApart(0, x / n, n);
    } else {
      StepsApart(x / n, 1, n);
    }
  }

  lemma QuotientLessSteps(x: int, r: int, n: int)
    requires n >= 1
    ensures (x - r * n) / n == x / n - r
  {
    var q := x / n - r;
    assert x == x / n * n + x % n;
    assert q * n == x / n * n - r * n;
    QuotientIs(x - r * n, q, n);
  }

  lemma QuotientIs(x: int, q: int, n: int)
    requires n >= 1 && q * n <= x < q * n + n
    ensures x / n == q
  {
    assert x == x / n * n + x % n;
    StepsApart(q, x / n, n);
    StepsApart(x / n, q, n);
  }

  /**
   * After any number of orders and redemptions of `everyN`, on any tills and in any order, what is
   * available is the rewards earned less those redeemed, never below none.
   */
  lemma AvailableIsEarnedLessRedeemed(eligible: nat, redeemed: nat, everyN: int)
    requires everyN >= 1
    ensures redeemed * everyN >= 0
    ensures LoyaltyAvailable(eligible, redeemed * everyN, everyN)
      == Ok(if redeemed >= eligible / everyN then 0 else eligible / everyN - redeemed)
  {
    StepsApart(0, redeemed, everyN);
    QuotientLessSteps(eligible, redeemed, everyN);
    QuotientSign(eligible - redeemed * everyN, everyN);
  }

  lemma QuotientSign(x: int, n: int)
    requires n >= 1
    ensures x <= 0 ==> x / n <= 0
    ensures x >= 0 ==> x / n >= 0
    ensures 0 <= x < n ==> x / n == 0
  {
    assert x == x / n * n + x % n;
    StepsApart(x / n, 0, n);
    StepsApart(0, x / n, n);
  }

  /** The distance is zero exactly when a reward is available, and refuses exactly when availability does. */
  lemma ZeroIffAvailable(eligible: nat, consumed: nat, everyN: int)
    ensures LoyaltyOrdersToNextReward(eligible, consumed, everyN).Refused? <==> everyN < 1
    ensures LoyaltyAvailable(eligible, consumed, everyN).Refused? <==> everyN < 1
    ensures everyN >= 1 ==>
      (LoyaltyOrdersToNextReward(eligible, consumed, everyN).value == 0
       <==> LoyaltyAvailable(eligible, consumed, everyN).value > 0)
  {
  }

  /**
   * When the distance is `k`, fewer than `k` more orders make no reward available. Exactly `k` more make
   * exactly one, overdrawn or not, if and only if the distance was not cut off at the safe range.
   */
  lemma DistanceExact(eligible: nat, consumed: nat, everyN: int, more: nat)
    requires LoyaltyOrdersToNextReward(eligible, consumed, everyN).Ok?
    requires LoyaltyOrdersToNextReward(eligible, consumed, everyN).value > 0
    ensures var k := LoyaltyOrdersToNextReward(eligible, consumed, everyN).value;
      && (more < k ==> LoyaltyAvailable(eligible + more, consumed, everyN) == Ok(0))
      && (LoyaltyAvailable(eligible + k, consumed, everyN) == Ok(1) <==> everyN + consumed - eligible <= MAX_SAFE)
  {
    var k := LoyaltyOrdersToNextReward(eligible, consumed, everyN).value;
    ZeroIffAvailable(eligible, consumed, everyN);
    QuotientAtLeastOne(eligible - consumed, everyN);
    QuotientAtLeastOne(eligible + more - consumed, everyN);
    QuotientAtLeastOne(eligible + k - consumed, everyN);
    if everyN + consumed - eligible <= MAX_SAFE {
      QuotientIs(everyN, 1, everyN);
    }
  }

  /** Redeeming one reward while one is available leaves exactly one fewer. */
  lemma RedemptionTakesOne(eligible: nat, consumed: nat, everyN: int)
    requires LoyaltyAvailable(eligible, consumed, everyN).Ok? && LoyaltyAvailable(eligible, consumed, everyN).value > 0
    ensures LoyaltyAvailable(eligible, consumed + everyN, everyN) == Ok(LoyaltyAvailable(eligible, consumed, everyN).value - 1)
  {
    var x := eligible - consumed;
    QuotientAtLeastOne(x, everyN);
    QuotientLessSteps(x, 1, everyN);
    if x == everyN {
      QuotientIs(x, 1, everyN);
    }
  }

  /** A free item has no worth of its own, on any bill; every other benefit the writer accepted has one on any amount. */
  lemma FreeItemHasNoWorth(b: Benefit, base: int)
    ensures b.form.FreeItem? ==> CampaignBenefitPaisa(b, base) == Ok(None)
    ensures !b.form.FreeItem? ==> CampaignBenefitPaisa(b, base) != Ok(None)
  {
  }
}
