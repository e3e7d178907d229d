/**
 * `packages/domain/src/tax.ts`: tax per line under three postures, handed back as one snapshot.
 */
module Tax {
  import opened Wrappers
  import opened Text16
  import opened Money

  datatype Posture = Untaxed | Inclusive | Exclusive

  datatype Line = Line(lineId: Text, billed: int)

  datatype LineSnapshot = LineSnapshot(lineId: Text, base: int, tax: int, total: int)

  datatype Snapshot = Snapshot(
    posture: Posture, rateBps: int, lines: seq<LineSnapshot>, subtotal: int, taxTotal: int, total: int)

  /** The tax inside a gross amount: gross * bps / (10000 + bps), half up on any divisor. */
  function ExtractedTax(gross: nat, bps: nat): (tax: nat) {
    var divisor := 10000 + bps;
    (2 * gross * bps + divisor) / (2 * divisor)
  }

  lemma ExtractedIsHalfUp(gross: nat, bps: nat)
    ensures ExtractedTax(gross, bps) == HalfUp(gross * bps, 10000 + bps)
  {
    assert 2 * gross * bps == 2 * (gross * bps);
  }

  lemma ExtractedBounded(gross: nat, bps: nat)
    ensures ExtractedTax(gross, bps) <= gross
  {
    var tax, d := ExtractedTax(gross, bps), 10000 + bps;
    ExtractedIsHalfUp(gross, bps);
    HalfUpNearest(gross * bps, d);
    assert gross * d == gross * bps + gross * 10000;
    StepsApart(gross, tax, d);
  }

  function LineOf(posture: Posture, line: Line, bps: nat): Result<LineSnapshot> {
    var billed :- AsPaisa(line.billed);
    match posture
    case Untaxed => Ok(LineSnapshot(line.lineId, billed, 0, billed))
    case Inclusive =>
      var tax := ExtractedTax(billed, bps);
      Ok(LineSnapshot(line.lineId, billed - tax, tax, billed))
    case Exclusive =>
      var tax :- ApplyRateBps(billed, bps);
      var total :- AsPaisa(billed + tax);
      Ok(LineSnapshot(line.lineId, billed, tax, total))
  }

  function LinesOf(posture: Posture, lines: seq<Line>, bps: nat): (r: Result<seq<LineSnapshot>>)
    ensures r.Ok? ==> |r.value| == |lines|
    ensures r.Ok? <==> forall i :: 0 <= i < |lines| ==> lines[i].lineId != [] && LineOf(posture, lines[i], bps).Ok?
    ensures r.Ok? ==> forall i :: 0 <= i < |lines| ==> r.value[i] == LineOf(posture, lines[i], bps).value
  {
    if lines == [] then Ok([])
    else if lines[0].lineId == [] then Refused
    else
      var first :- LineOf(posture, lines[0], bps);
      var rest :- LinesOf(posture, lines[1..], bps);
      Ok([first] + rest)
  }

  function Bases(lines: seq<LineSnapshot>): seq<int> {
    seq(|lines|, i requires 0 <= i < |lines| => lines[i].base)
  }

  function Taxes(lines: seq<LineSnapshot>): seq<int> {
    seq(|lines|, i requires 0 <= i < |lines| => lines[i].tax)
  }

  function Totals(lines: seq<LineSnapshot>): seq<int> {
    seq(|lines|, i requires 0 <= i < |lines| => lines[i].total)
  }

  function Billed(lines: seq<Line>): seq<int> {
    seq(|lines|, i requires 0 <= i < |lines| => lines[i].billed)
  }

  function TaxSnapshot(posture: Posture, rateBps: int, lines: seq<Line>): Result<Snapshot> {
    var bps :- AsPaisa(rateBps);
    var snapshots :- LinesOf(posture, lines, bps);
    var subtotal :- SumPaisa(Bases(snapshots));
    var taxTotal :- SumPaisa(Taxes(snapshots));
    var total :- AsPaisa(subtotal + taxTotal);
    Ok(Snapshot(posture, rateBps, snapshots, subtotal, taxTotal, total))
  }

  // ----- inclusive extraction and exclusive application -------------------------------------

  /**
   * Extracting tax from base + applied tax gives back exactly that tax, though one side rounds
   * over 10000 and the other over 10000 + bps.
   */
  lemma ExtractInvertsApply(base: nat, bps: nat)
    ensures ExtractedTax(base + RateOf(base, bps), bps) == RateOf(base, bps)
  {
    hide Nearest, RateOf, ExtractedTax, HalfUp;
    var tax, d := RateOf(base, bps), 10000 + bps;
    var gross := base + tax;
    RateIsHalfUp(base, bps);
    HalfUpNearest(base * bps, 10000);
    ExtractedIsHalfUp(gross, bps);
    HalfUpNearest(gross * bps, d);
    NearestCarries(base, tax, bps);
    NearestUnique(tax, ExtractedTax(gross, bps), gross * bps, d);
  }

  /** Adding the tax to the base adds tax * bps on both sides of the rounding. */
  lemma NearestCarries(base: int, tax: int, bps: nat)
    requires Nearest(tax, base * bps, 10000)
    ensures Nearest(tax, (base + tax) * bps, 10000 + bps)
  {
    var p := tax * bps;
    assert (base + tax) * bps == base * bps + p;
    assert 2 * tax * (10000 + bps) == 20000 * tax + 2 * p;
  }

  /**
   * The other way round: re-applying the rate to an extracted base gives the extracted tax exactly
   * when the gross times 10000, plus 4999, leaves less than 10000 over whole multiples of 10000 + bps.
   */
  lemma ApplyInvertsExtract(gross: nat, bps: nat)
    ensures ExtractedTax(gross, bps) <= gross
    ensures RateOf(gross - ExtractedTax(gross, bps), bps) == ExtractedTax(gross, bps)
      <==> (10000 * gross + 4999) % (10000 + bps) < 10000
  {
    hide Nearest, RateOf, ExtractedTax, HalfUp;
    var tax, d := ExtractedTax(gross, bps), 10000 + bps;
    ExtractedBounded(gross, bps);
    ExtractedIsHalfUp(gross, bps);
    HalfUpNearest(gross * bps, d);
    var base := gross - tax;
    RateIsHalfUp(base, bps);
    HalfUpNearest(base * bps, 10000);
    if RateOf(base, bps) != tax && Nearest(tax, base * bps, 10000) {
      NearestUnique(tax, RateOf(base, bps), base * bps, 10000);
    }
    NearestByResidue(gross, tax, bps);
  }

  /** A nearest quotient over 10000 + bps is one over 10000 too exactly for those residues. */
  lemma NearestByResidue(gross: nat, tax: nat, bps: nat)
    requires tax <= gross && Nearest(tax, gross * bps, 10000 + bps)
    ensures Nearest(tax, (gross - tax) * bps, 10000) <==> (10000 * gross + 4999) % (10000 + bps) < 10000
  {
    hide Nearest;
    var d, n := 10000 + bps, gross * bps;
    var t := tax * d;
    Products(gross, tax, bps);
    Spelled(tax, n, d);
    Spelled(tax, (gross - tax) * bps, 10000);
    Residue(gross - tax, 4999 + t - n, d);
    Window(n, t, d);
  }

  lemma Spelled(q: int, num: int, den: int)
    ensures Nearest(q, num, den) <==> 2 * (q * den) <= 2 * num + den < 2 * (q * den) + 2 * den
  {
    assert 2 * q * den == 2 * (q * den);
  }

  lemma Window(n: int, t: int, d: int)
    requires d >= 10000 && 2 * t <= 2 * n + d < 2 * t + 2 * d
    ensures var w := 4999 + t - n;
      && -d < w < d
      && (0 <= w < 10000 <==> (if w < 0 then w + d else w) < 10000)
      && (0 <= w < 10000 <==> 2 * t <= 2 * n + 10000 < 2 * t + 20000)
  {
  }

  lemma Products(gross: nat, tax: nat, bps: nat)
    ensures 10000 * gross == (10000 + bps) * (gross - tax) + tax * (10000 + bps) - gross * bps
    ensures (gross - tax) * bps == gross * bps - tax * (10000 + bps) + 10000 * tax
  {
    var d := 10000 + bps;
    assert d * (gross - tax) == d * gross - d * tax;
    assert d * gross == 10000 * gross + gross * bps;
    assert tax * d == 10000 * tax + tax * bps;
    assert (gross - tax) * bps == gross * bps - tax * bps;
  }

  lemma Residue(k: int, w: int, d: nat)
    requires d > 0 && -(d as int) < w < d
    ensures (d * k + w) % d == if w < 0 then w + d else w
  {
    var q, r := if w < 0 then k - 1 else k, if w < 0 then w + d else w;
    assert d * k + w == d * q + r;
    QuotientOf(d * q + r, q, r, d);
  }

  lemma QuotientOf(n: int, q: int, r: nat, d: nat)
    requires r < d && n == d * q + r
    ensures n % d == r
  {
    var p := n / d;
    assert n == d * p + n % d;
    StepsApart(p, q, d);
    StepsApart(q, p, d);
  }

  /** In other words, for the gross amounts that some base and its tax add up to. */
  lemma GrossOfSomeBase(gross: nat, bps: nat)
    ensures (10000 * gross + 4999) % (10000 + bps) < 10000 <==> exists base: nat :: gross == base + RateOf(base, bps)
  {
    ApplyInvertsExtract(gross, bps);
    var base := gross - ExtractedTax(gross, bps);
    if RateOf(base, bps) == ExtractedTax(gross, bps) {
      assert gross == base + RateOf(base, bps);
    }
    if exists b: nat :: gross == b + RateOf(b, bps) {
      var b: nat :| gross == b + RateOf(b, bps);
      ExtractInvertsApply(b, bps);
    }
  }

  /** At 16% no base makes a gross of 4: its extracted tax is 1, and the tax on the other 3 is 0. */
  lemma NoBaseMakesFour()
    ensures ExtractedTax(4, 1600) == 1 && RateOf(4 - 1, 1600) == 0
    ensures forall base: nat :: base + RateOf(base, 1600) != 4
  {
    GrossOfSomeBase(4, 1600);
  }

  /** On the calls themselves: whatever the exclusive line charges, the inclusive line takes apart. */
  lemma PosturesInvert(lineId: Text, billed: int, bps: nat)
    requires LineOf(Exclusive, Line(lineId, billed), bps).Ok?
    ensures var line := LineOf(Exclusive, Line(lineId, billed), bps).value;
      LineOf(Inclusive, Line(lineId, line.total), bps) == Ok(line)
  {
    ExtractInvertsApply(billed, bps);
  }

  // ----- the snapshot closes ----------------------------------------------------------------

  lemma {:induction false} SumAdds(a: seq<int>, b: seq<int>, c: seq<int>)
    requires |a| == |b| == |c| && forall i :: 0 <= i < |a| ==> c[i] == a[i] + b[i]
    ensures Sum(c) == Sum(a) + Sum(b)
  {
    var n := |a| - 1;
    if n >= 0 {
      SumAdds(a[..n], b[..n], c[..n]);
    }
  }

  lemma {:induction false} SumOfZeros(a: seq<int>)
    requires forall i :: 0 <= i < |a| ==> a[i] == 0
    ensures Sum(a) == 0
  {
    if a != [] {
      SumOfZeros(a[..|a| - 1]);
    }
  }

  /**
   * The figures a receipt prints agree: base + tax is the total, line by line and overall; the
   * total is what was billed, and under `exclusive` exceeds it by exactly the tax.
   */
  lemma SnapshotCloses(posture: Posture, rateBps: int, lines: seq<Line>)
    requires TaxSnapshot(posture, rateBps, lines).Ok?
    ensures var s := TaxSnapshot(posture, rateBps, lines).value;
      && s.subtotal + s.taxTotal == s.total == Sum(Totals(s.lines))
      && (posture != Exclusive ==> s.total == Sum(Billed(lines)))
      && (posture == Exclusive ==> s.subtotal == Sum(Billed(lines)) && s.total == Sum(Billed(lines)) + s.taxTotal)
      && (posture == Untaxed ==> s.taxTotal == 0)
  {
    hide Sum;
    var s := TaxSnapshot(posture, rateBps, lines).value;
    SumAdds(Bases(s.lines), Taxes(s.lines), Totals(s.lines));
    if posture == Exclusive {
      assert Bases(s.lines) == Billed(lines);
    } else {
      assert Totals(s.lines) == Billed(lines);
    }
    if posture == Untaxed {
      SumOfZeros(Taxes(s.lines));
    }
  }

  // ----- the order of the lines decides nothing ----------------------------------------------

  function Figure(f: Line -> int, lines: seq<Line>): seq<int> {
    seq(|lines|, i requires 0 <= i < |lines| => f(lines[i]))
  }

  lemma {:induction false} FigurePermutes(f: Line -> int, a: seq<Line>, b: seq<Line>)
    requires multiset(a) == multiset(b)
    ensures multiset(Figure(f, a)) == multiset(Figure(f, b))
    decreases |a|
  {
    hide *;
    if a == [] {
      SameBagEmpty(a, b);
    } else {
      var i := PlaceOf(a[0], a, b);
      SameBagWithout(a, b, i);
      FigurePermutes(f, a[..0] + a[1..], b[..i] + b[i + 1..]);
      FigureWithout(f, a, 0);
      FigureWithout(f, b, i);
    }
  }

  lemma SameBagWithout(a: seq<Line>, b: seq<Line>, i: nat)
    requires multiset(a) == multiset(b) && a != [] && i < |b| && b[i] == a[0]
    ensures multiset(a[..0] + a[1..]) == multiset(b[..i] + b[i + 1..]) && |a[..0] + a[1..]| < |a|
  {
    BagWithout(a, 0);
    BagWithout(b, i);
  }

  lemma SameBagEmpty(a: seq<Line>, b: seq<Line>)
    requires multiset(a) == multiset(b) && a == []
    ensures b == []
  {
    assert |b| == |multiset(b)| == |multiset(a)| == 0;
  }

  lemma PlaceOf(line: Line, a: seq<Line>, b: seq<Line>) returns (i: nat)
    requires multiset(a) == multiset(b) && line in a
    ensures i < |b| && b[i] == line
  {
    assert line in multiset(b);
    i :| 0 <= i < |b| && b[i] == line;
  }

  lemma FigureWithout(f: Line -> int, a: seq<Line>, i: nat)
    requires i < |a|
    ensures multiset(Figure(f, a)) == multiset(Figure(f, a[..i] + a[i + 1..])) + multiset{f(a[i])}
  {
    var fa := Figure(f, a);
    assert Figure(f, a[..i] + a[i + 1..]) == fa[..i] + fa[i + 1..];
    assert fa == fa[..i] + [f(a[i])] + fa[i + 1..];
  }

  lemma LinesPermute(posture: Posture, bps: nat, a: seq<Line>, b: seq<Line>)
    requires multiset(a) == multiset(b) && LinesOf(posture, a, bps).Ok?
    ensures LinesOf(posture, b, bps).Ok?
  {
    forall i | 0 <= i < |b| ensures b[i].lineId != [] && LineOf(posture, b[i], bps).Ok? {
      assert b[i] in multiset(b);
      assert b[i] in a;
    }
  }

  lemma FiguresPermute(posture: Posture, bps: nat, a: seq<Line>, b: seq<Line>)
    requires multiset(a) == multiset(b) && LinesOf(posture, a, bps).Ok? && LinesOf(posture, b, bps).Ok?
    ensures multiset(Bases(LinesOf(posture, a, bps).value)) == multiset(Bases(LinesOf(posture, b, bps).value))
    ensures multiset(Taxes(LinesOf(posture, a, bps).value)) == multiset(Taxes(LinesOf(posture, b, bps).value))
  {
    hide LineOf;
    var base: Line -> int := line => match LineOf(posture, line, bps) case Ok(s) => s.base case Refused => 0;
    var tax: Line -> int := line => match LineOf(posture, line, bps) case Ok(s) => s.tax case Refused => 0;
    assert Bases(LinesOf(posture, a, bps).value) == Figure(base, a);
    assert Bases(LinesOf(posture, b, bps).value) == Figure(base, b);
    assert Taxes(LinesOf(posture, a, bps).value) == Figure(tax, a);
    assert Taxes(LinesOf(posture, b, bps).value) == Figure(tax, b);
    FigurePermutes(base, a, b);
    FigurePermutes(tax, a, b);
  }

  /** Permuting the lines moves no total, and neither makes nor unmakes a refusal. */
  lemma SnapshotPermutes(posture: Posture, rateBps: int, a: seq<Line>, b: seq<Line>)
    requires multiset(a) == multiset(b)
    ensures TaxSnapshot(posture, rateBps, a).Ok? == TaxSnapshot(posture, rateBps, b).Ok?
    ensures TaxSnapshot(posture, rateBps, a).Ok? ==>
      var s, t := TaxSnapshot(posture, rateBps, a).value, TaxSnapshot(posture, rateBps, b).value;
      s.subtotal == t.subtotal && s.taxTotal == t.taxTotal && s.total == t.total
  {
    hide LinesOf, SumPaisa;
    if AsPaisa(rateBps).Ok? {
      if LinesOf(posture, a, rateBps).Ok? { LinesPermute(posture, rateBps, a, b); }
      if LinesOf(posture, b, rateBps).Ok? { LinesPermute(posture, rateBps, b, a); }
      if LinesOf(posture, a, rateBps).Ok? {
        var p, q := LinesOf(posture, a, rateBps).value, LinesOf(posture, b, rateBps).value;
        FiguresPermute(posture, rateBps, a, b);
        TotalPermutes(Bases(p), Bases(q));
        TotalPermutes(Taxes(p), Taxes(q));
      }
    }
  }

  // ----- tax by line against tax on the bill --------------------------------------------------

  function TaxOnBill(posture: Posture, bill: nat, bps: nat): nat {
    match posture
    case Untaxed => 0
    case Inclusive => ExtractedTax(bill, bps)
    case Exclusive => RateOf(bill, bps)
  }

  /** `total` is within n halves of `num` / `den`. */
  predicate Within(total: int, num: int, den: int, n: nat) {
    -(n * den) <= 2 * (total * den - num) <= n * den
  }

  lemma WithinOneMore(t: int, b: int, n: nat, x: int, y: int, bps: nat, den: nat)
    requires Within(t, b * bps, den, n) && Nearest(x, y * bps, den)
    ensures Within(t + x, (b + y) * bps, den, n + 1)
  {
    assert (t + x) * den == t * den + x * den;
    assert (b + y) * bps == b * bps + y * bps;
    assert (n + 1) * den == n * den + den;
  }

  lemma {:induction false} SumNearest(billed: seq<int>, taxes: seq<int>, bps: nat, den: nat)
    requires |billed| == |taxes|
    requires forall i :: 0 <= i < |billed| ==> Nearest(taxes[i], billed[i] * bps, den)
    ensures Within(Sum(taxes), Sum(billed) * bps, den, |billed|)
  {
    hide Within, Nearest;
    var n := |billed| - 1;
    if n >= 0 {
      SumNearest(billed[..n], taxes[..n], bps, den);
      WithinOneMore(Sum(taxes[..n]), Sum(billed[..n]), n, taxes[n], billed[n], bps, den);
    } else {
      WithinNone(bps, den);
    }
  }

  lemma WithinNone(bps: nat, den: nat)
    ensures Within(0, 0 * bps, den, 0)
  {
  }

  lemma WithinNearest(total: int, once: int, num: int, den: int, n: nat)
    requires den > 0 && Within(total, num, den, n) && Nearest(once, num, den)
    ensures -(n + 1) <= 2 * (total - once) <= n + 1
  {
    Distribute(total, once, n, den);
    CancelDenominator(2 * (total - once), n + 1, den);
  }

  lemma Distribute(total: int, once: int, n: int, den: int)
    ensures (2 * (total - once)) * den == 2 * (total * den) - 2 * (once * den)
    ensures 2 * once * den == 2 * (once * den)
    ensures (n + 1) * den == n * den + den
  {
  }

  lemma CancelDenominator(x: int, n: int, den: int)
    requires den > 0 && -(n * den) <= x * den <= n * den
    ensures -n <= x <= n
  {
    StepsApart(n, x, den);
    StepsApart(x, -n, den);
    assert (-n) * den == -(n * den);
  }

  lemma {:induction false} SumNonNegative(values: seq<int>)
    requires forall i :: 0 <= i < |values| ==> values[i] >= 0
    ensures Sum(values) >= 0
  {
    if values != [] {
      SumNonNegative(values[..|values| - 1]);
    }
  }

  lemma BilledNonNegative(posture: Posture, rateBps: int, lines: seq<Line>)
    requires TaxSnapshot(posture, rateBps, lines).Ok?
    ensures Sum(Billed(lines)) >= 0
  {
    forall i | 0 <= i < |lines| ensures Billed(lines)[i] >= 0 {
      assert LineOf(posture, lines[i], rateBps).Ok?;
    }
    SumNonNegative(Billed(lines));
  }

  function Denominator(posture: Posture, bps: nat): nat {
    if posture == Inclusive then 10000 + bps else 10000
  }

  lemma TaxOnBillNearest(posture: Posture, bill: nat, bps: nat)
    requires posture != Untaxed
    ensures Nearest(TaxOnBill(posture, bill, bps), bill * bps, Denominator(posture, bps))
  {
    ExtractedIsHalfUp(bill, bps);
    RateIsHalfUp(bill, bps);
    HalfUpNearest(bill * bps, Denominator(posture, bps));
  }

  lemma LineTax(posture: Posture, line: Line, bps: nat)
    requires LineOf(posture, line, bps).Ok?
    ensures line.billed >= 0 && LineOf(posture, line, bps).value.tax == TaxOnBill(posture, line.billed, bps)
  {
  }

  lemma LinesNearest(posture: Posture, rateBps: int, lines: seq<Line>)
    requires TaxSnapshot(posture, rateBps, lines).Ok? && posture != Untaxed
    ensures forall i :: 0 <= i < |lines| ==>
      Nearest(Taxes(TaxSnapshot(posture, rateBps, lines).value.lines)[i], Billed(lines)[i] * rateBps, Denominator(posture, rateBps))
  {
    hide Nearest, LineOf, Denominator, TaxOnBill;
    var s := TaxSnapshot(posture, rateBps, lines).value;
    forall i | 0 <= i < |lines|
      ensures Nearest(Taxes(s.lines)[i], Billed(lines)[i] * rateBps, Denominator(posture, rateBps))
    {
      LineTax(posture, lines[i], rateBps);
      TaxOnBillNearest(posture, lines[i].billed, rateBps);
    }
  }

  /** Rounding line by line strays from rounding once by at most (n + 1) / 2 paisa. */
  lemma TaxDistance(posture: Posture, rateBps: int, lines: seq<Line>)
    requires TaxSnapshot(posture, rateBps, lines).Ok?
    ensures Sum(Billed(lines)) >= 0
    ensures var apart := TaxSnapshot(posture, rateBps, lines).value.taxTotal - TaxOnBill(posture, Sum(Billed(lines)), rateBps);
      -(|lines| + 1) <= 2 * apart <= |lines| + 1
  {
    BilledNonNegative(posture, rateBps, lines);
    if posture == Untaxed {
      SnapshotCloses(posture, rateBps, lines);
    } else {
      TaxedDistance(posture, rateBps, lines);
    }
  }

  lemma TaxedDistance(posture: Posture, rateBps: int, lines: seq<Line>)
    requires TaxSnapshot(posture, rateBps, lines).Ok? && posture != Untaxed && Sum(Billed(lines)) >= 0
    ensures var apart := TaxSnapshot(posture, rateBps, lines).value.taxTotal - TaxOnBill(posture, Sum(Billed(lines)), rateBps);
      -(|lines| + 1) <= 2 * apart <= |lines| + 1
  {
    hide LinesOf, Sum, TaxOnBill, Nearest, Within;
    var s := TaxSnapshot(posture, rateBps, lines).value;
    var den := Denominator(posture, rateBps);
    LinesNearest(posture, rateBps, lines);
    SumNearest(Billed(lines), Taxes(s.lines), rateBps, den);
    var bill := Sum(Billed(lines));
    TaxOnBillNearest(posture, bill, rateBps);
    WithinNearest(s.taxTotal, TaxOnBill(posture, bill, rateBps), bill * rateBps, den, |lines|);
  }

  // ----- when a snapshot is answered, and with what -----------------------------------------------

  /** The tax due on one billed amount; nothing is due on an amount or at a rate that is refused. */
  function TaxDue(posture: Posture, billed: int, rateBps: int): nat {
    if billed < 0 || rateBps < 0 then 0 else TaxOnBill(posture, billed, rateBps)
  }

  /** What is billed already holds the tax only under `inclusive`. */
  function BaseDue(posture: Posture, billed: int, rateBps: int): int {
    if posture == Inclusive then billed - TaxDue(posture, billed, rateBps) else billed
  }

  /** And the tax is charged on top only under `exclusive`. */
  function TotalDue(posture: Posture, billed: int, rateBps: int): int {
    if posture == Exclusive then billed + TaxDue(posture, billed, rateBps) else billed
  }

  function LineDue(posture: Posture, line: Line, rateBps: int): LineSnapshot {
    LineSnapshot(line.lineId, BaseDue(posture, line.billed, rateBps), TaxDue(posture, line.billed, rateBps),
                 TotalDue(posture, line.billed, rateBps))
  }

  function SumDue(due: Line -> int, lines: seq<Line>): int {
    Sum(Figure(due, lines))
  }

  predicate LineAccepted(posture: Posture, line: Line, rateBps: int) {
    && line.lineId != [] && IsAmount(line.billed)
    && (posture == Exclusive ==>
          IsAmount(TaxDue(posture, line.billed, rateBps)) && IsAmount(TotalDue(posture, line.billed, rateBps)))
  }

  predicate SnapshotAccepted(posture: Posture, rateBps: int, lines: seq<Line>) {
    && IsAmount(rateBps) && (forall i :: 0 <= i < |lines| ==> LineAccepted(posture, lines[i], rateBps))
    && var subtotal := SumDue((line: Line) => BaseDue(posture, line.billed, rateBps), lines);
      var tax := SumDue((line: Line) => TaxDue(posture, line.billed, rateBps), lines);
      IsAmount(subtotal) && IsAmount(tax) && IsAmount(subtotal + tax)
  }

  lemma LineExact(posture: Posture, line: Line, bps: nat)
    requires IsAmount(bps)
    ensures line.lineId != [] && LineOf(posture, line, bps).Ok? <==> LineAccepted(posture, line, bps)
    ensures LineOf(posture, line, bps).Ok? ==> LineOf(posture, line, bps).value == LineDue(posture, line, bps)
  {
    if line.billed >= 0 && posture == Inclusive {
      ExtractedBounded(line.billed, bps);
    }
  }

  lemma SumPaisaExact(values: seq<int>)
    requires forall i :: 0 <= i < |values| ==> IsAmount(values[i])
    ensures SumPaisa(values) == if IsAmount(Sum(values)) then Ok(Sum(values)) else Refused
  {
    SumNonNegative(values);
  }

  /** The figures of accepted lines are those due, and the base and the tax of each are safe. */
  lemma LinesExact(posture: Posture, lines: seq<Line>, bps: nat)
    requires IsAmount(bps)
    ensures LinesOf(posture, lines, bps).Ok? <==> forall i :: 0 <= i < |lines| ==> LineAccepted(posture, lines[i], bps)
    ensures LinesOf(posture, lines, bps).Ok? ==> LinesDue(posture, lines, bps, LinesOf(posture, lines, bps).value)
  {
    hide LineOf, LineAccepted, BaseDue, TaxDue, TotalDue;
    forall i | 0 <= i < |lines|
      ensures lines[i].lineId != [] && LineOf(posture, lines[i], bps).Ok? <==> LineAccepted(posture, lines[i], bps)
      ensures LineOf(posture, lines[i], bps).Ok? ==> LineOf(posture, lines[i], bps).value == LineDue(posture, lines[i], bps)
      ensures LineAccepted(posture, lines[i], bps) ==> IsAmount(BaseDue(posture, lines[i].billed, bps)) && IsAmount(TaxDue(posture, lines[i].billed, bps))
    {
      LineExact(posture, lines[i], bps);
      LineSafe(posture, lines[i], bps);
    }
  }

  ghost predicate LinesDue(posture: Posture, lines: seq<Line>, bps: int, s: seq<LineSnapshot>) {
    && |s| == |lines| && (forall i :: 0 <= i < |lines| ==> s[i] == LineDue(posture, lines[i], bps))
    && Bases(s) == Figure((line: Line) => BaseDue(posture, line.billed, bps), lines)
    && Taxes(s) == Figure((line: Line) => TaxDue(posture, line.billed, bps), lines)
    && forall i :: 0 <= i < |lines| ==> IsAmount(Bases(s)[i]) && IsAmount(Taxes(s)[i])
  }

  lemma LineSafe(posture: Posture, line: Line, bps: nat)
    ensures LineAccepted(posture, line, bps) ==> IsAmount(BaseDue(posture, line.billed, bps)) && IsAmount(TaxDue(posture, line.billed, bps))
  {
    if line.billed >= 0 && posture == Inclusive {
      ExtractedBounded(line.billed, bps);
    }
  }

  /**
   * A snapshot is answered exactly when the rate, every line, and every total is a safe amount and every line
   * has an id; it carries the posture, the rate and the ids it was given, and each line's figures are those due.
   */
  lemma SnapshotExact(posture: Posture, rateBps: int, lines: seq<Line>)
    ensures TaxSnapshot(posture, rateBps, lines).Ok? <==> SnapshotAccepted(posture, rateBps, lines)
    ensures TaxSnapshot(posture, rateBps, lines).Ok? ==>
      var s := TaxSnapshot(posture, rateBps, lines).value;
      && s.posture == posture && s.rateBps == rateBps && |s.lines| == |lines|
      && (forall i :: 0 <= i < |lines| ==> s.lines[i] == LineDue(posture, lines[i], rateBps))
      && s.subtotal == SumDue((line: Line) => BaseDue(posture, line.billed, rateBps), lines)
      && s.taxTotal == SumDue((line: Line) => TaxDue(posture, line.billed, rateBps), lines)
      && s.total == s.subtotal + s.taxTotal
  {
    hide LineOf, LineAccepted, BaseDue, TaxDue, TotalDue, Sum, SumPaisa, Figure;
    if IsAmount(rateBps) {
      LinesExact(posture, lines, rateBps);
      if LinesOf(posture, lines, rateBps).Ok? {
        var s := LinesOf(posture, lines, rateBps).value;
        SumPaisaExact(Bases(s));
        SumPaisaExact(Taxes(s));
      }
    }
  }
}
