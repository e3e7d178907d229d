/**
 * JavaScript strings: sequences of UTF-16 code units, with the decimal printing and the
 * code-unit order (`<` on strings) that the encoders and parsers share.
 */
module Text16 {
  type CodeUnit = c: int | 0 <= c < 0x1_0000

  type Text = seq<CodeUnit>

  /** The largest integer a JavaScript number holds exactly, 2^53 - 1. */
  const MAX_SAFE: int := 0x1F_FFFF_FFFF_FFFF

  type SafeInt = n: int | -MAX_SAFE <= n <= MAX_SAFE

  /** An ASCII literal as code units. */
  function Ascii(s: string): (t: Text)
    requires forall i :: 0 <= i < |s| ==> s[i] as int < 0x80
    ensures |t| == |s|
  {
    seq(|s|, i requires 0 <= i < |s| => s[i] as int)
  }

  /** Two texts cut at the same length. */
  lemma Cut(a: Text, x: Text, b: Text, y: Text)
    requires |a| == |b| && a + x == b + y
    ensures a == b && x == y
  {
    assert a == (a + x)[..|a|];
    assert b == (b + y)[..|b|];
    assert x == (a + x)[|a|..];
    assert y == (b + y)[|b|..];
  }

  lemma Assoc(a: Text, b: Text, c: Text)
    ensures (a + b) + c == a + (b + c)
  {
  }

  // ----- digits -------------------------------------------------------------------------

  predicate IsDigit(c: CodeUnit) {
    0x30 <= c <= 0x39
  }

  predicate AllDigits(t: Text) {
    forall i :: 0 <= i < |t| ==> IsDigit(t[i])
  }

  /** How a non-negative integer prints. */
  function Decimal(n: nat): (t: Text)
    ensures |t| > 0 && AllDigits(t)
    decreases n
  {
    if n < 10 then [0x30 + n] else Decimal(n / 10) + [0x30 + n % 10]
  }

  /** What `Number(...)` reads from a run of digits. */
  function Value(t: Text): (n: nat)
    requires AllDigits(t)
  {
    if t == [] then 0 else Value(t[..|t| - 1]) * 10 + (t[|t| - 1] - 0x30)
  }

  lemma {:induction false} ValueOfDecimal(n: nat)
    ensures Value(Decimal(n)) == n
    decreases n
  {
    if n < 10 {
      assert Value([0x30 + n]) == Value([]) * 10 + n;
    } else {
      ValueOfDecimal(n / 10);
      var t := Decimal(n);
      assert t[..|t| - 1] == Decimal(n / 10);
    }
  }

  /** A run of digits is read off the front of a text in one way only. */
  lemma SplitDigits(a: Text, x: Text, b: Text, y: Text)
    requires AllDigits(a) && AllDigits(b)
    requires x == [] || !IsDigit(x[0])
    requires y == [] || !IsDigit(y[0])
    requires a + x == b + y
    ensures a == b && x == y
  {
    var t := a + x;
    assert forall i :: 0 <= i < |a| ==> t[i] == a[i];
    assert forall i :: 0 <= i < |b| ==> t[i] == b[i];
    assert forall i :: 0 <= i < |x| ==> t[|a| + i] == x[i];
    assert forall i :: 0 <= i < |y| ==> t[|b| + i] == y[i];
    if |a| < |b| {
      assert false;
    }
    if |b| < |a| {
      assert false;
    }
    assert a == t[..|a|] == b;
    assert x == t[|a|..] == y;
  }

  // ----- the order `a < b` compares strings by -------------------------------------------

  predicate Less(a: Text, b: Text) {
    if b == [] then false
    else if a == [] then true
    else a[0] < b[0] || (a[0] == b[0] && Less(a[1..], b[1..]))
  }

  lemma {:induction false} LessTotal(a: Text, b: Text)
    ensures Less(a, b) || a == b || Less(b, a)
    ensures !(Less(a, b) && Less(b, a))
    ensures a == b ==> !Less(a, b)
  {
    if a != [] && b != [] {
      LessTotal(a[1..], b[1..]);
      if a[0] == b[0] && a[1..] == b[1..] {
        assert a == [a[0]] + a[1..];
        assert b == [b[0]] + b[1..];
      }
    }
  }

  lemma {:induction false} LessTransitive(a: Text, b: Text, c: Text)
    requires Less(a, b) && Less(b, c)
    ensures Less(a, c)
    decreases |a|
  {
    if a != [] && a[0] == b[0] && b[0] == c[0] {
      LessTransitive(a[1..], b[1..], c[1..]);
    }
  }

  // ----- well-formed UTF-16: every surrogate is half of a pair ---------------------------

  predicate IsHigh(c: CodeUnit) {
    0xD800 <= c <= 0xDBFF
  }

  predicate IsLow(c: CodeUnit) {
    0xDC00 <= c <= 0xDFFF
  }

  predicate StartsWithPair(t: Text) {
    |t| >= 2 && IsHigh(t[0]) && IsLow(t[1])
  }

  /** The pair of units that stands for a code point above 0xFFFF. */
  function PairOf(codePoint: int): (CodeUnit, CodeUnit)
    requires 0x1_0000 <= codePoint <= 0x10_FFFF
  {
    (0xD800 + (codePoint - 0x1_0000) / 0x400, 0xDC00 + (codePoint - 0x1_0000) % 0x400)
  }

  /** Two units pair exactly when some code point above 0xFFFF is written as the two. */
  lemma PairsExact(high: CodeUnit, low: CodeUnit)
    ensures IsHigh(high) && IsLow(low) <==> exists c :: 0x1_0000 <= c <= 0x10_FFFF && PairOf(c) == (high, low)
  {
    if IsHigh(high) && IsLow(low) {
      var c := 0x1_0000 + (high - 0xD800) * 0x400 + (low - 0xDC00);
      assert PairOf(c) == (high, low);
    }
  }

  /** What a UTF-8 encoder reproduces exactly: text without an unpaired surrogate. */
  predicate WellFormed(t: Text) {
    if t == [] then true
    else if StartsWithPair(t) then WellFormed(t[2..])
    else !IsHigh(t[0]) && !IsLow(t[0]) && WellFormed(t[1..])
  }

  lemma {:induction false} WellFormedConcat(a: Text, b: Text)
    requires WellFormed(a) && WellFormed(b)
    ensures WellFormed(a + b)
    decreases |a|
  {
    if a == [] {
      assert a + b == b;
    } else if StartsWithPair(a) {
      WellFormedConcat(a[2..], b);
      assert (a + b)[2..] == a[2..] + b;
    } else {
      WellFormedConcat(a[1..], b);
      assert (a + b)[1..] == a[1..] + b;
    }
  }

  lemma {:induction false} PlainWellFormed(t: Text)
    requires forall i :: 0 <= i < |t| ==> !IsHigh(t[i]) && !IsLow(t[i])
    ensures WellFormed(t)
  {
    if t != [] {
      PlainWellFormed(t[1..]);
    }
  }

  /** Where two texts first differ, the smaller unit comes first; a text comes before any that continues it. */
  lemma {:induction false} LessExact(a: Text, b: Text)
    ensures Less(a, b) <==> exists i :: LessAt(a, b, i)
  {
    if a != [] && b != [] {
      LessExact(a[1..], b[1..]);
      if i :| LessAt(a[1..], b[1..], i) {
        if a[0] == b[0] {
          LessDeeper(a, b, i);
        }
      }
      if i :| LessAt(a, b, i) {
        if i > 0 {
          LessShallower(a, b, i);
        }
      }
      if a[0] < b[0] { assert LessAt(a, b, 0); }
    } else if b != [] {
      assert LessAt(a, b, 0);
    }
  }

  predicate LessAt(a: Text, b: Text, i: nat) {
    && i <= |a| && i < |b| && a[..i] == b[..i] && (i == |a| || a[i] < b[i])
  }

  lemma LessDeeper(a: Text, b: Text, i: nat)
    requires a != [] && b != [] && a[0] == b[0] && LessAt(a[1..], b[1..], i)
    ensures LessAt(a, b, i + 1)
  {
    assert a[..i + 1] == [a[0]] + a[1..][..i] && b[..i + 1] == [b[0]] + b[1..][..i];
  }

  lemma LessShallower(a: Text, b: Text, i: nat)
    requires a != [] && b != [] && 0 < i && LessAt(a, b, i)
    ensures a[0] == b[0] && LessAt(a[1..], b[1..], i - 1)
  {
    assert a[0] == a[..i][0] && b[0] == b[..i][0];
    assert a[1..][..i - 1] == a[..i][1..] && b[1..][..i - 1] == b[..i][1..];
  }
}
