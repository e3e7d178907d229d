/**
 * `packages/domain/src/pin.ts`: the self-contained credential string `hashPin` builds, `parse`,
 * which reads it back, and `verifyPin`. Argon2id is a parameter.
 */
module Credential {
  import opened Wrappers
  import opened Text16
  import opened Pin

  datatype Params = Params(m: nat, t: nat, p: nat)

  datatype Parsed = Parsed(params: Params, salt: seq<Byte>, hash: seq<Byte>)

  /** `PIN_ARGON2ID_PARAMS`. */
  const PIN_PARAMS := Params(19456, 2, 1)

  /** Section 3.1 of RFC 9106. */
  const ARGON2_VERSION := 0x13

  const DK_LEN := 32

  const VERSION_KEY: Text := Ascii("$argon2id$v=")
  const M_KEY: Text := Ascii("$m=")
  const T_KEY: Text := Ascii(",t=")
  const P_KEY: Text := Ascii(",p=")
  const DOLLAR: CodeUnit := 0x24

  function B64(bytes: seq<Byte>): Text {
    Chars(Encode(bytes))
  }

  function CredentialText(c: Parsed): Text {
    VERSION_KEY + (Decimal(ARGON2_VERSION)
      + (M_KEY + (Decimal(c.params.m)
        + (T_KEY + (Decimal(c.params.t)
          + (P_KEY + (Decimal(c.params.p)
            + ([DOLLAR] + (B64(c.salt) + ([DOLLAR] + B64(c.hash)))))))))))
  }

  // ----- parse: the regular expression, part by part --------------------------------------

  function DigitsAhead(t: Text): (n: nat)
    ensures n <= |t| && AllDigits(t[..n]) && (n < |t| ==> !IsDigit(t[n]))
  {
    if t == [] || !IsDigit(t[0]) then 0 else 1 + DigitsAhead(t[1..])
  }

  /** `key(\d+)`: the number and what follows it. */
  function NumberAfter(key: Text, t: Text): Option<(nat, Text)> {
    if |t| < |key| || t[..|key|] != key then None
    else
      var rest := t[|key|..];
      var n := DigitsAhead(rest);
      if n == 0 then None else Some((Value(rest[..n]), rest[n..]))
  }

  function DollarAhead(t: Text): (n: nat)
    ensures n <= |t| && DOLLAR !in t[..n] && (n < |t| ==> t[n] == DOLLAR)
  {
    if t == [] || t[0] == DOLLAR then 0 else 1 + DollarAhead(t[1..])
  }

  /** `\$([^$]+)\$([^$]+)` up to the end of the text. */
  function Fields(t: Text): Option<(Text, Text)> {
    if t == [] || t[0] != DOLLAR then None
    else
      var n := DollarAhead(t[1..]);
      if n == 0 || n + 1 >= |t| then None
      else
        var last := t[n + 2..];
        if last == [] || DOLLAR in last then None else Some((t[1..n + 1], last))
  }

  /** `fromB64`, as a function: its method is `Pin.FromB64`. */
  function Unb64(t: Text): Option<seq<Byte>> {
    if InAlphabet(t) then Some(Decode(Sextets(t))) else None
  }

  function Parse(encoded: Text): Option<Parsed> {
    var (v, r1) :- NumberAfter(VERSION_KEY, encoded);
    var (m, r2) :- NumberAfter(M_KEY, r1);
    var (t, r3) :- NumberAfter(T_KEY, r2);
    var (p, r4) :- NumberAfter(P_KEY, r3);
    var (saltText, hashText) :- Fields(r4);
    if v != ARGON2_VERSION then None
    else
      var salt :- Unb64(saltText);
      var hash :- Unb64(hashText);
      if salt == [] || hash == [] then None else Some(Parsed(Params(m, t, p), salt, hash))
  }

  // ----- the string parses back -----------------------------------------------------------

  lemma NumberReadBack(key: Text, n: nat, rest: Text)
    requires rest == [] || !IsDigit(rest[0])
    ensures NumberAfter(key, key + (Decimal(n) + rest)) == Some((n, rest))
  {
    var t := key + (Decimal(n) + rest);
    var after := t[|key|..];
    assert t[..|key|] == key && after == Decimal(n) + rest;
    var k := DigitsAhead(after);
    SplitDigits(after[..k], after[k..], Decimal(n), rest);
    ValueOfDecimal(n);
  }

  lemma FieldsReadBack(a: Text, b: Text)
    requires a != [] && b != [] && DOLLAR !in a && DOLLAR !in b
    ensures Fields([DOLLAR] + (a + ([DOLLAR] + b))) == Some((a, b))
  {
    var t := [DOLLAR] + (a + ([DOLLAR] + b));
    var rest := t[1..];
    assert rest == a + ([DOLLAR] + b);
    var n := DollarAhead(rest);
    assert rest[|a|] == DOLLAR;
    assert forall i :: 0 <= i < |a| ==> rest[i] == a[i];
    assert forall i :: 0 <= i < n ==> rest[i] == rest[..n][i];
    assert n == |a|;
    assert t[1..n + 1] == a && t[n + 2..] == b;
  }

  lemma B64Plain(bytes: seq<Byte>)
    requires bytes != []
    ensures B64(bytes) != [] && DOLLAR !in B64(bytes) && Unb64(B64(bytes)) == Some(bytes)
  {
    FromB64ToB64(bytes);
  }

  /** The credential carries everything a device needs to check it: it parses back whole. */
  lemma ParseBack(c: Parsed)
    requires c.salt != [] && c.hash != []
    ensures Parse(CredentialText(c)) == Some(c)
  {
    hide NumberAfter, Fields, Unb64, B64;
    B64Plain(c.salt);
    B64Plain(c.hash);
    var tail := [DOLLAR] + (B64(c.salt) + ([DOLLAR] + B64(c.hash)));
    FieldsReadBack(B64(c.salt), B64(c.hash));
    var p := P_KEY + (Decimal(c.params.p) + tail);
    NumberReadBack(P_KEY, c.params.p, tail);
    var t := T_KEY + (Decimal(c.params.t) + p);
    NumberReadBack(T_KEY, c.params.t, p);
    var m := M_KEY + (Decimal(c.params.m) + t);
    NumberReadBack(M_KEY, c.params.m, t);
    NumberReadBack(VERSION_KEY, ARGON2_VERSION, m);
  }

  /** Two credentials with the same text are the same credential. */
  lemma CredentialTextInjective(c: Parsed, d: Parsed)
    requires c.salt != [] && c.hash != [] && d.salt != [] && d.hash != []
    requires CredentialText(c) == CredentialText(d)
    ensures c == d
  {
    ParseBack(c);
    ParseBack(d);
  }

  // ----- hashPin and verifyPin ------------------------------------------------------------

  /** Argon2id: a PIN, a salt, the cost parameters and a digest length to a digest. */
  type Argon = (Text, seq<Byte>, Params, nat) -> seq<Byte>

  function HashPin(argon: Argon, pin: Text, salt: seq<Byte>): Text {
    CredentialText(Parsed(PIN_PARAMS, salt, argon(pin, salt, PIN_PARAMS, DK_LEN)))
  }

  function VerifyPin(argon: Argon, hash: Text, pin: Text): bool {
    match Parse(hash)
    case None => false
    case Some(c) => argon(pin, c.salt, c.params, |c.hash|) == c.hash
  }

  /** An enrolled PIN verifies; another PIN verifies only where its digest collides. */
  lemma EnrolledPinVerifies(argon: Argon, pin: Text, salt: seq<Byte>, other: Text)
    requires salt != [] && |argon(pin, salt, PIN_PARAMS, DK_LEN)| == DK_LEN
    ensures VerifyPin(argon, HashPin(argon, pin, salt), pin)
    ensures VerifyPin(argon, HashPin(argon, pin, salt), other)
      <==> argon(other, salt, PIN_PARAMS, DK_LEN) == argon(pin, salt, PIN_PARAMS, DK_LEN)
  {
    ParseBack(Parsed(PIN_PARAMS, salt, argon(pin, salt, PIN_PARAMS, DK_LEN)));
  }

  // ----- the text of a credential ------------------------------------------------------------------

  /** A credential states the algorithm, its version and the costs it was made at, then the salt and the digest. */
  lemma EnrolledText(argon: Argon, pin: Text, salt: seq<Byte>)
    ensures HashPin(argon, pin, salt) ==
      Ascii("$argon2id$v=") + (Ascii("19") + (Ascii("$m=") + (Ascii("19456") + (Ascii(",t=") + (Ascii("2") + (Ascii(",p=") + (Ascii("1")
        + (Ascii("$") + (B64(salt) + (Ascii("$") + B64(argon(pin, salt, Params(19456, 2, 1), 32))))))))))))
  {
    hide B64, Decimal;
    Numbers();
    assert [DOLLAR] == Ascii("$");
  }

  lemma Numbers()
    ensures Decimal(0x13) == Ascii("19") && Decimal(19456) == Ascii("19456") && Decimal(2) == Ascii("2") && Decimal(1) == Ascii("1")
  {
    assert Decimal(19) == Decimal(1) + [0x39];
    assert Decimal(19456) == Decimal(1945) + [0x36] && Decimal(1945) == Decimal(194) + [0x35];
    assert Decimal(194) == Decimal(19) + [0x34];
  }

  predicate IsNumber(t: Text) {
    t != [] && AllDigits(t)
  }

  /** Four runs of digits after their keys, the first of them worth 19, then a salt and a digest between dollars. */
  ghost predicate Shaped(encoded: Text, v: Text, m: Text, t: Text, p: Text, salt: Text, hash: Text) {
    && IsNumber(v) && IsNumber(m) && IsNumber(t) && IsNumber(p) && Value(v) == 19
    && encoded == VERSION_KEY + (v + (M_KEY + (m + (T_KEY + (t + (P_KEY + (p + ([DOLLAR] + (salt + ([DOLLAR] + hash))))))))))
  }

  /** What the numbers and the two fields stand for, neither field empty. */
  predicate States(m: Text, t: Text, p: Text, salt: Text, hash: Text, c: Parsed) {
    && IsNumber(m) && IsNumber(t) && IsNumber(p) && c.params == Params(Value(m), Value(t), Value(p))
    && Unb64(salt) == Some(c.salt) && Unb64(hash) == Some(c.hash) && c.salt != [] && c.hash != []
  }

  lemma NumberShape(key: Text, t: Text)
    requires NumberAfter(key, t).Some?
    ensures exists digits :: (AllDigits(digits) && digits != [] && t == key + (digits + NumberAfter(key, t).value.1)
      && Value(digits) == NumberAfter(key, t).value.0)
  {
    var rest := t[|key|..];
    var n := DigitsAhead(rest);
    assert t == key + (rest[..n] + rest[n..]);
  }

  lemma FieldsShape(t: Text)
    requires Fields(t).Some?
    ensures var (a, b) := Fields(t).value; a != [] && b != [] && t == [DOLLAR] + (a + ([DOLLAR] + b))
  {
    var n := DollarAhead(t[1..]);
    assert t[1..][n] == DOLLAR;
  }

  lemma ShapeOfParsed(encoded: Text)
    requires Parse(encoded).Some?
    ensures exists v, m, t, p, salt, hash ::
      Shaped(encoded, v, m, t, p, salt, hash) && States(m, t, p, salt, hash, Parse(encoded).value)
  {
    hide NumberAfter, Fields, Unb64, Value;
    NumberShape(VERSION_KEY, encoded);
    var r1 := NumberAfter(VERSION_KEY, encoded).value.1;
    NumberShape(M_KEY, r1);
    var r2 := NumberAfter(M_KEY, r1).value.1;
    NumberShape(T_KEY, r2);
    var r3 := NumberAfter(T_KEY, r2).value.1;
    NumberShape(P_KEY, r3);
    var r4 := NumberAfter(P_KEY, r3).value.1;
    FieldsShape(r4);
    var v :| AllDigits(v) && v != [] && encoded == VERSION_KEY + (v + r1) && Value(v) == NumberAfter(VERSION_KEY, encoded).value.0;
    var m :| AllDigits(m) && m != [] && r1 == M_KEY + (m + r2) && Value(m) == NumberAfter(M_KEY, r1).value.0;
    var t :| AllDigits(t) && t != [] && r2 == T_KEY + (t + r3) && Value(t) == NumberAfter(T_KEY, r2).value.0;
    var p :| AllDigits(p) && p != [] && r3 == P_KEY + (p + r4) && Value(p) == NumberAfter(P_KEY, r3).value.0;
    var (salt, hash) := Fields(r4).value;
    assert Shaped(encoded, v, m, t, p, salt, hash) && States(m, t, p, salt, hash, Parse(encoded).value);
  }

  lemma DigitsReadBack(key: Text, digits: Text, rest: Text)
    requires digits != [] && AllDigits(digits) && (rest == [] || !IsDigit(rest[0]))
    ensures NumberAfter(key, key + (digits + rest)) == Some((Value(digits), rest))
  {
    var t := key + (digits + rest);
    var after := t[|key|..];
    assert t[..|key|] == key && after == digits + rest;
    var k := DigitsAhead(after);
    SplitDigits(after[..k], after[k..], digits, rest);
  }

  lemma NoDollar(t: Text)
    requires Unb64(t).Some?
    ensures DOLLAR !in t
    ensures Unb64(t).value != [] ==> t != []
  {
  }

  lemma ShapedIsRead(encoded: Text, v: Text, m: Text, t: Text, p: Text, salt: Text, hash: Text, c: Parsed)
    requires Shaped(encoded, v, m, t, p, salt, hash) && States(m, t, p, salt, hash, c)
    ensures Parse(encoded) == Some(c)
  {
    hide NumberAfter, Fields, Unb64, Value, AllDigits;
    var r4 := [DOLLAR] + (salt + ([DOLLAR] + hash));
    var r3 := P_KEY + (p + r4);
    var r2 := T_KEY + (t + r3);
    var r1 := M_KEY + (m + r2);
    DigitsReadBack(VERSION_KEY, v, r1);
    DigitsReadBack(M_KEY, m, r2);
    DigitsReadBack(T_KEY, t, r3);
    DigitsReadBack(P_KEY, p, r4);
    NoDollar(salt);
    NoDollar(hash);
    FieldsReadBack(salt, hash);
  }

  /** A text is read as a credential exactly when it has this shape and its parts stand for that credential. */
  lemma ParsedShape(encoded: Text, c: Parsed)
    ensures Parse(encoded) == Some(c) <==>
      exists v, m, t, p, salt, hash :: Shaped(encoded, v, m, t, p, salt, hash) && States(m, t, p, salt, hash, c)
  {
    hide Parse, Shaped, States;
    if Parse(encoded) == Some(c) {
      ShapeOfParsed(encoded);
    }
    if v, m, t, p, salt, hash :| Shaped(encoded, v, m, t, p, salt, hash) && States(m, t, p, salt, hash, c) {
      ShapedIsRead(encoded, v, m, t, p, salt, hash, c);
    }
  }

  /** A PIN verifies exactly when the stored text is read and its own salt and costs give the stored digest. */
  lemma VerifyExact(argon: Argon, hash: Text, pin: Text)
    ensures VerifyPin(argon, hash, pin) <==>
      exists c :: Parse(hash) == Some(c) && argon(pin, c.salt, c.params, |c.hash|) == c.hash
  {
    hide Parse;
  }
}
