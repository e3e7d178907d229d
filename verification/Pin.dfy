/**
 * `packages/domain/src/pin.ts`: the hand-written B64 codec and the byte comparison.
 */
module Pin {
  import opened Wrappers
  import opened Text16

  type Byte = bv8

  type Sextet = bv6

  // ----- the alphabet (section 4 of RFC 4648) ---------------------------------------------

  /** `B64_ALPHABET[v]`. */
  function CharOf(v: Sextet): (c: CodeUnit)
    ensures c != 0x24
  {
    var i := v as int;
    if i < 26 then 0x41 + i
    else if i < 52 then 0x61 + (i - 26)
    else if i < 62 then 0x30 + (i - 52)
    else if i == 62 then 0x2B
    else 0x2F
  }

  /** `B64_ALPHABET.indexOf(c)`. */
  function IndexOf(c: CodeUnit): (i: int)
    ensures -1 <= i < 64
  {
    if 0x41 <= c <= 0x5A then c - 0x41
    else if 0x61 <= c <= 0x7A then c - 0x61 + 26
    else if 0x30 <= c <= 0x39 then c - 0x30 + 52
    else if c == 0x2B then 62
    else if c == 0x2F then 63
    else -1
  }

  lemma IndexOfCharOf(v: Sextet)
    ensures IndexOf(CharOf(v)) == v as int
  {
  }

  lemma CharOfIndexOf(c: CodeUnit)
    requires IndexOf(c) >= 0
    ensures CharOf(IndexOf(c) as Sextet) == c
  {
    assert (IndexOf(c) as Sextet) as int == IndexOf(c);
  }

  predicate InAlphabet(t: Text) {
    forall i :: 0 <= i < |t| ==> IndexOf(t[i]) >= 0
  }

  function Chars(vs: seq<Sextet>): (t: Text)
    ensures |t| == |vs| && forall i :: 0 <= i < |t| ==> t[i] == CharOf(vs[i])
  {
    seq(|vs|, i requires 0 <= i < |vs| => CharOf(vs[i]))
  }

  function Sextets(t: Text): (vs: seq<Sextet>)
    requires InAlphabet(t)
    ensures |vs| == |t| && forall i :: 0 <= i < |t| ==> vs[i] == IndexOf(t[i]) as Sextet
  {
    seq(|t|, i requires 0 <= i < |t| => IndexOf(t[i]) as Sextet)
  }

  lemma SextetsOfChars(vs: seq<Sextet>)
    ensures InAlphabet(Chars(vs)) && Sextets(Chars(vs)) == vs
  {
    forall i | 0 <= i < |vs| ensures IndexOf(Chars(vs)[i]) == vs[i] as int {
      IndexOfCharOf(vs[i]);
    }
  }

  lemma CharsOfSextets(t: Text)
    requires InAlphabet(t)
    ensures Chars(Sextets(t)) == t
  {
    forall i | 0 <= i < |t| ensures Chars(Sextets(t))[i] == t[i] {
      CharOfIndexOf(t[i]);
    }
  }

  // ----- three bytes against four sextets -------------------------------------------------

  function S0(a: Byte): Sextet { (a >> 2) as Sextet }
  function S1(a: Byte, b: Byte): Sextet { (((a & 3) << 4) | (b >> 4)) as Sextet }
  function S2(b: Byte, c: Byte): Sextet { (((b & 15) << 2) | (c >> 6)) as Sextet }
  function S3(c: Byte): Sextet { (c & 63) as Sextet }

  function B0(v: Sextet, w: Sextet): Byte { ((v as Byte) << 2) | ((w as Byte) >> 4) }
  function B1(w: Sextet, x: Sextet): Byte { ((w as Byte) << 4) | ((x as Byte) >> 2) }
  function B2(x: Sextet, y: Sextet): Byte { ((x as Byte) << 6) | (y as Byte) }

  function ByteAt(bytes: seq<Byte>, i: nat): Byte {
    if i < |bytes| then bytes[i] else 0
  }

  function SextetAt(vs: seq<Sextet>, i: nat): Sextet {
    if i < |vs| then vs[i] else 0
  }

  /** Sextet `j` of group `q`, which covers bytes 3q, 3q + 1 and 3q + 2. */
  function Spread(bytes: seq<Byte>, q: nat, j: nat): Sextet {
    if j == 0 then S0(ByteAt(bytes, 3 * q))
    else if j == 1 then S1(ByteAt(bytes, 3 * q), ByteAt(bytes, 3 * q + 1))
    else if j == 2 then S2(ByteAt(bytes, 3 * q + 1), ByteAt(bytes, 3 * q + 2))
    else S3(ByteAt(bytes, 3 * q + 2))
  }

  /** Byte `j` of group `q`, which covers sextets 4q to 4q + 3. */
  function Gather(vs: seq<Sextet>, q: nat, j: nat): Byte {
    if j == 0 then B0(SextetAt(vs, 4 * q), SextetAt(vs, 4 * q + 1))
    else if j == 1 then B1(SextetAt(vs, 4 * q + 1), SextetAt(vs, 4 * q + 2))
    else B2(SextetAt(vs, 4 * q + 2), SextetAt(vs, 4 * q + 3))
  }

  function Encode(bytes: seq<Byte>): (vs: seq<Sextet>)
    ensures |vs| == (|bytes| * 8 + 5) / 6
  {
    seq((|bytes| * 8 + 5) / 6, k requires 0 <= k => Spread(bytes, k / 4, k % 4))
  }

  function Decode(vs: seq<Sextet>): (bytes: seq<Byte>)
    ensures |bytes| == |vs| * 6 / 8
  {
    seq(|vs| * 6 / 8, k requires 0 <= k => Gather(vs, k / 3, k % 3))
  }

  lemma BytesBack(a: Byte, b: Byte, c: Byte)
    ensures B0(S0(a), S1(a, b)) == a
    ensures B1(S1(a, b), S2(b, c)) == b
    ensures B2(S2(b, c), S3(c)) == c
  {
  }

  lemma SextetsBack(v: Sextet, w: Sextet, x: Sextet, y: Sextet)
    ensures S0(B0(v, w)) == v
    ensures S1(B0(v, w), B1(w, x)) == w
    ensures S2(B1(w, x), B2(x, y)) == x
    ensures S3(B2(x, y)) == y
    ensures S1(B0(v, w), 0) == w <==> w & 15 == 0
    ensures S2(B1(w, x), 0) == x <==> x & 3 == 0
  {
  }

  /** How many bytes `n` sextets hold, and how many sextets `n` bytes need. */
  lemma Counts(q: nat, j: nat)
    requires j < 4
    ensures (4 * q + j) * 6 / 8 == 3 * q + (if j == 0 then 0 else j - 1)
    ensures j < 3 ==> ((3 * q + j) * 8 + 5) / 6 == 4 * q + (if j == 0 then 0 else j + 1)
  {
  }

  lemma Encoded(bytes: seq<Byte>, q: nat, j: nat)
    requires j < 4 && 4 * q + j < |Encode(bytes)|
    ensures Encode(bytes)[4 * q + j] == Spread(bytes, q, j)
  {
    assert (4 * q + j) / 4 == q && (4 * q + j) % 4 == j;
  }

  lemma Decoded(vs: seq<Sextet>, q: nat, j: nat)
    requires j < 3 && 3 * q + j < |Decode(vs)|
    ensures Decode(vs)[3 * q + j] == Gather(vs, q, j)
  {
    assert (3 * q + j) / 3 == q && (3 * q + j) % 3 == j;
  }

  lemma ByteBack(bytes: seq<Byte>, q: nat, j: nat)
    requires j < 3 && 3 * q + j < |bytes|
    ensures 3 * q + j < |Decode(Encode(bytes))| && Decode(Encode(bytes))[3 * q + j] == bytes[3 * q + j]
  {
    hide Encode, Decode, S0, S1, S2, S3, B0, B1, B2;
    var n, vs := |bytes|, Encode(bytes);
    Counts(n / 3, n % 3);
    assert 4 * q + j + 1 < |vs|;
    Encoded(bytes, q, j);
    Encoded(bytes, q, j + 1);
    BytesBack(ByteAt(bytes, 3 * q), ByteAt(bytes, 3 * q + 1), ByteAt(bytes, 3 * q + 2));
    Counts(|vs| / 4, |vs| % 4);
    Decoded(vs, q, j);
  }

  lemma DecodeEncode(bytes: seq<Byte>)
    ensures Decode(Encode(bytes)) == bytes
  {
    forall k | 0 <= k < |bytes| ensures Decode(Encode(bytes))[k] == bytes[k] {
      ByteBack(bytes, k / 3, k % 3);
    }
  }

  /** The texts an encoder writes: no lone last character, no bit set beyond the last byte. */
  predicate Minimal(vs: seq<Sextet>) {
    |vs| % 4 != 1
    && (|vs| % 4 == 2 ==> vs[|vs| - 1] & 15 == 0)
    && (|vs| % 4 == 3 ==> vs[|vs| - 1] & 3 == 0)
  }

  lemma EncodeDecode(vs: seq<Sextet>)
    ensures Encode(Decode(vs)) == vs <==> Minimal(vs)
  {
    hide Encode, Decode;
    var back := Encode(Decode(vs));
    Counts(|vs| / 4, |vs| % 4);
    Counts(|Decode(vs)| / 3, |Decode(vs)| % 3);
    assert |back| == if |vs| % 4 == 1 then |vs| - 1 else |vs|;
    forall k | 0 <= k < |back| && (k < |vs| / 4 * 4 || k + 1 < |vs|) ensures back[k] == vs[k] {
      SextetBack(vs, k / 4, k % 4);
    }
    if |vs| % 4 > 1 {
      LastSextetBack(vs, |vs| / 4, |vs| % 4 - 1);
    }
  }

  lemma SextetBack(vs: seq<Sextet>, q: nat, j: nat)
    requires j < 4 && (4 * q + 3 < |vs| || 4 * q + j + 1 < |vs|)
    ensures 4 * q + j < |Encode(Decode(vs))| && Encode(Decode(vs))[4 * q + j] == vs[4 * q + j]
  {
    hide Encode, Decode, S0, S1, S2, S3, B0, B1, B2;
    var bytes := Decode(vs);
    Counts(|vs| / 4, |vs| % 4);
    if j < 3 { Decoded(vs, q, j); }
    if j > 0 { Decoded(vs, q, j - 1); }
    Counts(|bytes| / 3, |bytes| % 3);
    Encoded(bytes, q, j);
    SextetsBack(SextetAt(vs, 4 * q), SextetAt(vs, 4 * q + 1), SextetAt(vs, 4 * q + 2), SextetAt(vs, 4 * q + 3));
  }

  lemma LastSextetBack(vs: seq<Sextet>, q: nat, j: nat)
    requires (j == 1 || j == 2) && |vs| == 4 * q + j + 1
    ensures |Encode(Decode(vs))| == |vs|
    ensures Encode(Decode(vs))[4 * q + j] == vs[4 * q + j] <==> Minimal(vs)
  {
    hide Encode, Decode, S0, S1, S2, S3, B0, B1, B2;
    var bytes := Decode(vs);
    Counts(q, j + 1);
    Decoded(vs, q, j - 1);
    Counts(q, j);
    Encoded(bytes, q, j);
    SextetsBack(SextetAt(vs, 4 * q), SextetAt(vs, 4 * q + 1), SextetAt(vs, 4 * q + 2), 0);
  }

  /** A text decodes and encodes back to itself exactly when an encoder could have written it. */
  lemma TextRoundTrip(t: Text)
    requires InAlphabet(t)
    ensures Chars(Encode(Decode(Sextets(t)))) == t <==> Minimal(Sextets(t))
  {
    var vs := Sextets(t);
    EncodeDecode(vs);
    CharsOfSextets(t);
    SextetsOfChars(Encode(Decode(vs)));
  }

  // ----- toB64 ----------------------------------------------------------------------------

  predicate Written(out: Text, bytes: seq<Byte>) {
    |out| <= |Encode(bytes)| && forall k :: 0 <= k < |out| ==> out[k] == CharOf(Encode(bytes)[k])
  }

  lemma WriteOne(out: Text, bytes: seq<Byte>, q: nat, j: nat)
    requires Written(out, bytes) && |out| == 4 * q + j && j < 4 && |out| < |Encode(bytes)|
    ensures Written(out + [CharOf(Spread(bytes, q, j))], bytes)
  {
    Encoded(bytes, q, j);
  }

  lemma WrittenAll(out: Text, bytes: seq<Byte>)
    ensures Written([], bytes)
    ensures Written(out, bytes) && |out| == |Encode(bytes)| ==> out == Chars(Encode(bytes))
  {
    hide CharOf, Encode;
  }

  method ToB64(bytes: array<Byte>) returns (out: Text)
    ensures out == Chars(Encode(bytes[..]))
  {
    hide CharOf, Chars, Encode, Written, S0, S1, S2, S3;
    ghost var all := bytes[..];
    Counts(|all| / 3, |all| % 3);
    WrittenAll([], all);
    out := [];
    var i := 0;
    ghost var q := 0;
    while i < bytes.Length
      invariant i == 3 * q && (i <= bytes.Length || |out| == |Encode(all)|)
      invariant i <= bytes.Length ==> |out| == 4 * q
      invariant Written(out, all)
    {
      Counts(q, 1);
      var a := bytes[i];
      var b := if i + 1 < bytes.Length then bytes[i + 1] else 0;
      var c := if i + 2 < bytes.Length then bytes[i + 2] else 0;
      WriteOne(out, all, q, 0);
      out := out + [CharOf(S0(a))];
      WriteOne(out, all, q, 1);
      out := out + [CharOf(S1(a, b))];
      if i + 1 >= bytes.Length {
        break;
      }
      WriteOne(out, all, q, 2);
      out := out + [CharOf(S2(b, c))];
      if i + 2 >= bytes.Length {
        break;
      }
      WriteOne(out, all, q, 3);
      out := out + [CharOf(S3(c))];
      i := i + 3;
      q := q + 1;
    }
    assert |out| == |Encode(all)|;
    WrittenAll(out, all);
  }

  // ----- fromB64 --------------------------------------------------------------------------

  /** How many unread bits are held after `i` sextets. */
  function Held(i: nat): nat {
    if i % 4 == 0 then 0 else if i % 4 == 1 then 6 else if i % 4 == 2 then 4 else 2
  }

  /** `acc = (acc << 6) | v`, on a 32-bit word. */
  function Push(acc: bv32, v: Sextet): bv32 {
    (acc << 6) | v as bv32
  }

  /** `acc >> held` on a signed word: copies of the top bit come in from above. */
  function SignedShift(acc: bv32, held: nat): bv32
    requires held < 8
  {
    if acc & 0x8000_0000 == 0 then acc >> held else (acc >> held) | !(0xFFFF_FFFF >> held)
  }

  /** `(acc >> held) & 0xff`. */
  function Kept(acc: bv32, held: nat): Byte
    requires held < 8
  {
    (SignedShift(acc, held) & 255) as Byte
  }

  /** The copied sign never reaches the eight bits kept, so a logical shift keeps the same byte. */
  lemma SignNotKept(acc: bv32, held: nat)
    requires held < 8
    ensures Kept(acc, held) == ((acc >> held) & 255) as Byte
  {
  }

  /** Only the last sextet is left of the accumulator when the next one completes a byte. */
  lemma PushCompletes(acc: bv32, v: Sextet, last: Sextet)
    requires acc & 63 == last as bv32
    ensures Push(acc, v) & 63 == v as bv32
    ensures Kept(Push(acc, v), 4) == B0(last, v)
    ensures Kept(Push(acc, v), 2) == B1(last, v)
    ensures Kept(Push(acc, v), 0) == B2(last, v)
  {
    hide Kept;
    var pushed := Push(acc, v);
    SignNotKept(pushed, 4);
    SignNotKept(pushed, 2);
    SignNotKept(pushed, 0);
  }

  lemma SameSextet(acc: bv32, v: Sextet, w: Sextet)
    requires acc & 63 == v as bv32 == w as bv32
    ensures v == w
  {
  }

  predicate Read(out: seq<Byte>, vs: seq<Sextet>) {
    |out| <= |Decode(vs)| && forall k :: 0 <= k < |out| ==> out[k] == Decode(vs)[k]
  }

  lemma ReadAll(out: seq<Byte>, vs: seq<Sextet>)
    ensures Read([], vs)
    ensures Read(out, vs) && |out| == |vs| * 6 / 8 ==> out == Decode(vs)
  {
    hide B0, B1, B2;
    Counts(|vs| / 4, |vs| % 4);
  }

  /** The byte the sextet at `i` completes, from it and the one before. */
  lemma ReadOne(out: seq<Byte>, vs: seq<Sextet>, i: nat)
    requires i < |vs| && |out| == i * 6 / 8 && Read(out, vs)
    ensures i % 4 == 1 ==> Read(out + [B0(vs[i - 1], vs[i])], vs)
    ensures i % 4 == 2 ==> Read(out + [B1(vs[i - 1], vs[i])], vs)
    ensures i % 4 == 3 ==> Read(out + [B2(vs[i - 1], vs[i])], vs)
  {
    hide Decode, B0, B1, B2;
    var q, j := i / 4, i % 4;
    Counts(q, j);
    Counts(|vs| / 4, |vs| % 4);
    if j > 0 {
      Decoded(vs, q, j - 1);
      assert vs[i] == SextetAt(vs, 4 * q + j) && vs[i - 1] == SextetAt(vs, 4 * q + j - 1);
    }
  }

  lemma HeldNone()
    ensures Held(0) == 0
  {
  }

  lemma HeldStep(i: nat)
    ensures Held(i + 1) < 8
    ensures Held(i) + 6 >= 8 ==> Held(i + 1) == Held(i) - 2 && (i + 1) * 6 / 8 == i * 6 / 8 + 1
    ensures Held(i) + 6 < 8 ==> Held(i + 1) == Held(i) + 6 && (i + 1) * 6 / 8 == i * 6 / 8
  {
    Counts(i / 4, i % 4);
    Counts((i + 1) / 4, (i + 1) % 4);
  }

  /** The byte kept once the sextet at `i` is pushed is the next byte read. */
  lemma StepReads(out: seq<Byte>, vs: seq<Sextet>, i: nat, acc: bv32)
    requires i < |vs| && |out| == i * 6 / 8 && Read(out, vs)
    requires i > 0 ==> acc & 63 == vs[i - 1] as bv32
    ensures Push(acc, vs[i]) & 63 == vs[i] as bv32
    ensures Held(i) >= 2 ==> Read(out + [Kept(Push(acc, vs[i]), Held(i) - 2)], vs)
  {
    hide Read, B0, B1, B2, Push, Kept;
    var last := (acc & 63) as Sextet;
    PushCompletes(acc, vs[i], last);
    if i > 0 {
      SameSextet(acc, last, vs[i - 1]);
      ReadOne(out, vs, i);
    }
  }

  /**
   * `null` for a text outside the alphabet. The accumulator is a signed 32-bit word: what the left
   * shift drops, and the sign the right shift copies in, are never read.
   */
  method FromB64(text: Text) returns (result: Option<seq<Byte>>)
    ensures result == if InAlphabet(text) then Some(Decode(Sextets(text))) else None
  {
    hide CharOf, IndexOf, Decode;
    var bits: seq<Sextet> := [];
    for i := 0 to |text|
      invariant |bits| == i
      invariant forall j :: 0 <= j < i ==> IndexOf(text[j]) >= 0 && bits[j] == IndexOf(text[j]) as Sextet
    {
      var v := IndexOf(text[i]);
      if v < 0 {
        return None;
      }
      bits := bits + [v as Sextet];
    }
    assert bits == Sextets(text);
    var out := Unpack(bits);
    return Some(out[..]);
  }

  /** The second loop of `fromB64`: sextets in, bytes out, through one 32-bit accumulator. */
  method Unpack(bits: seq<Sextet>) returns (out: array<Byte>)
    ensures out[..] == Decode(bits)
  {
    hide Decode, Read, Held, Push, Kept;
    ReadAll([], bits);
    HeldNone();
    out := new Byte[|bits| * 6 / 8];
    var acc: bv32, held, n := 0, 0, 0;
    for i := 0 to |bits|
      invariant held == Held(i)
      invariant i > 0 ==> acc & 63 == bits[i - 1] as bv32
      invariant n == i * 6 / 8 <= out.Length
      invariant Read(out[..n], bits)
    {
      StepReads(out[..n], bits, i, acc);
      HeldStep(i);
      acc := Push(acc, bits[i]);
      held := held + 6;
      if held >= 8 {
        held := held - 8;
        out[n] := Kept(acc, held);
        n := n + 1;
        assert out[..n] == out[..n - 1] + [out[n - 1]];
      }
    }
    assert out[..n] == out[..];
    ReadAll(out[..], bits);
  }

  /** What is written is read back: the codec loses nothing. */
  lemma FromB64ToB64(bytes: seq<Byte>)
    ensures InAlphabet(Chars(Encode(bytes)))
    ensures Decode(Sextets(Chars(Encode(bytes)))) == bytes
  {
    SextetsOfChars(Encode(bytes));
    DecodeEncode(bytes);
  }

  // ----- equalConstantTime ----------------------------------------------------------------

  lemma NoDifference(diff: Byte, a: Byte, b: Byte)
    ensures diff | (a ^ b) == 0 <==> diff == 0 && a == b
  {
  }

  method EqualConstantTime(a: array<Byte>, b: array<Byte>) returns (equal: bool)
    ensures equal <==> a[..] == b[..]
  {
    if a.Length != b.Length {
      return false;
    }
    var diff: Byte := 0;
    for i := 0 to a.Length
      invariant diff == 0 <==> a[..i] == b[..i]
    {
      NoDifference(diff, a[i], b[i]);
      assert a[..i + 1] == a[..i] + [a[i]] && b[..i + 1] == b[..i] + [b[i]];
      diff := diff | (a[i] ^ b[i]);
    }
    assert a[..a.Length] == a[..] && b[..a.Length] == b[..];
    return diff == 0;
  }

  // ----- the alphabet and the bits ------------------------------------------------------------

  /** The alphabet: the capitals, the small letters and the digits, each in order, then plus and slash. */
  lemma AlphabetExact(v: Sextet)
    ensures CharOf(0) == 'A' as int && CharOf(25) == 'Z' as int && CharOf(26) == 'a' as int && CharOf(51) == 'z' as int
    ensures CharOf(52) == '0' as int && CharOf(61) == '9' as int && CharOf(62) == '+' as int && CharOf(63) == '/' as int
    ensures v < 61 && v != 25 && v != 51 ==> CharOf(v + 1) == CharOf(v) + 1
  {
    assert v < 63 ==> (v + 1) as int == v as int + 1;
  }

  /** Three bytes and the four sextets they are spread over are one number, most significant first. */
  lemma GroupNumber(a: Byte, b: Byte, c: Byte)
    ensures (a as bv24 << 16) | (b as bv24 << 8) | (c as bv24)
      == (S0(a) as bv24 << 18) | (S1(a, b) as bv24 << 12) | (S2(b, c) as bv24 << 6) | (S3(c) as bv24)
  {
  }
}
