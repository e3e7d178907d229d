/**
 * What JSON text stands for, after section 7 of RFC 8259 and its sections 3 to 6, without the white space and
 * the fractions canonical text never holds; and that canonical text stands for the value it was made from.
 */
module JsonReader {
  import opened Wrappers
  import opened Text16
  import opened Canonical
  import opened CanonicalText

  // ----- strings -------------------------------------------------------------------------------------

  /** The unit a letter after a backslash stands for. */
  function Escaped(letter: CodeUnit): Option<CodeUnit> {
    if letter == '"' as int then Some(0x22)
    else if letter == '\\' as int then Some(0x5C)
    else if letter == '/' as int then Some(0x2F)
    else if letter == 'b' as int then Some(0x08)
    else if letter == 'f' as int then Some(0x0C)
    else if letter == 'n' as int then Some(0x0A)
    else if letter == 'r' as int then Some(0x0D)
    else if letter == 't' as int then Some(0x09)
    else None
  }

  function HexValue(c: CodeUnit): Option<nat> {
    if '0' as int <= c <= '9' as int then Some(c - '0' as int)
    else if 'a' as int <= c <= 'f' as int then Some(c - 'a' as int + 10)
    else if 'A' as int <= c <= 'F' as int then Some(c - 'A' as int + 10)
    else None
  }

  /** Four hex digits, the most significant first. */
  function ReadHex(t: Text): Option<CodeUnit> {
    if |t| < 4 then None
    else
      var a :- HexValue(t[0]);
      var b :- HexValue(t[1]);
      var c :- HexValue(t[2]);
      var d :- HexValue(t[3]);
      var n := ((a * 16 + b) * 16 + c) * 16 + d;
      if n < 0x1_0000 then Some(n) else None
  }

  /** One unit of a string, escaped or plain, and what follows it. */
  function ReadUnit(t: Text): (r: Option<(CodeUnit, Text)>)
    ensures r.Some? ==> |r.value.1| < |t|
  {
    if t == [] || t[0] < 0x20 || t[0] == '"' as int then None
    else if t[0] != '\\' as int then Some((t[0], t[1..]))
    else if |t| < 2 then None
    else if t[1] == 'u' as int then
      var c :- ReadHex(t[2..]);
      Some((c, t[6..]))
    else
      var c :- Escaped(t[1]);
      Some((c, t[2..]))
  }

  /** The rest of a string after its opening quote. */
  function ReadString(t: Text): (r: Option<(Text, Text)>)
    ensures r.Some? ==> |r.value.1| < |t|
    decreases |t|
  {
    if t == [] then None
    else if t[0] == '"' as int then Some(([], t[1..]))
    else
      var unit :- ReadUnit(t);
      var rest :- ReadString(unit.1);
      Some(([unit.0] + rest.0, rest.1))
  }

  // ----- numbers and literals ------------------------------------------------------------------------------

  function DigitsOf(t: Text): (n: nat)
    ensures n <= |t| && AllDigits(t[..n]) && (n < |t| ==> !IsDigit(t[n]))
  {
    if t == [] || !IsDigit(t[0]) then 0
    else
      var n := 1 + DigitsOf(t[1..]);
      assert t[..n] == [t[0]] + t[1..][..n - 1];
      n
  }

  /** A run of digits that does not open with a zero, unless it is the zero; no fraction, no exponent. */
  function ReadNatural(t: Text): (r: Option<(nat, Text)>)
    ensures r.Some? ==> |r.value.1| < |t|
  {
    var n := DigitsOf(t);
    if n == 0 || (n > 1 && t[0] == '0' as int) then None
    else if n < |t| && t[n] in {'.' as int, 'e' as int, 'E' as int} then None
    else Some((Value(t[..n]), t[n..]))
  }

  function ReadNumber(t: Text): (r: Option<(int, Text)>)
    ensures r.Some? ==> |r.value.1| < |t|
  {
    if t != [] && t[0] == '-' as int then
      var r :- ReadNatural(t[1..]);
      var n: int := r.0;
      Some((-n, r.1))
    else
      var r :- ReadNatural(t);
      Some((r.0, r.1))
  }

  function ReadLiteral(t: Text, word: string, v: Normal): (r: Option<(Normal, Text)>)
    requires word != "" && forall i :: 0 <= i < |word| ==> word[i] as int < 0x80
    ensures r.Some? ==> |r.value.1| < |t|
  {
    if Ascii(word) <= t then Some((v, t[|word|..])) else None
  }

  // ----- values ----------------------------------------------------------------------------------------------

  function Read(t: Text): (r: Option<(Normal, Text)>)
    ensures r.Some? ==> |r.value.1| < |t|
    decreases |t|, 0
  {
    if t == [] then None
    else if t[0] == 'n' as int then ReadLiteral(t, "null", NNull)
    else if t[0] == 't' as int then ReadLiteral(t, "true", NBool(true))
    else if t[0] == 'f' as int then ReadLiteral(t, "false", NBool(false))
    else if t[0] == '"' as int then
      var r :- ReadString(t[1..]);
      Some((NStr(r.0), r.1))
    else if t[0] == '[' as int then
      if |t| > 1 && t[1] == ']' as int then Some((NArr([]), t[2..]))
      else
        var r :- ReadItems(t[1..]);
        Some((NArr(r.0), r.1))
    else if t[0] == '{' as int then
      if |t| > 1 && t[1] == '}' as int then Some((NObj(map[]), t[2..]))
      else
        var r :- ReadMembers(t[1..]);
        Some((NObj(r.0), r.1))
    else
      var r :- ReadNumber(t);
      Some((NNum(r.0), r.1))
  }

  /** One value or more, commas between them, and the closing bracket. */
  function ReadItems(t: Text): (r: Option<(seq<Normal>, Text)>)
    ensures r.Some? ==> |r.value.1| < |t|
    decreases |t|, 1
  {
    var first :- Read(t);
    if first.1 == [] then None
    else if first.1[0] == ']' as int then Some(([first.0], first.1[1..]))
    else if first.1[0] != ',' as int then None
    else
      var rest :- ReadItems(first.1[1..]);
      Some(([first.0] + rest.0, rest.1))
  }

  /** One member or more: a string, a colon and a value each; of two members under one name the later stands. */
  function ReadMembers(t: Text): (r: Option<(map<Text, Normal>, Text)>)
    ensures r.Some? ==> |r.value.1| < |t|
    decreases |t|, 1
  {
    if t == [] || t[0] != '"' as int then None
    else
      var key :- ReadString(t[1..]);
      if key.1 == [] || key.1[0] != ':' as int then None
      else
        var first :- Read(key.1[1..]);
        if first.1 == [] then None
        else if first.1[0] == '}' as int then Some((map[key.0 := first.0], first.1[1..]))
        else if first.1[0] != ',' as int then None
        else
          var rest :- ReadMembers(first.1[1..]);
          Some((map[key.0 := first.0] + rest.0, rest.1))
  }

  // ----- strings read back ------------------------------------------------------------------------------------

  lemma HexBack(d: nat)
    requires d < 16
    ensures HexValue(HexDigit(d)) == Some(d)
  {
  }

  lemma HexEscapeBack(c: CodeUnit, x: Text)
    ensures ReadUnit(HexEscape(c) + x) == Some((c, x))
  {
    var t := HexEscape(c) + x;
    HexBack(c / 4096);
    HexBack(c / 256 % 16);
    HexBack(c / 16 % 16);
    HexBack(c % 16);
    HexDigits(c);
    var h := t[2..];
    assert h[0] == HexEscape(c)[2] && h[1] == HexEscape(c)[3] && h[2] == HexEscape(c)[4] && h[3] == HexEscape(c)[5];
    assert t[6..] == x;
  }

  lemma UnitBack(c: CodeUnit, x: Text)
    ensures ReadUnit(QuoteUnit(c) + x) == Some((c, x)) && QuoteUnit(c)[0] != '"' as int
  {
    var t := QuoteUnit(c) + x;
    if ShortEscape(c) != 0 {
      assert t[0] == 0x5C && t[1] == ShortEscape(c) && t[2..] == x;
    } else if c < 0x20 || IsHigh(c) || IsLow(c) {
      HexEscapeBack(c, x);
    } else {
      assert t[0] == c && t[1..] == x;
    }
  }

  lemma PlainBack(c: CodeUnit, x: Text)
    requires IsHigh(c) || IsLow(c)
    ensures ReadUnit([c] + x) == Some((c, x))
  {
    assert ([c] + x)[1..] == x;
  }

  lemma ReadMore(t: Text, c: CodeUnit, rest: Text)
    requires ReadUnit(t) == Some((c, rest)) && ReadString(rest).Some?
    ensures ReadString(t) == Some(([c] + ReadString(rest).value.0, ReadString(rest).value.1))
  {
  }

  /** Once the rest of a string reads back, so does one step more of it. */
  lemma StepBack(s: Text, x: Text)
    requires s != [] && ReadString(QuoteBody(s[Step(s)..]) + ([0x22] + x)) == Some((s[Step(s)..], x))
    ensures ReadString(QuoteBody(s) + ([0x22] + x)) == Some((s, x))
  {
    hide ReadUnit, ReadString, QuoteUnit, QuoteBody;
    StepBody(s, [0x22] + x);
    var rest := QuoteBody(s[Step(s)..]) + ([0x22] + x);
    if StartsWithPair(s) {
      PairStep(s[0], s[1], rest);
      PlainBack(s[1], rest);
      ReadMore([s[1]] + rest, s[1], rest);
      PlainBack(s[0], [s[1]] + rest);
      ReadMore([s[0]] + ([s[1]] + rest), s[0], [s[1]] + rest);
      assert s == [s[0]] + ([s[1]] + s[2..]);
    } else {
      UnitBack(s[0], rest);
      ReadMore(QuoteUnit(s[0]) + rest, s[0], rest);
      assert s == [s[0]] + s[1..];
    }
  }

  lemma PairStep(a: CodeUnit, b: CodeUnit, rest: Text)
    ensures [a, b] + rest == [a] + ([b] + rest)
  {
  }

  lemma {:induction false} BodyBack(s: Text, x: Text)
    ensures ReadString(QuoteBody(s) + ([0x22] + x)) == Some((s, x))
    decreases |s|
  {
    if s == [] {
      var y := [0x22] + x;
      assert QuoteBody(s) + y == y && y[1..] == x;
    } else {
      hide ReadString, QuoteBody;
      BodyBack(s[Step(s)..], x);
      StepBack(s, x);
    }
  }

  lemma QuoteBack(s: Text, x: Text)
    ensures Quote(s) + x != [] && (Quote(s) + x)[0] == 0x22 && ReadString((Quote(s) + x)[1..]) == Some((s, x))
  {
    var t := Quote(s) + x;
    assert t == [0x22] + (QuoteBody(s) + ([0x22] + x));
    assert t[1..] == QuoteBody(s) + ([0x22] + x);
    BodyBack(s, x);
  }

  // ----- numbers read back ------------------------------------------------------------------------------------

  lemma {:induction false} NoLeadingZero(n: nat)
    ensures |Decimal(n)| > 1 ==> Decimal(n)[0] != 0x30
    decreases n
  {
    if n >= 10 {
      NoLeadingZero(n / 10);
      assert Decimal(n)[0] == Decimal(n / 10)[0];
      if n / 10 < 10 {
        assert Decimal(n / 10) == [0x30 + n / 10];
      }
    }
  }

  lemma {:induction false} RunOfDigits(d: Text, x: Text)
    requires AllDigits(d) && (x == [] || !IsDigit(x[0]))
    ensures DigitsOf(d + x) == |d|
  {
    if d == [] {
      assert d + x == x;
    } else {
      RunOfDigits(d[1..], x);
      assert (d + x)[1..] == d[1..] + x && (d + x)[0] == d[0];
    }
  }

  lemma NaturalBack(n: nat, x: Text)
    requires Stops(x)
    ensures ReadNatural(Decimal(n) + x) == Some((n, x)) && IsDigit((Decimal(n) + x)[0])
  {
    hide Decimal;
    var d := Decimal(n);
    RunOfDigits(d, x);
    NoLeadingZero(n);
    ValueOfDecimal(n);
    assert (d + x)[..|d|] == d && (d + x)[|d|..] == x && (d + x)[0] == d[0];
  }

  lemma NumberBack(n: int, x: Text)
    requires Stops(x)
    ensures ReadNumber(NumberText(n) + x) == Some((n, x))
  {
    hide ReadNatural, Decimal;
    if n < 0 {
      NaturalBack(-n, x);
      var t := NumberText(n) + x;
      assert t[0] == 0x2D && t[1..] == Decimal(-n) + x;
    } else {
      NaturalBack(n, x);
    }
  }

  // ----- values read back -------------------------------------------------------------------------------------

  lemma LiteralBack(word: string, v: Normal, t: Text, x: Text)
    requires word != "" && forall i :: 0 <= i < |word| ==> word[i] as int < 0x80
    requires t == Ascii(word) + x
    ensures ReadLiteral(t, word, v) == Some((v, x))
  {
    assert t[|word|..] == x;
  }

  lemma ScalarBack(v: Json, x: Text)
    requires Kind(v) <= 4 && Stops(x)
    ensures Read(CanonicalJson(v) + x) == Some((NormalForm(v), x))
  {
    hide ReadLiteral, ReadString, ReadNumber, Quote, NumberText;
    var t := CanonicalJson(v) + x;
    FirstUnit(v);
    assert t[0] == CanonicalJson(v)[0];
    if Kind(v) == 0 {
      LiteralBack("null", NNull, t, x);
    } else if Kind(v) == 1 {
      LiteralBack("true", NBool(true), t, x);
    } else if Kind(v) == 2 {
      LiteralBack("false", NBool(false), t, x);
    } else if Kind(v) == 3 {
      NumberBack(Number(v), x);
    } else {
      QuoteBack(v.s, x);
    }
  }

  lemma AfterStops(parts: seq<Text>, close: CodeUnit, x: Text)
    requires parts != [] && (close == 0x5D || close == 0x7D)
    ensures After(parts, close, x) != [] && Stops(After(parts, close, x))
    ensures After(parts, close, x)[0] == (if |parts| == 1 then close else 0x2C)
    ensures After(parts, close, x)[1..] == if |parts| == 1 then x else Join(parts[1..]) + ([close] + x)
  {
  }

  function Normals(items: seq<Json>): seq<Normal> {
    seq(|items|, i requires 0 <= i < |items| => NormalForm(items[i]))
  }

  lemma ItemRead(t: Text, v: Normal, rest: Text)
    requires Read(t) == Some((v, rest)) && rest != []
    ensures rest[0] == 0x5D ==> ReadItems(t) == Some(([v], rest[1..]))
    ensures rest[0] == 0x2C && ReadItems(rest[1..]).Some? ==>
      ReadItems(t) == Some(([v] + ReadItems(rest[1..]).value.0, ReadItems(rest[1..]).value.1))
  {
  }

  lemma {:induction false} ItemsBack(whole: Json, a: seq<Json>, x: Text)
    requires a != [] && forall i :: 0 <= i < |a| ==> a[i] < whole && WellKeyed(a[i])
    ensures ReadItems(Join(ItemTexts(a)) + ([0x5D] + x)) == Some((Normals(a), x))
    decreases whole, 0, |a|
  {
    hide CanonicalJson, NormalForm, Join, ItemTexts, Read, ReadItems, After;
    var p := ItemTexts(a);
    OpenParts(p, 0x5D, x);
    ItemTextsFrom(a);
    assert |p| == |a| by { ItemCount(a); }
    var rest := After(p, 0x5D, x);
    AfterStops(p, 0x5D, x);
    ReadBack(a[0], rest);
    ItemRead(p[0] + rest, NormalForm(a[0]), rest);
    if |a| > 1 {
      ItemsBack(whole, a[1..], x);
      assert Normals(a) == [NormalForm(a[0])] + Normals(a[1..]);
    } else {
      assert Normals(a) == [NormalForm(a[0])];
    }
  }

  lemma ItemCount(a: seq<Json>)
    ensures |ItemTexts(a)| == |a|
  {
  }

  function MapOf(entries: seq<Field>): map<Text, Normal> {
    if entries == [] then map[]
    else map[entries[0].key := NormalForm(entries[0].value)] + MapOf(entries[1..])
  }

  lemma {:induction false} MapOfHolds(entries: seq<Field>)
    requires Ascending(entries)
    ensures forall k :: k in MapOf(entries) <==> exists f :: f in entries && f.key == k
    ensures forall f :: f in entries ==> f.key in MapOf(entries) && MapOf(entries)[f.key] == NormalForm(f.value)
  {
    hide NormalForm;
    if entries != [] {
      var first, rest := entries[0], entries[1..];
      MapOfHolds(rest);
      assert forall f :: f in entries <==> f == first || f in rest;
      forall f | f in rest ensures f.key != first.key {
        var i :| 0 <= i < |rest| && rest[i] == f;
        assert Less(entries[0].key, entries[i + 1].key);
        LessTotal(first.key, first.key);
      }
    }
  }

  lemma MapOfEntries(fields: seq<Field>)
    requires DistinctKeys(fields)
    ensures NObj(MapOf(Entries(fields))) == NormalForm(Obj(fields))
  {
    hide NormalForm, Entries;
    ObjectNormal(fields);
    EntriesAscending(fields);
    MapOfHolds(Entries(fields));
    assert MapOf(Entries(fields)) == NormalForm(Obj(fields)).entries;
  }

  lemma MemberRead(t: Text, key: Text, u: Text, v: Normal, rest: Text)
    requires t != [] && t[0] == 0x22 && ReadString(t[1..]) == Some((key, [0x3A] + u))
    requires Read(u) == Some((v, rest)) && rest != []
    ensures rest[0] == 0x7D ==> ReadMembers(t) == Some((map[key := v], rest[1..]))
    ensures rest[0] == 0x2C && ReadMembers(rest[1..]).Some? ==>
      ReadMembers(t) == Some((map[key := v] + ReadMembers(rest[1..]).value.0, ReadMembers(rest[1..]).value.1))
  {
    assert ([0x3A] + u)[1..] == u;
  }

  lemma {:induction false} MembersBack(whole: Json, a: seq<Field>, x: Text)
    requires a != [] && forall i :: 0 <= i < |a| ==> a[i].value < whole && WellKeyed(a[i].value)
    ensures ReadMembers(Join(EntryTexts(a)) + ([0x7D] + x)) == Some((MapOf(a), x))
    decreases whole, 0, |a|
  {
    hide CanonicalJson, NormalForm, Join, EntryTexts, Read, ReadMembers, ReadString, After, Quote;
    var p := EntryTexts(a);
    OpenParts(p, 0x7D, x);
    EntryTextsFrom(a);
    assert |p| == |a| by { EntryCount(a); }
    var rest := After(p, 0x7D, x);
    AfterStops(p, 0x7D, x);
    var u := CanonicalJson(a[0].value) + rest;
    EntryOpens(a[0], rest);
    QuoteBack(a[0].key, [0x3A] + u);
    ReadBack(a[0].value, rest);
    MemberRead(p[0] + rest, a[0].key, u, NormalForm(a[0].value), rest);
    if |a| > 1 {
      MembersBack(whole, a[1..], x);
    } else {
      assert MapOf(a) == map[a[0].key := NormalForm(a[0].value)];
    }
  }

  lemma EntryCount(a: seq<Field>)
    ensures |EntryTexts(a)| == |a|
  {
  }

  /**
   * Canonical text read as JSON gives the normal form of the value it was made from, and leaves what follows
   * it: the printer means what the standard says the text means.
   */
  lemma {:induction false} ReadBack(v: Json, x: Text)
    requires WellKeyed(v) && Stops(x)
    ensures Read(CanonicalJson(v) + x) == Some((NormalForm(v), x))
    decreases v, 1, 0
  {
    if Kind(v) <= 4 {
      ScalarBack(v, x);
    } else if Kind(v) == 5 {
      OpenArray(v.items, x);
      if v.items != [] { ItemsBack(v, v.items, x); }
      ArrayRead(v, x);
    } else {
      OpenObject(v.fields, x);
      EntryValues(v);
      if Entries(v.fields) != [] { MembersBack(v, Entries(v.fields), x); }
      ObjectRead(v, x);
    }
  }

  lemma ArrayRead(v: Json, x: Text)
    requires v.Arr?
    requires v.items != [] ==> ReadItems(Join(ItemTexts(v.items)) + ([0x5D] + x)) == Some((Normals(v.items), x))
    ensures Read(CanonicalJson(v) + x) == Some((NormalForm(v), x))
  {
    hide CanonicalJson, ReadItems, ReadMembers, ReadNumber, ReadString, ReadLiteral, Join, ItemTexts;
    OpenArray(v.items, x);
    var t, inner := CanonicalJson(v) + x, Join(ItemTexts(v.items)) + ([0x5D] + x);
    assert t[0] == 0x5B && t[1..] == inner;
    OpenParts(ItemTexts(v.items), 0x5D, x);
    assert NormalForm(v).items == Normals(v.items);
    if v.items == [] {
      NoParts(v.items);
      assert t[1] == inner[0] && t[2..] == x;
    } else {
      ItemTextsFrom(v.items);
      ItemCount(v.items);
      assert t[1] == inner[0] == ItemTexts(v.items)[0][0] && ItemTexts(v.items)[0][0] != 0x5D;
    }
  }

  lemma NoParts(items: seq<Json>)
    ensures items == [] ==> ItemTexts(items) == []
  {
  }

  lemma ObjectRead(v: Json, x: Text)
    requires v.Obj? && WellKeyed(v)
    requires var e := Entries(v.fields);
      e != [] ==> ReadMembers(Join(EntryTexts(e)) + ([0x7D] + x)) == Some((MapOf(e), x))
    ensures Read(CanonicalJson(v) + x) == Some((NormalForm(v), x))
  {
    hide CanonicalJson, NormalForm, ReadItems, ReadMembers, ReadNumber, ReadString, ReadLiteral, Join, EntryTexts, Entries;
    var e := Entries(v.fields);
    OpenObject(v.fields, x);
    MapOfEntries(v.fields);
    var t, inner := CanonicalJson(v) + x, Join(EntryTexts(e)) + ([0x7D] + x);
    assert t[0] == 0x7B && t[1..] == inner;
    OpenParts(EntryTexts(e), 0x7D, x);
    if e == [] {
      NoEntries(e);
      assert t[1] == inner[0] && t[2..] == x;
    } else {
      EntryTextsFrom(e);
      EntryCount(e);
      assert t[1] == inner[0] == EntryTexts(e)[0][0] == 0x22;
    }
  }

  lemma NoEntries(e: seq<Field>)
    ensures e == [] ==> EntryTexts(e) == []
  {
  }

  // ----- what is escaped, and how --------------------------------------------------------------------------------

  /** A surrogate that is half of no pair. */
  predicate Lone(s: Text, i: nat)
    requires i < |s|
  {
    || (IsHigh(s[i]) && !(i + 1 < |s| && IsLow(s[i + 1])))
    || (IsLow(s[i]) && !(i > 0 && IsHigh(s[i - 1])))
  }

  /** A quote, a backslash, a control or a lone surrogate; every other unit is printed as it is. */
  predicate MustEscape(s: Text, i: nat)
    requires i < |s|
  {
    s[i] == '"' as int || s[i] == '\\' as int || s[i] < 0x20 || Lone(s, i)
  }

  /** One of the texts a reader takes for this one unit, with lower-case hex digits. */
  ghost predicate Escapes(t: Text, c: CodeUnit) {
    && |t| >= 2 && t[0] == '\\' as int && ReadUnit(t) == Some((c, []))
    && (|t| == 6 ==> forall i :: 2 <= i < 6 ==> IsDigit(t[i]) || 'a' as int <= t[i] <= 'f' as int)
  }

  /** The shortest of them. */
  ghost predicate IsShortestEscape(t: Text, c: CodeUnit) {
    Escapes(t, c) && forall u :: Escapes(u, c) ==> |t| <= |u|
  }

  function UnitText(s: Text, i: nat): Text
    requires i < |s|
  {
    if MustEscape(s, i) then QuoteUnit(s[i]) else [s[i]]
  }

  function UnitTexts(s: Text): seq<Text> {
    seq(|s|, i requires 0 <= i < |s| => UnitText(s, i))
  }

  function Flat(parts: seq<Text>): Text {
    if parts == [] then [] else parts[0] + Flat(parts[1..])
  }

  lemma ShortestEscape(s: Text, i: nat)
    requires i < |s| && MustEscape(s, i)
    ensures IsShortestEscape(UnitText(s, i), s[i])
  {
    var c := s[i];
    var t := QuoteUnit(c);
    UnitBack(c, []);
    assert t + [] == t;
    if |t| == 6 {
      forall u | Escapes(u, c) ensures |u| >= 6 {
        if |u| < 6 { NoShorter(u, c); }
      }
    }
  }

  /** A unit without a letter has no escape of less than six characters. */
  lemma NoShorter(u: Text, c: CodeUnit)
    requires Escapes(u, c) && |u| < 6 && c != 0x2F
    ensures ShortEscape(c) != 0
  {
  }

  /** Text is printed unit by unit: escaped exactly where it must be, by the shortest escape, and as it is elsewhere. */
  lemma {:induction false} PrintedByUnit(s: Text)
    ensures QuoteBody(s) == Flat(UnitTexts(s))
    decreases |s|
  {
    hide QuoteUnit;
    if s != [] {
      var k := Step(s);
      PrintedByUnit(s[k..]);
      StepUnits(s);
      FlatSplit(UnitTexts(s), k);
      assert QuoteBody(s) == StepText(s) + QuoteBody(s[k..]);
    }
  }

  lemma StepUnits(s: Text)
    requires s != []
    ensures Flat(UnitTexts(s)[..Step(s)]) == StepText(s)
    ensures UnitTexts(s)[Step(s)..] == UnitTexts(s[Step(s)..])
  {
    var k := Step(s);
    var rest := s[k..];
    forall i | 0 <= i < |rest| ensures UnitText(s, k + i) == UnitText(rest, i) {
      assert s[k + i] == rest[i];
    }
    var u, none: seq<Text> := UnitTexts(s), [];
    if k == 2 {
      assert u[..2] == [[s[0]], [s[1]]] && u[..2][1..] == [[s[1]]] && u[..2][1..][1..] == none;
      assert Flat([[s[1]]]) == [s[1]];
    } else {
      PlainUnit(s);
      assert u[..1] == [UnitText(s, 0)] && u[..1][1..] == none;
    }
  }

  lemma PlainUnit(s: Text)
    requires s != [] && !StartsWithPair(s)
    ensures UnitText(s, 0) == QuoteUnit(s[0])
  {
  }

  lemma {:induction false} FlatSplit(parts: seq<Text>, k: nat)
    requires k <= |parts|
    ensures Flat(parts) == Flat(parts[..k]) + Flat(parts[k..])
  {
    if k > 0 {
      FlatSplit(parts[1..], k - 1);
      assert parts[..k][1..] == parts[1..][..k - 1] && parts[1..][k - 1..] == parts[k..];
    } else {
      assert parts[0..] == parts;
    }
  }

  // ----- the order of the members -----------------------------------------------------------------------------------

  ghost predicate ListsLive(list: seq<Field>, fields: seq<Field>) {
    Ascending(list) && forall f :: f in list <==> f in fields && !f.value.Omitted?
  }

  /** An object's text lists its surviving members, each once, in ascending order of their names. */
  lemma ObjectInOrder(fields: seq<Field>)
    requires DistinctKeys(fields)
    ensures exists list :: (ListsLive(list, fields) && CanonicalJson(Obj(fields)) == [0x7B] + Join(EntryTexts(list)) + [0x7D])
  {
    EntriesAscending(fields);
    ObjectText(fields);
    assert ListsLive(Entries(fields), fields);
  }

  predicate NoneLone(s: Text) {
    forall i :: 0 <= i < |s| ==> !Lone(s, i)
  }

  lemma NoneLoneStep(s: Text)
    requires s != []
    ensures NoneLone(s) <==> !Lone(s, 0) && (Step(s) == 2 ==> !Lone(s, 1)) && NoneLone(s[Step(s)..])
  {
    var k := Step(s);
    var rest := s[k..];
    forall i | 0 <= i < |rest| ensures Lone(s, k + i) <==> Lone(rest, i) {
      assert s[k + i] == rest[i];
    }
    if NoneLone(rest) {
      forall i | k <= i < |s| ensures !Lone(s, i) {
        assert !Lone(rest, i - k) && Lone(s, k + (i - k)) <==> Lone(rest, i - k);
      }
    }
    if NoneLone(s) {
      forall i | 0 <= i < |rest| ensures !Lone(rest, i) {
        assert !Lone(s, k + i);
      }
    }
  }

  /** Text is well-formed exactly when it holds no lone surrogate. */
  lemma {:induction false} WellFormedExact(s: Text)
    ensures WellFormed(s) <==> NoneLone(s)
    decreases |s|
  {
    hide NoneLone;
    if s != [] {
      NoneLoneStep(s);
      WellFormedExact(s[Step(s)..]);
    } else {
      NothingLone();
    }
  }

  lemma NothingLone()
    ensures NoneLone([])
  {
  }
}
