/**
 * `packages/domain/src/canonical.ts`: the one serializer under every hash, audit link and
 * read-model comparison, and what makes its text unambiguous.
 */
module Canonical {
  import opened Text16

  /**
   * A JavaScript value as the serializer sees it. `Omitted` is `undefined`, a function or a
   * symbol; `NegZero` is the number -0.
   */
  datatype Json =
    | Omitted
    | Null
    | Bool(b: bool)
    | Num(n: SafeInt)
    | NegZero
    | Str(s: Text)
    | Arr(items: seq<Json>)
    | Obj(fields: seq<Field>)

  datatype Field = Field(key: Text, value: Json)

  predicate IsJsonOmitted(v: Json) {
    v.Omitted?
  }

  predicate DistinctKeys(fields: seq<Field>) {
    forall i, j :: 0 <= i < j < |fields| ==> fields[i].key != fields[j].key
  }

  /** Every object in the value has each key once, as every JavaScript object has. */
  predicate WellKeyed(v: Json) {
    match v
    case Arr(items) => forall i :: 0 <= i < |items| ==> WellKeyed(items[i])
    case Obj(fields) =>
      DistinctKeys(fields) && forall i :: 0 <= i < |fields| ==> WellKeyed(fields[i].value)
    case _ => true
  }

  // ----- JSON.stringify on strings (section 7 of RFC 8259) -------------------------------

  function HexDigit(d: nat): (c: CodeUnit)
    requires d < 16
  {
    if d < 10 then 0x30 + d else 0x61 + (d - 10)
  }

  function HexEscape(c: CodeUnit): (t: Text)
    ensures |t| == 6 && t[0] == 0x5C && t[1] == 0x75
  {
    [0x5C, 0x75, HexDigit(c / 4096), HexDigit(c / 256 % 16), HexDigit(c / 16 % 16), HexDigit(c % 16)]
  }

  /** The letter of a two-character escape, or 0 for a unit that has none. */
  function ShortEscape(c: CodeUnit): CodeUnit {
    match c
    case 0x22 => 0x22
    case 0x5C => 0x5C
    case 0x08 => 0x62
    case 0x09 => 0x74
    case 0x0A => 0x6E
    case 0x0C => 0x66
    case 0x0D => 0x72
    case _ => 0
  }

  /** One code unit that is not part of a surrogate pair. */
  function QuoteUnit(c: CodeUnit): (t: Text)
    ensures |t| > 0
  {
    if ShortEscape(c) != 0 then [0x5C, ShortEscape(c)]
    else if c < 0x20 || IsHigh(c) || IsLow(c) then HexEscape(c)
    else [c]
  }

  function QuoteBody(s: Text): Text {
    if s == [] then []
    else if StartsWithPair(s) then [s[0], s[1]] + QuoteBody(s[2..])
    else QuoteUnit(s[0]) + QuoteBody(s[1..])
  }

  function Quote(s: Text): Text {
    [0x22] + QuoteBody(s) + [0x22]
  }

  // ----- canonicalJson --------------------------------------------------------------------

  const NULL_TEXT: Text := [0x6E, 0x75, 0x6C, 0x6C]
  const TRUE_TEXT: Text := [0x74, 0x72, 0x75, 0x65]
  const FALSE_TEXT: Text := [0x66, 0x61, 0x6C, 0x73, 0x65]

  function NumberText(n: int): Text {
    if n < 0 then [0x2D] + Decimal(-n) else Decimal(n)
  }

  function Join(parts: seq<Text>): Text {
    if parts == [] then []
    else if |parts| == 1 then parts[0]
    else parts[0] + [0x2C] + Join(parts[1..])
  }

  /** The entries whose value survives, in insertion order. */
  function Live(fields: seq<Field>): (r: seq<Field>)
    ensures forall f :: f in r <==> f in fields && !IsJsonOmitted(f.value)
  {
    if fields == [] then []
    else if IsJsonOmitted(fields[0].value) then Live(fields[1..])
    else [fields[0]] + Live(fields[1..])
  }

  function Insert(f: Field, sorted: seq<Field>): (r: seq<Field>)
    ensures forall g :: g in r <==> g == f || g in sorted
  {
    if sorted == [] || Less(f.key, sorted[0].key) then [f] + sorted
    else [sorted[0]] + Insert(f, sorted[1..])
  }

  /** Entries in ascending UTF-16 code-unit order of key (section 3.2.3 of RFC 8785). */
  function SortByKey(fields: seq<Field>): (r: seq<Field>)
    ensures forall f :: f in r <==> f in fields
  {
    if fields == [] then [] else Insert(fields[0], SortByKey(fields[1..]))
  }

  function CanonicalJson(value: Json): Text
    decreases value
  {
    match value
    case Arr(items) =>
      var parts := seq(|items|, i requires 0 <= i < |items| =>
        if IsJsonOmitted(items[i]) then NULL_TEXT else CanonicalJson(items[i]));
      [0x5B] + Join(parts) + [0x5D]
    case Obj(fields) =>
      var entries := SortByKey(Live(fields));
      assert forall i :: 0 <= i < |entries| ==> entries[i] in fields;
      var parts := seq(|entries|, i requires 0 <= i < |entries| =>
        Quote(entries[i].key) + [0x3A] + CanonicalJson(entries[i].value));
      [0x7B] + Join(parts) + [0x7D]
    case Str(s) => Quote(s)
    case Num(n) => NumberText(n)
    case NegZero => NumberText(0)
    case Bool(b) => if b then TRUE_TEXT else FALSE_TEXT
    case Null => NULL_TEXT
    case Omitted => NULL_TEXT
  }

  // ----- the JSON normal form: the value a serialized text stands for ---------------------

  /** Objects are finite maps; nothing omitted, no -0 and no insertion order is left. */
  datatype Normal =
    | NNull
    | NBool(b: bool)
    | NNum(n: int)
    | NStr(s: Text)
    | NArr(items: seq<Normal>)
    | NObj(entries: map<Text, Normal>)

  function LiveKeys(fields: seq<Field>): set<Text> {
    set f | f in Live(fields) :: f.key
  }

  function Lookup(fields: seq<Field>, k: Text): (v: Json)
    requires exists f :: f in fields && f.key == k
    ensures Field(k, v) in fields
  {
    if fields[0].key == k then fields[0].value else Lookup(fields[1..], k)
  }

  function NormalForm(value: Json): Normal
    decreases value
  {
    match value
    case Arr(items) =>
      NArr(seq(|items|, i requires 0 <= i < |items| => NormalForm(items[i])))
    case Obj(fields) =>
      var live := Live(fields);
      NObj(map k | k in LiveKeys(fields) ::
        var v := Lookup(live, k);
        assert Field(k, v) in fields;
        NormalForm(v))
    case Str(s) => NStr(s)
    case Num(n) => NNum(n)
    case NegZero => NNum(0)
    case Bool(b) => NBool(b)
    case Null => NNull
    case Omitted => NNull
  }
}
