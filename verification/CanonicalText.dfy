/**
 * The parts of a canonical text: what each value prints, with what follows it, and the sorted entries of an object.
 */
module CanonicalText {
  import opened Text16
  import opened Canonical

  // ----- the text of an array and of an object, by their parts ---------------------------

  function ItemText(v: Json): Text {
    if IsJsonOmitted(v) then NULL_TEXT else CanonicalJson(v)
  }

  function EntryText(f: Field): Text {
    Quote(f.key) + [0x3A] + CanonicalJson(f.value)
  }

  function Entries(fields: seq<Field>): (r: seq<Field>)
    ensures forall f :: f in r <==> f in fields && !IsJsonOmitted(f.value)
  {
    SortByKey(Live(fields))
  }

  function ItemTexts(items: seq<Json>): seq<Text> {
    seq(|items|, i requires 0 <= i < |items| => ItemText(items[i]))
  }

  function EntryTexts(entries: seq<Field>): seq<Text> {
    seq(|entries|, i requires 0 <= i < |entries| => EntryText(entries[i]))
  }

  lemma ArrayText(items: seq<Json>)
    ensures CanonicalJson(Arr(items)) == [0x5B] + Join(ItemTexts(items)) + [0x5D]
  {
    var parts := seq(|items|, i requires 0 <= i < |items| =>
      if IsJsonOmitted(items[i]) then NULL_TEXT else CanonicalJson(items[i]));
    assert parts == ItemTexts(items);
  }

  lemma ObjectText(fields: seq<Field>)
    ensures CanonicalJson(Obj(fields)) == [0x7B] + Join(EntryTexts(Entries(fields))) + [0x7D]
  {
    var entries := SortByKey(Live(fields));
    var parts := seq(|entries|, i requires 0 <= i < |entries| =>
      Quote(entries[i].key) + [0x3A] + CanonicalJson(entries[i].value));
    assert parts == EntryTexts(entries);
  }

  // ----- strings --------------------------------------------------------------------------

  lemma HexDigits(c: CodeUnit)
    ensures c == c / 4096 * 4096 + c / 256 % 16 * 256 + c / 16 % 16 * 16 + c % 16
  {
    assert c / 4096 == c / 256 / 16 && c / 256 == c / 16 / 16;
  }

  /** How many code units the next step of `QuoteBody` takes, and what it prints for them. */
  function Step(s: Text): nat
    requires s != []
  {
    if StartsWithPair(s) then 2 else 1
  }

  function StepText(s: Text): (t: Text)
    requires s != []
    ensures t != []
  {
    if StartsWithPair(s) then [s[0], s[1]] else QuoteUnit(s[0])
  }

  lemma StepBody(s: Text, x: Text)
    requires s != []
    ensures QuoteBody(s) + x == StepText(s) + (QuoteBody(s[Step(s)..]) + x)
  {
  }

  // ----- sorted entries -------------------------------------------------------------------

  predicate Ascending(fields: seq<Field>) {
    forall i, j :: 0 <= i < j < |fields| ==> Less(fields[i].key, fields[j].key)
  }

  lemma {:induction false} LiveDistinct(fields: seq<Field>)
    requires DistinctKeys(fields)
    ensures DistinctKeys(Live(fields))
  {
    if fields != [] {
      LiveDistinct(fields[1..]);
      var rest := Live(fields[1..]);
      assert forall i :: 0 <= i < |rest| ==> rest[i] in rest && rest[i] in fields[1..];
    }
  }

  lemma {:induction false} InsertAscending(f: Field, sorted: seq<Field>)
    requires Ascending(sorted)
    requires forall g :: g in sorted ==> g.key != f.key
    ensures Ascending(Insert(f, sorted))
  {
    if sorted != [] {
      var r := Insert(f, sorted);
      if Less(f.key, sorted[0].key) {
        forall j | 0 <= j < |sorted| ensures Less(f.key, sorted[j].key) {
          if j > 0 {
            LessTransitive(f.key, sorted[0].key, sorted[j].key);
          }
        }
      } else {
        LessTotal(f.key, sorted[0].key);
        assert sorted[0] in sorted;
        var tail := Insert(f, sorted[1..]);
        InsertAscending(f, sorted[1..]);
        assert r == [sorted[0]] + tail;
        forall j | 0 <= j < |tail| ensures Less(sorted[0].key, tail[j].key) {
          assert tail[j] in tail;
          if tail[j] != f {
            var k :| 0 <= k < |sorted[1..]| && sorted[1..][k] == tail[j];
            assert sorted[k + 1] == tail[j];
          }
        }
      }
    }
  }

  lemma {:induction false} SortAscending(fields: seq<Field>)
    requires DistinctKeys(fields)
    ensures Ascending(SortByKey(fields))
  {
    if fields != [] {
      SortAscending(fields[1..]);
      forall g | g in SortByKey(fields[1..]) ensures g.key != fields[0].key {
        var k :| 0 <= k < |fields[1..]| && fields[1..][k] == g;
        assert fields[k + 1] == g;
      }
      InsertAscending(fields[0], SortByKey(fields[1..]));
    }
  }

  lemma EntriesAscending(fields: seq<Field>)
    requires DistinctKeys(fields)
    ensures Ascending(Entries(fields))
  {
    LiveDistinct(fields);
    SortAscending(Live(fields));
  }

  /** An object's normal form, read off its sorted entries. */
  lemma ObjectNormal(fields: seq<Field>)
    requires DistinctKeys(fields)
    ensures NormalForm(Obj(fields)).NObj?
    ensures NormalForm(Obj(fields)).entries.Keys == set f | f in Entries(fields) :: f.key
    ensures forall f :: f in Entries(fields) ==>
      f.key in NormalForm(Obj(fields)).entries && NormalForm(Obj(fields)).entries[f.key] == NormalForm(f.value)
  {
    var live := Live(fields);
    LiveDistinct(fields);
    var m := NormalForm(Obj(fields)).entries;
    assert m.Keys == LiveKeys(fields);
    forall f | f in Entries(fields) ensures f.key in m && m[f.key] == NormalForm(f.value) {
      assert f.key in LiveKeys(fields);
      var g := Field(f.key, Lookup(live, f.key));
      assert f in live && g in live;
      assert g == f;
    }
  }

  // ----- texts with what follows them ---------------------------------------------------

  /** What may follow a value inside a text: nothing, a comma or a closing bracket. */
  predicate Stops(x: Text) {
    x == [] || x[0] == 0x2C || x[0] == 0x5D || x[0] == 0x7D
  }

  /** Values whose texts open with the same character are of the same kind. */
  function Kind(v: Json): int {
    match v
    case Omitted => 0
    case Null => 0
    case Bool(b) => if b then 1 else 2
    case Num(_) => 3
    case NegZero => 3
    case Str(_) => 4
    case Arr(_) => 5
    case Obj(_) => 6
  }

  function KindOfUnit(c: CodeUnit): int {
    if c == 0x6E then 0 else if c == 0x74 then 1 else if c == 0x66 then 2
    else if c == 0x2D || IsDigit(c) then 3 else if c == 0x22 then 4
    else if c == 0x5B then 5 else if c == 0x7B then 6 else 7
  }

  lemma FirstUnit(v: Json)
    ensures |CanonicalJson(v)| > 0 && KindOfUnit(CanonicalJson(v)[0]) == Kind(v)
  {
    match v
    case Arr(items) => ArrayText(items);
    case Obj(fields) => ObjectText(fields);
    case Num(n) => assert IsDigit(Decimal(if n < 0 then -n else n)[0]);
    case NegZero => assert IsDigit(Decimal(0)[0]);
    case _ =>
  }

  function Number(v: Json): int
    requires Kind(v) == 3
  {
    if v.NegZero? then 0 else v.n
  }

  lemma OpenArray(items: seq<Json>, x: Text)
    ensures CanonicalJson(Arr(items)) + x == [0x5B] + (Join(ItemTexts(items)) + ([0x5D] + x))
  {
    ArrayText(items);
  }

  lemma OpenObject(fields: seq<Field>, x: Text)
    ensures CanonicalJson(Obj(fields)) + x == [0x7B] + (Join(EntryTexts(Entries(fields))) + ([0x7D] + x))
  {
    ObjectText(fields);
  }

  lemma EntryValues(v: Json)
    requires v.Obj? && WellKeyed(v)
    ensures forall i :: 0 <= i < |Entries(v.fields)| ==>
      Entries(v.fields)[i].value < v && WellKeyed(Entries(v.fields)[i].value)
  {
    var e := Entries(v.fields);
    assert forall i :: 0 <= i < |e| ==> e[i] in v.fields;
  }

  /** What a bracketed list prints after its first part, with what follows the list. */
  function After(parts: seq<Text>, close: CodeUnit, x: Text): Text
    requires parts != []
  {
    if |parts| == 1 then [close] + x else [0x2C] + (Join(parts[1..]) + ([close] + x))
  }

  lemma OpenParts(parts: seq<Text>, close: CodeUnit, x: Text)
    ensures parts == [] ==> Join(parts) + ([close] + x) == [close] + x
    ensures parts != [] ==> Join(parts) + ([close] + x) == parts[0] + After(parts, close, x)
    ensures parts != [] && parts[0] != [] ==> (Join(parts) + ([close] + x))[0] == parts[0][0]
  {
    if |parts| > 1 {
      var rest := Join(parts[1..]);
      Assoc(parts[0], [0x2C], rest);
      Assoc(parts[0], [0x2C] + rest, [close] + x);
      Assoc([0x2C], rest, [close] + x);
    }
  }

  lemma ItemTextsFrom(a: seq<Json>)
    requires a != []
    ensures ItemTexts(a)[0] == CanonicalJson(a[0]) && ItemTexts(a)[1..] == ItemTexts(a[1..])
    ensures ItemTexts(a)[0] != [] && ItemTexts(a)[0][0] != 0x5D
  {
    FirstUnit(a[0]);
    assert ItemText(a[0]) == CanonicalJson(a[0]);
  }

  lemma EntryTextsFrom(a: seq<Field>)
    requires a != []
    ensures EntryTexts(a)[0] == EntryText(a[0]) && EntryTexts(a)[1..] == EntryTexts(a[1..])
    ensures EntryTexts(a)[0] != [] && EntryTexts(a)[0][0] == 0x22
  {
  }

  lemma EntryOpens(f: Field, x: Text)
    ensures EntryText(f) + x == Quote(f.key) + ([0x3A] + (CanonicalJson(f.value) + x))
  {
    Assoc(Quote(f.key) + [0x3A], CanonicalJson(f.value), x);
    Assoc(Quote(f.key), [0x3A], CanonicalJson(f.value) + x);
  }
}
