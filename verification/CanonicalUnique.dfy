/**
 * Unique readability of the canonical text: two values print alike exactly when they have the
 * same JSON normal form, at any nesting, and the text is always well-formed UTF-16.
 */
module CanonicalUnique {
  import opened Wrappers
  import opened Text16
  import opened Canonical
  import opened CanonicalText
  import opened JsonReader

  // ----- sorted entries -------------------------------------------------------------------

  /** Ascending key lists over the same keys are the same list. */
  lemma {:induction false} AscendingSameKeys(a: seq<Field>, b: seq<Field>)
    requires Ascending(a) && Ascending(b)
    requires (set f | f in a :: f.key) == (set f | f in b :: f.key)
    ensures |a| == |b| && forall i :: 0 <= i < |a| ==> a[i].key == b[i].key
  {
    var ka, kb := set f | f in a :: f.key, set f | f in b :: f.key;
    assert a != [] ==> a[0].key in ka;
    assert b != [] ==> b[0].key in kb;
    if a != [] && b != [] {
      assert a[0].key in kb && b[0].key in ka;
      var i :| 0 <= i < |b| && b[i].key == a[0].key;
      var j :| 0 <= j < |a| && a[j].key == b[0].key;
      LessTotal(a[0].key, b[0].key);
      assert a[0].key == b[0].key;
      RestKeys(a);
      RestKeys(b);
      AscendingSameKeys(a[1..], b[1..]);
    }
  }

  lemma RestKeys(a: seq<Field>)
    requires Ascending(a) && a != []
    ensures (set f | f in a[1..] :: f.key) == (set f | f in a :: f.key) - {a[0].key}
  {
    LessTotal(a[0].key, a[0].key);
    var all, rest := set f | f in a :: f.key, set f | f in a[1..] :: f.key;
    forall k | k in rest ensures k in all && k != a[0].key {
      var i :| 0 <= i < |a[1..]| && a[1..][i].key == k;
      assert a[i + 1].key == k && a[i + 1] in a;
    }
    forall k | k in all && k != a[0].key ensures k in rest {
      var i :| 0 <= i < |a| && a[i].key == k;
      assert a[1..][i - 1].key == k;
    }
  }

  // ----- unique readability ---------------------------------------------------------------

  /** Two canonical texts that are equal, with what follows them, stand for one value: a reader has one answer. */
  lemma TextUnique(a: Json, x: Text, b: Json, y: Text)
    requires WellKeyed(a) && WellKeyed(b) && Stops(x) && Stops(y)
    requires CanonicalJson(a) + x == CanonicalJson(b) + y
    ensures NormalForm(a) == NormalForm(b) && x == y
  {
    ReadBack(a, x);
    ReadBack(b, y);
  }

  lemma SameItemsSameNormal(a: seq<Json>, b: seq<Json>)
    requires |a| == |b| && forall i :: 0 <= i < |a| ==> NormalForm(a[i]) == NormalForm(b[i])
    ensures NormalForm(Arr(a)) == NormalForm(Arr(b))
  {
    assert NormalForm(Arr(a)).items == NormalForm(Arr(b)).items;
  }

  predicate SameEntries(a: seq<Field>, b: seq<Field>) {
    |a| == |b| && forall i :: 0 <= i < |a| ==>
      a[i].key == b[i].key && NormalForm(a[i].value) == NormalForm(b[i].value)
  }

  /** `list` holds the surviving entries of `fields`, in some order. */
  ghost predicate Lists(list: seq<Field>, fields: seq<Field>) {
    forall f :: f in list <==> f in Entries(fields)
  }

  /** Objects whose surviving entries agree, listed in any order, have one normal form. */
  lemma SameEntriesSameNormal(a: seq<Field>, la: seq<Field>, b: seq<Field>, lb: seq<Field>)
    requires DistinctKeys(a) && DistinctKeys(b)
    requires Lists(la, a) && Lists(lb, b) && SameEntries(la, lb)
    ensures NormalForm(Obj(a)) == NormalForm(Obj(b))
  {
    SubEntries(a, la, b, lb);
    SubEntries(b, lb, a, la);
    hide NormalForm, DistinctKeys, Lists, SameEntries;
    SameMaps(NormalForm(Obj(a)), NormalForm(Obj(b)));
  }

  lemma SameMaps(x: Normal, y: Normal)
    requires x.NObj? && y.NObj?
    requires forall k :: k in x.entries ==> k in y.entries && x.entries[k] == y.entries[k]
    requires forall k :: k in y.entries ==> k in x.entries
    ensures x == y
  {
    assert x.entries == y.entries;
  }

  lemma SubEntries(a: seq<Field>, la: seq<Field>, b: seq<Field>, lb: seq<Field>)
    requires DistinctKeys(a) && DistinctKeys(b)
    requires Lists(la, a) && Lists(lb, b) && SameEntries(la, lb)
    ensures NormalForm(Obj(a)).NObj? && NormalForm(Obj(b)).NObj?
    ensures forall k :: k in NormalForm(Obj(a)).entries ==>
      k in NormalForm(Obj(b)).entries && NormalForm(Obj(a)).entries[k] == NormalForm(Obj(b)).entries[k]
  {
    ObjectNormal(a);
    ObjectNormal(b);
    var ma, mb := NormalForm(Obj(a)).entries, NormalForm(Obj(b)).entries;
    forall k | k in ma ensures k in mb && ma[k] == mb[k] {
      var f :| f in Entries(a) && f.key == k;
      var i :| 0 <= i < |la| && la[i] == f;
      assert lb[i] in lb;
    }
  }

  // ----- independence from insertion order ------------------------------------------------

  lemma SameLiveKeys(a: seq<Field>, b: seq<Field>)
    requires DistinctKeys(a) && DistinctKeys(b)
    requires NormalForm(Obj(a)) == NormalForm(Obj(b))
    ensures SameEntries(Entries(a), Entries(b))
  {
    ObjectNormal(a);
    ObjectNormal(b);
    EntriesAscending(a);
    EntriesAscending(b);
    var ea, eb := Entries(a), Entries(b);
    AscendingSameKeys(ea, eb);
    forall i | 0 <= i < |ea| ensures NormalForm(ea[i].value) == NormalForm(eb[i].value) {
      assert ea[i] in ea && eb[i] in eb;
    }
  }

  lemma {:induction false} SameNormalSameText(a: Json, b: Json)
    requires WellKeyed(a) && WellKeyed(b)
    requires NormalForm(a) == NormalForm(b)
    ensures CanonicalJson(a) == CanonicalJson(b)
    decreases a, 1
  {
    match a
    case Arr(items) => SameItemsSameText(a, b);
    case Obj(fields) => SameEntriesSameText(a, b);
    case _ =>
  }

  lemma {:induction false} SameItemsSameText(a: Json, b: Json)
    requires a.Arr? && WellKeyed(a) && WellKeyed(b)
    requires NormalForm(a) == NormalForm(b)
    ensures CanonicalJson(a) == CanonicalJson(b)
    decreases a, 0
  {
    assert b.Arr? && |a.items| == |NormalForm(a).items| == |b.items|;
    forall i | 0 <= i < |a.items| ensures ItemTexts(a.items)[i] == ItemTexts(b.items)[i] {
      assert NormalForm(a).items[i] == NormalForm(b).items[i];
      SameNormalSameText(a.items[i], b.items[i]);
    }
    assert ItemTexts(a.items) == ItemTexts(b.items);
    ArrayText(a.items);
    ArrayText(b.items);
  }

  lemma {:induction false} SameEntriesSameText(a: Json, b: Json)
    requires a.Obj? && WellKeyed(a) && WellKeyed(b)
    requires NormalForm(a) == NormalForm(b)
    ensures CanonicalJson(a) == CanonicalJson(b)
    decreases a, 0
  {
    assert b.Obj?;
    var ea, eb := Entries(a.fields), Entries(b.fields);
    SameLiveKeys(a.fields, b.fields);
    EntryValues(a);
    EntryValues(b);
    forall i | 0 <= i < |ea| ensures EntryTexts(ea)[i] == EntryTexts(eb)[i] {
      SameNormalSameText(ea[i].value, eb[i].value);
    }
    assert EntryTexts(ea) == EntryTexts(eb);
    ObjectText(a.fields);
    ObjectText(b.fields);
  }

  /** `canonicalJson` is a complete invariant of the JSON normal form. */
  lemma CanonicalIffSameNormal(a: Json, b: Json)
    requires WellKeyed(a) && WellKeyed(b)
    ensures CanonicalJson(a) == CanonicalJson(b) <==> NormalForm(a) == NormalForm(b)
  {
    if CanonicalJson(a) == CanonicalJson(b) {
      TextUnique(a, [], b, []);
    }
    if NormalForm(a) == NormalForm(b) {
      SameNormalSameText(a, b);
    }
  }

  // ----- a value and what storage gives back ----------------------------------------------

  /** `JSON.parse(JSON.stringify(v))` below the top: omitted keys gone, omitted items and -0 replaced. */
  function Persisted(v: Json): (r: Json)
    ensures !r.Omitted?
    decreases v
  {
    match v
    case Arr(items) => Arr(seq(|items|, i requires 0 <= i < |items| => Persisted(items[i])))
    case Obj(fields) =>
      var live := Live(fields);
      Obj(seq(|live|, i requires 0 <= i < |live| =>
        assert live[i] in fields;
        Field(live[i].key, Persisted(live[i].value))))
    case NegZero => Num(0)
    case Omitted => Null
    case _ => v
  }

  function PersistedFields(fields: seq<Field>): (r: seq<Field>)
    ensures |r| == |Live(fields)|
    ensures forall i :: 0 <= i < |r| ==> r[i] == Field(Live(fields)[i].key, Persisted(Live(fields)[i].value))
  {
    var live := Live(fields);
    seq(|live|, i requires 0 <= i < |live| => Field(live[i].key, Persisted(live[i].value)))
  }

  lemma PersistedObject(fields: seq<Field>)
    ensures Persisted(Obj(fields)) == Obj(PersistedFields(fields))
  {
    assert Persisted(Obj(fields)).fields == PersistedFields(fields);
  }

  lemma {:induction false} PersistedSameNormal(v: Json)
    requires WellKeyed(v)
    ensures WellKeyed(Persisted(v)) && NormalForm(Persisted(v)) == NormalForm(v)
    decreases v, 1
  {
    match v
    case Arr(items) =>
      var p := Persisted(v).items;
      forall i | 0 <= i < |items| ensures WellKeyed(p[i]) && NormalForm(p[i]) == NormalForm(items[i]) {
        PersistedSameNormal(items[i]);
      }
      assert Persisted(v) == Arr(p);
      SameItemsSameNormal(p, items);
    case Obj(fields) =>
      PersistedObjectSameNormal(v);
    case _ =>
  }

  lemma {:induction false} PersistedObjectSameNormal(v: Json)
    requires v.Obj? && WellKeyed(v)
    ensures WellKeyed(Persisted(v)) && NormalForm(Persisted(v)) == NormalForm(v)
    decreases v, 0
  {
    var live, p := Live(v.fields), PersistedFields(v.fields);
    PersistedObject(v.fields);
    LiveDistinct(v.fields);
    forall i | 0 <= i < |live| ensures WellKeyed(p[i].value) && NormalForm(p[i].value) == NormalForm(live[i].value) {
      assert live[i] in v.fields;
      PersistedSameNormal(live[i].value);
    }
    assert DistinctKeys(p);
    SameEntriesSameNormal(p, p, v.fields, live);
  }

  /** Storage keeps every value but an omitted one, which has no JSON text. */
  function Stored(v: Json): Option<Json> {
    if v.Omitted? then None else Some(Persisted(v))
  }

  /**
   * Hashing a value in memory and hashing what storage returns cover the same bytes; a value storage cannot
   * hold still has a canonical text, that of null.
   */
  lemma PersistedSameText(v: Json)
    requires WellKeyed(v)
    ensures Stored(v).Some? ==> CanonicalJson(Stored(v).value) == CanonicalJson(v)
    ensures Stored(v).None? ==> CanonicalJson(v) == CanonicalJson(Null) == NULL_TEXT
  {
    if !v.Omitted? {
      PersistedSameNormal(v);
      SameNormalSameText(Persisted(v), v);
    }
  }

  // ----- the text survives UTF-8 encoding --------------------------------------------------

  lemma {:induction false} QuoteBodyWellFormed(s: Text)
    ensures WellFormed(QuoteBody(s))
    decreases |s|
  {
    if s != [] {
      QuoteBodyWellFormed(s[Step(s)..]);
      if Step(s) == 2 {
        assert [s[0], s[1]][2..] == [];
      } else {
        PlainWellFormed(QuoteUnit(s[0]));
      }
      WellFormedConcat(StepText(s), QuoteBody(s[Step(s)..]));
    }
  }

  lemma QuoteWellFormed(s: Text)
    ensures WellFormed(Quote(s))
  {
    QuoteBodyWellFormed(s);
    PlainWellFormed([0x22]);
    WellFormedConcat([0x22], QuoteBody(s));
    WellFormedConcat([0x22] + QuoteBody(s), [0x22]);
  }

  lemma {:induction false} JoinWellFormed(parts: seq<Text>)
    requires forall i :: 0 <= i < |parts| ==> WellFormed(parts[i])
    ensures WellFormed(Join(parts))
  {
    if |parts| > 1 {
      JoinWellFormed(parts[1..]);
      PlainWellFormed([0x2C]);
      WellFormedConcat(parts[0], [0x2C]);
      WellFormedConcat(parts[0] + [0x2C], Join(parts[1..]));
    }
  }

  lemma BracketWellFormed(open: CodeUnit, t: Text, close: CodeUnit)
    requires open < 0x80 && close < 0x80 && WellFormed(t)
    ensures WellFormed([open] + t + [close])
  {
    PlainWellFormed([open]);
    PlainWellFormed([close]);
    WellFormedConcat([open], t);
    WellFormedConcat([open] + t, [close]);
  }

  lemma EntryWellFormed(f: Field)
    requires WellFormed(CanonicalJson(f.value))
    ensures WellFormed(EntryText(f))
  {
    QuoteWellFormed(f.key);
    PlainWellFormed([0x3A]);
    WellFormedConcat(Quote(f.key), [0x3A]);
    WellFormedConcat(Quote(f.key) + [0x3A], CanonicalJson(f.value));
  }

  /** Unpaired surrogates are always escaped, so no part of a value is lost in encoding. */
  lemma {:induction false} CanonicalWellFormed(v: Json)
    ensures WellFormed(CanonicalJson(v))
    decreases v
  {
    match v
    case Arr(items) =>
      forall i | 0 <= i < |items| ensures WellFormed(ItemTexts(items)[i]) {
        CanonicalWellFormed(items[i]);
      }
      JoinWellFormed(ItemTexts(items));
      BracketWellFormed(0x5B, Join(ItemTexts(items)), 0x5D);
      ArrayText(items);
    case Obj(fields) =>
      var e := Entries(fields);
      forall i | 0 <= i < |e| ensures WellFormed(EntryTexts(e)[i]) {
        assert e[i] in fields;
        CanonicalWellFormed(e[i].value);
        EntryWellFormed(e[i]);
      }
      JoinWellFormed(EntryTexts(e));
      BracketWellFormed(0x7B, Join(EntryTexts(e)), 0x7D);
      ObjectText(fields);
    case Str(s) => QuoteWellFormed(s);
    case Num(n) => PlainWellFormed(NumberText(n));
    case NegZero => PlainWellFormed(NumberText(0));
    case _ => PlainWellFormed(CanonicalJson(v));
  }
}
