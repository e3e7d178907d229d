/**
 * `packages/domain/src/config.ts`: the layer-2 keys, the artifact a device parses whole or refuses,
 * what each key then resolves to, and what the writer refuses to save.
 */
module Config {
  import opened Wrappers
  import opened Text16
  import opened Tax
  import LanMesh
  import Money

  datatype Key = TaxMatrix | ChargeRounding | PaidOutThreshold | DiscountThreshold | Commission

  /** An entry's key: one this build declares, or a text it does not know. */
  datatype Name = Known(key: Key) | Unknown(text: Text)

  datatype Tender = Cash | Card | Raast | KhataCredit | AggregatorReceivable

  datatype Cell = Cell(posture: Posture, rateBps: SafeInt)

  datatype Row = Row(tender: Tender, cell: Cell)

  datatype Provider = Provider(name: Text, rateBps: SafeInt)

  /** A delivered value by its shape; `OtherShape` is a missing value or one no schema's shape fits. */
  datatype Value =
    | Matrix(byDefault: Cell, byTender: seq<Row>)
    | Number(n: SafeInt)
    | Providers(rows: seq<Provider>)
    | OtherShape

  datatype Entry = Entry(name: Name, value: Value, deleted: bool)

  // ----- the schemas ------------------------------------------------------------------------------

  predicate Distinct<T(==)>(s: seq<T>) {
    forall i, j :: 0 <= i < j < |s| ==> s[i] != s[j]
  }

  predicate Repeated<T(==)>(keys: seq<T>, j: nat) {
    j < |keys| && keys[j] in keys[..j]
  }

  lemma NoneRepeated<T>(keys: seq<T>)
    ensures (forall j: nat :: !Repeated(keys, j)) <==> Distinct(keys)
  {
    forall i, j: nat | 0 <= i < j < |keys| && keys[i] == keys[j]
      ensures Repeated(keys, j)
    {
      assert keys[..j][i] == keys[j];
    }
  }

  /** The duplicate check both tables run: the rows whose key an earlier row already carries. */
  method Repeats<T(==)>(keys: seq<T>) returns (issues: seq<nat>)
    ensures forall j: nat :: j in issues <==> Repeated(keys, j)
    ensures forall i, j :: 0 <= i < j < |issues| ==> issues[i] < issues[j]
    ensures issues == [] <==> Distinct(keys)
  {
    issues := [];
    var seen: set<T> := {};
    for index := 0 to |keys|
      invariant seen == set x | x in keys[..index]
      invariant forall j: nat :: j in issues <==> j < index && Repeated(keys, j)
      invariant forall i :: 0 <= i < |issues| ==> issues[i] < index
      invariant forall i, j :: 0 <= i < j < |issues| ==> issues[i] < issues[j]
    {
      if keys[index] in seen {
        issues := issues + [index];
      }
      seen := seen + {keys[index]};
      assert keys[..index + 1] == keys[..index] + [keys[index]];
    }
    NoneRepeated(keys);
    assert issues != [] ==> issues[0] in issues;
  }

  predicate CellValid(c: Cell) {
    c.rateBps >= 0 && (c.posture == Untaxed ==> c.rateBps == 0)
  }

  function Tenders(rows: seq<Row>): seq<Tender> {
    seq(|rows|, i requires 0 <= i < |rows| => rows[i].tender)
  }

  function Trimmed(rows: seq<Provider>): seq<Provider> {
    seq(|rows|, i requires 0 <= i < |rows| => Provider(LanMesh.Trim(rows[i].name), rows[i].rateBps))
  }

  function Folded(rows: seq<Provider>, lower: Text -> Text): seq<Text> {
    seq(|rows|, i requires 0 <= i < |rows| => lower(rows[i].name))
  }

  predicate MatrixValid(v: Value) {
    && v.Matrix? && CellValid(v.byDefault)
    && (forall i :: 0 <= i < |v.byTender| ==> CellValid(v.byTender[i].cell))
    && Distinct(Tenders(v.byTender))
  }

  /** Names already trimmed; `lower` is the locale's lower case. */
  predicate ProvidersValid(rows: seq<Provider>, lower: Text -> Text) {
    && (forall i :: 0 <= i < |rows| ==> rows[i].name != [] && 0 <= rows[i].rateBps <= 10000)
    && Distinct(Folded(rows, lower))
  }

  /** `schema.safeParse`: the parsed value, or nothing. */
  function Parsed(key: Key, v: Value, lower: Text -> Text): Option<Value> {
    match key
    case TaxMatrix => if MatrixValid(v) then Some(v) else None
    case ChargeRounding => if v.Number? && v.n >= 1 && v.n % 100 == 0 then Some(v) else None
    case PaidOutThreshold => if v.Number? && v.n >= 0 then Some(v) else None
    case DiscountThreshold => if v.Number? && 0 <= v.n <= 10000 then Some(v) else None
    case Commission =>
      if v.Providers? && ProvidersValid(Trimmed(v.rows), lower) then Some(Providers(Trimmed(v.rows))) else None
  }

  // ----- the artifact -----------------------------------------------------------------------------

  type Configured = map<Key, Value>

  datatype Outcome = Artifact(configured: Configured, ignored: seq<Text>) | Malformed(key: Key)

  predicate Bad(e: Entry, lower: Text -> Text) {
    e.name.Known? && !e.deleted && Parsed(e.name.key, e.value, lower).None?
  }

  function Without(m: Configured, key: Key): Configured {
    map k | k in m && k != key :: m[k]
  }

  /** One entry folded onto what the earlier ones left. */
  function Step(before: Outcome, e: Entry, lower: Text -> Text): Outcome {
    if before.Malformed? then before
    else match e.name
      case Unknown(text) => Artifact(before.configured, before.ignored + [text])
      case Known(key) =>
        if e.deleted then Artifact(Without(before.configured, key), before.ignored)
        else match Parsed(key, e.value, lower)
          case None => Malformed(key)
          case Some(v) => Artifact(before.configured[key := v], before.ignored)
  }

  function Parse(entries: seq<Entry>, lower: Text -> Text): Outcome {
    if entries == [] then Artifact(map[], [])
    else Step(Parse(entries[..|entries| - 1], lower), entries[|entries| - 1], lower)
  }

  lemma {:induction false} MalformedStays(entries: seq<Entry>, n: nat, lower: Text -> Text)
    requires n <= |entries| && Parse(entries[..n], lower).Malformed?
    ensures Parse(entries, lower) == Parse(entries[..n], lower)
  {
    if n == |entries| {
      assert entries[..n] == entries;
    } else {
      assert entries[..|entries| - 1][..n] == entries[..n];
      MalformedStays(entries[..|entries| - 1], n, lower);
    }
  }

  method ParseConfigArtifact(entries: seq<Entry>, lower: Text -> Text) returns (r: Outcome)
    ensures r == Parse(entries, lower)
  {
    var configured: Configured := map[];
    var ignored: seq<Text> := [];
    for i := 0 to |entries|
      invariant Parse(entries[..i], lower) == Artifact(configured, ignored)
    {
      var entry := entries[i];
      assert entries[..i + 1][..i] == entries[..i];
      match entry.name {
        case Unknown(text) =>
          ignored := ignored + [text];
        case Known(key) =>
          if entry.deleted {
            configured := Without(configured, key);
          } else {
            match Parsed(key, entry.value, lower) {
              case None =>
                assert Parse(entries[..i + 1], lower) == Malformed(key);
                MalformedStays(entries, i + 1, lower);
                return Malformed(key);
              case Some(v) =>
                configured := configured[key := v];
            }
          }
      }
    }
    assert entries[..|entries|] == entries;
    r := Artifact(configured, ignored);
  }

  // ----- what a parse means ------------------------------------------------------------------------

  /** `i` is the last entry for `key`. */
  predicate IsLast(entries: seq<Entry>, key: Key, i: int) {
    && 0 <= i < |entries| && entries[i].name == Known(key)
    && forall j :: i < j < |entries| ==> entries[j].name != Known(key)
  }

  predicate Mentions(entries: seq<Entry>, key: Key) {
    exists i :: 0 <= i < |entries| && entries[i].name == Known(key)
  }

  function LastEntry(entries: seq<Entry>, key: Key): Option<Entry> {
    if entries == [] then None
    else if entries[|entries| - 1].name == Known(key) then Some(entries[|entries| - 1])
    else LastEntry(entries[..|entries| - 1], key)
  }

  /** What an entry leaves its key holding; nothing when there is no entry or it resets. */
  function Says(e: Option<Entry>, key: Key, lower: Text -> Text): Option<Value> {
    if e.None? || e.value.deleted then None else Parsed(key, e.value.value, lower)
  }

  function LastSays(entries: seq<Entry>, key: Key, lower: Text -> Text): Option<Value> {
    Says(LastEntry(entries, key), key, lower)
  }

  lemma {:induction false} LastEntryAt(entries: seq<Entry>, key: Key, i: int)
    requires IsLast(entries, key, i)
    ensures LastEntry(entries, key) == Some(entries[i])
  {
    if i < |entries| - 1 {
      assert IsLast(entries[..|entries| - 1], key, i);
      LastEntryAt(entries[..|entries| - 1], key, i);
    }
  }

  lemma {:induction false} LastEntryNone(entries: seq<Entry>, key: Key)
    requires !Mentions(entries, key)
    ensures LastEntry(entries, key).None?
  {
    if entries != [] {
      var front := entries[..|entries| - 1];
      assert forall i :: 0 <= i < |front| ==> front[i] == entries[i];
      LastEntryNone(front, key);
    }
  }

  lemma {:induction false} LastEntryConcat(a: seq<Entry>, b: seq<Entry>, key: Key)
    ensures LastEntry(a + b, key) == if LastEntry(b, key).Some? then LastEntry(b, key) else LastEntry(a, key)
  {
    if b == [] {
      assert a + b == a;
    } else {
      LastEntryConcat(a, b[..|b| - 1], key);
      assert (a + b)[..|a + b| - 1] == a + b[..|b| - 1];
    }
  }

  lemma {:induction false} HasLast(entries: seq<Entry>, key: Key)
    requires Mentions(entries, key)
    ensures exists i :: IsLast(entries, key, i)
  {
    var last := |entries| - 1;
    if entries[last].name == Known(key) {
      assert IsLast(entries, key, last);
    } else {
      var front := entries[..last];
      var k :| 0 <= k < |entries| && entries[k].name == Known(key);
      assert front[k].name == Known(key);
      HasLast(front, key);
      var i :| IsLast(front, key, i);
      assert IsLast(entries, key, i);
    }
  }

  function Unknowns(entries: seq<Entry>): seq<Text> {
    if entries == [] then []
    else
      var e := entries[|entries| - 1];
      Unknowns(entries[..|entries| - 1]) + (if e.name.Unknown? then [e.name.text] else [])
  }

  ghost predicate FirstBad(entries: seq<Entry>, key: Key, i: int, lower: Text -> Text) {
    && 0 <= i < |entries| && entries[i].name == Known(key) && Bad(entries[i], lower)
    && forall j :: 0 <= j < i ==> !Bad(entries[j], lower)
  }

  /** The map holds, for every key, what its last entry says. */
  ghost predicate Holds(configured: Configured, entries: seq<Entry>, lower: Text -> Text) {
    forall key :: LastSays(entries, key, lower) == if key in configured then Some(configured[key]) else None
  }

  predicate NoneBad(entries: seq<Entry>, lower: Text -> Text) {
    forall i :: 0 <= i < |entries| ==> !Bad(entries[i], lower)
  }

  /** The first invalid entry is one for `key`. */
  ghost predicate RefusedFor(entries: seq<Entry>, key: Key, lower: Text -> Text) {
    exists i :: FirstBad(entries, key, i, lower)
  }

  lemma RefusalStays(entries: seq<Entry>, key: Key, lower: Text -> Text)
    requires entries != [] && RefusedFor(entries[..|entries| - 1], key, lower)
    ensures RefusedFor(entries, key, lower)
    ensures Step(Malformed(key), entries[|entries| - 1], lower) == Malformed(key)
  {
    hide Bad;
    var front := entries[..|entries| - 1];
    var i :| FirstBad(front, key, i, lower);
    assert FirstBad(entries, key, i, lower);
  }

  lemma BadRefuses(entries: seq<Entry>, before: Configured, ignored: seq<Text>, lower: Text -> Text)
    requires entries != [] && NoneBad(entries[..|entries| - 1], lower) && Bad(entries[|entries| - 1], lower)
    ensures RefusedFor(entries, entries[|entries| - 1].name.key, lower)
    ensures Step(Artifact(before, ignored), entries[|entries| - 1], lower) == Malformed(entries[|entries| - 1].name.key)
  {
    hide Parsed;
    assert forall j :: 0 <= j < |entries| - 1 ==> entries[j] == entries[..|entries| - 1][j];
    assert FirstBad(entries, entries[|entries| - 1].name.key, |entries| - 1, lower);
  }

  /** One more valid entry: its own key holds what it says, every other key what it held. */
  lemma GoodStep(before: Configured, ignored: seq<Text>, e: Entry, key: Key, lower: Text -> Text)
    requires !Bad(e, lower)
    ensures var r := Step(Artifact(before, ignored), e, lower);
      && r.Artifact?
      && r.ignored == ignored + (if e.name.Unknown? then [e.name.text] else [])
      && (if e.name == Known(key)
          then Says(Some(e), key, lower) == (if key in r.configured then Some(r.configured[key]) else None)
          else (key in r.configured <==> key in before) && (key in before ==> r.configured[key] == before[key]))
  {
    hide Parsed;
  }

  lemma SaysOneMore(entries: seq<Entry>, key: Key, lower: Text -> Text)
    requires entries != []
    ensures var e := entries[|entries| - 1];
      LastSays(entries, key, lower) ==
        if e.name == Known(key) then Says(Some(e), key, lower) else LastSays(entries[..|entries| - 1], key, lower)
  {
    hide Says;
  }

  lemma GoodHolds(entries: seq<Entry>, before: Configured, ignored: seq<Text>, lower: Text -> Text)
    requires entries != [] && NoneBad(entries[..|entries| - 1], lower) && !Bad(entries[|entries| - 1], lower)
    requires Holds(before, entries[..|entries| - 1], lower) && ignored == Unknowns(entries[..|entries| - 1])
    ensures NoneBad(entries, lower)
    ensures var r := Step(Artifact(before, ignored), entries[|entries| - 1], lower);
      r.Artifact? && Holds(r.configured, entries, lower) && r.ignored == Unknowns(entries)
  {
    hide Bad, Says, Step, LastEntry, LastSays;
    var front := entries[..|entries| - 1];
    var e := entries[|entries| - 1];
    assert forall j :: 0 <= j < |entries| - 1 ==> entries[j] == front[j];
    var r := Step(Artifact(before, ignored), e, lower);
    GoodStep(before, ignored, e, TaxMatrix, lower);
    forall key
      ensures LastSays(entries, key, lower) == if key in r.configured then Some(r.configured[key]) else None
    {
      GoodStep(before, ignored, e, key, lower);
      SaysOneMore(entries, key, lower);
      assert LastSays(front, key, lower) == if key in before then Some(before[key]) else None;
    }
  }

  /**
   * The artifact is refused exactly when some known, non-deleted entry is invalid, and the refusal names
   * the first such key. Otherwise every key holds what its last entry says, and the unknown keys are
   * listed in order.
   */
  lemma {:induction false} ParseExact(entries: seq<Entry>, lower: Text -> Text)
    ensures match Parse(entries, lower)
      case Malformed(key) => RefusedFor(entries, key, lower)
      case Artifact(configured, ignored) =>
        && NoneBad(entries, lower)
        && Holds(configured, entries, lower)
        && ignored == Unknowns(entries)
  {
    hide Parsed, Step, RefusedFor, NoneBad, Holds;
    if entries == [] {
      NothingHolds(lower);
    } else {
      var front := entries[..|entries| - 1];
      ParseExact(front, lower);
      match Parse(front, lower)
      case Malformed(key) =>
        RefusalStays(entries, key, lower);
      case Artifact(configured, ignored) =>
        if Bad(entries[|entries| - 1], lower) {
          BadRefuses(entries, configured, ignored, lower);
        } else {
          GoodHolds(entries, configured, ignored, lower);
        }
    }
  }

  lemma NothingHolds(lower: Text -> Text)
    ensures NoneBad([], lower) && Holds(map[], [], lower)
  {
  }

  // ----- one artifact after another ------------------------------------------------------------------

  /** The last entry for the key is a reset. */
  predicate EndsReset(entries: seq<Entry>, key: Key) {
    LastEntry(entries, key).Some? && LastEntry(entries, key).value.deleted
  }

  /** What `entries`, parsed to `after`, does to a map a device already holds. */
  function Overridden(before: Configured, entries: seq<Entry>, after: Configured): Configured {
    (map k | k in before && !EndsReset(entries, k) :: before[k]) + after
  }

  lemma {:induction false} UnknownsConcat(a: seq<Entry>, b: seq<Entry>)
    ensures Unknowns(a + b) == Unknowns(a) + Unknowns(b)
  {
    if b == [] {
      assert a + b == a;
    } else {
      UnknownsConcat(a, b[..|b| - 1]);
      assert (a + b)[..|a + b| - 1] == a + b[..|b| - 1];
    }
  }

  lemma SecondRefused(a: seq<Entry>, b: seq<Entry>, key: Key, lower: Text -> Text)
    requires Parse(a, lower).Artifact? && Parse(b, lower) == Malformed(key)
    ensures Parse(a + b, lower) == Malformed(key)
  {
    hide Parse, Bad;
    ParseExact(a, lower);
    ParseExact(b, lower);
    ParseExact(a + b, lower);
    var i :| FirstBad(b, key, i, lower);
    assert forall k :: 0 <= k < |a| ==> (a + b)[k] == a[k];
    assert forall k :: 0 <= k < |b| ==> (a + b)[|a| + k] == b[k];
    var other := Parse(a + b, lower).key;
    var j :| FirstBad(a + b, other, j, lower);
    assert FirstBad(b, other, j - |a|, lower);
  }

  lemma BothAccepted(a: seq<Entry>, b: seq<Entry>, lower: Text -> Text)
    requires Parse(a, lower).Artifact? && Parse(b, lower).Artifact?
    ensures Parse(a + b, lower).Artifact?
  {
    hide Parse, Bad;
    ParseExact(a, lower);
    ParseExact(b, lower);
    ParseExact(a + b, lower);
    assert forall i :: 0 <= i < |a + b| ==> (a + b)[i] == if i < |a| then a[i] else b[i - |a|];
  }

  /**
   * Parsing two runs of entries one after the other: the second run is laid over the first, its values
   * winning and its resets taking the first run's values away.
   */
  lemma ParseConcat(a: seq<Entry>, b: seq<Entry>, lower: Text -> Text)
    ensures match (Parse(a, lower), Parse(b, lower))
      case (Malformed(key), _) => Parse(a + b, lower) == Malformed(key)
      case (_, Malformed(key)) => Parse(a + b, lower) == Malformed(key)
      case (Artifact(ca, ia), Artifact(cb, ib)) =>
        Parse(a + b, lower) == Artifact(Overridden(ca, b, cb), ia + ib)
  {
    hide Parse, Says, LastEntry, Unknowns, Overridden;
    if Parse(a, lower).Malformed? {
      assert (a + b)[..|a|] == a;
      MalformedStays(a + b, |a|, lower);
    } else if Parse(b, lower).Malformed? {
      SecondRefused(a, b, Parse(b, lower).key, lower);
    } else {
      BothAccepted(a, b, lower);
      ParseExact(a, lower);
      ParseExact(b, lower);
      ParseExact(a + b, lower);
      UnknownsConcat(a, b);
      LaidOver(a, Parse(a, lower).configured, b, Parse(b, lower).configured, Parse(a + b, lower).configured, lower);
    }
  }

  lemma LaidOver(a: seq<Entry>, ca: Configured, b: seq<Entry>, cb: Configured, cab: Configured, lower: Text -> Text)
    requires Holds(ca, a, lower) && Holds(cb, b, lower) && Holds(cab, a + b, lower)
    requires NoneBad(b, lower)
    ensures cab == Overridden(ca, b, cb)
  {
    hide Parsed, LastEntry;
    var want := Overridden(ca, b, cb);
    forall k
      ensures k in cab <==> k in want
      ensures k in cab && k in want ==> cab[k] == want[k]
    {
      LastEntryConcat(a, b, k);
      LastEntryParses(b, k, lower);
      assert LastSays(a, k, lower) == if k in ca then Some(ca[k]) else None;
      assert LastSays(b, k, lower) == if k in cb then Some(cb[k]) else None;
      assert LastSays(a + b, k, lower) == if k in cab then Some(cab[k]) else None;
    }
    assert cab.Keys == want.Keys;
  }

  lemma {:induction false} LastEntryParses(b: seq<Entry>, key: Key, lower: Text -> Text)
    requires NoneBad(b, lower)
    ensures LastEntry(b, key).Some? && !LastEntry(b, key).value.deleted ==> LastSays(b, key, lower).Some?
  {
    hide Parsed;
    if b != [] {
      LastEntryParses(b[..|b| - 1], key, lower);
    }
  }

  /**
   * Overriding the first map by the second is what a concatenation parses to exactly when the second run
   * ends by resetting no key that the first one set.
   */
  lemma OverrideExactlyWithoutResets(a: seq<Entry>, b: seq<Entry>, lower: Text -> Text)
    requires Parse(a, lower).Artifact? && Parse(b, lower).Artifact?
    ensures Parse(a + b, lower).Artifact?
    ensures Parse(a + b, lower).configured == Parse(a, lower).configured + Parse(b, lower).configured
      <==> (forall k :: k in Parse(a, lower).configured ==> !EndsReset(b, k))
  {
    hide Parse, EndsReset;
    ParseConcat(a, b, lower);
    var ca, cb := Parse(a, lower).configured, Parse(b, lower).configured;
    var kept := map k | k in ca && !EndsReset(b, k) :: ca[k];
    if forall k :: k in ca ==> !EndsReset(b, k) {
      assert kept == ca;
    } else {
      var k :| k in ca && EndsReset(b, k);
      ResetHoldsNothing(b, k, lower);
      assert k in ca + cb && k !in kept + cb;
    }
  }

  lemma ResetHoldsNothing(b: seq<Entry>, k: Key, lower: Text -> Text)
    requires Parse(b, lower).Artifact? && EndsReset(b, k)
    ensures k !in Parse(b, lower).configured
  {
    hide Parse, Parsed, LastEntry;
    ParseExact(b, lower);
    assert LastSays(b, k, lower).None?;
  }

  /** A rounding step set by one run and reset by the next: overriding the maps would keep it. */
  lemma ResetIsNotAnOverride(lower: Text -> Text)
    ensures var a := [Entry(Known(ChargeRounding), Number(1000), false)];
      var b := [Entry(Known(ChargeRounding), OtherShape, true)];
      && Parse(a, lower) == Artifact(map[ChargeRounding := Number(1000)], [])
      && Parse(b, lower) == Artifact(map[], [])
      && Parse(a + b, lower) == Artifact(map[], [])
  {
    var a := [Entry(Known(ChargeRounding), Number(1000), false)];
    var b := [Entry(Known(ChargeRounding), OtherShape, true)];
    assert a[..0] == [] && b[..0] == [] && (a + b)[..1] == a;
    assert Without(map[], ChargeRounding) == map[];
    assert Without(map[ChargeRounding := Number(1000)], ChargeRounding) == map[];
  }

  // ----- the order of a snapshot's rows ---------------------------------------------------------------

  predicate OneRowPerKey(entries: seq<Entry>) {
    forall i, j :: 0 <= i < j < |entries| && entries[i].name.Known? ==> entries[i].name != entries[j].name
  }

  /** A second copy of a name in `b` is a second copy in `a`. */
  lemma TwiceFollows(a: seq<Entry>, b: seq<Entry>, i: nat, j: nat)
    requires multiset(a) == multiset(b) && i < j < |b|
    ensures exists p, q :: 0 <= p < |a| && 0 <= q < |a| && p != q && a[p] == b[i] && a[q] == b[j]
  {
    SameMembers(a, b, b[i]);
    var p :| 0 <= p < |a| && a[p] == b[i];
    Money.BagWithout(a, p);
    Money.BagWithout(b, i);
    var restA, restB := a[..p] + a[p + 1..], b[..i] + b[i + 1..];
    assert restB[j - 1] == b[j];
    SameMembers(restA, restB, b[j]);
    var k :| 0 <= k < |restA| && restA[k] == b[j];
    var q := if k < p then k else k + 1;
    assert a[q] == b[j];
  }

  lemma OneRowFollows(a: seq<Entry>, b: seq<Entry>)
    requires multiset(a) == multiset(b) && OneRowPerKey(a)
    ensures OneRowPerKey(b)
  {
    forall i, j | 0 <= i < j < |b| && b[i].name.Known?
      ensures b[i].name != b[j].name
    {
      TwiceFollows(a, b, i, j);
    }
  }

  /** A snapshot with one row per known key parses the same however its rows are ordered. */
  lemma SnapshotOrderFree(a: seq<Entry>, b: seq<Entry>, lower: Text -> Text)
    requires multiset(a) == multiset(b) && OneRowPerKey(a)
    ensures Parse(a, lower).Artifact? <==> Parse(b, lower).Artifact?
    ensures Parse(a, lower).Artifact? ==> Parse(a, lower).configured == Parse(b, lower).configured
  {
    hide Parse, Parsed, LastSays, OneRowPerKey;
    OneRowFollows(a, b);
    ParseExact(a, lower);
    ParseExact(b, lower);
    if Parse(a, lower).Artifact? { AcceptanceFollows(a, b, lower); }
    if Parse(b, lower).Artifact? { AcceptanceFollows(b, a, lower); }
    if Parse(a, lower).Artifact? {
      forall key: Key
        ensures LastSays(a, key, lower) == LastSays(b, key, lower)
      {
        SameLast(a, b, key, lower);
      }
      SameMap(Parse(a, lower).configured, a, Parse(b, lower).configured, b, lower);
    }
  }

  lemma SameMap(ca: Configured, a: seq<Entry>, cb: Configured, b: seq<Entry>, lower: Text -> Text)
    requires Holds(ca, a, lower) && Holds(cb, b, lower)
    requires forall key :: LastSays(a, key, lower) == LastSays(b, key, lower)
    ensures ca == cb
  {
    hide LastSays;
    assert forall key :: (key in ca <==> key in cb) && (key in ca ==> ca[key] == cb[key]) by {
      forall key
        ensures (key in ca <==> key in cb) && (key in ca ==> ca[key] == cb[key])
      {
        assert LastSays(a, key, lower) == LastSays(b, key, lower);
      }
    }
  }

  lemma AcceptanceFollows(a: seq<Entry>, b: seq<Entry>, lower: Text -> Text)
    requires multiset(a) == multiset(b) && Parse(a, lower).Artifact?
    ensures Parse(b, lower).Artifact?
  {
    hide Parse, Bad;
    ParseExact(a, lower);
    ParseExact(b, lower);
    forall i | 0 <= i < |b|
      ensures !Bad(b[i], lower)
    {
      SameMembers(a, b, b[i]);
    }
  }

  lemma SameMembers<T>(a: seq<T>, b: seq<T>, x: T)
    requires multiset(a) == multiset(b)
    ensures x in a <==> x in b
  {
    assert x in a <==> x in multiset(a);
    assert x in b <==> x in multiset(b);
  }

  lemma MentionsFollow(a: seq<Entry>, b: seq<Entry>, key: Key)
    requires multiset(a) == multiset(b) && Mentions(a, key)
    ensures Mentions(b, key)
  {
    var i :| 0 <= i < |a| && a[i].name == Known(key);
    SameMembers(a, b, a[i]);
  }

  lemma SameLast(a: seq<Entry>, b: seq<Entry>, key: Key, lower: Text -> Text)
    requires multiset(a) == multiset(b) && OneRowPerKey(a) && OneRowPerKey(b)
    ensures LastSays(a, key, lower) == LastSays(b, key, lower)
  {
    hide Parsed, LastEntry;
    if Mentions(a, key) {
      MentionsFollow(a, b, key);
      var i :| 0 <= i < |a| && a[i].name == Known(key);
      SameMembers(a, b, a[i]);
      var j :| 0 <= j < |b| && b[j] == a[i];
      LastEntryAt(a, key, i);
      LastEntryAt(b, key, j);
    } else {
      if Mentions(b, key) { MentionsFollow(b, a, key); }
      LastEntryNone(a, key);
      LastEntryNone(b, key);
    }
  }

  // ----- the writer -----------------------------------------------------------------------------------

  /** What is refused at the writer, by its key. */
  function RefuseConfigWrite(name: Name, value: Value, lower: Text -> Text): Option<Name> {
    match name
    case Unknown(_) => Some(name)
    case Known(key) => if Parsed(key, value, lower).Some? then None else Some(name)
  }

  predicate Admitted(e: Entry, lower: Text -> Text) {
    RefuseConfigWrite(e.name, e.value, lower).None?
  }

  /**
   * Entries the writer admitted, resets, and keys this build does not know are never why an artifact is
   * refused: the refused key has an entry the writer would have refused under that key.
   */
  lemma WriterGuardsTheArtifact(entries: seq<Entry>, lower: Text -> Text)
    ensures Parse(entries, lower).Artifact?
      <==> (forall i :: 0 <= i < |entries| ==> !entries[i].name.Known? || entries[i].deleted || Admitted(entries[i], lower))
    ensures Parse(entries, lower).Malformed? ==>
      exists i :: 0 <= i < |entries| && !entries[i].deleted && entries[i].name == Known(Parse(entries, lower).key)
        && !Admitted(entries[i], lower)
  {
    hide Parse, Parsed;
    ParseExact(entries, lower);
    if Parse(entries, lower).Malformed? {
      var key := Parse(entries, lower).key;
      var i :| FirstBad(entries, key, i, lower);
      assert !Admitted(entries[i], lower);
    } else {
      assert forall i :: 0 <= i < |entries| ==> !Bad(entries[i], lower);
    }
  }

  // ----- what a key resolves to -------------------------------------------------------------------------

  datatype Source = Delivered | Default

  datatype Resolved = Resolved(value: Value, source: Source)

  function DefaultOf(key: Key): Value {
    match key
    case TaxMatrix => Matrix(Cell(Untaxed, 0), [])
    case ChargeRounding => Number(100)
    case PaidOutThreshold => Number(0)
    case DiscountThreshold => Number(0)
    case Commission => Providers([])
  }

  function ResolveConfig(configured: Configured, key: Key): Resolved {
    if key !in configured then Resolved(DefaultOf(key), Default) else Resolved(configured[key], Delivered)
  }

  const KEY_NAMES: seq<Key> := [TaxMatrix, ChargeRounding, PaidOutThreshold, DiscountThreshold, Commission]

  function Filtered(names: seq<Key>, configured: Configured): seq<Key> {
    if names == [] then []
    else if names[0] in configured then Filtered(names[1..], configured)
    else [names[0]] + Filtered(names[1..], configured)
  }

  function ConfigKeysOnDefault(configured: Configured): seq<Key> {
    Filtered(KEY_NAMES, configured)
  }

  lemma {:induction false} FilteredExact(names: seq<Key>, configured: Configured)
    requires Distinct(names)
    ensures forall k :: k in Filtered(names, configured) <==> k in names && k !in configured
    ensures Distinct(Filtered(names, configured))
  {
    if names != [] {
      FilteredExact(names[1..], configured);
      assert names == [names[0]] + names[1..];
    }
  }

  /** The health list names each key once, and names exactly the keys that resolve to a default. */
  lemma OnDefaultExact(configured: Configured)
    ensures Distinct(ConfigKeysOnDefault(configured))
    ensures forall key :: key in ConfigKeysOnDefault(configured) <==> ResolveConfig(configured, key).source == Default
  {
    FilteredExact(KEY_NAMES, configured);
    forall key: Key
      ensures key in KEY_NAMES
    {
      assert key == KEY_NAMES[0] || key == KEY_NAMES[1] || key == KEY_NAMES[2] || key == KEY_NAMES[3] || key == KEY_NAMES[4];
    }
  }

  /** A parsed value parses to itself. */
  lemma ParsedAgain(key: Key, v: Value, lower: Text -> Text)
    requires Parsed(key, v, lower).Some?
    ensures Parsed(key, Parsed(key, v, lower).value, lower) == Parsed(key, v, lower)
  {
    if key.Commission? {
      TrimmedAgain(v.rows);
    }
  }

  lemma TrimmedAgain(rows: seq<Provider>)
    ensures Trimmed(Trimmed(rows)) == Trimmed(rows)
  {
    forall i | 0 <= i < |rows|
      ensures Trimmed(Trimmed(rows))[i] == Trimmed(rows)[i]
    {
      TrimAgain(rows[i].name);
    }
  }

  lemma TrimAgain(t: Text)
    ensures LanMesh.Trim(LanMesh.Trim(t)) == LanMesh.Trim(t)
  {
    var r := LanMesh.Trim(t);
    if r != [] {
      LanMesh.TrimPlain(r);
    }
  }

  /**
   * Whatever entries arrived, every key a device then resolves, delivered or default, is a value its own
   * schema accepts unchanged.
   */
  lemma ResolvedAlwaysValid(entries: seq<Entry>, key: Key, lower: Text -> Text)
    requires Parse(entries, lower).Artifact?
    ensures var v := ResolveConfig(Parse(entries, lower).configured, key).value;
      Parsed(key, v, lower) == Some(v)
  {
    var configured := Parse(entries, lower).configured;
    ParseExact(entries, lower);
    if key in configured {
      assert LastSays(entries, key, lower) == Some(configured[key]);
      if !Mentions(entries, key) { LastEntryNone(entries, key); }
      HasLast(entries, key);
      var i :| IsLast(entries, key, i);
      LastEntryAt(entries, key, i);
      ParsedAgain(key, entries[i].value, lower);
    } else {
      DefaultValid(key, lower);
    }
  }

  lemma DefaultValid(key: Key, lower: Text -> Text)
    ensures Parsed(key, DefaultOf(key), lower) == Some(DefaultOf(key))
  {
    assert Trimmed([]) == [];
  }

  /** So the resolved rounding step never refuses a bill on its own account. */
  lemma ResolvedStepCharges(entries: seq<Entry>, bill: int, lower: Text -> Text)
    requires Parse(entries, lower).Artifact?
    ensures var v := ResolveConfig(Parse(entries, lower).configured, ChargeRounding).value;
      && v.Number? && v.n >= 100 && v.n % 100 == 0
      && (Money.ChargePaisaAtGranularity(bill, v.n).Ok?
          <==> 0 <= bill <= MAX_SAFE && Money.ChargeOf(bill, v.n) <= MAX_SAFE)
  {
    ResolvedAlwaysValid(entries, ChargeRounding, lower);
  }

  // ----- the cell for a tender ---------------------------------------------------------------------------

  /** `find(...) ?? default`. */
  function CellFor(byDefault: Cell, rows: seq<Row>, tender: Tender): Cell {
    if rows == [] then byDefault
    else if rows[0].tender == tender then rows[0].cell
    else CellFor(byDefault, rows[1..], tender)
  }

  function TaxCellForTender(matrix: Value, tender: Tender): Cell
    requires matrix.Matrix?
  {
    CellFor(matrix.byDefault, matrix.byTender, tender)
  }

  lemma {:induction false} CellForFound(byDefault: Cell, rows: seq<Row>, tender: Tender)
    ensures (forall i :: 0 <= i < |rows| ==> rows[i].tender != tender) ==> CellFor(byDefault, rows, tender) == byDefault
    ensures (exists i :: 0 <= i < |rows| && rows[i].tender == tender)
      ==> Row(tender, CellFor(byDefault, rows, tender)) in rows
  {
    if rows != [] && rows[0].tender != tender {
      CellForFound(byDefault, rows[1..], tender);
      assert forall i :: 0 <= i < |rows[1..]| ==> rows[1..][i] == rows[i + 1];
    }
  }

  /** Rows of one tender never disagree. */
  predicate Agreeing(rows: seq<Row>) {
    forall i, j :: 0 <= i < j < |rows| && rows[i].tender == rows[j].tender ==> rows[i].cell == rows[j].cell
  }

  /** Reordering the overrides changes no tender's cell. */
  ghost predicate OrderFree(byDefault: Cell, rows: seq<Row>) {
    forall other, tender :: multiset(other) == multiset(rows)
      ==> CellFor(byDefault, other, tender) == CellFor(byDefault, rows, tender)
  }

  lemma SameCell(byDefault: Cell, rows: seq<Row>, other: seq<Row>, tender: Tender)
    requires Agreeing(rows) && multiset(other) == multiset(rows)
    ensures CellFor(byDefault, other, tender) == CellFor(byDefault, rows, tender)
  {
    CellForFound(byDefault, rows, tender);
    CellForFound(byDefault, other, tender);
    assert forall i :: 0 <= i < |rows| ==> rows[i] in multiset(rows);
    assert forall i :: 0 <= i < |other| ==> other[i] in multiset(other);
    assert forall row :: row in rows <==> row in other by {
      forall row
        ensures row in rows <==> row in other
      {
        assert row in rows <==> row in multiset(rows);
        assert row in other <==> row in multiset(other);
      }
    }
  }

  /** The row at `i` brought to the front decides its tender. */
  lemma FrontDecides(byDefault: Cell, rows: seq<Row>, i: nat)
    requires i < |rows| && OrderFree(byDefault, rows)
    ensures CellFor(byDefault, rows, rows[i].tender) == rows[i].cell
  {
    var other := [rows[i]] + (rows[..i] + rows[i + 1..]);
    Money.BagWithout(rows, i);
    assert multiset(other) == multiset(rows);
    assert CellFor(byDefault, other, rows[i].tender) == rows[i].cell;
  }

  /** Array position is irrelevant exactly when no two overrides of one tender disagree. */
  lemma OrderFreeIffAgreeing(byDefault: Cell, rows: seq<Row>)
    ensures OrderFree(byDefault, rows) <==> Agreeing(rows)
  {
    if Agreeing(rows) {
      forall other, tender | multiset(other) == multiset(rows)
        ensures CellFor(byDefault, other, tender) == CellFor(byDefault, rows, tender)
      {
        SameCell(byDefault, rows, other, tender);
      }
    }
    if OrderFree(byDefault, rows) {
      forall i, j | 0 <= i < j < |rows| && rows[i].tender == rows[j].tender
        ensures rows[i].cell == rows[j].cell
      {
        FrontDecides(byDefault, rows, i);
        FrontDecides(byDefault, rows, j);
      }
    }
  }

  /** An accepted matrix gives each tender its own override or the default, in whatever order they were typed. */
  lemma AcceptedMatrixOrderFree(matrix: Value, tender: Tender, lower: Text -> Text)
    requires Parsed(TaxMatrix, matrix, lower).Some?
    ensures OrderFree(matrix.byDefault, matrix.byTender)
    ensures forall i :: 0 <= i < |matrix.byTender| ==> TaxCellForTender(matrix, matrix.byTender[i].tender) == matrix.byTender[i].cell
    ensures CellValid(TaxCellForTender(matrix, tender))
  {
    var rows := matrix.byTender;
    assert forall i :: 0 <= i < |rows| ==> Tenders(rows)[i] == rows[i].tender;
    assert Agreeing(rows);
    OrderFreeIffAgreeing(matrix.byDefault, rows);
    forall i | 0 <= i < |rows|
      ensures CellFor(matrix.byDefault, rows, rows[i].tender) == rows[i].cell
    {
      FrontDecides(matrix.byDefault, rows, i);
    }
    CellForFound(matrix.byDefault, rows, tender);
  }

  // ----- what each schema accepts, and each default -----------------------------------------------------

  /** A tax cell: a rate that is not negative, and none where no tax is charged. */
  lemma CellExact(c: Cell)
    ensures CellValid(c) <==> c.rateBps >= 0 && (c.posture == Untaxed ==> c.rateBps == 0)
  {
  }

  /** A rounding step is a whole number of rupees, at least one; the thresholds are a sum and a share of the bill. */
  lemma NumbersExact(v: Value, lower: Text -> Text)
    ensures Parsed(ChargeRounding, v, lower) == Some(v) <==> exists rupees: nat :: rupees > 0 && v.Number? && v.n == 100 * rupees
    ensures Parsed(PaidOutThreshold, v, lower) == Some(v) <==> v.Number? && v.n >= 0
    ensures Parsed(DiscountThreshold, v, lower) == Some(v) <==> v.Number? && 0 <= v.n <= 10000
    ensures forall key :: key in {ChargeRounding, PaidOutThreshold, DiscountThreshold} && Parsed(key, v, lower) != Some(v) ==>
      Parsed(key, v, lower) == None
  {
    if v.Number? && v.n >= 1 && v.n % 100 == 0 {
      assert v.n == 100 * (v.n / 100) && v.n / 100 > 0;
    }
  }

  /** A matrix is accepted unchanged exactly when every cell is valid and no tender is named twice. */
  lemma MatrixExact(byDefault: Cell, rows: seq<Row>, lower: Text -> Text)
    ensures var v := Matrix(byDefault, rows);
      var accepted := CellValid(byDefault) && (forall i :: 0 <= i < |rows| ==> CellValid(rows[i].cell))
        && forall i, j :: 0 <= i < j < |rows| ==> rows[i].tender != rows[j].tender;
      Parsed(TaxMatrix, v, lower) == if accepted then Some(v) else None
  {
    assert forall i, j :: 0 <= i < j < |rows| ==>
      (Tenders(rows)[i] == Tenders(rows)[j] <==> rows[i].tender == rows[j].tender);
  }

  /** A list of providers is accepted, its names trimmed, when no trimmed name is blank or named twice whatever its case. */
  lemma ProvidersExact(rows: seq<Provider>, lower: Text -> Text)
    ensures var accepted :=
        (forall i :: 0 <= i < |rows| ==> LanMesh.Trim(rows[i].name) != [] && 0 <= rows[i].rateBps <= 10000)
        && forall i, j :: 0 <= i < j < |rows| ==> lower(LanMesh.Trim(rows[i].name)) != lower(LanMesh.Trim(rows[j].name));
      Parsed(Commission, Providers(rows), lower) == if accepted then Some(Providers(Trimmed(rows))) else None
    ensures |Trimmed(rows)| == |rows|
      && forall i :: 0 <= i < |rows| ==> Trimmed(rows)[i] == Provider(LanMesh.Trim(rows[i].name), rows[i].rateBps)
  {
    hide LanMesh.Trim;
    TrimmedAt(rows);
    hide Trimmed;
    assert forall i, j :: 0 <= i < j < |rows| ==>
      (Folded(Trimmed(rows), lower)[i] == Folded(Trimmed(rows), lower)[j]
       <==> lower(LanMesh.Trim(rows[i].name)) == lower(LanMesh.Trim(rows[j].name)));
  }

  lemma TrimmedAt(rows: seq<Provider>)
    ensures |Trimmed(rows)| == |rows|
    ensures forall i :: 0 <= i < |rows| ==> Trimmed(rows)[i] == Provider(LanMesh.Trim(rows[i].name), rows[i].rateBps)
  {
  }

  /** Unset, no tender is taxed, charges round to the rupee, every paid-out and discount asks, and nobody is owed. */
  lemma DefaultsExact(key: Key, tender: Tender)
    ensures ResolveConfig(map[], key).source == Default
    ensures ResolveConfig(map[], TaxMatrix).value.Matrix?
      && TaxCellForTender(ResolveConfig(map[], TaxMatrix).value, tender) == Cell(Untaxed, 0)
    ensures ResolveConfig(map[], ChargeRounding).value == Number(100)
    ensures ResolveConfig(map[], PaidOutThreshold).value == ResolveConfig(map[], DiscountThreshold).value == Number(0)
    ensures ResolveConfig(map[], Commission).value == Providers([])
  {
  }

  /** A delivered key resolves to what was delivered, and only such a key. */
  lemma DeliveredExact(configured: Configured, key: Key)
    ensures key in configured <==> ResolveConfig(configured, key).source == Delivered
    ensures key in configured ==> ResolveConfig(configured, key).value == configured[key]
    ensures key !in configured ==> ResolveConfig(configured, key) == ResolveConfig(map[], key)
  {
  }

  /** Of two rows for one tender the first stands. */
  lemma {:induction false} FirstRowStands(byDefault: Cell, rows: seq<Row>, i: nat)
    requires i < |rows| && forall j :: 0 <= j < i ==> rows[j].tender != rows[i].tender
    ensures CellFor(byDefault, rows, rows[i].tender) == rows[i].cell
  {
    if i > 0 {
      assert rows[1..][i - 1] == rows[i];
      FirstRowStands(byDefault, rows[1..], i - 1);
    }
  }

  /** The writer refuses a key this build does not know, and a value the key's own schema does not accept. */
  lemma WriterExact(text: Text, key: Key, value: Value, lower: Text -> Text)
    ensures RefuseConfigWrite(Unknown(text), value, lower) == Some(Unknown(text))
    ensures RefuseConfigWrite(Known(key), value, lower) == if Parsed(key, value, lower).Some? then None else Some(Known(key))
  {
    hide Parsed;
  }
}
