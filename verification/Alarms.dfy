/**
 * `apps/manager/src/alarms.ts`: the active alarm list, derived from projected rows and branch
 * facts. Ids and printer names are texts; a fact's payload may hold anything.
 */
module Alarms {
  import opened Wrappers
  import opened Text16

  // ----- what the view reads -------------------------------------------------------------------

  /** A payload member: a string, or something that is not one. */
  datatype Member = Absent | Str(s: Text) | Other

  datatype Fact = Fact(factType: FactType, alarmKind: Member, orderId: Member, printerName: Member)

  datatype FactType = PrintFailed | AlarmAcknowledged | OtherType

  datatype QueueRow = QueueRow(orderId: Text, channel: Text, ageBasis: int, linesReady: int, linesTotal: int)

  datatype OrderRow = OrderRow(orderId: Text, orderType: Text, tables: seq<Text>)

  datatype AlarmKind = LateOrder | PrinterDown

  datatype Alarm = Alarm(
    id: Text, kind: AlarmKind, orderId: Text, channel: Text, tables: seq<Text>, minutes: int, printerName: Option<Text>)

  /** `aging.thresholdsFor(orderType).redAt`. */
  type Aging = Text -> int

  datatype Context = Context(channel: Text, tables: seq<Text>, minutes: int, redAt: int)

  // ----- keys ----------------------------------------------------------------------------------

  const NUL: CodeUnit := 0

  const LATE: Text := Ascii("late_order")
  const PRINT: Text := Ascii("print_failed")

  function KindText(k: AlarmKind): Text {
    match k case LateOrder => LATE case PrinterDown => PRINT
  }

  const COLON: CodeUnit := 0x3A

  function Joined(sep: CodeUnit, a: Text, b: Text): Text {
    a + ([sep] + b)
  }

  function PairKey(orderId: Text, printer: Text): Text {
    Joined(NUL, orderId, printer)
  }

  function AckKey(kind: AlarmKind, orderId: Text, printer: Option<Text>): Text {
    Joined(NUL, KindText(kind), PairKey(orderId, NameOr(printer)))
  }

  /** The id a rendered list knows the alarm by. */
  function AlarmId(kind: AlarmKind, orderId: Text, printer: Option<Text>): Text {
    Joined(COLON, KindText(kind), if printer.None? then orderId else Joined(COLON, orderId, printer.value))
  }

  /** Splitting at the first separator. */
  lemma SplitAtFirst(sep: CodeUnit, a: Text, x: Text, b: Text, y: Text)
    requires sep !in a && sep !in b && Joined(sep, a, x) == Joined(sep, b, y)
    ensures a == b && x == y
  {
    var t := a + ([sep] + x);
    assert t[|a|] == sep && t[|b|] == sep;
    assert forall i :: 0 <= i < |a| ==> t[i] == a[i];
    assert forall i :: 0 <= i < |b| ==> t[i] == b[i];
    Cut(a, [sep] + x, b, [sep] + y);
    Cut([sep], x, [sep], y);
  }

  /** A pair without the separator shares its text with no other pair, with the separator or not. */
  lemma JoinedUnique(sep: CodeUnit, o: Text, p: Text, o': Text, p': Text)
    requires sep !in o && sep !in p && Joined(sep, o, p) == Joined(sep, o', p')
    ensures o == o' && p == p'
  {
    var t := Joined(sep, o, p);
    assert forall i :: 0 <= i < |t| && t[i] == sep ==> i == |o|;
    assert t[|o'|] == sep;
    Cut(o, [sep] + p, o', [sep] + p');
    Cut([sep], p, [sep], p');
  }

  lemma PairKeyUnique(o: Text, p: Text, o': Text, p': Text)
    requires NUL !in o && NUL !in p && PairKey(o, p) == PairKey(o', p')
    ensures o == o' && p == p'
  {
    JoinedUnique(NUL, o, p, o', p');
  }

  lemma KindsPlain(k: AlarmKind)
    ensures NUL !in KindText(k) && COLON !in KindText(k) && KindText(LateOrder) != KindText(PrinterDown)
  {
    assert |LATE| != |PRINT|;
    forall i | 0 <= i < |KindText(k)| ensures KindText(k)[i] != NUL && KindText(k)[i] != COLON {
    }
  }

  function NameOr(printer: Option<Text>): Text {
    match printer case None => [] case Some(p) => p
  }

  predicate NamesAlarm(kind: AlarmKind, printer: Option<Text>) {
    kind == LateOrder <==> printer == None
  }

  /** Names that share their key with no others: any late order, and a print pair without NUL. */
  predicate Plain(kind: AlarmKind, orderId: Text, printer: Option<Text>) {
    kind == LateOrder || (NUL !in orderId && NUL !in NameOr(printer))
  }

  lemma AckKeyUnique(k: AlarmKind, o: Text, p: Option<Text>, k': AlarmKind, o': Text, p': Option<Text>)
    requires NamesAlarm(k, p) && NamesAlarm(k', p') && Plain(k, o, p)
    requires AckKey(k, o, p) == AckKey(k', o', p')
    ensures k == k' && o == o' && p == p'
  {
    KindsPlain(k);
    KindsPlain(k');
    SplitAtFirst(NUL, KindText(k), PairKey(o, NameOr(p)), KindText(k'), PairKey(o', NameOr(p')));
    if k == LateOrder {
      assert PairKey(o, [])[..|PairKey(o, [])| - 1] == o && PairKey(o', [])[..|PairKey(o', [])| - 1] == o';
    } else {
      JoinedUnique(NUL, o, NameOr(p), o', NameOr(p'));
    }
  }

  /** Another pair with the same text: a separator inside a name taken for the one between them. */
  function Rival(sep: CodeUnit, o: Text, p: Text): (r: (Text, Text))
    requires sep in o || sep in p
    ensures Joined(sep, r.0, r.1) == Joined(sep, o, p) && r.0 != o
  {
    if sep in o then
      var i := FirstOf(sep, o);
      assert Joined(sep, o[..i], o[i + 1..] + ([sep] + p)) == Joined(sep, o, p);
      (o[..i], o[i + 1..] + ([sep] + p))
    else
      var i := FirstOf(sep, p);
      assert Joined(sep, o + ([sep] + p[..i]), p[i + 1..]) == Joined(sep, o, p);
      (o + ([sep] + p[..i]), p[i + 1..])
  }

  function FirstOf(c: CodeUnit, t: Text): (i: nat)
    requires c in t
    ensures i < |t| && t[i] == c
  {
    if t[0] == c then 0 else 1 + FirstOf(c, t[1..])
  }

  lemma RivalKey(o: Text, p: Text)
    requires NUL in o || NUL in p
    ensures var r := Rival(NUL, o, p); PairKey(r.0, r.1) == PairKey(o, p)
  {
  }

  /** A key is shared with no other alarm exactly when its names are plain. */
  lemma AckKeyUniqueIffPlain(k: AlarmKind, o: Text, p: Option<Text>)
    requires NamesAlarm(k, p)
    ensures (forall k', o', p' :: NamesAlarm(k', p') && AckKey(k', o', p') == AckKey(k, o, p) ==> k' == k && o' == o && p' == p)
      <==> Plain(k, o, p)
  {
    hide AckKey, PairKey;
    if Plain(k, o, p) {
      forall k', o', p' | NamesAlarm(k', p') && AckKey(k', o', p') == AckKey(k, o, p)
        ensures k' == k && o' == o && p' == p
      {
        AckKeyUnique(k, o, p, k', o', p');
      }
    } else {
      var rival := Rival(NUL, o, p.value);
      RivalKey(o, p.value);
      SameAckKey(o, p.value, rival.0, rival.1);
    }
  }

  lemma SameAckKey(o: Text, p: Text, o': Text, p': Text)
    requires PairKey(o, p) == PairKey(o', p')
    ensures AckKey(PrinterDown, o, Some(p)) == AckKey(PrinterDown, o', Some(p'))
  {
  }

  // ----- acknowledgments --------------------------------------------------------------------------

  /** A fact that is an acknowledgment of this alarm, every field a string of the right shape. */
  predicate Acknowledges(f: Fact, kind: AlarmKind, orderId: Text, printer: Option<Text>) {
    && f.factType == AlarmAcknowledged
    && f.alarmKind == Str(KindText(kind))
    && f.orderId == Str(orderId) && orderId != []
    && match kind
       case LateOrder => printer == None
       case PrinterDown => printer.Some? && f.printerName == Str(printer.value) && printer.value != []
  }

  /** `ackKeyOf`: a narrow, never a coercion. */
  function AckKeyOf(f: Fact): Option<Text> {
    if f.alarmKind != Str(LATE) && f.alarmKind != Str(PRINT) then None
    else if !f.orderId.Str? || f.orderId.s == [] then None
    else if f.alarmKind == Str(PRINT) then
      if f.printerName.Str? && f.printerName.s != [] then
        Some(AckKey(PrinterDown, f.orderId.s, Some(f.printerName.s)))
      else None
    else Some(AckKey(LateOrder, f.orderId.s, None))
  }

  method AcknowledgedKeys(facts: seq<Fact>) returns (acked: set<Text>)
    ensures forall k :: k in acked <==> exists f :: f in facts && f.factType == AlarmAcknowledged && AckKeyOf(f) == Some(k)
  {
    hide AckKeyOf;
    acked := {};
    for i := 0 to |facts|
      invariant forall k :: k in acked <==>
        exists f :: f in facts[..i] && f.factType == AlarmAcknowledged && AckKeyOf(f) == Some(k)
    {
      assert facts[..i + 1] == facts[..i] + [facts[i]];
      if facts[i].factType == AlarmAcknowledged {
        var key := AckKeyOf(facts[i]);
        if key.Some? {
          acked := acked + {key.value};
        }
      }
    }
    assert facts[..|facts|] == facts;
  }

  predicate Acknowledged(facts: seq<Fact>, kind: AlarmKind, orderId: Text, printer: Option<Text>) {
    exists f :: f in facts && f.factType == AlarmAcknowledged && AckKeyOf(f) == Some(AckKey(kind, orderId, printer))
  }

  /** For plain names the composed key says no more and no less than the three facts do. */
  lemma AcknowledgedByName(facts: seq<Fact>, kind: AlarmKind, o: Text, p: Option<Text>)
    requires NamesAlarm(kind, p) && Plain(kind, o, p)
    ensures Acknowledged(facts, kind, o, p) <==> exists f :: f in facts && Acknowledges(f, kind, o, p)
  {
    forall f | f in facts && f.factType == AlarmAcknowledged
      ensures AckKeyOf(f) == Some(AckKey(kind, o, p)) <==> Acknowledges(f, kind, o, p)
    {
      AckByName(f, kind, o, p);
    }
  }

  lemma AckByName(f: Fact, kind: AlarmKind, o: Text, p: Option<Text>)
    requires NamesAlarm(kind, p) && Plain(kind, o, p)
    requires f.factType == AlarmAcknowledged
    ensures AckKeyOf(f) == Some(AckKey(kind, o, p)) <==> Acknowledges(f, kind, o, p)
  {
    hide AckKey;
    KindsPlain(kind);
    if AckKeyOf(f) == Some(AckKey(kind, o, p)) {
      if f.alarmKind == Str(PRINT) {
        AckKeyUnique(kind, o, p, PrinterDown, f.orderId.s, Some(f.printerName.s));
      } else {
        AckKeyUnique(kind, o, p, LateOrder, f.orderId.s, None);
      }
    }
  }

  // ----- the list -------------------------------------------------------------------------------

  datatype Input = Input(queue: seq<QueueRow>, orders: seq<OrderRow>, facts: seq<Fact>, now: int, aging: Aging)

  /** The open-order row for an id, the last one winning. */
  function OrderOf(orders: seq<OrderRow>, id: Text): Option<OrderRow> {
    if orders == [] then None
    else if orders[|orders| - 1].orderId == id then Some(orders[|orders| - 1])
    else OrderOf(orders[..|orders| - 1], id)
  }

  predicate Unfinished(input: Input, row: QueueRow) {
    OrderOf(input.orders, row.orderId).Some? && row.linesReady < row.linesTotal
  }

  function ContextFor(input: Input, row: QueueRow): Context
    requires Unfinished(input, row)
  {
    var order := OrderOf(input.orders, row.orderId).value;
    var minutes := (input.now - row.ageBasis) / 60000;
    Context(row.channel, order.tables, if minutes > 0 then minutes else 0, input.aging(order.orderType))
  }

  /** What the kitchen still owes on an order: its last unfinished queue row, if it has one. */
  function ActiveContext(input: Input, queue: seq<QueueRow>, id: Text): Option<Context> {
    if queue == [] then None
    else
      var row := queue[|queue| - 1];
      if row.orderId == id && Unfinished(input, row) then Some(ContextFor(input, row))
      else ActiveContext(input, queue[..|queue| - 1], id)
  }

  function Active(input: Input, id: Text): Option<Context> {
    ActiveContext(input, input.queue, id)
  }

  function AlarmOf(kind: AlarmKind, id: Text, c: Context, printer: Option<Text>): Alarm {
    Alarm(AlarmId(kind, id, printer), kind, id, c.channel, c.tables, c.minutes, printer)
  }

  /** A failed print on an order the kitchen still owes. */
  predicate FailsAt(input: Input, f: Fact, o: Text, p: Text) {
    f.factType == PrintFailed && f.orderId == Str(o) && f.printerName == Str(p) && Active(input, o).Some?
  }

  /** Fact `i` is the first failure under its pair key. */
  predicate FirstFailure(input: Input, i: nat, o: Text, p: Text) {
    i < |input.facts| && FailsAt(input, input.facts[i], o, p)
    && forall j :: 0 <= j < i ==> FailureKey(input, input.facts[j]) != Some(PairKey(o, p))
  }

  /** The pair key a fact raises, if it is a failed print on an order still owed. */
  function FailureKey(input: Input, f: Fact): Option<Text> {
    if f.orderId.Str? && f.printerName.Str? && FailsAt(input, f, f.orderId.s, f.printerName.s)
    then Some(PairKey(f.orderId.s, f.printerName.s)) else None
  }

  predicate Late(input: Input, o: Text) {
    var c := Active(input, o);
    c.Some? && c.value.minutes >= c.value.redAt && !Acknowledged(input.facts, LateOrder, o, None)
  }

  ghost predicate Down(input: Input, o: Text, p: Text) {
    (exists i :: FirstFailure(input, i, o, p)) && !Acknowledged(input.facts, PrinterDown, o, Some(p))
  }

  /** Everything in the list is about a late order or a failed printer, and shows its order's facts. */
  ghost predicate Listed(input: Input, a: Alarm) {
    Active(input, a.orderId).Some?
    && a == AlarmOf(a.kind, a.orderId, Active(input, a.orderId).value, a.printerName)
    && match a.kind
       case LateOrder => a.printerName == None && Late(input, a.orderId)
       case PrinterDown => a.printerName.Some? && Down(input, a.orderId, a.printerName.value)
  }

  // ----- alarmsFrom -------------------------------------------------------------------------------

  predicate NoDuplicates<T(==)>(s: seq<T>) {
    forall i, j :: 0 <= i < j < |s| ==> s[i] != s[j]
  }

  /** Orders in queue order, each once, with the context of its last unfinished row. */
  method ActiveOrders(input: Input) returns (ids: seq<Text>, active: map<Text, Context>)
    ensures NoDuplicates(ids) && forall id :: id in ids <==> id in active
    ensures forall id :: Active(input, id) == if id in active then Some(active[id]) else None
  {
    ids, active := [], map[];
    for i := 0 to |input.queue|
      invariant NoDuplicates(ids) && forall id :: id in ids <==> id in active
      invariant forall id :: ActiveContext(input, input.queue[..i], id) == if id in active then Some(active[id]) else None
    {
      var row := input.queue[i];
      assert input.queue[..i + 1][..i] == input.queue[..i];
      if Unfinished(input, row) {
        if row.orderId !in active {
          ids := ids + [row.orderId];
        }
        active := active[row.orderId := ContextFor(input, row)];
      }
    }
    assert input.queue[..|input.queue|] == input.queue;
  }

  predicate LateListed(active: map<Text, Context>, acked: set<Text>, a: Alarm) {
    && a.kind == LateOrder && a.orderId in active
    && a == AlarmOf(LateOrder, a.orderId, active[a.orderId], None)
    && active[a.orderId].minutes >= active[a.orderId].redAt && AckKey(LateOrder, a.orderId, None) !in acked
  }

  /** `a` is raised by one of the first `n` facts. */
  ghost predicate PrintListed(input: Input, active: map<Text, Context>, acked: set<Text>, n: nat, a: Alarm) {
    && a.kind == PrinterDown && a.printerName.Some? && a.orderId in active
    && a == AlarmOf(PrinterDown, a.orderId, active[a.orderId], a.printerName)
    && AckKey(PrinterDown, a.orderId, a.printerName) !in acked
    && exists i :: 0 <= i < n && FirstFailure(input, i, a.orderId, a.printerName.value)
  }

  predicate ActiveIs(input: Input, active: map<Text, Context>, id: Text) {
    Active(input, id) == if id in active then Some(active[id]) else None
  }

  method LateAlarms(ids: seq<Text>, active: map<Text, Context>, acked: set<Text>) returns (alarms: seq<Alarm>)
    requires NoDuplicates(ids) && forall id :: id in ids <==> id in active
    ensures NoDuplicates(alarms) && forall a :: a in alarms <==> LateListed(active, acked, a)
  {
    hide AckKey;
    alarms := [];
    for i := 0 to |ids|
      invariant NoDuplicates(alarms)
      invariant forall a :: a in alarms <==> LateListed(active, acked, a) && a.orderId in ids[..i]
    {
      var id := ids[i];
      assert id in ids;
      assert ids[..i + 1] == ids[..i] + [id];
      assert id !in ids[..i];
      if active[id].minutes >= active[id].redAt && AckKey(LateOrder, id, None) !in acked {
        alarms := alarms + [AlarmOf(LateOrder, id, active[id], None)];
      }
    }
    assert ids[..|ids|] == ids;
  }

  /** Fact `i` adds its alarm exactly when it raises a new pair that nobody acknowledged. */
  lemma OneMoreFact(input: Input, active: map<Text, Context>, acked: set<Text>, i: nat, a: Alarm)
    requires i < |input.facts| && forall id :: ActiveIs(input, active, id)
    ensures PrintListed(input, active, acked, i + 1, a) <==>
      (PrintListed(input, active, acked, i, a) || AddedBy(input, active, acked, i, a))
    ensures !(PrintListed(input, active, acked, i, a) && AddedBy(input, active, acked, i, a))
  {
    hide AckKey, PairKey, Active;
  }

  predicate AddedBy(input: Input, active: map<Text, Context>, acked: set<Text>, i: nat, a: Alarm)
    requires i < |input.facts|
  {
    var f := input.facts[i];
    && f.orderId.Str? && f.printerName.Str? && f.orderId.s in active
    && FirstFailure(input, i, f.orderId.s, f.printerName.s)
    && AckKey(PrinterDown, f.orderId.s, Some(f.printerName.s)) !in acked
    && a == AlarmOf(PrinterDown, f.orderId.s, active[f.orderId.s], Some(f.printerName.s))
  }

  method PrintAlarms(input: Input, active: map<Text, Context>, acked: set<Text>) returns (alarms: seq<Alarm>)
    requires forall id :: ActiveIs(input, active, id)
    ensures NoDuplicates(alarms) && forall a :: a in alarms <==> PrintListed(input, active, acked, |input.facts|, a)
  {
    hide AckKey, PairKey, Active, PrintListed;
    alarms := [];
    var raised: set<Text> := {};
    NothingRaised(input, active, acked);
    for i := 0 to |input.facts|
      invariant forall k :: k in raised <==> exists j :: 0 <= j < i && FailureKey(input, input.facts[j]) == Some(k)
      invariant NoDuplicates(alarms)
      invariant forall a :: a in alarms <==> PrintListed(input, active, acked, i, a)
    {
      forall a ensures PrintListed(input, active, acked, i + 1, a) <==>
          (PrintListed(input, active, acked, i, a) || AddedBy(input, active, acked, i, a))
        ensures !(PrintListed(input, active, acked, i, a) && AddedBy(input, active, acked, i, a))
      {
        OneMoreFact(input, active, acked, i, a);
      }
      var f := input.facts[i];
      if f.factType == PrintFailed && f.orderId.Str? && f.printerName.Str? && f.orderId.s in active {
        var o, p := f.orderId.s, f.printerName.s;
        assert ActiveIs(input, active, o);
        var key := PairKey(o, p);
        assert FailureKey(input, f) == Some(key);
        assert key !in raised <==> FirstFailure(input, i, o, p);
        ghost var added := AlarmOf(PrinterDown, o, active[o], Some(p));
        assert forall a :: (AddedBy(input, active, acked, i, a) <==>
                            a == added && key !in raised && AckKey(PrinterDown, o, Some(p)) !in acked);
        assert AddedBy(input, active, acked, i, added) ==> added !in alarms;
        if key !in raised {
          raised := raised + {key};
          if AckKey(PrinterDown, o, Some(p)) !in acked {
            alarms := alarms + [AlarmOf(PrinterDown, o, active[o], Some(p))];
          }
        }
      } else {
        assert f.orderId.Str? ==> ActiveIs(input, active, f.orderId.s);
        assert FailureKey(input, f) == None;
        assert forall a :: !AddedBy(input, active, acked, i, a);
      }
    }
  }

  lemma NothingRaised(input: Input, active: map<Text, Context>, acked: set<Text>)
    ensures forall a :: !PrintListed(input, active, acked, 0, a)
  {
  }

  lemma ListedParts(input: Input, active: map<Text, Context>, acked: set<Text>, a: Alarm)
    requires forall id :: ActiveIs(input, active, id)
    requires forall k :: (k in acked <==>
                          exists f :: f in input.facts && f.factType == AlarmAcknowledged && AckKeyOf(f) == Some(k))
    ensures Listed(input, a)
      <==> LateListed(active, acked, a) || PrintListed(input, active, acked, |input.facts|, a)
  {
    hide AckKey, AckKeyOf, PairKey, Active, FirstFailure;
    assert ActiveIs(input, active, a.orderId);
    assert AckKey(a.kind, a.orderId, a.printerName) in acked
      <==> Acknowledged(input.facts, a.kind, a.orderId, a.printerName);
    if Listed(input, a) && a.kind == PrinterDown {
      var i :| FirstFailure(input, i, a.orderId, a.printerName.value);
      FirstFailureInRange(input, i, a.orderId, a.printerName.value);
    }
  }

  lemma FirstFailureInRange(input: Input, i: nat, o: Text, p: Text)
    requires FirstFailure(input, i, o, p)
    ensures i < |input.facts|
  {
  }

  /** The active alarm list: exactly what is listed, each alarm once. */
  method AlarmsFrom(input: Input) returns (alarms: seq<Alarm>)
    ensures NoDuplicates(alarms) && forall a :: a in alarms <==> Listed(input, a)
  {
    hide AckKeyOf, AckKey, Active, PrintListed, Listed;
    var ids, active := ActiveOrders(input);
    assert forall id :: ActiveIs(input, active, id);
    var acked := AcknowledgedKeys(input.facts);
    var late := LateAlarms(ids, active, acked);
    var down := PrintAlarms(input, active, acked);
    alarms := late + down;
    forall a
      ensures Listed(input, a) <==> a in alarms
      ensures !(a in late && a in down)
    {
      ListedParts(input, active, acked, a);
      KindOfListed(input, active, acked, a);
    }
    NoDuplicatesConcat(late, down);
  }

  lemma NoDuplicatesConcat<T>(a: seq<T>, b: seq<T>)
    requires NoDuplicates(a) && NoDuplicates(b) && forall x :: !(x in a && x in b)
    ensures NoDuplicates(a + b)
  {
    forall i, j | 0 <= i < |a| && 0 <= j < |b| ensures a[i] != b[j] {
      assert a[i] in a && b[j] in b;
    }
  }

  lemma KindOfListed(input: Input, active: map<Text, Context>, acked: set<Text>, a: Alarm)
    ensures LateListed(active, acked, a) ==> !PrintListed(input, active, acked, |input.facts|, a)
  {
  }

  // ----- what the list promises -------------------------------------------------------------------

  /** Some failed print names this order and this printer. */
  predicate PrintFailedFor(facts: seq<Fact>, o: Text, p: Text) {
    exists f :: f in facts && f.factType == PrintFailed && f.orderId == Str(o) && f.printerName == Str(p)
  }

  predicate AcknowledgedFor(facts: seq<Fact>, kind: AlarmKind, o: Text, p: Option<Text>) {
    exists f :: f in facts && Acknowledges(f, kind, o, p)
  }

  /** The alarm a manager should see, in the ledger's own terms and with no key in sight. */
  predicate Due(input: Input, a: Alarm) {
    && NamesAlarm(a.kind, a.printerName) && Active(input, a.orderId).Some?
    && a == AlarmOf(a.kind, a.orderId, Active(input, a.orderId).value, a.printerName)
    && !AcknowledgedFor(input.facts, a.kind, a.orderId, a.printerName)
    && match a.printerName
       case None => a.minutes >= Active(input, a.orderId).value.redAt
       case Some(p) => PrintFailedFor(input.facts, a.orderId, p)
  }

  lemma {:induction false} FirstOfFailures(input: Input, o: Text, p: Text, n: nat)
    requires Plain(PrinterDown, o, Some(p)) && n <= |input.facts| && Active(input, o).Some?
    requires PrintFailedFor(input.facts[..n], o, p)
    ensures exists i :: FirstFailure(input, i, o, p)
  {
    hide Active, PairKey;
    var init := input.facts[..n];
    if n > 0 && PrintFailedFor(input.facts[..n - 1], o, p) {
      FirstOfFailures(input, o, p, n - 1);
    } else {
      assert init == input.facts[..n - 1] + [input.facts[n - 1]];
      forall j | 0 <= j < n - 1 ensures FailureKey(input, input.facts[j]) != Some(PairKey(o, p)) {
        var f := input.facts[j];
        assert f in input.facts[..n - 1];
        if FailureKey(input, f) == Some(PairKey(o, p)) {
          PairKeyUnique(o, p, f.orderId.s, f.printerName.s);
        }
      }
      assert FirstFailure(input, n - 1, o, p);
    }
  }

  /** For plain names the list holds exactly the alarms that are due. */
  lemma ListedIffDue(input: Input, a: Alarm)
    requires Plain(a.kind, a.orderId, a.printerName)
    ensures Listed(input, a) <==> Due(input, a)
  {
    hide Active, PairKey, AckKey, AckKeyOf, Acknowledges;
    if NamesAlarm(a.kind, a.printerName) {
      AcknowledgedByName(input.facts, a.kind, a.orderId, a.printerName);
      if a.kind == PrinterDown {
        var p := a.printerName.value;
        if Active(input, a.orderId).Some? && PrintFailedFor(input.facts, a.orderId, p) {
          assert input.facts[..|input.facts|] == input.facts;
          FirstOfFailures(input, a.orderId, p, |input.facts|);
        }
        if exists i: nat :: FirstFailure(input, i, a.orderId, p) {
          var i: nat :| FirstFailure(input, i, a.orderId, p);
          FirstFailureInRange(input, i, a.orderId, p);
          assert input.facts[i] in input.facts;
        }
      }
    }
  }

  /** The same facts in another order, or repeated, give the same alarms. */
  lemma FactOrderIrrelevant(input: Input, facts: seq<Fact>, a: Alarm)
    requires Plain(a.kind, a.orderId, a.printerName) && forall f :: f in facts <==> f in input.facts
    ensures Listed(input.(facts := facts), a) <==> Listed(input, a)
  {
    hide AckKey, AckKeyOf, Acknowledges, Active, Listed;
    ListedIffDue(input, a);
    ListedIffDue(input.(facts := facts), a);
    SameActive(input, facts, a.orderId);
  }

  lemma SameActive(input: Input, facts: seq<Fact>, id: Text)
    ensures Active(input.(facts := facts), id) == Active(input, id)
  {
    SameContext(input, facts, input.queue, id);
  }

  lemma {:induction false} SameContext(input: Input, facts: seq<Fact>, queue: seq<QueueRow>, id: Text)
    ensures ActiveContext(input.(facts := facts), queue, id) == ActiveContext(input, queue, id)
  {
    if queue != [] {
      SameContext(input, facts, queue[..|queue| - 1], id);
    }
  }

  /** Acknowledgments, wherever they arrive, only take alarms away. */
  lemma AcksOnlyRemove(input: Input, facts: seq<Fact>, a: Alarm)
    requires Plain(a.kind, a.orderId, a.printerName)
    requires forall f :: f in input.facts ==> f in facts
    requires forall f :: f in facts && f !in input.facts ==> f.factType == AlarmAcknowledged
    ensures Listed(input.(facts := facts), a) ==> Listed(input, a)
  {
    hide AckKey, AckKeyOf, Acknowledges, Active, Listed;
    ListedIffDue(input, a);
    ListedIffDue(input.(facts := facts), a);
    SameActive(input, facts, a.orderId);
  }

  predicate SameAlarm(a: Alarm, b: Alarm) {
    a.kind == b.kind && a.orderId == b.orderId && a.printerName == b.printerName
  }

  /** A well-formed acknowledgment takes away exactly what shares its key, whatever the names hold. */
  lemma AckTakesItsKey(input: Input, ack: Fact, named: Alarm, a: Alarm)
    requires NamesAlarm(named.kind, named.printerName) && Acknowledges(ack, named.kind, named.orderId, named.printerName)
    ensures Listed(input.(facts := input.facts + [ack]), a) <==>
      (Listed(input, a)
       && AckKey(named.kind, named.orderId, named.printerName) != AckKey(a.kind, a.orderId, a.printerName))
  {
    hide AckKey, PairKey, Active, FirstFailure, AckKeyOf;
    var after := input.(facts := input.facts + [ack]);
    SameActive(input, after.facts, a.orderId);
    KeyOfAck(ack, named);
    assert forall f :: f in after.facts <==> f in input.facts || f == ack;
    if a.printerName.Some? {
      AckIsNoFailure(input, ack, a.orderId, a.printerName.value);
    }
  }

  lemma KeyOfAck(ack: Fact, named: Alarm)
    requires NamesAlarm(named.kind, named.printerName) && Acknowledges(ack, named.kind, named.orderId, named.printerName)
    ensures AckKeyOf(ack) == Some(AckKey(named.kind, named.orderId, named.printerName))
  {
    hide AckKey;
    KindsPlain(named.kind);
  }

  lemma AckIsNoFailure(input: Input, ack: Fact, o: Text, p: Text)
    requires ack.factType == AlarmAcknowledged
    ensures var after := input.(facts := input.facts + [ack]);
      (exists i :: FirstFailure(after, i, o, p)) <==> (exists i :: FirstFailure(input, i, o, p))
  {
    hide PairKey, Active;
    var after := input.(facts := input.facts + [ack]);
    forall id ensures Active(after, id) == Active(input, id) {
      SameActive(input, after.facts, id);
    }
    forall j | 0 <= j < |input.facts|
      ensures FailureKey(after, after.facts[j]) == FailureKey(input, input.facts[j])
      ensures FailsAt(after, after.facts[j], o, p) <==> FailsAt(input, input.facts[j], o, p)
    {
      assert after.facts[j] == input.facts[j];
    }
    forall i: nat ensures FirstFailure(after, i, o, p) <==> FirstFailure(input, i, o, p) {
      if i >= |input.facts| {
        FirstFailureIsFailure(after, i, o, p);
      }
    }
  }

  lemma FirstFailureIsFailure(input: Input, i: nat, o: Text, p: Text)
    ensures FirstFailure(input, i, o, p) ==> i < |input.facts| && input.facts[i].factType == PrintFailed
  {
  }

  /** No other pair that an acknowledgment can name has this key: a NUL only at the outer ends of the names. */
  predicate Alone(kind: AlarmKind, o: Text, p: Option<Text>) {
    || kind == LateOrder
    || (&& (forall i :: 0 < i < |o| ==> o[i] != NUL)
        && (forall i :: 0 <= i < |NameOr(p)| - 1 ==> NameOr(p)[i] != NUL))
  }

  /** Then an acknowledgment of a listed alarm takes away that alarm and no other. */
  lemma AckTakesItsAlarm(input: Input, ack: Fact, named: Alarm, a: Alarm)
    requires Alone(a.kind, a.orderId, a.printerName) && NamesAlarm(named.kind, named.printerName)
    requires Acknowledges(ack, named.kind, named.orderId, named.printerName)
    ensures Listed(input.(facts := input.facts + [ack]), a) <==> (Listed(input, a) && !SameAlarm(a, named))
  {
    hide AckKey, Active, FirstFailure;
    AckTakesItsKey(input, ack, named, a);
    if Listed(input, a)
       && AckKey(named.kind, named.orderId, named.printerName) == AckKey(a.kind, a.orderId, a.printerName) {
      AckKeyAlone(a.kind, a.orderId, a.printerName, named.kind, named.orderId, named.printerName);
    }
  }

  lemma AckKeyAlone(k: AlarmKind, o: Text, p: Option<Text>, k': AlarmKind, o': Text, p': Option<Text>)
    requires NamesAlarm(k, p) && NamesAlarm(k', p') && Alone(k, o, p) && o' != [] && p' != Some([])
    requires AckKey(k, o, p) == AckKey(k', o', p')
    ensures k == k' && o == o' && p == p'
  {
    KindsPlain(k);
    KindsPlain(k');
    if k == LateOrder {
      AckKeyUnique(k, o, p, k', o', p');
    } else {
      SplitAtFirst(NUL, KindText(k), PairKey(o, p.value), KindText(k'), PairKey(o', NameOr(p')));
      PairKeyAlone(o, p.value, o', p'.value);
    }
  }

  lemma PairKeyAlone(o: Text, p: Text, o': Text, p': Text)
    requires Alone(PrinterDown, o, Some(p)) && o' != [] && p' != [] && PairKey(o, p) == PairKey(o', p')
    ensures o == o' && p == p'
  {
    var t := PairKey(o, p);
    assert forall i :: 0 <= i < |o| ==> t[i] == o[i];
    assert forall i :: |o| < i < |t| ==> t[i] == NameOr(Some(p))[i - |o| - 1];
    assert forall i :: 0 < i < |t| - 1 && t[i] == NUL ==> i == |o|;
    assert t[|o'|] == NUL && 0 < |o'| < |t| - 1;
    Cut(o, [NUL] + p, o', [NUL] + p');
    Cut([NUL], p, [NUL], p');
  }

  // ----- names that hold a NUL ----------------------------------------------------------------------

  /** Two orders still owed and a failed print on each, that of `u` and `v` first. */
  function TwoFailures(u: Text, v: Text, o: Text, p: Text): Input {
    Input(
      [QueueRow(u, [], 0, 0, 1), QueueRow(o, [], 0, 0, 1)],
      [OrderRow(u, [], []), OrderRow(o, [], [])],
      [ Fact(PrintFailed, Absent, Str(u), Str(v)), Fact(PrintFailed, Absent, Str(o), Str(p)) ],
      0, orderType => 1)
  }

  const IDLE := Context([], [], 0, 1)

  lemma BothActive(u: Text, v: Text, o: Text, p: Text)
    requires u != o
    ensures Active(TwoFailures(u, v, o, p), o) == Some(IDLE) && Active(TwoFailures(u, v, o, p), u) == Some(IDLE)
  {
    var input := TwoFailures(u, v, o, p);
    assert input.orders[..1] == [OrderRow(u, [], [])];
    assert OrderOf(input.orders, o) == Some(OrderRow(o, [], []));
    assert OrderOf(input.orders, u) == Some(OrderRow(u, [], []));
    assert input.queue[..1] == [QueueRow(u, [], 0, 0, 1)];
    assert Unfinished(input, input.queue[0]) && Unfinished(input, input.queue[1]);
    assert ActiveContext(input, input.queue[..1], u) == Some(IDLE);
  }

  /** The failure of a pair that holds a NUL, after that of its rival. */
  function Collision(o: Text, p: Text): Input
    requires NUL in o || NUL in p
  {
    TwoFailures(Rival(NUL, o, p).0, Rival(NUL, o, p).1, o, p)
  }

  /** For every print pair that holds a NUL there are facts that make its alarm due and leave it off the list. */
  lemma NulPairLost(o: Text, p: Text)
    requires NUL in o || NUL in p
    ensures var input, a := Collision(o, p), AlarmOf(PrinterDown, o, IDLE, Some(p));
      Due(input, a) && !Listed(input, a)
  {
    hide Active, PairKey, AckKey;
    var input, rival := Collision(o, p), Rival(NUL, o, p);
    BothActive(Rival(NUL, o, p).0, Rival(NUL, o, p).1, o, p);
    assert input.facts[1] in input.facts;
    RivalKey(o, p);
    assert FailureKey(input, input.facts[0]) == Some(PairKey(o, p));
    assert input.facts[0].orderId != Str(o);
    assert forall i :: !FirstFailure(input, i, o, p);
  }

  /** A failure on order "1" that hides a later one, due but never listed, whose order id is "1", NUL, "2". */
  lemma NulNamesCollide()
    ensures var o: Text, p: Text := [0x31, NUL, 0x32], [0x33];
      && PairKey(o, p) == PairKey([0x31], [0x32, NUL, 0x33])
      && Due(Collision(o, p), AlarmOf(PrinterDown, o, IDLE, Some(p)))
      && !Listed(Collision(o, p), AlarmOf(PrinterDown, o, IDLE, Some(p)))
  {
    NulPairLost([0x31, NUL, 0x32], [0x33]);
  }

  /** An alarm that is listed exactly when due, whatever the rows and facts. */
  ghost predicate Trusted(kind: AlarmKind, o: Text, p: Option<Text>) {
    forall input, a: Alarm :: a.kind == kind && a.orderId == o && a.printerName == p ==> (Listed(input, a) <==> Due(input, a))
  }

  /** The list can be trusted about a name exactly when the name is plain: late orders always are. */
  lemma TrustedIffPlain(kind: AlarmKind, o: Text, p: Option<Text>)
    requires NamesAlarm(kind, p)
    ensures Trusted(kind, o, p) <==> Plain(kind, o, p)
  {
    hide Listed, Due, Collision;
    if Plain(kind, o, p) {
      forall input, a: Alarm | a.kind == kind && a.orderId == o && a.printerName == p
        ensures Listed(input, a) <==> Due(input, a)
      {
        ListedIffDue(input, a);
      }
    } else {
      NulPairLost(o, p.value);
      assert !(Listed(Collision(o, p.value), AlarmOf(PrinterDown, o, IDLE, Some(p.value)))
               <==> Due(Collision(o, p.value), AlarmOf(PrinterDown, o, IDLE, Some(p.value))));
    }
  }

  /** Facts in any order, and any number of times, list the same alarms of this name. */
  ghost predicate OrderFree(kind: AlarmKind, o: Text, p: Option<Text>) {
    forall input: Input, facts: seq<Fact>, a: Alarm ::
      a.kind == kind && a.orderId == o && a.printerName == p && SameFacts(facts, input.facts)
      ==> (Listed(input.(facts := facts), a) <==> Listed(input, a))
  }

  ghost predicate SameFacts(f: seq<Fact>, g: seq<Fact>) {
    forall x :: x in f <==> x in g
  }

  /** Further acknowledgments, wherever they arrive, never list an alarm of this name. */
  ghost predicate OnlyRemoved(kind: AlarmKind, o: Text, p: Option<Text>) {
    forall input: Input, facts: seq<Fact>, a: Alarm ::
      a.kind == kind && a.orderId == o && a.printerName == p && AcksAdded(facts, input.facts)
      ==> (Listed(input.(facts := facts), a) ==> Listed(input, a))
  }

  ghost predicate AcksAdded(f: seq<Fact>, g: seq<Fact>) {
    && (forall x :: x in g ==> x in f)
    && (forall x :: x in f && x !in g ==> x.factType == AlarmAcknowledged)
  }

  /** The failures of `Collision`, the pair's own first. */
  function Swapped(o: Text, p: Text): Input
    requires NUL in o || NUL in p
  {
    var input := Collision(o, p);
    input.(facts := [input.facts[1], input.facts[0]])
  }

  lemma FirstOfTwoListed(o: Text, p: Text)
    requires NUL in o || NUL in p
    ensures Listed(Swapped(o, p), AlarmOf(PrinterDown, o, IDLE, Some(p)))
  {
    hide Active, PairKey, AckKey;
    var input := Collision(o, p);
    BothActive(Rival(NUL, o, p).0, Rival(NUL, o, p).1, o, p);
    SameActive(input, Swapped(o, p).facts, o);
    assert FirstFailure(Swapped(o, p), 0, o, p);
    assert !Acknowledged(Swapped(o, p).facts, PrinterDown, o, Some(p));
  }

  lemma SwappedIsCollision(o: Text, p: Text)
    requires NUL in o || NUL in p
    ensures Swapped(o, p) == Collision(o, p).(facts := Swapped(o, p).facts)
    ensures SameFacts(Swapped(o, p).facts, Collision(o, p).facts)
    ensures AcksAdded(Swapped(o, p).facts, Collision(o, p).facts)
  {
  }

  /** The order of the facts reaches an alarm exactly when its pair holds a NUL, and so can a late acknowledgment. */
  lemma OrderFreeIffPlain(kind: AlarmKind, o: Text, p: Option<Text>)
    requires NamesAlarm(kind, p)
    ensures OrderFree(kind, o, p) <==> Plain(kind, o, p)
    ensures OnlyRemoved(kind, o, p) <==> Plain(kind, o, p)
  {
    hide Listed, Due, Collision, Swapped;
    if Plain(kind, o, p) {
      forall input: Input, facts: seq<Fact>, a: Alarm
        | a.kind == kind && a.orderId == o && a.printerName == p && SameFacts(facts, input.facts)
        ensures Listed(input.(facts := facts), a) <==> Listed(input, a)
      {
        FactOrderIrrelevant(input, facts, a);
      }
      forall input: Input, facts: seq<Fact>, a: Alarm
        | a.kind == kind && a.orderId == o && a.printerName == p && AcksAdded(facts, input.facts)
        ensures Listed(input.(facts := facts), a) ==> Listed(input, a)
      {
        AcksOnlyRemove(input, facts, a);
      }
    } else {
      var input, facts, a := Collision(o, p.value), Swapped(o, p.value).facts, AlarmOf(PrinterDown, o, IDLE, p);
      NulPairLost(o, p.value);
      SwappedIsCollision(o, p.value);
      FirstOfTwoListed(o, p.value);
      assert Listed(input.(facts := facts), a) && !Listed(input, a);
    }
  }

  /** An acknowledgment takes away the alarm it names, and no other of this name. */
  ghost predicate Exact(kind: AlarmKind, o: Text, p: Option<Text>) {
    forall input: Input, ack: Fact, named: Alarm, a: Alarm ::
      (a.kind == kind && a.orderId == o && a.printerName == p && NamesAlarm(named.kind, named.printerName)
       && Acknowledges(ack, named.kind, named.orderId, named.printerName))
      ==> (Listed(input.(facts := input.facts + [ack]), a) <==> (Listed(input, a) && !SameAlarm(a, named)))
  }

  /** Another pair under the same key that an acknowledgment can name: neither name empty. */
  lemma NamedRival(o: Text, p: Text) returns (o': Text, p': Text)
    requires !Alone(PrinterDown, o, Some(p))
    ensures (NUL in o || NUL in p) && o' != [] && p' != [] && o' != o && PairKey(o', p') == PairKey(o, p)
  {
    if i :| 0 < i < |o| && o[i] == NUL {
      o', p' := o[..i], o[i + 1..] + ([NUL] + p);
      assert o == o[..i] + [NUL] + o[i + 1..];
    } else {
      var i :| 0 <= i < |p| - 1 && p[i] == NUL;
      o', p' := o + ([NUL] + p[..i]), p[i + 1..];
      assert p == p[..i] + [NUL] + p[i + 1..];
    }
  }

  lemma AloneExact(kind: AlarmKind, o: Text, p: Option<Text>)
    requires NamesAlarm(kind, p) && Alone(kind, o, p)
    ensures Exact(kind, o, p)
  {
    hide Listed, SameAlarm, Alone, Acknowledges;
    forall input: Input, ack: Fact, named: Alarm, a: Alarm
      | (a.kind == kind && a.orderId == o && a.printerName == p && NamesAlarm(named.kind, named.printerName)
         && Acknowledges(ack, named.kind, named.orderId, named.printerName))
      ensures Listed(input.(facts := input.facts + [ack]), a) <==> (Listed(input, a) && !SameAlarm(a, named))
    {
      AckTakesItsAlarm(input, ack, named, a);
    }
  }

  /** The acknowledgment of a rival takes the alarm away too. */
  lemma RivalTakes(o: Text, p: Text, o': Text, p': Text)
    requires (NUL in o || NUL in p) && o' != [] && p' != [] && PairKey(o', p') == PairKey(o, p)
    ensures var ack := Fact(AlarmAcknowledged, Str(PRINT), Str(o'), Str(p'));
      var input, a := Swapped(o, p), AlarmOf(PrinterDown, o, IDLE, Some(p));
      && Acknowledges(ack, PrinterDown, o', Some(p'))
      && Listed(input, a) && !Listed(input.(facts := input.facts + [ack]), a)
  {
    hide Listed, Swapped, AckKey, PairKey;
    var named := AlarmOf(PrinterDown, o', IDLE, Some(p'));
    FirstOfTwoListed(o, p);
    SameAckKey(o, p, o', p');
    AckTakesItsKey(Swapped(o, p), Fact(AlarmAcknowledged, Str(PRINT), Str(o'), Str(p')), named, AlarmOf(PrinterDown, o, IDLE, Some(p)));
  }

  lemma ExactIffAlone(kind: AlarmKind, o: Text, p: Option<Text>)
    requires NamesAlarm(kind, p)
    ensures Exact(kind, o, p) <==> Alone(kind, o, p)
  {
    hide Listed, Swapped, Acknowledges, PairKey;
    if Alone(kind, o, p) {
      AloneExact(kind, o, p);
    } else {
      var o', p' := NamedRival(o, p.value);
      RivalTakes(o, p.value, o', p');
      var a, named := AlarmOf(PrinterDown, o, IDLE, p), AlarmOf(PrinterDown, o', IDLE, Some(p'));
      assert !SameAlarm(a, named);
    }
  }

  // ----- the ids the list is rendered under -------------------------------------------------------------

  /** Names whose id is that of no other alarm: any late order, and a print pair without a colon. */
  predicate Rendered(kind: AlarmKind, o: Text, p: Option<Text>) {
    kind == LateOrder || (COLON !in o && COLON !in NameOr(p))
  }

  /** Alarms share an id exactly when they are the same, or failed prints whose pairs read the same around a colon. */
  lemma SameIdIff(k: AlarmKind, o: Text, p: Option<Text>, k': AlarmKind, o': Text, p': Option<Text>)
    requires NamesAlarm(k, p) && NamesAlarm(k', p')
    ensures AlarmId(k, o, p) == AlarmId(k', o', p') <==>
      (k == k' && (if k == LateOrder then o == o' else Joined(COLON, o, p.value) == Joined(COLON, o', p'.value)))
  {
    hide Joined;
    KindsPlain(k);
    KindsPlain(k');
    if AlarmId(k, o, p) == AlarmId(k', o', p') {
      SplitAtFirst(COLON, KindText(k), if p.None? then o else Joined(COLON, o, p.value),
                   KindText(k'), if p'.None? then o' else Joined(COLON, o', p'.value));
    }
  }

  lemma IdUniqueIffRendered(k: AlarmKind, o: Text, p: Option<Text>)
    requires NamesAlarm(k, p)
    ensures (forall k', o', p' :: NamesAlarm(k', p') && AlarmId(k', o', p') == AlarmId(k, o, p) ==> k' == k && o' == o && p' == p)
      <==> Rendered(k, o, p)
  {
    hide AlarmId, Joined;
    if Rendered(k, o, p) {
      forall k', o', p' | NamesAlarm(k', p') && AlarmId(k', o', p') == AlarmId(k, o, p)
        ensures k' == k && o' == o && p' == p
      {
        SameIdIff(k, o, p, k', o', p');
        if k == PrinterDown { JoinedUnique(COLON, o, p.value, o', p'.value); }
      }
    } else {
      var r := Rival(COLON, o, p.value);
      SameIdIff(k, o, p, PrinterDown, r.0, Some(r.1));
    }
  }

  /** In one list an id names one alarm, unless it is that of a print pair that holds a colon. */
  lemma ListedIdsDistinct(input: Input, a: Alarm, b: Alarm)
    requires Listed(input, a) && Listed(input, b) && a.id == b.id && Rendered(a.kind, a.orderId, a.printerName)
    ensures a == b
  {
    hide Active, Late, Down, AlarmId;
    IdUniqueIffRendered(a.kind, a.orderId, a.printerName);
  }

  /** And for every print pair that holds a colon some list shows its alarm beside another under the same id. */
  lemma ColonPairShared(o: Text, p: Text)
    requires COLON in o || COLON in p
    ensures var r := Rival(COLON, o, p);
      var input := TwoFailures(r.0, r.1, o, p);
      var a, b := AlarmOf(PrinterDown, o, IDLE, Some(p)), AlarmOf(PrinterDown, r.0, IDLE, Some(r.1));
      Listed(input, a) && Listed(input, b) && a != b && a.id == b.id
  {
    var r := Rival(COLON, o, p);
    OtherKey(o, p, r.0, r.1);
    SameIdIff(PrinterDown, o, Some(p), PrinterDown, r.0, Some(r.1));
    BothListed(r.0, r.1, o, p);
  }

  lemma OtherKey(o: Text, p: Text, o': Text, p': Text)
    requires Joined(COLON, o, p) == Joined(COLON, o', p') && o != o'
    ensures PairKey(o, p) != PairKey(o', p')
  {
    var t, u := Joined(COLON, o, p), Joined(NUL, o, p);
    assert t[..|o|] == o && t[..|o'|] == o';
    assert t[|o'|] == COLON && u[|o'|] == t[|o'|];
  }

  lemma BothListed(u: Text, v: Text, o: Text, p: Text)
    requires u != o && PairKey(u, v) != PairKey(o, p)
    ensures Listed(TwoFailures(u, v, o, p), AlarmOf(PrinterDown, u, IDLE, Some(v)))
    ensures Listed(TwoFailures(u, v, o, p), AlarmOf(PrinterDown, o, IDLE, Some(p)))
  {
    hide Active, PairKey, AckKey;
    var input := TwoFailures(u, v, o, p);
    BothActive(u, v, o, p);
    assert FirstFailure(input, 0, u, v) && FirstFailure(input, 1, o, p);
    assert !Acknowledged(input.facts, PrinterDown, u, Some(v)) && !Acknowledged(input.facts, PrinterDown, o, Some(p));
  }

  // ----- the list in the rows' and facts' own terms ---------------------------------------------------------

  /** The order's row: the last one under its id. */
  predicate IsOrderRow(orders: seq<OrderRow>, k: nat, o: Text) {
    k < |orders| && orders[k].orderId == o && forall j :: k < j < |orders| ==> orders[j].orderId != o
  }

  predicate Owes(row: QueueRow, o: Text) {
    row.orderId == o && row.linesReady < row.linesTotal
  }

  /** The queue row that counts: the order's last with fewer lines ready than in total. */
  predicate IsOwedRow(queue: seq<QueueRow>, i: nat, o: Text) {
    i < |queue| && Owes(queue[i], o) && forall j :: i < j < |queue| ==> !Owes(queue[j], o)
  }

  /** Whole minutes since the age basis, none before it. */
  predicate IsAge(minutes: int, now: int, ageBasis: int) {
    if now < ageBasis then minutes == 0 else minutes * 60_000 <= now - ageBasis < (minutes + 1) * 60_000
  }

  /** What an alarm for an order shows: its channel and age from the queue row, its tables from the order row. */
  predicate Shows(input: Input, i: nat, k: nat, a: Alarm) {
    && IsOwedRow(input.queue, i, a.orderId) && IsOrderRow(input.orders, k, a.orderId)
    && a.channel == input.queue[i].channel && a.tables == input.orders[k].tables
    && IsAge(a.minutes, input.now, input.queue[i].ageBasis)
  }

  lemma {:induction false} OrderRowFound(orders: seq<OrderRow>, o: Text) returns (k: nat)
    ensures OrderOf(orders, o).Some? ==> IsOrderRow(orders, k, o) && orders[k] == OrderOf(orders, o).value
    ensures OrderOf(orders, o).None? ==> forall j :: 0 <= j < |orders| ==> orders[j].orderId != o
  {
    k := 0;
    if orders != [] {
      k := |orders| - 1;
      if orders[k].orderId != o {
        var init := orders[..|orders| - 1];
        k := OrderRowFound(init, o);
        assert forall j :: 0 <= j < |init| ==> init[j] == orders[j];
      }
    }
  }

  lemma {:induction false} OwedRowFound(input: Input, queue: seq<QueueRow>, o: Text) returns (i: nat)
    requires OrderOf(input.orders, o).Some?
    ensures ActiveContext(input, queue, o).Some? ==>
      IsOwedRow(queue, i, o) && Unfinished(input, queue[i]) && ActiveContext(input, queue, o).value == ContextFor(input, queue[i])
    ensures ActiveContext(input, queue, o).None? ==> forall j :: 0 <= j < |queue| ==> !Owes(queue[j], o)
  {
    hide ContextFor, OrderOf;
    i := 0;
    if queue != [] {
      i := |queue| - 1;
      if !Owes(queue[i], o) {
        var init := queue[..|queue| - 1];
        i := OwedRowFound(input, init, o);
        assert forall j :: 0 <= j < |init| ==> init[j] == queue[j];
      }
    }
  }

  lemma {:induction false} NoOrderNoContext(input: Input, queue: seq<QueueRow>, o: Text)
    requires OrderOf(input.orders, o).None?
    ensures ActiveContext(input, queue, o) == None
  {
    hide OrderOf;
    if queue != [] {
      NoOrderNoContext(input, queue[..|queue| - 1], o);
    }
  }

  /** An order is owed exactly when it has a row and a queue row that counts, and those two rows say what is shown. */
  lemma ActiveExact(input: Input, o: Text) returns (i: nat, k: nat)
    ensures Active(input, o).Some? ==>
      var c := Active(input, o).value;
      && IsOwedRow(input.queue, i, o) && IsOrderRow(input.orders, k, o)
      && c.channel == input.queue[i].channel && c.tables == input.orders[k].tables
      && IsAge(c.minutes, input.now, input.queue[i].ageBasis) && c.redAt == input.aging(input.orders[k].orderType)
    ensures Active(input, o).None? ==>
      (forall j :: 0 <= j < |input.orders| ==> input.orders[j].orderId != o) || (forall j :: 0 <= j < |input.queue| ==> !Owes(input.queue[j], o))
  {
    hide ActiveContext, OrderOf;
    k := OrderRowFound(input.orders, o);
    i := 0;
    if OrderOf(input.orders, o).Some? {
      i := OwedRowFound(input, input.queue, o);
    } else {
      NoOrderNoContext(input, input.queue, o);
    }
  }

  lemma SoleRows(input: Input, i: nat, k: nat, i': nat, k': nat, o: Text)
    requires IsOwedRow(input.queue, i, o) && IsOrderRow(input.orders, k, o)
    requires IsOwedRow(input.queue, i', o) && IsOrderRow(input.orders, k', o)
    ensures i == i' && k == k'
  {
  }

  lemma SoleAge(m: int, n: int, now: int, ageBasis: int)
    requires IsAge(m, now, ageBasis) && IsAge(n, now, ageBasis)
    ensures m == n
  {
  }

  /** The red threshold of an order row's type, in minutes. */
  function RedAt(input: Input, k: nat): int {
    if k < |input.orders| then input.aging(input.orders[k].orderType) else 0
  }

  /** The alarm is the one its order's rows call for. */
  lemma ShownExact(input: Input, a: Alarm)
    ensures (Active(input, a.orderId).Some? && a == AlarmOf(a.kind, a.orderId, Active(input, a.orderId).value, a.printerName))
      <==> a.id == AlarmId(a.kind, a.orderId, a.printerName) && exists i: nat, k: nat :: Shows(input, i, k, a)
    ensures forall i: nat, k: nat :: Shows(input, i, k, a) ==>
      Active(input, a.orderId).Some? && Active(input, a.orderId).value.redAt == RedAt(input, k)
  {
    hide Active, IsAge, IsOwedRow, IsOrderRow, AlarmId;
    var i, k := ActiveExact(input, a.orderId);
    var c := Active(input, a.orderId);
    if c.Some? && a == AlarmOf(a.kind, a.orderId, c.value, a.printerName) {
      RowsExist(input, i, k, a.orderId);
      assert Shows(input, i, k, a);
    }
    forall i': nat, k': nat | Shows(input, i', k', a)
      ensures c.Some? && c.value.redAt == RedAt(input, k')
      ensures c.value.minutes == a.minutes && c.value.channel == a.channel && c.value.tables == a.tables
    {
      RowsExist(input, i', k', a.orderId);
      SoleRows(input, i, k, i', k', a.orderId);
      SoleAge(c.value.minutes, a.minutes, input.now, input.queue[i].ageBasis);
    }
  }

  lemma RowsExist(input: Input, i: nat, k: nat, o: Text)
    requires IsOwedRow(input.queue, i, o) && IsOrderRow(input.orders, k, o)
    ensures i < |input.queue| && Owes(input.queue[i], o) && k < |input.orders| && input.orders[k].orderId == o
  {
  }

  predicate LateAcknowledged(facts: seq<Fact>, o: Text) {
    o != [] && exists f :: f in facts && f.factType == AlarmAcknowledged && f.alarmKind == Str(Ascii("late_order")) && f.orderId == Str(o)
  }

  predicate PrintAcknowledged(facts: seq<Fact>, o: Text, p: Text) {
    && o != [] && p != []
    && exists f :: (f in facts && f.factType == AlarmAcknowledged
                    && f.alarmKind == Str(Ascii("print_failed")) && f.orderId == Str(o) && f.printerName == Str(p))
  }

  /**
   * A late alarm is listed exactly when its order has a row and an owed queue row at least as old as the order
   * type's red threshold, and no well-formed acknowledgement names the order.
   */
  lemma LateExact(input: Input, a: Alarm)
    requires a.kind == LateOrder
    ensures Listed(input, a) <==>
      (&& a.printerName == None && a.id == Ascii("late_order:") + a.orderId
       && (exists i: nat, k: nat :: Shows(input, i, k, a) && a.minutes >= RedAt(input, k))
       && !LateAcknowledged(input.facts, a.orderId))
  {
    hide Active, Shows, Listed, AlarmOf, RedAt, AlarmId;
    ListedIffDue(input, a);
    ShownExact(input, a);
    LateId(a.orderId);
  }

  lemma LateId(o: Text)
    ensures AlarmId(LateOrder, o, None) == Ascii("late_order:") + o
  {
    assert LATE + [COLON] == Ascii("late_order:");
  }

  lemma PrintId(o: Text, p: Text)
    ensures AlarmId(PrinterDown, o, Some(p)) == Ascii("print_failed:") + o + Ascii(":") + p
  {
    assert PRINT + [COLON] == Ascii("print_failed:") && [COLON] == Ascii(":");
  }

  /**
   * A print alarm whose pair holds no NUL is listed exactly when its order has a row and an owed queue row, some
   * failed print names the pair, and no well-formed acknowledgement does.
   */
  lemma PrintExact(input: Input, a: Alarm, p: Text)
    requires a.kind == PrinterDown && a.printerName == Some(p) && 0x00 !in a.orderId && 0x00 !in p
    ensures Listed(input, a) <==>
      (&& a.id == Ascii("print_failed:") + a.orderId + Ascii(":") + p
       && (exists i: nat, k: nat :: Shows(input, i, k, a))
       && (exists f :: f in input.facts && f.factType == PrintFailed && f.orderId == Str(a.orderId) && f.printerName == Str(p))
       && !PrintAcknowledged(input.facts, a.orderId, p))
  {
    hide Active, Shows, Listed, AlarmOf, AlarmId;
    ListedIffDue(input, a);
    ShownExact(input, a);
    PrintId(a.orderId, p);
  }
}
