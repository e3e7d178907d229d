/**
 * No event id reaches a projected value of `packages/sync-client/src/folds/merge.ts`: giving every
 * event another id, and every reference to it, leaves each value as it was.
 */
module MergeRelabel {
  import opened Wrappers
  import opened MergeLattice
  import opened MergeMoney
  import opened MergeLines
  import opened MergeOrder
  import T = Text16

  /** One new id for each id, no two alike. */
  ghost predicate OneToOne(f: Name -> Name) {
    forall a, b :: f(a) == f(b) ==> a == b
  }

  function All(f: Name -> Name, ids: seq<Name>): seq<Name> {
    seq(|ids|, i requires 0 <= i < |ids| => f(ids[i]))
  }

  function ToggleRenamed(f: Name -> Name, t: Toggle): Toggle {
    t.(supersedes := All(f, t.supersedes))
  }

  function EdgeRenamed(f: Name -> Name, e: Edge): Edge {
    e.(preds := All(f, e.preds))
  }

  function BodyRenamed(f: Name -> Name, b: Body): Body {
    match b
    case TableAssigned(table, supersedes) => TableAssigned(table, All(f, supersedes))
    case LineStateChanged(context) => LineStateChanged(map line | line in context :: EdgeRenamed(f, context[line]))
    case _ => b
  }

  function EventRenamed(f: Name -> Name, e: Event): Event {
    match e
    case OfOrder(id, stamp, verified, order, body) => OfOrder(f(id), stamp, verified, order, BodyRenamed(f, body))
    case OfItem(id, item, toggle) => OfItem(f(id), item, ToggleRenamed(f, toggle))
    case Unkeyed(id) => Unkeyed(f(id))
  }

  function EventsRenamed(f: Name -> Name, events: seq<Event>): seq<Event> {
    seq(|events|, i requires 0 <= i < |events| => EventRenamed(f, events[i]))
  }

  function SlotRenamed(f: Name -> Name, s: Slot): Slot {
    match s
    case NodeAt(order, id) => NodeAt(order, f(id))
    case TombstoneAt(order, id) => TombstoneAt(order, f(id))
    case ConfirmAt(order, id) => ConfirmAt(order, f(id))
    case CloseAt(order, id) => CloseAt(order, f(id))
    case EdgeAt(order, line, id) => EdgeAt(order, line, f(id))
    case ToggleAt(item, id, toggle) => ToggleAt(item, f(id), ToggleRenamed(f, toggle))
    case _ => s
  }

  function ContentRenamed(f: Name -> Name, c: Content): Content {
    match c
    case EdgeOf(edge) => EdgeOf(EdgeRenamed(f, edge))
    case _ => c
  }

  lemma AllOneToOne(f: Name -> Name, a: seq<Name>, b: seq<Name>)
    requires OneToOne(f) && All(f, a) == All(f, b)
    ensures a == b
  {
    assert |a| == |All(f, a)| == |All(f, b)| == |b|;
    forall i | 0 <= i < |a|
      ensures a[i] == b[i]
    {
      assert All(f, a)[i] == All(f, b)[i];
    }
  }

  lemma AllMember(f: Name -> Name, ids: seq<Name>, x: Name)
    requires OneToOne(f)
    ensures f(x) in All(f, ids) <==> x in ids
  {
    if x in ids {
      var i :| 0 <= i < |ids| && ids[i] == x;
      assert All(f, ids)[i] == f(x);
    }
  }

  lemma SlotOneToOne(f: Name -> Name, s: Slot, t: Slot)
    requires OneToOne(f) && SlotRenamed(f, s) == SlotRenamed(f, t)
    ensures s == t
  {
    hide All;
    if s.ToggleAt? {
      AllOneToOne(f, s.toggle.supersedes, t.toggle.supersedes);
    }
  }

  /** `m` is `l` with every event id replaced. */
  ghost predicate Renamed(f: Name -> Name, l: Lattice, m: Lattice) {
    && (forall s :: s in l ==> SlotRenamed(f, s) in m && m[SlotRenamed(f, s)] == ContentRenamed(f, l[s]))
    && forall t :: t in m ==> exists s :: s in l && SlotRenamed(f, s) == t
  }

  lemma RenamedPlus(f: Name -> Name, l: Lattice, m: Lattice, w: Lattice, v: Lattice)
    requires OneToOne(f) && Renamed(f, l, m) && Renamed(f, w, v)
    ensures Renamed(f, l + w, m + v)
  {
    hide SlotRenamed, ContentRenamed;
    forall s | s in l + w
      ensures SlotRenamed(f, s) in m + v && (m + v)[SlotRenamed(f, s)] == ContentRenamed(f, (l + w)[s])
    {
      if SlotRenamed(f, s) in v {
        var other :| other in w && SlotRenamed(f, other) == SlotRenamed(f, s);
        SlotOneToOne(f, s, other);
      }
    }
    forall t | t in m + v
      ensures exists s :: s in l + w && SlotRenamed(f, s) == t
    {
      if t in v {
        var s :| s in w && SlotRenamed(f, s) == t;
        assert s in l + w;
      } else {
        var s :| s in l && SlotRenamed(f, s) == t;
        assert s in l + w;
      }
    }
  }

  lemma OneRenamed(f: Name -> Name, s: Slot, c: Content)
    ensures Renamed(f, map[s := c], map[SlotRenamed(f, s) := ContentRenamed(f, c)])
  {
    assert s in map[s := c];
  }

  lemma NoneRenamed(f: Name -> Name)
    ensures Renamed(f, map[], map[])
  {
  }

  lemma CreationRenamed(f: Name -> Name, order: Name, id: Name, p: Created)
    requires OneToOne(f)
    ensures Renamed(f, map[CreateAt(order, p) := Present, NodeAt(order, id) := NodeOf(p.table)],
      map[CreateAt(order, p) := Present, NodeAt(order, f(id)) := NodeOf(p.table)])
  {
    hide Renamed;
    OneRenamed(f, CreateAt(order, p), Present);
    OneRenamed(f, NodeAt(order, id), NodeOf(p.table));
    RenamedPlus(f, map[CreateAt(order, p) := Present], map[CreateAt(order, p) := Present],
      map[NodeAt(order, id) := NodeOf(p.table)], map[NodeAt(order, f(id)) := NodeOf(p.table)]);
    assert map[CreateAt(order, p) := Present] + map[NodeAt(order, id) := NodeOf(p.table)]
      == map[CreateAt(order, p) := Present, NodeAt(order, id) := NodeOf(p.table)];
    assert map[CreateAt(order, p) := Present] + map[NodeAt(order, f(id)) := NodeOf(p.table)]
      == map[CreateAt(order, p) := Present, NodeAt(order, f(id)) := NodeOf(p.table)];
  }

  function Replaced(order: Name, id: Name, supersedes: seq<Name>): Lattice {
    map s | s in supersedes && s != id :: TombstoneAt(order, s) := Present
  }

  lemma ReplacedRenamed(f: Name -> Name, order: Name, id: Name, supersedes: seq<Name>)
    requires OneToOne(f)
    ensures Renamed(f, Replaced(order, id, supersedes), Replaced(order, f(id), All(f, supersedes)))
  {
    var w, v := Replaced(order, id, supersedes), Replaced(order, f(id), All(f, supersedes));
    forall s | s in supersedes && s != id
      ensures f(s) in All(f, supersedes) && f(s) != f(id)
    {
      AllMember(f, supersedes, s);
    }
    forall t | t in v
      ensures exists s :: s in w && SlotRenamed(f, s) == t
    {
      var i :| 0 <= i < |supersedes| && All(f, supersedes)[i] == t.id;
      assert TombstoneAt(order, supersedes[i]) in w;
    }
  }

  lemma AssignmentRenamed(f: Name -> Name, order: Name, id: Name, table: Name, supersedes: seq<Name>)
    requires OneToOne(f)
    ensures Renamed(f, AssignmentWrites(order, id, table, supersedes), AssignmentWrites(order, f(id), table, All(f, supersedes)))
  {
    hide Renamed, All;
    var node, renamed := NodeOf(Some(table)), All(f, supersedes);
    ReplacedRenamed(f, order, id, supersedes);
    OneRenamed(f, NodeAt(order, id), node);
    RenamedPlus(f, Replaced(order, id, supersedes), Replaced(order, f(id), renamed),
      map[NodeAt(order, id) := node], map[NodeAt(order, f(id)) := node]);
    assert AssignmentWrites(order, id, table, supersedes) == Replaced(order, id, supersedes) + map[NodeAt(order, id) := node];
    assert AssignmentWrites(order, f(id), table, renamed) == Replaced(order, f(id), renamed) + map[NodeAt(order, f(id)) := node];
  }

  lemma EdgesRenamed(f: Name -> Name, order: Name, id: Name, context: map<Name, Edge>)
    ensures Renamed(f, EdgeWrites(order, id, context),
      EdgeWrites(order, f(id), map line | line in context :: EdgeRenamed(f, context[line])))
  {
    hide EdgeRenamed;
    var w := EdgeWrites(order, id, context);
    var v := EdgeWrites(order, f(id), map line | line in context :: EdgeRenamed(f, context[line]));
    forall t | t in v
      ensures exists s :: s in w && SlotRenamed(f, s) == t
    {
      assert EdgeAt(order, t.line, id) in w;
    }
  }

  lemma WritesRenamed(f: Name -> Name, e: Event)
    requires OneToOne(f)
    ensures Renamed(f, Writes(e), Writes(EventRenamed(f, e)))
  {
    hide Renamed, AssignmentWrites, EdgeWrites, All, EdgeRenamed;
    NoneRenamed(f);
    match e
    case Unkeyed(_) =>
    case OfItem(id, item, toggle) => OneRenamed(f, ToggleAt(item, id, toggle), Present);
    case OfOrder(id, stamp, verified, order, body) =>
      match body
      case OrderCreated(p) => CreationRenamed(f, order, id, p);
      case OrderConfirmed => OneRenamed(f, ConfirmAt(order, id), ConfirmOf(stamp, verified));
      case KotPrinted =>
      case TableAssigned(table, supersedes) => AssignmentRenamed(f, order, id, table, supersedes);
      case LineAdded(line, value) => OneRenamed(f, ValueAt(order, line, value), Present);
      case LineRemoved(line) => OneRenamed(f, RemovedAt(order, line), Present);
      case NoteAdded(line, note) => OneRenamed(f, NoteAt(order, line, note), Present);
      case LineStateChanged(context) => EdgesRenamed(f, order, id, context);
      case PaymentRecorded(attempt, payment) => OneRenamed(f, PaymentAt(order, attempt, payment), Present);
      case PaymentRefunded(attempt, refund) => OneRenamed(f, RefundAt(order, attempt, refund), Present);
      case SettlementClosed(close) => OneRenamed(f, CloseAt(order, id), CloseOf(close));
      case Inert =>
  }

  // ----- a whole delivery -------------------------------------------------------------------------------

  function KeyRenamed(f: Name -> Name, k: (Name, Name)): (Name, Name) {
    (k.0, f(k.1))
  }

  ghost predicate WaitingRenamed(f: Name -> Name, w: map<(Name, Name), Event>, v: map<(Name, Name), Event>) {
    && (forall k :: k in w ==> KeyRenamed(f, k) in v && v[KeyRenamed(f, k)] == EventRenamed(f, w[k]))
    && forall j :: j in v ==> exists k :: k in w && KeyRenamed(f, k) == j
  }

  ghost predicate RowsRenamed(f: Name -> Name, w: map<Name, Event>, v: map<Name, Event>) {
    && (forall id :: id in w ==> f(id) in v && v[f(id)] == EventRenamed(f, w[id]))
    && forall j :: j in v ==> exists id :: id in w && f(id) == j
  }

  ghost predicate StateRenamed(f: Name -> Name, s: State, t: State) {
    Renamed(f, s.lattice, t.lattice) && WaitingRenamed(f, s.waiting, t.waiting) && RowsRenamed(f, s.rows, t.rows)
  }

  lemma CreateRenamed(f: Name -> Name, l: Lattice, m: Lattice, order: Name)
    requires Renamed(f, l, m)
    ensures HasCreate(l, order) <==> HasCreate(m, order)
  {
    if s :| s in l && s.CreateAt? && s.order == order {
      assert SlotRenamed(f, s) in m;
    }
    if t :| t in m && t.CreateAt? && t.order == order {
      var s :| s in l && SlotRenamed(f, s) == t;
    }
  }

  /** The event at `k` is a confirm waiting on the order. */
  predicate Drains(s: State, order: Name, k: (Name, Name)) {
    k in s.waiting && k.0 == order && s.waiting[k].OfOrder? && s.waiting[k].body.OrderConfirmed?
  }

  function Stamp(s: State, k: (Name, Name)): Content
    requires k in s.waiting && s.waiting[k].OfOrder?
  {
    ConfirmOf(s.waiting[k].stamp, s.waiting[k].verified)
  }

  lemma DrainedAt(s: State, order: Name)
    ensures forall slot :: slot in DrainedWrites(s, order) ==> slot.ConfirmAt? && Drains(s, order, (slot.order, slot.id))
    ensures forall k :: Drains(s, order, k) ==>
      ConfirmAt(k.0, k.1) in DrainedWrites(s, order) && DrainedWrites(s, order)[ConfirmAt(k.0, k.1)] == Stamp(s, k)
  {
  }

  lemma DrainsRenamed(f: Name -> Name, s: State, t: State, order: Name)
    requires WaitingRenamed(f, s.waiting, t.waiting)
    ensures forall k :: Drains(s, order, k) ==>
      Drains(t, order, KeyRenamed(f, k)) && Stamp(t, KeyRenamed(f, k)) == Stamp(s, k)
  {
    hide All, EdgeRenamed, ToggleRenamed;
  }

  lemma DrainSource(f: Name -> Name, s: State, t: State, order: Name, j: (Name, Name)) returns (k: (Name, Name))
    requires WaitingRenamed(f, s.waiting, t.waiting) && Drains(t, order, j)
    ensures Drains(s, order, k) && KeyRenamed(f, k) == j
  {
    hide All, EdgeRenamed, ToggleRenamed;
    k :| k in s.waiting && KeyRenamed(f, k) == j;
  }

  lemma DrainRenamed(f: Name -> Name, s: State, t: State, order: Name)
    requires WaitingRenamed(f, s.waiting, t.waiting)
    ensures Renamed(f, DrainedWrites(s, order), DrainedWrites(t, order))
  {
    var w, v := DrainedWrites(s, order), DrainedWrites(t, order);
    forall slot | slot in w
      ensures SlotRenamed(f, slot) in v && v[SlotRenamed(f, slot)] == ContentRenamed(f, w[slot])
    {
      DrainForward(f, s, t, order, slot);
    }
    forall slot | slot in v
      ensures exists was :: was in w && SlotRenamed(f, was) == slot
    {
      DrainBack(f, s, t, order, slot);
    }
  }

  lemma DrainForward(f: Name -> Name, s: State, t: State, order: Name, slot: Slot)
    requires WaitingRenamed(f, s.waiting, t.waiting) && slot in DrainedWrites(s, order)
    ensures SlotRenamed(f, slot) in DrainedWrites(t, order)
    ensures DrainedWrites(t, order)[SlotRenamed(f, slot)] == ContentRenamed(f, DrainedWrites(s, order)[slot])
  {
    DrainedAt(s, order);
    DrainedAt(t, order);
    DrainsRenamed(f, s, t, order);
    hide DrainedWrites, WaitingRenamed, Drains;
    var k := (slot.order, slot.id);
    assert slot == ConfirmAt(k.0, k.1) && Drains(t, order, KeyRenamed(f, k));
  }

  lemma DrainBack(f: Name -> Name, s: State, t: State, order: Name, slot: Slot)
    requires WaitingRenamed(f, s.waiting, t.waiting) && slot in DrainedWrites(t, order)
    ensures exists was :: was in DrainedWrites(s, order) && SlotRenamed(f, was) == slot
  {
    DrainedAt(s, order);
    DrainedAt(t, order);
    hide DrainedWrites, WaitingRenamed;
    var k := DrainSource(f, s, t, order, (slot.order, slot.id));
    hide Drains;
    var was := ConfirmAt(k.0, k.1);
    assert was in DrainedWrites(s, order);
    assert SlotRenamed(f, was) == slot;
  }

  lemma WaitingKeptRenamed(f: Name -> Name, s: State, t: State, order: Name)
    requires OneToOne(f) && WaitingRenamed(f, s.waiting, t.waiting)
    ensures WaitingRenamed(f, WithoutKeys(s.waiting, order), WithoutKeys(t.waiting, order))
  {
    hide EventRenamed;
    var w, v := WithoutKeys(s.waiting, order), WithoutKeys(t.waiting, order);
    forall j | j in v
      ensures exists k :: k in w && KeyRenamed(f, k) == j
    {
      var k :| k in s.waiting && KeyRenamed(f, k) == j;
      assert k in w;
    }
  }

  lemma RowsKeptRenamed(f: Name -> Name, w: map<Name, Event>, v: map<Name, Event>, gone: set<Name>, goneToo: set<Name>)
    requires OneToOne(f) && RowsRenamed(f, w, v)
    requires forall id :: id in gone <==> f(id) in goneToo
    ensures RowsRenamed(f, WithoutRows(w, gone), WithoutRows(v, goneToo))
  {
    hide EventRenamed;
    forall j | j in WithoutRows(v, goneToo)
      ensures exists id :: id in WithoutRows(w, gone) && f(id) == j
    {
      var id :| id in w && f(id) == j;
      assert id in WithoutRows(w, gone);
    }
  }

  lemma IdsRenamed(f: Name -> Name, s: State, t: State, order: Name, id: Name)
    requires OneToOne(f) && WaitingRenamed(f, s.waiting, t.waiting)
    ensures id in Ids(WaitingFor(s, order)) <==> f(id) in Ids(WaitingFor(t, order))
  {
    hide EventRenamed;
    if id in Ids(WaitingFor(s, order)) {
      var k :| k in WaitingFor(s, order) && k.1 == id;
      assert KeyRenamed(f, k) in WaitingFor(t, order);
    }
    if f(id) in Ids(WaitingFor(t, order)) {
      var j :| j in WaitingFor(t, order) && j.1 == f(id);
      var k :| k in s.waiting && KeyRenamed(f, k) == j;
      assert k in WaitingFor(s, order) && k.1 == id;
    }
  }

  lemma ParkRenamed(f: Name -> Name, s: State, t: State, order: Name, id: Name, e: Event)
    requires OneToOne(f) && StateRenamed(f, s, t)
    ensures WaitingRenamed(f, s.waiting[(order, id) := e], t.waiting[(order, f(id)) := EventRenamed(f, e)])
    ensures RowsRenamed(f, s.rows[id := e], t.rows[f(id) := EventRenamed(f, e)])
  {
    hide Renamed, EventRenamed;
    var w, v := s.waiting[(order, id) := e], t.waiting[(order, f(id)) := EventRenamed(f, e)];
    assert KeyRenamed(f, (order, id)) == (order, f(id)) && (order, id) in w;
    forall k | k in w
      ensures KeyRenamed(f, k) in v && v[KeyRenamed(f, k)] == EventRenamed(f, w[k])
    {
      if KeyRenamed(f, k) == (order, f(id)) { assert k == (order, id); }
    }
    forall j | j in v && j != (order, f(id))
      ensures exists k :: k in w && KeyRenamed(f, k) == j
    {
      var k :| k in s.waiting && KeyRenamed(f, k) == j;
      assert k in w;
    }
    var rows, rowsToo := s.rows[id := e], t.rows[f(id) := EventRenamed(f, e)];
    assert id in rows;
    forall j | j in rowsToo
      ensures exists i :: i in rows && f(i) == j
    {
      if j != f(id) {
        var i :| i in s.rows && f(i) == j;
        assert i in rows;
      }
    }
  }

  lemma CreationDrainRenamed(f: Name -> Name, s: State, t: State, e: Event)
    requires OneToOne(f) && StateRenamed(f, s, t) && e.OfOrder? && e.body.OrderCreated?
    ensures StateRenamed(f, After(s, e), After(t, EventRenamed(f, e)))
  {
    hide Renamed, WaitingRenamed, RowsRenamed, Writes, DrainedWrites, WithoutKeys, WithoutRows, HasCreate, Ids, WaitingFor;
    var g := EventRenamed(f, e);
    WritesRenamed(f, e);
    RenamedPlus(f, s.lattice, t.lattice, Writes(e), Writes(g));
    DrainRenamed(f, s, t, e.order);
    RenamedPlus(f, s.lattice + Writes(e), t.lattice + Writes(g), DrainedWrites(s, e.order), DrainedWrites(t, e.order));
    WaitingKeptRenamed(f, s, t, e.order);
    forall id
      ensures id in Ids(WaitingFor(s, e.order)) <==> f(id) in Ids(WaitingFor(t, e.order))
    {
      IdsRenamed(f, s, t, e.order, id);
    }
    RowsKeptRenamed(f, s.rows, t.rows, Ids(WaitingFor(s, e.order)), Ids(WaitingFor(t, e.order)));
  }

  lemma AfterRenamed(f: Name -> Name, s: State, t: State, e: Event)
    requires OneToOne(f) && StateRenamed(f, s, t)
    ensures StateRenamed(f, After(s, e), After(t, EventRenamed(f, e)))
  {
    hide Renamed, WaitingRenamed, RowsRenamed, Writes, HasCreate, All, EdgeRenamed, ToggleRenamed;
    if e.OfOrder? && e.body.OrderCreated? {
      CreationDrainRenamed(f, s, t, e);
    } else {
      var g := EventRenamed(f, e);
      WritesRenamed(f, e);
      RenamedPlus(f, s.lattice, t.lattice, Writes(e), Writes(g));
      if Parks(e) {
        CreateRenamed(f, s.lattice, t.lattice, e.order);
        ParkRenamed(f, s, t, e.order, e.id, e);
      }
    }
  }

  /** Delivering renamed events leaves the renamed state. */
  lemma {:induction false} DeliverRenamed(f: Name -> Name, events: seq<Event>)
    requires OneToOne(f)
    ensures StateRenamed(f, Deliver(events), Deliver(EventsRenamed(f, events)))
  {
    hide After, Renamed, EventRenamed;
    if events == [] {
      NoneRenamed(f);
      assert EventsRenamed(f, events) == [];
    } else {
      var front, e := events[..|events| - 1], events[|events| - 1];
      DeliverRenamed(f, front);
      AfterRenamed(f, Deliver(front), Deliver(EventsRenamed(f, front)), e);
      var renamed := EventsRenamed(f, events);
      assert renamed[..|renamed| - 1] == EventsRenamed(f, front);
      assert renamed[|renamed| - 1] == EventRenamed(f, e);
    }
  }

  // ----- the projections ------------------------------------------------------------------------------------

  predicate HoldsNoId(s: Slot) {
    s.CreateAt? || s.ValueAt? || s.RemovedAt? || s.NoteAt? || s.PaymentAt? || s.RefundAt?
  }

  lemma KeptPlaces(f: Name -> Name, l: Lattice, m: Lattice)
    requires Renamed(f, l, m)
    ensures forall s :: HoldsNoId(s) ==> (s in m <==> s in l)
  {
    hide ToggleRenamed;
    forall s | HoldsNoId(s)
      ensures s in m <==> s in l
    {
      assert SlotRenamed(f, s) == s;
      if s in m {
        var was :| was in l && SlotRenamed(f, was) == s;
        assert was == s;
      }
    }
  }

  /** Money never holds an id. */
  lemma PaymentsRenamed(f: Name -> Name, l: Lattice, m: Lattice, order: Name)
    requires Renamed(f, l, m)
    ensures PaymentCells(m, order) == PaymentCells(l, order)
  {
    hide Renamed;
    KeptPlaces(f, l, m);
    assert PaymentSlots(m, order) == PaymentSlots(l, order);
  }

  lemma RefundsRenamed(f: Name -> Name, l: Lattice, m: Lattice, order: Name)
    requires Renamed(f, l, m)
    ensures RefundCells(m, order) == RefundCells(l, order)
  {
    hide Renamed;
    KeptPlaces(f, l, m);
    assert RefundSlots(m, order) == RefundSlots(l, order);
  }

  lemma LinesRenamed(f: Name -> Name, l: Lattice, m: Lattice, order: Name)
    requires Renamed(f, l, m)
    ensures LineIds(m, order) == LineIds(l, order)
    ensures forall line :: Values(m, order, line) == Values(l, order, line)
  {
    hide Renamed;
    KeptPlaces(f, l, m);
  }

  // ----- one line -------------------------------------------------------------------------------------------

  ghost predicate EdgesForward(f: Name -> Name, a: Edges, b: Edges) {
    forall id :: id in a ==> f(id) in b && b[f(id)] == EdgeRenamed(f, a[id])
  }

  ghost predicate EdgesBack(f: Name -> Name, a: Edges, b: Edges) {
    forall j :: j in b ==> exists id :: id in a && f(id) == j
  }

  ghost predicate SameEdges(f: Name -> Name, a: Edges, b: Edges) {
    EdgesForward(f, a, b) && EdgesBack(f, a, b)
  }

  lemma EdgeSlotBack(f: Name -> Name, s: Slot, order: Name, line: Name, j: Name)
    requires SlotRenamed(f, s) == EdgeAt(order, line, j)
    ensures s.EdgeAt? && s.order == order && s.line == line && f(s.id) == j
  {
  }

  lemma EdgeHeld(l: Lattice, order: Name, line: Name, id: Name)
    ensures var s := EdgeAt(order, line, id);
      && (id in EdgesOf(l, order, line) <==> s in l && l[s].EdgeOf?)
      && (id in EdgesOf(l, order, line) ==> EdgesOf(l, order, line)[id] == l[s].edge)
  {
  }

  lemma EdgeForward(f: Name -> Name, l: Lattice, m: Lattice, order: Name, line: Name, id: Name)
    requires OneToOne(f) && Renamed(f, l, m) && id in EdgesOf(l, order, line)
    ensures f(id) in EdgesOf(m, order, line)
    ensures EdgesOf(m, order, line)[f(id)] == EdgeRenamed(f, EdgesOf(l, order, line)[id])
  {
    PlaceRenamed(f, l, m, EdgeAt(order, line, id));
    EdgeHeld(l, order, line, id);
    EdgeHeld(m, order, line, f(id));
    hide EdgesOf, Renamed, EdgeRenamed;
  }

  lemma EdgeBack(f: Name -> Name, l: Lattice, m: Lattice, order: Name, line: Name, j: Name)
    requires Renamed(f, l, m) && j in EdgesOf(m, order, line)
    ensures exists id :: id in EdgesOf(l, order, line) && f(id) == j
  {
    hide EdgesOf, Renamed;
    EdgeHeld(m, order, line, j);
    var id := EdgeSource(f, l, m, order, line, j);
    EdgeHeld(l, order, line, id);
  }

  lemma AllEdgesForward(f: Name -> Name, l: Lattice, m: Lattice, order: Name, line: Name)
    requires OneToOne(f) && Renamed(f, l, m)
    ensures EdgesForward(f, EdgesOf(l, order, line), EdgesOf(m, order, line))
  {
    hide EdgesOf, Renamed, EdgeRenamed;
    forall id | id in EdgesOf(l, order, line)
      ensures f(id) in EdgesOf(m, order, line)
      ensures EdgesOf(m, order, line)[f(id)] == EdgeRenamed(f, EdgesOf(l, order, line)[id])
    {
      EdgeForward(f, l, m, order, line, id);
    }
  }

  lemma AllEdgesBack(f: Name -> Name, l: Lattice, m: Lattice, order: Name, line: Name)
    requires Renamed(f, l, m)
    ensures EdgesBack(f, EdgesOf(l, order, line), EdgesOf(m, order, line))
  {
    hide EdgesOf, Renamed;
    forall j | j in EdgesOf(m, order, line)
      ensures exists id :: id in EdgesOf(l, order, line) && f(id) == j
    {
      EdgeBack(f, l, m, order, line, j);
    }
  }

  lemma EdgeSource(f: Name -> Name, l: Lattice, m: Lattice, order: Name, line: Name, j: Name) returns (id: Name)
    requires Renamed(f, l, m) && EdgeAt(order, line, j) in m && m[EdgeAt(order, line, j)].EdgeOf?
    ensures f(id) == j && EdgeAt(order, line, id) in l && l[EdgeAt(order, line, id)].EdgeOf?
  {
    hide SlotRenamed, EdgeRenamed;
    var s :| s in l && SlotRenamed(f, s) == EdgeAt(order, line, j);
    EdgeSlotBack(f, s, order, line, j);
    id := s.id;
    assert s == EdgeAt(order, line, id);
  }

  lemma LegalRenamed(f: Name -> Name, a: Edges, b: Edges)
    requires OneToOne(f) && SameEdges(f, a, b)
    ensures forall id :: id in a ==> b[f(id)].to == a[id].to && (Adoption(b[f(id)]) <==> Adoption(a[id]))
    ensures forall id :: id in LegalIds(a) <==> f(id) in LegalIds(b)
    ensures forall j :: j in LegalIds(b) ==> exists id :: id in LegalIds(a) && f(id) == j
  {
    hide All;
    forall j | j in LegalIds(b)
      ensures exists id :: id in LegalIds(a) && f(id) == j
    {
      var id :| id in a && f(id) == j;
      assert id in LegalIds(a);
    }
    forall id | f(id) in LegalIds(b)
      ensures id in LegalIds(a)
    {
      var was :| was in a && f(was) == f(id);
    }
  }

  lemma RetiresRenamed(f: Name -> Name, a: Edges, b: Edges, id: Name, p: Name)
    requires OneToOne(f) && SameEdges(f, a, b)
    ensures Retires(a, id, p) <==> Retires(b, f(id), f(p))
  {
    LegalRenamed(f, a, b);
    hide LegalIds, Adoption, All;
    LegalAreEdges(a);
    LegalAreEdges(b);
    if id in LegalIds(a) {
      AllMember(f, a[id].preds, p);
    }
  }

  /** Some legal edge retires `h`. */
  predicate Retired(edges: Edges, h: Name) {
    exists id :: id in LegalIds(edges) && Retires(edges, id, h)
  }

  lemma RetiredRenamed(f: Name -> Name, a: Edges, b: Edges, h: Name)
    requires OneToOne(f) && SameEdges(f, a, b)
    ensures Retired(a, h) <==> Retired(b, f(h))
  {
    LegalRenamed(f, a, b);
    hide LegalIds, Adoption, Retires, SameEdges;
    if Retired(a, h) {
      var id :| id in LegalIds(a) && Retires(a, id, h);
      RetiresRenamed(f, a, b, id, h);
    }
    if Retired(b, f(h)) {
      var j :| j in LegalIds(b) && Retires(b, j, f(h));
      var id :| id in LegalIds(a) && f(id) == j;
      RetiresRenamed(f, a, b, id, h);
    }
  }

  lemma HeadsUnretired(edges: Edges, h: Name)
    ensures h in Heads(edges) <==> h in LegalIds(edges) && !Retired(edges, h)
  {
    hide Retires, LegalIds;
  }

  lemma HeadsRenamed(f: Name -> Name, a: Edges, b: Edges, h: Name)
    requires OneToOne(f) && SameEdges(f, a, b)
    ensures h in Heads(a) <==> f(h) in Heads(b)
  {
    LegalRenamed(f, a, b);
    RetiredRenamed(f, a, b, h);
    HeadsUnretired(a, h);
    HeadsUnretired(b, f(h));
  }

  lemma AllEdgesRenamed(f: Name -> Name, l: Lattice, m: Lattice, order: Name, line: Name)
    requires OneToOne(f) && Renamed(f, l, m)
    ensures SameEdges(f, EdgesOf(l, order, line), EdgesOf(m, order, line))
  {
    hide EdgesOf, Renamed, EdgesForward, EdgesBack;
    AllEdgesForward(f, l, m, order, line);
    AllEdgesBack(f, l, m, order, line);
  }

  /** A line shows the same states whatever its edges are called. */
  lemma LineRenamed(f: Name -> Name, a: Edges, b: Edges)
    requires OneToOne(f) && SameEdges(f, a, b)
    ensures TerminalValues(a) == TerminalValues(b)
    ensures forall wm :: IsWatermark(a, wm) <==> IsWatermark(b, wm)
    ensures CookingDone(a) <==> CookingDone(b)
  {
    LegalRenamed(f, a, b);
    hide SameEdges, LegalIds, Adoption, Retires, Heads;
    LegalAreEdges(a);
    LegalAreEdges(b);
    HeadsAreLegal(a);
    HeadsAreLegal(b);
    forall h
      ensures h in Heads(a) <==> f(h) in Heads(b)
    {
      HeadsRenamed(f, a, b, h);
    }
    forall v | v in TerminalValues(b)
      ensures v in TerminalValues(a)
    {
      var j :| j in Heads(b) && Terminal(b[j].to) && b[j].to == v;
      var h :| h in LegalIds(a) && f(h) == j;
      assert h in Heads(a);
    }
  }

  // ----- one item -------------------------------------------------------------------------------------------

  lemma TogglesRenamed(f: Name -> Name, l: Lattice, m: Lattice, item: Name)
    requires Renamed(f, l, m)
    ensures SameToggles(f, TogglesOf(l, item), TogglesOf(m, item))
  {
    hide ToggleRenamed, EdgeRenamed;
    forall t | t in TogglesOf(l, item)
      ensures (f(t.0), ToggleRenamed(f, t.1)) in TogglesOf(m, item)
    {
      assert SlotRenamed(f, ToggleAt(item, t.0, t.1)) in m;
    }
    forall u | u in TogglesOf(m, item)
      ensures exists t :: t in TogglesOf(l, item) && u == (f(t.0), ToggleRenamed(f, t.1))
    {
      var s :| s in l && SlotRenamed(f, s) == ToggleAt(item, u.0, u.1);
      assert (s.id, s.toggle) in TogglesOf(l, item);
    }
  }

  ghost predicate SameToggles(f: Name -> Name, a: Toggles, b: Toggles) {
    && (forall t :: t in a ==> (f(t.0), ToggleRenamed(f, t.1)) in b)
    && forall u :: u in b ==> exists t :: t in a && u == (f(t.0), ToggleRenamed(f, t.1))
  }

  lemma SupersededRenamed(f: Name -> Name, a: Toggles, b: Toggles, id: Name)
    requires OneToOne(f) && SameToggles(f, a, b)
    ensures Superseded(a, id) <==> Superseded(b, f(id))
  {
    hide All;
    if t :| t in a && id in t.1.supersedes && id != t.0 {
      AllMember(f, t.1.supersedes, id);
      assert (f(t.0), ToggleRenamed(f, t.1)) in b;
    }
    if u :| u in b && f(id) in u.1.supersedes && f(id) != u.0 {
      var t :| t in a && u == (f(t.0), ToggleRenamed(f, t.1));
      AllMember(f, t.1.supersedes, id);
      assert Superseded(a, id);
    }
  }

  /** A dish is sellable, or contested, whatever its toggles are called. */
  lemma ItemRenamed(f: Name -> Name, a: Toggles, b: Toggles)
    requires OneToOne(f) && SameToggles(f, a, b)
    ensures (Sellable(a) <==> Sellable(b)) && (Contested(a) <==> Contested(b))
  {
    hide Superseded, All;
    forall v
      ensures Says(Live(a), v) <==> Says(Live(b), v)
    {
      if t :| t in Live(a) && t.1.available == v {
        SupersededRenamed(f, a, b, t.0);
        assert (f(t.0), ToggleRenamed(f, t.1)) in Live(b);
      }
      if u :| u in Live(b) && u.1.available == v {
        var t :| t in a && u == (f(t.0), ToggleRenamed(f, t.1));
        SupersededRenamed(f, a, b, t.0);
        assert t in Live(a);
      }
    }
    if t :| t in a {
      assert (f(t.0), ToggleRenamed(f, t.1)) in b;
    }
  }

  // ----- tables and anchor ---------------------------------------------------------------------------------

  lemma TablesRenamed(f: Name -> Name, l: Lattice, m: Lattice, order: Name)
    requires OneToOne(f) && Renamed(f, l, m)
    ensures TableHeads(Nodes(m, order), Tombstones(m, order)) == TableHeads(Nodes(l, order), Tombstones(l, order))
  {
    hide ToggleRenamed, EdgeRenamed;
    forall id
      ensures id in Tombstones(l, order) <==> f(id) in Tombstones(m, order)
      ensures id in Nodes(l, order) <==> f(id) in Nodes(m, order)
      ensures id in Nodes(l, order) ==> Nodes(m, order)[f(id)] == Nodes(l, order)[id]
    {
      PlaceRenamed(f, l, m, TombstoneAt(order, id));
      PlaceRenamed(f, l, m, NodeAt(order, id));
    }
    var a, b := TableHeads(Nodes(l, order), Tombstones(l, order)), TableHeads(Nodes(m, order), Tombstones(m, order));
    forall table | table in b
      ensures table in a
    {
      var j :| j in Nodes(m, order) && j !in Tombstones(m, order) && Nodes(m, order)[j] == Some(table);
      var s :| s in l && SlotRenamed(f, s) == NodeAt(order, j);
      assert s == NodeAt(order, s.id) && s.id in Nodes(l, order);
    }
  }

  lemma PlaceRenamed(f: Name -> Name, l: Lattice, m: Lattice, s: Slot)
    requires OneToOne(f) && Renamed(f, l, m)
    ensures s in l <==> SlotRenamed(f, s) in m
    ensures s in l ==> m[SlotRenamed(f, s)] == ContentRenamed(f, l[s])
  {
    hide SlotRenamed, ContentRenamed;
    if SlotRenamed(f, s) in m {
      var was :| was in l && SlotRenamed(f, was) == SlotRenamed(f, s);
      SlotOneToOne(f, was, s);
    }
  }

  lemma ConfirmsRenamed(f: Name -> Name, l: Lattice, m: Lattice, order: Name, stamp: int)
    requires OneToOne(f) && Renamed(f, l, m)
    ensures IsAnchor(ConfirmsOf(l, order), stamp) <==> IsAnchor(ConfirmsOf(m, order), stamp)
  {
    hide ToggleRenamed, EdgeRenamed, IsAnchor;
    var a, b := ConfirmsOf(l, order), ConfirmsOf(m, order);
    forall id | id in a
      ensures f(id) in b && b[f(id)] == a[id]
    {
      PlaceRenamed(f, l, m, ConfirmAt(order, id));
    }
    forall j | j in b
      ensures exists id :: id in a && f(id) == j
    {
      var s :| s in l && SlotRenamed(f, s) == ConfirmAt(order, j);
      assert s.id in a;
    }
    AnchorRelabelled(a, b, f, stamp);
  }

  /** The bill is the same, line for line. */
  lemma BilledRenamed(f: Name -> Name, l: Lattice, m: Lattice, order: Name, hash: LineValue -> T.Text)
    requires OneToOne(f) && Renamed(f, l, m)
    ensures Billed(m, order, hash) == Billed(l, order, hash)
  {
    hide Renamed, LineIds, Values, TerminalValues, EdgesOf, SameEdges, CellPaisa, SumBy;
    LinesRenamed(f, l, m, order);
    forall line
      ensures CellOf(m, order, hash)(line) == CellOf(l, order, hash)(line)
    {
      AllEdgesRenamed(f, l, m, order, line);
      LineRenamed(f, EdgesOf(l, order, line), EdgesOf(m, order, line));
    }
    SumByRestricted(LineIds(l, order), LineIds(l, order), CellOf(m, order, hash), CellOf(l, order, hash));
  }

  /** And the counts of lines standing, cooked and contested. */
  lemma CountsRenamed(f: Name -> Name, l: Lattice, m: Lattice, order: Name)
    requires OneToOne(f) && Renamed(f, l, m)
    ensures Standing(m, order) == Standing(l, order) && Cooked(m, order) == Cooked(l, order)
    ensures ValueConflicts(m, order) == ValueConflicts(l, order)
  {
    hide Renamed, LineIds, Values, TerminalValues, CookingDone, EdgesOf, SameEdges;
    LinesRenamed(f, l, m, order);
    forall line
      ensures var a, b := EdgesOf(l, order, line), EdgesOf(m, order, line);
        TerminalValues(a) == TerminalValues(b) && (CookingDone(a) <==> CookingDone(b))
    {
      AllEdgesRenamed(f, l, m, order, line);
      LineRenamed(f, EdgesOf(l, order, line), EdgesOf(m, order, line));
    }
  }

  lemma LatticeRenamed(f: Name -> Name, events: seq<Event>)
    requires OneToOne(f)
    ensures Renamed(f, Deliver(events).lattice, Deliver(EventsRenamed(f, events)).lattice)
  {
    hide Deliver, Renamed, EventsRenamed;
    DeliverRenamed(f, events);
  }

  /**
   * Rename every event, and every reference to one, and deliver again: the same payments and refunds, the
   * same lines with the same values and states, the same tables, the same anchor, and the same dishes on
   * sale. No value an operator is shown depends on how an id compares with another.
   */
  lemma NoIdReachesAValue(
    f: Name -> Name, events: seq<Event>, order: Name, line: Name, item: Name, hash: LineValue -> T.Text)
    requires OneToOne(f)
    ensures var l, m := Deliver(events).lattice, Deliver(EventsRenamed(f, events)).lattice;
      && PaymentCells(m, order) == PaymentCells(l, order) && RefundCells(m, order) == RefundCells(l, order)
      && LineIds(m, order) == LineIds(l, order) && Values(m, order, line) == Values(l, order, line)
      && Billed(m, order, hash) == Billed(l, order, hash)
      && Standing(m, order) == Standing(l, order) && Cooked(m, order) == Cooked(l, order)
      && ValueConflicts(m, order) == ValueConflicts(l, order)
      && TerminalValues(EdgesOf(m, order, line)) == TerminalValues(EdgesOf(l, order, line))
      && (forall wm :: IsWatermark(EdgesOf(m, order, line), wm) <==> IsWatermark(EdgesOf(l, order, line), wm))
      && TableHeads(Nodes(m, order), Tombstones(m, order)) == TableHeads(Nodes(l, order), Tombstones(l, order))
      && (forall stamp :: IsAnchor(ConfirmsOf(m, order), stamp) <==> IsAnchor(ConfirmsOf(l, order), stamp))
      && (Sellable(TogglesOf(m, item)) <==> Sellable(TogglesOf(l, item)))
      && (Contested(TogglesOf(m, item)) <==> Contested(TogglesOf(l, item)))
  {
    hide *;
    LatticeRenamed(f, events);
    var l, m := Deliver(events).lattice, Deliver(EventsRenamed(f, events)).lattice;
    PaymentsRenamed(f, l, m, order);
    RefundsRenamed(f, l, m, order);
    LinesRenamed(f, l, m, order);
    BilledRenamed(f, l, m, order, hash);
    CountsRenamed(f, l, m, order);
    AllEdgesRenamed(f, l, m, order, line);
    LineRenamed(f, EdgesOf(l, order, line), EdgesOf(m, order, line));
    TablesRenamed(f, l, m, order);
    TogglesRenamed(f, l, m, item);
    ItemRenamed(f, TogglesOf(l, item), TogglesOf(m, item));
    forall stamp
      ensures IsAnchor(ConfirmsOf(m, order), stamp) <==> IsAnchor(ConfirmsOf(l, order), stamp)
    {
      ConfirmsRenamed(f, l, m, order, stamp);
    }
  }
}
