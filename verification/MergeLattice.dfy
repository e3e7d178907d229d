/**
 * `packages/sync-client/src/folds/merge.ts`: folding delivered events into one lattice. The nested
 * maps of the engine are one map here, keyed by the whole path: order, collection, inner key.
 */
module MergeLattice {
  import opened Wrappers

  /** Any identifier or text the engine only compares for equality. */
  type Name(==, !new)

  datatype LineState = Placed | Confirmed | InPrep | Ready | Served | PickedUp | Delivered | Voided | Cancelled

  /** A payload in canonical form; `rest` is whatever else it carries. */
  datatype Created = Created(channel: Name, orderType: Option<Name>, table: Option<Name>, rest: Name)

  datatype LineValue = LineValue(item: Name, qty: nat, price: nat)

  datatype Edge = Edge(to: LineState, from: seq<LineState>, preds: seq<Name>)

  /** A payment without its attempt key. */
  datatype Payment = Payment(amount: nat, repays: bool, rest: Name)

  /** A refund without its attempt key; `parent` is the payment attempt it names. */
  datatype Refund = Refund(amount: nat, parent: Name, rest: Name)

  datatype Snapshot = Unattested | Attested(amount: nat) | Unusable

  datatype Close = Close(billed: Snapshot, effective: Snapshot, rest: Name)

  datatype Toggle = Toggle(available: bool, supersedes: seq<Name>, rest: Name)

  datatype Body =
    | OrderCreated(payload: Created)
    | OrderConfirmed
    | KotPrinted
    | TableAssigned(table: Name, supersedes: seq<Name>)
    | LineAdded(line: Name, value: LineValue)
    | LineRemoved(line: Name)
    | NoteAdded(line: Name, note: Name)
    | LineStateChanged(context: map<Name, Edge>)
    | PaymentRecorded(attempt: Name, payment: Payment)
    | PaymentRefunded(attempt: Name, refund: Refund)
    | SettlementClosed(close: Close)
    | Inert

  /** `OfOrder` is keyed by its order, `OfItem` by its item; `Unkeyed` touches no projection here. */
  datatype Event =
    | OfOrder(id: Name, stamp: int, verified: bool, order: Name, body: Body)
    | OfItem(id: Name, item: Name, toggle: Toggle)
    | Unkeyed(id: Name)

  /** A place in the lattice. Collections keyed by value carry the value in the place itself. */
  datatype Slot =
    | CreateAt(order: Name, payload: Created)
    | NodeAt(order: Name, id: Name)
    | TombstoneAt(order: Name, id: Name)
    | ConfirmAt(order: Name, id: Name)
    | CloseAt(order: Name, id: Name)
    | ValueAt(order: Name, line: Name, value: LineValue)
    | RemovedAt(order: Name, line: Name)
    | NoteAt(order: Name, line: Name, note: Name)
    | EdgeAt(order: Name, line: Name, id: Name)
    | PaymentAt(order: Name, attempt: Name, payment: Payment)
    | RefundAt(order: Name, attempt: Name, refund: Refund)
    | ToggleAt(item: Name, id: Name, toggle: Toggle)

  datatype Content =
    | Present
    | NodeOf(table: Option<Name>)
    | ConfirmOf(stamp: int, verified: bool)
    | CloseOf(close: Close)
    | EdgeOf(edge: Edge)

  type Lattice = map<Slot, Content>

  // ----- one event ----------------------------------------------------------------------------------

  /** An assignment never erases itself. */
  function AssignmentWrites(order: Name, id: Name, table: Name, supersedes: seq<Name>): Lattice {
    (map s | s in supersedes && s != id :: TombstoneAt(order, s) := Present)[NodeAt(order, id) := NodeOf(Some(table))]
  }

  function EdgeWrites(order: Name, id: Name, context: map<Name, Edge>): Lattice {
    map line | line in context :: EdgeAt(order, line, id) := EdgeOf(context[line])
  }

  /** `foldIn` and `foldAvailability`: what an event sets. */
  function Writes(e: Event): Lattice {
    match e
    case OfItem(id, item, toggle) => map[ToggleAt(item, id, toggle) := Present]
    case Unkeyed(_) => map[]
    case OfOrder(id, stamp, verified, order, body) =>
      match body
      case OrderCreated(p) => map[CreateAt(order, p) := Present, NodeAt(order, id) := NodeOf(p.table)]
      case OrderConfirmed => map[ConfirmAt(order, id) := ConfirmOf(stamp, verified)]
      case KotPrinted => map[]
      case TableAssigned(table, supersedes) => AssignmentWrites(order, id, table, supersedes)
      case LineAdded(line, value) => map[ValueAt(order, line, value) := Present]
      case LineRemoved(line) => map[RemovedAt(order, line) := Present]
      case NoteAdded(line, note) => map[NoteAt(order, line, note) := Present]
      case LineStateChanged(context) => EdgeWrites(order, id, context)
      case PaymentRecorded(attempt, payment) => map[PaymentAt(order, attempt, payment) := Present]
      case PaymentRefunded(attempt, refund) => map[RefundAt(order, attempt, refund) := Present]
      case SettlementClosed(close) => map[CloseAt(order, id) := CloseOf(close)]
      case Inert => map[]
  }

  /** The bare order facts, which wait for their order's creation. */
  predicate Parks(e: Event) {
    e.OfOrder? && (e.body.OrderConfirmed? || e.body.KotPrinted?)
  }

  predicate Creates(e: Event, order: Name) {
    e.OfOrder? && e.order == order && e.body.OrderCreated?
  }

  predicate HasCreate(l: Lattice, order: Name) {
    exists s :: s in l && s.CreateAt? && s.order == order
  }

  /** `waiting` is by awaited order, then event id; `rows` is the parked table, by event id alone. */
  datatype State = State(lattice: Lattice, waiting: map<(Name, Name), Event>, rows: map<Name, Event>)

  const EMPTY := State(map[], map[], map[])

  function WaitingFor(s: State, order: Name): set<(Name, Name)> {
    set k | k in s.waiting && k.0 == order
  }

  /** What the events waiting on an order set, each under its own id. */
  function DrainedWrites(s: State, order: Name): Lattice {
    map k | k in s.waiting && k.0 == order && s.waiting[k].OfOrder? && s.waiting[k].body.OrderConfirmed?
      :: ConfirmAt(k.0, k.1) := ConfirmOf(s.waiting[k].stamp, s.waiting[k].verified)
  }

  function Ids(keys: set<(Name, Name)>): set<Name> {
    set k | k in keys :: k.1
  }

  function WithoutKey(m: map<(Name, Name), Event>, k: (Name, Name)): map<(Name, Name), Event> {
    map other | other in m && other != k :: m[other]
  }

  function WithoutKeys(m: map<(Name, Name), Event>, order: Name): map<(Name, Name), Event> {
    map k | k in m && k.0 != order :: m[k]
  }

  function WithoutRows(m: map<Name, Event>, ids: set<Name>): map<Name, Event> {
    map id | id in m && id !in ids :: m[id]
  }

  /** The state after one delivery. */
  function After(s: State, e: Event): State {
    if Parks(e) && !HasCreate(s.lattice, e.order) then
      State(s.lattice, s.waiting[(e.order, e.id) := e], s.rows[e.id := e])
    else if e.OfOrder? && e.body.OrderCreated? then
      State(
        s.lattice + Writes(e) + DrainedWrites(s, e.order),
        WithoutKeys(s.waiting, e.order),
        WithoutRows(s.rows, Ids(WaitingFor(s, e.order))))
    else s.(lattice := s.lattice + Writes(e))
  }

  function Deliver(events: seq<Event>): State {
    if events == [] then EMPTY
    else After(Deliver(events[..|events| - 1]), events[|events| - 1])
  }

  lemma DeliverNone(events: seq<Event>)
    ensures Deliver(events[..0]) == EMPTY
  {
  }

  lemma DeliverNext(events: seq<Event>, i: nat)
    requires i < |events|
    ensures Deliver(events[..i + 1]) == After(Deliver(events[..i]), events[i])
  {
    hide After;
    assert events[..i + 1][..i] == events[..i];
  }
}
