/**
 * What one event, and then a whole delivery, does to everything an order or an item is projected from in
 * `packages/sync-client/src/folds/merge.ts`: each reader holds exactly what its delivered events say.
 */
module MergeReads {
  import opened Wrappers
  import opened MergeLattice
  import opened MergeEngine
  import opened MergeConvergence
  import opened MergeMoney
  import opened MergeLines
  import opened MergeOrder

  // ----- the readers not met before ----------------------------------------------------------------------

  function CreatesOf(l: Lattice, order: Name): set<Created> {
    set s | s in l && s.CreateAt? && s.order == order :: s.payload
  }

  function RemovedOf(l: Lattice, order: Name): set<Name> {
    set s | s in l && s.RemovedAt? && s.order == order :: s.line
  }

  function NotesOf(l: Lattice, order: Name, line: Name): set<Name> {
    set s | s in l && s.NoteAt? && s.order == order && s.line == line :: s.note
  }

  function PaymentsOf(l: Lattice, order: Name, attempt: Name): set<Payment> {
    if attempt in PaymentCells(l, order) then PaymentCells(l, order)[attempt] else {}
  }

  function RefundsOf(l: Lattice, order: Name, attempt: Name): set<Refund> {
    if attempt in RefundCells(l, order) then RefundCells(l, order)[attempt] else {}
  }

  function ClosesOf(l: Lattice, order: Name): Closes {
    map s | s in l && s.CloseAt? && s.order == order && l[s].CloseOf? :: s.id := l[s].close
  }

  // ----- what an event says, read off its body ---------------------------------------------------------------

  predicate About(e: Event, order: Name) {
    e.OfOrder? && e.order == order
  }

  predicate SaysCreates(e: Event, order: Name, p: Created) {
    About(e, order) && e.body == OrderCreated(p)
  }

  predicate SaysValues(e: Event, order: Name, line: Name, v: LineValue) {
    About(e, order) && e.body == LineAdded(line, v)
  }

  predicate SaysRemovals(e: Event, order: Name, line: Name) {
    About(e, order) && e.body == LineRemoved(line)
  }

  predicate SaysNotes(e: Event, order: Name, line: Name, note: Name) {
    About(e, order) && e.body == NoteAdded(line, note)
  }

  predicate SaysTombstones(e: Event, order: Name, id: Name) {
    About(e, order) && e.body.TableAssigned? && id in e.body.supersedes && id != e.id
  }

  predicate SaysPayments(e: Event, order: Name, attempt: Name, m: Payment) {
    About(e, order) && e.body == PaymentRecorded(attempt, m)
  }

  predicate SaysRefunds(e: Event, order: Name, attempt: Name, m: Refund) {
    About(e, order) && e.body == PaymentRefunded(attempt, m)
  }

  predicate SaysToggles(e: Event, item: Name, t: (Name, Toggle)) {
    e == OfItem(t.0, item, t.1)
  }

  predicate SaysEdges(e: Event, order: Name, line: Name, id: Name) {
    About(e, order) && e.body.LineStateChanged? && e.id == id && line in e.body.context
  }

  function SaidEdges(e: Event, order: Name, line: Name, id: Name): Edge
    requires SaysEdges(e, order, line, id)
  {
    e.body.context[line]
  }

  predicate SaysNodes(e: Event, order: Name, id: Name) {
    About(e, order) && e.id == id && (e.body.OrderCreated? || e.body.TableAssigned?)
  }

  function SaidNodes(e: Event, order: Name, id: Name): Option<Name>
    requires SaysNodes(e, order, id)
  {
    if e.body.OrderCreated? then e.body.payload.table else Some(e.body.table)
  }

  predicate SaysCloses(e: Event, order: Name, id: Name) {
    About(e, order) && e.id == id && e.body.SettlementClosed?
  }

  function SaidCloses(e: Event, order: Name, id: Name): Close
    requires SaysCloses(e, order, id)
  {
    e.body.close
  }

  predicate SaysConfirms(e: Event, order: Name, id: Name) {
    About(e, order) && e.id == id && e.body.OrderConfirmed?
  }

  function SaidConfirms(e: Event, order: Name, id: Name): Confirm
    requires SaysConfirms(e, order, id)
  {
    Confirm(e.stamp, e.verified)
  }

  // ----- the places behind each reader ---------------------------------------------------------------------

  lemma CreatesPlace(l: Lattice, e: Event, order: Name, p: Created)
    ensures p in CreatesOf(l, order) <==> CreateAt(order, p) in l
    ensures Sets(e, CreateAt(order, p)) <==> SaysCreates(e, order, p)
  {
  }

  lemma ValuesPlace(l: Lattice, e: Event, order: Name, line: Name, v: LineValue)
    ensures v in Values(l, order, line) <==> ValueAt(order, line, v) in l
    ensures Sets(e, ValueAt(order, line, v)) <==> SaysValues(e, order, line, v)
  {
  }

  lemma RemovalsPlace(l: Lattice, e: Event, order: Name, line: Name)
    ensures line in RemovedOf(l, order) <==> RemovedAt(order, line) in l
    ensures Sets(e, RemovedAt(order, line)) <==> SaysRemovals(e, order, line)
  {
  }

  lemma NotesPlace(l: Lattice, e: Event, order: Name, line: Name, note: Name)
    ensures note in NotesOf(l, order, line) <==> NoteAt(order, line, note) in l
    ensures Sets(e, NoteAt(order, line, note)) <==> SaysNotes(e, order, line, note)
  {
  }

  lemma TombstonesPlace(l: Lattice, e: Event, order: Name, id: Name)
    ensures id in Tombstones(l, order) <==> TombstoneAt(order, id) in l
    ensures Sets(e, TombstoneAt(order, id)) <==> SaysTombstones(e, order, id)
  {
  }

  lemma PaymentsPlace(l: Lattice, e: Event, order: Name, attempt: Name, m: Payment)
    ensures m in PaymentsOf(l, order, attempt) <==> PaymentAt(order, attempt, m) in l
    ensures Sets(e, PaymentAt(order, attempt, m)) <==> SaysPayments(e, order, attempt, m)
  {
  }

  lemma RefundsPlace(l: Lattice, e: Event, order: Name, attempt: Name, m: Refund)
    ensures m in RefundsOf(l, order, attempt) <==> RefundAt(order, attempt, m) in l
    ensures Sets(e, RefundAt(order, attempt, m)) <==> SaysRefunds(e, order, attempt, m)
  {
  }

  lemma TogglesPlace(l: Lattice, e: Event, item: Name, t: (Name, Toggle))
    ensures t in TogglesOf(l, item) <==> ToggleAt(item, t.0, t.1) in l
    ensures Sets(e, ToggleAt(item, t.0, t.1)) <==> SaysToggles(e, item, t)
  {
  }

  lemma EdgesRead(l: Lattice, order: Name, line: Name, id: Name)
    ensures var slot, m := EdgeAt(order, line, id), EdgesOf(l, order, line);
      && (id in m <==> slot in l && l[slot].EdgeOf?)
      && (id in m ==> l[slot] == EdgeOf(m[id]))
  {
  }

  lemma EdgesSet(e: Event, order: Name, line: Name, id: Name)
    ensures var slot := EdgeAt(order, line, id);
      && (Sets(e, slot) <==> SaysEdges(e, order, line, id))
      && (Sets(e, slot) ==> Writes(e)[slot] == EdgeOf(SaidEdges(e, order, line, id)))
  {
  }

  lemma NodesRead(l: Lattice, order: Name, id: Name)
    ensures var slot, m := NodeAt(order, id), Nodes(l, order);
      && (id in m <==> slot in l && l[slot].NodeOf?)
      && (id in m ==> l[slot] == NodeOf(m[id]))
  {
  }

  lemma NodesSet(e: Event, order: Name, id: Name)
    ensures var slot := NodeAt(order, id);
      && (Sets(e, slot) <==> SaysNodes(e, order, id))
      && (Sets(e, slot) ==> Writes(e)[slot] == NodeOf(SaidNodes(e, order, id)))
  {
  }

  lemma ClosesRead(l: Lattice, order: Name, id: Name)
    ensures var slot, m := CloseAt(order, id), ClosesOf(l, order);
      && (id in m <==> slot in l && l[slot].CloseOf?)
      && (id in m ==> l[slot] == CloseOf(m[id]))
  {
  }

  lemma ClosesSet(e: Event, order: Name, id: Name)
    ensures var slot := CloseAt(order, id);
      && (Sets(e, slot) <==> SaysCloses(e, order, id))
      && (Sets(e, slot) ==> Writes(e)[slot] == CloseOf(SaidCloses(e, order, id)))
  {
  }

  lemma ConfirmsRead(l: Lattice, order: Name, id: Name)
    ensures var slot, m := ConfirmAt(order, id), ConfirmsOf(l, order);
      && (id in m <==> slot in l && l[slot].ConfirmOf?)
      && (id in m ==> l[slot] == ConfirmOf(m[id].stamp, m[id].verified))
  {
  }

  lemma ConfirmsSet(e: Event, order: Name, id: Name)
    ensures var slot := ConfirmAt(order, id);
      && (Sets(e, slot) <==> SaysConfirms(e, order, id))
      && (Sets(e, slot) ==> Writes(e)[slot] == ConfirmOf(SaidConfirms(e, order, id).stamp, SaidConfirms(e, order, id).verified))
  {
  }

  // ----- one event: every reader gains what the event says of it, and nothing else ------------------------------

  lemma PlacesAfter(l: Lattice, e: Event, slot: Slot)
    ensures slot in l + Writes(e) <==> slot in l || Sets(e, slot)
    ensures slot in l + Writes(e) ==> (l + Writes(e))[slot] == if Sets(e, slot) then Writes(e)[slot] else l[slot]
  {
  }

  lemma CreatesAfter(l: Lattice, e: Event, order: Name)
    ensures forall p: Created :: p in CreatesOf(l + Writes(e), order) <==> p in CreatesOf(l, order) || SaysCreates(e, order, p)
  {
    hide *;
    forall p: Created ensures p in CreatesOf(l + Writes(e), order) <==> p in CreatesOf(l, order) || SaysCreates(e, order, p) {
      CreatesPlace(l, e, order, p);
      CreatesPlace(l + Writes(e), e, order, p);
      PlacesAfter(l, e, CreateAt(order, p));
    }
  }

  lemma ValuesAfter(l: Lattice, e: Event, order: Name, line: Name)
    ensures forall v: LineValue :: v in Values(l + Writes(e), order, line) <==> v in Values(l, order, line) || SaysValues(e, order, line, v)
  {
    hide *;
    forall v: LineValue ensures v in Values(l + Writes(e), order, line) <==> v in Values(l, order, line) || SaysValues(e, order, line, v) {
      ValuesPlace(l, e, order, line, v);
      ValuesPlace(l + Writes(e), e, order, line, v);
      PlacesAfter(l, e, ValueAt(order, line, v));
    }
  }

  lemma RemovalsAfter(l: Lattice, e: Event, order: Name)
    ensures forall line: Name :: line in RemovedOf(l + Writes(e), order) <==> line in RemovedOf(l, order) || SaysRemovals(e, order, line)
  {
    hide *;
    forall line: Name ensures line in RemovedOf(l + Writes(e), order) <==> line in RemovedOf(l, order) || SaysRemovals(e, order, line) {
      RemovalsPlace(l, e, order, line);
      RemovalsPlace(l + Writes(e), e, order, line);
      PlacesAfter(l, e, RemovedAt(order, line));
    }
  }

  lemma NotesAfter(l: Lattice, e: Event, order: Name, line: Name)
    ensures forall note: Name :: note in NotesOf(l + Writes(e), order, line) <==> note in NotesOf(l, order, line) || SaysNotes(e, order, line, note)
  {
    hide *;
    forall note: Name ensures note in NotesOf(l + Writes(e), order, line) <==> note in NotesOf(l, order, line) || SaysNotes(e, order, line, note) {
      NotesPlace(l, e, order, line, note);
      NotesPlace(l + Writes(e), e, order, line, note);
      PlacesAfter(l, e, NoteAt(order, line, note));
    }
  }

  lemma TombstonesAfter(l: Lattice, e: Event, order: Name)
    ensures forall id: Name :: id in Tombstones(l + Writes(e), order) <==> id in Tombstones(l, order) || SaysTombstones(e, order, id)
  {
    hide *;
    forall id: Name ensures id in Tombstones(l + Writes(e), order) <==> id in Tombstones(l, order) || SaysTombstones(e, order, id) {
      TombstonesPlace(l, e, order, id);
      TombstonesPlace(l + Writes(e), e, order, id);
      PlacesAfter(l, e, TombstoneAt(order, id));
    }
  }

  lemma PaymentsAfter(l: Lattice, e: Event, order: Name, attempt: Name)
    ensures forall m: Payment :: m in PaymentsOf(l + Writes(e), order, attempt) <==> m in PaymentsOf(l, order, attempt) || SaysPayments(e, order, attempt, m)
  {
    hide *;
    forall m: Payment ensures m in PaymentsOf(l + Writes(e), order, attempt) <==> m in PaymentsOf(l, order, attempt) || SaysPayments(e, order, attempt, m) {
      PaymentsPlace(l, e, order, attempt, m);
      PaymentsPlace(l + Writes(e), e, order, attempt, m);
      PlacesAfter(l, e, PaymentAt(order, attempt, m));
    }
  }

  lemma RefundsAfter(l: Lattice, e: Event, order: Name, attempt: Name)
    ensures forall m: Refund :: m in RefundsOf(l + Writes(e), order, attempt) <==> m in RefundsOf(l, order, attempt) || SaysRefunds(e, order, attempt, m)
  {
    hide *;
    forall m: Refund ensures m in RefundsOf(l + Writes(e), order, attempt) <==> m in RefundsOf(l, order, attempt) || SaysRefunds(e, order, attempt, m) {
      RefundsPlace(l, e, order, attempt, m);
      RefundsPlace(l + Writes(e), e, order, attempt, m);
      PlacesAfter(l, e, RefundAt(order, attempt, m));
    }
  }

  lemma TogglesAfter(l: Lattice, e: Event, item: Name)
    ensures forall t: (Name, Toggle) :: t in TogglesOf(l + Writes(e), item) <==> t in TogglesOf(l, item) || SaysToggles(e, item, t)
  {
    hide *;
    forall t: (Name, Toggle) ensures t in TogglesOf(l + Writes(e), item) <==> t in TogglesOf(l, item) || SaysToggles(e, item, t) {
      TogglesPlace(l, e, item, t);
      TogglesPlace(l + Writes(e), e, item, t);
      PlacesAfter(l, e, ToggleAt(item, t.0, t.1));
    }
  }

  lemma EdgesAfter(l: Lattice, e: Event, order: Name, line: Name)
    ensures var was, now := EdgesOf(l, order, line), EdgesOf(l + Writes(e), order, line);
      && (forall id :: id in now <==> id in was || SaysEdges(e, order, line, id))
      && (forall id :: id in now ==>
            now[id] == if SaysEdges(e, order, line, id) then SaidEdges(e, order, line, id) else was[id])
  {
    hide EdgesOf, Writes, SaysEdges, SaidEdges;
    var was, now := EdgesOf(l, order, line), EdgesOf(l + Writes(e), order, line);
    forall id
      ensures id in now <==> id in was || SaysEdges(e, order, line, id)
      ensures id in now ==> now[id] == if SaysEdges(e, order, line, id) then SaidEdges(e, order, line, id) else was[id]
    {
      EdgesRead(l, order, line, id);
      EdgesRead(l + Writes(e), order, line, id);
      EdgesSet(e, order, line, id);
      PlacesAfter(l, e, EdgeAt(order, line, id));
    }
  }

  lemma NodesAfter(l: Lattice, e: Event, order: Name)
    ensures var was, now := Nodes(l, order), Nodes(l + Writes(e), order);
      && (forall id :: id in now <==> id in was || SaysNodes(e, order, id))
      && (forall id :: id in now ==>
            now[id] == if SaysNodes(e, order, id) then SaidNodes(e, order, id) else was[id])
  {
    hide Nodes, Writes, SaysNodes, SaidNodes;
    var was, now := Nodes(l, order), Nodes(l + Writes(e), order);
    forall id
      ensures id in now <==> id in was || SaysNodes(e, order, id)
      ensures id in now ==> now[id] == if SaysNodes(e, order, id) then SaidNodes(e, order, id) else was[id]
    {
      NodesRead(l, order, id);
      NodesRead(l + Writes(e), order, id);
      NodesSet(e, order, id);
      PlacesAfter(l, e, NodeAt(order, id));
    }
  }

  lemma ClosesAfter(l: Lattice, e: Event, order: Name)
    ensures var was, now := ClosesOf(l, order), ClosesOf(l + Writes(e), order);
      && (forall id :: id in now <==> id in was || SaysCloses(e, order, id))
      && (forall id :: id in now ==>
            now[id] == if SaysCloses(e, order, id) then SaidCloses(e, order, id) else was[id])
  {
    hide ClosesOf, Writes, SaysCloses, SaidCloses;
    var was, now := ClosesOf(l, order), ClosesOf(l + Writes(e), order);
    forall id
      ensures id in now <==> id in was || SaysCloses(e, order, id)
      ensures id in now ==> now[id] == if SaysCloses(e, order, id) then SaidCloses(e, order, id) else was[id]
    {
      ClosesRead(l, order, id);
      ClosesRead(l + Writes(e), order, id);
      ClosesSet(e, order, id);
      PlacesAfter(l, e, CloseAt(order, id));
    }
  }

  lemma ConfirmsAfter(l: Lattice, e: Event, order: Name)
    ensures var was, now := ConfirmsOf(l, order), ConfirmsOf(l + Writes(e), order);
      && (forall id :: id in now <==> id in was || SaysConfirms(e, order, id))
      && (forall id :: id in now ==>
            now[id] == if SaysConfirms(e, order, id) then SaidConfirms(e, order, id) else was[id])
  {
    hide ConfirmsOf, Writes, SaysConfirms, SaidConfirms;
    var was, now := ConfirmsOf(l, order), ConfirmsOf(l + Writes(e), order);
    forall id
      ensures id in now <==> id in was || SaysConfirms(e, order, id)
      ensures id in now ==> now[id] == if SaysConfirms(e, order, id) then SaidConfirms(e, order, id) else was[id]
    {
      ConfirmsRead(l, order, id);
      ConfirmsRead(l + Writes(e), order, id);
      ConfirmsSet(e, order, id);
      PlacesAfter(l, e, ConfirmAt(order, id));
    }
  }

  // ----- a whole delivery, on any log ---------------------------------------------------------------------------

  lemma SetInIff(events: seq<Event>, slot: Slot)
    ensures SetIn(events, slot) <==> exists e :: e in events && Sets(e, slot)
  {
  }

  lemma HeldIff(l: Lattice, events: seq<Event>, slot: Slot)
    requires HeldFrom(l, events, slot) && slot in l
    ensures exists e :: e in events && Sets(e, slot) && l[slot] == Writes(e)[slot]
  {
  }

  /** The creation payloads held are those the delivered events say. */
  lemma CreatesDelivered(events: seq<Event>, order: Name)
    ensures forall p: Created ::
      p in CreatesOf(Deliver(events).lattice, order) <==> exists e :: e in events && SaysCreates(e, order, p)
  {
    hide *;
    forall p: Created
      ensures p in CreatesOf(Deliver(events).lattice, order) <==> exists e :: e in events && SaysCreates(e, order, p)
    {
      PlaceExact(events, CreateAt(order, p));
      forall e | e in events ensures Sets(e, CreateAt(order, p)) <==> SaysCreates(e, order, p) {
        CreatesPlace(Deliver(events).lattice, e, order, p);
      }
      SetInIff(events, CreateAt(order, p));
      CreatesPlace(Deliver(events).lattice, Unkeyed(order), order, p);
    }
  }

  /** The line values held are those the delivered events say. */
  lemma ValuesDelivered(events: seq<Event>, order: Name, line: Name)
    ensures forall v: LineValue ::
      v in Values(Deliver(events).lattice, order, line) <==> exists e :: e in events && SaysValues(e, order, line, v)
  {
    hide *;
    forall v: LineValue
      ensures v in Values(Deliver(events).lattice, order, line) <==> exists e :: e in events && SaysValues(e, order, line, v)
    {
      PlaceExact(events, ValueAt(order, line, v));
      forall e | e in events ensures Sets(e, ValueAt(order, line, v)) <==> SaysValues(e, order, line, v) {
        ValuesPlace(Deliver(events).lattice, e, order, line, v);
      }
      SetInIff(events, ValueAt(order, line, v));
      ValuesPlace(Deliver(events).lattice, Unkeyed(order), order, line, v);
    }
  }

  /** The removed lines held are those the delivered events say. */
  lemma RemovalsDelivered(events: seq<Event>, order: Name)
    ensures forall line: Name ::
      line in RemovedOf(Deliver(events).lattice, order) <==> exists e :: e in events && SaysRemovals(e, order, line)
  {
    hide *;
    forall line: Name
      ensures line in RemovedOf(Deliver(events).lattice, order) <==> exists e :: e in events && SaysRemovals(e, order, line)
    {
      PlaceExact(events, RemovedAt(order, line));
      forall e | e in events ensures Sets(e, RemovedAt(order, line)) <==> SaysRemovals(e, order, line) {
        RemovalsPlace(Deliver(events).lattice, e, order, line);
      }
      SetInIff(events, RemovedAt(order, line));
      RemovalsPlace(Deliver(events).lattice, Unkeyed(order), order, line);
    }
  }

  /** The notes held are those the delivered events say. */
  lemma NotesDelivered(events: seq<Event>, order: Name, line: Name)
    ensures forall note: Name ::
      note in NotesOf(Deliver(events).lattice, order, line) <==> exists e :: e in events && SaysNotes(e, order, line, note)
  {
    hide *;
    forall note: Name
      ensures note in NotesOf(Deliver(events).lattice, order, line) <==> exists e :: e in events && SaysNotes(e, order, line, note)
    {
      PlaceExact(events, NoteAt(order, line, note));
      forall e | e in events ensures Sets(e, NoteAt(order, line, note)) <==> SaysNotes(e, order, line, note) {
        NotesPlace(Deliver(events).lattice, e, order, line, note);
      }
      SetInIff(events, NoteAt(order, line, note));
      NotesPlace(Deliver(events).lattice, Unkeyed(order), order, line, note);
    }
  }

  /** The superseded assignments held are those the delivered events say. */
  lemma TombstonesDelivered(events: seq<Event>, order: Name)
    ensures forall id: Name ::
      id in Tombstones(Deliver(events).lattice, order) <==> exists e :: e in events && SaysTombstones(e, order, id)
  {
    hide *;
    forall id: Name
      ensures id in Tombstones(Deliver(events).lattice, order) <==> exists e :: e in events && SaysTombstones(e, order, id)
    {
      PlaceExact(events, TombstoneAt(order, id));
      forall e | e in events ensures Sets(e, TombstoneAt(order, id)) <==> SaysTombstones(e, order, id) {
        TombstonesPlace(Deliver(events).lattice, e, order, id);
      }
      SetInIff(events, TombstoneAt(order, id));
      TombstonesPlace(Deliver(events).lattice, Unkeyed(order), order, id);
    }
  }

  /** The payments of an attempt held are those the delivered events say. */
  lemma PaymentsDelivered(events: seq<Event>, order: Name, attempt: Name)
    ensures forall m: Payment ::
      m in PaymentsOf(Deliver(events).lattice, order, attempt) <==> exists e :: e in events && SaysPayments(e, order, attempt, m)
  {
    hide *;
    forall m: Payment
      ensures m in PaymentsOf(Deliver(events).lattice, order, attempt) <==> exists e :: e in events && SaysPayments(e, order, attempt, m)
    {
      PlaceExact(events, PaymentAt(order, attempt, m));
      forall e | e in events ensures Sets(e, PaymentAt(order, attempt, m)) <==> SaysPayments(e, order, attempt, m) {
        PaymentsPlace(Deliver(events).lattice, e, order, attempt, m);
      }
      SetInIff(events, PaymentAt(order, attempt, m));
      PaymentsPlace(Deliver(events).lattice, Unkeyed(order), order, attempt, m);
    }
  }

  /** The refunds of an attempt held are those the delivered events say. */
  lemma RefundsDelivered(events: seq<Event>, order: Name, attempt: Name)
    ensures forall m: Refund ::
      m in RefundsOf(Deliver(events).lattice, order, attempt) <==> exists e :: e in events && SaysRefunds(e, order, attempt, m)
  {
    hide *;
    forall m: Refund
      ensures m in RefundsOf(Deliver(events).lattice, order, attempt) <==> exists e :: e in events && SaysRefunds(e, order, attempt, m)
    {
      PlaceExact(events, RefundAt(order, attempt, m));
      forall e | e in events ensures Sets(e, RefundAt(order, attempt, m)) <==> SaysRefunds(e, order, attempt, m) {
        RefundsPlace(Deliver(events).lattice, e, order, attempt, m);
      }
      SetInIff(events, RefundAt(order, attempt, m));
      RefundsPlace(Deliver(events).lattice, Unkeyed(order), order, attempt, m);
    }
  }

  /** The toggles held are those the delivered events say. */
  lemma TogglesDelivered(events: seq<Event>, item: Name)
    ensures forall t: (Name, Toggle) ::
      t in TogglesOf(Deliver(events).lattice, item) <==> exists e :: e in events && SaysToggles(e, item, t)
  {
    hide *;
    forall t: (Name, Toggle)
      ensures t in TogglesOf(Deliver(events).lattice, item) <==> exists e :: e in events && SaysToggles(e, item, t)
    {
      PlaceExact(events, ToggleAt(item, t.0, t.1));
      forall e | e in events ensures Sets(e, ToggleAt(item, t.0, t.1)) <==> SaysToggles(e, item, t) {
        TogglesPlace(Deliver(events).lattice, e, item, t);
      }
      SetInIff(events, ToggleAt(item, t.0, t.1));
      TogglesPlace(Deliver(events).lattice, Unkeyed(t.0), item, t);
    }
  }

  /** An id is held exactly when a delivered event under it says so, with what one of them says. */
  lemma EdgesDelivered(events: seq<Event>, order: Name, line: Name, id: Name)
    ensures var m := EdgesOf(Deliver(events).lattice, order, line);
      && (id in m <==> exists e :: e in events && SaysEdges(e, order, line, id))
      && (id in m ==> exists e :: e in events && SaysEdges(e, order, line, id) && m[id] == SaidEdges(e, order, line, id))
  {
    hide EdgesOf, Deliver, Writes, SaysEdges, SaidEdges, SetIn, HeldFrom;
    var slot, l := EdgeAt(order, line, id), Deliver(events).lattice;
    PlaceExact(events, slot);
    SetInIff(events, slot);
    forall e | e in events
      ensures Sets(e, slot) <==> SaysEdges(e, order, line, id)
      ensures Sets(e, slot) ==> Writes(e)[slot] == EdgeOf(SaidEdges(e, order, line, id))
    {
      EdgesSet(e, order, line, id);
    }
    EdgesRead(l, order, line, id);
    if slot in l {
      HeldIff(l, events, slot);
    }
  }

  /** An id is held exactly when a delivered event under it says so, with what one of them says. */
  lemma NodesDelivered(events: seq<Event>, order: Name, id: Name)
    ensures var m := Nodes(Deliver(events).lattice, order);
      && (id in m <==> exists e :: e in events && SaysNodes(e, order, id))
      && (id in m ==> exists e :: e in events && SaysNodes(e, order, id) && m[id] == SaidNodes(e, order, id))
  {
    hide Nodes, Deliver, Writes, SaysNodes, SaidNodes, SetIn, HeldFrom;
    var slot, l := NodeAt(order, id), Deliver(events).lattice;
    PlaceExact(events, slot);
    SetInIff(events, slot);
    forall e | e in events
      ensures Sets(e, slot) <==> SaysNodes(e, order, id)
      ensures Sets(e, slot) ==> Writes(e)[slot] == NodeOf(SaidNodes(e, order, id))
    {
      NodesSet(e, order, id);
    }
    NodesRead(l, order, id);
    if slot in l {
      HeldIff(l, events, slot);
    }
  }

  /** An id is held exactly when a delivered event under it says so, with what one of them says. */
  lemma ClosesDelivered(events: seq<Event>, order: Name, id: Name)
    ensures var m := ClosesOf(Deliver(events).lattice, order);
      && (id in m <==> exists e :: e in events && SaysCloses(e, order, id))
      && (id in m ==> exists e :: e in events && SaysCloses(e, order, id) && m[id] == SaidCloses(e, order, id))
  {
    hide ClosesOf, Deliver, Writes, SaysCloses, SaidCloses, SetIn, HeldFrom;
    var slot, l := CloseAt(order, id), Deliver(events).lattice;
    PlaceExact(events, slot);
    SetInIff(events, slot);
    forall e | e in events
      ensures Sets(e, slot) <==> SaysCloses(e, order, id)
      ensures Sets(e, slot) ==> Writes(e)[slot] == CloseOf(SaidCloses(e, order, id))
    {
      ClosesSet(e, order, id);
    }
    ClosesRead(l, order, id);
    if slot in l {
      HeldIff(l, events, slot);
    }
  }

  /**
   * A confirm is held only once the order is created, with what one delivered confirm under its id says; and
   * then it is held, unless a printed ticket came under the same order and id.
   */
  lemma ConfirmsDelivered(events: seq<Event>, order: Name, id: Name)
    ensures var m := ConfirmsOf(Deliver(events).lattice, order);
      && (id in m ==> SomeoneCreated(events, order))
      && (id in m ==> exists e :: e in events && SaysConfirms(e, order, id) && m[id] == SaidConfirms(e, order, id))
      && (SomeoneCreated(events, order) && (exists e :: e in events && SaysConfirms(e, order, id))
            && (forall e :: e in events && About(e, order) && e.id == id ==> !e.body.KotPrinted?)
          ==> id in m)
  {
    hide ConfirmsOf, Deliver, SomeoneCreated, MergeConvergence.Created;
    ConfirmPlaceKept(events, order, id);
    CreatedBySomeone(events, order);
    var l := Deliver(events).lattice;
    ConfirmsRead(l, order, id);
    HeldConfirm(events, order, id);
  }

  ghost predicate SomeoneCreated(events: seq<Event>, order: Name) {
    exists c :: c in events && About(c, order) && c.body.OrderCreated?
  }

  lemma CreatedBySomeone(events: seq<Event>, order: Name)
    ensures MergeConvergence.Created(events, order) <==> SomeoneCreated(events, order)
  {
    if SomeoneCreated(events, order) {
      var c :| c in events && About(c, order) && c.body.OrderCreated?;
      assert Creates(c, order);
    }
    if MergeConvergence.Created(events, order) {
      var c :| c in events && Creates(c, order);
      assert About(c, order);
    }
  }

  /** Only confirms are kept in a confirm's place. */
  lemma HeldConfirm(events: seq<Event>, order: Name, id: Name)
    ensures var l, slot := Deliver(events).lattice, ConfirmAt(order, id); slot in l ==> l[slot].ConfirmOf?
  {
    hide Deliver;
    ConfirmPlaceKept(events, order, id);
  }

  /** The parked table: the bare facts, confirms and printed tickets, of orders no delivered event created. */
  lemma ParkedDelivered(events: seq<Event>, e: Event)
    requires AgreesWith(e, EventsIn(events))
    ensures e in Deliver(events).rows.Values <==>
      (e in events && e.OfOrder? && (e.body.OrderConfirmed? || e.body.KotPrinted?)
       && !SomeoneCreated(events, e.order))
  {
    hide Deliver, Agree, SomeoneCreated, MergeConvergence.Created;
    ParkedExactly(events, e);
    if e.OfOrder? { CreatedBySomeone(events, e.order); }
  }

  // ----- what a projection looks at ------------------------------------------------------------------------

  ghost predicate SameAbout(l: Lattice, m: Lattice, order: Name) {
    forall s: Slot :: !s.ToggleAt? && s.order == order ==> (s in l <==> s in m) && (s in l ==> l[s] == m[s])
  }

  lemma SamePart(l: Lattice, m: Lattice, order: Name)
    requires OrderPart(l, order) == OrderPart(m, order)
    ensures SameAbout(l, m, order)
  {
    forall s: Slot | !s.ToggleAt? && s.order == order
      ensures s in l <==> s in m
      ensures s in l ==> l[s] == m[s]
    {
      assert s in l <==> s in OrderPart(l, order);
      assert s in m <==> s in OrderPart(m, order);
      if s in l { assert OrderPart(l, order)[s] == l[s] && OrderPart(m, order)[s] == m[s]; }
    }
  }

  lemma SameHeads(l: Lattice, m: Lattice, order: Name)
    requires SameAbout(l, m, order)
    ensures CreatesOf(l, order) == CreatesOf(m, order) && RemovedOf(l, order) == RemovedOf(m, order)
    ensures Nodes(l, order) == Nodes(m, order) && Tombstones(l, order) == Tombstones(m, order)
  {
  }

  lemma SameConfirms(l: Lattice, m: Lattice, order: Name)
    requires SameAbout(l, m, order)
    ensures ConfirmsOf(l, order) == ConfirmsOf(m, order)
  {
    hide ConfirmsOf;
    forall id
      ensures id in ConfirmsOf(l, order) <==> id in ConfirmsOf(m, order)
      ensures id in ConfirmsOf(l, order) ==> ConfirmsOf(l, order)[id] == ConfirmsOf(m, order)[id]
    {
      ConfirmsRead(l, order, id);
      ConfirmsRead(m, order, id);
    }
  }

  lemma SameCloses(l: Lattice, m: Lattice, order: Name)
    requires SameAbout(l, m, order)
    ensures ClosesOf(l, order) == ClosesOf(m, order)
  {
    hide ClosesOf;
    forall id
      ensures id in ClosesOf(l, order) <==> id in ClosesOf(m, order)
      ensures id in ClosesOf(l, order) ==> ClosesOf(l, order)[id] == ClosesOf(m, order)[id]
    {
      ClosesRead(l, order, id);
      ClosesRead(m, order, id);
    }
  }

  lemma SamePayments(l: Lattice, m: Lattice, order: Name)
    requires SameAbout(l, m, order)
    ensures PaymentCells(l, order) == PaymentCells(m, order)
  {
    assert PaymentSlots(l, order) == PaymentSlots(m, order);
  }

  lemma SameRefunds(l: Lattice, m: Lattice, order: Name)
    requires SameAbout(l, m, order)
    ensures RefundCells(l, order) == RefundCells(m, order)
  {
    assert RefundSlots(l, order) == RefundSlots(m, order);
  }

  lemma SameLine(l: Lattice, m: Lattice, order: Name, line: Name)
    requires SameAbout(l, m, order)
    ensures Values(l, order, line) == Values(m, order, line) && NotesOf(l, order, line) == NotesOf(m, order, line)
    ensures EdgesOf(l, order, line) == EdgesOf(m, order, line)
  {
  }

  /** Two lattices that agree on an order's part agree on everything that order is projected from. */
  lemma OrderReadsItsPart(l: Lattice, m: Lattice, order: Name)
    requires OrderPart(l, order) == OrderPart(m, order)
    ensures CreatesOf(l, order) == CreatesOf(m, order) && RemovedOf(l, order) == RemovedOf(m, order)
    ensures Nodes(l, order) == Nodes(m, order) && Tombstones(l, order) == Tombstones(m, order)
    ensures ConfirmsOf(l, order) == ConfirmsOf(m, order) && ClosesOf(l, order) == ClosesOf(m, order)
    ensures PaymentCells(l, order) == PaymentCells(m, order) && RefundCells(l, order) == RefundCells(m, order)
    ensures
      (forall line ::
         && Values(l, order, line) == Values(m, order, line) && NotesOf(l, order, line) == NotesOf(m, order, line)
         && EdgesOf(l, order, line) == EdgesOf(m, order, line))
  {
    hide *;
    SamePart(l, m, order);
    SameHeads(l, m, order);
    SameConfirms(l, m, order);
    SameCloses(l, m, order);
    SamePayments(l, m, order);
    SameRefunds(l, m, order);
    forall line ensures Values(l, order, line) == Values(m, order, line)
      ensures NotesOf(l, order, line) == NotesOf(m, order, line) && EdgesOf(l, order, line) == EdgesOf(m, order, line)
    {
      SameLine(l, m, order, line);
    }
  }

  lemma ItemReadsItsPart(l: Lattice, m: Lattice, item: Name)
    requires ItemPart(l, item) == ItemPart(m, item)
    ensures TogglesOf(l, item) == TogglesOf(m, item)
  {
    forall s: Slot | s.ToggleAt? && s.item == item
      ensures s in l <==> s in m
    {
      assert s in l <==> s in ItemPart(l, item);
      assert s in m <==> s in ItemPart(m, item);
    }
  }
}
