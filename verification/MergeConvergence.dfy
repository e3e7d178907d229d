/**
 * The state of `packages/sync-client/src/folds/merge.ts` as a function of the delivered set: what every
 * device that holds the same events agrees on, and exactly when.
 */
module MergeConvergence {
  import opened MergeLattice

  // ----- the state is a function of the delivered set ---------------------------------------------------

  /** The event is folded, not parked, once these have been delivered. */
  ghost predicate Shows(e: Event, s: set<Event>) {
    !Parks(e) || exists c :: c in s && Creates(c, e.order)
  }

  /**
   * Two events can share a log: bare facts under one id are one event, and no two events set one place
   * to different contents.
   */
  ghost predicate Agree(e: Event, f: Event) {
    if Parks(e) && Parks(f) then e.id == f.id ==> e == f
    else forall slot :: slot in Writes(e) && slot in Writes(f) ==> Writes(e)[slot] == Writes(f)[slot]
  }

  ghost predicate AllAgree(s: set<Event>) {
    forall e, f :: e in s && f in s ==> Agree(e, f)
  }

  lemma AgreedWrites(e: Event, f: Event)
    requires Agree(e, f)
    ensures forall slot :: slot in Writes(e) && slot in Writes(f) ==> Writes(e)[slot] == Writes(f)[slot]
  {
  }

  ghost predicate LatticeOf(l: Lattice, s: set<Event>) {
    && (forall e, slot :: e in s && Shows(e, s) && slot in Writes(e) ==> slot in l && l[slot] == Writes(e)[slot])
    && (forall slot :: slot in l ==> exists e :: e in s && Shows(e, s) && slot in Writes(e))
  }

  ghost predicate WaitingOf(waiting: map<(Name, Name), Event>, s: set<Event>) {
    && (forall e :: e in s && !Shows(e, s) ==> (e.order, e.id) in waiting && waiting[(e.order, e.id)] == e)
    && (forall k :: k in waiting ==> waiting[k] in s && !Shows(waiting[k], s) && k == (waiting[k].order, waiting[k].id))
  }

  ghost predicate RowsOf(rows: map<Name, Event>, s: set<Event>) {
    && (forall e :: e in s && !Shows(e, s) ==> e.id in rows && rows[e.id] == e)
    && (forall id :: id in rows ==> rows[id] in s && !Shows(rows[id], s) && rows[id].id == id)
  }

  /** Exactly what the delivered set determines. */
  ghost predicate SettledTo(state: State, s: set<Event>) {
    LatticeOf(state.lattice, s) && WaitingOf(state.waiting, s) && RowsOf(state.rows, s)
  }

  lemma CreateShows(l: Lattice, s: set<Event>, c: Event)
    requires LatticeOf(l, s) && c in s && c.OfOrder? && c.body.OrderCreated?
    ensures CreateAt(c.order, c.body.payload) in l
  {
    assert CreateAt(c.order, c.body.payload) in Writes(c) && Shows(c, s);
  }

  lemma CreateBehind(l: Lattice, s: set<Event>, slot: Slot)
    requires LatticeOf(l, s) && slot in l && slot.CreateAt?
    ensures exists c :: c in s && Creates(c, slot.order)
  {
    hide Shows;
    var c :| c in s && Shows(c, s) && slot in Writes(c);
    assert Creates(c, slot.order);
  }

  lemma CreateSeen(l: Lattice, s: set<Event>, order: Name)
    requires LatticeOf(l, s)
    ensures HasCreate(l, order) <==> exists c :: c in s && Creates(c, order)
  {
    hide LatticeOf;
    if c :| c in s && Creates(c, order) {
      CreateShows(l, s, c);
    }
    if slot :| slot in l && slot.CreateAt? && slot.order == order {
      CreateBehind(l, s, slot);
    }
  }

  lemma LatticeUnique(l: Lattice, m: Lattice, s: set<Event>)
    requires LatticeOf(l, s) && LatticeOf(m, s)
    ensures l == m
  {
    hide Writes, Shows;
    forall slot | slot in l
      ensures slot in m && m[slot] == l[slot]
    {
      var e :| e in s && Shows(e, s) && slot in Writes(e);
    }
    forall slot | slot in m
      ensures slot in l
    {
      var e :| e in s && Shows(e, s) && slot in Writes(e);
    }
    assert l.Keys == m.Keys;
  }

  lemma SettledUnique(a: State, b: State, s: set<Event>)
    requires SettledTo(a, s) && SettledTo(b, s)
    ensures a == b
  {
    hide Writes, Shows, LatticeOf;
    LatticeUnique(a.lattice, b.lattice, s);
    assert a.waiting.Keys == b.waiting.Keys;
    assert a.rows.Keys == b.rows.Keys;
  }

  lemma ShowsGrow(f: Event, s: set<Event>, e: Event)
    ensures Shows(f, s + {e}) <==> Shows(f, s) || Creates(e, f.order)
  {
    if f.OfOrder? && Creates(e, f.order) {
      assert e in s + {e};
    }
  }

  /** A bare fact whose order is not yet created. */
  lemma StepParks(state: State, s: set<Event>, e: Event)
    requires SettledTo(state, s) && AllAgree(s + {e})
    requires Parks(e) && !Shows(e, s)
    ensures SettledTo(State(state.lattice, state.waiting[(e.order, e.id) := e], state.rows[e.id := e]), s + {e})
  {
    hide Writes;
    forall f | f in s + {e}
      ensures Shows(f, s + {e}) <==> Shows(f, s)
    {
      ShowsGrow(f, s, e);
    }
    forall f | f in s && !Shows(f, s)
      ensures f.id == e.id ==> f == e
    {
      assert Agree(f, e);
    }
  }

  lemma LatticeGrows(l: Lattice, s: set<Event>, e: Event)
    requires LatticeOf(l, s) && AllAgree(s + {e}) && Shows(e, s + {e})
    requires forall f :: f in s ==> (Shows(f, s + {e}) <==> Shows(f, s))
    ensures LatticeOf(l + Writes(e), s + {e})
  {
    hide Writes, Shows, Agree;
    forall f | f in s
      ensures forall slot :: slot in Writes(f) && slot in Writes(e) ==> Writes(f)[slot] == Writes(e)[slot]
    {
      AgreedWrites(f, e);
    }
    forall slot | slot in l + Writes(e)
      ensures exists f :: f in s + {e} && Shows(f, s + {e}) && slot in Writes(f)
    {
      if slot in Writes(e) {
        assert e in s + {e};
      } else {
        var f :| f in s && Shows(f, s) && slot in Writes(f);
      }
    }
  }

  /** Any event that is folded at once and creates no order. */
  lemma StepFolds(state: State, s: set<Event>, e: Event)
    requires SettledTo(state, s) && AllAgree(s + {e})
    requires Shows(e, s) && !(e.OfOrder? && e.body.OrderCreated?)
    ensures SettledTo(state.(lattice := state.lattice + Writes(e)), s + {e})
  {
    hide Writes, Agree, LatticeOf;
    forall f
      ensures Shows(f, s + {e}) <==> Shows(f, s)
    {
      ShowsGrow(f, s, e);
    }
    LatticeGrows(state.lattice, s, e);
  }

  /** Parked until now, and waiting on this order. */
  ghost predicate Freed(f: Event, s: set<Event>, order: Name) {
    f in s && f.OfOrder? && f.order == order && !Shows(f, s)
  }

  lemma DrainedHas(state: State, s: set<Event>, order: Name, f: Event)
    requires WaitingOf(state.waiting, s) && Freed(f, s, order)
    ensures forall slot :: slot in Writes(f) ==> slot in DrainedWrites(state, order) && DrainedWrites(state, order)[slot] == Writes(f)[slot]
  {
    assert (order, f.id) in state.waiting && state.waiting[(order, f.id)] == f;
  }

  lemma DrainedFrom(state: State, s: set<Event>, order: Name, slot: Slot)
    requires WaitingOf(state.waiting, s) && slot in DrainedWrites(state, order)
    ensures exists f :: Freed(f, s, order) && slot in Writes(f)
  {
    hide Shows;
    var f := state.waiting[(slot.order, slot.id)];
    assert Freed(f, s, order) && slot in Writes(f);
  }

  lemma LatticeDrains(state: State, s: set<Event>, e: Event)
    requires SettledTo(state, s) && AllAgree(s + {e}) && e.OfOrder? && e.body.OrderCreated?
    ensures LatticeOf(state.lattice + Writes(e) + DrainedWrites(state, e.order), s + {e})
  {
    hide Writes, Agree, DrainedWrites, Shows, RowsOf;
    var w := state.lattice + Writes(e);
    var d := DrainedWrites(state, e.order);
    var grown := s + {e};
    forall f, slot | f in grown && Shows(f, grown) && slot in Writes(f)
      ensures slot in w + d && (w + d)[slot] == Writes(f)[slot]
    {
      ShowsGrow(f, s, e);
      AgreedWrites(f, e);
      if slot in d {
        DrainedFrom(state, s, e.order, slot);
        var g :| Freed(g, s, e.order) && slot in Writes(g);
        DrainedHas(state, s, e.order, g);
        AgreedWrites(f, g);
      } else if f != e && !Shows(f, s) {
        ParkedIsOfOrder(f, s);
        DrainedHas(state, s, e.order, f);
      }
    }
    forall slot | slot in w + d
      ensures exists f :: f in grown && Shows(f, grown) && slot in Writes(f)
    {
      if slot in d {
        DrainedFrom(state, s, e.order, slot);
        var g :| Freed(g, s, e.order) && slot in Writes(g);
        ShowsGrow(g, s, e);
      } else if slot in Writes(e) {
        CreateShowsItself(e, grown);
      } else {
        var f :| f in s && Shows(f, s) && slot in Writes(f);
        ShowsGrow(f, s, e);
      }
    }
  }

  lemma ParkedIsOfOrder(f: Event, s: set<Event>)
    requires !Shows(f, s)
    ensures f.OfOrder? && Parks(f)
  {
  }

  lemma CreateShowsItself(e: Event, s: set<Event>)
    requires e.OfOrder? && e.body.OrderCreated?
    ensures Shows(e, s)
  {
  }

  lemma WaitingDrains(state: State, s: set<Event>, e: Event)
    requires WaitingOf(state.waiting, s) && e.OfOrder? && e.body.OrderCreated?
    ensures WaitingOf(WithoutKeys(state.waiting, e.order), s + {e})
  {
    hide Writes;
    forall f
      ensures Shows(f, s + {e}) <==> Shows(f, s) || Creates(e, f.order)
    {
      ShowsGrow(f, s, e);
    }
    hide Shows;
    CreateShowsItself(e, s + {e});
  }

  lemma RowsDrain(state: State, s: set<Event>, e: Event)
    requires WaitingOf(state.waiting, s) && RowsOf(state.rows, s) && e.OfOrder? && e.body.OrderCreated?
    requires forall f, g :: f in s && g in s && !Shows(f, s) && !Shows(g, s) && f.id == g.id ==> f == g
    ensures RowsOf(WithoutRows(state.rows, Ids(WaitingFor(state, e.order))), s + {e})
  {
    hide Writes;
    forall f
      ensures Shows(f, s + {e}) <==> Shows(f, s) || Creates(e, f.order)
    {
      ShowsGrow(f, s, e);
    }
    hide Shows;
    CreateShowsItself(e, s + {e});
    forall f | f in s && !Shows(f, s)
      ensures f.OfOrder? && (f.id in Ids(WaitingFor(state, e.order)) <==> f.order == e.order)
    {
      ParkedIsOfOrder(f, s);
      DrainedIds(state, s, e.order, f);
    }
  }

  lemma DrainedIds(state: State, s: set<Event>, order: Name, f: Event)
    requires WaitingOf(state.waiting, s) && f in s && !Shows(f, s) && f.OfOrder?
    requires forall g :: g in s && !Shows(g, s) && f.id == g.id ==> f == g
    ensures f.id in Ids(WaitingFor(state, order)) <==> f.order == order
  {
    hide Shows;
    assert forall k :: k in WaitingFor(state, order) && k.1 == f.id ==> state.waiting[k] == f;
    assert f.order == order ==> (f.order, f.id) in WaitingFor(state, order);
  }

  lemma StepCreates(state: State, s: set<Event>, e: Event)
    requires SettledTo(state, s) && AllAgree(s + {e}) && e.OfOrder? && e.body.OrderCreated?
    ensures SettledTo(After(state, e), s + {e})
  {
    hide Writes, DrainedWrites, LatticeOf, WaitingOf, RowsOf, Shows, HasCreate;
    LatticeDrains(state, s, e);
    WaitingDrains(state, s, e);
    forall f, g | f in s && g in s && !Shows(f, s) && !Shows(g, s)
      ensures f.id == g.id ==> f == g
    {
      ParkedIsOfOrder(f, s);
      ParkedIsOfOrder(g, s);
      assert Agree(f, g);
    }
    RowsDrain(state, s, e);
  }

  lemma ParksIffNoCreate(state: State, s: set<Event>, e: Event)
    requires SettledTo(state, s) && Parks(e)
    ensures HasCreate(state.lattice, e.order) <==> Shows(e, s)
  {
    hide LatticeOf, HasCreate;
    CreateSeen(state.lattice, s, e.order);
  }

  /** One delivery onto a settled state settles to the larger set. */
  lemma SettledStep(state: State, s: set<Event>, e: Event)
    requires SettledTo(state, s) && AllAgree(s + {e})
    ensures SettledTo(After(state, e), s + {e})
  {
    hide Writes, SettledTo, AllAgree, HasCreate, DrainedWrites, WithoutKeys, WithoutRows;
    if Parks(e) {
      ParksIffNoCreate(state, s, e);
      if Shows(e, s) { StepFolds(state, s, e); } else { StepParks(state, s, e); }
    } else if e.OfOrder? && e.body.OrderCreated? {
      StepCreates(state, s, e);
    } else {
      StepFolds(state, s, e);
    }
  }

  // ----- convergence ----------------------------------------------------------------------------------

  function EventsIn(events: seq<Event>): set<Event> {
    set e | e in events
  }

  lemma {:induction false} DeliverSettles(events: seq<Event>)
    requires AllAgree(EventsIn(events))
    ensures SettledTo(Deliver(events), EventsIn(events))
  {
    hide After, SettledTo, Agree;
    if events == [] {
      EmptySettled();
      assert EventsIn(events) == {};
    } else {
      var front, e := events[..|events| - 1], events[|events| - 1];
      assert events == front + [e];
      assert EventsIn(events) == EventsIn(front) + {e};
      DeliverSettles(front);
      SettledStep(Deliver(front), EventsIn(front), e);
    }
  }

  lemma EmptySettled()
    ensures SettledTo(EMPTY, {})
  {
  }

  /** Devices that were delivered the same events, drawn from `s`, hold the same state. */
  ghost predicate Converges(s: set<Event>) {
    forall a, b :: EventsIn(a) <= s && EventsIn(a) == EventsIn(b) ==> Deliver(a) == Deliver(b)
  }

  lemma SameDeliverySameState(a: seq<Event>, b: seq<Event>)
    requires EventsIn(a) == EventsIn(b) && AllAgree(EventsIn(a))
    ensures Deliver(a) == Deliver(b)
  {
    hide Deliver, SettledTo;
    DeliverSettles(a);
    DeliverSettles(b);
    SettledUnique(Deliver(a), Deliver(b), EventsIn(a));
  }

  lemma DeliverTwo(e: Event, f: Event)
    ensures Deliver([e, f]) == After(After(EMPTY, e), f)
  {
    assert [e, f][..1] == [e] && [e][..0] == [];
    assert Deliver([e]) == After(Deliver([]), e);
  }

  lemma LastRowStays(e: Event, f: Event)
    requires Parks(e) && Parks(f) && e.id == f.id
    ensures f.id in After(After(EMPTY, e), f).rows && After(After(EMPTY, e), f).rows[f.id] == f
  {
    hide Writes;
    assert After(EMPTY, e).lattice == map[];
  }

  lemma LastWriteStays(e: Event, f: Event)
    requires !Parks(f)
    ensures forall slot :: slot in Writes(f) && !slot.ConfirmAt? ==>
      slot in After(After(EMPTY, e), f).lattice && After(After(EMPTY, e), f).lattice[slot] == Writes(f)[slot]
  {
  }

  lemma ConfirmWritten(e: Event)
    ensures (exists slot :: slot in Writes(e) && slot.ConfirmAt?) ==> Parks(e)
    ensures Parks(e) ==> forall slot :: slot in Writes(e) ==> slot.ConfirmAt?
  {
  }

  /** Of two events that disagree, whichever comes second decides. */
  lemma DisagreementShows(e: Event, f: Event)
    requires !Agree(e, f)
    ensures Deliver([e, f]) != Deliver([f, e])
  {
    DeliverTwo(e, f);
    DeliverTwo(f, e);
    ConfirmWritten(e);
    ConfirmWritten(f);
    hide Deliver, After, Writes, Parks;
    if Parks(e) && Parks(f) {
      LastRowStays(e, f);
      LastRowStays(f, e);
    } else {
      var slot :| slot in Writes(e) && slot in Writes(f) && Writes(e)[slot] != Writes(f)[slot];
      LastWriteStays(e, f);
      LastWriteStays(f, e);
    }
  }

  /**
   * Every device that holds the same events, however many times and in whatever order they came, holds
   * the same orders, lines, money and parked rows, if and only if the log agrees with itself: one event
   * per parked id, and one content per place.
   */
  lemma ConvergesIffAgree(s: set<Event>)
    ensures Converges(s) <==> AllAgree(s)
  {
    hide Deliver, Agree;
    if AllAgree(s) {
      forall a, b | EventsIn(a) <= s && EventsIn(a) == EventsIn(b)
        ensures Deliver(a) == Deliver(b)
      {
        SameDeliverySameState(a, b);
      }
    }
    if Converges(s) {
      forall e, f | e in s && f in s
        ensures Agree(e, f)
      {
        assert EventsIn([e, f]) == {e, f} == EventsIn([f, e]);
        if !Agree(e, f) {
          DisagreementShows(e, f);
        }
      }
    }
  }

  /** The store's own rule, one event per id, is enough for a log to agree with itself. */
  lemma OneEventPerIdAgrees(s: set<Event>)
    requires forall e, f :: e in s && f in s && e.id == f.id ==> e == f
    ensures AllAgree(s)
  {
    hide Writes, Parks;
    forall e, f | e in s && f in s
      ensures Agree(e, f)
    {
      ContentsByKind(e);
      ContentsByKind(f);
    }
  }

  predicate KeyedById(slot: Slot) {
    slot.NodeAt? || slot.ConfirmAt? || slot.CloseAt? || slot.EdgeAt?
  }

  /** A place keyed by an event id is set only by that event; any other place only ever says present. */
  lemma ContentsByKind(e: Event)
    ensures forall slot :: slot in Writes(e) && KeyedById(slot) ==> slot.id == e.id
    ensures forall slot :: slot in Writes(e) && !KeyedById(slot) ==> Writes(e)[slot] == Present
  {
  }

  /** Two closes under one id, attesting different sums, are enough for two devices to part. */
  lemma OneIdTwoClosesDiverge(id: Name, order: Name, rest: Name)
    ensures var e := OfOrder(id, 0, true, order, SettlementClosed(Close(Attested(100), Attested(100), rest)));
      var f := OfOrder(id, 0, true, order, SettlementClosed(Close(Attested(200), Attested(200), rest)));
      EventsIn([e, f]) == EventsIn([f, e]) && Deliver([e, f]) != Deliver([f, e])
  {
    var e := OfOrder(id, 0, true, order, SettlementClosed(Close(Attested(100), Attested(100), rest)));
    var f := OfOrder(id, 0, true, order, SettlementClosed(Close(Attested(200), Attested(200), rest)));
    assert Writes(e)[CloseAt(order, id)] != Writes(f)[CloseAt(order, id)];
    DisagreementShows(e, f);
  }

  // ----- one place, on any log ----------------------------------------------------------------------------

  ghost predicate Sets(e: Event, slot: Slot) {
    slot in Writes(e)
  }

  ghost predicate SetIn(events: seq<Event>, slot: Slot) {
    exists e :: e in events && Sets(e, slot)
  }

  /** What the lattice holds at a place is what one of the events that set it set. */
  ghost predicate HeldFrom(l: Lattice, events: seq<Event>, slot: Slot) {
    slot in l ==> exists e :: e in events && Sets(e, slot) && l[slot] == Writes(e)[slot]
  }

  lemma AfterElsewhere(state: State, e: Event, slot: Slot)
    requires !slot.ConfirmAt?
    ensures slot in After(state, e).lattice <==> slot in state.lattice || Sets(e, slot)
    ensures Sets(e, slot) ==> After(state, e).lattice[slot] == Writes(e)[slot]
    ensures slot in state.lattice && !Sets(e, slot) ==> After(state, e).lattice[slot] == state.lattice[slot]
  {
    ConfirmWritten(e);
  }

  /** On any log, agreeing or not, a place that is not a confirm is held exactly when some delivered event sets it. */
  lemma {:induction false} PlaceExact(events: seq<Event>, slot: Slot)
    requires !slot.ConfirmAt?
    ensures slot in Deliver(events).lattice <==> SetIn(events, slot)
    ensures HeldFrom(Deliver(events).lattice, events, slot)
  {
    hide After, Sets;
    if events != [] {
      var front, e := events[..|events| - 1], events[|events| - 1];
      assert events == front + [e];
      PlaceExact(front, slot);
      AfterElsewhere(Deliver(front), e, slot);
    }
  }

  lemma SetInMore(a: seq<Event>, b: seq<Event>, slot: Slot)
    requires EventsIn(a) <= EventsIn(b) && SetIn(a, slot)
    ensures SetIn(b, slot)
  {
    var e :| e in a && Sets(e, slot);
    assert e in EventsIn(a);
  }

  /** On any log, more events never take out a place that is not a confirm. */
  lemma PlacesNeverLeave(a: seq<Event>, b: seq<Event>)
    requires EventsIn(a) <= EventsIn(b)
    ensures forall slot :: slot in Deliver(a).lattice && !slot.ConfirmAt? ==> slot in Deliver(b).lattice
  {
    hide Deliver, SetIn;
    forall slot | slot in Deliver(a).lattice && !slot.ConfirmAt?
      ensures slot in Deliver(b).lattice
    {
      PlaceExact(a, slot);
      PlaceExact(b, slot);
      SetInMore(a, b, slot);
    }
  }

  /** A bare fact under this order and id. */
  predicate BareAt(e: Event, order: Name, id: Name) {
    Parks(e) && e.order == order && e.id == id
  }

  predicate ConfirmsAt(e: Event, order: Name, id: Name) {
    BareAt(e, order, id) && e.body.OrderConfirmed?
  }

  ghost predicate Created(events: seq<Event>, order: Name) {
    exists e :: e in events && Creates(e, order)
  }

  lemma CreatedExact(events: seq<Event>, order: Name)
    ensures HasCreate(Deliver(events).lattice, order) <==> Created(events, order)
  {
    hide Deliver, Sets, Creates;
    if Created(events, order) {
      var e :| e in events && Creates(e, order);
      CreateSets(e, order);
      PlaceExact(events, CreateAt(order, e.body.payload));
    }
    if slot :| slot in Deliver(events).lattice && slot.CreateAt? && slot.order == order {
      PlaceExact(events, slot);
      var e :| e in events && Sets(e, slot);
      SetsCreate(e, slot);
    }
  }

  lemma CreateSets(e: Event, order: Name)
    requires Creates(e, order)
    ensures e.OfOrder? && e.body.OrderCreated? && Sets(e, CreateAt(order, e.body.payload))
  {
  }

  lemma SetsCreate(e: Event, slot: Slot)
    requires Sets(e, slot) && slot.CreateAt?
    ensures Creates(e, slot.order)
  {
  }

  /** What waits under a key is a bare fact with that order and id. */
  ghost predicate WellKeyed(s: State, order: Name, id: Name) {
    (order, id) in s.waiting ==> BareAt(s.waiting[(order, id)], order, id)
  }

  lemma BareStep(state: State, e: Event, order: Name, id: Name)
    requires BareAt(e, order, id)
    ensures var next, slot, key := After(state, e), ConfirmAt(order, id), (order, id);
      if !HasCreate(state.lattice, order) then
        SameAt(next.lattice, state.lattice, slot) && key in next.waiting && next.waiting[key] == e
      else
        SameWaiting(next, state, key)
        && (if e.body.OrderConfirmed? then slot in next.lattice && next.lattice[slot] == ConfirmOf(e.stamp, e.verified)
            else SameAt(next.lattice, state.lattice, slot))
  {
    hide HasCreate;
  }

  lemma CreateStep(state: State, e: Event, order: Name, id: Name)
    requires Creates(e, order) && WellKeyed(state, order, id)
    ensures var next, slot, key := After(state, e), ConfirmAt(order, id), (order, id);
      && key !in next.waiting
      && (if key in state.waiting && state.waiting[key].body.OrderConfirmed?
          then slot in next.lattice && next.lattice[slot] == ConfirmOf(state.waiting[key].stamp, state.waiting[key].verified)
          else SameAt(next.lattice, state.lattice, slot))
  {
    hide Writes, DrainedWrites, WithoutRows, HasCreate;
    NotWritten(e, order, id);
    DrainedAt(state, order, order, id);
  }

  lemma NotWritten(e: Event, order: Name, id: Name)
    requires !BareAt(e, order, id)
    ensures ConfirmAt(order, id) !in Writes(e)
  {
  }

  lemma DrainedAt(state: State, created: Name, order: Name, id: Name)
    ensures var d, slot, key := DrainedWrites(state, created), ConfirmAt(order, id), (order, id);
      && (slot in d <==> created == order && key in state.waiting && state.waiting[key].OfOrder?
                         && state.waiting[key].body.OrderConfirmed?)
      && (slot in d ==> d[slot] == ConfirmOf(state.waiting[key].stamp, state.waiting[key].verified))
  {
  }

  lemma OtherStep(state: State, e: Event, order: Name, id: Name)
    requires !BareAt(e, order, id) && !Creates(e, order)
    ensures SameAt(After(state, e).lattice, state.lattice, ConfirmAt(order, id))
    ensures SameWaiting(After(state, e), state, (order, id))
  {
    hide Writes, DrainedWrites, WithoutRows, HasCreate;
    NotWritten(e, order, id);
    if e.OfOrder? {
      DrainedAt(state, e.order, order, id);
    }
  }

  ghost predicate SameWaiting(s: State, t: State, key: (Name, Name)) {
    (key in s.waiting <==> key in t.waiting) && (key in s.waiting ==> s.waiting[key] == t.waiting[key])
  }

  ghost predicate SameAt(l: Lattice, m: Lattice, slot: Slot) {
    (slot in l <==> slot in m) && (slot in l ==> l[slot] == m[slot])
  }

  ghost predicate AnyBare(events: seq<Event>, order: Name, id: Name) {
    exists e :: e in events && BareAt(e, order, id)
  }

  /**
   * One confirm place over a delivery: nothing without a bare fact; with bare facts but no creation, one of
   * them waits and the place is empty; after the creation the place holds one of the confirms, if it holds
   * anything, and it holds one unless a bare fact of the other kind came under the same id.
   */
  ghost predicate ConfirmPlace(state: State, events: seq<Event>, order: Name, id: Name) {
    var slot, key := ConfirmAt(order, id), (order, id);
    && (key in state.waiting ==> state.waiting[key] in events && BareAt(state.waiting[key], order, id))
    && (key in state.waiting <==> AnyBare(events, order, id) && !Created(events, order))
    && (slot in state.lattice ==> Created(events, order))
    && (slot in state.lattice ==>
          exists e :: e in events && ConfirmsAt(e, order, id) && state.lattice[slot] == ConfirmOf(e.stamp, e.verified))
    && (Created(events, order) && AnyBare(events, order, id) && slot !in state.lattice ==>
          exists e :: e in events && BareAt(e, order, id) && !ConfirmsAt(e, order, id))
  }

  lemma {:induction false} ConfirmPlaceKept(events: seq<Event>, order: Name, id: Name)
    ensures ConfirmPlace(Deliver(events), events, order, id)
  {
    hide After, HasCreate;
    if events != [] {
      var front, e := events[..|events| - 1], events[|events| - 1];
      var state := Deliver(front);
      assert events == front + [e];
      assert forall f :: f in events <==> f in front || f == e;
      ConfirmPlaceKept(front, order, id);
      CreatedExact(front, order);
      assert Created(events, order) <==> Created(front, order) || Creates(e, order);
      assert AnyBare(events, order, id) <==> AnyBare(front, order, id) || BareAt(e, order, id);
      ConfirmPlaceStep(state, front, e, order, id);
    }
  }

  lemma ConfirmPlaceStep(state: State, front: seq<Event>, e: Event, order: Name, id: Name)
    requires ConfirmPlace(state, front, order, id) && (HasCreate(state.lattice, order) <==> Created(front, order))
    requires Created(front + [e], order) <==> Created(front, order) || Creates(e, order)
    requires AnyBare(front + [e], order, id) <==> AnyBare(front, order, id) || BareAt(e, order, id)
    ensures ConfirmPlace(After(state, e), front + [e], order, id)
  {
    hide After, HasCreate, Created, AnyBare;
    assert forall f :: f in front + [e] <==> f in front || f == e;
    if BareAt(e, order, id) {
      BareStep(state, e, order, id);
    } else if Creates(e, order) {
      CreateStep(state, e, order, id);
    } else {
      OtherStep(state, e, order, id);
    }
  }

  /** Devices that were delivered the same events, drawn from `s`, hold the same at this place. */
  ghost predicate PlaceConverges(s: set<Event>, slot: Slot) {
    forall a, b :: EventsIn(a) <= s && EventsIn(a) == EventsIn(b) ==> SameAt(Deliver(a).lattice, Deliver(b).lattice, slot)
  }

  ghost predicate OneContent(s: set<Event>, slot: Slot) {
    forall e, f :: e in s && f in s && Sets(e, slot) && Sets(f, slot) ==> Writes(e)[slot] == Writes(f)[slot]
  }

  /** The order is never created here, nothing confirms it under this id, or its bare facts under this id are one event. */
  ghost predicate OneConfirm(s: set<Event>, order: Name, id: Name) {
    || (forall c :: c in s ==> !Creates(c, order))
    || (forall e :: e in s ==> !ConfirmsAt(e, order, id))
    || (forall e, f :: e in s && f in s && BareAt(e, order, id) && BareAt(f, order, id) ==> e == f)
  }

  ghost predicate PlaceAgrees(s: set<Event>, slot: Slot) {
    if slot.ConfirmAt? then OneConfirm(s, slot.order, slot.id) else OneContent(s, slot)
  }

  lemma AgreedPlace(s: set<Event>, a: seq<Event>, b: seq<Event>, slot: Slot)
    requires EventsIn(a) <= s && EventsIn(a) == EventsIn(b) && PlaceAgrees(s, slot)
    ensures SameAt(Deliver(a).lattice, Deliver(b).lattice, slot)
  {
    hide Deliver, Sets;
    assert forall e :: (e in a <==> e in EventsIn(a)) && (e in b <==> e in EventsIn(b));
    if slot.ConfirmAt? {
      hide BareAt, ConfirmsAt, Creates;
      ConfirmPlaceKept(a, slot.order, slot.id);
      ConfirmPlaceKept(b, slot.order, slot.id);
      BareConfirms(slot.order, slot.id);
    } else {
      PlaceExact(a, slot);
      PlaceExact(b, slot);
    }
  }

  lemma BareConfirms(order: Name, id: Name)
    ensures forall e :: ConfirmsAt(e, order, id) ==> BareAt(e, order, id)
  {
  }

  lemma DeliverThree(e: Event, f: Event, c: Event)
    ensures Deliver([e, f, c]) == After(After(After(EMPTY, e), f), c)
  {
    hide After;
    assert [e, f, c][..2] == [e, f];
    DeliverTwo(e, f);
  }

  /** Of two bare facts under one id, the one that came last before the creation is the one that is drained. */
  lemma LastBareDrains(e: Event, f: Event, c: Event, order: Name, id: Name)
    requires BareAt(e, order, id) && BareAt(f, order, id) && Creates(c, order)
    ensures var l, slot := Deliver([e, f, c]).lattice, ConfirmAt(order, id);
      if f.body.OrderConfirmed? then slot in l && l[slot] == ConfirmOf(f.stamp, f.verified) else slot !in l
  {
    DeliverThree(e, f, c);
    hide Deliver, After;
    BareStep(EMPTY, e, order, id);
    StillUncreated(EMPTY, e, order);
    StillUncreated(After(EMPTY, e), f, order);
    BareStep(After(EMPTY, e), f, order, id);
    CreateStep(After(After(EMPTY, e), f), c, order, id);
  }

  lemma StillUncreated(state: State, e: Event, order: Name)
    requires Parks(e) && !HasCreate(state.lattice, order)
    ensures !HasCreate(After(state, e).lattice, order)
  {
  }

  /** Delivered just before the creation in either order, two bare facts under one id leave different places. */
  lemma BareOrderShows(e: Event, f: Event, c: Event, order: Name, id: Name)
    requires ConfirmsAt(e, order, id) && BareAt(f, order, id) && f != e && Creates(c, order)
    ensures !SameAt(Deliver([e, f, c]).lattice, Deliver([f, e, c]).lattice, ConfirmAt(order, id))
  {
    hide Deliver;
    LastBareDrains(e, f, c, order, id);
    LastBareDrains(f, e, c, order, id);
  }

  lemma DisagreedConfirm(s: set<Event>, order: Name, id: Name)
    requires !OneConfirm(s, order, id)
    ensures !PlaceConverges(s, ConfirmAt(order, id))
  {
    hide Deliver, SameAt, Creates, ConfirmsAt, BareAt;
    var c :| c in s && Creates(c, order);
    var e :| e in s && ConfirmsAt(e, order, id);
    var f :| f in s && BareAt(f, order, id) && f != e;
    assert EventsIn([e, f, c]) == {e, f, c} == EventsIn([f, e, c]);
    BareOrderShows(e, f, c, order, id);
  }

  lemma DisagreedContent(s: set<Event>, slot: Slot)
    requires !slot.ConfirmAt? && !OneContent(s, slot)
    ensures !PlaceConverges(s, slot)
  {
    hide Deliver, After, Writes;
    var e, f :| e in s && f in s && Sets(e, slot) && Sets(f, slot) && Writes(e)[slot] != Writes(f)[slot];
    DeliverTwo(e, f);
    DeliverTwo(f, e);
    AfterElsewhere(After(EMPTY, e), f, slot);
    AfterElsewhere(After(EMPTY, f), e, slot);
    assert EventsIn([e, f]) == {e, f} == EventsIn([f, e]);
    assert !SameAt(Deliver([e, f]).lattice, Deliver([f, e]).lattice, slot);
  }

  /**
   * Place by place, on any log: devices that hold the same events agree about a place if and only if the
   * events that touch it agree about it, whatever else in the log collides.
   */
  lemma PlaceConvergesIff(s: set<Event>, slot: Slot)
    ensures PlaceConverges(s, slot) <==> PlaceAgrees(s, slot)
  {
    hide Deliver, SameAt, OneConfirm, OneContent;
    if PlaceAgrees(s, slot) {
      forall a, b | EventsIn(a) <= s && EventsIn(a) == EventsIn(b)
        ensures SameAt(Deliver(a).lattice, Deliver(b).lattice, slot)
      {
        AgreedPlace(s, a, b, slot);
      }
    } else if slot.ConfirmAt? {
      assert slot == ConfirmAt(slot.order, slot.id);
      DisagreedConfirm(s, slot.order, slot.id);
    } else {
      DisagreedContent(s, slot);
    }
  }

  /** So every collection keyed by value converges on any log. */
  lemma ValuePlacesConverge(a: seq<Event>, b: seq<Event>, slot: Slot)
    requires EventsIn(a) == EventsIn(b) && !KeyedById(slot)
    ensures SameAt(Deliver(a).lattice, Deliver(b).lattice, slot)
  {
    hide Deliver, Writes;
    forall e, f | e in EventsIn(a) && f in EventsIn(a) && Sets(e, slot) && Sets(f, slot)
      ensures Writes(e)[slot] == Writes(f)[slot]
    {
      ContentsByKind(e);
      ContentsByKind(f);
    }
    AgreedPlace(EventsIn(a), a, b, slot);
  }

  // ----- one event, on any log ----------------------------------------------------------------------------

  ghost predicate AgreesWith(e: Event, s: set<Event>) {
    forall f :: f in s ==> Agree(e, f)
  }

  /** The parked side of one bare fact: in both tables from its delivery until its order's creation. */
  ghost predicate ParkedPlace(state: State, events: seq<Event>, e: Event)
    requires Parks(e)
  {
    var key := (e.order, e.id);
    && (forall k :: k in state.waiting && k.1 == e.id ==> k == key && state.waiting[k] == e)
    && (e.id in state.rows ==> state.rows[e.id] == e)
    && (key in state.waiting <==> e in events && !Created(events, e.order))
    && (e.id in state.rows <==> e in events && !Created(events, e.order))
  }

  lemma ParkedStep(state: State, front: seq<Event>, f: Event, e: Event)
    requires Parks(e) && ParkedPlace(state, front, e) && Agree(e, f)
    requires HasCreate(state.lattice, e.order) <==> Created(front, e.order)
    requires Created(front + [f], e.order) <==> Created(front, e.order) || Creates(f, e.order)
    ensures ParkedPlace(After(state, f), front + [f], e)
  {
    hide Writes, DrainedWrites, HasCreate, Created;
    assert forall g :: g in front + [f] <==> g in front || g == f;
    if f.OfOrder? {
      assert e.id in Ids(WaitingFor(state, f.order)) <==> (e.order, e.id) in state.waiting && f.order == e.order by {
        if e.id in Ids(WaitingFor(state, f.order)) {
          var k :| k in WaitingFor(state, f.order) && k.1 == e.id;
        }
      }
    }
  }

  lemma {:induction false} ParkedPlaceKept(events: seq<Event>, e: Event)
    requires Parks(e) && AgreesWith(e, EventsIn(events))
    ensures ParkedPlace(Deliver(events), events, e)
  {
    var order := e.order;
    hide After, Parks, HasCreate, Agree;
    if events != [] {
      var front, f := events[..|events| - 1], events[|events| - 1];
      assert events == front + [f];
      assert f in EventsIn(events) && EventsIn(front) <= EventsIn(events);
      ParkedPlaceKept(front, e);
      CreatedExact(front, order);
      assert Created(events, order) <==> Created(front, order) || Creates(f, order);
      ParkedStep(Deliver(front), front, f, e);
    }
  }

  lemma {:induction false} RowsPark(events: seq<Event>)
    ensures forall id :: id in Deliver(events).rows ==> Parks(Deliver(events).rows[id])
  {
    if events != [] {
      RowsPark(events[..|events| - 1]);
    }
  }

  /** An event the rest of the log agrees with is in the parked table exactly when it is a bare fact whose order nobody created. */
  lemma ParkedExactly(events: seq<Event>, e: Event)
    requires AgreesWith(e, EventsIn(events))
    ensures e in Deliver(events).rows.Values <==> e in events && Parks(e) && !Created(events, e.order)
  {
    hide Deliver, Created, Agree;
    RowsPark(events);
    if Parks(e) {
      ParkedPlaceKept(events, e);
      RowsKeyed(events);
    }
  }

  lemma {:induction false} RowsKeyed(events: seq<Event>)
    ensures forall id :: id in Deliver(events).rows ==> Deliver(events).rows[id].id == id
  {
    if events != [] {
      RowsKeyed(events[..|events| - 1]);
    }
  }

  lemma {:induction false} NoneWaits(events: seq<Event>, order: Name)
    requires Created(events, order)
    ensures WaitingFor(Deliver(events), order) == {}
  {
    hide Deliver;
    forall id ensures (order, id) !in Deliver(events).waiting {
      ConfirmPlaceKept(events, order, id);
    }
  }

  /** Every place the event sets already holds what it sets. */
  lemma AlreadyHeld(events: seq<Event>, e: Event)
    requires e in events && AgreesWith(e, EventsIn(events))
    requires Parks(e) ==> Created(events, e.order)
    ensures Deliver(events).lattice + Writes(e) == Deliver(events).lattice
  {
    hide Deliver;
    var l := Deliver(events).lattice;
    forall slot | slot in Writes(e) ensures slot in l && l[slot] == Writes(e)[slot] {
      hide Writes, Created;
      assert Sets(e, slot);
      assert forall f :: f in events <==> f in EventsIn(events);
      if Parks(e) {
        BareWrites(e, slot);
        ConfirmPlaceKept(events, e.order, e.id);
        assert AnyBare(events, e.order, e.id);
        assert forall f :: f in events && BareAt(f, e.order, e.id) ==> f == e;
      } else {
        ConfirmWritten(e);
        PlaceExact(events, slot);
        forall f | f in events && Sets(f, slot) ensures Writes(f)[slot] == Writes(e)[slot] {
          AgreedWrites(e, f);
        }
      }
    }
  }

  lemma BareWrites(e: Event, slot: Slot)
    requires Parks(e) && slot in Writes(e)
    ensures ConfirmsAt(e, e.order, e.id) && BareAt(e, e.order, e.id)
    ensures slot == ConfirmAt(e.order, e.id) && Writes(e)[slot] == ConfirmOf(e.stamp, e.verified)
  {
  }

  lemma BareAgain(events: seq<Event>, e: Event)
    requires Parks(e) && e in events && AgreesWith(e, EventsIn(events))
    ensures After(Deliver(events), e) == Deliver(events)
  {
    hide Deliver, Agree, Writes, HasCreate, Created, AgreesWith;
    CreatedExact(events, e.order);
    ParkedPlaceKept(events, e);
    if Created(events, e.order) { AlreadyHeld(events, e); }
  }

  lemma CreationAgain(events: seq<Event>, e: Event)
    requires e.OfOrder? && e.body.OrderCreated? && e in events && AgreesWith(e, EventsIn(events))
    ensures After(Deliver(events), e) == Deliver(events)
  {
    hide Deliver, Agree, Writes, DrainedWrites, WithoutKeys, WithoutRows, Ids, WaitingFor, HasCreate, AgreesWith;
    AlreadyHeld(events, e);
    CreatedBy(events, e);
    NoneWaits(events, e.order);
    NothingDrains(Deliver(events), e.order);
  }

  /** Redelivering an event that the rest of the log agrees with changes nothing. */
  lemma RedeliveryIsNothing(events: seq<Event>, e: Event)
    requires e in events && AgreesWith(e, EventsIn(events))
    ensures Deliver(events + [e]) == Deliver(events)
  {
    assert (events + [e])[..|events|] == events;
    assert Deliver(events + [e]) == After(Deliver(events), e);
    if Parks(e) {
      BareAgain(events, e);
    } else if e.OfOrder? && e.body.OrderCreated? {
      CreationAgain(events, e);
    } else {
      hide Deliver, Agree, Writes, AgreesWith;
      AlreadyHeld(events, e);
    }
  }

  lemma CreatedBy(events: seq<Event>, e: Event)
    requires e in events && e.OfOrder? && e.body.OrderCreated?
    ensures Created(events, e.order)
  {
    assert Creates(e, e.order);
  }

  lemma NothingDrains(state: State, order: Name)
    requires WaitingFor(state, order) == {}
    ensures DrainedWrites(state, order) == map[]
    ensures WithoutKeys(state.waiting, order) == state.waiting
    ensures WithoutRows(state.rows, Ids(WaitingFor(state, order))) == state.rows
  {
    assert forall k :: k in state.waiting && k.0 == order ==> k in WaitingFor(state, order);
  }

  lemma LastBareRow(state: State, e: Event)
    requires Parks(e) && !HasCreate(state.lattice, e.order)
    ensures e.id in After(state, e).rows && After(state, e).rows[e.id] == e
  {
  }

  /** Of two events that disagree, redelivering the first takes the second's mark away. */
  lemma RedeliveryShows(e: Event, f: Event)
    requires !Agree(e, f)
    ensures Deliver([e, f] + [e]) != Deliver([e, f])
  {
    assert ([e, f] + [e])[..2] == [e, f];
    assert Deliver([e, f] + [e]) == After(Deliver([e, f]), e);
    DeliverTwo(e, f);
    ConfirmWritten(e);
    ConfirmWritten(f);
    var state := After(EMPTY, e);
    if Parks(e) && Parks(f) {
      StillUncreated(EMPTY, e, f.order);
      StillUncreated(EMPTY, e, e.order);
      StillUncreated(state, f, e.order);
      hide Deliver, After, Writes, HasCreate;
      LastBareRow(state, f);
      LastBareRow(After(state, f), e);
    } else {
      hide Deliver, After, Writes, Parks;
      var slot :| slot in Writes(e) && slot in Writes(f) && Writes(e)[slot] != Writes(f)[slot];
      AfterElsewhere(state, f, slot);
      AfterElsewhere(After(state, f), e, slot);
    }
  }

  /** On any log, redelivering an event is nothing to any device, if and only if every other event agrees with it. */
  lemma RedeliveryIsNothingIff(s: set<Event>, e: Event)
    requires e in s
    ensures (forall events :: EventsIn(events) <= s && e in events ==> Deliver(events + [e]) == Deliver(events))
      <==> AgreesWith(e, s)
  {
    hide Deliver, Agree;
    if AgreesWith(e, s) {
      forall events | EventsIn(events) <= s && e in events
        ensures Deliver(events + [e]) == Deliver(events)
      {
        RedeliveryIsNothing(events, e);
      }
    } else {
      var f :| f in s && !Agree(e, f);
      RedeliveryShows(e, f);
      assert EventsIn([e, f]) == {e, f} && e in [e, f];
    }
  }
}
