/**
 * `packages/sync-client/src/folds/merge.ts`: the engine that applies one event at a time, parks what waits
 * for its order, and says which projections to rewrite.
 */
module MergeEngine {
  import opened Wrappers
  import opened MergeLattice

  datatype ApplyResult = ApplyResult(dirty: set<Name>, dirtyItems: set<Name>, parked: Option<Event>, drained: set<Name>)

  /** What one order, or one item, is projected from. */
  function OrderPart(l: Lattice, order: Name): Lattice {
    map slot | slot in l && !slot.ToggleAt? && slot.order == order :: l[slot]
  }

  function ItemPart(l: Lattice, item: Name): Lattice {
    map slot | slot in l && slot.ToggleAt? && slot.item == item :: l[slot]
  }

  /** Every parked entry sits under its own order and id. */
  predicate Filed(waiting: map<(Name, Name), Event>) {
    forall k :: k in waiting ==> Parks(waiting[k]) && k == (waiting[k].order, waiting[k].id)
  }

  predicate TouchesEntity(b: Body) {
    !b.KotPrinted? && !b.Inert?
  }

  /** Nothing in `w` belongs to the order. */
  predicate AwayFrom(w: Lattice, order: Name) {
    forall slot :: slot in w ==> slot.ToggleAt? || slot.order != order
  }

  predicate AwayFromItem(w: Lattice, item: Name) {
    forall slot :: slot in w ==> !slot.ToggleAt? || slot.item != item
  }

  lemma OrderPartKept(l: Lattice, w: Lattice, order: Name)
    requires AwayFrom(w, order)
    ensures OrderPart(l + w, order) == OrderPart(l, order)
  {
    assert OrderPart(l + w, order).Keys == OrderPart(l, order).Keys;
  }

  lemma ItemPartKept(l: Lattice, w: Lattice, item: Name)
    requires AwayFromItem(w, item)
    ensures ItemPart(l + w, item) == ItemPart(l, item)
  {
    assert ItemPart(l + w, item).Keys == ItemPart(l, item).Keys;
  }

  lemma WritesStayHome(e: Event)
    ensures forall order :: !e.OfOrder? || e.order != order || !TouchesEntity(e.body) ==> AwayFrom(Writes(e), order)
    ensures forall item :: !e.OfItem? || e.item != item ==> AwayFromItem(Writes(e), item)
  {
  }

  lemma WaitingDecidesDrain(s: State, t: State, order: Name)
    requires s.waiting == t.waiting
    ensures DrainedWrites(s, order) == DrainedWrites(t, order) && WaitingFor(s, order) == WaitingFor(t, order)
  {
  }

  lemma UnkeyedWritesNothing(e: Event)
    ensures e.Unkeyed? || (Parks(e) && e.body.KotPrinted?) ==> Writes(e) == map[]
  {
  }

  /** What the reported dirty keys leave alone: every projection not named is unchanged. */
  ghost predicate Untouched(was: Lattice, now: Lattice, dirty: set<Name>, dirtyItems: set<Name>) {
    && (forall order :: order !in dirty ==> OrderPart(now, order) == OrderPart(was, order))
    && (forall item :: item !in dirtyItems ==> ItemPart(now, item) == ItemPart(was, item))
  }

  lemma UntouchedBy(l: Lattice, w: Lattice, dirty: set<Name>, dirtyItems: set<Name>)
    requires forall order :: order !in dirty ==> AwayFrom(w, order)
    requires forall item :: item !in dirtyItems ==> AwayFromItem(w, item)
    ensures Untouched(l, l + w, dirty, dirtyItems)
  {
    hide OrderPart, ItemPart, AwayFrom, AwayFromItem;
    forall order | order !in dirty
      ensures OrderPart(l + w, order) == OrderPart(l, order)
    {
      OrderPartKept(l, w, order);
    }
    forall item | item !in dirtyItems
      ensures ItemPart(l + w, item) == ItemPart(l, item)
    {
      ItemPartKept(l, w, item);
    }
  }

  lemma EventTouches(l: Lattice, s: State, e: Event)
    ensures var dirty := if e.OfOrder? && TouchesEntity(e.body) then {e.order} else {};
      var items := if e.OfItem? then {e.item} else {};
      Untouched(l, l + Writes(e), dirty, items)
      && (e.OfOrder? && e.body.OrderCreated? ==> Untouched(l, l + Writes(e) + DrainedWrites(s, e.order), dirty, items))
  {
    hide Writes, Untouched;
    WritesStayHome(e);
    var dirty := if e.OfOrder? && TouchesEntity(e.body) then {e.order} else {};
    var items := if e.OfItem? then {e.item} else {};
    UntouchedBy(l, Writes(e), dirty, items);
    if e.OfOrder? && e.body.OrderCreated? {
      var w := Writes(e) + DrainedWrites(s, e.order);
      assert l + Writes(e) + DrainedWrites(s, e.order) == l + w;
      UntouchedBy(l, w, dirty, items);
    }
  }

  /** The state once some of the waiting events have been taken out and folded. */
  function Taken(s: State, order: Name, taken: set<(Name, Name)>): State {
    State(
      s.lattice + Folded(s, order, taken),
      map k | k in s.waiting && k !in taken :: s.waiting[k],
      WithoutRows(s.rows, Ids(taken)))
  }

  function Folded(s: State, order: Name, taken: set<(Name, Name)>): Lattice {
    map k | k in taken && k in s.waiting && k.0 == order && s.waiting[k].OfOrder? && s.waiting[k].body.OrderConfirmed?
      :: ConfirmAt(k.0, k.1) := ConfirmOf(s.waiting[k].stamp, s.waiting[k].verified)
  }

  lemma FoldedOneMore(s: State, order: Name, taken: set<(Name, Name)>, k: (Name, Name))
    requires Filed(s.waiting) && k in s.waiting && k.0 == order && k !in taken
    ensures Folded(s, order, taken + {k}) == Folded(s, order, taken) + Writes(s.waiting[k])
  {
  }

  lemma TakenOneMore(s: State, order: Name, taken: set<(Name, Name)>, k: (Name, Name))
    requires Filed(s.waiting) && k in s.waiting && k.0 == order && k !in taken
    ensures var t := Taken(s, order, taken);
      Taken(s, order, taken + {k}) == State(
        t.lattice + Writes(s.waiting[k]),
        WithoutKey(t.waiting, k),
        WithoutRows(t.rows, {k.1}))
    ensures Filed(WithoutKey(Taken(s, order, taken).waiting, k))
    ensures Ids(taken + {k}) == Ids(taken) + {k.1}
    ensures k in Taken(s, order, taken).waiting && Taken(s, order, taken).waiting[k] == s.waiting[k]
  {
    hide Writes, Folded;
    FoldedOneMore(s, order, taken, k);
    var t := Taken(s, order, taken);
    assert t.lattice + Writes(s.waiting[k]) == s.lattice + (Folded(s, order, taken) + Writes(s.waiting[k]));
    assert Ids(taken + {k}) == Ids(taken) + {k.1};
    assert WithoutRows(s.rows, Ids(taken + {k})) == WithoutRows(t.rows, {k.1});
  }

  lemma FoldedNone(s: State, order: Name)
    ensures Folded(s, order, {}) == map[]
  {
  }

  lemma TakenNone(s: State, order: Name)
    ensures Taken(s, order, {}) == s && Ids({}) == {}
  {
    hide Folded;
    FoldedNone(s, order);
    assert s.lattice + map[] == s.lattice;
    assert (map k | k in s.waiting && k !in {} :: s.waiting[k]) == s.waiting;
    assert WithoutRows(s.rows, {}) == s.rows;
  }

  lemma TakenAll(s: State, order: Name)
    ensures Taken(s, order, WaitingFor(s, order))
      == State(s.lattice + DrainedWrites(s, order), WithoutKeys(s.waiting, order), WithoutRows(s.rows, Ids(WaitingFor(s, order))))
  {
    assert Folded(s, order, WaitingFor(s, order)) == DrainedWrites(s, order);
  }

  class Engine {
    var lattice: Lattice
    var waiting: map<(Name, Name), Event>
    var rows: map<Name, Event>

    ghost predicate Valid()
      reads this
    {
      Filed(waiting)
    }

    function Held(): State
      reads this
    {
      State(lattice, waiting, rows)
    }

    constructor ()
      ensures Valid() && Held() == EMPTY
    {
      lattice, waiting, rows := map[], map[], map[];
    }

    /**
     * One delivery. Whatever is not reported dirty projects as before, and at most the event's own order or
     * item is; an event parks or is folded, never both; and exactly the events waiting on a created order are
     * drained.
     */
    method Apply(e: Event) returns (r: ApplyResult)
      requires Valid()
      modifies this
      ensures Valid() && Held() == After(old(Held()), e)
      ensures Untouched(old(lattice), lattice, r.dirty, r.dirtyItems)
      ensures r.dirty ==
        if e.OfOrder? && !e.body.KotPrinted? && !e.body.Inert? && r.parked.None? then {e.order} else {}
      ensures r.dirtyItems == if e.OfItem? then {e.item} else {}
      ensures r.parked == if Parks(e) && !HasCreate(old(lattice), e.order) then Some(e) else None
      ensures r.drained == if e.OfOrder? && e.body.OrderCreated? then Ids(WaitingFor(old(Held()), e.order)) else {}
    {
      hide Writes, Untouched, DrainedWrites, WithoutKeys, WithoutRows, HasCreate;
      EventTouches(lattice, Held(), e);
      UnkeyedWritesNothing(e);
      if e.OfOrder? { WaitingDecidesDrain(Held(), State(lattice + Writes(e), waiting, rows), e.order); }
      assert lattice + map[] == lattice;
      assert Untouched(lattice, lattice, {}, {}) by { UntouchedBy(lattice, map[], {}, {}); }
      match e
      case Unkeyed(_) =>
          r := ApplyResult({}, {}, None, {});
      case OfItem(_, item, _) =>
        lattice := lattice + Writes(e);
        r := ApplyResult({}, {item}, None, {});
      case OfOrder(id, _, _, order, body) =>
        if Parks(e) && !HasCreate(lattice, order) {
          waiting, rows := waiting[(order, id) := e], rows[id := e];
          r := ApplyResult({}, {}, Some(e), {});
        } else {
          lattice := lattice + Writes(e);
          var drained := {};
          if body.OrderCreated? {
            drained := DrainParkedFor(order);
          }
          r := ApplyResult(if TouchesEntity(body) then {order} else {}, {}, None, drained);
        }
    }

    /** `takeParkedFor` and the folding of what it returns, one waiting event at a time. */
    method DrainParkedFor(order: Name) returns (drained: set<Name>)
      requires Valid()
      modifies this
      ensures Valid()
      ensures lattice == old(lattice) + DrainedWrites(old(Held()), order)
      ensures waiting == WithoutKeys(old(waiting), order)
      ensures drained == Ids(WaitingFor(old(Held()), order))
      ensures rows == WithoutRows(old(rows), drained)
    {
      hide Writes, Taken, DrainedWrites, WithoutRows, WithoutKey, WithoutKeys, Ids, Filed;
      ghost var before := Held();
      var all := WaitingFor(Held(), order);
      var todo := all;
      drained := {};
      TakenNone(before, order);
      assert all - todo == {};
      while todo != {}
        invariant todo <= all && Filed(waiting)
        invariant drained == Ids(all - todo)
        invariant Held() == Taken(before, order, all - todo)
        decreases |todo|
      {
        var k :| k in todo;
        TakenOneMore(before, order, all - todo, k);
        lattice := lattice + Writes(waiting[k]);
        waiting := WithoutKey(waiting, k);
        rows := WithoutRows(rows, {k.1});
        assert all - (todo - {k}) == (all - todo) + {k};
        drained := drained + {k.1};
        todo := todo - {k};
      }
      assert all - todo == all;
      TakenAll(before, order);
    }

    /** Replay of a stored log, in whatever order it is read. */
    method Rebuild(events: seq<Event>)
      modifies this
      ensures Valid() && Held() == Deliver(events)
    {
      hide After, Deliver, Untouched, WaitingFor, HasCreate, Ids, Parks;
      lattice, waiting, rows := map[], map[], map[];
      DeliverNone(events);
      for i := 0 to |events|
        invariant Valid() && Held() == Deliver(events[..i])
      {
        DeliverNext(events, i);
        var r := Apply(events[i]);
      }
      assert events[..|events|] == events;
    }
  }
}
