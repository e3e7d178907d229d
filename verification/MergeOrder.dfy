/**
 * The rest of one order's projection in `packages/sync-client/src/folds/merge.ts`: the identity register,
 * the confirm anchor, the tables, the lines that are billed, and the attested ceiling.
 */
module MergeOrder {
  import opened Wrappers
  import opened MergeLattice
  import opened MergeConvergence
  import opened MergeMoney
  import T = Text16
  import Lines = MergeLines

  // ----- a default among concurrent values -----------------------------------------------------------

  ghost predicate Injective<V(!new)>(hash: V -> T.Text) {
    forall x, y :: hash(x) == hash(y) ==> x == y
  }

  /** The member with the smallest hash. */
  predicate IsLeast<V(==)>(members: set<V>, hash: V -> T.Text, r: V) {
    r in members && forall m :: m in members ==> m == r || T.Less(hash(r), hash(m))
  }

  lemma LeastUnique<V>(members: set<V>, hash: V -> T.Text, r: V, s: V)
    requires IsLeast(members, hash, r) && IsLeast(members, hash, s)
    ensures r == s
  {
    T.LessTotal(hash(r), hash(s));
  }

  /** The register's pick, whatever order the members are visited in. */
  method LeastByHash<V(!new, ==)>(members: set<V>, hash: V -> T.Text) returns (r: V)
    requires members != {} && Injective(hash)
    ensures IsLeast(members, hash, r)
  {
    var first :| first in members;
    r := first;
    var todo := members - {first};
    while todo != {}
      invariant todo <= members && r in members - todo
      invariant IsLeast(members - todo, hash, r)
      decreases |todo|
    {
      var m :| m in todo;
      T.LessTotal(hash(m), hash(r));
      if T.Less(hash(m), hash(r)) {
        forall other | other in members - todo && other != r
          ensures T.Less(hash(m), hash(other))
        {
          T.LessTransitive(hash(m), hash(r), hash(other));
        }
        r := m;
      }
      todo := todo - {m};
    }
    assert members - todo == members;
  }

  // ----- the confirm anchor ----------------------------------------------------------------------------

  datatype Confirm = Confirm(stamp: int, verified: bool)

  type Confirms = map<Name, Confirm>

  function ConfirmsOf(l: Lattice, order: Name): Confirms {
    map s | s in l && s.ConfirmAt? && s.order == order && l[s].ConfirmOf? :: s.id := Confirm(l[s].stamp, l[s].verified)
  }

  predicate AnyVerified(confirms: Confirms) {
    exists id :: id in confirms && confirms[id].verified
  }

  /** The earliest stamp among the verified confirms, or among all when none is verified. */
  predicate IsAnchor(confirms: Confirms, stamp: int) {
    && (exists id :: id in confirms && confirms[id].stamp == stamp && confirms[id].verified == AnyVerified(confirms))
    && forall id :: id in confirms && confirms[id].verified == AnyVerified(confirms) ==> stamp <= confirms[id].stamp
  }

  predicate Better(c: Confirm, id: Name, anchor: Confirm, anchorId: Name, less: (Name, Name) -> bool) {
    (c.verified && !anchor.verified)
    || (c.verified == anchor.verified && (c.stamp < anchor.stamp || (c.stamp == anchor.stamp && less(id, anchorId))))
  }

  /** No id comparison reaches the value: `less` may be any relation at all. */
  method ConfirmAnchor(confirms: Confirms, less: (Name, Name) -> bool) returns (stamp: Option<int>)
    ensures stamp.None? <==> confirms == map[]
    ensures forall t :: IsAnchor(confirms, t) <==> stamp == Some(t)
  {
    var todo := confirms.Keys;
    if todo == {} {
      return None;
    }
    var anchorId :| anchorId in todo;
    todo := todo - {anchorId};
    while todo != {}
      invariant todo <= confirms.Keys && anchorId in confirms.Keys - todo
      invariant forall id :: id in confirms.Keys - todo ==> confirms[id].verified ==> confirms[anchorId].verified
      invariant forall id :: id in confirms.Keys - todo ==>
        confirms[id].verified == confirms[anchorId].verified ==> confirms[anchorId].stamp <= confirms[id].stamp
      decreases |todo|
    {
      var id :| id in todo;
      if Better(confirms[id], id, confirms[anchorId], anchorId, less) {
        anchorId := id;
      }
      todo := todo - {id};
    }
    stamp := Some(confirms[anchorId].stamp);
    assert AnyVerified(confirms) == confirms[anchorId].verified;
    forall t | IsAnchor(confirms, t) ensures stamp == Some(t) {
      AnchorUnique(confirms, t, confirms[anchorId].stamp);
    }
  }

  lemma AnchorUnique(confirms: Confirms, a: int, b: int)
    requires IsAnchor(confirms, a) && IsAnchor(confirms, b)
    ensures a == b
  {
  }

  /** Giving every event another id moves no anchor. */
  lemma AnchorRelabelled(confirms: Confirms, renamed: Confirms, rename: Name -> Name, stamp: int)
    requires forall id :: id in confirms ==> rename(id) in renamed && renamed[rename(id)] == confirms[id]
    requires forall id :: id in renamed ==> exists was :: was in confirms && rename(was) == id
    ensures IsAnchor(confirms, stamp) <==> IsAnchor(renamed, stamp)
  {
    assert AnyVerified(confirms) <==> AnyVerified(renamed);
    if IsAnchor(confirms, stamp) {
      var id :| id in confirms && confirms[id].stamp == stamp && confirms[id].verified == AnyVerified(confirms);
      assert renamed[rename(id)] == confirms[id];
    }
  }

  // ----- the tables ----------------------------------------------------------------------------------------

  function Nodes(l: Lattice, order: Name): map<Name, Option<Name>> {
    map s | s in l && s.NodeAt? && s.order == order && l[s].NodeOf? :: s.id := l[s].table
  }

  function Tombstones(l: Lattice, order: Name): set<Name> {
    set s | s in l && s.TombstoneAt? && s.order == order :: s.id
  }

  /** The tables of the assignments nothing has replaced; more than one is a conflict. */
  function TableHeads(nodes: map<Name, Option<Name>>, tombstones: set<Name>): set<Name> {
    set id | id in nodes && id !in tombstones && nodes[id].Some? :: nodes[id].value
  }

  /**
   * One assignment under a new id: the heads it names give way, the others stand. So naming every head
   * leaves exactly the new table, however many tables the order was contested between.
   */
  lemma AssignmentSettles(l: Lattice, e: Event)
    requires e.OfOrder? && e.body.TableAssigned? && e.id !in Tombstones(l, e.order)
    requires forall id :: id in Nodes(l, e.order) && id !in Tombstones(l, e.order) ==> id in e.body.supersedes && id != e.id
    ensures TableHeads(Nodes(l + Writes(e), e.order), Tombstones(l + Writes(e), e.order)) == {e.body.table}
  {
    var nodes := Nodes(l + Writes(e), e.order);
    var gone := Tombstones(l + Writes(e), e.order);
    assert NodeAt(e.order, e.id) in Writes(e);
    assert e.id in nodes && nodes[e.id] == Some(e.body.table);
    forall id | id in nodes && id != e.id
      ensures id in gone
    {
      assert NodeAt(e.order, id) in l;
      if id in Tombstones(l, e.order) {
        assert TombstoneAt(e.order, id) in l + Writes(e);
      } else {
        assert TombstoneAt(e.order, id) in Writes(e);
      }
    }
    assert e.id !in gone;
  }

  // ----- what is billed ----------------------------------------------------------------------------------------

  /** The lines an order still has: added, and not removed. */
  function LineIds(l: Lattice, order: Name): set<Name> {
    set s | s in l && s.ValueAt? && RemovedAt(order, s.line) !in l && s.order == order :: s.line
  }

  function Values(l: Lattice, order: Name, line: Name): set<LineValue> {
    set s | s in l && s.ValueAt? && s.order == order && s.line == line :: s.value
  }

  /** A line that has left the order, undisputed, is worth nothing; a disputed one is billed. */
  ghost function CellPaisa(values: set<LineValue>, terminal: set<LineState>, hash: LineValue -> T.Text): nat {
    if Lines.Exited(terminal) || !exists v :: IsLeast(values, hash, v) then 0
    else
      var v :| IsLeast(values, hash, v);
      v.qty * v.price
  }

  ghost function CellOf(l: Lattice, order: Name, hash: LineValue -> T.Text): Name -> nat {
    line => CellPaisa(Values(l, order, line), Lines.TerminalValues(Lines.EdgesOf(l, order, line)), hash)
  }

  ghost function Billed(l: Lattice, order: Name, hash: LineValue -> T.Text): nat {
    SumBy(LineIds(l, order), CellOf(l, order, hash))
  }

  /** The lines the kitchen is shown: still on the order, and not exited. */
  function Standing(l: Lattice, order: Name): set<Name> {
    set line | line in LineIds(l, order) && !Lines.Exited(Lines.TerminalValues(Lines.EdgesOf(l, order, line)))
  }

  /** Those of them with nothing left to cook. */
  function Cooked(l: Lattice, order: Name): set<Name> {
    set line | line in Standing(l, order) && Lines.CookingDone(Lines.EdgesOf(l, order, line))
  }

  /** The lines whose value is still disputed. */
  function ValueConflicts(l: Lattice, order: Name): set<Name> {
    set line | line in LineIds(l, order) && |Values(l, order, line)| > 1
  }

  /** One line of the loop: its worth, and whether it has exited or has nothing left to cook. */
  method BillLine(values: set<LineValue>, edges: Lines.Edges, hash: LineValue -> T.Text)
    returns (paisa: nat, exited: bool, cooked: bool)
    requires values != {} && Injective(hash)
    ensures paisa == CellPaisa(values, Lines.TerminalValues(edges), hash)
    ensures exited <==> Lines.Exited(Lines.TerminalValues(edges))
    ensures cooked <==> Lines.CookingDone(edges)
  {
    hide Lines.TerminalValues, Lines.Exited, Lines.Filtered, Lines.IsWatermark, Lines.CookingDone, Lines.Anomalies;
    var value := LeastByHash(values, hash);
    var line := Lines.ProjectLine(edges);
    exited, cooked := Lines.DecidedExit(line.states), line.cookingDone;
    paisa := if exited then 0 else value.qty * value.price;
    CellIs(values, Lines.TerminalValues(edges), hash, value);
  }

  lemma CellIs(values: set<LineValue>, terminal: set<LineState>, hash: LineValue -> T.Text, v: LineValue)
    requires IsLeast(values, hash, v)
    ensures CellPaisa(values, terminal, hash) == if Lines.Exited(terminal) then 0 else v.qty * v.price
  {
    hide IsLeast;
    forall w | IsLeast(values, hash, w) ensures w == v {
      LeastUnique(values, hash, v, w);
    }
  }

  /** Every line an event gave a value, removed or not. */
  function ValuedLines(l: Lattice, order: Name): set<Name> {
    set s | s in l && s.ValueAt? && s.order == order :: s.line
  }

  lemma ValuedHasValue(l: Lattice, order: Name, line: Name)
    requires line in ValuedLines(l, order)
    ensures Values(l, order, line) != {}
    ensures line in LineIds(l, order) <==> RemovedAt(order, line) !in l
  {
    var s :| s in l && s.ValueAt? && s.order == order && s.line == line;
    assert s.value in Values(l, order, line);
  }

  /** The figures over the lines already visited. */
  ghost predicate BilledButFor(
    l: Lattice, order: Name, hash: LineValue -> T.Text, todo: set<Name>, billed: nat, total: nat, ready: nat, conflict: bool)
  {
    && billed == SumBy(LineIds(l, order) - todo, CellOf(l, order, hash))
    && total == |Standing(l, order) - todo| && ready == |Cooked(l, order) - todo|
    && (conflict <==> |ValueConflicts(l, order) - todo| > 0)
  }

  /** The line loop, in any order: the bill, the two counts a cook reads, and whether some line is contested. */
  method BillLines(l: Lattice, order: Name, hash: LineValue -> T.Text)
    returns (billed: nat, total: nat, ready: nat, conflict: bool)
    requires Injective(hash)
    ensures billed == Billed(l, order, hash)
    ensures total == |Standing(l, order)| && ready == |Cooked(l, order)|
    ensures conflict <==> ValueConflicts(l, order) != {}
  {
    hide *;
    billed, total, ready, conflict := 0, 0, 0, false;
    var todo := ValuedLines(l, order);
    NothingBilled(l, order, hash);
    while todo != {}
      invariant BilledButFor(l, order, hash, todo, billed, total, ready, conflict)
      invariant todo <= ValuedLines(l, order)
      decreases |todo|
    {
      var line :| line in todo;
      ValuedHasValue(l, order, line);
      OneMoreBilled(l, order, hash, todo, line, billed, total, ready, conflict);
      todo := todo - {line};
      if RemovedAt(order, line) !in l {
        var values := Values(l, order, line);
        var paisa, exited, cooked := BillLine(values, Lines.EdgesOf(l, order, line), hash);
        if |values| > 1 {
          conflict := true;
        }
        billed := billed + paisa;
        if !exited {
          total := total + 1;
          if cooked {
            ready := ready + 1;
          }
        }
      }
    }
    AllBilled(l, order, hash, billed, total, ready, conflict);
  }

  lemma NothingBilled(l: Lattice, order: Name, hash: LineValue -> T.Text)
    ensures BilledButFor(l, order, hash, ValuedLines(l, order), 0, 0, 0, false)
  {
    var valued := ValuedLines(l, order);
    SumByNone(CellOf(l, order, hash));
    assert LineIds(l, order) - valued == Standing(l, order) - valued == {};
    assert Cooked(l, order) - valued == ValueConflicts(l, order) - valued == {};
  }

  lemma AllBilled(
    l: Lattice, order: Name, hash: LineValue -> T.Text, billed: nat, total: nat, ready: nat, conflict: bool)
    requires BilledButFor(l, order, hash, {}, billed, total, ready, conflict)
    ensures billed == Billed(l, order, hash)
    ensures total == |Standing(l, order)| && ready == |Cooked(l, order)|
    ensures conflict <==> ValueConflicts(l, order) != {}
  {
    hide SumBy, LineIds, Standing, Cooked, ValueConflicts;
    assert LineIds(l, order) - {} == LineIds(l, order) && Standing(l, order) - {} == Standing(l, order);
    assert Cooked(l, order) - {} == Cooked(l, order) && ValueConflicts(l, order) - {} == ValueConflicts(l, order);
  }

  lemma OneMoreCounted(l: Lattice, order: Name, hash: LineValue -> T.Text, todo: set<Name>, line: Name,
                       billed: nat, total: nat, ready: nat, conflict: bool)
    requires line in todo && BilledButFor(l, order, hash, todo, billed, total, ready, conflict)
    ensures BilledButFor(l, order, hash, todo - {line},
      billed + (if line in LineIds(l, order) then CellOf(l, order, hash)(line) else 0),
      total + (if line in Standing(l, order) then 1 else 0), ready + (if line in Cooked(l, order) then 1 else 0),
      conflict || line in ValueConflicts(l, order))
  {
    hide SumBy, CellOf, LineIds, Standing, Cooked, ValueConflicts;
    SumMore(LineIds(l, order), todo, CellOf(l, order, hash), line);
    CountMore(Standing(l, order), todo, line);
    CountMore(Cooked(l, order), todo, line);
    CountMore(ValueConflicts(l, order), todo, line);
  }

  lemma OneMoreBilled(l: Lattice, order: Name, hash: LineValue -> T.Text, todo: set<Name>, line: Name,
                      billed: nat, total: nat, ready: nat, conflict: bool)
    requires line in todo && BilledButFor(l, order, hash, todo, billed, total, ready, conflict)
    ensures var values, edges := Values(l, order, line), Lines.EdgesOf(l, order, line);
      var exited := Lines.Exited(Lines.TerminalValues(edges));
      if line in LineIds(l, order) then
        BilledButFor(l, order, hash, todo - {line}, billed + CellPaisa(values, Lines.TerminalValues(edges), hash),
          if exited then total else total + 1, if exited || !Lines.CookingDone(edges) then ready else ready + 1,
          conflict || |values| > 1)
      else BilledButFor(l, order, hash, todo - {line}, billed, total, ready, conflict)
  {
    hide BilledButFor, CellPaisa, LineIds, Standing, Cooked, ValueConflicts, Values, Lines.EdgesOf, Lines.Exited, Lines.CookingDone,
      Lines.TerminalValues;
    LineCounts(l, order, line);
    OneMoreCounted(l, order, hash, todo, line, billed, total, ready, conflict);
  }

  lemma LineCounts(l: Lattice, order: Name, line: Name)
    ensures var edges := Lines.EdgesOf(l, order, line);
      && (line in Standing(l, order) <==> line in LineIds(l, order) && !Lines.Exited(Lines.TerminalValues(edges)))
      && (line in ValueConflicts(l, order) <==> line in LineIds(l, order) && |Values(l, order, line)| > 1)
      && (line in Cooked(l, order) <==> line in Standing(l, order) && Lines.CookingDone(edges))
  {
  }

  lemma CountMore(all: set<Name>, todo: set<Name>, x: Name)
    requires x in todo
    ensures |all - (todo - {x})| == |all - todo| + (if x in all then 1 else 0)
  {
    if x in all {
      assert all - (todo - {x}) == all - todo + {x};
    } else {
      assert all - (todo - {x}) == all - todo;
    }
  }

  lemma SumMore(all: set<Name>, todo: set<Name>, f: Name -> nat, x: Name)
    requires x in todo
    ensures SumBy(all - (todo - {x}), f) == SumBy(all - todo, f) + (if x in all then f(x) else 0)
  {
    hide SumBy;
    if x in all {
      SumByAdd(all - todo, f, x);
      assert all - (todo - {x}) == all - todo + {x};
    } else {
      assert all - (todo - {x}) == all - todo;
    }
  }

  lemma RemovalKeepsCells(l: Lattice, e: Event, line: Name)
    requires e.OfOrder? && e.body.LineRemoved?
    ensures Values(l + Writes(e), e.order, line) == Values(l, e.order, line)
    ensures Lines.EdgesOf(l + Writes(e), e.order, line) == Lines.EdgesOf(l, e.order, line)
  {
    var after := Lines.EdgesOf(l + Writes(e), e.order, line);
    assert after.Keys == Lines.EdgesOf(l, e.order, line).Keys;
  }

  lemma RemovalTakesItsId(l: Lattice, e: Event)
    requires e.OfOrder? && e.body.LineRemoved?
    ensures LineIds(l + Writes(e), e.order) == LineIds(l, e.order) - {e.body.line}
  {
    var slot := RemovedAt(e.order, e.body.line);
    assert slot in Writes(e);
    assert forall s :: s in l + Writes(e) <==> s in l || s == slot;
  }

  /** A removal takes exactly its own line's worth off the bill, and nothing when the line has not come. */
  lemma RemovalTakesItsLine(l: Lattice, e: Event, hash: LineValue -> T.Text)
    requires e.OfOrder? && e.body.LineRemoved?
    ensures Billed(l, e.order, hash) == Billed(l + Writes(e), e.order, hash)
      + (if e.body.line in LineIds(l, e.order) then CellOf(l, e.order, hash)(e.body.line) else 0)
  {
    hide CellPaisa, LineIds, Values, SumBy, Writes;
    RemovalTakesItsId(l, e);
    forall line
      ensures CellOf(l + Writes(e), e.order, hash)(line) == CellOf(l, e.order, hash)(line)
    {
      RemovalKeepsCells(l, e, line);
    }
    var ids, line := LineIds(l, e.order), e.body.line;
    SumByRestricted(ids - {line}, ids - {line}, CellOf(l + Writes(e), e.order, hash), CellOf(l, e.order, hash));
    if line in ids {
      SumByRemove(ids, CellOf(l, e.order, hash), line);
    } else {
      assert ids - {line} == ids;
    }
  }

  /** On any log, once a removal has reached a device, no later delivery there, the addition included, brings the line back. */
  lemma RemovalIsForGood(a: seq<Event>, b: seq<Event>, order: Name, line: Name)
    requires EventsIn(a) <= EventsIn(b)
    requires RemovedAt(order, line) in Deliver(a).lattice
    ensures line !in LineIds(Deliver(b).lattice, order)
  {
    hide Deliver;
    PlacesNeverLeave(a, b);
  }

  /**
   * On any log, devices that hold the same events agree on the lines, their values, the places an assignment
   * has superseded and the toggles of every item: everything kept under its own value.
   */
  lemma ValuesConverge(a: seq<Event>, b: seq<Event>, order: Name, line: Name, item: Name)
    requires EventsIn(a) == EventsIn(b)
    ensures var l, m := Deliver(a).lattice, Deliver(b).lattice;
      && LineIds(l, order) == LineIds(m, order) && Values(l, order, line) == Values(m, order, line)
      && Tombstones(l, order) == Tombstones(m, order) && Lines.TogglesOf(l, item) == Lines.TogglesOf(m, item)
  {
    hide Deliver;
    PlacesNeverLeave(a, b);
    PlacesNeverLeave(b, a);
  }

  // ----- settlement ----------------------------------------------------------------------------------------------

  type Closes = map<Name, Close>

  predicate Attests(closes: Closes, id: Name) {
    id in closes && closes[id].effective.Attested?
  }

  /** Some close attests a sum, and the bill is above every sum attested. */
  ghost predicate Uncovered(closes: Closes, billed: nat) {
    (exists id :: Attests(closes, id)) && forall id :: Attests(closes, id) ==> closes[id].effective.amount < billed
  }

  predicate BadSnapshot(c: Close) {
    c.billed.Unusable? || c.effective.Unusable?
  }

  /** The act settles whatever it attests; the closes may be visited in any order. */
  method Settlement(closes: Closes, billed: nat) returns (settled: bool, uncovered: bool, invalid: bool)
    ensures settled <==> closes != map[]
    ensures uncovered <==> Uncovered(closes, billed)
    ensures invalid <==> exists id :: id in closes && BadSnapshot(closes[id])
  {
    var ceiling: Option<nat> := None;
    invalid := false;
    var todo := closes.Keys;
    while todo != {}
      invariant todo <= closes.Keys
      invariant invalid <==> exists id :: id in closes && id !in todo && BadSnapshot(closes[id])
      invariant ceiling.None? ==> forall id :: Attests(closes, id) ==> id in todo
      invariant ceiling.Some? ==> exists id :: Attests(closes, id) && id !in todo && closes[id].effective.amount == ceiling.value
      invariant ceiling.Some? ==> forall id :: Attests(closes, id) && id !in todo ==> closes[id].effective.amount <= ceiling.value
      decreases |todo|
    {
      var id :| id in todo;
      var close := closes[id];
      if close.billed.Unusable? {
        invalid := true;
      }
      match close.effective {
        case Unattested =>
        case Unusable =>
          invalid := true;
        case Attested(amount) =>
          assert Attests(closes, id);
          if ceiling.None? || amount > ceiling.value {
            ceiling := Some(amount);
          }
      }
      todo := todo - {id};
    }
    settled := closes != map[];
    uncovered := ceiling.Some? && billed > ceiling.value;
  }

  /** An agreed line is worth its quantity at its price, or nothing once it is voided or cancelled alone. */
  lemma AgreedLineWorth(v: LineValue, terminal: set<LineState>, hash: LineValue -> T.Text)
    ensures CellPaisa({v}, terminal, hash) == if terminal == {Voided} || terminal == {Cancelled} then 0 else v.qty * v.price
  {
    assert IsLeast({v}, hash, v);
    CellIs({v}, terminal, hash, v);
  }

  /** Against one close: only a sum it attests can be exceeded, and only by more than it. */
  lemma OneCloseCovers(id: Name, close: Close, billed: nat)
    ensures Uncovered(map[id := close], billed) <==> close.effective.Attested? && billed > close.effective.amount
  {
    var closes := map[id := close];
    if close.effective.Attested? {
      assert Attests(closes, id);
    }
  }

  /** Of two values the register takes the one whose hash comes first. */
  lemma LeastOfTwo<V>(v: V, w: V, hash: V -> T.Text)
    requires v != w
    ensures IsLeast({v, w}, hash, v) <==> T.Less(hash(v), hash(w))
  {
  }

  /** Of two confirms the verified one is the anchor, and of two alike the earlier one. */
  lemma AnchorOfTwo(a: Name, b: Name, c: Confirm, d: Confirm)
    requires a != b
    ensures IsAnchor(map[a := c, b := d],
      if c.verified != d.verified then (if c.verified then c.stamp else d.stamp) else if c.stamp <= d.stamp then c.stamp else d.stamp)
  {
    var confirms := map[a := c, b := d];
    assert confirms[a] == c && confirms[b] == d;
    assert AnyVerified(confirms) <==> c.verified || d.verified;
  }

  /** A snapshot is good exactly when each of its two sums is left out or is an amount. */
  lemma GoodSnapshot(billed: Snapshot, effective: Snapshot, rest: Name)
    ensures !BadSnapshot(Close(billed, effective, rest)) <==>
      (billed.Unattested? || billed.Attested?) && (effective.Unattested? || effective.Attested?)
  {
  }
}
