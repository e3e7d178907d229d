/**
 * One line's workflow and one item's availability, as `packages/sync-client/src/folds/merge.ts` projects
 * them from the edges and toggles delivered so far.
 */
module MergeLines {
  import opened MergeLattice

  // ----- the states ------------------------------------------------------------------------------------

  const ORDER_LINE_STATES: seq<LineState> :=
    [Placed, Confirmed, InPrep, Ready, Served, PickedUp, Delivered, Voided, Cancelled]

  predicate Terminal(s: LineState) {
    s.Served? || s.Delivered? || s.Voided? || s.Cancelled?
  }

  predicate Exit(s: LineState) {
    s.Voided? || s.Cancelled?
  }

  /** `applyLineState(...).applied`: a terminal never moves. */
  predicate LegalNext(from: LineState, to: LineState) {
    match from
    case Placed => to.Confirmed? || Exit(to)
    case Confirmed => to.InPrep? || Exit(to)
    case InPrep => to.Ready? || to.Served? || Exit(to)
    case Ready => to.Served? || to.PickedUp? || Exit(to)
    case PickedUp => to.Delivered? || Exit(to)
    case _ => false
  }

  /** The place on the chain of states that are not terminal. */
  function Step(s: LineState): nat {
    match s
    case Confirmed => 1
    case InPrep => 2
    case Ready => 3
    case PickedUp => 4
    case _ => 0
  }

  const NON_TERMINAL: seq<LineState> := [Placed, Confirmed, InPrep, Ready, PickedUp]

  /** The edges one line was delivered, by event id. */
  type Edges = map<Name, Edge>

  function EdgesOf(l: Lattice, order: Name, line: Name): Edges {
    map s | s in l && s.EdgeAt? && s.order == order && s.line == line && l[s].EdgeOf? :: s.id := l[s].edge
  }

  /** A choice among states already emitted, rather than a transition. */
  predicate Adoption(e: Edge) {
    |e.from| > 1 && e.to in e.from
  }

  /** Legality reads one edge's own payload and nothing else. */
  predicate Legal(e: Edge) {
    Adoption(e) || forall f :: f in e.from ==> LegalNext(f, e.to)
  }

  function LegalIds(edges: Edges): set<Name> {
    set id | id in edges && Legal(edges[id])
  }

  /** `id` retires `p`: it names it, and only an adoption retires a terminal. */
  predicate Retires(edges: Edges, id: Name, p: Name) {
    && id in LegalIds(edges) && p in edges[id].preds
    && !(p in LegalIds(edges) && Terminal(edges[p].to) && !Adoption(edges[id]))
  }

  function Heads(edges: Edges): set<Name> {
    set h | h in LegalIds(edges) && !exists id :: id in LegalIds(edges) && Retires(edges, id, h)
  }

  function TerminalValues(edges: Edges): set<LineState> {
    set h | h in Heads(edges) && Terminal(edges[h].to) :: edges[h].to
  }

  // ----- projectLine -----------------------------------------------------------------------------------

  datatype Anomaly = IllegalTransition | InconsistentPredecessor | TerminalRegression

  datatype LineProjection = LineProjection(states: seq<LineState>, anomalies: map<Name, Anomaly>, cookingDone: bool)

  function Filtered(states: seq<LineState>, keep: set<LineState>): seq<LineState> {
    if states == [] then []
    else if states[0] in keep then [states[0]] + Filtered(states[1..], keep)
    else Filtered(states[1..], keep)
  }

  /** The highest step any legal edge reaches, heads or not. */
  ghost predicate IsWatermark(edges: Edges, wm: nat) {
    && (forall id :: id in LegalIds(edges) && !Terminal(edges[id].to) ==> Step(edges[id].to) <= wm)
    && (wm == 0 || exists id :: id in LegalIds(edges) && !Terminal(edges[id].to) && Step(edges[id].to) == wm)
  }

  predicate Inconsistent(edges: Edges, id: Name) {
    id in edges && exists p :: p in edges[id].preds && p in edges && edges[p].to !in edges[id].from
  }

  function Anomalies(edges: Edges): map<Name, Anomaly> {
    var terminal := TerminalValues(edges) != {};
    map id | id in edges && (!Legal(edges[id]) || Inconsistent(edges, id)
        || (terminal && id in Heads(edges) && !Terminal(edges[id].to)))
      :: if !Legal(edges[id]) then IllegalTransition
        else if Inconsistent(edges, id) then InconsistentPredecessor
        else TerminalRegression
  }

  // The loops below visit edges in any order.

  /** What the legal edges done so far retire. */
  ghost predicate RetiredBy(edges: Edges, done: set<Name>, retired: set<Name>) {
    forall p :: p in retired <==> exists id :: id in done && Retires(edges, id, p)
  }

  /** Each legal edge retires the edges it names, unless it is no adoption and they are legal terminals. */
  method RetiredIds(edges: Edges, legal: set<Name>) returns (retired: set<Name>)
    requires legal == LegalIds(edges)
    ensures RetiredBy(edges, legal, retired)
  {
    retired := {};
    var todo := legal;
    while todo != {}
      invariant todo <= legal && RetiredBy(edges, legal - todo, retired)
      decreases |todo|
    {
      hide RetiredBy;
      var id :| id in todo;
      LegalAreEdges(edges);
      var more := RetiredByOne(edges, legal, id);
      OneMoreRetires(edges, legal - todo, id, retired, more);
      assert legal - todo + {id} == legal - (todo - {id});
      retired := retired + more;
      todo := todo - {id};
    }
    assert legal - todo == legal;
  }

  method RetiredByOne(edges: Edges, legal: set<Name>, id: Name) returns (more: set<Name>)
    requires legal == LegalIds(edges) && id in legal
    ensures forall p :: p in more <==> Retires(edges, id, p)
  {
    hide Legal;
    more := {};
    var preds := edges[id].preds;
    for k := 0 to |preds|
      invariant forall p :: p in more <==> p in preds[..k] && Retires(edges, id, p)
    {
      assert preds[..k + 1] == preds[..k] + [preds[k]];
      if !(preds[k] in legal && Terminal(edges[preds[k]].to) && !Adoption(edges[id])) {
        more := more + {preds[k]};
      }
    }
    assert preds[..|preds|] == preds;
  }

  lemma OneMoreRetires(edges: Edges, done: set<Name>, id: Name, retired: set<Name>, more: set<Name>)
    requires RetiredBy(edges, done, retired) && forall p :: p in more <==> Retires(edges, id, p)
    ensures RetiredBy(edges, done + {id}, retired + more)
  {
    hide Retires;
    assert id in done + {id};
  }

  lemma HeadsFromRetired(edges: Edges, retired: set<Name>)
    requires RetiredBy(edges, LegalIds(edges), retired)
    ensures Heads(edges) == LegalIds(edges) - retired
  {
    hide Legal;
  }

  method Watermark(edges: Edges, legal: set<Name>) returns (wm: nat)
    requires legal == LegalIds(edges)
    ensures wm < 5 && IsWatermark(edges, wm)
  {
    hide Legal, LegalIds;
    LegalAreEdges(edges);
    wm := 0;
    var todo := legal;
    while todo != {}
      invariant todo <= legal && wm < 5
      invariant forall id :: id in legal - todo && !Terminal(edges[id].to) ==> Step(edges[id].to) <= wm
      invariant wm == 0 || exists id :: id in legal && !Terminal(edges[id].to) && Step(edges[id].to) == wm
      decreases |todo|
    {
      var id :| id in todo;
      if !Terminal(edges[id].to) && Step(edges[id].to) > wm {
        wm := Step(edges[id].to);
      }
      todo := todo - {id};
    }
  }

  // ----- the badges ------------------------------------------------------------------------------------

  predicate Regressed(edges: Edges, id: Name) {
    TerminalValues(edges) != {} && id in Heads(edges) && !Terminal(edges[id].to)
  }

  /** The illegal edges are badged first. */
  method BadgeIllegal(edges: Edges) returns (badges: map<Name, Anomaly>)
    ensures forall id :: id in badges <==> id in edges && !Legal(edges[id])
    ensures forall id :: id in badges ==> badges[id] == IllegalTransition
  {
    hide Legal;
    badges := map[];
    var todo := edges.Keys;
    while todo != {}
      invariant todo <= edges.Keys
      invariant forall id :: id in badges <==> id in edges && id !in todo && !Legal(edges[id])
      invariant forall id :: id in badges ==> badges[id] == IllegalTransition
      decreases |todo|
    {
      var id :| id in todo;
      if !Legal(edges[id]) {
        badges := badges[id := IllegalTransition];
      }
      todo := todo - {id};
    }
  }

  /** Some edge it names is here and leaves a state it does not come from; the search stops at the first. */
  method NamesStranger(edges: Edges, id: Name) returns (stranger: bool)
    requires id in edges
    ensures stranger <==> Inconsistent(edges, id)
  {
    stranger := false;
    var preds := edges[id].preds;
    for k := 0 to |preds|
      invariant forall p :: p in preds[..k] && p in edges ==> edges[p].to in edges[id].from
    {
      assert preds[..k + 1] == preds[..k] + [preds[k]];
      if preds[k] in edges && edges[preds[k]].to !in edges[id].from {
        return true;
      }
    }
    assert preds[..|preds|] == preds;
  }

  method BadgeInconsistent(edges: Edges, legal: set<Name>, was: map<Name, Anomaly>) returns (badges: map<Name, Anomaly>)
    requires legal <= edges.Keys && forall id :: id in was ==> id !in legal
    ensures forall id :: id in badges <==> id in was || (id in legal && Inconsistent(edges, id))
    ensures forall id :: id in badges ==> badges[id] == if id in was then was[id] else InconsistentPredecessor
  {
    hide Inconsistent;
    badges := was;
    var todo := legal;
    while todo != {}
      invariant todo <= legal
      invariant forall id :: id in badges <==> id in was || (id in legal - todo && Inconsistent(edges, id))
      invariant forall id :: id in badges ==> badges[id] == if id in was then was[id] else InconsistentPredecessor
      decreases |todo|
    {
      var id :| id in todo;
      var stranger := NamesStranger(edges, id);
      if stranger {
        badges := badges[id := InconsistentPredecessor];
      }
      todo := todo - {id};
    }
  }

  /** Beside a terminal head, a head that is not one is badged unless it is already. */
  method BadgeRegressed(edges: Edges, heads: set<Name>, was: map<Name, Anomaly>) returns (badges: map<Name, Anomaly>)
    requires heads == Heads(edges) && heads <= edges.Keys
    ensures forall id :: id in badges <==> id in was || Regressed(edges, id)
    ensures forall id :: id in badges ==> badges[id] == if id in was then was[id] else TerminalRegression
  {
    hide Heads;
    badges := was;
    if TerminalValues(edges) == {} {
      return;
    }
    var todo := heads;
    while todo != {}
      invariant todo <= heads
      invariant forall id :: id in badges <==> id in was || (id !in todo && Regressed(edges, id))
      invariant forall id :: id in badges ==> badges[id] == if id in was then was[id] else TerminalRegression
      decreases |todo|
    {
      var id :| id in todo;
      if !Terminal(edges[id].to) && id !in badges {
        badges := badges[id := TerminalRegression];
      }
      todo := todo - {id};
    }
  }

  lemma BadgesAre(edges: Edges, illegal: map<Name, Anomaly>, strange: map<Name, Anomaly>, badges: map<Name, Anomaly>)
    requires forall id :: id in illegal <==> id in edges && !Legal(edges[id])
    requires forall id :: id in illegal ==> illegal[id] == IllegalTransition
    requires forall id :: id in strange <==> id in illegal || (id in LegalIds(edges) && Inconsistent(edges, id))
    requires forall id :: id in strange ==> strange[id] == if id in illegal then illegal[id] else InconsistentPredecessor
    requires forall id :: id in badges <==> id in strange || Regressed(edges, id)
    requires forall id :: id in badges ==> badges[id] == if id in strange then strange[id] else TerminalRegression
    ensures badges == Anomalies(edges)
  {
    HeadsAreLegal(edges);
    hide Legal, Inconsistent, Heads, TerminalValues;
    var want := Anomalies(edges);
    assert forall id :: id in LegalIds(edges) <==> id in edges && Legal(edges[id]);
    assert forall id :: id in badges <==> id in want;
    assert badges.Keys == want.Keys;
  }

  lemma HeadsAreLegal(edges: Edges)
    ensures Heads(edges) <= LegalIds(edges)
  {
  }

  /** The edges may be visited in any order: the projection is the one their set determines. */
  method ProjectLine(edges: Edges) returns (r: LineProjection)
    ensures TerminalValues(edges) != {} ==> r.states == Filtered(ORDER_LINE_STATES, TerminalValues(edges))
    ensures TerminalValues(edges) == {} ==> exists wm: nat :: wm < 5 && IsWatermark(edges, wm) && r.states == [NON_TERMINAL[wm]]
    ensures r.anomalies == Anomalies(edges)
    ensures r.cookingDone <==> CookingDone(edges)
    ensures DecidedExit(r.states) <==> Exited(TerminalValues(edges))
  {
    hide Retires, Legal, RetiredBy, Anomalies, Heads, Filtered, Inconsistent, Regressed, IsWatermark;
    var legal := set id | id in edges && Legal(edges[id]);
    var retired := RetiredIds(edges, legal);
    HeadsFromRetired(edges, retired);
    var heads := legal - retired;
    var wm := Watermark(edges, legal);
    var terminal := set h | h in heads && Terminal(edges[h].to) :: edges[h].to;
    var illegal := BadgeIllegal(edges);
    var strange := BadgeInconsistent(edges, legal, illegal);
    var badges := BadgeRegressed(edges, heads, strange);
    BadgesAre(edges, illegal, strange, badges);
    WatermarkReady(edges, wm);
    var states := if terminal != {} then Filtered(ORDER_LINE_STATES, terminal) else [NON_TERMINAL[wm]];
    r := LineProjection(states, badges, terminal != {} || wm >= 3);
    ExitShows(terminal);
  }

  lemma WatermarkReady(edges: Edges, wm: nat)
    requires IsWatermark(edges, wm)
    ensures wm >= 3 <==> exists id :: id in LegalIds(edges) && Step(edges[id].to) >= 3
  {
    hide Legal;
  }

  /** Every dish of it has left the stove: a terminal shows, or some legal edge reached ready. */
  predicate CookingDone(edges: Edges) {
    TerminalValues(edges) != {} || exists id :: id in LegalIds(edges) && Step(edges[id].to) >= 3
  }

  /** A line that has left the order, undisputed. */
  predicate Exited(terminal: set<LineState>) {
    terminal == {Voided} || terminal == {Cancelled}
  }

  /** `lineExited`: one state shows, and it is an exit. */
  predicate DecidedExit(states: seq<LineState>) {
    |states| == 1 && Exit(states[0])
  }

  /** A state shows exactly when it is kept. */
  lemma {:induction false} FilteredHolds(states: seq<LineState>, keep: set<LineState>)
    ensures forall s :: s in Filtered(states, keep) <==> s in states && s in keep
  {
    if states != [] {
      FilteredHolds(states[1..], keep);
    }
  }

  lemma {:induction false} FilteredToOne(states: seq<LineState>, s: LineState)
    requires forall i, j :: 0 <= i < j < |states| ==> states[i] != states[j]
    ensures Filtered(states, {s}) == if s in states then [s] else []
  {
    if states != [] {
      FilteredToOne(states[1..], s);
    }
  }

  lemma ExitShows(terminal: set<LineState>)
    ensures DecidedExit(Filtered(ORDER_LINE_STATES, terminal)) <==> Exited(terminal)
  {
    hide Filtered;
    var shown := Filtered(ORDER_LINE_STATES, terminal);
    FilteredHolds(ORDER_LINE_STATES, terminal);
    FilteredToOne(ORDER_LINE_STATES, Voided);
    FilteredToOne(ORDER_LINE_STATES, Cancelled);
    forall s: LineState ensures s in ORDER_LINE_STATES {
      AllStates(s);
    }
    if DecidedExit(shown) {
      assert terminal == {shown[0]};
    }
  }

  lemma AllStates(s: LineState)
    ensures s in ORDER_LINE_STATES
  {
    var all := ORDER_LINE_STATES;
    assert all[0] == Placed && all[1] == Confirmed && all[2] == InPrep && all[3] == Ready && all[4] == Served;
    assert all[5] == PickedUp && all[6] == Delivered && all[7] == Voided && all[8] == Cancelled;
  }

  lemma LegalAreEdges(edges: Edges)
    ensures LegalIds(edges) <= edges.Keys
  {
  }

  // ----- what more edges can and cannot change -----------------------------------------------------------

  ghost predicate Extends(was: Edges, now: Edges) {
    forall id :: id in was ==> id in now && now[id] == was[id]
  }

  predicate BadgedIllegal(edges: Edges, id: Name) {
    id in Anomalies(edges) && Anomalies(edges)[id] == IllegalTransition
  }

  /** Progress is never lost, and a badge for an illegal edge is never recomputed away. */
  lemma WatermarkNeverFalls(was: Edges, now: Edges, low: nat, high: nat)
    requires Extends(was, now) && IsWatermark(was, low) && IsWatermark(now, high)
    ensures low <= high
    ensures forall id :: BadgedIllegal(was, id) ==> BadgedIllegal(now, id)
  {
  }

  /** Whatever edges arrive, none of them an adoption, every terminal value already showing still shows. */
  lemma OnlyAdoptionsTakeTerminals(was: Edges, now: Edges)
    requires Extends(was, now)
    requires forall id :: id in now && id !in was && Legal(now[id]) ==> !Adoption(now[id])
    ensures TerminalValues(was) <= TerminalValues(now)
  {
    forall h | h in Heads(was) && Terminal(was[h].to)
      ensures h in Heads(now)
    {
      forall id | id in LegalIds(now)
        ensures !Retires(now, id, h)
      {
        assert id in was && id in LegalIds(was) ==> !Retires(was, id, h);
      }
    }
  }

  lemma {:induction false} HighestRanked(ids: set<Name>, rank: Name -> nat) returns (top: Name)
    requires ids != {}
    ensures top in ids && forall id :: id in ids ==> rank(id) <= rank(top)
    decreases |ids|
  {
    top :| top in ids;
    if ids - {top} != {} {
      var other := HighestRanked(ids - {top}, rank);
      if rank(other) > rank(top) { top := other; }
    }
  }

  predicate ServedOrGone(edges: Edges, id: Name) {
    id in LegalIds(edges) && Terminal(edges[id].to)
  }

  /** No adoption names this edge. */
  predicate Unadopted(edges: Edges, id: Name) {
    forall a :: a in edges && Adoption(edges[a]) ==> id !in edges[a].preds
  }

  /** A line shows a terminal exactly when some legal edge took it to one and no adoption names that edge. */
  lemma TerminalShowsIff(edges: Edges)
    ensures TerminalValues(edges) != {} <==> exists id :: ServedOrGone(edges, id) && Unadopted(edges, id)
  {
    if id :| ServedOrGone(edges, id) && Unadopted(edges, id) {
      assert forall other :: other in LegalIds(edges) ==> !Retires(edges, other, id);
      assert id in Heads(edges);
      assert edges[id].to in TerminalValues(edges);
    }
    if v :| v in TerminalValues(edges) {
      var h :| h in Heads(edges) && Terminal(edges[h].to) && edges[h].to == v;
      forall a | a in edges && Adoption(edges[a]) ensures h !in edges[a].preds {
        assert a in LegalIds(edges) && !Retires(edges, a, h);
      }
      assert ServedOrGone(edges, h) && Unadopted(edges, h);
    }
  }

  /**
   * So where edges name only edges that came before them, and adoptions choose only terminals, one legal edge
   * to a terminal is enough: no delivery brings the line back.
   */
  lemma TerminalForGood(edges: Edges, rank: Name -> nat)
    requires forall id, p :: id in edges && p in edges && p in edges[id].preds ==> rank(p) < rank(id)
    requires forall id :: id in edges && Adoption(edges[id]) ==> Terminal(edges[id].to)
    ensures TerminalValues(edges) != {} <==> exists id :: ServedOrGone(edges, id)
  {
    TerminalShowsIff(edges);
    var done := set id | id in edges && ServedOrGone(edges, id);
    if id :| ServedOrGone(edges, id) {
      assert id in done;
      var top := HighestRanked(done, rank);
      assert forall a :: a in edges && Adoption(edges[a]) ==> a in done;
      assert ServedOrGone(edges, top) && Unadopted(edges, top);
    }
  }

  /** An adoption need not choose a terminal: a served line goes back to ready. */
  lemma AdoptionBackToReady(a: Name, b: Name)
    requires a != b
    ensures var edges := map[a := Edge(Served, [Ready], []), b := Edge(Ready, [Ready, Served], [a])];
      ServedOrGone(edges, a) && TerminalValues(edges) == {} && IsWatermark(edges, Step(Ready))
  {
    var edges := map[a := Edge(Served, [Ready], []), b := Edge(Ready, [Ready, Served], [a])];
    assert Adoption(edges[b]) && Retires(edges, b, a);
    assert b in LegalIds(edges);
  }

  /** Two adoptions that name each other retire each other, and with them every terminal. */
  lemma AdoptionsCancel(a: Name, c: Name, d: Name)
    requires a != c && c != d && a != d
    ensures var edges := map[a := Edge(Served, [Ready], []),
        c := Edge(Served, [Served, Voided], [a, d]), d := Edge(Voided, [Served, Voided], [a, c])];
      ServedOrGone(edges, a) && TerminalValues(edges) == {}
  {
    var edges := map[a := Edge(Served, [Ready], []),
      c := Edge(Served, [Served, Voided], [a, d]), d := Edge(Voided, [Served, Voided], [a, c])];
    assert Adoption(edges[c]) && Adoption(edges[d]);
    assert Retires(edges, c, a) && Retires(edges, c, d) && Retires(edges, d, c);
  }

  // ----- availability -------------------------------------------------------------------------------------

  type Toggles = set<(Name, Toggle)>

  function TogglesOf(l: Lattice, item: Name): Toggles {
    set s | s in l && s.ToggleAt? && s.item == item :: (s.id, s.toggle)
  }

  /** Some other event replaces it; an event never replaces itself. */
  predicate Superseded(ts: Toggles, id: Name) {
    exists t :: t in ts && id in t.1.supersedes && id != t.0
  }

  function Live(ts: Toggles): Toggles {
    set t | t in ts && !Superseded(ts, t.0)
  }

  datatype Availability = Availability(available: bool, contested: bool, heads: set<Name>)

  function HeadIds(ts: Toggles): set<Name> {
    set t | t in Live(ts) :: t.0
  }

  /** Some head says `v`. */
  predicate Says(live: Toggles, v: bool) {
    exists t :: t in live && t.1.available == v
  }

  predicate Sellable(ts: Toggles) {
    ts == {} || (Says(Live(ts), true) && !Says(Live(ts), false))
  }

  /** Heads that disagree, or none left at all. */
  predicate Contested(ts: Toggles) {
    ts != {} && (Says(Live(ts), true) <==> Says(Live(ts), false))
  }

  /** The values the heads state, visited in any order. */
  method DistinctValues(live: Toggles) returns (values: set<bool>)
    ensures forall v :: v in values <==> Says(live, v)
  {
    values := {};
    var todo := live;
    while todo != {}
      invariant todo <= live
      invariant forall v :: v in values <==> exists t :: t in live && t !in todo && t.1.available == v
      decreases |todo|
    {
      var t :| t in todo;
      values := values + {t.1.available};
      todo := todo - {t};
    }
  }

  /** Contested or unresolvable heads read as unavailable. */
  method ProjectItem(ts: Toggles) returns (r: Availability)
    ensures r.heads == HeadIds(ts)
    ensures r.available <==> Sellable(ts)
    ensures r.contested <==> Contested(ts)
  {
    hide Superseded, HeadIds, Live;
    EmptyTogglesEmptyLive(ts);
    var heads := HeadIds(ts);
    if ts == {} {
      return Availability(true, false, heads);
    }
    var values := DistinctValues(Live(ts));
    if heads == {} {
      r := Availability(false, true, heads);
    } else if true in values && false in values {
      r := Availability(false, true, heads);
    } else {
      ghost var t :| t in Live(ts);
      assert Says(Live(ts), t.1.available);
      r := Availability(true in values, false, heads);
    }
  }

  lemma EmptyTogglesEmptyLive(ts: Toggles)
    ensures HeadIds(ts) == {} <==> Live(ts) == {}
    ensures ts == {} ==> Live(ts) == {}
  {
    hide Superseded;
    if Live(ts) != {} {
      var t :| t in Live(ts);
      assert t.0 in HeadIds(ts);
    }
  }

  /** An event id no toggle has used or named. */
  predicate Unseen(ts: Toggles, id: Name) {
    forall t :: t in ts ==> t.0 != id && id !in t.1.supersedes
  }

  /**
   * One more toggle: the item is sellable exactly when the new toggle says so and every head it did not
   * replace said so already. Naming all the heads therefore settles any contest in one act, and naming
   * only some leaves the others standing.
   */
  lemma OneActSettles(ts: Toggles, id: Name, t: Toggle)
    requires Unseen(ts, id)
    ensures Sellable(ts + {(id, t)}) <==> t.available && !Says(set u | u in Live(ts) && u.0 !in t.supersedes, false)
    ensures (forall h :: h in HeadIds(ts) ==> h in t.supersedes) ==> Live(ts + {(id, t)}) == {(id, t)}
  {
    var after := ts + {(id, t)};
    assert (id, t) in after;
    forall u | u in ts
      ensures Superseded(after, u.0) <==> Superseded(ts, u.0) || u.0 in t.supersedes
    {
      if u.0 in t.supersedes { assert u.0 != id; }
    }
    assert !Superseded(after, id);
    assert Live(after) == (set u | u in Live(ts) && u.0 !in t.supersedes) + {(id, t)};
    assert forall u :: u in Live(ts) ==> u.0 in HeadIds(ts);
  }

  /**
   * An item nobody toggled is on sale and uncontested; one toggle decides alone; two that disagree are a
   * contest; and two that each replace the other leave no head, a contest that keeps the item off sale.
   */
  lemma FewToggles(id: Name, t: Toggle, other: Name, u: Toggle)
    requires id != other
    ensures Sellable({}) && !Contested({})
    ensures Sellable({(id, t)}) == t.available && !Contested({(id, t)})
    ensures
      (other !in t.supersedes && id !in u.supersedes && t.available != u.available
       ==> !Sellable({(id, t), (other, u)}) && Contested({(id, t), (other, u)}))
    ensures
      (other in t.supersedes && id in u.supersedes
       ==> !Sellable({(id, t), (other, u)}) && Contested({(id, t), (other, u)}))
  {
    var two := {(id, t), (other, u)};
    assert (id, t) in two && (other, u) in two;
    assert Live({}) == {};
    assert Live({(id, t)}) == {(id, t)};
    if other in t.supersedes && id in u.supersedes {
      assert Superseded(two, id) && Superseded(two, other);
      assert Live(two) == {};
    } else if other !in t.supersedes && id !in u.supersedes {
      assert Live(two) == two;
      assert Says(two, t.available) && Says(two, u.available);
    }
  }

  // ----- the states and their order --------------------------------------------------------------------------

  /** The chain of states that are not terminal: each stands at its own step. */
  lemma ChainSteps(s: LineState)
    ensures Terminal(s) <==> s == Served || s == Delivered || s == Voided || s == Cancelled
    ensures !Terminal(s) ==> Step(s) < |NON_TERMINAL| && NON_TERMINAL[Step(s)] == s
    ensures |NON_TERMINAL| == 5 && Step(Placed) < Step(Confirmed) < Step(InPrep) < Step(Ready) < Step(PickedUp)
  {
  }

  /**
   * A line moves one step along the chain; from preparation or ready it may be served, from picked up it may be
   * delivered; until then it may be voided or cancelled; and nothing leaves a terminal.
   */
  lemma LegalMoves(f: LineState, t: LineState)
    ensures LegalNext(f, t) <==>
      (!Terminal(f)
       && (Exit(t)
           || (t == Served && (f == InPrep || f == Ready))
           || (t == Delivered && f == PickedUp)
           || (!Terminal(t) && Step(t) == Step(f) + 1)))
  {
  }

  /** Contested terminals show in the order of the vocabulary. */
  lemma TerminalsInOrder(terminal: set<LineState>)
    requires forall s :: s in terminal ==> Terminal(s)
    ensures Filtered(ORDER_LINE_STATES, terminal) ==
      (if Served in terminal then [Served] else []) + (if Delivered in terminal then [Delivered] else [])
      + (if Voided in terminal then [Voided] else []) + (if Cancelled in terminal then [Cancelled] else [])
  {
    hide Filtered;
    FilteredNext(Placed, [Confirmed, InPrep, Ready, Served, PickedUp, Delivered, Voided, Cancelled], terminal);
    FilteredNext(Confirmed, [InPrep, Ready, Served, PickedUp, Delivered, Voided, Cancelled], terminal);
    FilteredNext(InPrep, [Ready, Served, PickedUp, Delivered, Voided, Cancelled], terminal);
    FilteredNext(Ready, [Served, PickedUp, Delivered, Voided, Cancelled], terminal);
    FilteredNext(Served, [PickedUp, Delivered, Voided, Cancelled], terminal);
    FilteredNext(PickedUp, [Delivered, Voided, Cancelled], terminal);
    FilteredNext(Delivered, [Voided, Cancelled], terminal);
    FilteredNext(Voided, [Cancelled], terminal);
    FilteredNext(Cancelled, [], terminal);
    VocabularyPlain();
  }

  /** The vocabulary, one state before the rest of it. */
  lemma VocabularyPlain()
    ensures ORDER_LINE_STATES == [Placed] + [Confirmed, InPrep, Ready, Served, PickedUp, Delivered, Voided, Cancelled]
    ensures [Confirmed, InPrep, Ready, Served, PickedUp, Delivered, Voided, Cancelled]
      == [Confirmed] + [InPrep, Ready, Served, PickedUp, Delivered, Voided, Cancelled]
    ensures [InPrep, Ready, Served, PickedUp, Delivered, Voided, Cancelled]
      == [InPrep] + [Ready, Served, PickedUp, Delivered, Voided, Cancelled]
    ensures [Ready, Served, PickedUp, Delivered, Voided, Cancelled] == [Ready] + [Served, PickedUp, Delivered, Voided, Cancelled]
    ensures [Served, PickedUp, Delivered, Voided, Cancelled] == [Served] + [PickedUp, Delivered, Voided, Cancelled]
    ensures [PickedUp, Delivered, Voided, Cancelled] == [PickedUp] + [Delivered, Voided, Cancelled]
    ensures [Delivered, Voided, Cancelled] == [Delivered] + [Voided, Cancelled]
    ensures [Voided, Cancelled] == [Voided] + [Cancelled] && [Cancelled] == [Cancelled] + []
  {
  }

  lemma FilteredNext(first: LineState, rest: seq<LineState>, keep: set<LineState>)
    ensures Filtered([first] + rest, keep) == (if first in keep then [first] else []) + Filtered(rest, keep)
    ensures Filtered([], keep) == []
  {
    assert ([first] + rest)[1..] == rest;
  }

  /** Choosing one of two states or more is an adoption; coming from one alone never is. */
  lemma AdoptionExact(s: LineState, t: LineState, others: seq<LineState>, preds: seq<Name>)
    ensures Adoption(Edge(s, [s, t] + others, preds)) && Adoption(Edge(t, [s, t] + others, preds))
    ensures !Adoption(Edge(s, [t], preds)) && !Adoption(Edge(s, [], preds))
    ensures s !in others && s != t ==> !Adoption(Edge(s, [t] + others, preds))
  {
    assert ([s, t] + others)[0] == s && ([s, t] + others)[1] == t;
  }

  /** One edge alone: an illegal one is badged and nothing more; a legal one shows its state, and is cooked from ready on. */
  lemma OneEdge(id: Name, to: LineState, from: LineState, preds: seq<Name>)
    requires id !in preds
    ensures var edges := map[id := Edge(to, [from], preds)];
      && Heads(edges) == (if LegalNext(from, to) then {id} else {})
      && Anomalies(edges) == (if LegalNext(from, to) then map[] else map[id := IllegalTransition])
      && TerminalValues(edges) == (if LegalNext(from, to) && Terminal(to) then {to} else {})
      && (CookingDone(edges) <==> LegalNext(from, to) && to in {Ready, PickedUp, Served, Delivered, Voided, Cancelled})
  {
    var edges := map[id := Edge(to, [from], preds)];
    assert Legal(edges[id]) <==> LegalNext(from, to);
    assert forall other :: other in LegalIds(edges) ==> other == id;
    assert LegalIds(edges) == if LegalNext(from, to) then {id} else {};
    assert Heads(edges) == LegalIds(edges);
    assert LegalNext(from, to) && Terminal(to) ==> edges[id].to in TerminalValues(edges);
    assert !Inconsistent(edges, id);
  }

  /** A legal edge that names one here in a state it does not come from is badged for that. */
  lemma StrangerBadged(a: Name, b: Name)
    requires a != b
    ensures var edges := map[a := Edge(Confirmed, [Placed], []), b := Edge(Ready, [InPrep], [a])];
      Anomalies(edges) == map[b := InconsistentPredecessor] && Heads(edges) == {b}
  {
    var edges := map[a := Edge(Confirmed, [Placed], []), b := Edge(Ready, [InPrep], [a])];
    assert LegalIds(edges) == {a, b};
    assert Retires(edges, b, a) && Inconsistent(edges, b) && !Inconsistent(edges, a);
    assert forall id :: id in edges ==> !Retires(edges, id, b);
    assert Heads(edges) == {b};
    assert TerminalValues(edges) == {};
  }

  /** Beside a served head, a head still cooking is kept and badged. */
  lemma RegressionBadged(a: Name, b: Name)
    requires a != b
    ensures var edges := map[a := Edge(Served, [Ready], []), b := Edge(Confirmed, [Placed], [])];
      Anomalies(edges) == map[b := TerminalRegression] && Heads(edges) == {a, b} && TerminalValues(edges) == {Served}
  {
    var edges := map[a := Edge(Served, [Ready], []), b := Edge(Confirmed, [Placed], [])];
    assert LegalIds(edges) == {a, b};
    assert forall id, p :: !Retires(edges, id, p);
    assert Heads(edges) == {a, b};
    assert edges[a].to in TerminalValues(edges);
    assert TerminalValues(edges) == {Served};
  }
}
