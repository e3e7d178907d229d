/**
 * `packages/domain/src/permissions.ts`: the role matrix and its readers. A person holds a list of
 * role assignments; what she may do depends on the set of roles it yields at a location.
 */
module Permissions {
  import opened Wrappers

  /** People, organisations and branches are compared and nothing else. */
  type Id(==, !new)

  datatype Role = Cashier | BranchManager | Storekeeper | Owner

  const ROLES: seq<Role> := [Cashier, BranchManager, Storekeeper, Owner]

  /** `Inactive` is every status but "active". */
  datatype Status = Active | Inactive

  /** `branch == None` is an organisation-wide assignment. */
  datatype Assignment = Assignment(role: Role, branch: Option<Id>, status: Status)

  datatype Subject = Subject(userId: Id, orgId: Id, assignments: seq<Assignment>)

  datatype Scope = Scope(orgId: Id, branch: Option<Id>, subjectUserId: Option<Id>, requestedBy: Option<Id>)

  datatype Outcome = Deny | Escalate | Allow

  datatype Action =
    | OrderCreate | PaymentSettle | DiscountWithin | DiscountAbove | VoidAfterKot | CompItem | PriceOverride
    | ReceiptReprint | DayOpenClose | ShiftOpenClose | CashCount | DrawerNoSale | PaidOut | RefundIssue
    | StockReceive | StockCountEntry | StockWastage | EditMenuPrices | EditRecipes | DeviceManage | UserManage
    | AvailabilityToggle | CustomerRecord | ExportRequest | HistoryEditDelete | ApprovalGrant
    | SalesView | StockView | ConfigManage
    | Unlisted

  datatype Decision = Decision(outcome: Outcome, action: Action, satisfiedBy: seq<Role>)

  // ----- the matrix -----------------------------------------------------------------------------

  function Row(cashier: Outcome, manager: Outcome, storekeeper: Outcome, owner: Outcome, role: Role): Outcome {
    match role
    case Cashier => cashier
    case BranchManager => manager
    case Storekeeper => storekeeper
    case Owner => owner
  }

  /** One cell; the two report views and an action outside the list have no row. */
  function Verdict(action: Action, role: Role): Outcome {
    match action
    case OrderCreate => Row(Allow, Allow, Deny, Allow, role)
    case AvailabilityToggle => Row(Allow, Allow, Deny, Allow, role)
    case CustomerRecord => Row(Allow, Allow, Deny, Allow, role)
    case PaymentSettle => Row(Allow, Allow, Deny, Allow, role)
    case DiscountWithin => Row(Allow, Allow, Deny, Allow, role)
    case DiscountAbove => Row(Escalate, Allow, Deny, Allow, role)
    case VoidAfterKot => Row(Escalate, Allow, Deny, Allow, role)
    case CompItem => Row(Escalate, Allow, Deny, Allow, role)
    case PriceOverride => Row(Escalate, Allow, Deny, Allow, role)
    case ReceiptReprint => Row(Allow, Allow, Deny, Allow, role)
    case DayOpenClose => Row(Deny, Allow, Deny, Allow, role)
    case ShiftOpenClose => Row(Allow, Allow, Deny, Allow, role)
    case CashCount => Row(Allow, Allow, Deny, Allow, role)
    case DrawerNoSale => Row(Allow, Allow, Allow, Allow, role)
    case PaidOut => Row(Allow, Allow, Allow, Allow, role)
    case RefundIssue => Row(Escalate, Allow, Deny, Allow, role)
    case StockReceive => Row(Deny, Allow, Allow, Allow, role)
    case StockCountEntry => Row(Deny, Allow, Allow, Allow, role)
    case StockWastage => Row(Allow, Allow, Allow, Allow, role)
    case EditMenuPrices => Row(Deny, Deny, Deny, Allow, role)
    case EditRecipes => Row(Deny, Deny, Deny, Allow, role)
    case DeviceManage => Row(Deny, Deny, Deny, Allow, role)
    case UserManage => Row(Deny, Deny, Deny, Allow, role)
    case ConfigManage => Row(Deny, Deny, Deny, Allow, role)
    case ExportRequest => Row(Deny, Deny, Deny, Allow, role)
    case HistoryEditDelete => Row(Deny, Deny, Deny, Deny, role)
    case ApprovalGrant => Row(Deny, Allow, Deny, Allow, role)
    case SalesView => Deny
    case StockView => Deny
    case Unlisted => Deny
  }

  function Rank(o: Outcome): nat {
    match o case Deny => 0 case Escalate => 1 case Allow => 2
  }

  function Max(a: Outcome, b: Outcome): Outcome {
    if Rank(b) > Rank(a) then b else a
  }

  datatype Reach = NoReach | OwnShift | OwnBranch | OrgWide

  function ReachRank(r: Reach): nat {
    match r case NoReach => 0 case OwnShift => 1 case OwnBranch => 2 case OrgWide => 3
  }

  function SalesReach(role: Role): Reach {
    match role case Cashier => OwnShift case BranchManager => OwnBranch case Storekeeper => NoReach case Owner => OrgWide
  }

  function StockReach(role: Role): Reach {
    match role case Cashier => NoReach case BranchManager => OwnBranch case Storekeeper => OwnBranch case Owner => OrgWide
  }

  // ----- readers --------------------------------------------------------------------------------

  predicate Counts(a: Assignment, branch: Option<Id>) {
    (a.branch == None || a.branch == branch) && a.status == Active
  }

  function RolesIn(assignments: seq<Assignment>, branch: Option<Id>): seq<Role> {
    if assignments == [] then []
    else
      var rest := RolesIn(assignments[..|assignments| - 1], branch);
      var a := assignments[|assignments| - 1];
      if Counts(a, branch) then rest + [a.role] else rest
  }

  function RolesAt(subject: Subject, branch: Option<Id>): seq<Role> {
    RolesIn(subject.assignments, branch)
  }

  /** The left-to-right reduce of the source, starting from the least outcome. */
  function BestOf(roles: seq<Role>, action: Action): Outcome {
    if roles == [] then Deny
    else Max(BestOf(roles[..|roles| - 1], action), Verdict(action, roles[|roles| - 1]))
  }

  function WidestOf(roles: seq<Role>, cell: Role -> Reach): Reach {
    if roles == [] then NoReach
    else
      var widest, reach := WidestOf(roles[..|roles| - 1], cell), cell(roles[|roles| - 1]);
      if ReachRank(reach) > ReachRank(widest) then reach else widest
  }

  function ReportScope(subject: Subject, scope: Scope): Reach {
    if subject.orgId != scope.orgId then NoReach else WidestOf(RolesAt(subject, scope.branch), SalesReach)
  }

  function StockReportScope(subject: Subject, scope: Scope): Reach {
    if subject.orgId != scope.orgId then NoReach else WidestOf(RolesAt(subject, scope.branch), StockReach)
  }

  function RolesAllowed(action: Action, roles: seq<Role>): (r: seq<Role>)
    ensures forall x :: x in r <==> x in roles && Verdict(action, x) == Allow
  {
    if roles == [] then []
    else if Verdict(action, roles[0]) == Allow then [roles[0]] + RolesAllowed(action, roles[1..])
    else RolesAllowed(action, roles[1..])
  }

  function Plainly(outcome: Outcome, action: Action): Decision {
    Decision(outcome, action, [])
  }

  function Can(subject: Subject, action: Action, scope: Scope): Decision {
    if action == Unlisted || subject.orgId != scope.orgId then Plainly(Deny, action)
    else if action == SalesView then
      var reach := ReportScope(subject, scope);
      var permitted := if reach == OwnShift then scope.subjectUserId == Some(subject.userId) else reach != NoReach;
      Plainly(if permitted then Allow else Deny, action)
    else if action == StockView then
      Plainly(if StockReportScope(subject, scope) == NoReach then Deny else Allow, action)
    else if action == ApprovalGrant && scope.requestedBy == Some(subject.userId) then Plainly(Deny, action)
    else if action == PaidOut then Plainly(Deny, action)
    else
      var outcome := BestOf(RolesAt(subject, scope.branch), action);
      if outcome != Escalate then Plainly(outcome, action)
      else Decision(outcome, action, RolesAllowed(action, ROLES))
  }

  function CanPayOut(subject: Subject, scope: Scope, amount: int, threshold: int): Decision {
    if subject.orgId != scope.orgId then Plainly(Deny, PaidOut)
    else
      var base := BestOf(RolesAt(subject, scope.branch), PaidOut);
      if base != Allow || amount <= threshold then Plainly(base, PaidOut)
      else Decision(Escalate, PaidOut, RolesAllowed(ApprovalGrant, ROLES))
  }

  /** `campaign == Some(within)`: a cited campaign, and whether the act is within its bounds. */
  function CanDiscount(subject: Subject, scope: Scope, amount: int, campaign: Option<bool>, total: int, bps: int): Decision {
    if campaign == Some(true) then Can(subject, DiscountWithin, scope)
    else if amount * 10000 <= bps * total then Can(subject, DiscountWithin, scope)
    else Can(subject, DiscountAbove, scope)
  }

  // ----- only the set of held roles matters -------------------------------------------------------

  /** The roles held through active assignments that reach the location. */
  predicate Holds(assignments: seq<Assignment>, branch: Option<Id>, role: Role) {
    exists a :: a in assignments && Counts(a, branch) && a.role == role
  }

  lemma {:induction false} RolesAreHeld(assignments: seq<Assignment>, branch: Option<Id>, role: Role)
    ensures role in RolesIn(assignments, branch) <==> Holds(assignments, branch, role)
  {
    if assignments != [] {
      var init, last := assignments[..|assignments| - 1], assignments[|assignments| - 1];
      RolesAreHeld(init, branch, role);
      assert assignments == init + [last];
      assert Holds(assignments, branch, role) <==> (Holds(init, branch, role) || (Counts(last, branch) && last.role == role));
    }
  }

  lemma {:induction false} BestIsGreatest(roles: seq<Role>, action: Action)
    ensures forall r :: r in roles ==> Rank(Verdict(action, r)) <= Rank(BestOf(roles, action))
    ensures BestOf(roles, action) == Deny || exists r :: r in roles && Verdict(action, r) == BestOf(roles, action)
  {
    hide Verdict;
    if roles != [] {
      var init, last := roles[..|roles| - 1], roles[|roles| - 1];
      BestIsGreatest(init, action);
      assert roles == init + [last];
      assert last in roles;
      assert forall r :: r in init ==> r in roles;
    }
  }

  lemma {:induction false} WidestIsGreatest(roles: seq<Role>, cell: Role -> Reach)
    ensures forall r :: r in roles ==> ReachRank(cell(r)) <= ReachRank(WidestOf(roles, cell))
    ensures WidestOf(roles, cell) == NoReach || exists r :: r in roles && cell(r) == WidestOf(roles, cell)
  {
    if roles != [] {
      var init, last := roles[..|roles| - 1], roles[|roles| - 1];
      WidestIsGreatest(init, cell);
      assert roles == init + [last];
      assert last in roles;
      if WidestOf(init, cell) != NoReach {
        var r :| r in init && cell(r) == WidestOf(init, cell);
        assert r in roles;
      }
    }
  }

  predicate SameRoles(a: seq<Role>, b: seq<Role>) {
    forall r :: r in a <==> r in b
  }

  lemma SameRolesSameBest(a: seq<Role>, b: seq<Role>, action: Action)
    requires SameRoles(a, b)
    ensures BestOf(a, action) == BestOf(b, action)
  {
    hide Verdict, BestOf;
    BestIsGreatest(a, action);
    BestIsGreatest(b, action);
  }

  lemma SameRolesSameReach(a: seq<Role>, b: seq<Role>, cell: Role -> Reach)
    requires SameRoles(a, b)
    ensures WidestOf(a, cell) == WidestOf(b, cell)
  {
    hide WidestOf;
    WidestIsGreatest(a, cell);
    WidestIsGreatest(b, cell);
  }

  /** Whoever the same person is by the same set of held roles, every answer is the same. */
  lemma OnlyHeldRolesMatter(s: Subject, t: Subject, scope: Scope)
    requires s.userId == t.userId && s.orgId == t.orgId
    requires forall r :: Holds(s.assignments, scope.branch, r) <==> Holds(t.assignments, scope.branch, r)
    ensures forall action :: Can(s, action, scope) == Can(t, action, scope)
    ensures forall amount, threshold :: CanPayOut(s, scope, amount, threshold) == CanPayOut(t, scope, amount, threshold)
    ensures forall amount, campaign, total, bps ::
      CanDiscount(s, scope, amount, campaign, total, bps) == CanDiscount(t, scope, amount, campaign, total, bps)
    ensures ReportScope(s, scope) == ReportScope(t, scope) && StockReportScope(s, scope) == StockReportScope(t, scope)
  {
    hide Verdict, BestOf, RolesAllowed, WidestOf, Holds, Can;
    var p, q := RolesAt(s, scope.branch), RolesAt(t, scope.branch);
    forall r ensures r in p <==> r in q {
      RolesAreHeld(s.assignments, scope.branch, r);
      RolesAreHeld(t.assignments, scope.branch, r);
    }
    SameRolesSameReach(p, q, SalesReach);
    SameRolesSameReach(p, q, StockReach);
    forall action ensures Can(s, action, scope) == Can(t, action, scope) {
      SameRolesCan(s, t, action, scope);
    }
    SameRolesSameBest(p, q, PaidOut);
  }

  lemma SameRolesCan(s: Subject, t: Subject, action: Action, scope: Scope)
    requires s.userId == t.userId && s.orgId == t.orgId
    requires SameRoles(RolesAt(s, scope.branch), RolesAt(t, scope.branch))
    ensures Can(s, action, scope) == Can(t, action, scope)
  {
    hide Verdict, BestOf, RolesAllowed, WidestOf;
    SameRolesSameReach(RolesAt(s, scope.branch), RolesAt(t, scope.branch), SalesReach);
    SameRolesSameReach(RolesAt(s, scope.branch), RolesAt(t, scope.branch), StockReach);
    SameRolesSameBest(RolesAt(s, scope.branch), RolesAt(t, scope.branch), action);
  }

  /** Reordering a person's assignments, repeating some, or adding ones that do not count changes no answer. */
  lemma ListShapeIrrelevant(s: Subject, assignments: seq<Assignment>, scope: Scope, action: Action)
    requires forall a :: Counts(a, scope.branch) ==> (a in assignments <==> a in s.assignments)
    ensures Can(s.(assignments := assignments), action, scope) == Can(s, action, scope)
  {
    hide Verdict, Can;
    forall r ensures Holds(s.assignments, scope.branch, r) <==> Holds(assignments, scope.branch, r) {
      if Holds(s.assignments, scope.branch, r) {
        var a :| a in s.assignments && Counts(a, scope.branch) && a.role == r;
        assert a in assignments;
      }
      if Holds(assignments, scope.branch, r) {
        var a :| a in assignments && Counts(a, scope.branch) && a.role == r;
        assert a in s.assignments;
      }
    }
    OnlyHeldRolesMatter(s, s.(assignments := assignments), scope);
  }

  // ----- wearing several hats ---------------------------------------------------------------------

  lemma {:induction false} RolesInConcat(a: seq<Assignment>, b: seq<Assignment>, branch: Option<Id>)
    ensures RolesIn(a + b, branch) == RolesIn(a, branch) + RolesIn(b, branch)
  {
    if b == [] {
      assert a + b == a;
    } else {
      RolesInConcat(a, b[..|b| - 1], branch);
      assert (a + b)[..|a + b| - 1] == a + b[..|b| - 1];
    }
  }

  lemma {:induction false} BestOfConcat(a: seq<Role>, b: seq<Role>, action: Action)
    ensures BestOf(a + b, action) == Max(BestOf(a, action), BestOf(b, action))
  {
    hide Verdict;
    if b == [] {
      assert a + b == a;
    } else {
      BestOfConcat(a, b[..|b| - 1], action);
      assert (a + b)[..|a + b| - 1] == a + b[..|b| - 1];
    }
  }

  lemma {:induction false} WidestConcat(a: seq<Role>, b: seq<Role>, cell: Role -> Reach)
    ensures var x, y := WidestOf(a, cell), WidestOf(b, cell);
      WidestOf(a + b, cell) == if ReachRank(y) > ReachRank(x) then y else x
  {
    if b == [] {
      assert a + b == a;
    } else {
      WidestConcat(a, b[..|b| - 1], cell);
      assert (a + b)[..|a + b| - 1] == a + b[..|b| - 1];
    }
  }

  /** The requests the matrix row answers by itself. */
  predicate DecidedByRow(userId: Id, orgId: Id, action: Action, scope: Scope) {
    && action != Unlisted && action != SalesView && action != StockView && action != PaidOut
    && orgId == scope.orgId && !(action == ApprovalGrant && scope.requestedBy == Some(userId))
  }

  lemma RowDecides(s: Subject, action: Action, scope: Scope)
    ensures !DecidedByRow(s.userId, s.orgId, action, scope) ==> Can(s, action, scope).outcome != Escalate
    ensures DecidedByRow(s.userId, s.orgId, action, scope) ==>
      Can(s, action, scope).outcome == BestOf(RolesIn(s.assignments, scope.branch), action)
    ensures Can(s, action, scope).outcome == Escalate ==> Can(s, action, scope).satisfiedBy == RolesAllowed(action, ROLES)
  {
    hide BestOf, RolesAllowed, RolesIn, WidestOf;
  }

  lemma UnionSees(s: Subject, a: seq<Assignment>, b: seq<Assignment>, action: Action, scope: Scope)
    requires !DecidedByRow(s.userId, s.orgId, action, scope)
    ensures Can(s.(assignments := a + b), action, scope).outcome
      == Max(Can(s.(assignments := a), action, scope).outcome, Can(s.(assignments := b), action, scope).outcome)
  {
    hide Verdict, BestOf, RolesAllowed, WidestOf, RolesIn;
    RolesInConcat(a, b, scope.branch);
    WidestConcat(RolesIn(a, scope.branch), RolesIn(b, scope.branch), SalesReach);
    WidestConcat(RolesIn(a, scope.branch), RolesIn(b, scope.branch), StockReach);
  }

  /** Two sets of assignments together decide as the wider of the two would alone. */
  lemma UnionDecidesAsWider(s: Subject, a: seq<Assignment>, b: seq<Assignment>, action: Action, scope: Scope)
    ensures Can(s.(assignments := a + b), action, scope).outcome
      == Max(Can(s.(assignments := a), action, scope).outcome, Can(s.(assignments := b), action, scope).outcome)
  {
    hide Verdict, BestOf, RolesIn, Can, DecidedByRow;
    if DecidedByRow(s.userId, s.orgId, action, scope) {
      RowDecides(s.(assignments := a + b), action, scope);
      RowDecides(s.(assignments := a), action, scope);
      RowDecides(s.(assignments := b), action, scope);
      RolesInConcat(a, b, scope.branch);
      BestOfConcat(RolesIn(a, scope.branch), RolesIn(b, scope.branch), action);
    } else {
      UnionSees(s, a, b, action, scope);
    }
  }

  lemma UnionPaysOutAsWider(s: Subject, a: seq<Assignment>, b: seq<Assignment>, scope: Scope, amount: int, threshold: int)
    ensures CanPayOut(s.(assignments := a + b), scope, amount, threshold).outcome
      == Max(CanPayOut(s.(assignments := a), scope, amount, threshold).outcome,
             CanPayOut(s.(assignments := b), scope, amount, threshold).outcome)
  {
    hide BestOf, RolesAllowed;
    var p, q := RolesIn(a, scope.branch), RolesIn(b, scope.branch);
    RolesInConcat(a, b, scope.branch);
    BestOfConcat(p, q, PaidOut);
    PaidOutAllOrNothing(p);
    PaidOutAllOrNothing(q);
  }

  lemma PaidOutAllOrNothing(roles: seq<Role>)
    ensures BestOf(roles, PaidOut) != Escalate
  {
    BestIsGreatest(roles, PaidOut);
    forall r ensures Verdict(PaidOut, r) == Allow {
    }
  }

  // ----- an escalation can always be satisfied ----------------------------------------------------

  /** Every escalation names someone, and each role it names would be allowed the action outright. */
  lemma EscalationResolves(s: Subject, action: Action, scope: Scope, a: Assignment)
    requires Can(s, action, scope).outcome == Escalate
    ensures Can(s, action, scope).satisfiedBy != []
    ensures Counts(a, scope.branch) && a.role in Can(s, action, scope).satisfiedBy ==>
      Can(s.(assignments := s.assignments + [a]), action, scope).outcome == Allow
  {
    hide BestOf, RolesAllowed, RolesIn, Verdict, Can, DecidedByRow;
    RowDecides(s, action, scope);
    RowDecides(s.(assignments := s.assignments + [a]), action, scope);
    OwnerMayWhatEscalates(action, RolesIn(s.assignments, scope.branch));
    if Counts(a, scope.branch) && Verdict(action, a.role) == Allow {
      AllowedOnceGranted(s.assignments, a, scope.branch, action);
    }
  }

  lemma AllowedOnceGranted(assignments: seq<Assignment>, a: Assignment, branch: Option<Id>, action: Action)
    requires Counts(a, branch) && Verdict(action, a.role) == Allow
    ensures BestOf(RolesIn(assignments + [a], branch), action) == Allow
  {
    hide Verdict;
    var roles := RolesIn(assignments, branch);
    assert (assignments + [a])[..|assignments|] == assignments;
    assert (roles + [a.role])[..|roles|] == roles;
  }

  lemma OwnerMayWhatEscalates(action: Action, roles: seq<Role>)
    requires BestOf(roles, action) == Escalate
    ensures Owner in RolesAllowed(action, ROLES)
  {
    hide BestOf, Verdict;
    BestIsGreatest(roles, action);
    var r :| r in roles && Verdict(action, r) == Escalate;
    EscalatingRow(action, r);
    assert ROLES[3] == Owner;
  }

  lemma EscalatingRow(action: Action, role: Role)
    requires Verdict(action, role) == Escalate
    ensures Verdict(action, Owner) == Allow
  {
  }

  // ----- the discount threshold -------------------------------------------------------------------

  /** Without a campaign in bounds, the within row holds exactly up to the floor of the percentage. */
  lemma DiscountUpToFloor(subject: Subject, scope: Scope, amount: int, campaign: Option<bool>, total: nat, bps: nat)
    requires campaign != Some(true)
    ensures CanDiscount(subject, scope, amount, campaign, total, bps)
      == Can(subject, if amount <= total * bps / 10000 then DiscountWithin else DiscountAbove, scope)
  {
    hide Can;
    var base := total * bps;
    assert base == base / 10000 * 10000 + base % 10000;
  }

  /** Above the threshold a cashier must escalate what she could do within it; a manager need not. */
  lemma DiscountRows(subject: Subject, scope: Scope, amount: int, campaign: Option<bool>, total: nat, bps: nat)
    requires subject.orgId == scope.orgId
    ensures var d, roles := CanDiscount(subject, scope, amount, campaign, total, bps), RolesAt(subject, scope.branch);
      && (d.outcome == Allow <==> BranchManager in roles || Owner in roles
                                  || (Cashier in roles && (campaign == Some(true) || amount <= total * bps / 10000)))
      && (d.outcome == Deny <==> forall r :: r in roles ==> r == Storekeeper)
  {
    hide BestOf, RolesAllowed;
    if campaign != Some(true) {
      DiscountUpToFloor(subject, scope, amount, campaign, total, bps);
    }
    var roles := RolesAt(subject, scope.branch);
    BestIsGreatest(roles, DiscountWithin);
    BestIsGreatest(roles, DiscountAbove);
  }

  // ----- who may do what, role by role -----------------------------------------------------------------

  /** The role is held at the location through an active assignment there or across the organisation. */
  predicate HasRole(s: Subject, scope: Scope, role: Role) {
    exists a :: a in s.assignments && a.role == role && a.status == Active && (a.branch == None || a.branch == scope.branch)
  }

  predicate AtTheCounter(a: Action) {
    a.OrderCreate? || a.AvailabilityToggle? || a.CustomerRecord? || a.PaymentSettle? || a.DiscountWithin? || a.ReceiptReprint?
    || a.ShiftOpenClose? || a.CashCount?
  }

  predicate Everyones(a: Action) {
    a.DrawerNoSale? || a.StockWastage? || a.PaidOut?
  }

  predicate InTheStore(a: Action) {
    a.StockReceive? || a.StockCountEntry?
  }

  /** What a cashier may do once a manager or the owner puts in a PIN. */
  predicate MayAsk(a: Action) {
    a.DiscountAbove? || a.VoidAfterKot? || a.CompItem? || a.PriceOverride? || a.RefundIssue?
  }

  predicate Supervised(a: Action) {
    MayAsk(a) || a.DayOpenClose? || a.ApprovalGrant?
  }

  predicate OwnersOnly(a: Action) {
    a.EditMenuPrices? || a.EditRecipes? || a.DeviceManage? || a.UserManage? || a.ConfigManage? || a.ExportRequest?
  }

  /** What each role may do outright. */
  predicate MayDo(role: Role, a: Action) {
    match role
    case Cashier => AtTheCounter(a) || Everyones(a)
    case BranchManager => AtTheCounter(a) || Everyones(a) || InTheStore(a) || Supervised(a)
    case Storekeeper => Everyones(a) || InTheStore(a)
    case Owner => AtTheCounter(a) || Everyones(a) || InTheStore(a) || Supervised(a) || OwnersOnly(a)
  }

  lemma MatrixByRole(action: Action, role: Role)
    ensures Verdict(action, role) == Allow <==> MayDo(role, action)
    ensures Verdict(action, role) == Escalate <==> role == Cashier && MayAsk(action)
  {
  }

  /** A request the rows answer: within the organisation, no report, no amount to weigh, nobody's own approval. */
  predicate Plain(s: Subject, action: Action, scope: Scope) {
    && s.orgId == scope.orgId && action !in {SalesView, StockView, PaidOut, Unlisted}
    && !(action == ApprovalGrant && scope.requestedBy == Some(s.userId))
  }

  lemma RolesHad(s: Subject, scope: Scope)
    ensures forall r :: r in RolesAt(s, scope.branch) <==> HasRole(s, scope, r)
  {
    forall r ensures r in RolesAt(s, scope.branch) <==> HasRole(s, scope, r) {
      RolesAreHeld(s.assignments, scope.branch, r);
      assert Holds(s.assignments, scope.branch, r) <==> HasRole(s, scope, r);
    }
  }

  lemma BestExact(roles: seq<Role>, action: Action)
    ensures BestOf(roles, action) == Allow <==> exists r :: r in roles && MayDo(r, action)
    ensures BestOf(roles, action) == Escalate <==>
      (Cashier in roles && MayAsk(action) && forall r :: r in roles ==> !MayDo(r, action))
  {
    hide BestOf, Verdict, MayDo;
    BestIsGreatest(roles, action);
    forall r ensures Verdict(action, r) == Allow <==> MayDo(r, action)
      ensures Verdict(action, r) == Escalate <==> r == Cashier && MayAsk(action)
    {
      MatrixByRole(action, r);
    }
  }

  lemma AllowedRoles(action: Action)
    requires MayAsk(action) || action == ApprovalGrant
    ensures RolesAllowed(action, ROLES) == [BranchManager, Owner]
  {
    hide Verdict, MayDo, RolesAllowed;
    ManagersMay(action);
    assert ROLES == [Cashier] + [BranchManager, Storekeeper, Owner];
    assert [BranchManager, Storekeeper, Owner] == [BranchManager] + [Storekeeper, Owner];
    assert [Storekeeper, Owner] == [Storekeeper] + [Owner] && [Owner] == [Owner] + [];
    RolesNext(action, Cashier, [BranchManager, Storekeeper, Owner]);
    RolesNext(action, BranchManager, [Storekeeper, Owner]);
    RolesNext(action, Storekeeper, [Owner]);
    RolesNext(action, Owner, []);
  }

  lemma RolesNext(action: Action, role: Role, rest: seq<Role>)
    ensures RolesAllowed(action, [role] + rest) == (if MayDo(role, action) then [role] else []) + RolesAllowed(action, rest)
    ensures RolesAllowed(action, []) == []
  {
    hide Verdict, MayDo;
    MatrixByRole(action, role);
    assert ([role] + rest)[1..] == rest;
  }

  lemma ManagersMay(action: Action)
    requires MayAsk(action) || action == ApprovalGrant
    ensures forall r :: MayDo(r, action) <==> r == BranchManager || r == Owner
  {
  }

  /**
   * What `can` answers. A plain request is allowed exactly to whom some held role allows it, and is put to the
   * manager and the owner exactly when the best a cashier can do is ask. A report is allowed by reach: a cashier
   * sees her own sales only, a storekeeper stock only. Everything else is refused.
   */
  lemma CanExact(s: Subject, action: Action, scope: Scope)
    ensures var d := Can(s, action, scope);
      && d.action == action
      && (Plain(s, action, scope) ==>
            && (d.outcome == Allow <==> exists r :: HasRole(s, scope, r) && MayDo(r, action))
            && (d.outcome == Escalate <==>
                  (HasRole(s, scope, Cashier) && MayAsk(action) && forall r :: HasRole(s, scope, r) ==> !MayDo(r, action))))
      && (s.orgId == scope.orgId && action == SalesView ==>
            (d.outcome == Allow <==>
               (HasRole(s, scope, BranchManager) || HasRole(s, scope, Owner)
                || (HasRole(s, scope, Cashier) && scope.subjectUserId == Some(s.userId)))))
      && (s.orgId == scope.orgId && action == StockView ==>
            (d.outcome == Allow <==> HasRole(s, scope, BranchManager) || HasRole(s, scope, Storekeeper) || HasRole(s, scope, Owner)))
      && (!Plain(s, action, scope) && !(s.orgId == scope.orgId && action in {SalesView, StockView}) ==> d.outcome == Deny)
      && (!Plain(s, action, scope) ==> d.outcome != Escalate)
      && d.satisfiedBy == if d.outcome == Escalate then [BranchManager, Owner] else []
  {
    hide BestOf, Verdict, MayDo, RolesAllowed, WidestOf, HasRole;
    var roles := RolesAt(s, scope.branch);
    RolesHad(s, scope);
    BestExact(roles, action);
    ReachExact(s, scope);
    if MayAsk(action) { AllowedRoles(action); }
  }

  /** How far reports reach: to the widest of the held roles, across the organisation only for the owner. */
  lemma ReachExact(s: Subject, scope: Scope)
    ensures s.orgId != scope.orgId ==> ReportScope(s, scope) == NoReach && StockReportScope(s, scope) == NoReach
    ensures s.orgId == scope.orgId ==>
      && (ReportScope(s, scope) == OrgWide <==> HasRole(s, scope, Owner))
      && (ReportScope(s, scope) == OwnBranch <==> HasRole(s, scope, BranchManager) && !HasRole(s, scope, Owner))
      && (ReportScope(s, scope) == OwnShift <==>
            HasRole(s, scope, Cashier) && !HasRole(s, scope, BranchManager) && !HasRole(s, scope, Owner))
      && (StockReportScope(s, scope) == OrgWide <==> HasRole(s, scope, Owner))
      && (StockReportScope(s, scope) == OwnBranch <==>
            (HasRole(s, scope, BranchManager) || HasRole(s, scope, Storekeeper)) && !HasRole(s, scope, Owner))
      && StockReportScope(s, scope) != OwnShift
  {
    hide WidestOf, HasRole;
    var roles := RolesAt(s, scope.branch);
    RolesHad(s, scope);
    WidestIsGreatest(roles, SalesReach);
    WidestIsGreatest(roles, StockReach);
  }

  /**
   * What `canPayOut` answers: anybody with a role may take out up to the threshold, and must ask the branch
   * manager or the owner above it; nobody may in another organisation.
   */
  lemma PaidOutExact(s: Subject, scope: Scope, amount: int, threshold: int)
    ensures var d, held := CanPayOut(s, scope, amount, threshold), s.orgId == scope.orgId && exists r :: HasRole(s, scope, r);
      && (d.outcome == Allow <==> held && amount <= threshold)
      && (d.outcome == Escalate <==> held && amount > threshold)
      && (d.outcome == Deny <==> !held)
      && d.action == PaidOut && d.satisfiedBy == if d.outcome == Escalate then [BranchManager, Owner] else []
  {
    hide BestOf, MayDo, RolesAllowed, HasRole;
    RolesHad(s, scope);
    BestExact(RolesAt(s, scope.branch), PaidOut);
    EveryoneMayPayOut();
    AllowedRoles(ApprovalGrant);
  }

  lemma EveryoneMayPayOut()
    ensures forall r :: MayDo(r, PaidOut)
  {
  }
}
