/**
 * `packages/auditor/src/auditor.ts`, leg 5: every device's audit chain, rebuilt from the merged rows and
 * checked, with a finding for each row that cannot be read.
 */
module AuditLeg {
  import opened Text16
  import opened AuditChain

  /** What the guard makes of one row's envelope. */
  datatype Reading = NotAudit | Unreadable | Audit(envelope: Envelope)

  datatype Row = Row(id: Text, deviceId: Text, reading: Reading)

  datatype Finding =
    | Unparseable(rowId: Text, deviceId: Text)
    | ChainBroken(deviceId: Text, verdict: Verdict)

  /** The readable audit events of one device, in the order of the rows. */
  function ChainOf(rows: seq<Row>, device: Text): seq<Envelope> {
    if rows == [] then []
    else
      var row := rows[|rows| - 1];
      var before := ChainOf(rows[..|rows| - 1], device);
      if row.reading.Audit? && row.deviceId == device then before + [row.reading.envelope] else before
  }

  function UnparseableIn(rows: seq<Row>): seq<Finding> {
    if rows == [] then []
    else
      var row := rows[|rows| - 1];
      var before := UnparseableIn(rows[..|rows| - 1]);
      if row.reading.Unreadable? then before + [Unparseable(row.id, row.deviceId)] else before
  }

  ghost predicate Chains(chains: map<Text, seq<Envelope>>, rows: seq<Row>) {
    forall d :: ChainOf(rows, d) == if d in chains then chains[d] else []
  }

  method CollectChains(rows: seq<Row>) returns (chains: map<Text, seq<Envelope>>, findings: seq<Finding>)
    ensures Chains(chains, rows)
    ensures findings == UnparseableIn(rows)
  {
    chains, findings := map[], [];
    for i := 0 to |rows|
      invariant Chains(chains, rows[..i])
      invariant findings == UnparseableIn(rows[..i])
    {
      var row := rows[i];
      assert rows[..i + 1][..i] == rows[..i];
      match row.reading {
        case NotAudit =>
        case Unreadable =>
          findings := findings + [Unparseable(row.id, row.deviceId)];
        case Audit(envelope) =>
          var chain := if row.deviceId in chains then chains[row.deviceId] else [];
          chains := chains[row.deviceId := chain + [envelope]];
      }
    }
    assert rows[..|rows|] == rows;
  }

  predicate Breaks(hash: Hash, chain: seq<Envelope>, verdict: Verdict) {
    exists i: nat :: i < |chain| && ReportsBreakAt(hash, chain, i, verdict)
  }

  /** What the leg has to say: each unreadable row, and for each broken chain its first broken link. */
  predicate Due(hash: Hash, rows: seq<Row>, f: Finding) {
    match f
    case Unparseable(_, _) => f in UnparseableIn(rows)
    case ChainBroken(device, verdict) => Breaks(hash, ChainOf(rows, device), verdict)
  }

  lemma OneBreak(hash: Hash, chain: seq<Envelope>, v: Verdict, w: Verdict)
    requires Breaks(hash, chain, v)
    ensures Breaks(hash, chain, w) <==> w == v
    ensures !Accepted(hash, chain)
  {
    hide Linked, ExpectedPrev, PrevHash;
    var i: nat :| i < |chain| && ReportsBreakAt(hash, chain, i, v);
    if Breaks(hash, chain, w) {
      var j: nat :| j < |chain| && ReportsBreakAt(hash, chain, j, w);
      assert i == j;
    }
  }

  lemma NoBreak(hash: Hash, chain: seq<Envelope>, v: Verdict)
    requires Accepted(hash, chain)
    ensures !Breaks(hash, chain, v)
  {
  }

  lemma UnparseableOnly(rows: seq<Row>)
    ensures forall f :: f in UnparseableIn(rows) ==> f.Unparseable?
  {
  }

  /** Everything due is found, except on the devices still to do. */
  ghost predicate Found(hash: Hash, rows: seq<Row>, todo: set<Text>, findings: seq<Finding>) {
    forall f :: f in findings <==> Due(hash, rows, f) && (f.ChainBroken? ==> f.deviceId !in todo)
  }

  lemma FoundOne(hash: Hash, rows: seq<Row>, todo: set<Text>, findings: seq<Finding>, d: Text, verdict: Verdict)
    requires Found(hash, rows, todo, findings) && d in todo
    requires forall w :: Breaks(hash, ChainOf(rows, d), w) <==> verdict != Intact && w == verdict
    ensures Found(hash, rows, todo - {d}, findings + (if verdict != Intact then [ChainBroken(d, verdict)] else []))
  {
    hide ChainOf, UnparseableIn, Breaks;
  }

  lemma FoundUnread(hash: Hash, rows: seq<Row>, chains: map<Text, seq<Envelope>>)
    requires Chains(chains, rows)
    ensures Found(hash, rows, chains.Keys, UnparseableIn(rows))
  {
    hide ChainOf, UnparseableIn, Breaks, Chains;
    UnparseableOnly(rows);
    NoChainNoBreak(hash, rows, chains);
  }

  /** After the unreadable rows, broken chains only, and no device twice. */
  predicate OneEach(unread: seq<Finding>, findings: seq<Finding>) {
    && unread <= findings
    && (forall i :: |unread| <= i < |findings| ==> findings[i].ChainBroken?)
    && (forall i, j :: |unread| <= i < j < |findings| ==> findings[i].deviceId != findings[j].deviceId)
  }

  lemma OneMoreEach(hash: Hash, rows: seq<Row>, todo: set<Text>, findings: seq<Finding>, d: Text, verdict: Verdict)
    requires Found(hash, rows, todo, findings) && OneEach(UnparseableIn(rows), findings) && d in todo
    ensures OneEach(UnparseableIn(rows), findings + [ChainBroken(d, verdict)])
  {
    hide Due, UnparseableIn;
    forall i | 0 <= i < |findings| && findings[i].ChainBroken? ensures findings[i].deviceId != d {
      assert findings[i] in findings;
    }
  }

  /**
   * Devices are taken in any order; the findings are exactly those due: one for each unreadable row, in
   * the order of the rows, and then one for each device whose chain is broken.
   */
  method RunAuditLeg(hash: Hash, rows: seq<Row>) returns (findings: seq<Finding>)
    ensures forall f :: f in findings <==> Due(hash, rows, f)
    ensures OneEach(UnparseableIn(rows), findings)
  {
    hide OneEach, ChainOf, UnparseableIn, Breaks, Accepted, ReportsBreakAt, Due;
    var chains, unread := CollectChains(rows);
    findings := unread;
    var todo := chains.Keys;
    FoundUnread(hash, rows, chains);
    NoneYet(unread);
    while todo != {}
      invariant todo <= chains.Keys
      invariant Found(hash, rows, todo, findings) && OneEach(unread, findings)
      decreases |todo|
    {
      hide Found;
      var d :| d in todo;
      assert ChainOf(rows, d) == chains[d];
      var verdict := VerifyAuditChain(hash, chains[d]);
      VerdictIsTheBreak(hash, chains[d], verdict);
      FoundOne(hash, rows, todo, findings, d, verdict);
      assert findings + [] == findings;
      if verdict != Intact {
        OneMoreEach(hash, rows, todo, findings, d, verdict);
        findings := findings + [ChainBroken(d, verdict)];
      }
      todo := todo - {d};
    }
  }

  lemma NoneYet(unread: seq<Finding>)
    ensures OneEach(unread, unread)
  {
  }

  lemma NoChainNoBreak(hash: Hash, rows: seq<Row>, chains: map<Text, seq<Envelope>>)
    requires Chains(chains, rows)
    ensures forall d, v :: d !in chains ==> !Breaks(hash, ChainOf(rows, d), v)
  {
    hide ChainOf;
    forall d, v | d !in chains
      ensures !Breaks(hash, ChainOf(rows, d), v)
    {
      assert ChainOf(rows, d) == [];
    }
  }

  lemma VerdictIsTheBreak(hash: Hash, chain: seq<Envelope>, verdict: Verdict)
    requires verdict == Intact <==> Accepted(hash, chain)
    requires verdict != Intact ==> exists i :: ReportsBreakAt(hash, chain, i, verdict)
    ensures forall w :: Breaks(hash, chain, w) <==> verdict != Intact && w == verdict
  {
    hide Linked, Accepted;
    if verdict == Intact {
      forall w
        ensures !Breaks(hash, chain, w)
      {
        NoBreak(hash, chain, w);
      }
    } else {
      var i :| ReportsBreakAt(hash, chain, i, verdict);
      assert Breaks(hash, chain, verdict);
      forall w
        ensures Breaks(hash, chain, w) <==> w == verdict
      {
        OneBreak(hash, chain, verdict, w);
      }
    }
  }

  lemma {:induction false} UnparseableIffUnreadable(rows: seq<Row>)
    ensures UnparseableIn(rows) == [] <==> forall i :: 0 <= i < |rows| ==> !rows[i].reading.Unreadable?
  {
    if rows != [] {
      UnparseableIffUnreadable(rows[..|rows| - 1]);
    }
  }

  lemma {:induction false} FirstBreak(hash: Hash, chain: seq<Envelope>) returns (v: Verdict)
    requires !Accepted(hash, chain)
    ensures Breaks(hash, chain, v)
  {
    hide PrevHash, AuditEventHash;
    var n: nat := 0;
    while Linked(hash, chain, n)
      invariant n < |chain|
      invariant forall j :: 0 <= j < n ==> Linked(hash, chain, j)
      decreases |chain| - n
    {
      n := n + 1;
    }
    v := Broken(chain[n].id, ExpectedPrev(hash, chain, n), PrevHash(chain[n]));
    assert ReportsBreakAt(hash, chain, n, v);
  }

  ghost predicate Clean(hash: Hash, rows: seq<Row>) {
    && (forall i :: 0 <= i < |rows| ==> !rows[i].reading.Unreadable?)
    && forall d :: Accepted(hash, ChainOf(rows, d))
  }

  lemma CleanNothingDue(hash: Hash, rows: seq<Row>, f: Finding)
    requires Clean(hash, rows)
    ensures !Due(hash, rows, f)
  {
    hide ChainOf, Accepted, Breaks;
    UnparseableIffUnreadable(rows);
    if f.ChainBroken? {
      NoBreak(hash, ChainOf(rows, f.deviceId), f.verdict);
    }
  }

  lemma DirtySomethingDue(hash: Hash, rows: seq<Row>) returns (f: Finding)
    requires !Clean(hash, rows)
    ensures Due(hash, rows, f)
  {
    hide ChainOf, Accepted, Breaks;
    UnparseableIffUnreadable(rows);
    UnparseableOnly(rows);
    if UnparseableIn(rows) != [] {
      f := UnparseableIn(rows)[0];
    } else {
      var d :| !Accepted(hash, ChainOf(rows, d));
      var v := FirstBreak(hash, ChainOf(rows, d));
      f := ChainBroken(d, v);
    }
  }

  /** No finding is due exactly when every row can be read and every device's chain is accepted. */
  lemma CleanIffNothingDue(hash: Hash, rows: seq<Row>)
    ensures Clean(hash, rows) <==> forall f :: !Due(hash, rows, f)
  {
    hide Clean, Due;
    if Clean(hash, rows) {
      forall f
        ensures !Due(hash, rows, f)
      {
        CleanNothingDue(hash, rows, f);
      }
    } else {
      var f := DirtySomethingDue(hash, rows);
    }
  }

  // ----- the order of the rows ---------------------------------------------------------------------

  /** Both readings follow the rows: those of a log and more are those of the log, and then those of the more. */
  lemma {:induction false} RowsInOrder(a: seq<Row>, b: seq<Row>, device: Text)
    ensures ChainOf(a + b, device) == ChainOf(a, device) + ChainOf(b, device)
    ensures UnparseableIn(a + b) == UnparseableIn(a) + UnparseableIn(b)
  {
    if b == [] {
      assert a + b == a;
    } else {
      RowsInOrder(a, b[..|b| - 1], device);
      assert (a + b)[..|a + b| - 1] == a + b[..|b| - 1];
    }
  }

  /** And of one row: an audit event joins its own device's chain, an unreadable one is named with its device. */
  lemma OneRow(row: Row, device: Text)
    ensures ChainOf([row], device) == if row.reading.Audit? && row.deviceId == device then [row.reading.envelope] else []
    ensures UnparseableIn([row]) == if row.reading.Unreadable? then [Unparseable(row.id, row.deviceId)] else []
  {
    assert [row][..0] == [];
  }
}
