/**
 * `packages/auditor/src/auditor.ts`, leg 4: the supplied projection against an independent
 * refold, row by row in canonical form.
 */
module ReadModelDiff {
  import opened Text16
  import opened Canonical
  import opened CanonicalText
  import opened CanonicalUnique

  /** A projection row: its key and the whole row as the serializer sees it. */
  datatype Row = Row(orderId: Text, cells: Json)

  datatype Reason = Duplicate | Missing | Diverges | Extra

  datatype Finding = Finding(reason: Reason, orderId: Text)

  // ----- the rows as maps, last row for a key winning ----------------------------------------

  function ById(rows: seq<Row>): map<Text, Row> {
    if rows == [] then map[] else ById(rows[..|rows| - 1])[rows[|rows| - 1].orderId := rows[|rows| - 1]]
  }

  predicate Repeats(rows: seq<Row>, id: Text) {
    exists i, j :: 0 <= i < j < |rows| && rows[i].orderId == id && rows[j].orderId == id
  }

  function Occurrences(rows: seq<Row>, id: Text): nat {
    if rows == [] then 0
    else Occurrences(rows[..|rows| - 1], id) + (if rows[|rows| - 1].orderId == id then 1 else 0)
  }

  predicate DistinctIds(rows: seq<Row>) {
    forall i, j :: 0 <= i < j < |rows| ==> rows[i].orderId != rows[j].orderId
  }

  lemma {:induction false} ByIdMembers(rows: seq<Row>)
    ensures forall id :: id in ById(rows) <==> exists r :: r in rows && r.orderId == id
    ensures forall id :: id in ById(rows) ==> ById(rows)[id] in rows && ById(rows)[id].orderId == id
  {
    if rows != [] {
      var init, last := rows[..|rows| - 1], rows[|rows| - 1];
      ByIdMembers(init);
      assert rows == init + [last];
      forall id ensures id in ById(rows) <==> exists r :: r in rows && r.orderId == id {
        assert (exists r :: r in rows && r.orderId == id)
          <==> ((exists r :: r in init && r.orderId == id) || last.orderId == id);
      }
    }
  }

  /** What is wrong about one id, between two row maps. */
  predicate WrongIn(s: map<Text, Row>, r: map<Text, Row>, f: Finding) {
    var id := f.orderId;
    match f.reason
    case Duplicate => false
    case Missing => id in r && id !in s
    case Diverges => id in r && id in s && CanonicalJson(s[id].cells) != CanonicalJson(r[id].cells)
    case Extra => id in s && id !in r
  }

  /** What a report on the supplied rows should say, and nothing else. */
  predicate Wrong(supplied: seq<Row>, refolded: seq<Row>, f: Finding) {
    (f.reason == Duplicate && Repeats(supplied, f.orderId)) || WrongIn(ById(supplied), ById(refolded), f)
  }

  // ----- diffRows -----------------------------------------------------------------------------

  /** How often a report on the supplied rows says it: a repeat for each row of an id after its first, the rest once. */
  function Times(supplied: seq<Row>, refolded: seq<Row>, f: Finding): nat {
    if f.reason == Duplicate then Again(supplied, f.orderId)
    else if WrongIn(ById(supplied), ById(refolded), f) then 1
    else 0
  }

  function Again(rows: seq<Row>, id: Text): nat {
    if Occurrences(rows, id) == 0 then 0 else Occurrences(rows, id) - 1
  }

  lemma {:induction false} OccursIff(rows: seq<Row>, id: Text)
    ensures Occurrences(rows, id) > 0 <==> exists k :: 0 <= k < |rows| && rows[k].orderId == id
  {
    if rows != [] {
      OccursIff(rows[..|rows| - 1], id);
      assert forall k :: 0 <= k < |rows| - 1 ==> rows[..|rows| - 1][k] == rows[k];
    }
  }

  ghost predicate AgainEach(findings: seq<Finding>, rows: seq<Row>) {
    forall id :: multiset(findings)[Finding(Duplicate, id)] == Again(rows, id)
  }

  lemma AgainMore(findings: seq<Finding>, rows: seq<Row>, i: nat)
    requires i < |rows| && AgainEach(findings, rows[..i])
    ensures if exists k :: 0 <= k < i && rows[k].orderId == rows[i].orderId
            then AgainEach(findings + [Finding(Duplicate, rows[i].orderId)], rows[..i + 1])
            else AgainEach(findings, rows[..i + 1])
  {
    OccursIff(rows[..i], rows[i].orderId);
    assert rows[..i + 1][..i] == rows[..i];
  }

  ghost predicate RepeatsIn(findings: seq<Finding>, rows: seq<Row>) {
    && (forall f :: f in findings <==> f.reason == Duplicate && Repeats(rows, f.orderId))
    && AgainEach(findings, rows)
  }

  lemma RepeatsInMore(findings: seq<Finding>, rows: seq<Row>, i: nat)
    requires i < |rows| && RepeatsIn(findings, rows[..i])
    ensures if rows[i].orderId in ById(rows[..i])
            then RepeatsIn(findings + [Finding(Duplicate, rows[i].orderId)], rows[..i + 1])
            else RepeatsIn(findings, rows[..i + 1])
  {
    hide AgainEach, Repeats, ById;
    RepeatsMore(rows, i);
    AgainMore(findings, rows, i);
    SeenMore(rows, i);
  }

  /** One finding for every row but the first of its id. */
  method DuplicateIds(supplied: seq<Row>) returns (findings: seq<Finding>)
    ensures forall f :: f in findings <==> f.reason == Duplicate && Repeats(supplied, f.orderId)
    ensures AgainEach(findings, supplied)
    ensures |findings| + |ById(supplied).Keys| == |supplied|
  {
    hide *;
    findings := [];
    var seen: set<Text> := {};
    NothingSeen(supplied);
    for i := 0 to |supplied|
      invariant seen == ById(supplied[..i]).Keys && |findings| + |seen| == i
      invariant RepeatsIn(findings, supplied[..i])
    {
      var id := supplied[i].orderId;
      SeenMore(supplied, i);
      RepeatsInMore(findings, supplied, i);
      if id in seen {
        findings := findings + [Finding(Duplicate, id)];
        assert seen + {id} == seen;
      }
      seen := seen + {id};
    }
    assert supplied[..|supplied|] == supplied;
    RepeatsInSays(findings, supplied);
  }

  lemma NothingSeen(rows: seq<Row>)
    ensures ById(rows[..0]).Keys == {} && RepeatsIn([], rows[..0])
  {
  }

  lemma RepeatsInSays(findings: seq<Finding>, rows: seq<Row>)
    requires RepeatsIn(findings, rows)
    ensures forall f :: f in findings <==> f.reason == Duplicate && Repeats(rows, f.orderId)
    ensures AgainEach(findings, rows)
  {
  }

  lemma SeenMore(rows: seq<Row>, i: nat)
    requires i < |rows|
    ensures var id := rows[i].orderId;
      && (id in ById(rows[..i]) <==> exists k :: 0 <= k < i && rows[k].orderId == id)
      && ById(rows[..i + 1]).Keys == ById(rows[..i]).Keys + {id}
  {
    ByIdMembers(rows[..i]);
    assert rows[..i + 1][..i] == rows[..i];
    assert forall k :: 0 <= k < i ==> rows[k] in rows[..i];
  }

  lemma RepeatsMore(rows: seq<Row>, i: nat)
    requires i < |rows|
    ensures forall id :: Repeats(rows[..i + 1], id) <==>
      (Repeats(rows[..i], id) || (id == rows[i].orderId && exists k :: 0 <= k < i && rows[k].orderId == id))
  {
    var more, less := rows[..i + 1], rows[..i];
    forall id
      ensures Repeats(more, id) <==>
        (Repeats(less, id) || (id == rows[i].orderId && exists k :: 0 <= k < i && rows[k].orderId == id))
    {
      if Repeats(more, id) {
        var a, b :| 0 <= a < b < |more| && more[a].orderId == id && more[b].orderId == id;
        assert rows[a].orderId == id;
        if b < i {
          assert less[a].orderId == id && less[b].orderId == id;
        }
      }
      if Repeats(less, id) {
        var a, b :| 0 <= a < b < |less| && less[a].orderId == id && less[b].orderId == id;
        assert more[a].orderId == id && more[b].orderId == id;
      }
      if id == rows[i].orderId && exists k :: 0 <= k < i && rows[k].orderId == id {
        var k :| 0 <= k < i && rows[k].orderId == id;
        assert more[k].orderId == id && more[i].orderId == id;
      }
    }
  }

  lemma SomeId(ids: set<Text>)
    requires ids != {}
    ensures exists id: Text :: id in ids
  {
    assert (forall id: Text :: id !in ids) ==> ids == {};
  }

  ghost predicate AtMostOnce(findings: seq<Finding>) {
    forall f :: multiset(findings)[f] <= 1
  }

  lemma OnceMore(findings: seq<Finding>, f: Finding)
    ensures AtMostOnce([])
    ensures AtMostOnce(findings) && f !in findings ==> AtMostOnce(findings + [f])
  {
    assert f !in findings ==> multiset(findings)[f] == 0;
  }

  /** The refolded keys, in any order: what the supplied rows lack or tell differently. */
  method Compared(s: map<Text, Row>, r: map<Text, Row>) returns (findings: seq<Finding>)
    ensures forall f :: f in findings <==> (f.reason == Missing || f.reason == Diverges) && WrongIn(s, r, f)
    ensures AtMostOnce(findings)
  {
    hide AtMostOnce, CanonicalJson;
    findings := [];
    OnceMore(findings, Finding(Missing, []));
    var todo := r.Keys;
    while todo != {}
      invariant todo <= r.Keys
      invariant forall f :: f in findings <==>
        (f.reason == Missing || f.reason == Diverges) && WrongIn(s, r, f) && f.orderId !in todo
      invariant AtMostOnce(findings)
      decreases |todo|
    {
      SomeId(todo);
      var id: Text :| id in todo;
      if id !in s {
        OnceMore(findings, Finding(Missing, id));
        findings := findings + [Finding(Missing, id)];
      } else if CanonicalJson(s[id].cells) != CanonicalJson(r[id].cells) {
        OnceMore(findings, Finding(Diverges, id));
        findings := findings + [Finding(Diverges, id)];
      }
      todo := todo - {id};
    }
  }

  /** The supplied keys, in any order: what the refold does not have. */
  method Strays(s: map<Text, Row>, r: map<Text, Row>) returns (findings: seq<Finding>)
    ensures forall f :: f in findings <==> f.reason == Extra && WrongIn(s, r, f)
    ensures AtMostOnce(findings)
  {
    hide AtMostOnce;
    findings := [];
    OnceMore(findings, Finding(Extra, []));
    var todo := s.Keys;
    while todo != {}
      invariant todo <= s.Keys
      invariant forall f :: f in findings <==> f.reason == Extra && WrongIn(s, r, f) && f.orderId !in todo
      invariant AtMostOnce(findings)
      decreases |todo|
    {
      SomeId(todo);
      var id: Text :| id in todo;
      if id !in r {
        OnceMore(findings, Finding(Extra, id));
        findings := findings + [Finding(Extra, id)];
      }
      todo := todo - {id};
    }
  }

  lemma CountOf(repeated: seq<Finding>, compared: seq<Finding>, strays: seq<Finding>, f: Finding)
    requires AtMostOnce(compared) && AtMostOnce(strays)
    ensures multiset(repeated + compared + strays)[f]
      == multiset(repeated)[f] + (if f in compared then 1 else 0) + (if f in strays then 1 else 0)
  {
    assert f in compared <==> f in multiset(compared);
    assert f in strays <==> f in multiset(strays);
  }

  /** The findings name exactly the ids something is wrong with, each with what is wrong and as often as it should. */
  method DiffRows(supplied: seq<Row>, refolded: seq<Row>) returns (findings: seq<Finding>)
    ensures forall f :: f in findings <==> Wrong(supplied, refolded, f)
    ensures forall f :: multiset(findings)[f] == Times(supplied, refolded, f)
  {
    hide Repeats, Again, ById, CanonicalJson, AtMostOnce;
    var repeated := DuplicateIds(supplied);
    var compared := Compared(ById(supplied), ById(refolded));
    var strays := Strays(ById(supplied), ById(refolded));
    findings := repeated + compared + strays;
    forall f ensures multiset(findings)[f] == Times(supplied, refolded, f) {
      CountOf(repeated, compared, strays, f);
      assert f.reason != Duplicate ==> f !in repeated && multiset(repeated)[f] == 0;
      assert f.reason == Duplicate ==> f == Finding(Duplicate, f.orderId);
    }
  }

  // ----- a clean report -------------------------------------------------------------------------

  /** Row for row under each id, the same JSON values. */
  predicate SameRows(supplied: seq<Row>, refolded: seq<Row>) {
    var s, r := ById(supplied), ById(refolded);
    s.Keys == r.Keys && forall id :: id in s ==> NormalForm(s[id].cells) == NormalForm(r[id].cells)
  }

  predicate WellKeyedRows(rows: seq<Row>) {
    forall i :: 0 <= i < |rows| ==> WellKeyed(rows[i].cells)
  }

  lemma DistinctIffNoRepeat(rows: seq<Row>)
    ensures DistinctIds(rows) <==> forall id :: !Repeats(rows, id)
  {
    if !DistinctIds(rows) {
      var i, j :| 0 <= i < j < |rows| && rows[i].orderId == rows[j].orderId;
      assert Repeats(rows, rows[i].orderId);
    }
  }

  lemma CellsAgree(supplied: seq<Row>, refolded: seq<Row>, id: Text)
    requires WellKeyedRows(supplied) && WellKeyedRows(refolded)
    requires id in ById(supplied) && id in ById(refolded)
    ensures CanonicalJson(ById(supplied)[id].cells) == CanonicalJson(ById(refolded)[id].cells)
      <==> NormalForm(ById(supplied)[id].cells) == NormalForm(ById(refolded)[id].cells)
  {
    hide CanonicalJson, NormalForm;
    ByIdMembers(supplied);
    ByIdMembers(refolded);
    CanonicalIffSameNormal(ById(supplied)[id].cells, ById(refolded)[id].cells);
  }

  /**
   * Nothing is found exactly when the supplied rows carry distinct ids and, as a map from id,
   * hold the same values as the refold: a duplicate, a gap, a stray or a drifted cell always shows.
   */
  lemma CleanIffSameRows(supplied: seq<Row>, refolded: seq<Row>)
    requires WellKeyedRows(supplied) && WellKeyedRows(refolded)
    ensures (forall f :: !Wrong(supplied, refolded, f)) <==> DistinctIds(supplied) && SameRows(supplied, refolded)
  {
    hide CanonicalJson, NormalForm, Repeats, WellKeyedRows, ById;
    var s, r := ById(supplied), ById(refolded);
    DistinctIffNoRepeat(supplied);
    forall id | id in s && id in r
      ensures CanonicalJson(s[id].cells) == CanonicalJson(r[id].cells) <==> NormalForm(s[id].cells) == NormalForm(r[id].cells)
    {
      CellsAgree(supplied, refolded, id);
    }
    if forall f :: !Wrong(supplied, refolded, f) {
      forall id ensures !Repeats(supplied, id) && (id in s <==> id in r) {
        assert !Wrong(supplied, refolded, Finding(Duplicate, id));
        assert !Wrong(supplied, refolded, Finding(Missing, id));
        assert !Wrong(supplied, refolded, Finding(Extra, id));
      }
      assert s.Keys == r.Keys;
      forall id | id in s ensures NormalForm(s[id].cells) == NormalForm(r[id].cells) {
        assert !Wrong(supplied, refolded, Finding(Diverges, id));
      }
    }
  }

  // ----- each finding by how often its id occurs ------------------------------------------------------

  /** The last row under an id. */
  predicate IsLastRow(rows: seq<Row>, i: nat, id: Text) {
    i < |rows| && rows[i].orderId == id && forall j :: i < j < |rows| ==> rows[j].orderId != id
  }

  lemma {:induction false} LastRowStands(rows: seq<Row>, i: nat, id: Text)
    requires IsLastRow(rows, i, id)
    ensures id in ById(rows) && ById(rows)[id] == rows[i]
  {
    if i < |rows| - 1 {
      assert IsLastRow(rows[..|rows| - 1], i, id);
      LastRowStands(rows[..|rows| - 1], i, id);
    }
  }

  lemma {:induction false} RepeatsIffTwice(rows: seq<Row>, id: Text)
    ensures Repeats(rows, id) <==> Occurrences(rows, id) > 1
  {
    if rows != [] {
      var i := |rows| - 1;
      RepeatsIffTwice(rows[..i], id);
      RepeatsMore(rows, i);
      OccursIff(rows[..i], id);
      assert rows[..i + 1] == rows;
      assert forall k :: 0 <= k < i ==> rows[..i][k] == rows[k];
    }
  }

  lemma ByIdOccurs(rows: seq<Row>, id: Text)
    ensures id in ById(rows) <==> Occurrences(rows, id) > 0
  {
    ByIdMembers(rows);
    OccursIff(rows, id);
  }

  /** A duplicate is an id supplied twice or more, a missing one is refolded and not supplied, an extra the reverse. */
  lemma WrongByCounts(supplied: seq<Row>, refolded: seq<Row>, id: Text)
    ensures Wrong(supplied, refolded, Finding(Duplicate, id)) <==> Occurrences(supplied, id) > 1
    ensures Wrong(supplied, refolded, Finding(Missing, id)) <==> Occurrences(supplied, id) == 0 < Occurrences(refolded, id)
    ensures Wrong(supplied, refolded, Finding(Extra, id)) <==> Occurrences(refolded, id) == 0 < Occurrences(supplied, id)
  {
    hide Repeats, ById, Occurrences, CanonicalJson;
    RepeatsIffTwice(supplied, id);
    ByIdOccurs(supplied, id);
    ByIdOccurs(refolded, id);
  }

  /** A drifted one is an id both have, whose last rows differ in what they say. */
  lemma DivergesByLastRows(supplied: seq<Row>, refolded: seq<Row>, i: nat, j: nat, id: Text)
    requires WellKeyedRows(supplied) && WellKeyedRows(refolded)
    requires IsLastRow(supplied, i, id) && IsLastRow(refolded, j, id)
    ensures Wrong(supplied, refolded, Finding(Diverges, id)) <==> NormalForm(supplied[i].cells) != NormalForm(refolded[j].cells)
  {
    hide CanonicalJson, NormalForm, Repeats, ById;
    LastRowStands(supplied, i, id);
    LastRowStands(refolded, j, id);
    CellsAgree(supplied, refolded, id);
  }
}
