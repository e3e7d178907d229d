/**
 * `packages/domain/src/audit.ts`: the per-device audit hash chain. SHA-256 is a parameter; where
 * a lemma needs it to tell texts apart, it says so, and only of text that UTF-8 can carry.
 */
module AuditChain {
  import opened Wrappers
  import opened Text16
  import opened Canonical
  import opened CanonicalText
  import opened JsonReader
  import opened CanonicalUnique

  datatype Envelope = Envelope(
    id: Text,
    orgId: Text,
    branchId: Text,
    deviceId: Text,
    actorUserId: Option<Text>,
    lamportSeq: SafeInt,
    deviceCreatedAt: SafeInt,
    branchCreatedAt: SafeInt,
    timeBasis: Text,
    serverReceivedAt: Option<SafeInt>,
    eventType: Text,
    schemaVersion: SafeInt,
    payload: seq<Field>,
    refs: seq<Text>)

  type Hash = Text -> Text

  const PREV_KEY: Text := Ascii("prev_audit_hash")

  function Nullable(t: Option<Text>): Json {
    match t case None => Null case Some(s) => Str(s)
  }

  function Texts(ts: seq<Text>): seq<Json> {
    seq(|ts|, i requires 0 <= i < |ts| => Str(ts[i]))
  }

  /** The envelope minus `server_received_at`, as the object the hash is taken over. */
  function Covered(e: Envelope): seq<Field> {
    [ Field(Ascii("id"), Str(e.id)),
      Field(Ascii("org_id"), Str(e.orgId)),
      Field(Ascii("branch_id"), Str(e.branchId)),
      Field(Ascii("device_id"), Str(e.deviceId)),
      Field(Ascii("actor_user_id"), Nullable(e.actorUserId)),
      Field(Ascii("lamport_seq"), Num(e.lamportSeq)),
      Field(Ascii("device_created_at"), Num(e.deviceCreatedAt)),
      Field(Ascii("branch_created_at"), Num(e.branchCreatedAt)),
      Field(Ascii("time_basis"), Str(e.timeBasis)),
      Field(Ascii("type"), Str(e.eventType)),
      Field(Ascii("schema_version"), Num(e.schemaVersion)),
      Field(Ascii("payload"), Obj(e.payload)),
      Field(Ascii("refs"), Arr(Texts(e.refs))) ]
  }

  predicate ValidEnvelope(e: Envelope) {
    WellKeyed(Obj(e.payload))
  }

  function AuditEventHash(hash: Hash, e: Envelope): Text {
    hash(CanonicalJson(Obj(Covered(e))))
  }

  predicate HasKey(fields: seq<Field>, k: Text) {
    exists f :: f in fields && f.key == k
  }

  /** `payload.prev_audit_hash`; a missing key reads as `undefined`. */
  function PrevHash(e: Envelope): Json {
    if HasKey(e.payload, PREV_KEY) then Lookup(e.payload, PREV_KEY) else Omitted
  }

  // ----- verifyAuditChain -----------------------------------------------------------------

  /** What event `i` must name as its predecessor: null first, then the hash before it. */
  function ExpectedPrev(hash: Hash, events: seq<Envelope>, i: nat): Json
    requires i < |events|
  {
    if i == 0 then Null else Str(AuditEventHash(hash, events[i - 1]))
  }

  predicate Linked(hash: Hash, events: seq<Envelope>, i: nat)
    requires i < |events|
  {
    PrevHash(events[i]) == ExpectedPrev(hash, events, i)
  }

  predicate Accepted(hash: Hash, events: seq<Envelope>) {
    forall i :: 0 <= i < |events| ==> Linked(hash, events, i)
  }

  predicate BreaksFirstAt(hash: Hash, events: seq<Envelope>, i: nat) {
    i < |events| && !Linked(hash, events, i) && forall j :: 0 <= j < i ==> Linked(hash, events, j)
  }

  datatype Verdict = Intact | Broken(brokenAt: Text, expectedPrev: Json, foundPrev: Json)

  predicate ReportsBreakAt(hash: Hash, events: seq<Envelope>, i: nat, verdict: Verdict) {
    BreaksFirstAt(hash, events, i)
    && verdict == Broken(events[i].id, ExpectedPrev(hash, events, i), PrevHash(events[i]))
  }

  method VerifyAuditChain(hash: Hash, events: seq<Envelope>) returns (verdict: Verdict)
    ensures verdict == Intact <==> Accepted(hash, events)
    ensures verdict != Intact ==> exists i :: ReportsBreakAt(hash, events, i, verdict)
  {
    hide AuditEventHash, PrevHash;
    var expectedPrev := Null;
    for i := 0 to |events|
      invariant forall j :: 0 <= j < i ==> Linked(hash, events, j)
      invariant i < |events| ==> expectedPrev == ExpectedPrev(hash, events, i)
    {
      var foundPrev := PrevHash(events[i]);
      if foundPrev != expectedPrev {
        verdict := Broken(events[i].id, expectedPrev, foundPrev);
        assert ReportsBreakAt(hash, events, i, verdict);
        return;
      }
      expectedPrev := Str(AuditEventHash(hash, events[i]));
    }
    return Intact;
  }

  // ----- a chain as it is appended ----------------------------------------------------------

  function SetKey(fields: seq<Field>, k: Text, v: Json): (r: seq<Field>)
    ensures HasKey(r, k) && Lookup(r, k) == v
  {
    if fields == [] then
      assert Field(k, v) in [Field(k, v)];
      [Field(k, v)]
    else if fields[0].key == k then
      assert ([Field(k, v)] + fields[1..])[0] == Field(k, v);
      [Field(k, v)] + fields[1..]
    else
      var rest := SetKey(fields[1..], k, v);
      assert ([fields[0]] + rest)[1..] == rest;
      assert forall f :: f in rest ==> f in [fields[0]] + rest;
      [fields[0]] + rest
  }

  function WithPrev(e: Envelope, prev: Json): Envelope {
    e.(payload := SetKey(e.payload, PREV_KEY, prev))
  }

  lemma PrevOfWithPrev(e: Envelope, prev: Json)
    ensures PrevHash(WithPrev(e, prev)) == prev
  {
  }

  /** Append the drafts in turn, each naming the hash of the event appended before it. */
  function Appended(hash: Hash, chain: seq<Envelope>, drafts: seq<Envelope>): seq<Envelope>
    decreases |drafts|
  {
    if drafts == [] then chain
    else
      var prev := if chain == [] then Null else Str(AuditEventHash(hash, chain[|chain| - 1]));
      Appended(hash, chain + [WithPrev(drafts[0], prev)], drafts[1..])
  }

  lemma {:induction false} AppendedAccepted(hash: Hash, chain: seq<Envelope>, drafts: seq<Envelope>)
    requires Accepted(hash, chain)
    ensures Accepted(hash, Appended(hash, chain, drafts))
    decreases |drafts|
  {
    hide AuditEventHash, PrevHash, SetKey;
    if drafts != [] {
      var prev := if chain == [] then Null else Str(AuditEventHash(hash, chain[|chain| - 1]));
      var next := chain + [WithPrev(drafts[0], prev)];
      PrevOfWithPrev(drafts[0], prev);
      forall i | 0 <= i < |next| ensures Linked(hash, next, i) {
        if i < |chain| {
          assert Linked(hash, chain, i);
        }
      }
      AppendedAccepted(hash, next, drafts[1..]);
    }
  }

  // ----- what a hash fixes ------------------------------------------------------------------

  /** No two texts that UTF-8 carries exactly share a hash. */
  ghost predicate TellsApart(hash: Hash) {
    forall s, t :: WellFormed(s) && WellFormed(t) && hash(s) == hash(t) ==> s == t
  }

  /** Equal in everything but `server_received_at`, payloads up to their JSON normal form. */
  predicate SameEvent(e: Envelope, f: Envelope) {
    && e.(serverReceivedAt := None, payload := []) == f.(serverReceivedAt := None, payload := [])
    && NormalForm(Obj(e.payload)) == NormalForm(Obj(f.payload))
  }

  lemma CoveredDistinct(e: Envelope)
    ensures DistinctKeys(Covered(e))
  {
    var c := Covered(e);
    assert c[2].key[0] == 0x62 && c[3].key[0] == 0x64;
    assert c[6].key[0] == 0x64 && c[7].key[0] == 0x62;
    assert c[9].key[0] == 0x74 && c[12].key[0] == 0x72;
  }

  lemma FieldNormal(a: seq<Field>, b: seq<Field>, i: nat)
    requires DistinctKeys(a) && DistinctKeys(b) && NormalForm(Obj(a)) == NormalForm(Obj(b))
    requires i < |a| && i < |b| && a[i].key == b[i].key
    requires !IsJsonOmitted(a[i].value) && !IsJsonOmitted(b[i].value)
    ensures NormalForm(a[i].value) == NormalForm(b[i].value)
  {
    hide NormalForm, Entries;
    ObjectNormal(a);
    ObjectNormal(b);
    assert a[i] in Entries(a) && b[i] in Entries(b);
  }

  lemma SameTexts(a: seq<Text>, b: seq<Text>)
    requires NormalForm(Arr(Texts(a))) == NormalForm(Arr(Texts(b)))
    ensures a == b
  {
    var p, q := NormalForm(Arr(Texts(a))).items, NormalForm(Arr(Texts(b))).items;
    assert |p| == |a| && |q| == |b|;
    assert forall i :: 0 <= i < |a| ==> p[i] == NStr(a[i]);
    assert forall i :: 0 <= i < |b| ==> q[i] == NStr(b[i]);
  }

  lemma CoveredFields(e: Envelope, f: Envelope)
    requires NormalForm(Obj(Covered(e))) == NormalForm(Obj(Covered(f)))
    ensures forall i :: 0 <= i < 13 ==>
      NormalForm(Covered(e)[i].value) == NormalForm(Covered(f)[i].value)
  {
    hide NormalForm;
    CoveredDistinct(e);
    CoveredDistinct(f);
    forall i | 0 <= i < 13
      ensures NormalForm(Covered(e)[i].value) == NormalForm(Covered(f)[i].value)
    {
      FieldNormal(Covered(e), Covered(f), i);
    }
  }

  lemma SameCovered(e: Envelope, f: Envelope)
    ensures NormalForm(Obj(Covered(e))) == NormalForm(Obj(Covered(f))) <==> SameEvent(e, f)
  {
    if NormalForm(Obj(Covered(e))) == NormalForm(Obj(Covered(f))) {
      CoveredGivesEvent(e, f);
    }
    if SameEvent(e, f) {
      EventGivesCovered(e, f);
    }
  }

  lemma SameText(s: Text, t: Text)
    requires NormalForm(Str(s)) == NormalForm(Str(t))
    ensures s == t
  {
  }

  lemma SameNumber(m: SafeInt, n: SafeInt)
    requires NormalForm(Num(m)) == NormalForm(Num(n))
    ensures m == n
  {
  }

  lemma SameNullable(s: Option<Text>, t: Option<Text>)
    requires NormalForm(Nullable(s)) == NormalForm(Nullable(t))
    ensures s == t
  {
  }

  lemma IdentityBack(e: Envelope, f: Envelope)
    requires forall i :: 0 <= i < 13 ==> NormalForm(Covered(e)[i].value) == NormalForm(Covered(f)[i].value)
    ensures e.id == f.id && e.orgId == f.orgId && e.branchId == f.branchId && e.deviceId == f.deviceId
    ensures e.actorUserId == f.actorUserId && e.timeBasis == f.timeBasis && e.eventType == f.eventType
  {
    hide NormalForm, Ascii, Nullable, Texts;
    var c, d := Covered(e), Covered(f);
    SameText(c[0].value.s, d[0].value.s);
    SameText(c[1].value.s, d[1].value.s);
    SameText(c[2].value.s, d[2].value.s);
    SameText(c[3].value.s, d[3].value.s);
    assert c[4].value == Nullable(e.actorUserId) && d[4].value == Nullable(f.actorUserId);
    SameNullable(e.actorUserId, f.actorUserId);
    SameText(c[8].value.s, d[8].value.s);
    SameText(c[9].value.s, d[9].value.s);
  }

  lemma NumbersBack(e: Envelope, f: Envelope)
    requires forall i :: 0 <= i < 13 ==> NormalForm(Covered(e)[i].value) == NormalForm(Covered(f)[i].value)
    ensures e.lamportSeq == f.lamportSeq && e.deviceCreatedAt == f.deviceCreatedAt
    ensures e.branchCreatedAt == f.branchCreatedAt && e.schemaVersion == f.schemaVersion
  {
    hide NormalForm, Ascii, Nullable, Texts;
    var c, d := Covered(e), Covered(f);
    SameNumber(c[5].value.n, d[5].value.n);
    SameNumber(c[6].value.n, d[6].value.n);
    SameNumber(c[7].value.n, d[7].value.n);
    SameNumber(c[10].value.n, d[10].value.n);
  }

  lemma ContentBack(e: Envelope, f: Envelope)
    requires forall i :: 0 <= i < 13 ==> NormalForm(Covered(e)[i].value) == NormalForm(Covered(f)[i].value)
    ensures NormalForm(Obj(e.payload)) == NormalForm(Obj(f.payload)) && e.refs == f.refs
  {
    hide NormalForm, Ascii, Nullable, Texts;
    var c, d := Covered(e), Covered(f);
    assert c[11].value == Obj(e.payload) && d[11].value == Obj(f.payload);
    assert c[12].value == Arr(Texts(e.refs)) && d[12].value == Arr(Texts(f.refs));
    SameTexts(e.refs, f.refs);
  }

  lemma CoveredGivesEvent(e: Envelope, f: Envelope)
    requires NormalForm(Obj(Covered(e))) == NormalForm(Obj(Covered(f)))
    ensures SameEvent(e, f)
  {
    hide NormalForm, Ascii, Covered;
    CoveredFields(e, f);
    IdentityBack(e, f);
    NumbersBack(e, f);
    ContentBack(e, f);
  }

  lemma EventGivesCovered(e: Envelope, f: Envelope)
    requires SameEvent(e, f)
    ensures NormalForm(Obj(Covered(e))) == NormalForm(Obj(Covered(f)))
  {
    hide NormalForm, Entries, Ascii, DistinctKeys;
    CoveredDistinct(e);
    CoveredDistinct(f);
    var c, d := Covered(e), Covered(f);
    assert SameEntries(c, d);
    CoveredListed(e);
    CoveredListed(f);
    SameEntriesSameNormal(c, c, d, d);
  }

  lemma CoveredListed(e: Envelope)
    ensures Lists(Covered(e), Covered(e))
  {
    hide Ascii;
    var c := Covered(e);
    assert forall i :: 0 <= i < 13 ==> !IsJsonOmitted(c[i].value);
  }

  lemma SameHashSameEvent(hash: Hash, e: Envelope, f: Envelope)
    requires TellsApart(hash) && ValidEnvelope(e) && ValidEnvelope(f)
    ensures AuditEventHash(hash, e) == AuditEventHash(hash, f) <==> SameEvent(e, f)
  {
    hide NormalForm, CanonicalJson, Covered;
    CoveredValid(e);
    CoveredValid(f);
    CanonicalWellFormed(Obj(Covered(e)));
    CanonicalWellFormed(Obj(Covered(f)));
    CanonicalIffSameNormal(Obj(Covered(e)), Obj(Covered(f)));
    SameCovered(e, f);
  }

  lemma CoveredValid(e: Envelope)
    requires ValidEnvelope(e)
    ensures WellKeyed(Obj(Covered(e)))
  {
    CoveredDistinct(e);
    var c := Covered(e);
    assert WellKeyed(c[4].value) && WellKeyed(c[12].value);
  }

  /** What a first event and a later one may name: null, or a text. */
  predicate IsLink(v: Json) {
    v.Null? || v.Str?
  }

  /** Equal payloads name equal predecessors, wherever both name one or say there is none. */
  lemma SamePrev(e: Envelope, f: Envelope)
    requires ValidEnvelope(e) && ValidEnvelope(f) && SameEvent(e, f)
    requires IsLink(PrevHash(e)) && IsLink(PrevHash(f))
    ensures PrevHash(e) == PrevHash(f)
  {
    hide NormalForm, Entries;
    ObjectNormal(e.payload);
    ObjectNormal(f.payload);
    var p, q := Field(PREV_KEY, PrevHash(e)), Field(PREV_KEY, PrevHash(f));
    assert p in Entries(e.payload) && q in Entries(f.payload);
    assert NormalForm(p.value) == NormalForm(q.value);
    NormalOfLink(p.value);
    NormalOfLink(q.value);
  }

  lemma NormalOfLink(v: Json)
    requires IsLink(v)
    ensures NormalForm(v) == if v.Null? then NNull else NStr(v.s)
  {
  }

  // ----- tamper evidence --------------------------------------------------------------------

  /**
   * A chain's last hash fixes the whole of it: two accepted chains that end alike have the same length and the
   * same events, so nothing can be cut off the front or put before it.
   */
  lemma {:induction false} LastHashFixesChain(hash: Hash, a: seq<Envelope>, b: seq<Envelope>)
    requires TellsApart(hash) && a != [] && b != []
    requires (forall e :: e in a ==> ValidEnvelope(e)) && (forall e :: e in b ==> ValidEnvelope(e))
    requires Accepted(hash, a) && Accepted(hash, b)
    requires AuditEventHash(hash, a[|a| - 1]) == AuditEventHash(hash, b[|b| - 1])
    ensures |a| == |b| && forall i :: 0 <= i < |a| ==> SameEvent(a[i], b[i])
    decreases |a|
  {
    hide AuditEventHash, PrevHash, SameEvent, ValidEnvelope;
    var m, n := |a| - 1, |b| - 1;
    SameHashSameEvent(hash, a[m], b[n]);
    assert Linked(hash, a, m) && Linked(hash, b, n);
    SamePrev(a[m], b[n]);
    if m > 0 {
      var a', b' := a[..m], b[..n];
      assert forall i :: 0 <= i < m ==> (Linked(hash, a, i) ==> Linked(hash, a', i));
      assert forall i :: 0 <= i < n ==> (Linked(hash, b, i) ==> Linked(hash, b', i));
      LastHashFixesChain(hash, a', b');
      assert forall i :: 0 <= i < m ==> a[i] == a'[i] && b[i] == b'[i];
    }
  }

  /**
   * Overwrite one event of an accepted chain in place. The chain breaks first at that event if
   * its own link changed; else at the next event, exactly when there is a next event and
   * anything the hash covers changed; and nowhere otherwise.
   */
  lemma EditBreaksNextLink(hash: Hash, events: seq<Envelope>, i: nat, edit: Envelope)
    requires TellsApart(hash) && Accepted(hash, events) && i < |events|
    requires ValidEnvelope(events[i]) && ValidEnvelope(edit)
    ensures PrevHash(edit) != PrevHash(events[i]) ==> BreaksFirstAt(hash, events[i := edit], i)
    ensures PrevHash(edit) == PrevHash(events[i]) && i + 1 < |events| && !SameEvent(events[i], edit) ==>
      BreaksFirstAt(hash, events[i := edit], i + 1)
    ensures PrevHash(edit) == PrevHash(events[i]) && (i + 1 == |events| || SameEvent(events[i], edit)) ==>
      Accepted(hash, events[i := edit])
  {
    hide AuditEventHash, PrevHash, SameEvent, ValidEnvelope;
    var edited := events[i := edit];
    SameHashSameEvent(hash, events[i], edit);
    forall j | 0 <= j < |events| && j != i && j != i + 1 ensures Linked(hash, edited, j) {
      assert Linked(hash, events, j);
    }
    assert Linked(hash, events, i);
    if i + 1 < |events| {
      assert Linked(hash, events, i + 1);
    }
  }

  // ----- what is hashed, name by name ----------------------------------------------------------

  /** A chain names its predecessor under one key of the payload. */
  lemma PrevHashNamed(e: Envelope, v: Json)
    requires DistinctKeys(e.payload)
    ensures Field(Ascii("prev_audit_hash"), v) in e.payload ==> PrevHash(e) == v
    ensures (forall f :: f in e.payload ==> f.key != Ascii("prev_audit_hash")) ==> PrevHash(e) == Omitted
  {
    var f := Field(Ascii("prev_audit_hash"), v);
    if f in e.payload {
      assert HasKey(e.payload, PREV_KEY);
    }
  }

  /** The thirteen names a hash covers; the server's own time of receipt is none of them. */
  function NameAt(i: nat): Text
    requires i < 13
  {
    match i
    case 0 => Ascii("id")
    case 1 => Ascii("org_id")
    case 2 => Ascii("branch_id")
    case 3 => Ascii("device_id")
    case 4 => Ascii("actor_user_id")
    case 5 => Ascii("lamport_seq")
    case 6 => Ascii("device_created_at")
    case 7 => Ascii("branch_created_at")
    case 8 => Ascii("time_basis")
    case 9 => Ascii("type")
    case 10 => Ascii("schema_version")
    case 11 => Ascii("payload")
    case 12 => Ascii("refs")
  }

  /** What the envelope holds under each. */
  function HeldAt(e: Envelope, i: nat): Normal
    requires i < 13
  {
    match i
    case 0 => NStr(e.id)
    case 1 => NStr(e.orgId)
    case 2 => NStr(e.branchId)
    case 3 => NStr(e.deviceId)
    case 4 => if e.actorUserId.None? then NNull else NStr(e.actorUserId.value)
    case 5 => NNum(e.lamportSeq)
    case 6 => NNum(e.deviceCreatedAt)
    case 7 => NNum(e.branchCreatedAt)
    case 8 => NStr(e.timeBasis)
    case 9 => NStr(e.eventType)
    case 10 => NNum(e.schemaVersion)
    case 11 => NormalForm(Obj(e.payload))
    case 12 => NArr(seq(|e.refs|, k requires 0 <= k < |e.refs| => NStr(e.refs[k])))
  }

  /** What a reader of the hashed text finds: exactly those names, each with what the envelope holds under it. */
  ghost predicate Hashed(m: map<Text, Normal>, e: Envelope) {
    && (forall i: nat :: i < 13 ==> NameAt(i) in m && m[NameAt(i)] == HeldAt(e, i))
    && forall k :: k in m ==> exists i: nat :: i < 13 && k == NameAt(i)
  }

  lemma CoveredName(e: Envelope, i: nat)
    requires i < 13
    ensures |Covered(e)| == 13 && Covered(e)[i].key == NameAt(i) && !IsJsonOmitted(Covered(e)[i].value)
  {
    hide Ascii;
  }

  lemma CoveredValue(e: Envelope, i: nat)
    requires i < 13
    ensures NormalForm(Covered(e)[i].value) == HeldAt(e, i)
  {
    hide Ascii, Texts;
    if i == 12 {
      TextsNormal(e.refs);
    } else if i == 11 {
      hide NormalForm;
    }
  }

  lemma TextsNormal(ts: seq<Text>)
    ensures NormalForm(Arr(Texts(ts))) == NArr(seq(|ts|, k requires 0 <= k < |ts| => NStr(ts[k])))
  {
    assert NormalForm(Arr(Texts(ts))).items == seq(|ts|, k requires 0 <= k < |ts| => NStr(ts[k]));
  }

  lemma FieldAt(e: Envelope, i: nat)
    requires i < 13
    ensures var m := NormalForm(Obj(Covered(e))); m.NObj? && NameAt(i) in m.entries && m.entries[NameAt(i)] == HeldAt(e, i)
  {
    hide *;
    CoveredDistinct(e);
    ObjectNormal(Covered(e));
    CoveredName(e, i);
    CoveredValue(e, i);
    assert Covered(e)[i] in Covered(e);
    InEntries(Covered(e), Covered(e)[i]);
  }

  lemma InEntries(fields: seq<Field>, f: Field)
    ensures f in Entries(fields) <==> f in fields && !IsJsonOmitted(f.value)
  {
  }

  lemma OnlyNamed(e: Envelope, k: Text)
    requires NormalForm(Obj(Covered(e))).NObj? && k in NormalForm(Obj(Covered(e))).entries
    ensures exists i: nat :: i < 13 && k == NameAt(i)
  {
    hide *;
    CoveredDistinct(e);
    ObjectNormal(Covered(e));
    var f :| f in Entries(Covered(e)) && f.key == k;
    InEntries(Covered(e), f);
    CoveredName(e, 0);
    var i :| 0 <= i < |Covered(e)| && Covered(e)[i] == f;
    CoveredName(e, i);
  }

  lemma HashedFields(e: Envelope)
    requires ValidEnvelope(e)
    ensures NormalForm(Obj(Covered(e))).NObj? && Hashed(NormalForm(Obj(Covered(e))).entries, e)
  {
    hide NormalForm, Entries, Ascii, NameAt, HeldAt, Covered;
    FieldAt(e, 0);
    var m := NormalForm(Obj(Covered(e))).entries;
    forall i: nat | i < 13 ensures NameAt(i) in m && m[NameAt(i)] == HeldAt(e, i) {
      FieldAt(e, i);
    }
    forall k | k in m ensures exists i: nat :: i < 13 && k == NameAt(i) {
      OnlyNamed(e, k);
    }
  }

  /** The hash is taken over text that reads, with nothing left over, as exactly those fields. */
  lemma HashCovers(hash: Hash, e: Envelope)
    requires ValidEnvelope(e)
    ensures exists t, m :: (AuditEventHash(hash, e) == hash(t) && Read(t) == Some((NObj(m), [])) && Hashed(m, e))
  {
    hide Hashed, Read, CanonicalJson, NormalForm;
    var t := CanonicalJson(Obj(Covered(e)));
    CoveredValid(e);
    ReadBack(Obj(Covered(e)), []);
    assert t + [] == t;
    HashedFields(e);
    assert Read(t) == Some((NObj(NormalForm(Obj(Covered(e))).entries), []));
  }
}
