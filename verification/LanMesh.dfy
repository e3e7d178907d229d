/**
 * `packages/device-config/src/lan-mesh.ts`: the manual peer directory, parsed whole or refused,
 * and the text that shows it to an operator.
 */
module LanMesh {
  import opened Wrappers
  import opened Text16

  datatype Peer = Peer(deviceId: Text, host: Text, port: int)

  datatype Mesh = Mesh(listenHost: Text, listenPort: int, peers: seq<Peer>)

  const COMMA: CodeUnit := 0x2C
  const AT: CodeUnit := 0x40
  const COLON: CodeUnit := 0x3A
  const SPACE: CodeUnit := 0x20

  /** `0.0.0.0`. */
  const ANY_HOST: Text := [0x30, 0x2E, 0x30, 0x2E, 0x30, 0x2E, 0x30]

  /** White space as `trim` and `\s` both understand it. */
  predicate IsSpace(c: CodeUnit) {
    0x09 <= c <= 0x0D || c == 0x20 || c == 0xA0 || c == 0x1680 || 0x2000 <= c <= 0x200A
    || c == 0x2028 || c == 0x2029 || c == 0x202F || c == 0x205F || c == 0x3000 || c == 0xFEFF
  }

  predicate NoSpace(t: Text) {
    forall i :: 0 <= i < |t| ==> !IsSpace(t[i])
  }

  function TrimStart(t: Text): (r: Text)
    ensures |r| <= |t| && r == t[|t| - |r|..] && (r != [] ==> !IsSpace(r[0]))
    ensures forall i :: 0 <= i < |t| - |r| ==> IsSpace(t[i])
  {
    if t != [] && IsSpace(t[0]) then
      var rest := t[1..];
      assert forall i :: 0 < i < |t| ==> t[i] == rest[i - 1];
      TrimStart(rest)
    else t
  }

  function TrimEnd(t: Text): (r: Text)
    ensures |r| <= |t| && r == t[..|r|] && (r != [] ==> !IsSpace(r[|r| - 1]))
    ensures forall i :: |r| <= i < |t| ==> IsSpace(t[i])
  {
    if t != [] && IsSpace(t[|t| - 1]) then TrimEnd(t[..|t| - 1]) else t
  }

  function Trim(t: Text): Text {
    TrimEnd(TrimStart(t))
  }

  /** The first place of a code unit, or the length. */
  function Find(t: Text, c: CodeUnit): (i: nat)
    ensures i <= |t| && c !in t[..i] && (i < |t| ==> t[i] == c)
  {
    if t == [] || t[0] == c then 0 else 1 + Find(t[1..], c)
  }

  /** `split(",")`. */
  function Split(t: Text): (parts: seq<Text>)
    ensures |parts| > 0
    decreases |t|
  {
    var i := Find(t, COMMA);
    if i == |t| then [t] else [t[..i]] + Split(t[i + 1..])
  }

  // ----- one entry --------------------------------------------------------------------------------

  function ParsePort(t: Text): Result<int> {
    if t == [] || !AllDigits(t) then Refused
    else if 1 <= Value(t) <= 65535 then Ok(Value(t))
    else Refused
  }

  /** `^([^@\s]+)@([^:\s]+):(\d+)$`, then the port's range. */
  function ParsePeer(entry: Text): Result<Peer> {
    var at := Find(entry, AT);
    if at == 0 || at == |entry| || !NoSpace(entry[..at]) then Refused
    else
      var rest := entry[at + 1..];
      var colon := Find(rest, COLON);
      if colon == 0 || colon == |rest| || !NoSpace(rest[..colon]) then Refused
      else
        var port :- ParsePort(rest[colon + 1..]);
        Ok(Peer(entry[..at], rest[..colon], port))
  }

  function ParseAll(entries: seq<Text>): (r: Result<seq<Peer>>)
    ensures r.Ok? <==> forall i :: 0 <= i < |entries| ==> ParsePeer(entries[i]).Ok?
    ensures r.Ok? ==> |r.value| == |entries| && forall i :: 0 <= i < |entries| ==> Ok(r.value[i]) == ParsePeer(entries[i])
  {
    if entries == [] then Ok([])
    else
      var first :- ParsePeer(entries[0]);
      var rest :- ParseAll(entries[1..]);
      Ok([first] + rest)
  }

  /** `map(trim)`. */
  function TrimAll(parts: seq<Text>): seq<Text> {
    seq(|parts|, i requires 0 <= i < |parts| => Trim(parts[i]))
  }

  /** `filter(entry !== "")`. */
  function NotBlank(parts: seq<Text>): seq<Text> {
    if parts == [] then []
    else if parts[0] == [] then NotBlank(parts[1..])
    else [parts[0]] + NotBlank(parts[1..])
  }

  function Entries(raw: Text): seq<Text> {
    NotBlank(TrimAll(Split(raw)))
  }

  function ParsePeers(raw: Text): Result<seq<Peer>> {
    ParseAll(Entries(raw))
  }

  /** `resolveLanMesh`: the three settings, each empty when unset; `None` is a device that runs no mesh. */
  function ResolveLanMesh(host: Text, port: Text, peers: Text): Result<Option<Mesh>> {
    var rawPort := Trim(port);
    var rawPeers := Trim(peers);
    var rawHost := Trim(host);
    if rawPort == [] then if rawPeers == [] then Ok(None) else Refused
    else
      var listenPort :- ParsePort(rawPort);
      var directory :- ParsePeers(rawPeers);
      Ok(Some(Mesh(if rawHost == [] then ANY_HOST else rawHost, listenPort, directory)))
  }

  // ----- the directory as an operator is shown it ---------------------------------------------------

  function PeerText(p: Peer): Text
    requires p.port >= 0
  {
    p.deviceId + ([AT] + (p.host + ([COLON] + Decimal(p.port))))
  }

  function DirectoryText(peers: seq<Peer>): Text
    requires forall i :: 0 <= i < |peers| ==> peers[i].port >= 0
  {
    if peers == [] then []
    else if |peers| == 1 then PeerText(peers[0])
    else PeerText(peers[0]) + ([COMMA] + ([SPACE] + DirectoryText(peers[1..])))
  }

  /** A peer that some directory names. */
  predicate Legal(p: Peer) {
    && p.deviceId != [] && NoSpace(p.deviceId) && AT !in p.deviceId && COMMA !in p.deviceId
    && p.host != [] && NoSpace(p.host) && COLON !in p.host && COMMA !in p.host
    && 1 <= p.port <= 65535
  }

  predicate AllLegal(peers: seq<Peer>) {
    forall i :: 0 <= i < |peers| ==> Legal(peers[i])
  }

  // ----- splitting ------------------------------------------------------------------------------------

  lemma FindAt(a: Text, c: CodeUnit, b: Text)
    requires c !in a
    ensures Find(a + ([c] + b), c) == |a|
  {
    var t := a + ([c] + b);
    var i := Find(t, c);
    assert forall k :: 0 <= k < |a| ==> t[k] == a[k];
    assert t[|a|] == c;
    assert forall k :: 0 <= k < i ==> t[k] == t[..i][k];
  }

  lemma SplitFirst(a: Text, b: Text)
    requires COMMA !in a
    ensures Split(a + ([COMMA] + b)) == [a] + Split(b)
  {
    var t := a + ([COMMA] + b);
    FindAt(a, COMMA, b);
    assert t[..|a|] == a && t[|a| + 1..] == b;
  }

  lemma SplitNone(a: Text)
    requires COMMA !in a
    ensures Split(a) == [a]
  {
  }

  function Joined(parts: seq<Text>): Text
    requires parts != []
  {
    if |parts| == 1 then parts[0] else parts[0] + ([COMMA] + Joined(parts[1..]))
  }

  /** `split(",")` cuts at every comma and loses nothing. */
  lemma {:induction false} SplitExact(t: Text)
    ensures Joined(Split(t)) == t
    ensures forall i :: 0 <= i < |Split(t)| ==> COMMA !in Split(t)[i]
    decreases |t|
  {
    var i := Find(t, COMMA);
    if i < |t| {
      SplitExact(t[i + 1..]);
      assert Split(t)[1..] == Split(t[i + 1..]);
      assert t == t[..i] + ([COMMA] + t[i + 1..]);
    }
  }

  lemma TrimPlain(t: Text)
    requires t != [] && !IsSpace(t[0]) && !IsSpace(t[|t| - 1])
    ensures Trim(t) == t && Trim([SPACE] + t) == t
  {
    assert ([SPACE] + t)[1..] == t;
  }

  lemma TrimKeeps(t: Text, c: CodeUnit)
    requires c !in t
    ensures c !in Trim(t)
  {
  }

  // ----- one peer -------------------------------------------------------------------------------------

  /**
   * An entry names a peer exactly when it is the id, `@`, the host, `:` and a run of digits for the
   * port; so no entry has two readings.
   */
  lemma PeerShape(p: Peer, digits: Text)
    requires p.deviceId != [] && NoSpace(p.deviceId) && AT !in p.deviceId
    requires p.host != [] && NoSpace(p.host) && COLON !in p.host
    requires digits != [] && AllDigits(digits) && Value(digits) == p.port && 1 <= p.port <= 65535
    ensures ParsePeer(p.deviceId + ([AT] + (p.host + ([COLON] + digits)))) == Ok(p)
  {
    var rest := p.host + ([COLON] + digits);
    var t := p.deviceId + ([AT] + rest);
    FindAt(p.deviceId, AT, rest);
    assert t[..|p.deviceId|] == p.deviceId && t[|p.deviceId| + 1..] == rest;
    FindAt(p.host, COLON, digits);
    assert rest[..|p.host|] == p.host && rest[|p.host| + 1..] == digits;
  }

  function PortDigits(entry: Text): Text
    requires ParsePeer(entry).Ok?
  {
    var rest := entry[Find(entry, AT) + 1..];
    rest[Find(rest, COLON) + 1..]
  }

  /** The pieces an accepted entry was cut into. */
  lemma PeerParts(entry: Text)
    requires ParsePeer(entry).Ok?
    ensures var at := Find(entry, AT);
      && 0 < at < |entry| && NoSpace(entry[..at])
      && var rest := entry[at + 1..];
        var colon := Find(rest, COLON);
        && 0 < colon < |rest| && NoSpace(rest[..colon])
        && ParsePeer(entry).value == Peer(entry[..at], rest[..colon], Value(PortDigits(entry)))
        && PortDigits(entry) == rest[colon + 1..] && PortDigits(entry) != [] && AllDigits(PortDigits(entry))
        && 1 <= Value(PortDigits(entry)) <= 65535
  {
    hide NoSpace, Value, Find, AllDigits;
  }

  lemma PeerShaped(entry: Text)
    requires ParsePeer(entry).Ok?
    ensures var p := ParsePeer(entry).value;
      && p.deviceId != [] && NoSpace(p.deviceId) && AT !in p.deviceId
      && p.host != [] && NoSpace(p.host) && COLON !in p.host
      && PortDigits(entry) != [] && AllDigits(PortDigits(entry))
      && Value(PortDigits(entry)) == p.port && 1 <= p.port <= 65535
      && entry == p.deviceId + ([AT] + (p.host + ([COLON] + PortDigits(entry))))
  {
    PeerParts(entry);
    hide *;
    var rest := entry[Find(entry, AT) + 1..];
    FindCuts(entry, AT);
    FindCuts(rest, COLON);
  }

  lemma FindCuts(t: Text, c: CodeUnit)
    requires Find(t, c) < |t|
    ensures t == t[..Find(t, c)] + ([c] + t[Find(t, c) + 1..]) && c !in t[..Find(t, c)]
  {
    hide Find;
    CutAt(t, Find(t, c));
  }

  lemma CutAt(t: Text, i: nat)
    requires i < |t|
    ensures t == t[..i] + ([t[i]] + t[i + 1..])
  {
  }

  lemma NamedPeerLegal(entry: Text)
    requires ParsePeer(entry).Ok? && COMMA !in entry
    ensures Legal(ParsePeer(entry).value)
  {
    PeerShaped(entry);
    var p := ParsePeer(entry).value;
    var rest := p.host + ([COLON] + PortDigits(entry));
    assert forall i :: 0 <= i < |p.deviceId| ==> p.deviceId[i] == entry[i];
    assert forall i :: 0 <= i < |p.host| ==> p.host[i] == rest[i] == entry[|p.deviceId| + 1 + i];
  }

  lemma PeerReadBack(p: Peer)
    requires Legal(p)
    ensures ParsePeer(PeerText(p)) == Ok(p)
  {
    ValueOfDecimal(p.port);
    PeerShape(p, Decimal(p.port));
  }

  lemma PeerTextPlain(p: Peer)
    requires Legal(p)
    ensures PeerText(p) != [] && NoSpace(PeerText(p)) && COMMA !in PeerText(p)
  {
    assert NoSpace(Decimal(p.port)) && COMMA !in Decimal(p.port);
  }

  // ----- the whole directory --------------------------------------------------------------------------

  /** The places of `parts` that are not blank, in order. */
  function Kept(parts: seq<Text>): (at: seq<nat>)
    ensures forall j :: 0 <= j < |at| ==> at[j] < |parts|
  {
    if parts == [] then []
    else
      var at := Kept(parts[..|parts| - 1]);
      if parts[|parts| - 1] == [] then at else at + [|parts| - 1]
  }

  lemma {:induction false} KeptExact(parts: seq<Text>)
    ensures forall i, j :: 0 <= i < j < |Kept(parts)| ==> Kept(parts)[i] < Kept(parts)[j]
    ensures forall k: nat :: k in Kept(parts) <==> k < |parts| && parts[k] != []
  {
    if parts != [] {
      KeptExact(parts[..|parts| - 1]);
    }
  }

  /** One piece, if it is not blank. */
  function NonBlank(piece: Text): seq<Text> {
    if piece == [] then [] else [piece]
  }

  lemma NotBlankFirst(a: seq<Text>)
    requires a != []
    ensures NotBlank(a) == NonBlank(a[0]) + NotBlank(a[1..])
  {
  }

  lemma {:induction false} NotBlankConcat(a: seq<Text>, b: seq<Text>)
    ensures NotBlank(a + b) == NotBlank(a) + NotBlank(b)
  {
    if a == [] {
      assert a + b == b;
    } else {
      hide *;
      NotBlankConcat(a[1..], b);
      NotBlankFirst(a);
      NotBlankFirst(a + b);
      FirstOfConcat(a, b);
      Regroup(NonBlank(a[0]), NotBlank(a[1..]), NotBlank(b));
    }
  }

  lemma FirstOfConcat(a: seq<Text>, b: seq<Text>)
    requires a != []
    ensures (a + b)[0] == a[0] && (a + b)[1..] == a[1..] + b
  {
  }

  lemma Regroup(a: seq<Text>, b: seq<Text>, c: seq<Text>)
    ensures a + (b + c) == (a + b) + c
  {
  }

  lemma {:induction false} NotBlankKept(parts: seq<Text>)
    ensures |NotBlank(parts)| == |Kept(parts)|
    ensures forall j :: 0 <= j < |Kept(parts)| ==> NotBlank(parts)[j] == parts[Kept(parts)[j]]
  {
    if parts != [] {
      var front := parts[..|parts| - 1];
      NotBlankKept(front);
      NotBlankConcat(front, [parts[|parts| - 1]]);
      assert parts == front + [parts[|parts| - 1]];
    }
  }

  /**
   * All or nothing: an accepted directory has one peer for every comma-separated piece that is not
   * blank, in the order they were typed, and a refused one has a piece that names no peer.
   */
  lemma AllOrNothing(raw: Text)
    ensures match ParsePeers(raw)
      case Refused =>
        exists i :: 0 <= i < |Split(raw)| && Trim(Split(raw)[i]) != [] && ParsePeer(Trim(Split(raw)[i])).Refused?
      case Ok(peers) =>
        var at := Kept(TrimAll(Split(raw)));
        && |peers| == |at|
        && (forall k: nat :: k in at <==> k < |Split(raw)| && Trim(Split(raw)[k]) != [])
        && (forall i, j :: 0 <= i < j < |at| ==> at[i] < at[j])
        && (forall j :: 0 <= j < |at| ==> ParsePeer(Trim(Split(raw)[at[j]])) == Ok(peers[j]))
  {
    hide Split, Trim, Kept, NotBlank, ParsePeer, ParseAll;
    var parts := TrimAll(Split(raw));
    KeptExact(parts);
    NotBlankKept(parts);
    if ParsePeers(raw).Refused? {
      var j :| 0 <= j < |Entries(raw)| && ParsePeer(Entries(raw)[j]).Refused?;
      assert Kept(parts)[j] in Kept(parts);
    }
  }

  lemma {:induction false} DirectoryRead(peers: seq<Peer>)
    requires peers != [] && AllLegal(peers)
    ensures ParseAll(Entries(DirectoryText(peers))) == Ok(peers)
    ensures ParseAll(Entries([SPACE] + DirectoryText(peers))) == Ok(peers)
  {
    hide PeerText, IsSpace, NoSpace, Trim, ParsePeer, Split, Entries;
    var first := PeerText(peers[0]);
    PeerReadBack(peers[0]);
    PeerEntry(peers[0]);
    var spaced := [SPACE] + first;
    if |peers| == 1 {
      OnlyOne(first, first);
      OnlyOne(spaced, first);
      ParseOneMore(first, peers[0], [], []);
      assert [first] + [] == [first] && DirectoryText(peers) == first;
      assert [peers[0]] + [] == [peers[0]];
      assert peers == [peers[0]];
    } else {
      var rest := [SPACE] + DirectoryText(peers[1..]);
      DirectoryRead(peers[1..]);
      assert [SPACE] + DirectoryText(peers) == spaced + ([COMMA] + rest);
      OneMore(first, first, rest);
      OneMore(spaced, first, rest);
      ParseOneMore(first, peers[0], Entries(rest), peers[1..]);
      assert Entries(DirectoryText(peers)) == [first] + Entries(rest);
      assert peers == [peers[0]] + peers[1..];
    }
  }

  lemma PeerEntry(p: Peer)
    requires Legal(p)
    ensures PeerText(p) != [] && COMMA !in PeerText(p) && COMMA !in [SPACE] + PeerText(p)
    ensures Trim(PeerText(p)) == PeerText(p) == Trim([SPACE] + PeerText(p))
  {
    PeerTextPlain(p);
    TrimPlain(PeerText(p));
  }

  lemma ParseOneMore(entry: Text, p: Peer, entries: seq<Text>, peers: seq<Peer>)
    requires ParsePeer(entry) == Ok(p) && ParseAll(entries) == Ok(peers)
    ensures ParseAll([entry] + entries) == Ok([p] + peers)
  {
    hide ParsePeer;
    assert ([entry] + entries)[1..] == entries;
  }

  lemma OnlyOne(piece: Text, entry: Text)
    requires COMMA !in piece && Trim(piece) == entry != []
    ensures Entries(piece) == [entry]
  {
    hide Trim, Split;
    SplitNone(piece);
    assert TrimAll([piece]) == [entry];
    assert [entry][1..] == [] && NotBlank([entry][1..]) == [];
    assert NotBlank([entry]) == [[entry][0]] + NotBlank([entry][1..]);
  }

  lemma OneMore(piece: Text, entry: Text, rest: Text)
    requires COMMA !in piece && Trim(piece) == entry != []
    ensures Entries(piece + ([COMMA] + rest)) == [entry] + Entries(rest)
  {
    hide Trim, Split;
    SplitFirst(piece, rest);
    var trimmed := [entry] + TrimAll(Split(rest));
    assert TrimAll([piece] + Split(rest)) == trimmed;
    assert trimmed[1..] == TrimAll(Split(rest));
  }

  /** What an operator is shown is what the parser would read: the same peers, in the same order. */
  lemma DirectoryReadBack(peers: seq<Peer>)
    requires peers != [] && AllLegal(peers)
    ensures ParsePeers(DirectoryText(peers)) == Ok(peers)
  {
    DirectoryRead(peers);
  }

  /**
   * A list of peers is some directory's reading exactly when every peer in it is legal, so the printed
   * text of any directory the device accepted reads back as what the device holds.
   */
  lemma ReadablePeers(peers: seq<Peer>)
    ensures (exists raw :: ParsePeers(raw) == Ok(peers)) <==> AllLegal(peers)
  {
    if AllLegal(peers) {
      if peers == [] {
        SplitNone([]);
        assert ParsePeers([]) == Ok(peers);
      } else {
        DirectoryReadBack(peers);
      }
    }
    forall raw | ParsePeers(raw) == Ok(peers)
      ensures AllLegal(peers)
    {
      ReadPeersLegal(raw);
    }
  }

  lemma ReadPeersLegal(raw: Text)
    requires ParsePeers(raw).Ok?
    ensures AllLegal(ParsePeers(raw).value)
  {
    var peers := ParsePeers(raw).value;
    var at := Kept(TrimAll(Split(raw)));
    AllOrNothing(raw);
    SplitExact(raw);
    forall j | 0 <= j < |peers|
      ensures Legal(peers[j])
    {
      TrimKeeps(Split(raw)[at[j]], COMMA);
      NamedPeerLegal(Trim(Split(raw)[at[j]]));
    }
  }

  /**
   * No mesh comes only from a blank port and blank peers; a mesh always has a port in range, a host and
   * legal peers, and printing its peers back into the setting resolves to the same mesh.
   */
  lemma MeshResolved(host: Text, port: Text, peers: Text)
    ensures ResolveLanMesh(host, port, peers) == Ok(None) <==> Trim(port) == [] && Trim(peers) == []
    ensures match ResolveLanMesh(host, port, peers)
      case Ok(Some(mesh)) =>
        && 1 <= mesh.listenPort <= 65535 && mesh.listenHost != [] && AllLegal(mesh.peers)
        && (mesh.peers != [] ==> ResolveLanMesh(host, port, DirectoryText(mesh.peers)) == Ok(Some(mesh)))
      case _ => true
  {
    hide Trim, ParsePeers, Legal, DirectoryText, AllDigits, Value;
    if ResolveLanMesh(host, port, peers).Ok? && ResolveLanMesh(host, port, peers).value.Some? {
      ReadPeersLegal(Trim(peers));
      if ResolveLanMesh(host, port, peers).value.value.peers != [] {
        DirectoryTrimmed(ResolveLanMesh(host, port, peers).value.value.peers);
      }
    }
  }

  lemma DirectoryTrimmed(peers: seq<Peer>)
    requires peers != [] && AllLegal(peers)
    ensures ParsePeers(Trim(DirectoryText(peers))) == Ok(peers)
  {
    hide Trim, ParsePeers, DirectoryText;
    DirectoryReadBack(peers);
    DirectoryEnds(peers);
    TrimPlain(DirectoryText(peers));
  }

  lemma {:induction false} DirectoryEnds(peers: seq<Peer>)
    requires peers != [] && AllLegal(peers)
    ensures var t := DirectoryText(peers); t != [] && !IsSpace(t[0]) && !IsSpace(t[|t| - 1])
  {
    PeerTextPlain(peers[0]);
    if |peers| > 1 {
      DirectoryEnds(peers[1..]);
    }
  }

  // ----- what a device resolves to -------------------------------------------------------------------

  /** White space: the tab family, the space, the no-break and typographic spaces, the separators, the byte order mark. */
  lemma SpaceUnits(c: CodeUnit)
    ensures IsSpace(c) <==> c in {
      0x09, 0x0A, 0x0B, 0x0C, 0x0D, 0x20, 0xA0, 0x1680, 0x2000, 0x2001, 0x2002, 0x2003, 0x2004, 0x2005, 0x2006, 0x2007, 0x2008, 0x2009,
      0x200A, 0x2028, 0x2029, 0x202F, 0x205F, 0x3000, 0xFEFF }
  {
  }

  /** Trimming takes white space off both ends and nothing else. */
  lemma TrimExact(t: Text)
    ensures exists i, j :: 0 <= i <= j <= |t| && IsTrimmed(t, i, j) && Trim(t) == t[i..j]
  {
    hide IsSpace, TrimStart, TrimEnd;
    var s := TrimStart(t);
    var r := TrimEnd(s);
    var i := |t| - |s|;
    var j := i + |r|;
    assert forall k :: 0 <= k < |s| ==> s[k] == t[i + k];
    assert t[i..j] == r;
    forall k | j <= k < |t| ensures IsSpace(t[k]) {
      assert s[k - i] == t[k];
    }
    assert IsTrimmed(t, i, j);
  }

  /** White space before `i` and from `j` on, and none at either end between. */
  predicate IsTrimmed(t: Text, i: int, j: int)
    requires 0 <= i <= j <= |t|
  {
    && (forall k :: 0 <= k < i ==> IsSpace(t[k])) && (forall k :: j <= k < |t| ==> IsSpace(t[k]))
    && (i < j ==> !IsSpace(t[i]) && !IsSpace(t[j - 1]))
  }

  lemma AnyHost()
    ensures ANY_HOST == Ascii("0.0.0.0")
  {
  }

  /**
   * No port and no peers is no mesh; peers without a port are refused. Otherwise the port must be a run of
   * digits worth 1 to 65535 and every peer readable, and the mesh listens there, on the host given or on all.
   */
  lemma MeshExact(host: Text, port: Text, peers: Text)
    ensures var r, p := ResolveLanMesh(host, port, peers), Trim(port);
      && (r == Ok(None) <==> p == [] && Trim(peers) == [])
      && (r.Ok? && r.value.Some? <==> p != [] && AllDigits(p) && 1 <= Value(p) <= 65535 && ParsePeers(Trim(peers)).Ok?)
      && (r.Ok? && r.value.Some? ==>
            r.value.value == Mesh(if Trim(host) == [] then ANY_HOST else Trim(host), Value(p), ParsePeers(Trim(peers)).value))
  {
    hide Trim, ParsePeers, Value, AllDigits;
  }
}
