/**
 * The tracker's two HTTP actions (app/controllers/tracker_controller.rb).
 *
 * `announce` is a transition of the store: given the request parameters,
 * the connection address and the clock reading, it yields a reply and the
 * next store. `scrape` only reads the store. Replies are rendered as
 * bencoded bodies with an HTTP status.
 *
 * Request parameters arrive already parsed: a text parameter is nil or its
 * bytes, a numeric parameter is nil when blank and its integer value
 * (`to_i`) otherwise.
 */
module Tracker {
  import opened Text
  import opened Bencode
  import InfoHash
  import UuidCast
  import Compact
  import opened PeerModel
  import opened TorrentModel
  import opened UserModel
  import opened Store
  import Jobs

  // ---------------------------------------------------------------------
  // Replies
  // ---------------------------------------------------------------------

  /** What an action answers: a bencoded value (200), a failure reason
      (`render_error`, 400), or an exception that escapes the action (500). */
  datatype Reply = Success(value: BValue) | Failure(message: Bytes) | ServerError

  datatype Http = Http(status: int, body: Bytes)

  const FailureReason: Bytes := Ascii("failure reason")

  /** `render_error`: status 400 and the dictionary `{failure reason: message}`. */
  function RenderError(message: Bytes): Http {
    Http(400, Encode(BDict([(FailureReason, BStr(message))])))
  }

  /** The response a reply becomes. The body of the 500 page is the
      framework's and is not modelled. */
  function Render(r: Reply): Http {
    match r
    case Success(v) => Http(200, Encode(v))
    case Failure(m) => RenderError(m)
    case ServerError => Http(500, [])
  }

  // ---------------------------------------------------------------------
  // Announce parameters
  // ---------------------------------------------------------------------

  datatype AnnounceParams = AnnounceParams(
    infoHash: Option<Bytes>,
    peerId: Option<Bytes>,
    port: Option<int>,
    uploaded: Option<int>,
    downloaded: Option<int>,
    left: Option<int>,
    event: Option<Bytes>,
    userId: Option<Bytes>)

  /** `blank?` of a text parameter. */
  predicate BlankText(o: Option<Bytes>) {
    o.None? || Blank(o.value)
  }

  /** The required parameters, in the order the action lists them. */
  const ParamNames: seq<Bytes> := [
    Ascii("info_hash"), Ascii("peer_id"), Ascii("port"), Ascii("uploaded"),
    Ascii("downloaded"), Ascii("left"), Ascii("user_id")]

  /** For each required parameter, whether it is blank. */
  function BlankFlags(p: AnnounceParams): (r: seq<bool>)
    ensures |r| == |ParamNames|
  {
    [BlankText(p.infoHash), BlankText(p.peerId), p.port.None?, p.uploaded.None?,
     p.downloaded.None?, p.left.None?, BlankText(p.userId)]
  }

  /** The names whose flag is set, in order (Array#select). */
  function Select(names: seq<Bytes>, flags: seq<bool>): (r: seq<Bytes>)
    requires |names| == |flags|
    ensures |r| <= |names|
  {
    if |names| == 0 then []
    else (if flags[0] then [names[0]] else []) + Select(names[1..], flags[1..])
  }

  /** `missing_params`. */
  function MissingParams(p: AnnounceParams): seq<Bytes> {
    Select(ParamNames, BlankFlags(p))
  }

  function MissingMessage(missing: seq<Bytes>): Bytes {
    Ascii("Missing required parameters: ") + JoinBy(missing, Ascii(", "))
  }

  const TorrentNotFound: Bytes := Ascii("Torrent not found")
  const UserNotFound: Bytes := Ascii("User not found")
  const FailedToUpdate: Bytes := Ascii("Failed to update peer")
  const NoInfoHash: Bytes := Ascii("No info_hash provided")

  // ---------------------------------------------------------------------
  // Announce
  // ---------------------------------------------------------------------

  /** An announce that passed the parameter, torrent and user checks. */
  datatype Request = Request(
    torrent: Torrent,
    userId: Uuid,
    peerId: Bytes,
    ip: Bytes,
    port: int,
    uploaded: int,
    downloaded: int,
    left: int,
    event: Option<Bytes>)

  datatype Checked = Refused(message: Bytes) | Accepted(req: Request)

  /** The checks of lines 4-31, in order: missing parameters, unknown
      torrent, unknown user. The user is looked up by the id the request's
      text casts to, and that id is the one the row is written with. */
  function Check(st: State, p: AnnounceParams, remoteIp: Bytes): (r: Checked)
    ensures r.Accepted? ==> r.req.torrent in st.torrents && r.req.userId in st.users
  {
    if true in BlankFlags(p) then Refused(MissingMessage(MissingParams(p)))
    else match TorrentByHash(st.torrents, InfoHash.Normalize(p.infoHash.value))
      case None => Refused(TorrentNotFound)
      case Some(i) =>
        var uid := UuidCast.Cast(p.userId.value);
        if uid.None? || uid.value !in st.users then Refused(UserNotFound)
        else Accepted(Request(st.torrents[i], uid.value, p.peerId.value, remoteIp, p.port.value,
                              p.uploaded.value, p.downloaded.value, p.left.value, p.event))
  }

  /** Whether a row is the one `find_or_initialize_by` looks for. */
  predicate Matches(q: Peer, req: Request) {
    q.torrentId == req.torrent.id && q.peerId == req.peerId && q.ip == req.ip
      && q.port == req.port && q.userId == req.userId
  }

  /** `torrent.peers.find_or_initialize_by(...)`: the index of the matching
      row, if there is one. */
  function FindPeer(ps: seq<Peer>, req: Request): (r: Option<nat>)
    ensures r.Some? ==> r.value < |ps| && Matches(ps[r.value], req)
    ensures r.None? ==> forall i | 0 <= i < |ps| :: !Matches(ps[i], req)
  {
    if |ps| == 0 then None
    else if Matches(ps[|ps| - 1], req) then Some(|ps| - 1)
    else FindPeer(ps[..|ps| - 1], req)
  }

  /** The row after `assign_attributes`: the lookup's key, the reported
      counters and event, and `last_announce = now`. */
  function Row(req: Request, now: int): Peer {
    Peer(req.torrent.id, req.userId, req.peerId, req.ip, req.port,
         req.uploaded, req.downloaded, req.left, req.event, now)
  }

  /** `update_stats!` when either delta is positive (lines 53-55). */
  function Ledger(users: map<Uuid, User>, uid: Uuid, du: int, dd: int): map<Uuid, User> {
    if (du > 0 || dd > 0) && uid in users then users[uid := UpdateStats(users[uid], du, dd)] else users
  }

  /** Whether some row already holds the unique-index value of `row`. */
  predicate SlotTaken(ps: seq<Peer>, row: Peer) {
    exists i | 0 <= i < |ps| :: SameSlot(ps[i], row)
  }

  function Remove(ps: seq<Peer>, i: nat): (r: seq<Peer>)
    requires i < |ps|
    ensures |r| == |ps| - 1
    ensures forall q | q in r :: q in ps
  {
    ps[..i] + ps[i + 1..]
  }

  const Interval: int := 1800
  const PeerLimit: int := 50

  const IntervalKey: Bytes := Ascii("interval")
  const CompleteKey: Bytes := Ascii("complete")
  const IncompleteKey: Bytes := Ascii("incomplete")
  const DownloadedKey: Bytes := Ascii("downloaded")
  const PeersKey: Bytes := Ascii("peers")
  const FilesKey: Bytes := Ascii("files")

  /** `torrent.peers.active.limit(50)`: the first 50 active peers, in row order. */
  function Listed(ps: seq<Peer>, tid: Uuid, now: int): (r: seq<Peer>)
    ensures |r| <= PeerLimit
  {
    var act := Jobs.ActiveOf(ps, tid, now);
    if |act| <= PeerLimit then act else act[..PeerLimit]
  }

  /** `pluck(:ip, :port)`. */
  function Addrs(ps: seq<Peer>): (r: seq<Compact.Addr>)
    ensures |r| == |ps|
    ensures forall i | 0 <= i < |ps| :: r[i] == Compact.Addr(ps[i].ip, ps[i].port)
  {
    seq(|ps|, i requires 0 <= i < |ps| => Compact.Addr(ps[i].ip, ps[i].port))
  }

  /** The listed peers of a table of valid rows are valid rows of the torrent. */
  lemma ListedFacts(ps: seq<Peer>, tid: Uuid, now: int)
    requires AllValid(ps)
    ensures forall q | q in Listed(ps, tid, now) :: q in ps && q.torrentId == tid && Active(now, q)
    ensures Compact.AllDottedQuad(Addrs(Listed(ps, tid, now)))
  {
    var act := Jobs.ActiveOf(ps, tid, now);
    forall q | q in Listed(ps, tid, now) ensures q in ps && q.torrentId == tid && Active(now, q) {
      assert q in act;
      FilterMember(ps, Jobs.ActiveIn(tid, now), q);
    }
    var l := Listed(ps, tid, now);
    forall i | 0 <= i < |l| ensures Compact.DottedQuad(l[i].ip) {
      assert l[i] in l;
      var k :| 0 <= k < |ps| && ps[k] == l[i];
    }
  }

  /** The announce response of lines 71-76. */
  function ResponseValue(t: Torrent, addrs: seq<Compact.Addr>): BValue
    requires Compact.AllDottedQuad(addrs)
  {
    BDict([
      (IntervalKey, BInt(Interval)),
      (CompleteKey, BInt(t.seeders)),
      (IncompleteKey, BInt(t.leechers)),
      (PeersKey, BStr(Compact.EncodePeers(addrs)))])
  }

  datatype Outcome = Outcome(reply: Reply, next: State)

  /** The response built from the store after the write (lines 69-78). */
  function Respond(st: State, t: Torrent, now: int): (r: Outcome)
    requires AllValid(st.peers)
    ensures r.next == st && r.reply.Success?
  {
    ListedFacts(st.peers, t.id, now);
    Outcome(Success(ResponseValue(t, Addrs(Listed(st.peers, t.id, now)))), st)
  }

  /** Lines 57-66: destroy on `stopped`, otherwise save; each write enqueues
      one recount of the torrent. A save that breaks the unique index raises
      instead of returning false. */
  function Persist(st: State, found: Option<nat>, row: Peer, t: Torrent, now: int): (r: Outcome)
    requires AllValid(st.peers)
    requires found.Some? ==> found.value < |st.peers|
    ensures r.next.torrents == st.torrents && r.next.users == st.users
  {
    if row.event == Some(Stopped) then
      var peers := if found.Some? then Remove(st.peers, found.value) else st.peers;
      Respond(st.(peers := peers, jobs := st.jobs + [t.id]), t, now)
    else if !PeerModel.Valid(row) then Outcome(Failure(FailedToUpdate), st)
    else if found.Some? then
      Respond(st.(peers := st.peers[found.value := row], jobs := st.jobs + [t.id]), t, now)
    else if SlotTaken(st.peers, row) then Outcome(ServerError, st)
    else Respond(st.(peers := st.peers + [row], jobs := st.jobs + [t.id]), t, now)
  }

  /** The deltas of lines 41-42: reported totals minus the row's previous
      totals, which are 0 (the column defaults) for a new row. */
  function Deltas(ps: seq<Peer>, found: Option<nat>, req: Request): (int, int)
    requires found.Some? ==> found.value < |ps|
  {
    if found.Some? then (req.uploaded - ps[found.value].uploaded, req.downloaded - ps[found.value].downloaded)
    else (req.uploaded, req.downloaded)
  }

  /** Lines 33-66 for a request that passed the checks. */
  function Apply(st: State, req: Request, now: int): (r: Outcome)
    requires AllValid(st.peers)
    ensures r.next.torrents == st.torrents
  {
    var found := FindPeer(st.peers, req);
    var d := Deltas(st.peers, found, req);
    var st1 := st.(users := Ledger(st.users, req.userId, d.0, d.1));
    Persist(st1, found, Row(req, now), req.torrent, now)
  }

  /** `announce`. The store's rows all passed their validations when they
      were written, which the response's address encoding relies on. */
  function Announce(st: State, p: AnnounceParams, remoteIp: Bytes, now: int): (r: Outcome)
    requires AllValid(st.peers)
    ensures r.next.torrents == st.torrents
  {
    match Check(st, p, remoteIp)
    case Refused(m) => Outcome(Failure(m), st)
    case Accepted(req) => Apply(st, req, now)
  }

  // ---------------------------------------------------------------------
  // Scrape
  // ---------------------------------------------------------------------

  /** One torrent's scrape entry (lines 105-109). */
  function Stats(t: Torrent): BValue {
    BDict([
      (CompleteKey, BInt(t.seeders)),
      (IncompleteKey, BInt(t.leechers)),
      (DownloadedKey, BInt(t.completed))])
  }

  /** `files[k] = v` on a Ruby Hash: replaces the value of an existing key
      in place, otherwise appends the entry. */
  function Assign(es: seq<Entry>, k: Bytes, v: BValue): (r: seq<Entry>)
    ensures k in Firsts(r)
  {
    if |es| == 0 then
      var r := [(k, v)];
      assert Firsts(r)[0] == k;
      r
    else if es[0].0 == k then
      var r := [(k, v)] + es[1..];
      assert Firsts(r)[0] == k;
      r
    else
      var rest := Assign(es[1..], k, v);
      var r := [es[0]] + rest;
      assert Firsts(r) == [es[0].0] + Firsts(rest);
      r
  }

  /** The `files` hash after the loop of lines 90-111 over `hashes`. */
  function Files(ts: seq<Torrent>, hashes: seq<Bytes>): seq<Entry> {
    if |hashes| == 0 then []
    else
      var es := Files(ts, hashes[..|hashes| - 1]);
      var raw := hashes[|hashes| - 1];
      match TorrentByHash(ts, InfoHash.Normalize(raw))
      case None => es
      case Some(i) => Assign(es, raw, Stats(ts[i]))
  }

  /** `scrape`, for the list `[params[:info_hash]].flatten.compact`. */
  function Scrape(st: State, hashes: seq<Bytes>): Reply {
    if |hashes| == 0 then Failure(NoInfoHash)
    else Success(BDict([(FilesKey, BDict(Files(st.torrents, hashes)))]))
  }

  // ---------------------------------------------------------------------
  // Properties: rendering
  // ---------------------------------------------------------------------

  /** An error body reads back as the one-entry dictionary carrying the message. */
  lemma RenderErrorReadable(message: Bytes)
    ensures RenderError(message).status == 400
    ensures DecodeAll(RenderError(message).body) == Some(BDict([(FailureReason, BStr(message))]))
  {
    var v := BDict([(FailureReason, BStr(message))]);
    EncodeRoundTrip(v);
    assert Canonical(v);
    CanonFixesCanonical(v);
  }

  // ---------------------------------------------------------------------
  // Properties: the parameter check
  // ---------------------------------------------------------------------

  predicate NamesDistinct(names: seq<Bytes>) {
    forall i, j | 0 <= i < j < |names| :: names[i] != names[j]
  }

  /** With distinct names, a name is selected exactly when its flag is set. */
  lemma {:induction false} SelectMember(names: seq<Bytes>, flags: seq<bool>, k: int)
    requires |names| == |flags| && NamesDistinct(names) && 0 <= k < |names|
    ensures names[k] in Select(names, flags) <==> flags[k]
  {
    var head := if flags[0] then [names[0]] else [];
    assert Select(names, flags) == head + Select(names[1..], flags[1..]);
    if k == 0 {
      assert names[0] !in Select(names[1..], flags[1..]) by {
        forall x | x in Select(names[1..], flags[1..]) ensures x != names[0] {
          SelectFrom(names[1..], flags[1..], x);
        }
      }
    } else {
      SelectMember(names[1..], flags[1..], k - 1);
    }
  }

  /** Everything selected is one of the names. */
  lemma {:induction false} SelectFrom(names: seq<Bytes>, flags: seq<bool>, x: Bytes)
    requires |names| == |flags| && x in Select(names, flags)
    ensures x in names
  {
    if |names| > 0 && !(flags[0] && x == names[0]) {
      SelectFrom(names[1..], flags[1..], x);
    }
  }

  /** Nothing is selected exactly when no flag is set. */
  lemma {:induction false} SelectEmpty(names: seq<Bytes>, flags: seq<bool>)
    requires |names| == |flags|
    ensures Select(names, flags) == [] <==> !(true in flags)
  {
    if |names| > 0 {
      SelectEmpty(names[1..], flags[1..]);
      assert flags == [flags[0]] + flags[1..];
    }
  }

  lemma ParamNamesDistinct()
    ensures NamesDistinct(ParamNames)
  {
    assert ParamNames[0][0] == 105 && ParamNames[1][0] == 112 && ParamNames[2][0] == 112;
    assert ParamNames[3][0] == 117 && ParamNames[4][0] == 100 && ParamNames[5][0] == 108;
    assert ParamNames[6][0] == 117;
    assert ParamNames[1][1] == 101 && ParamNames[2][1] == 111;
    assert ParamNames[3][1] == 112 && ParamNames[6][1] == 115;
  }

  /** The message lists exactly the blank required parameters, and there is
      one exactly when some required parameter is blank. */
  lemma MissingParamsExact(p: AnnounceParams)
    ensures MissingParams(p) == [] <==> !(true in BlankFlags(p))
    ensures forall k | 0 <= k < |ParamNames| :: ParamNames[k] in MissingParams(p) <==> BlankFlags(p)[k]
  {
    SelectEmpty(ParamNames, BlankFlags(p));
    ParamNamesDistinct();
    forall k | 0 <= k < |ParamNames|
      ensures ParamNames[k] in MissingParams(p) <==> BlankFlags(p)[k]
    {
      SelectMember(ParamNames, BlankFlags(p), k);
    }
  }

  /** A blank required parameter refuses the announce before anything is
      written, naming the blank parameters. */
  lemma AnnounceMissing(st: State, p: AnnounceParams, remoteIp: Bytes, now: int)
    requires AllValid(st.peers)
    requires true in BlankFlags(p)
    ensures Announce(st, p, remoteIp, now) == Outcome(Failure(MissingMessage(MissingParams(p))), st)
    ensures MissingParams(p) != []
  {
    MissingParamsExact(p);
  }

  /** The example of the controller's test: port and uploaded left out. */
  lemma MissingExample(p: AnnounceParams, message: Bytes)
    requires !BlankText(p.infoHash) && !BlankText(p.peerId) && !BlankText(p.userId)
    requires p.port.None? && p.uploaded.None? && p.downloaded.Some? && p.left.Some?
    requires message == Ascii("Missing required parameters: port, uploaded")
    ensures MissingMessage(MissingParams(p)) == message
  {
    MissingPortUploaded(p);
    var a, b, sep := ParamNames[2], ParamNames[3], Ascii(", ");
    assert [a, b][1..] == [b];
    assert JoinBy([a, b], sep) == a + sep + b;
    MessageText(a, b, sep, message);
  }

  lemma MissingPortUploaded(p: AnnounceParams)
    requires !BlankText(p.infoHash) && !BlankText(p.peerId) && !BlankText(p.userId)
    requires p.port.None? && p.uploaded.None? && p.downloaded.Some? && p.left.Some?
    ensures MissingParams(p) == [ParamNames[2], ParamNames[3]]
  {
    var flags := BlankFlags(p);
    var n := ParamNames;
    assert flags == [false, false, true, true, false, false, false];
    assert Select(n[6..], flags[6..]) == [];
    assert Select(n[5..], flags[5..]) == [];
    assert Select(n[4..], flags[4..]) == [];
    assert Select(n[3..], flags[3..]) == [n[3]];
    assert Select(n[2..], flags[2..]) == [n[2], n[3]];
    assert Select(n[1..], flags[1..]) == [n[2], n[3]];
  }

  lemma MessageText(a: Bytes, b: Bytes, sep: Bytes, message: Bytes)
    requires a == Ascii("port") && b == Ascii("uploaded") && sep == Ascii(", ")
    requires message == Ascii("Missing required parameters: port, uploaded")
    ensures Ascii("Missing required parameters: ") + (a + sep + b) == message
  {
  }

  /** A hash no torrent holds refuses the announce and writes nothing. */
  lemma AnnounceUnknownTorrent(st: State, p: AnnounceParams, remoteIp: Bytes, now: int)
    requires AllValid(st.peers)
    requires !(true in BlankFlags(p))
    requires forall i | 0 <= i < |st.torrents| :: st.torrents[i].infoHash != InfoHash.Normalize(p.infoHash.value)
    ensures Announce(st, p, remoteIp, now) == Outcome(Failure(TorrentNotFound), st)
  {
  }

  /** A user id that is not a uuid, or names no user, refuses the announce
      and writes nothing. */
  lemma AnnounceUnknownUser(st: State, p: AnnounceParams, remoteIp: Bytes, now: int)
    requires AllValid(st.peers)
    requires !(true in BlankFlags(p))
    requires exists i | 0 <= i < |st.torrents| :: st.torrents[i].infoHash == InfoHash.Normalize(p.infoHash.value)
    requires UuidCast.Cast(p.userId.value).None? || UuidCast.Cast(p.userId.value).value !in st.users
    ensures Announce(st, p, remoteIp, now) == Outcome(Failure(UserNotFound), st)
  {
  }

  /** A request passes the checks exactly when nothing is blank, the hash
      names a torrent and the user id casts to a stored id; it then carries
      that torrent, the cast id and the request's values. */
  lemma CheckAccepts(st: State, p: AnnounceParams, remoteIp: Bytes)
    ensures Check(st, p, remoteIp).Accepted? <==>
      && !(true in BlankFlags(p))
      && (exists i | 0 <= i < |st.torrents| :: st.torrents[i].infoHash == InfoHash.Normalize(p.infoHash.value))
      && UuidCast.Cast(p.userId.value).Some? && UuidCast.Cast(p.userId.value).value in st.users
    ensures Check(st, p, remoteIp).Accepted? ==>
      var req := Check(st, p, remoteIp).req;
      && req.torrent.infoHash == InfoHash.Normalize(p.infoHash.value)
      && req.userId == UuidCast.Cast(p.userId.value).value && req.peerId == p.peerId.value && req.ip == remoteIp
      && req.port == p.port.value && req.uploaded == p.uploaded.value
      && req.downloaded == p.downloaded.value && req.left == p.left.value && req.event == p.event
  {
  }

  /** The user is looked up by the cast id: two spellings of the user id that
      cast alike give the same announce. */
  lemma AnnounceSameUser(st: State, p: AnnounceParams, p2: AnnounceParams, remoteIp: Bytes, now: int)
    requires AllValid(st.peers)
    requires p2 == p.(userId := p2.userId) && p.userId.Some? && p2.userId.Some?
    requires UuidCast.Cast(p.userId.value).Some?
    requires UuidCast.Cast(p2.userId.value) == UuidCast.Cast(p.userId.value)
    ensures Announce(st, p2, remoteIp, now) == Announce(st, p, remoteIp, now)
  {
    UuidCast.AcceptableNotBlank(p.userId.value);
    UuidCast.AcceptableNotBlank(p2.userId.value);
    assert BlankFlags(p2) == BlankFlags(p);
    assert Check(st, p2, remoteIp) == Check(st, p, remoteIp);
  }

  /** A stored user announcing with their id in upper case, in braces or
      without hyphens is the same announce as with the stored id. */
  lemma AnnounceUserSpellings(st: State, p: AnnounceParams, remoteIp: Bytes, now: int, c: Uuid)
    requires Inv(st) && p.userId == Some(c) && c in st.users
    ensures Announce(st, p.(userId := Some(UuidCast.Upcase(c))), remoteIp, now) == Announce(st, p, remoteIp, now)
    ensures Announce(st, p.(userId := Some([UuidCast.OpenBrace] + c + [UuidCast.CloseBrace])), remoteIp, now)
      == Announce(st, p, remoteIp, now)
    ensures Announce(st, p.(userId := Some(UuidCast.Squeeze(c))), remoteIp, now) == Announce(st, p, remoteIp, now)
  {
    UuidCast.CanonicalFormats(c);
    UuidCast.CastSpellings(c);
    AnnounceSameUser(st, p, p.(userId := Some(UuidCast.Upcase(c))), remoteIp, now);
    AnnounceSameUser(st, p, p.(userId := Some([UuidCast.OpenBrace] + c + [UuidCast.CloseBrace])), remoteIp, now);
    AnnounceSameUser(st, p, p.(userId := Some(UuidCast.Squeeze(c))), remoteIp, now);
  }

  // ---------------------------------------------------------------------
  // Properties: what an accepted announce writes
  // ---------------------------------------------------------------------

  /** `update_stats!` under the positive-delta guard: only the announcing
      user changes, by exactly the deltas, and only when one is positive. */
  lemma LedgerEffect(users: map<Uuid, User>, uid: Uuid, du: int, dd: int)
    requires uid in users
    ensures Ledger(users, uid, du, dd).Keys == users.Keys
    ensures forall k | k in users && k != uid :: Ledger(users, uid, du, dd)[k] == users[k]
    ensures var u, u' := users[uid], Ledger(users, uid, du, dd)[uid];
      && u'.id == u.id && u'.email == u.email
      && if du > 0 || dd > 0 then u'.uploaded == u.uploaded + du && u'.downloaded == u.downloaded + dd
         else u' == u
  {
  }

  /** Whatever the announce goes on to do, the user is credited with the
      difference between the reported totals and the row's previous totals
      (0 for a new row), when either difference is positive. */
  lemma AnnounceLedger(st: State, p: AnnounceParams, remoteIp: Bytes, now: int, req: Request)
    requires AllValid(st.peers) && Check(st, p, remoteIp) == Accepted(req)
    ensures Announce(st, p, remoteIp, now).next.users.Keys == st.users.Keys
    ensures forall k | k in st.users && k != req.userId ::
      Announce(st, p, remoteIp, now).next.users[k] == st.users[k]
    ensures var prev := FindPeer(st.peers, req);
      var du := req.uploaded - (if prev.Some? then st.peers[prev.value].uploaded else 0);
      var dd := req.downloaded - (if prev.Some? then st.peers[prev.value].downloaded else 0);
      var u, u' := st.users[req.userId], Announce(st, p, remoteIp, now).next.users[req.userId];
      && u'.id == u.id && u'.email == u.email
      && if du > 0 || dd > 0 then u'.uploaded == u.uploaded + du && u'.downloaded == u.downloaded + dd
         else u' == u
  {
    var d := Deltas(st.peers, FindPeer(st.peers, req), req);
    LedgerEffect(st.users, req.userId, d.0, d.1);
  }

  /** A failed announce writes no peer row and enqueues nothing; a
      successful one enqueues exactly one recount, of the announced torrent. */
  lemma AnnounceEnqueues(st: State, p: AnnounceParams, remoteIp: Bytes, now: int)
    requires AllValid(st.peers)
    ensures var o := Announce(st, p, remoteIp, now);
      !o.reply.Success? ==> o.next.peers == st.peers && o.next.jobs == st.jobs
    ensures var o := Announce(st, p, remoteIp, now);
      o.reply.Success? ==>
        && Check(st, p, remoteIp).Accepted?
        && o.next.jobs == st.jobs + [Check(st, p, remoteIp).req.torrent.id]
  {
  }

  /** `stopped` deletes the announcing row (if there is one), answers with
      the peer list and enqueues a recount; afterwards no row of this peer
      remains. */
  lemma AnnounceStopped(st: State, p: AnnounceParams, remoteIp: Bytes, now: int, req: Request)
    requires Inv(st) && Check(st, p, remoteIp) == Accepted(req)
    requires req.event == Some(Stopped)
    ensures var o := Announce(st, p, remoteIp, now);
      && o.reply.Success?
      && o.next.jobs == st.jobs + [req.torrent.id]
      && |o.next.peers| == |st.peers| - (if FindPeer(st.peers, req).Some? then 1 else 0)
      && (forall q | q in o.next.peers :: q in st.peers)
      && (forall q | q in o.next.peers :: !Matches(q, req))
  {
    var o := Announce(st, p, remoteIp, now);
    var found := FindPeer(st.peers, req);
    assert o.next.peers == if found.Some? then Remove(st.peers, found.value) else st.peers;
    if found.Some? {
      RemoveMatches(st.peers, found.value, req);
    }
  }

  /** With distinct slots, deleting the matching row leaves no match. */
  lemma RemoveMatches(ps: seq<Peer>, i: nat, req: Request)
    requires i < |ps| && Matches(ps[i], req)
    requires forall a, b | 0 <= a < b < |ps| :: !SameSlot(ps[a], ps[b])
    ensures forall q | q in Remove(ps, i) :: !Matches(q, req)
  {
    var r := Remove(ps, i);
    forall q | q in r ensures !Matches(q, req) {
      var k :| 0 <= k < |r| && r[k] == q;
      RemoveIndex(ps, i, k);
    }
  }

  /** A row that fails its validations is not written: the failure reason
      is returned and neither the peers nor the queue change. */
  lemma AnnounceInvalid(st: State, p: AnnounceParams, remoteIp: Bytes, now: int, req: Request)
    requires AllValid(st.peers) && Check(st, p, remoteIp) == Accepted(req)
    requires req.event != Some(Stopped) && !PeerModel.Valid(Row(req, now))
    ensures var o := Announce(st, p, remoteIp, now);
      o.reply == Failure(FailedToUpdate) && o.next.peers == st.peers && o.next.jobs == st.jobs
  {
  }

  /** A re-announce from a known row updates that row in place. */
  lemma AnnounceRefresh(st: State, p: AnnounceParams, remoteIp: Bytes, now: int, req: Request, i: nat)
    requires AllValid(st.peers) && Check(st, p, remoteIp) == Accepted(req)
    requires req.event != Some(Stopped) && PeerModel.Valid(Row(req, now))
    requires FindPeer(st.peers, req) == Some(i)
    ensures var o := Announce(st, p, remoteIp, now);
      && o.reply.Success?
      && |o.next.peers| == |st.peers|
      && o.next.peers[i] == Row(req, now)
      && (forall j | 0 <= j < |st.peers| && j != i :: o.next.peers[j] == st.peers[j])
      && o.next.jobs == st.jobs + [req.torrent.id]
  {
  }

  /** A first announce whose slot is free adds one row at the end. */
  lemma AnnounceJoin(st: State, p: AnnounceParams, remoteIp: Bytes, now: int, req: Request)
    requires AllValid(st.peers) && Check(st, p, remoteIp) == Accepted(req)
    requires req.event != Some(Stopped) && PeerModel.Valid(Row(req, now))
    requires forall j | 0 <= j < |st.peers| :: !SameSlot(st.peers[j], Row(req, now))
    ensures var o := Announce(st, p, remoteIp, now);
      && o.reply.Success?
      && o.next.peers == st.peers + [Row(req, now)]
      && o.next.jobs == st.jobs + [req.torrent.id]
  {
    assert FindPeer(st.peers, req).None? by {
      if FindPeer(st.peers, req).Some? {
        var k := FindPeer(st.peers, req).value;
        assert SameSlot(st.peers[k], Row(req, now));
      }
    }
  }

  /** A first announce whose slot another user's row holds trips the unique
      index: the save raises, and nothing about the peers or the queue changes. */
  lemma AnnounceConflict(st: State, p: AnnounceParams, remoteIp: Bytes, now: int, req: Request, j: int)
    requires AllValid(st.peers) && Check(st, p, remoteIp) == Accepted(req)
    requires req.event != Some(Stopped) && PeerModel.Valid(Row(req, now))
    requires 0 <= j < |st.peers| && SameSlot(st.peers[j], Row(req, now)) && st.peers[j].userId != req.userId
    requires FindPeer(st.peers, req).None?
    ensures var o := Announce(st, p, remoteIp, now);
      o.reply == ServerError && o.next.peers == st.peers && o.next.jobs == st.jobs
  {
  }

  // ---------------------------------------------------------------------
  // Properties: the store invariant
  // ---------------------------------------------------------------------

  lemma RemoveIndex(ps: seq<Peer>, i: nat, k: int)
    requires i < |ps| && 0 <= k < |ps| - 1
    ensures Remove(ps, i)[k] == if k < i then ps[k] else ps[k + 1]
  {
  }

  /** Deleting a row keeps the peer table's guarantees. */
  lemma RemoveKeepsInv(st: State, i: nat)
    requires Inv(st) && i < |st.peers|
    ensures Inv(st.(peers := Remove(st.peers, i)))
  {
    var ps, r := st.peers, Remove(st.peers, i);
    forall a | 0 <= a < |r| ensures r[a] == ps[if a < i then a else a + 1] {
      RemoveIndex(ps, i, a);
    }
  }

  /** The row the announce writes points at an existing torrent and user. */
  lemma RowKeys(st: State, req: Request, now: int)
    requires req.torrent in st.torrents && req.userId in st.users
    ensures Row(req, now).torrentId in TorrentIds(st.torrents) && Row(req, now).userId in st.users
  {
    var k :| 0 <= k < |st.torrents| && st.torrents[k] == req.torrent;
    assert TorrentIds(st.torrents)[k] == req.torrent.id;
  }

  /** Replacing a row by one with the same slot keeps the invariant. */
  lemma ReplaceKeepsInv(st: State, i: nat, row: Peer)
    requires Inv(st) && i < |st.peers| && SameSlot(st.peers[i], row) && PeerModel.Valid(row)
    requires row.torrentId in TorrentIds(st.torrents) && row.userId in st.users
    ensures Inv(st.(peers := st.peers[i := row]))
  {
  }

  /** Appending a valid row whose slot is free keeps the invariant. */
  lemma AppendKeepsInv(st: State, row: Peer)
    requires Inv(st) && PeerModel.Valid(row) && !SlotTaken(st.peers, row)
    requires row.torrentId in TorrentIds(st.torrents) && row.userId in st.users
    ensures Inv(st.(peers := st.peers + [row]))
  {
    var ps := st.peers + [row];
    forall a, b | 0 <= a < b < |ps| ensures !SameSlot(ps[a], ps[b]) {
      if b == |st.peers| {
        assert !SameSlot(st.peers[a], row);
      }
    }
  }

  /** The write step keeps the store invariant. */
  lemma PersistKeepsInv(st: State, req: Request, now: int)
    requires Inv(st) && req.torrent in st.torrents && req.userId in st.users
    ensures Inv(Persist(st, FindPeer(st.peers, req), Row(req, now), req.torrent, now).next)
  {
    var found, row := FindPeer(st.peers, req), Row(req, now);
    var t := req.torrent;
    var o := Persist(st, found, row, t, now);
    RowKeys(st, req, now);
    if row.event == Some(Stopped) {
      if found.Some? {
        RemoveKeepsInv(st, found.value);
        assert o.next == st.(peers := Remove(st.peers, found.value), jobs := st.jobs + [t.id]);
      } else {
        assert o.next == st.(jobs := st.jobs + [t.id]);
      }
    } else if !PeerModel.Valid(row) {
    } else if found.Some? {
      ReplaceKeepsInv(st, found.value, row);
      assert o.next == st.(peers := st.peers[found.value := row], jobs := st.jobs + [t.id]);
    } else if SlotTaken(st.peers, row) {
    } else {
      AppendKeepsInv(st, row);
      assert o.next == st.(peers := st.peers + [row], jobs := st.jobs + [t.id]);
    }
  }

  /** The announce keeps the store invariant, on every path. */
  lemma AnnouncePreservesInv(st: State, p: AnnounceParams, remoteIp: Bytes, now: int)
    requires Inv(st)
    ensures Inv(Announce(st, p, remoteIp, now).next)
  {
    match Check(st, p, remoteIp)
    case Refused(_) =>
    case Accepted(req) =>
      var found := FindPeer(st.peers, req);
      var d := Deltas(st.peers, found, req);
      var st1 := st.(users := Ledger(st.users, req.userId, d.0, d.1));
      LedgerEffect(st.users, req.userId, d.0, d.1);
      assert Inv(st1);
      PersistKeepsInv(st1, req, now);
  }

  // ---------------------------------------------------------------------
  // Properties: the announce response
  // ---------------------------------------------------------------------

  /** A successful write step answers from the store it wrote. */
  lemma PersistSuccess(st: State, found: Option<nat>, row: Peer, t: Torrent, now: int)
    requires AllValid(st.peers)
    requires found.Some? ==> found.value < |st.peers|
    requires Persist(st, found, row, t, now).reply.Success?
    ensures var o := Persist(st, found, row, t, now);
      && AllValid(o.next.peers)
      && Compact.AllDottedQuad(Addrs(Listed(o.next.peers, t.id, now)))
      && o.reply.value == ResponseValue(t, Addrs(Listed(o.next.peers, t.id, now)))
  {
    var o := Persist(st, found, row, t, now);
    var next: State;
    if row.event == Some(Stopped) {
      next := st.(peers := if found.Some? then Remove(st.peers, found.value) else st.peers, jobs := st.jobs + [t.id]);
      assert AllValid(next.peers) by {
        forall q | q in next.peers ensures PeerModel.Valid(q) {
          var k :| 0 <= k < |st.peers| && st.peers[k] == q;
        }
      }
    } else if found.Some? {
      next := st.(peers := st.peers[found.value := row], jobs := st.jobs + [t.id]);
    } else {
      next := st.(peers := st.peers + [row], jobs := st.jobs + [t.id]);
    }
    assert o == Respond(next, t, now);
    ListedFacts(next.peers, t.id, now);
  }

  /** A successful reply is built from the store as written. */
  lemma SuccessFromNext(st: State, p: AnnounceParams, remoteIp: Bytes, now: int, req: Request)
    requires AllValid(st.peers) && Check(st, p, remoteIp) == Accepted(req)
    requires Announce(st, p, remoteIp, now).reply.Success?
    ensures var o := Announce(st, p, remoteIp, now);
      && AllValid(o.next.peers)
      && Compact.AllDottedQuad(Addrs(Listed(o.next.peers, req.torrent.id, now)))
      && o.reply.value == ResponseValue(req.torrent, Addrs(Listed(o.next.peers, req.torrent.id, now)))
  {
    var found := FindPeer(st.peers, req);
    var d := Deltas(st.peers, found, req);
    var st1 := st.(users := Ledger(st.users, req.userId, d.0, d.1));
    assert Announce(st, p, remoteIp, now) == Persist(st1, found, Row(req, now), req.torrent, now);
    PersistSuccess(st1, found, Row(req, now), req.torrent, now);
  }

  /** The peer list of the response, read back: at most 50 endpoints, one
      per listed row, each of an active peer of the torrent. */
  lemma ListedReadBack(ps: seq<Peer>, tid: Uuid, now: int)
    requires AllValid(ps)
    ensures Compact.AllDottedQuad(Addrs(Listed(ps, tid, now)))
    ensures var eps := Compact.DecodePeers(Compact.EncodePeers(Addrs(Listed(ps, tid, now))));
      var act := Jobs.ActiveOf(ps, tid, now);
      && |eps| == (if |act| <= PeerLimit then |act| else PeerLimit)
      && forall e | e in eps :: exists q | q in ps ::
           q.torrentId == tid && Active(now, q) && e == Compact.Seen(Compact.Addr(q.ip, q.port))
  {
    var l := Listed(ps, tid, now);
    var addrs := Addrs(l);
    ListedFacts(ps, tid, now);
    Compact.CompactRoundTrip(addrs);
    var eps := Compact.DecodePeers(Compact.EncodePeers(addrs));
    forall e | e in eps ensures exists q | q in ps ::
      q.torrentId == tid && Active(now, q) && e == Compact.Seen(Compact.Addr(q.ip, q.port))
    {
      var k :| 0 <= k < |eps| && eps[k] == e;
      assert l[k] in l;
    }
  }

  /** The announce response: the re-announce interval, the torrent's stored
      counters, and a compact peer list that reads back as at most 50
      endpoints, each of an active peer of this torrent in the written store. */
  lemma AnnounceResponse(st: State, p: AnnounceParams, remoteIp: Bytes, now: int, req: Request)
    requires AllValid(st.peers) && Check(st, p, remoteIp) == Accepted(req)
    ensures Announce(st, p, remoteIp, now).reply.Success? ==>
      var v := Announce(st, p, remoteIp, now).reply.value;
      && v.BDict? && |v.entries| == 4
      && v.entries[0] == (IntervalKey, BInt(Interval))
      && v.entries[1] == (CompleteKey, BInt(req.torrent.seeders))
      && v.entries[2] == (IncompleteKey, BInt(req.torrent.leechers))
      && v.entries[3].0 == PeersKey && v.entries[3].1.BStr? && |v.entries[3].1.s| % 6 == 0
    ensures Announce(st, p, remoteIp, now).reply.Success? ==>
      var o := Announce(st, p, remoteIp, now);
      var eps := Compact.DecodePeers(o.reply.value.entries[3].1.s);
      var act := Jobs.ActiveOf(o.next.peers, req.torrent.id, now);
      && |eps| == (if |act| <= PeerLimit then |act| else PeerLimit)
      && forall e | e in eps :: exists q | q in o.next.peers ::
           q.torrentId == req.torrent.id && Active(now, q) && e == Compact.Seen(Compact.Addr(q.ip, q.port))
  {
    var o := Announce(st, p, remoteIp, now);
    if o.reply.Success? {
      SuccessFromNext(st, p, remoteIp, now, req);
      ListedReadBack(o.next.peers, req.torrent.id, now);
      assert o.reply.value.entries[3].1.s == Compact.EncodePeers(Addrs(Listed(o.next.peers, req.torrent.id, now)));
    }
  }

  /** Two announces of one peer: the second finds the row the first wrote and
      credits the user with the growth of the reported totals (the
      controller test's 1024/2048 followed by 3072/6144 credits 2048/4096). */
  lemma AnnounceTwice(st: State, p: AnnounceParams, remoteIp: Bytes, t1: int, req: Request,
                      p2: AnnounceParams, t2: int)
    requires Inv(st) && Check(st, p, remoteIp) == Accepted(req)
    requires req.event != Some(Stopped)
    requires p2 == p.(uploaded := p2.uploaded, downloaded := p2.downloaded, event := p2.event)
    requires p2.uploaded.Some? && p2.downloaded.Some?
    ensures var o := Announce(st, p, remoteIp, t1);
      o.reply.Success? ==>
        && Inv(o.next) && req.userId in o.next.users
        && Check(o.next, p2, remoteIp)
           == Accepted(req.(uploaded := p2.uploaded.value, downloaded := p2.downloaded.value, event := p2.event))
    ensures var o := Announce(st, p, remoteIp, t1);
      o.reply.Success? ==>
        var du, dd := p2.uploaded.value - req.uploaded, p2.downloaded.value - req.downloaded;
        var u, u' := o.next.users[req.userId], Announce(o.next, p2, remoteIp, t2).next.users[req.userId];
        if du > 0 || dd > 0 then u'.uploaded == u.uploaded + du && u'.downloaded == u.downloaded + dd
        else u' == u
  {
    var o := Announce(st, p, remoteIp, t1);
    if o.reply.Success? {
      SecondAnnounce(st, p, remoteIp, t1, req, o.next, p2, t2);
    }
  }

  lemma SecondAnnounce(st: State, p: AnnounceParams, remoteIp: Bytes, t1: int, req: Request,
                       mid: State, p2: AnnounceParams, t2: int)
    requires Inv(st) && Check(st, p, remoteIp) == Accepted(req)
    requires req.event != Some(Stopped)
    requires Announce(st, p, remoteIp, t1).reply.Success? && mid == Announce(st, p, remoteIp, t1).next
    requires p2 == p.(uploaded := p2.uploaded, downloaded := p2.downloaded, event := p2.event)
    requires p2.uploaded.Some? && p2.downloaded.Some?
    ensures Inv(mid) && req.userId in mid.users
    ensures Check(mid, p2, remoteIp)
      == Accepted(req.(uploaded := p2.uploaded.value, downloaded := p2.downloaded.value, event := p2.event))
    ensures var du, dd := p2.uploaded.value - req.uploaded, p2.downloaded.value - req.downloaded;
      var u, u' := mid.users[req.userId], Announce(mid, p2, remoteIp, t2).next.users[req.userId];
      if du > 0 || dd > 0 then u'.uploaded == u.uploaded + du && u'.downloaded == u.downloaded + dd
      else u' == u
  {
    var req2 := req.(uploaded := p2.uploaded.value, downloaded := p2.downloaded.value, event := p2.event);
    AnnouncePreservesInv(st, p, remoteIp, t1);
    AnnounceLedger(st, p, remoteIp, t1, req);
    CheckAgain(st, mid, p, remoteIp, req, p2);
    RowWritten(st, p, remoteIp, t1, req);
    var i :| 0 <= i < |mid.peers| && mid.peers[i] == Row(req, t1);
    FindUnique(mid.peers, req2, i);
    assert mid.peers[i].uploaded == req.uploaded && mid.peers[i].downloaded == req.downloaded;
    AnnounceLedger(mid, p2, remoteIp, t2, req2);
  }

  /** The checks only look at the torrents and at which users exist. */
  lemma CheckAgain(st: State, mid: State, p: AnnounceParams, remoteIp: Bytes, req: Request, p2: AnnounceParams)
    requires Check(st, p, remoteIp) == Accepted(req)
    requires mid.torrents == st.torrents && mid.users.Keys == st.users.Keys
    requires p2 == p.(uploaded := p2.uploaded, downloaded := p2.downloaded, event := p2.event)
    requires p2.uploaded.Some? && p2.downloaded.Some?
    ensures Check(mid, p2, remoteIp)
      == Accepted(req.(uploaded := p2.uploaded.value, downloaded := p2.downloaded.value, event := p2.event))
  {
    assert BlankFlags(p2) == BlankFlags(p);
    assert req.userId in mid.users;
  }

  /** A successful announce that is not `stopped` leaves its row in the store. */
  lemma RowWritten(st: State, p: AnnounceParams, remoteIp: Bytes, now: int, req: Request)
    requires AllValid(st.peers) && Check(st, p, remoteIp) == Accepted(req)
    requires req.event != Some(Stopped)
    requires Announce(st, p, remoteIp, now).reply.Success?
    ensures Row(req, now) in Announce(st, p, remoteIp, now).next.peers
  {
    var o := Announce(st, p, remoteIp, now);
    var found := FindPeer(st.peers, req);
    if found.Some? {
      assert o.next.peers[found.value] == Row(req, now);
    } else {
      assert o.next.peers[|o.next.peers| - 1] == Row(req, now);
    }
  }

  /** With distinct slots, the matching row is the one the lookup finds. */
  lemma FindUnique(ps: seq<Peer>, req: Request, i: int)
    requires 0 <= i < |ps| && Matches(ps[i], req)
    requires forall a, b | 0 <= a < b < |ps| :: !SameSlot(ps[a], ps[b])
    ensures FindPeer(ps, req) == Some(i)
  {
    var f := FindPeer(ps, req);
    if f.Some? && f.value < i {
      assert SameSlot(ps[f.value], ps[i]);
    } else if f.Some? && f.value > i {
      assert SameSlot(ps[i], ps[f.value]);
    }
  }

  // ---------------------------------------------------------------------
  // Properties: scrape
  // ---------------------------------------------------------------------

  lemma KeysCons(e: Entry, es: seq<Entry>)
    ensures Firsts([e] + es) == [e.0] + Firsts(es)
  {
  }

  /** Hash assignment keeps the keys in first-insertion order and adds the
      key at the end when it is new. */
  lemma {:induction false} AssignKeys(es: seq<Entry>, k: Bytes, v: BValue)
    ensures Firsts(Assign(es, k, v)) == if k in Firsts(es) then Firsts(es) else Firsts(es) + [k]
  {
    if |es| == 0 {
      assert Firsts(Assign(es, k, v)) == [k];
    } else {
      assert es == [es[0]] + es[1..];
      KeysCons(es[0], es[1..]);
      if es[0].0 != k {
        AssignKeys(es[1..], k, v);
        KeysCons(es[0], Assign(es[1..], k, v));
      } else {
        KeysCons((k, v), es[1..]);
      }
    }
  }

  /** Hash assignment gives the key its new value and changes no other entry. */
  lemma {:induction false} AssignValues(es: seq<Entry>, k: Bytes, v: BValue)
    requires DistinctKeys(es)
    ensures var r := Assign(es, k, v);
      forall i | 0 <= i < |r| :: if r[i].0 == k then r[i].1 == v else i < |es| && r[i] == es[i]
  {
    var r := Assign(es, k, v);
    if |es| > 0 && es[0].0 != k {
      AssignValues(es[1..], k, v);
      assert r == [es[0]] + Assign(es[1..], k, v);
    } else if |es| > 0 {
      forall i | 0 < i < |r| ensures r[i].0 != k && r[i] == es[i] {
        assert es[i].0 != es[0].0;
      }
    }
  }

  /** The `files` hash lists each requested hash that names a torrent, once,
      in the order of first request, and no other key. */
  lemma {:induction false} FilesKeys(ts: seq<Torrent>, hashes: seq<Bytes>)
    ensures forall x :: x in Firsts(Files(ts, hashes)) <==>
      x in hashes && TorrentByHash(ts, InfoHash.Normalize(x)).Some?
    ensures DistinctKeys(Files(ts, hashes))
  {
    if |hashes| > 0 {
      var init, raw := hashes[..|hashes| - 1], hashes[|hashes| - 1];
      assert hashes == init + [raw];
      var es := Files(ts, init);
      FilesKeys(ts, init);
      match TorrentByHash(ts, InfoHash.Normalize(raw))
      case None =>
        assert Files(ts, hashes) == es;
      case Some(j) =>
        var r := Assign(es, raw, Stats(ts[j]));
        assert Files(ts, hashes) == r;
        AssignKeys(es, raw, Stats(ts[j]));
        forall a, b | 0 <= a < b < |r| ensures r[a].0 != r[b].0 {
          assert Firsts(r)[a] == r[a].0 && Firsts(r)[b] == r[b].0;
          assert Firsts(es)[..] == Firsts(es);
        }
    }
  }

  /** A scrape entry whose key names a torrent and whose value is that
      torrent's counters. */
  predicate Reports(ts: seq<Torrent>, e: Entry) {
    && TorrentByHash(ts, InfoHash.Normalize(e.0)).Some?
    && e.1 == Stats(ts[TorrentByHash(ts, InfoHash.Normalize(e.0)).value])
  }

  /** Each entry of the `files` hash holds the counters of the torrent its
      key names. */
  lemma {:induction false} FilesValues(ts: seq<Torrent>, hashes: seq<Bytes>)
    ensures forall i | 0 <= i < |Files(ts, hashes)| :: Reports(ts, Files(ts, hashes)[i])
  {
    if |hashes| > 0 {
      var init, raw := hashes[..|hashes| - 1], hashes[|hashes| - 1];
      var es := Files(ts, init);
      FilesValues(ts, init);
      FilesKeys(ts, init);
      match TorrentByHash(ts, InfoHash.Normalize(raw))
      case None =>
        assert Files(ts, hashes) == es;
      case Some(j) =>
        var r := Assign(es, raw, Stats(ts[j]));
        assert Files(ts, hashes) == r;
        AssignValues(es, raw, Stats(ts[j]));
        forall i | 0 <= i < |r| ensures Reports(ts, r[i]) {
          if r[i].0 != raw {
            assert Reports(ts, es[i]);
          }
        }
    }
  }

  /** Scrape fails exactly when no hash is given; otherwise it answers with
      a `files` dictionary whose encoding reads back with every key sorted. */
  lemma ScrapeReply(st: State, hashes: seq<Bytes>)
    ensures Scrape(st, hashes).Failure? <==> hashes == []
    ensures hashes == [] ==> Scrape(st, hashes) == Failure(NoInfoHash)
    ensures hashes != [] ==>
      && Scrape(st, hashes).value == BDict([(FilesKey, BDict(Files(st.torrents, hashes)))])
      && Render(Scrape(st, hashes)).status == 200
      && DecodeAll(Render(Scrape(st, hashes)).body).Some?
      && Canonical(DecodeAll(Render(Scrape(st, hashes)).body).value)
  {
    if hashes != [] {
      var fs := Files(st.torrents, hashes);
      FilesKeys(st.torrents, hashes);
      FilesValues(st.torrents, hashes);
      forall i | 0 <= i < |fs| ensures Plain(fs[i].1) && HashLike(fs[i].1) {
        assert Reports(st.torrents, fs[i]);
        StatsWellFormed(st.torrents[TorrentByHash(st.torrents, InfoHash.Normalize(fs[i].0)).value]);
      }
      EncodeSortsKeys(Scrape(st, hashes).value);
    }
  }

  lemma StatsWellFormed(t: Torrent)
    ensures Plain(Stats(t)) && HashLike(Stats(t))
  {
    assert CompleteKey[0] == 99 && IncompleteKey[0] == 105 && DownloadedKey[0] == 100;
  }

  lemma ResponseWellFormed(t: Torrent, addrs: seq<Compact.Addr>)
    requires Compact.AllDottedQuad(addrs)
    ensures Plain(ResponseValue(t, addrs)) && HashLike(ResponseValue(t, addrs))
  {
    assert IntervalKey[0] == 105 && IntervalKey[2] == 116;
    assert IncompleteKey[0] == 105 && IncompleteKey[2] == 99;
    assert CompleteKey[0] == 99 && PeersKey[0] == 112;
  }

  /** A success reply is sent with status 200 and a body that reads back as
      its value with the keys in sorted order. */
  lemma SuccessRendered(v: BValue)
    requires Plain(v) && HashLike(v)
    ensures Render(Success(v)).status == 200
    ensures DecodeAll(Render(Success(v)).body) == Some(Canon(v))
    ensures Canonical(Canon(v))
  {
    EncodeRoundTrip(v);
    CanonCanonical(v);
  }

  /** A successful announce is sent with status 200 and a body that reads
      back as its response with the keys in sorted order. */
  lemma AnnounceRendered(st: State, p: AnnounceParams, remoteIp: Bytes, now: int, req: Request)
    requires AllValid(st.peers) && Check(st, p, remoteIp) == Accepted(req)
    ensures var r := Announce(st, p, remoteIp, now).reply;
      r.Success? ==>
        && Render(r).status == 200
        && DecodeAll(Render(r).body) == Some(Canon(r.value))
        && Canonical(Canon(r.value))
  {
    var o := Announce(st, p, remoteIp, now);
    if o.reply.Success? {
      SuccessFromNext(st, p, remoteIp, now, req);
      ResponseWellFormed(req.torrent, Addrs(Listed(o.next.peers, req.torrent.id, now)));
      SuccessRendered(o.reply.value);
      assert o.reply == Success(o.reply.value);
    }
  }
}
