/**
 * The two background jobs as transformations of the store.
 *
 * UpdateTorrentStatsJob (app/jobs/update_torrent_stats_job.rb:21-31)
 * recounts a torrent's active seeders and leechers and writes the counts;
 * CleanupStalePeersJob (app/jobs/cleanup_stale_peers_job.rb:25-42) deletes
 * the peers that have not announced for more than an hour and enqueues one
 * recount per torrent that lost peers. The clock reading `now` is a
 * parameter.
 */
module Jobs {
  import opened Text
  import opened PeerModel
  import opened TorrentModel
  import opened Store

  /** The test of `torrent.peers.active`. */
  function ActiveIn(tid: Uuid, now: int): Peer -> bool {
    (p: Peer) => p.torrentId == tid && Active(now, p)
  }

  /** The test of the sweep's `where`. */
  function StaleAt(now: int): Peer -> bool {
    (p: Peer) => Stale(now, p)
  }

  /** The test the sweep's survivors pass. */
  function FreshAt(now: int): Peer -> bool {
    (p: Peer) => !Stale(now, p)
  }

  /** `torrent.peers.active`: the torrent's peers that announced within the hour. */
  function ActiveOf(ps: seq<Peer>, tid: Uuid, now: int): seq<Peer> {
    Filter(ps, ActiveIn(tid, now))
  }

  /** The torrent with its counters replaced by a recount over `ps`. */
  function Recounted(t: Torrent, ps: seq<Peer>, now: int): Torrent {
    var act := ActiveOf(ps, t.id, now);
    t.(seeders := |Seeders(act)|, leechers := |Leechers(act)|)
  }

  /** `UpdateTorrentStatsJob#perform(torrent_id)`. An absent id, or one with
      no torrent, changes nothing; otherwise `torrent.update` writes the two
      counts, which Rails does only when the updated row passes the torrent
      validations. */
  function UpdateTorrentStats(st: State, tid: Option<Uuid>, now: int): (r: State)
    ensures r.peers == st.peers && r.users == st.users && r.jobs == st.jobs
    ensures |r.torrents| == |st.torrents|
    ensures TorrentIds(r.torrents) == TorrentIds(st.torrents)
  {
    if tid.None? then st
    else match TorrentById(st.torrents, tid.value)
      case None => st
      case Some(i) =>
        var t := Recounted(st.torrents[i], st.peers, now);
        if TorrentModel.Valid(t) then st.(torrents := st.torrents[i := t]) else st
  }

  /** Keeps the first occurrence of each id. */
  function Distinct(xs: seq<Uuid>): (r: seq<Uuid>)
    ensures forall i, j | 0 <= i < j < |r| :: r[i] != r[j]
    ensures forall x :: x in r <==> x in xs
  {
    if |xs| == 0 then []
    else
      var r := Distinct(xs[..|xs| - 1]);
      assert forall x :: x in xs <==> x in xs[..|xs| - 1] || x == xs[|xs| - 1];
      if xs[|xs| - 1] in r then r else r + [xs[|xs| - 1]]
  }

  /** The torrent ids of some peers, in order. */
  function TorrentIdsOf(ps: seq<Peer>): (r: seq<Uuid>)
    ensures |r| == |ps| && forall i | 0 <= i < |ps| :: r[i] == ps[i].torrentId
  {
    seq(|ps|, i requires 0 <= i < |ps| => ps[i].torrentId)
  }

  /** What the sweep returns besides the new store: the two numbers it logs. */
  datatype Sweep = Sweep(next: State, deleted: nat, updated: nat)

  function StaleOf(ps: seq<Peer>, now: int): seq<Peer> {
    Filter(ps, StaleAt(now))
  }

  /** The torrents that lose peers in a sweep, each once. */
  function Affected(ps: seq<Peer>, now: int): seq<Uuid> {
    Distinct(TorrentIdsOf(StaleOf(ps, now)))
  }

  /** `CleanupStalePeersJob#perform`. */
  function CleanupStalePeers(st: State, now: int): (r: Sweep)
    ensures r.next.torrents == st.torrents && r.next.users == st.users
  {
    var stale := StaleOf(st.peers, now);
    var affected := Affected(st.peers, now);
    var kept := Filter(st.peers, FreshAt(now));
    Sweep(st.(peers := kept, jobs := st.jobs + affected), |stale|, |affected|)
  }

  // ---------------------------------------------------------------------
  // UpdateTorrentStatsJob
  // ---------------------------------------------------------------------

  /** An absent or unknown torrent id is a no-op. */
  lemma UpdateUnknownNoop(st: State, tid: Option<Uuid>, now: int)
    requires tid.None? || tid.value !in TorrentIds(st.torrents)
    ensures UpdateTorrentStats(st, tid, now) == st
  {
  }

  /** For a stored torrent, the job sets `seeders` to the number of its
      active peers with nothing left and `leechers` to the number of its
      active peers with something left, and changes nothing else. */
  lemma UpdateRecounts(st: State, i: int, now: int)
    requires Inv(st) && 0 <= i < |st.torrents|
    ensures var r := UpdateTorrentStats(st, Some(st.torrents[i].id), now);
      var t := st.torrents[i];
      && r.torrents[i] == t.(seeders := Count(ActiveOf(st.peers, t.id, now), Seeder),
                             leechers := Count(ActiveOf(st.peers, t.id, now), Leecher))
      && (forall j | 0 <= j < |st.torrents| && j != i :: r.torrents[j] == st.torrents[j])
      && r.peers == st.peers && r.users == st.users && r.jobs == st.jobs
  {
    TorrentByIdUnique(st.torrents, st.torrents[i].id, i);
  }

  /** Without peers both counts become zero. */
  lemma UpdateWithoutPeers(st: State, i: int, now: int)
    requires Inv(st) && 0 <= i < |st.torrents| && st.peers == []
    ensures UpdateTorrentStats(st, Some(st.torrents[i].id), now).torrents[i].seeders == 0
    ensures UpdateTorrentStats(st, Some(st.torrents[i].id), now).torrents[i].leechers == 0
  {
    UpdateRecounts(st, i, now);
  }

  /** The counters written do not depend on the counters stored before. */
  lemma UpdateIgnoresOldCounts(st: State, i: int, now: int, s: nat, l: nat)
    requires Inv(st) && 0 <= i < |st.torrents|
    ensures var st2 := st.(torrents := st.torrents[i := st.torrents[i].(seeders := s, leechers := l)]);
      UpdateTorrentStats(st2, Some(st.torrents[i].id), now) == UpdateTorrentStats(st, Some(st.torrents[i].id), now)
  {
    var st2 := st.(torrents := st.torrents[i := st.torrents[i].(seeders := s, leechers := l)]);
    assert TorrentsOk(st2.torrents);
    TorrentByIdUnique(st.torrents, st.torrents[i].id, i);
    TorrentByIdUnique(st2.torrents, st.torrents[i].id, i);
    assert st2.torrents[i := Recounted(st2.torrents[i], st.peers, now)] == st.torrents[i := Recounted(st.torrents[i], st.peers, now)];
  }

  /** The job preserves the store invariant. */
  lemma UpdatePreservesInv(st: State, tid: Option<Uuid>, now: int)
    requires Inv(st)
    ensures Inv(UpdateTorrentStats(st, tid, now))
  {
  }

  /** Running the job twice is the same as running it once. */
  lemma UpdateIdempotent(st: State, tid: Option<Uuid>, now: int)
    requires Inv(st)
    ensures UpdateTorrentStats(UpdateTorrentStats(st, tid, now), tid, now) == UpdateTorrentStats(st, tid, now)
  {
    if tid.Some? {
      match TorrentById(st.torrents, tid.value)
      case None =>
      case Some(i) =>
        var r := UpdateTorrentStats(st, tid, now);
        UpdateRecounts(st, i, now);
        UpdatePreservesInv(st, tid, now);
        UpdateIgnoresOldCounts(r, i, now, st.torrents[i].seeders, st.torrents[i].leechers);
        assert r.(torrents := r.torrents[i := r.torrents[i].(seeders := st.torrents[i].seeders, leechers := st.torrents[i].leechers)]) == st;
    }
  }

  /** Peers of other torrents and peers that are not active are not counted:
      a table with one more such peer, anywhere in it, gives the job the same
      torrents table to write. */
  lemma UpdateIgnoresOthers(st: State, tid: Option<Uuid>, now: int, ps1: seq<Peer>, q: Peer, ps2: seq<Peer>)
    requires tid.Some? ==> q.torrentId != tid.value || !Active(now, q)
    ensures UpdateTorrentStats(st.(peers := ps1 + [q] + ps2), tid, now).torrents
         == UpdateTorrentStats(st.(peers := ps1 + ps2), tid, now).torrents
  {
    if tid.Some? {
      var f := ActiveIn(tid.value, now);
      FilterAppend(ps1 + [q], ps2, f);
      FilterAppend(ps1, [q], f);
      FilterAppend(ps1, ps2, f);
      assert [q][1..] == [];
      assert Filter([q], f) == [];
      assert ActiveOf(ps1 + [q] + ps2, tid.value, now) == ActiveOf(ps1 + ps2, tid.value, now);
    }
  }

  // ---------------------------------------------------------------------
  // CleanupStalePeersJob
  // ---------------------------------------------------------------------

  /** The sweep deletes exactly the stale peers: the survivors are the other
      peers in their order, and every one announced at or after `now - 1 hour`. */
  lemma SweepDeletesStale(st: State, now: int)
    ensures var r := CleanupStalePeers(st, now);
      && multiset(r.next.peers) + multiset(StaleOf(st.peers, now)) == multiset(st.peers)
      && (forall p | p in r.next.peers :: p.lastAnnounce >= now - 3600)
      && (forall p | p in st.peers && !Stale(now, p) :: p in r.next.peers)
      && (forall p | p in st.peers && Stale(now, p) :: p !in r.next.peers)
      && r.deleted == |StaleOf(st.peers, now)|
  {
    FilterComplement(st.peers, FreshAt(now), StaleAt(now));
    forall p | p in st.peers
      ensures p in CleanupStalePeers(st, now).next.peers <==> !Stale(now, p)
    {
      FilterMember(st.peers, FreshAt(now), p);
    }
  }

  /** The affected torrents are the distinct torrents of the stale peers;
      one recount is enqueued for each, and none when nothing is stale. */
  lemma SweepEnqueues(st: State, now: int)
    ensures var r := CleanupStalePeers(st, now);
      && r.next.jobs == st.jobs + Affected(st.peers, now)
      && r.updated == |Affected(st.peers, now)|
      && (forall i, j | 0 <= i < j < |Affected(st.peers, now)| :: Affected(st.peers, now)[i] != Affected(st.peers, now)[j])
      && (forall id :: id in Affected(st.peers, now) <==> exists p | p in st.peers :: Stale(now, p) && p.torrentId == id)
      && (StaleOf(st.peers, now) == [] ==> r.next.jobs == st.jobs && r.deleted == 0)
  {
    var stale := StaleOf(st.peers, now);
    forall id ensures id in Affected(st.peers, now) <==> exists p | p in st.peers :: Stale(now, p) && p.torrentId == id {
      if id in Affected(st.peers, now) {
        var k :| 0 <= k < |stale| && TorrentIdsOf(stale)[k] == id;
        assert stale[k] in stale;
        FilterMember(st.peers, StaleAt(now), stale[k]);
      } else {
        forall p | p in st.peers && Stale(now, p) ensures p.torrentId != id {
          FilterMember(st.peers, StaleAt(now), p);
          assert p in stale;
          var k :| 0 <= k < |stale| && stale[k] == p;
          assert TorrentIdsOf(stale)[k] == p.torrentId;
        }
      }
    }
  }

  /** A peer that announced exactly one hour ago survives the sweep yet is
      not active. */
  lemma SweepBoundary(st: State, now: int, p: Peer)
    requires p in st.peers && p.lastAnnounce == now - 3600
    ensures p in CleanupStalePeers(st, now).next.peers && !Active(now, p)
  {
    FilterMember(st.peers, FreshAt(now), p);
  }

  /** Stale peers are never active, so the sweep changes no torrent's active
      peers, and a recount after it gives the counts a recount before it gives. */
  lemma SweepKeepsActive(st: State, now: int, tid: Uuid)
    ensures ActiveOf(CleanupStalePeers(st, now).next.peers, tid, now) == ActiveOf(st.peers, tid, now)
  {
    SweepKeepsActiveSeq(st.peers, now, tid);
  }

  lemma {:induction false} SweepKeepsActiveSeq(ps: seq<Peer>, now: int, tid: Uuid)
    ensures ActiveOf(Filter(ps, FreshAt(now)), tid, now) == ActiveOf(ps, tid, now)
  {
    if |ps| > 0 {
      var keep := FreshAt(now);
      SweepKeepsActiveSeq(ps[1..], now, tid);
      var head := if keep(ps[0]) then [ps[0]] else [];
      FilterAppend(head, Filter(ps[1..], keep), ActiveIn(tid, now));
    }
  }

  /** The sweep preserves the store invariant. */
  lemma SweepPreservesInv(st: State, now: int)
    requires Inv(st)
    ensures Inv(CleanupStalePeers(st, now).next)
  {
    var kept := CleanupStalePeers(st, now).next.peers;
    SlotsStayDistinct(st.peers, FreshAt(now));
    forall i | 0 <= i < |kept|
      ensures PeerModel.Valid(kept[i]) && kept[i].torrentId in TorrentIds(st.torrents) && kept[i].userId in st.users
    {
      FilterMember(st.peers, FreshAt(now), kept[i]);
      var k :| 0 <= k < |st.peers| && st.peers[k] == kept[i];
    }
  }

  /** Removing rows keeps the unique index satisfied. */
  lemma {:induction false} SlotsStayDistinct(ps: seq<Peer>, f: Peer -> bool)
    requires forall i, j | 0 <= i < j < |ps| :: !SameSlot(ps[i], ps[j])
    ensures var r := Filter(ps, f); forall i, j | 0 <= i < j < |r| :: !SameSlot(r[i], r[j])
  {
    if |ps| > 0 {
      var rest := Filter(ps[1..], f);
      SlotsStayDistinct(ps[1..], f);
      if f(ps[0]) {
        var r := [ps[0]] + rest;
        forall j | 0 < j < |r| ensures !SameSlot(r[0], r[j]) {
          FilterMember(ps[1..], f, r[j]);
          assert r[j] in ps[1..];
          var k :| 0 <= k < |ps[1..]| && ps[1..][k] == r[j];
          assert ps[k + 1] == r[j];
        }
        assert forall i, j | 0 < i < j < |r| :: r[i] == rest[i - 1] && r[j] == rest[j - 1];
      }
    }
  }
}
