/**
 * The tracker's database as one value: the torrents table, the users table,
 * the peers table and the queue of enqueued UpdateTorrentStatsJob runs
 * (each run recorded as the torrent id it was enqueued with).
 *
 * `Inv` is what the tables guarantee between requests: the validations of
 * every stored row, the unique indexes on `torrents.info_hash` and on
 * `peers (torrent_id, peer_id, ip, port)` (db/schema.rb:33, :58), the
 * foreign keys of peer rows, and torrent and user ids in the canonical text
 * form of the `uuid` column (db/schema.rb:38, :62).
 */
module Store {
  import opened Text
  import opened PeerModel
  import opened TorrentModel
  import opened UserModel
  import UuidCast

  datatype State = State(
    torrents: seq<Torrent>,
    users: map<Uuid, User>,
    peers: seq<Peer>,
    jobs: seq<Uuid>)

  /** The ids of the torrents table, in row order. */
  function TorrentIds(ts: seq<Torrent>): (r: seq<Uuid>)
    ensures |r| == |ts| && forall i | 0 <= i < |ts| :: r[i] == ts[i].id
  {
    seq(|ts|, i requires 0 <= i < |ts| => ts[i].id)
  }

  /** Two peer rows with the same value of the unique index. */
  predicate SameSlot(p: Peer, q: Peer) {
    p.torrentId == q.torrentId && p.peerId == q.peerId && p.ip == q.ip && p.port == q.port
  }

  predicate TorrentsOk(ts: seq<Torrent>) {
    && (forall i | 0 <= i < |ts| :: TorrentModel.Valid(ts[i]) && UuidCast.Canonical(ts[i].id))
    && (forall i, j | 0 <= i < j < |ts| :: ts[i].id != ts[j].id && ts[i].infoHash != ts[j].infoHash)
  }

  /** Each user is stored under its id, which the uuid column holds in
      canonical form. */
  predicate UsersOk(users: map<Uuid, User>) {
    forall k | k in users :: users[k].id == k && UuidCast.Canonical(k)
  }

  predicate PeersOk(st: State) {
    && (forall i | 0 <= i < |st.peers| :: PeerModel.Valid(st.peers[i]))
    && (forall i | 0 <= i < |st.peers| :: st.peers[i].torrentId in TorrentIds(st.torrents))
    && (forall i | 0 <= i < |st.peers| :: st.peers[i].userId in st.users)
    && (forall i, j | 0 <= i < j < |st.peers| :: !SameSlot(st.peers[i], st.peers[j]))
  }

  predicate Inv(st: State) {
    TorrentsOk(st.torrents) && UsersOk(st.users) && PeersOk(st)
  }

  /** `Torrent.find_by(info_hash: h)`: the row holding this hash, if any. */
  function TorrentByHash(ts: seq<Torrent>, h: Bytes): (r: Option<nat>)
    ensures r.Some? ==> r.value < |ts| && ts[r.value].infoHash == h
    ensures r.None? ==> forall i | 0 <= i < |ts| :: ts[i].infoHash != h
  {
    if |ts| == 0 then None
    else if ts[|ts| - 1].infoHash == h then Some(|ts| - 1)
    else TorrentByHash(ts[..|ts| - 1], h)
  }

  /** `Torrent.find_by(id: id)`: the row with this id, if any. */
  function TorrentById(ts: seq<Torrent>, id: Uuid): (r: Option<nat>)
    ensures r.Some? ==> r.value < |ts| && ts[r.value].id == id
    ensures r.None? <==> id !in TorrentIds(ts)
  {
    if |ts| == 0 then None
    else if ts[|ts| - 1].id == id then Some(|ts| - 1)
    else
      assert TorrentIds(ts) == TorrentIds(ts[..|ts| - 1]) + [ts[|ts| - 1].id];
      TorrentById(ts[..|ts| - 1], id)
  }

  /** Every torrent id in the table, such as those the recount job is
      enqueued with, casts to itself, so looking it up uncast is the same as
      looking it up cast. */
  lemma TorrentIdsCast(ts: seq<Torrent>, id: Uuid)
    requires TorrentsOk(ts) && id in TorrentIds(ts)
    ensures UuidCast.Cast(id) == Some(id)
  {
    var i :| 0 <= i < |ts| && TorrentIds(ts)[i] == id;
    UuidCast.CanonicalFormats(id);
  }

  /** In a table with distinct ids the row found is the only one with that id. */
  lemma TorrentByIdUnique(ts: seq<Torrent>, id: Uuid, i: int)
    requires TorrentsOk(ts) && 0 <= i < |ts| && ts[i].id == id
    ensures TorrentById(ts, id) == Some(i)
  {
  }

  /** In a table with distinct hashes the row found is the only one with that hash. */
  lemma TorrentByHashUnique(ts: seq<Torrent>, h: Bytes, i: int)
    requires TorrentsOk(ts) && 0 <= i < |ts| && ts[i].infoHash == h
    ensures TorrentByHash(ts, h) == Some(i)
  {
  }
}
