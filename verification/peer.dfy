/**
 * A peer row: one BitTorrent client announcing one torrent
 * (app/models/peer.rb). The model keeps the columns the tracker reads and
 * writes; time is whole seconds.
 */
module PeerModel {
  import opened Text
  import Compact

  datatype Peer = Peer(
    torrentId: Uuid,
    userId: Uuid,
    peerId: Bytes,
    ip: Bytes,
    port: int,
    uploaded: int,
    downloaded: int,
    left: int,
    event: Option<Bytes>,
    lastAnnounce: int)

  const Started: Bytes := Ascii("started")
  const Completed: Bytes := Ascii("completed")
  const Stopped: Bytes := Ascii("stopped")

  /** The `event` inclusion rule: one of the three names, or nil. */
  predicate KnownEvent(e: Option<Bytes>) {
    e.None? || e.value == Started || e.value == Completed || e.value == Stopped
  }

  /** The validations of app/models/peer.rb:14-21. `last_announce` is an
      integer here, so its presence rule holds of every row. */
  predicate Valid(p: Peer) {
    && !Blank(p.peerId) && |p.peerId| == 20
    && Compact.DottedQuad(p.ip)
    && 0 < p.port <= 65535
    && p.left >= 0
    && p.uploaded >= 0
    && p.downloaded >= 0
    && KnownEvent(p.event)
  }

  /** `1.hour` in seconds. */
  const Window: int := 3600

  /** The `active` scope: announced strictly after `now - 1 hour`. */
  predicate Active(now: int, p: Peer) {
    p.lastAnnounce > now - Window
  }

  /** The cleanup job's selection: announced strictly before `now - 1 hour`. */
  predicate Stale(now: int, p: Peer) {
    p.lastAnnounce < now - Window
  }

  /** The `seeders` scope and `seeder?`. */
  predicate Seeder(p: Peer) {
    p.left == 0
  }

  /** The `leechers` scope and `leecher?`. */
  predicate Leecher(p: Peer) {
    p.left > 0
  }

  function Seeders(ps: seq<Peer>): seq<Peer> {
    Filter(ps, Seeder)
  }

  function Leechers(ps: seq<Peer>): seq<Peer> {
    Filter(ps, Leecher)
  }

  predicate AllValid(ps: seq<Peer>) {
    forall i | 0 <= i < |ps| :: Valid(ps[i])
  }

  // ---------------------------------------------------------------------
  // Properties
  // ---------------------------------------------------------------------

  /** A valid peer is exactly one of seeder and leecher. */
  lemma ValidPeerOneRole(p: Peer)
    requires Valid(p)
    ensures Seeder(p) != Leecher(p)
  {
  }

  /** The seeders and leechers of a collection of valid peers are disjoint
      and together make up the whole collection. */
  lemma SeedersLeechersPartition(ps: seq<Peer>)
    requires AllValid(ps)
    ensures multiset(Seeders(ps)) + multiset(Leechers(ps)) == multiset(ps)
    ensures |Seeders(ps)| + |Leechers(ps)| == |ps|
    ensures forall p | p in Seeders(ps) :: p !in Leechers(ps)
  {
    FilterComplement(ps, Seeder, Leecher);
  }

  /** Activity and staleness exclude each other; a peer is neither exactly
      when it announced at `now - 1 hour` to the second. */
  lemma ActiveStaleBoundary(now: int, p: Peer)
    ensures !(Active(now, p) && Stale(now, p))
    ensures !Active(now, p) && !Stale(now, p) <==> p.lastAnnounce == now - 3600
  {
  }

  /** A peer announced at `now` is active at `now`. */
  lemma JustAnnouncedActive(now: int, p: Peer)
    requires p.lastAnnounce == now
    ensures Active(now, p)
  {
  }

  /** Port 70000 is out of range. */
  lemma PortOutOfRange(p: Peer)
    requires p.port == 70000
    ensures !Valid(p)
  {
  }

  /** An empty `event` value is neither nil nor one of the three names. */
  lemma EmptyEventRejected(p: Peer)
    requires p.event == Some([])
    ensures !Valid(p)
  {
    assert |Started| == 7 && |Completed| == 9 && |Stopped| == 7;
  }

  /** The text "invalid" is not an address. */
  lemma InvalidAddressRejected(s: Bytes)
    requires s == Ascii("invalid")
    ensures !Compact.DottedQuad(s)
  {
    assert IndexOf(s, Dot) == |s|;
    assert SplitOn(s, Dot) == [s];
  }

  /** The format rule counts digits, not values: 999.1.1.1 passes. */
  lemma LargeOctetAccepted(s: Bytes)
    requires s == Ascii("999.1.1.1")
    ensures Compact.DottedQuad(s)
  {
    var parts: seq<Bytes> := [[57, 57, 57], [49], [49], [49]];
    assert Join(parts[2..], Dot) == [49, 46, 49];
    assert Join(parts, Dot) == s;
    JoinSplit(parts, Dot);
  }
}
