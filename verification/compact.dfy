/**
 * The compact peer list of BEP 23 as the tracker's `encode_peers` writes it
 * (app/controllers/tracker_controller.rb:123-128): for each peer the four
 * dotted-quad numbers of its IPv4 address as bytes (`split('.')`, `to_i`,
 * `pack('C*')`), then its port as a two-byte big-endian number
 * (`pack('n')`), all concatenated without separators.
 *
 * `pack` keeps the low bits of each number, so the model writes the
 * truncation out as `% 256` and `% 65536`.
 */
module Compact {
  import opened Text

  /** One row of `pluck(:ip, :port)`. */
  datatype Addr = Addr(ip: Bytes, port: int)

  /** A peer as a reader of the compact list sees it: four octets and a port. */
  datatype Endpoint = Endpoint(octets: seq<Byte>, port: int)

  /** The peer address format `\A\d{1,3}\.\d{1,3}\.\d{1,3}\.\d{1,3}\z`
      (app/models/peer.rb:15). */
  predicate DottedQuad(ip: Bytes) {
    var g := SplitOn(ip, Dot);
    |g| == 4 && forall k | 0 <= k < 4 :: 1 <= |g[k]| <= 3 && AllDigits(g[k])
  }

  /** `ip.split('.').map(&:to_i).pack('C*')` for an address in dotted-quad form. */
  function IpOctets(ip: Bytes): (r: seq<Byte>)
    requires DottedQuad(ip)
    ensures |r| == 4
  {
    var g := RubySplit(ip, Dot);
    assert g == SplitOn(ip, Dot);
    seq(4, k requires 0 <= k < 4 => DigitsValue(g[k]) % 256)
  }

  /** `[port].pack('n')`: the low 16 bits, high byte first. */
  function PortBytes(port: int): (r: seq<Byte>)
    ensures |r| == 2
  {
    [(port % 65536) / 256, port % 256]
  }

  function EncodePeer(a: Addr): (r: Bytes)
    requires DottedQuad(a.ip)
    ensures |r| == 6
  {
    IpOctets(a.ip) + PortBytes(a.port)
  }

  predicate AllDottedQuad(addrs: seq<Addr>) {
    forall i | 0 <= i < |addrs| :: DottedQuad(addrs[i].ip)
  }

  /** The tracker's `encode_peers`. */
  function EncodePeers(addrs: seq<Addr>): (r: Bytes)
    requires AllDottedQuad(addrs)
    ensures |r| == 6 * |addrs|
  {
    if |addrs| == 0 then [] else EncodePeer(addrs[0]) + EncodePeers(addrs[1..])
  }

  /** A client's reading of the compact list: consecutive 6-byte chunks. */
  function DecodePeers(b: Bytes): (r: seq<Endpoint>)
    requires |b| % 6 == 0
    ensures |r| == |b| / 6
  {
    if |b| == 0 then []
    else [Endpoint(b[..4], (b[4] as int) * 256 + b[5] as int)] + DecodePeers(b[6..])
  }

  /** What a client learns about one address. */
  function Seen(a: Addr): Endpoint
    requires DottedQuad(a.ip)
  {
    Endpoint(IpOctets(a.ip), a.port % 65536)
  }

  // ---------------------------------------------------------------------
  // Properties
  // ---------------------------------------------------------------------

  /** Chunk i of the encoding is peer i's four octets and big-endian port. */
  lemma {:induction false} EncodePeersChunk(addrs: seq<Addr>, i: int)
    requires AllDottedQuad(addrs) && 0 <= i < |addrs|
    ensures EncodePeers(addrs)[6 * i..6 * i + 6] == EncodePeer(addrs[i])
  {
    var r := EncodePeers(addrs);
    if i == 0 {
      assert r == EncodePeer(addrs[0]) + EncodePeers(addrs[1..]);
    } else {
      EncodePeersChunk(addrs[1..], i - 1);
      assert r == EncodePeer(addrs[0]) + EncodePeers(addrs[1..]);
      assert r[6 * i..6 * i + 6] == EncodePeers(addrs[1..])[6 * (i - 1)..6 * (i - 1) + 6];
    }
  }

  /** Reading the compact list in 6-byte chunks recovers every peer's octets
      and port, in order. */
  lemma {:induction false} CompactRoundTrip(addrs: seq<Addr>)
    requires AllDottedQuad(addrs)
    ensures DecodePeers(EncodePeers(addrs)) == seq(|addrs|, i requires 0 <= i < |addrs| => Seen(addrs[i]))
  {
    if |addrs| > 0 {
      var r := EncodePeers(addrs);
      var head := EncodePeer(addrs[0]);
      assert r == head + EncodePeers(addrs[1..]);
      assert r[..4] == IpOctets(addrs[0].ip);
      var p := addrs[0].port;
      assert (r[4] as int) * 256 + r[5] as int == p % 65536;
      assert r[6..] == EncodePeers(addrs[1..]);
      CompactRoundTrip(addrs[1..]);
    }
  }

  /** A valid port (1..65535) is read back unchanged. */
  lemma ValidPortRoundTrip(a: Addr)
    requires DottedQuad(a.ip) && 0 < a.port <= 65535
    ensures Seen(a).port == a.port
  {
  }

  // ---------------------------------------------------------------------
  // Dotted-quad text for given octets
  // ---------------------------------------------------------------------

  /** The usual dotted-quad text of four octets, as a connection address reads. */
  function FormatIp(o: seq<Byte>): Bytes
    requires |o| == 4
  {
    Join([NatDigits(o[0]), NatDigits(o[1]), NatDigits(o[2]), NatDigits(o[3])], Dot)
  }

  lemma OctetDigits(n: Byte)
    ensures 1 <= |NatDigits(n)| <= 3
    ensures Free(NatDigits(n), Dot)
    ensures DigitsValue(NatDigits(n)) == n
  {
    NatDigitsValue(n);
    if n >= 10 {
      if n >= 100 {
        assert NatDigits(n) == NatDigits(n / 10) + [Zero + n % 10];
        assert |NatDigits(n / 10)| == 2;
      }
    }
  }

  /** The text of four octets is a valid peer address and encodes to those octets. */
  lemma FormatIpRoundTrip(o: seq<Byte>)
    requires |o| == 4
    ensures DottedQuad(FormatIp(o))
    ensures IpOctets(FormatIp(o)) == o
  {
    var parts := [NatDigits(o[0]), NatDigits(o[1]), NatDigits(o[2]), NatDigits(o[3])];
    OctetDigits(o[0]);
    OctetDigits(o[1]);
    OctetDigits(o[2]);
    OctetDigits(o[3]);
    JoinSplit(parts, Dot);
  }

  /** The text of the octets 192, 168, 1, 1. */
  lemma ExampleText()
    ensures FormatIp([192, 168, 1, 1]) == Ascii("192.168.1.1")
  {
    var text: Bytes := [49, 57, 50, 46, 49, 54, 56, 46, 49, 46, 49];
    assert Ascii("192.168.1.1") == text;
    ExampleJoin();
  }

  lemma ExampleJoin()
    ensures FormatIp([192, 168, 1, 1]) == [49, 57, 50, 46, 49, 54, 56, 46, 49, 46, 49]
  {
    assert NatDigits(192) == [49, 57, 50];
    assert NatDigits(168) == [49, 54, 56];
    assert NatDigits(1) == [49];
    var parts: seq<Bytes> := [[49, 57, 50], [49, 54, 56], [49], [49]];
    assert Join(parts[2..], Dot) == [49, 46, 49];
    assert Join(parts[1..], Dot) == [49, 54, 56, 46, 49, 46, 49];
  }

  /** A one-peer list is that peer's six bytes. */
  lemma EncodeSingle(a: Addr)
    requires DottedQuad(a.ip)
    ensures EncodePeers([a]) == IpOctets(a.ip) + PortBytes(a.port)
  {
    assert EncodePeers([a]) == EncodePeer(a) + EncodePeers([]);
  }

  /** The six bytes of the peer whose address is the text of 192, 168, 1, 1. */
  lemma ExampleBytes(ip: Bytes)
    requires ip == FormatIp([192, 168, 1, 1])
    ensures DottedQuad(ip)
    ensures EncodePeers([Addr(ip, 6881)]) == [0xC0, 0xA8, 0x01, 0x01, 0x1A, 0xE1]
  {
    FormatIpRoundTrip([192, 168, 1, 1]);
    EncodeSingle(Addr(ip, 6881));
  }

  /** The encoder's documented example: 192.168.1.1:6881 is C0 A8 01 01 1A E1. */
  lemma EncodeExample(ip: Bytes)
    requires ip == Ascii("192.168.1.1")
    ensures DottedQuad(ip)
    ensures EncodePeers([Addr(ip, 6881)]) == [0xC0, 0xA8, 0x01, 0x01, 0x1A, 0xE1]
  {
    ExampleText();
    ExampleBytes(ip);
  }
}
