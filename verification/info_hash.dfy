/**
 * The info-hash normaliser written inline in the announce and scrape actions
 * (app/controllers/tracker_controller.rb:13-21 and again at :91-100).
 *
 * A request value of exactly 40 hexadecimal digits is taken as the hex form
 * and lower-cased; anything else is taken as raw bytes and hex-encoded with
 * Ruby's `unpack1('H*')`: two lower-case digits per byte, high nibble first.
 */
module InfoHash {
  import opened Text

  predicate IsHexDigit(b: Byte) {
    (48 <= b <= 57) || (97 <= b <= 102) || (65 <= b <= 70)
  }

  predicate IsLowerHexDigit(b: Byte) {
    (48 <= b <= 57) || (97 <= b <= 102)
  }

  predicate LowerHex(s: Bytes) {
    forall i | 0 <= i < |s| :: IsLowerHexDigit(s[i])
  }

  /** The pattern `\A[0-9a-fA-F]{40}\z`. */
  predicate LooksHex40(raw: Bytes) {
    |raw| == 40 && forall i | 0 <= i < |raw| :: IsHexDigit(raw[i])
  }

  /** ASCII lower-casing of one byte (String#downcase on ASCII text). */
  function LowerByte(b: Byte): Byte {
    if 65 <= b <= 90 then b + 32 else b
  }

  function Downcase(s: Bytes): (r: Bytes)
    ensures |r| == |s|
    ensures forall i | 0 <= i < |s| :: r[i] == LowerByte(s[i])
  {
    seq(|s|, i requires 0 <= i < |s| => LowerByte(s[i]))
  }

  /** The lower-case hex digit for a nibble. */
  function HexChar(n: int): (b: Byte)
    requires 0 <= n < 16
    ensures IsLowerHexDigit(b)
  {
    if n < 10 then 48 + n else 87 + n
  }

  /** The nibble a lower-case hex digit stands for. */
  function HexValue(b: Byte): (n: int)
    requires IsLowerHexDigit(b)
    ensures 0 <= n < 16
  {
    if b <= 57 then b - 48 else b - 87
  }

  lemma HexValueChar(n: int)
    requires 0 <= n < 16
    ensures HexValue(HexChar(n)) == n
  {
  }

  /** Ruby's `unpack1('H*')`: each byte as two hex digits, high nibble first. */
  function HexEncode(s: Bytes): (r: Bytes)
    ensures |r| == 2 * |s|
    ensures LowerHex(r)
    ensures forall i | 0 <= i < |s| :: r[2 * i] == HexChar(s[i] / 16) && r[2 * i + 1] == HexChar(s[i] % 16)
  {
    if |s| == 0 then []
    else
      var tail := HexEncode(s[1..]);
      var r := [HexChar(s[0] / 16), HexChar(s[0] % 16)] + tail;
      assert forall i | 1 <= i < |s| :: r[2 * i] == tail[2 * (i - 1)] && r[2 * i + 1] == tail[2 * (i - 1) + 1];
      r
  }

  /** Reads pairs of lower-case hex digits back into bytes. */
  function HexDecode(h: Bytes): (r: Bytes)
    requires |h| % 2 == 0 && LowerHex(h)
    ensures |r| == |h| / 2
  {
    if |h| == 0 then []
    else [HexValue(h[0]) * 16 + HexValue(h[1])] + HexDecode(h[2..])
  }

  /** The normaliser of the announce and scrape actions. */
  function Normalize(raw: Bytes): (r: Bytes)
    ensures LowerHex(r)
    ensures LooksHex40(raw) ==> |r| == 40 && forall i | 0 <= i < 40 :: r[i] == LowerByte(raw[i])
    ensures !LooksHex40(raw) ==> |r| == 2 * |raw|
  {
    if LooksHex40(raw) then Downcase(raw) else HexEncode(raw)
  }

  // ---------------------------------------------------------------------
  // Properties
  // ---------------------------------------------------------------------

  /** Hex-encoding loses nothing: decoding it gives the raw bytes back. */
  lemma {:induction false} HexRoundTrip(s: Bytes)
    ensures HexDecode(HexEncode(s)) == s
  {
    if |s| > 0 {
      var h := HexEncode(s);
      HexValueChar(s[0] / 16);
      HexValueChar(s[0] % 16);
      assert h[2..] == HexEncode(s[1..]);
      HexRoundTrip(s[1..]);
      assert s == [s[0]] + s[1..];
    }
  }

  /** Hex-decoding then encoding restores any even-length lower-case hex text. */
  lemma {:induction false} HexRoundTripBack(h: Bytes)
    requires |h| % 2 == 0 && LowerHex(h)
    ensures HexEncode(HexDecode(h)) == h
  {
    if |h| > 0 {
      var b := HexValue(h[0]) * 16 + HexValue(h[1]);
      assert b / 16 == HexValue(h[0]) && b % 16 == HexValue(h[1]);
      HexRoundTripBack(h[2..]);
      assert HexEncode(HexDecode(h)) == [HexChar(b / 16), HexChar(b % 16)] + h[2..];
      assert h == [h[0], h[1]] + h[2..];
    }
  }

  /** A raw value that is not 40 hex digits is recoverable from its key. */
  lemma NormalizeRaw(raw: Bytes)
    requires !LooksHex40(raw)
    ensures HexDecode(Normalize(raw)) == raw
  {
    HexRoundTrip(raw);
  }

  /** The 20-byte binary hash a BitTorrent client sends becomes the 40-digit
      hex key of its bytes. */
  lemma NormalizeBinary(raw: Bytes)
    requires |raw| == 20
    ensures |Normalize(raw)| == 40
    ensures HexDecode(Normalize(raw)) == raw
  {
    HexRoundTrip(raw);
  }

  /** Normalising a normalised 40-digit key changes nothing. */
  lemma NormalizeIdempotent(raw: Bytes)
    requires |Normalize(raw)| == 40
    ensures Normalize(Normalize(raw)) == Normalize(raw)
  {
    var k := Normalize(raw);
    assert LooksHex40(k);
    assert Downcase(k) == k;
  }
}
