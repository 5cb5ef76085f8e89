/**
 * A torrent row (app/models/torrent.rb): its validations, the category name
 * it displays and the magnet URI of BEP 9 built for it. The magnet link
 * percent-encodes the name and each tracker URL with ERB::Util.url_encode,
 * which keeps the unreserved characters of section 2.3 of RFC 3986 and
 * writes every other byte as `%` and two upper-case hex digits (section 2.1).
 */
module TorrentModel {
  import opened Text
  import Category

  datatype Torrent = Torrent(
    id: Uuid,
    userId: Uuid,
    infoHash: Bytes,
    name: Bytes,
    size: int,
    seeders: int,
    leechers: int,
    completed: int,
    categoryId: Option<int>,
    announceUrls: Option<Bytes>)

  /** The validations of app/models/torrent.rb:11-17, except the uniqueness
      of `info_hash`, which is a property of the whole table (see Store). */
  predicate Valid(t: Torrent) {
    && !Blank(t.infoHash) && |t.infoHash| == 40
    && !Blank(t.name)
    && t.size > 0
    && t.seeders >= 0
    && t.leechers >= 0
    && t.completed >= 0
    && (t.categoryId.None? || Category.ValidId(t.categoryId.value))
  }

  /** `category_name`. */
  function CategoryName(t: Torrent): (r: Option<string>)
    ensures r.None? <==> t.categoryId.None? || !Category.ValidId(t.categoryId.value)
    ensures r.Some? ==> exists i | 0 <= i < |Category.Table| :: Category.Table[i] == (t.categoryId.value, r.value)
  {
    if t.categoryId.None? then None else Category.NameFor(t.categoryId.value)
  }

  // ---------------------------------------------------------------------
  // Percent-encoding
  // ---------------------------------------------------------------------

  /** The bytes url_encode leaves alone: `[a-zA-Z0-9_.~-]`. */
  predicate Unreserved(b: Byte) {
    (97 <= b <= 122) || (65 <= b <= 90) || (48 <= b <= 57) || b == 95 || b == 45 || b == 46 || b == 126
  }

  const Percent: Byte := 37
  const Ampersand: Byte := 38

  /** An upper-case hex digit for a nibble. */
  function UpperHex(n: int): (b: Byte)
    requires 0 <= n < 16
    ensures Unreserved(b)
  {
    if n < 10 then 48 + n else 55 + n
  }

  predicate IsUpperHex(b: Byte) {
    (48 <= b <= 57) || (65 <= b <= 70)
  }

  function UpperHexValue(b: Byte): (n: int)
    requires IsUpperHex(b)
    ensures 0 <= n < 16 && UpperHex(n) == b
  {
    if b <= 57 then b - 48 else b - 55
  }

  function EncodeByte(b: Byte): (r: Bytes) {
    if Unreserved(b) then [b] else [Percent, UpperHex(b / 16), UpperHex(b % 16)]
  }

  /** ERB::Util.url_encode. */
  function UrlEncode(s: Bytes): (r: Bytes)
    ensures forall i | 0 <= i < |r| :: Unreserved(r[i]) || r[i] == Percent
    ensures |r| >= |s|
  {
    if |s| == 0 then [] else EncodeByte(s[0]) + UrlEncode(s[1..])
  }

  /** Percent-decoding: the partner of UrlEncode. */
  function UrlDecode(s: Bytes): Option<Bytes> {
    if |s| == 0 then Some([])
    else if s[0] != Percent then
      match UrlDecode(s[1..])
      case None => None
      case Some(rest) => Some([s[0]] + rest)
    else if |s| >= 3 && IsUpperHex(s[1]) && IsUpperHex(s[2]) then
      match UrlDecode(s[3..])
      case None => None
      case Some(rest) => Some([UpperHexValue(s[1]) * 16 + UpperHexValue(s[2])] + rest)
    else None
  }

  // ---------------------------------------------------------------------
  // Magnet links
  // ---------------------------------------------------------------------

  const Scheme: Bytes := Ascii("magnet:?")
  const XtTag: Bytes := Ascii("xt=urn:btih:")
  const DnKey: Bytes := Ascii("dn=")
  const TrKey: Bytes := Ascii("tr=")

  /** `announce_urls.split("\n")`, or no lines when the column is nil. */
  function TrackerLines(urls: Option<Bytes>): seq<Bytes> {
    if urls.None? then [] else RubySplit(urls.value, Newline)
  }

  /** `&tr=` and the encoded URL for each line, concatenated. */
  function TrackerParams(lines: seq<Bytes>): Bytes {
    if |lines| == 0 then []
    else [Ampersand] + TrKey + UrlEncode(lines[0]) + TrackerParams(lines[1..])
  }

  /** `magnet_link`. */
  function MagnetLink(t: Torrent): Bytes {
    Scheme + (XtTag + t.infoHash + [Ampersand] + DnKey + UrlEncode(t.name)
      + TrackerParams(TrackerLines(t.announceUrls)))
  }

  /** The parameters a reader of the magnet link sees: the text after
      `magnet:?` split at each `&`. */
  function MagnetQuery(link: Bytes): seq<Bytes>
    requires |link| >= |Scheme|
  {
    SplitOn(link[|Scheme|..], Ampersand)
  }

  /** The `tr=` parameter for each tracker line. */
  function TrFields(lines: seq<Bytes>): (r: seq<Bytes>)
    ensures |r| == |lines|
    ensures forall i | 0 <= i < |lines| :: r[i] == TrKey + UrlEncode(lines[i])
  {
    seq(|lines|, i requires 0 <= i < |lines| => TrKey + UrlEncode(lines[i]))
  }

  // ---------------------------------------------------------------------
  // Properties
  // ---------------------------------------------------------------------

  /** Encoding never produces `&` or a newline, so encoded values cannot be
      mistaken for parameter separators. */
  lemma UrlEncodeNoSeparator(s: Bytes)
    ensures Free(UrlEncode(s), Ampersand) && Free(UrlEncode(s), Newline)
  {
  }

  /** Decoding an encoding gives the original bytes back. */
  lemma {:induction false} UrlRoundTrip(s: Bytes)
    ensures UrlDecode(UrlEncode(s)) == Some(s)
  {
    if |s| > 0 {
      var b := s[0];
      var e := UrlEncode(s);
      UrlRoundTrip(s[1..]);
      assert e == EncodeByte(b) + UrlEncode(s[1..]);
      if Unreserved(b) {
        assert e[1..] == UrlEncode(s[1..]);
      } else {
        assert e[3..] == UrlEncode(s[1..]);
        assert UpperHexValue(e[1]) == b / 16 && UpperHexValue(e[2]) == b % 16;
      }
      assert s == [b] + s[1..];
    }
  }

  /** A space, a colon and a question mark become %20, %3A and %3F. */
  lemma UrlEncodeExamples()
    ensures UrlEncode([32]) == [Percent, 50, 48]
    ensures UrlEncode([58]) == [Percent, 51, 65]
    ensures UrlEncode([63]) == [Percent, 51, 70]
  {
  }

  /** Read as `&`-prefixed fields, the tracker part is one `tr=` field per line. */
  lemma {:induction false} TrackerParamsFields(lines: seq<Bytes>)
    ensures TrackerParams(lines) == Prefixed(TrFields(lines), Ampersand)
  {
    if |lines| > 0 {
      TrackerParamsFields(lines[1..]);
      assert TrFields(lines)[1..] == TrFields(lines[1..]);
    }
  }

  /** The link starts with the scheme, the info hash, and the encoded name. */
  lemma MagnetPrefix(t: Torrent)
    ensures var head := Scheme + XtTag + t.infoHash + [Ampersand] + DnKey + UrlEncode(t.name);
      |MagnetLink(t)| >= |head| && MagnetLink(t)[..|head|] == head
  {
  }

  /** With no tracker URLs, or an empty column, the link ends after the name. */
  lemma MagnetWithoutTrackers(t: Torrent)
    requires t.announceUrls.None? || t.announceUrls == Some([])
    ensures MagnetLink(t) == Scheme + XtTag + t.infoHash + [Ampersand] + DnKey + UrlEncode(t.name)
  {
    if t.announceUrls.Some? {
      assert IndexOf([], Newline) == 0;
      assert SplitOn([], Newline) == [[]];
    }
  }

  /** The fields of a magnet query, before splitting. */
  function QueryFields(t: Torrent): seq<Bytes> {
    [XtTag + t.infoHash, DnKey + UrlEncode(t.name)] + TrFields(TrackerLines(t.announceUrls))
  }

  /** After the scheme, the link is its fields joined with `&`. */
  lemma MagnetJoin(t: Torrent)
    ensures |MagnetLink(t)| >= |Scheme|
    ensures MagnetLink(t)[|Scheme|..] == Join(QueryFields(t), Ampersand)
  {
    var lines := TrackerLines(t.announceUrls);
    var parts := QueryFields(t);
    var x := XtTag + t.infoHash;
    var d := DnKey + UrlEncode(t.name);
    var tr := TrackerParams(lines);
    TrackerParamsFields(lines);
    JoinPrefixed(parts, Ampersand);
    assert parts[1..][1..] == TrFields(lines);
    assert Prefixed(parts[1..], Ampersand) == [Ampersand] + d + tr;
    var q := XtTag + t.infoHash + [Ampersand] + DnKey + UrlEncode(t.name) + tr;
    assert MagnetLink(t)[|Scheme|..] == q;
    Assoc5(XtTag, t.infoHash, DnKey, UrlEncode(t.name), tr);
  }

  lemma Assoc5(a: Bytes, b: Bytes, c: Bytes, d: Bytes, e: Bytes)
    ensures a + b + [Ampersand] + c + d + e == (a + b) + ([Ampersand] + (c + d) + e)
  {
  }

  /** No field of a magnet query contains `&` when the info hash does not. */
  lemma QueryFieldsFree(t: Torrent)
    requires Free(t.infoHash, Ampersand)
    ensures forall k | 0 <= k < |QueryFields(t)| :: Free(QueryFields(t)[k], Ampersand)
  {
    var lines := TrackerLines(t.announceUrls);
    var parts := QueryFields(t);
    forall k | 0 <= k < |parts| ensures Free(parts[k], Ampersand) {
      UrlEncodeNoSeparator(t.name);
      if k >= 2 {
        UrlEncodeNoSeparator(lines[k - 2]);
        assert parts[k] == TrKey + UrlEncode(lines[k - 2]);
      }
    }
  }

  /** Split at `&`, the link's query is the info hash field, the name field
      and one `tr=` field per line of `announce_urls`, in order. The info
      hash must itself be free of `&`. */
  lemma MagnetQueryFields(t: Torrent)
    requires Free(t.infoHash, Ampersand)
    ensures MagnetQuery(MagnetLink(t)) ==
      [XtTag + t.infoHash, DnKey + UrlEncode(t.name)] + TrFields(TrackerLines(t.announceUrls))
    ensures |MagnetQuery(MagnetLink(t))| == 2 + |TrackerLines(t.announceUrls)|
  {
    MagnetJoin(t);
    QueryFieldsFree(t);
    JoinSplit(QueryFields(t), Ampersand);
  }

  /** Each `tr=` field carries one announce line, recoverable by decoding. */
  lemma TrackerFieldDecodes(lines: seq<Bytes>, i: int)
    requires 0 <= i < |lines|
    ensures TrFields(lines)[i][..|TrKey|] == TrKey
    ensures UrlDecode(TrFields(lines)[i][|TrKey|..]) == Some(lines[i])
  {
    assert TrFields(lines)[i][|TrKey|..] == UrlEncode(lines[i]);
    UrlRoundTrip(lines[i]);
  }
}
