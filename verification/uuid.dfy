/**
 * How a text becomes a value of a PostgreSQL `uuid` column. The primary
 * keys of all three tables are such columns (db/schema.rb:18, :38, :62), so
 * `User.find_by(id: params[:user_id])` (app/controllers/tracker_controller.rb:28)
 * casts the request's text before it queries.
 *
 * The framework's uuid type (Rails 8.1) accepts a text that is eight groups
 * of four hexadecimal digits, each group optionally followed by a hyphen,
 * and optionally wrapped in a pair of braces. A text already in canonical
 * form is kept. Any other accepted text has its braces and hyphens deleted,
 * is lower-cased, and is regrouped 8-4-4-4-12 with hyphens. A text that is
 * not accepted casts to nil, which no row's id equals.
 */
module UuidCast {
  import opened Text
  import opened InfoHash

  const Hyphen: Byte := 45
  const OpenBrace: Byte := 123
  const CloseBrace: Byte := 125

  predicate AllHexDigits(s: Bytes) {
    forall i | 0 <= i < |s| :: IsHexDigit(s[i])
  }

  /** `([a-fA-F0-9]{4}-?){n}` matching all of `s`. */
  predicate Groups(s: Bytes, n: nat)
    decreases n
  {
    if n == 0 then s == []
    else
      && |s| >= 4 && AllHexDigits(s[..4])
      && (Groups(s[4..], n - 1) || (|s| >= 5 && s[4] == Hyphen && Groups(s[5..], n - 1)))
  }

  /** The text inside the optional braces. The closing brace is required
      exactly when the opening one is present (the conditional group
      `(?(1)\}|)`). */
  function Inner(t: Bytes): Option<Bytes> {
    if |t| > 0 && t[0] == OpenBrace then
      if |t| >= 2 && t[|t| - 1] == CloseBrace then Some(t[1..|t| - 1]) else None
    else Some(t)
  }

  /** `ACCEPTABLE_UUID`. */
  predicate Acceptable(t: Bytes) {
    Inner(t).Some? && Groups(Inner(t).value, 8)
  }

  predicate HyphenAt(i: int) {
    i == 8 || i == 13 || i == 18 || i == 23
  }

  /** `CANONICAL_UUID`: lower-case digits grouped 8-4-4-4-12. */
  predicate Canonical(t: Bytes) {
    && |t| == 36
    && forall i | 0 <= i < 36 :: if HyphenAt(i) then t[i] == Hyphen else IsLowerHexDigit(t[i])
  }

  /** The canonical layout with digits of either case. */
  predicate Shaped(t: Bytes) {
    && |t| == 36
    && forall i | 0 <= i < 36 :: if HyphenAt(i) then t[i] == Hyphen else IsHexDigit(t[i])
  }

  /** `delete("{}-").downcase`. */
  function Squeeze(s: Bytes): (r: Bytes)
    ensures |r| <= |s|
  {
    if |s| == 0 then []
    else
      (if s[0] == OpenBrace || s[0] == CloseBrace || s[0] == Hyphen then [] else [LowerByte(s[0])])
        + Squeeze(s[1..])
  }

  /** The interpolation of `format_uuid`: the first 8 digits, then groups of
      4, 4 and 4, then the rest, joined by hyphens. */
  function Regroup(d: Bytes): Bytes
    requires |d| >= 20
  {
    d[..8] + [Hyphen] + d[8..12] + [Hyphen] + d[12..16] + [Hyphen] + d[16..20] + [Hyphen] + d[20..]
  }

  /** The uuid type's `cast_value`; None is nil. */
  function Cast(t: Bytes): (r: Option<Uuid>)
    ensures r.Some? <==> Acceptable(t)
    ensures r.Some? ==> Canonical(r.value)
  {
    if !Acceptable(t) then None
    else if Canonical(t) then Some(t)
    else
      var b := Inner(t).value;
      GroupsSqueeze(b, 8);
      SqueezeInner(t);
      RegroupCanonical(Squeeze(t));
      Some(Regroup(Squeeze(t)))
  }

  /** Upper-casing of the ASCII letters. */
  function Upcase(s: Bytes): (r: Bytes)
    ensures |r| == |s|
    ensures forall i | 0 <= i < |s| :: r[i] == (if 97 <= s[i] <= 122 then s[i] - 32 else s[i])
  {
    seq(|s|, i requires 0 <= i < |s| => if 97 <= s[i] <= 122 then s[i] - 32 else s[i])
  }

  // ---------------------------------------------------------------------
  // Squeeze
  // ---------------------------------------------------------------------

  lemma {:induction false} SqueezeAppend(a: Bytes, b: Bytes)
    ensures Squeeze(a + b) == Squeeze(a) + Squeeze(b)
  {
    if |a| > 0 {
      assert (a + b)[1..] == a[1..] + b;
      SqueezeAppend(a[1..], b);
    } else {
      assert a + b == b;
    }
  }

  /** Hex digits lose nothing but their case. */
  lemma {:induction false} SqueezeHex(s: Bytes)
    requires AllHexDigits(s)
    ensures Squeeze(s) == Downcase(s)
    ensures LowerHex(Squeeze(s))
  {
    if |s| > 0 {
      SqueezeHex(s[1..]);
      assert Downcase(s) == [LowerByte(s[0])] + Downcase(s[1..]);
    }
  }

  /** Lower-case digits are kept as they are. */
  lemma SqueezeLowerHex(s: Bytes)
    requires LowerHex(s)
    ensures Squeeze(s) == s
  {
    SqueezeHex(s);
    assert Downcase(s) == s;
  }

  /** Squeezing ignores case. */
  lemma {:induction false} SqueezeDowncase(s: Bytes)
    ensures Squeeze(Downcase(s)) == Squeeze(s)
  {
    if |s| > 0 {
      SqueezeDowncase(s[1..]);
      assert Downcase(s)[1..] == Downcase(s[1..]);
    }
  }

  /** The braces are deleted with the hyphens. */
  lemma SqueezeInner(t: Bytes)
    requires Inner(t).Some?
    ensures Squeeze(t) == Squeeze(Inner(t).value)
  {
    if |t| > 0 && t[0] == OpenBrace {
      var b := t[1..|t| - 1];
      assert t == [OpenBrace] + b + [CloseBrace];
      SqueezeAppend([OpenBrace] + b, [CloseBrace]);
      SqueezeAppend([OpenBrace], b);
    }
  }

  /** n accepted groups squeeze to 4n lower-case digits. */
  lemma {:induction false} GroupsSqueeze(s: Bytes, n: nat)
    requires Groups(s, n)
    ensures |Squeeze(s)| == 4 * n && LowerHex(Squeeze(s))
    decreases n
  {
    if n > 0 {
      SqueezeHex(s[..4]);
      if Groups(s[4..], n - 1) {
        GroupsSqueeze(s[4..], n - 1);
        assert s == s[..4] + s[4..];
        SqueezeAppend(s[..4], s[4..]);
      } else {
        GroupsSqueeze(s[5..], n - 1);
        assert s == s[..4] + ([s[4]] + s[5..]);
        SqueezeAppend(s[..4], [s[4]] + s[5..]);
        SqueezeAppend([s[4]], s[5..]);
      }
    }
  }

  /** Squeezing after a group of digits, and after a hyphen. */
  lemma SqueezeThen(a: Bytes, b: Bytes)
    requires LowerHex(b)
    ensures Squeeze(a + b) == Squeeze(a) + b
    ensures Squeeze(a + [Hyphen]) == Squeeze(a)
  {
    SqueezeAppend(a, b);
    SqueezeLowerHex(b);
    SqueezeAppend(a, [Hyphen]);
  }

  /** Regrouping inserts only hyphens, which squeezing deletes again. */
  lemma SqueezeRegroup(d: Bytes)
    requires |d| == 32 && LowerHex(d)
    ensures Squeeze(Regroup(d)) == d
  {
    var h := [Hyphen];
    var a1 := d[..8];
    var a2 := a1 + h + d[8..12];
    var a3 := a2 + h + d[12..16];
    var a4 := a3 + h + d[16..20];
    SqueezeLowerHex(a1);
    SqueezeThen(a1, d[8..12]);
    SqueezeThen(a1 + h, d[8..12]);
    SqueezeThen(a2, d[12..16]);
    SqueezeThen(a2 + h, d[12..16]);
    SqueezeThen(a3, d[16..20]);
    SqueezeThen(a3 + h, d[16..20]);
    SqueezeThen(a4, d[20..]);
    SqueezeThen(a4 + h, d[20..]);
    assert Regroup(d) == a4 + h + d[20..];
    assert d == d[..8] + d[8..12] + d[12..16] + d[16..20] + d[20..];
  }

  lemma RegroupCanonical(d: Bytes)
    requires |d| == 32 && LowerHex(d)
    ensures Canonical(Regroup(d))
  {
    var r := Regroup(d);
    forall i | 0 <= i < 36 ensures if HyphenAt(i) then r[i] == Hyphen else IsLowerHexDigit(r[i]) {
      if i < 8 { assert r[i] == d[i]; }
      else if i == 8 { }
      else if i < 13 { assert r[i] == d[i - 1]; }
      else if i == 13 { }
      else if i < 18 { assert r[i] == d[i - 2]; }
      else if i == 18 { }
      else if i < 23 { assert r[i] == d[i - 3]; }
      else if i == 23 { }
      else { assert r[i] == d[i - 4]; }
    }
  }

  /** The digit groups of a canonical text are lower-case hex. */
  lemma CanonicalDigitGroups(c: Bytes)
    requires Canonical(c)
    ensures LowerHex(c[..8]) && LowerHex(c[9..13]) && LowerHex(c[14..18])
    ensures LowerHex(c[19..23]) && LowerHex(c[24..])
  {
    forall k | 0 <= k < 8 ensures IsLowerHexDigit(c[..8][k]) { assert !HyphenAt(k); }
    forall k | 0 <= k < 4 ensures IsLowerHexDigit(c[9..13][k]) { assert !HyphenAt(9 + k); }
    forall k | 0 <= k < 4 ensures IsLowerHexDigit(c[14..18][k]) { assert !HyphenAt(14 + k); }
    forall k | 0 <= k < 4 ensures IsLowerHexDigit(c[19..23][k]) { assert !HyphenAt(19 + k); }
    forall k | 0 <= k < 12 ensures IsLowerHexDigit(c[24..][k]) { assert !HyphenAt(24 + k); }
  }

  /** A canonical text is its digit groups joined by hyphens. */
  lemma CanonicalJoin(c: Bytes)
    requires Canonical(c)
    ensures c == c[..8] + [Hyphen] + c[9..13] + [Hyphen] + c[14..18] + [Hyphen] + c[19..23] + [Hyphen] + c[24..]
  {
    assert HyphenAt(8) && HyphenAt(13) && HyphenAt(18) && HyphenAt(23);
    assert c[..9] == c[..8] + [Hyphen];
    assert c[..13] == c[..9] + c[9..13];
    assert c[..14] == c[..13] + [Hyphen];
    assert c[..18] == c[..14] + c[14..18];
    assert c[..19] == c[..18] + [Hyphen];
    assert c[..23] == c[..19] + c[19..23];
    assert c[..24] == c[..23] + [Hyphen];
    assert c == c[..24] + c[24..];
  }

  lemma LowerHexAppend(a: Bytes, b: Bytes)
    requires LowerHex(a) && LowerHex(b)
    ensures LowerHex(a + b)
  {
    forall k | 0 <= k < |a + b| ensures IsLowerHexDigit((a + b)[k]) {
      if k < |a| { assert (a + b)[k] == a[k]; } else { assert (a + b)[k] == b[k - |a|]; }
    }
  }

  /** A canonical text is the regrouping of its digits. */
  lemma CanonicalRegroups(c: Bytes)
    requires Canonical(c)
    ensures var d := c[..8] + c[9..13] + c[14..18] + c[19..23] + c[24..];
      |d| == 32 && LowerHex(d) && Regroup(d) == c
  {
    CanonicalDigitGroups(c);
    var d1 := c[..8] + c[9..13];
    var d2 := d1 + c[14..18];
    var d3 := d2 + c[19..23];
    var d := d3 + c[24..];
    LowerHexAppend(c[..8], c[9..13]);
    LowerHexAppend(d1, c[14..18]);
    LowerHexAppend(d2, c[19..23]);
    LowerHexAppend(d3, c[24..]);
    assert d[..8] == c[..8];
    assert d[8..12] == c[9..13];
    assert d[12..16] == c[14..18];
    assert d[16..20] == c[19..23];
    assert d[20..] == c[24..];
    CanonicalJoin(c);
  }

  /** The canonical layout, in either case, is eight groups with hyphens
      after the second to the fifth. */
  lemma ShapedGroups(c: Bytes)
    requires Shaped(c)
    ensures Groups(c, 8)
  {
    forall k | 0 <= k <= 32 && !HyphenAt(k) && !HyphenAt(k + 1) && !HyphenAt(k + 2) && !HyphenAt(k + 3)
      ensures AllHexDigits(c[k..k + 4])
    {
    }
    assert c[32..][..4] == c[32..36] && c[32..][4..] == [];
    assert Groups(c[32..], 1);
    assert c[28..][..4] == c[28..32] && c[28..][4..] == c[32..];
    assert Groups(c[28..], 2);
    assert c[24..][..4] == c[24..28] && c[24..][4..] == c[28..];
    assert Groups(c[24..], 3);
    assert c[19..][..4] == c[19..23] && c[19..][5..] == c[24..];
    assert Groups(c[19..], 4);
    assert c[14..][..4] == c[14..18] && c[14..][5..] == c[19..];
    assert Groups(c[14..], 5);
    assert c[9..][..4] == c[9..13] && c[9..][5..] == c[14..];
    assert Groups(c[9..], 6);
    assert c[4..][..4] == c[4..8] && c[4..][5..] == c[9..];
    assert Groups(c[4..], 7);
    assert c[..4] == c[0..4];
  }

  /** Four hex digits per group, no hyphens: also accepted. */
  lemma {:induction false} HexGroups(d: Bytes, n: nat)
    requires |d| == 4 * n && AllHexDigits(d)
    ensures Groups(d, n)
    decreases n
  {
    if n > 0 {
      HexGroups(d[4..], n - 1);
    }
  }

  // ---------------------------------------------------------------------
  // Properties of the cast
  // ---------------------------------------------------------------------

  /** A canonical text is accepted, and regrouping its digits gives it back,
      so keeping it unchanged agrees with formatting it. */
  lemma CanonicalFormats(c: Bytes)
    requires Canonical(c)
    ensures Acceptable(c)
    ensures |Squeeze(c)| == 32 && Regroup(Squeeze(c)) == c
  {
    ShapedGroups(c);
    assert Inner(c) == Some(c);
    CanonicalRegroups(c);
    var d := c[..8] + c[9..13] + c[14..18] + c[19..23] + c[24..];
    SqueezeRegroup(d);
  }

  /** Every accepted text casts to its digits, lower-cased and regrouped,
      whether or not it was canonical. */
  lemma CastFormats(t: Bytes)
    requires Acceptable(t)
    ensures |Squeeze(t)| == 32 && LowerHex(Squeeze(t))
    ensures Cast(t) == Some(Regroup(Squeeze(t)))
  {
    GroupsSqueeze(Inner(t).value, 8);
    SqueezeInner(t);
    if Canonical(t) {
      CanonicalFormats(t);
    }
  }

  /** An id read from the column is kept as it is, so casting twice is
      casting once. */
  lemma CastIdempotent(t: Bytes)
    requires Cast(t).Some?
    ensures Cast(Cast(t).value) == Cast(t)
  {
    CanonicalFormats(Cast(t).value);
  }

  /** The cast keeps the text's digits, lower-cased, in order. */
  lemma CastKeepsDigits(t: Bytes)
    requires Cast(t).Some?
    ensures Squeeze(Cast(t).value) == Squeeze(t)
  {
    CastFormats(t);
    SqueezeRegroup(Squeeze(t));
  }

  /** The spellings of a stored id that the cast resolves to it: upper case,
      braces, and no hyphens. */
  lemma CastSpellings(c: Bytes)
    requires Canonical(c)
    ensures Cast(Upcase(c)) == Some(c)
    ensures Cast([OpenBrace] + c + [CloseBrace]) == Some(c)
    ensures Cast(Squeeze(c)) == Some(c)
  {
    CastUpcase(c);
    CastBraced(c);
    CastBare(c);
  }

  lemma CastUpcase(c: Bytes)
    requires Canonical(c)
    ensures Cast(Upcase(c)) == Some(c)
  {
    CanonicalFormats(c);
    var u := Upcase(c);
    assert Downcase(u) == c;
    SqueezeDowncase(u);
    assert Shaped(u);
    ShapedGroups(u);
    assert Inner(u) == Some(u);
    CastFormats(u);
  }

  lemma CastBraced(c: Bytes)
    requires Canonical(c)
    ensures Cast([OpenBrace] + c + [CloseBrace]) == Some(c)
  {
    CanonicalFormats(c);
    var t := [OpenBrace] + c + [CloseBrace];
    assert t[1..|t| - 1] == c;
    CastFormats(t);
    SqueezeInner(t);
  }

  lemma CastBare(c: Bytes)
    requires Canonical(c)
    ensures Cast(Squeeze(c)) == Some(c)
  {
    CanonicalFormats(c);
    CastFormats(c);
    var d := Squeeze(c);
    HexGroups(d, 8);
    assert Inner(d) == Some(d);
    CastFormats(d);
    SqueezeLowerHex(d);
  }

  /** An accepted text is never blank: it starts with a brace or a digit. */
  lemma AcceptableNotBlank(t: Bytes)
    requires Acceptable(t)
    ensures !Blank(t)
  {
    var b := Inner(t).value;
    assert b[..4][0] == b[0];
    if t[0] != OpenBrace {
      assert t == b;
      assert IsHexDigit(t[0]);
    }
    assert !IsSpace(t[0]);
  }
}
