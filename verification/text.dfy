/**
 * Byte strings and the small text routines the tracker relies on: decimal
 * rendering of integers (Ruby's Integer#to_s), reading a run of decimal
 * digits back, splitting on a separator byte (Ruby's String#split with a
 * one-character pattern) and joining.
 *
 * Ruby strings are byte sequences; every string the tracker handles at the
 * byte level is modelled as `Bytes`.
 */
module Text {

  type Byte = b: int | 0 <= b < 256
  type Bytes = seq<Byte>

  /** An optional value: Ruby's `nil` or an object. */
  datatype Option<+T> = None | Some(value: T)

  /** Record identifiers (the UUID primary keys of the tables), compared only
      for equality. */
  type Uuid = Bytes

  /** True when every character of a literal is 7-bit ASCII. */
  predicate IsAscii(s: string) {
    forall i | 0 <= i < |s| :: s[i] as int < 128
  }

  /** The UTF-8 bytes of an ASCII literal. */
  function Ascii(s: string): (r: Bytes)
    requires IsAscii(s)
    ensures |r| == |s|
    ensures forall i | 0 <= i < |s| :: r[i] == s[i] as int
  {
    seq(|s|, i requires 0 <= i < |s| => s[i] as int)
  }

  const Zero: Byte := 48
  const Dot: Byte := 46
  const Newline: Byte := 10

  predicate IsDigit(b: Byte) {
    48 <= b <= 57
  }

  predicate AllDigits(s: Bytes) {
    forall i | 0 <= i < |s| :: IsDigit(s[i])
  }

  /** Ruby's String#blank? restricted to ASCII white space. */
  predicate IsSpace(b: Byte) {
    b == 32 || 9 <= b <= 13
  }

  predicate Blank(s: Bytes) {
    forall i | 0 <= i < |s| :: IsSpace(s[i])
  }

  // ---------------------------------------------------------------------
  // Decimal numerals
  // ---------------------------------------------------------------------

  /** Decimal digits of a natural number, most significant first, no leading zero. */
  function NatDigits(n: nat): (r: Bytes)
    ensures |r| >= 1 && AllDigits(r)
    ensures |r| > 1 ==> r[0] != Zero
  {
    if n < 10 then [Zero + n] else NatDigits(n / 10) + [Zero + n % 10]
  }

  /** Ruby's Integer#to_s: a minus sign for negative values, then the digits. */
  function Decimal(n: int): (r: Bytes)
    ensures n >= 0 ==> r == NatDigits(n)
    ensures n < 0 ==> |r| >= 2 && r[0] == 45 && r[1..] == NatDigits(-n)
  {
    if n >= 0 then NatDigits(n) else [45] + NatDigits(-n)
  }

  /** The value of a string of decimal digits, most significant first. */
  function DigitsValue(ds: Bytes): nat
    requires AllDigits(ds)
  {
    if |ds| == 0 then 0 else DigitsValue(ds[..|ds| - 1]) * 10 + (ds[|ds| - 1] - Zero)
  }

  /** Reading the digits back gives the number that was rendered. */
  lemma {:induction false} NatDigitsValue(n: nat)
    ensures DigitsValue(NatDigits(n)) == n
  {
    if n >= 10 {
      var d := NatDigits(n);
      assert d[..|d| - 1] == NatDigits(n / 10);
      NatDigitsValue(n / 10);
    }
  }

  /** Rendering is injective on naturals. */
  lemma NatDigitsInjective(m: nat, n: nat)
    requires NatDigits(m) == NatDigits(n)
    ensures m == n
  {
    NatDigitsValue(m);
    NatDigitsValue(n);
  }

  /** Length of the longest prefix of `s` made of decimal digits. */
  function DigitRun(s: Bytes): (k: nat)
    ensures k <= |s|
    ensures AllDigits(s[..k])
    ensures k < |s| ==> !IsDigit(s[k])
  {
    if |s| == 0 || !IsDigit(s[0]) then 0
    else
      var k := 1 + DigitRun(s[1..]);
      assert s[..k] == [s[0]] + s[1..][..k - 1];
      k
  }

  /** A digit string followed by a non-digit is read back whole. */
  lemma DigitRunOf(ds: Bytes, rest: Bytes)
    requires AllDigits(ds)
    requires |rest| > 0 ==> !IsDigit(rest[0])
    ensures DigitRun(ds + rest) == |ds|
    ensures (ds + rest)[..|ds|] == ds && (ds + rest)[|ds|..] == rest
  {
    if |rest| > 0 {
      assert (ds + rest)[|ds|] == rest[0];
    }
  }

  // ---------------------------------------------------------------------
  // Splitting and joining on a separator byte
  // ---------------------------------------------------------------------

  /** Index of the first `b` in `s`, or |s| when there is none. */
  function IndexOf(s: Bytes, b: Byte): (i: nat)
    ensures i <= |s|
    ensures i < |s| ==> s[i] == b
    ensures forall j | 0 <= j < i :: s[j] != b
  {
    if |s| == 0 then 0 else if s[0] == b then 0 else 1 + IndexOf(s[1..], b)
  }

  /** Every field between separators, empty fields included. */
  function SplitOn(s: Bytes, sep: Byte): (r: seq<Bytes>)
    ensures |r| >= 1
    decreases |s|
  {
    var i := IndexOf(s, sep);
    if i == |s| then [s] else [s[..i]] + SplitOn(s[i + 1..], sep)
  }

  /** The fields joined back with the separator between them. */
  function Join(parts: seq<Bytes>, sep: Byte): Bytes {
    if |parts| == 0 then []
    else if |parts| == 1 then parts[0]
    else parts[0] + [sep] + Join(parts[1..], sep)
  }

  predicate Free(s: Bytes, b: Byte) {
    forall i | 0 <= i < |s| :: s[i] != b
  }

  /** No field of a split contains the separator. */
  lemma {:induction false} SplitFree(s: Bytes, sep: Byte)
    ensures forall k | 0 <= k < |SplitOn(s, sep)| :: Free(SplitOn(s, sep)[k], sep)
    decreases |s|
  {
    var i := IndexOf(s, sep);
    var all := SplitOn(s, sep);
    if i < |s| {
      SplitFree(s[i + 1..], sep);
      var tail := SplitOn(s[i + 1..], sep);
      assert all == [s[..i]] + tail;
      assert Free(all[0], sep);
      assert forall k | 1 <= k < |all| :: all[k] == tail[k - 1];
    } else {
      assert all == [s];
    }
  }

  /** Joining the fields of a split restores the input. */
  lemma {:induction false} SplitJoinBack(s: Bytes, sep: Byte)
    ensures Join(SplitOn(s, sep), sep) == s
    decreases |s|
  {
    var i := IndexOf(s, sep);
    if i < |s| {
      SplitJoinBack(s[i + 1..], sep);
      var tail := SplitOn(s[i + 1..], sep);
      var all := SplitOn(s, sep);
      assert all == [s[..i]] + tail;
      assert Join(all, sep) == s[..i] + [sep] + Join(tail, sep);
      assert s == s[..i] + [sep] + s[i + 1..];
    }
  }

  /** No field of a split contains the separator, and joining restores the input. */
  lemma SplitJoin(s: Bytes, sep: Byte)
    ensures forall k | 0 <= k < |SplitOn(s, sep)| :: Free(SplitOn(s, sep)[k], sep)
    ensures Join(SplitOn(s, sep), sep) == s
  {
    SplitFree(s, sep);
    SplitJoinBack(s, sep);
  }

  /** Splitting a join of separator-free fields gives the fields back. */
  lemma {:induction false} JoinSplit(parts: seq<Bytes>, sep: Byte)
    requires |parts| >= 1
    requires forall k | 0 <= k < |parts| :: Free(parts[k], sep)
    ensures SplitOn(Join(parts, sep), sep) == parts
  {
    var p := parts[0];
    if |parts| == 1 {
      assert IndexOf(p, sep) == |p|;
    } else {
      var s := Join(parts, sep);
      assert s == p + ([sep] + Join(parts[1..], sep));
      assert IndexOf(s, sep) == |p| by {
        assert s[|p|] == sep;
        assert forall j | 0 <= j < |p| :: s[j] == p[j];
      }
      assert s[..|p|] == p;
      assert s[|p| + 1..] == Join(parts[1..], sep);
      JoinSplit(parts[1..], sep);
    }
  }

  /** Each field preceded by the separator, all concatenated. */
  function Prefixed(parts: seq<Bytes>, sep: Byte): (r: Bytes)
    ensures |parts| > 0 ==> |r| > 0 && r[0] == sep
  {
    if |parts| == 0 then [] else [sep] + parts[0] + Prefixed(parts[1..], sep)
  }

  /** A join is the first field followed by the others, each after a separator. */
  lemma {:induction false} JoinPrefixed(parts: seq<Bytes>, sep: Byte)
    requires |parts| >= 1
    ensures Join(parts, sep) == parts[0] + Prefixed(parts[1..], sep)
  {
    if |parts| > 1 {
      JoinPrefixed(parts[1..], sep);
      assert parts[1..][1..] == parts[2..];
    }
  }

  /** Ruby's Array#join with a separator string. */
  function JoinBy(parts: seq<Bytes>, sep: Bytes): Bytes {
    if |parts| == 0 then []
    else if |parts| == 1 then parts[0]
    else parts[0] + sep + JoinBy(parts[1..], sep)
  }

  /** Drops empty fields from the end, as Ruby's String#split does. */
  function DropTrailingEmpty(parts: seq<Bytes>): (r: seq<Bytes>)
    ensures |r| <= |parts| && r == parts[..|r|]
    ensures |r| > 0 ==> r[|r| - 1] != []
    ensures forall k | |r| <= k < |parts| :: parts[k] == []
  {
    if |parts| == 0 then []
    else if parts[|parts| - 1] == [] then DropTrailingEmpty(parts[..|parts| - 1])
    else parts
  }

  /** Ruby's String#split with a one-byte literal pattern and no limit. */
  function RubySplit(s: Bytes, sep: Byte): seq<Bytes> {
    DropTrailingEmpty(SplitOn(s, sep))
  }

  /** The fields of a Ruby split are separator-free, the last one is not
      empty, and joined they form a prefix of the input whose remainder
      consists of separators only. */
  lemma RubySplitSpec(s: Bytes, sep: Byte)
    ensures forall k | 0 <= k < |RubySplit(s, sep)| :: Free(RubySplit(s, sep)[k], sep)
    ensures |RubySplit(s, sep)| > 0 ==> RubySplit(s, sep)[|RubySplit(s, sep)| - 1] != []
    ensures |Join(RubySplit(s, sep), sep)| <= |s|
    ensures s[..|Join(RubySplit(s, sep), sep)|] == Join(RubySplit(s, sep), sep)
    ensures forall i | |Join(RubySplit(s, sep), sep)| <= i < |s| :: s[i] == sep
  {
    var all := SplitOn(s, sep);
    var r := RubySplit(s, sep);
    SplitJoin(s, sep);
    if |r| == 0 {
      JoinEmpties(all, sep);
    } else {
      JoinTrailing(r, all, sep);
    }
  }

  /** Joining empty fields yields one separator between each pair. */
  lemma {:induction false} JoinEmpties(all: seq<Bytes>, sep: Byte)
    requires forall k | 0 <= k < |all| :: all[k] == []
    ensures forall i | 0 <= i < |Join(all, sep)| :: Join(all, sep)[i] == sep
  {
    if |all| > 1 {
      JoinEmpties(all[1..], sep);
    }
  }

  /** Joining a list that ends with empty fields appends one separator per field. */
  lemma {:induction false} JoinTrailing(r: seq<Bytes>, all: seq<Bytes>, sep: Byte)
    requires 0 < |r| <= |all| && r == all[..|r|]
    requires forall k | |r| <= k < |all| :: all[k] == []
    ensures Join(all, sep) == Join(r, sep) + seq(|all| - |r|, _ => sep)
    decreases |all|
  {
    if |all| == |r| {
      assert all == r;
      assert seq(0, _ => sep) == [];
    } else {
      var init := all[..|all| - 1];
      JoinTrailing(r, init, sep);
      JoinSnoc(init, sep);
      assert all == init + [[]];
      assert seq(|all| - |r|, _ => sep) == seq(|init| - |r|, _ => sep) + [sep];
    }
  }

  /** Appending an empty field adds one trailing separator. */
  lemma {:induction false} JoinSnoc(parts: seq<Bytes>, sep: Byte)
    requires |parts| >= 1
    ensures Join(parts + [[]], sep) == Join(parts, sep) + [sep]
  {
    if |parts| == 1 {
      assert Join(parts + [[]], sep) == parts[0] + [sep] + Join([[]], sep);
    } else {
      assert (parts + [[]])[1..] == parts[1..] + [[]];
      JoinSnoc(parts[1..], sep);
    }
  }

  // ---------------------------------------------------------------------
  // Selecting from sequences
  // ---------------------------------------------------------------------

  /** The first components of a sequence of pairs, in order: the ids of
      table rows, the keys of hash entries. */
  function Firsts<K, V>(ps: seq<(K, V)>): (r: seq<K>)
    ensures |r| == |ps| && forall i | 0 <= i < |ps| :: r[i] == ps[i].0
  {
    seq(|ps|, i requires 0 <= i < |ps| => ps[i].0)
  }

  /** The elements of `s` satisfying `f`, in their original order. */
  function Filter<T>(s: seq<T>, f: T -> bool): (r: seq<T>)
    ensures |r| <= |s|
    ensures forall i | 0 <= i < |r| :: f(r[i])
  {
    if |s| == 0 then []
    else (if f(s[0]) then [s[0]] else []) + Filter(s[1..], f)
  }

  /** The filter keeps exactly the elements that pass. */
  lemma {:induction false} FilterMember<T>(s: seq<T>, f: T -> bool, x: T)
    ensures x in Filter(s, f) <==> x in s && f(x)
  {
    if |s| > 0 {
      FilterMember(s[1..], f, x);
      assert s == [s[0]] + s[1..];
    }
  }

  /** The number of elements of `s` satisfying `f`. */
  function Count<T>(s: seq<T>, f: T -> bool): (n: nat)
    ensures n == |Filter(s, f)|
  {
    if |s| == 0 then 0
    else (if f(s[0]) then 1 else 0) + Count(s[1..], f)
  }

  /** Filtering distributes over concatenation. */
  lemma {:induction false} FilterAppend<T>(a: seq<T>, b: seq<T>, f: T -> bool)
    ensures Filter(a + b, f) == Filter(a, f) + Filter(b, f)
  {
    if |a| == 0 {
      assert a + b == b;
    } else {
      assert (a + b)[1..] == a[1..] + b;
      FilterAppend(a[1..], b, f);
    }
  }

  /** Two tests that agree on the elements of `s` select the same elements. */
  lemma {:induction false} FilterAgree<T>(s: seq<T>, f: T -> bool, g: T -> bool)
    requires forall i | 0 <= i < |s| :: f(s[i]) == g(s[i])
    ensures Filter(s, f) == Filter(s, g)
  {
    if |s| > 0 {
      FilterAgree(s[1..], f, g);
    }
  }

  /** A test and its negation split a sequence into two parts that together
      hold every element once. */
  lemma {:induction false} FilterComplement<T>(s: seq<T>, f: T -> bool, g: T -> bool)
    requires forall i | 0 <= i < |s| :: g(s[i]) == !f(s[i])
    ensures multiset(Filter(s, f)) + multiset(Filter(s, g)) == multiset(s)
    ensures |Filter(s, f)| + |Filter(s, g)| == |s|
  {
    if |s| > 0 {
      FilterComplement(s[1..], f, g);
      assert s == [s[0]] + s[1..];
    }
  }

  /** A test every element passes keeps the whole sequence. */
  lemma {:induction false} FilterAll<T>(s: seq<T>, f: T -> bool)
    requires forall i | 0 <= i < |s| :: f(s[i])
    ensures Filter(s, f) == s
  {
    if |s| > 0 {
      FilterAll(s[1..], f);
      assert s == [s[0]] + s[1..];
    }
  }

  /** A test no element passes keeps nothing. */
  lemma {:induction false} FilterNone<T>(s: seq<T>, f: T -> bool)
    requires forall i | 0 <= i < |s| :: !f(s[i])
    ensures Filter(s, f) == []
  {
    if |s| > 0 {
      FilterNone(s[1..], f);
    }
  }
}
