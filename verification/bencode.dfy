/**
 * Bencoding, the serialisation of the BitTorrent protocol (BEP 3, section
 * "Bencoding"), as the tracker's `bencode` helper writes it
 * (app/controllers/tracker_controller.rb:130-143):
 *
 *   - an integer n becomes `i`, its decimal form, `e`;
 *   - a string becomes its byte length, `:`, its bytes;
 *   - an array becomes `l`, its encoded items, `e`;
 *   - a hash becomes `d`, then for each entry in key order the encoded key
 *     and the encoded value, then `e`;
 *   - any other object becomes the empty string.
 *
 * Encoding is split into `Canon`, which sorts every dictionary by the byte
 * order of its keys, and `Emit`, which writes a value in the order it is
 * given. The tracker only encodes; `Decode` is this model's reader, used to
 * state that the encoding loses nothing.
 */
module Bencode {
  import opened Text

  /** The Ruby objects the encoder distinguishes. Hash keys are already
      strings (`k.to_s`); `BOther` is any other object. */
  datatype BValue =
    | BInt(n: int)
    | BStr(s: Bytes)
    | BList(items: seq<BValue>)
    | BDict(entries: seq<(Bytes, BValue)>)
    | BOther

  const CharI: Byte := 105
  const CharL: Byte := 108
  const CharD: Byte := 100
  const CharE: Byte := 101
  const Colon: Byte := 58
  const Minus: Byte := 45

  // ---------------------------------------------------------------------
  // Byte order of keys (Ruby's String#<=>)
  // ---------------------------------------------------------------------

  /** Strict lexicographic order on bytes; a proper prefix comes first. */
  predicate Less(a: Bytes, b: Bytes) {
    if |a| == 0 then |b| > 0
    else |b| > 0 && (a[0] < b[0] || (a[0] == b[0] && Less(a[1..], b[1..])))
  }

  lemma LessIrreflexive(a: Bytes)
    ensures !Less(a, a)
  {
  }

  lemma {:induction false} LessTransitive(a: Bytes, b: Bytes, c: Bytes)
    requires Less(a, b) && Less(b, c)
    ensures Less(a, c)
  {
    if |a| > 0 && a[0] == b[0] && b[0] == c[0] {
      LessTransitive(a[1..], b[1..], c[1..]);
    }
  }

  lemma {:induction false} LessTotal(a: Bytes, b: Bytes)
    requires a != b
    ensures Less(a, b) || Less(b, a)
  {
    if |a| > 0 && |b| > 0 && a[0] == b[0] {
      assert a == [a[0]] + a[1..] && b == [b[0]] + b[1..];
      LessTotal(a[1..], b[1..]);
    }
  }

  lemma {:induction false} LessAsymmetric(a: Bytes, b: Bytes)
    requires Less(a, b)
    ensures !Less(b, a)
  {
    if |a| > 0 && a[0] == b[0] {
      LessAsymmetric(a[1..], b[1..]);
    }
  }

  // ---------------------------------------------------------------------
  // Sorting a hash's entries (Ruby's Hash#sort)
  // ---------------------------------------------------------------------

  type Entry = (Bytes, BValue)

  predicate DistinctKeys(es: seq<Entry>) {
    forall i, j | 0 <= i < j < |es| :: es[i].0 != es[j].0
  }

  predicate StrictlySorted(es: seq<Entry>) {
    forall i | 0 <= i < |es| - 1 :: Less(es[i].0, es[i + 1].0)
  }

  predicate KeyAbsent(es: seq<Entry>, k: Bytes) {
    forall i | 0 <= i < |es| :: es[i].0 != k
  }

  /** Inserts `e` in front of the first entry whose key is larger. */
  function Insert(e: Entry, es: seq<Entry>): (r: seq<Entry>)
    ensures multiset(r) == multiset(es) + multiset{e}
    ensures |r| == |es| + 1
    ensures r[0] == e || (|es| > 0 && r[0] == es[0])
  {
    if |es| == 0 then [e]
    else if Less(e.0, es[0].0) then [e] + es
    else
      assert es == [es[0]] + es[1..];
      [es[0]] + Insert(e, es[1..])
  }

  /** Insertion sort on keys (Ruby's Hash#sort for distinct keys). */
  function SortEntries(es: seq<Entry>): (r: seq<Entry>)
    ensures multiset(r) == multiset(es)
    ensures |r| == |es|
  {
    if |es| == 0 then []
    else
      assert es == [es[0]] + es[1..];
      Insert(es[0], SortEntries(es[1..]))
  }

  /** Inserting a new key into a strictly sorted list keeps it strictly sorted. */
  lemma {:induction false} InsertSorted(e: Entry, es: seq<Entry>)
    requires StrictlySorted(es) && KeyAbsent(es, e.0)
    ensures StrictlySorted(Insert(e, es))
  {
    if |es| > 0 && !Less(e.0, es[0].0) {
      InsertSorted(e, es[1..]);
      LessTotal(e.0, es[0].0);
      var tail := Insert(e, es[1..]);
      assert Less(es[0].0, tail[0].0);
      assert Insert(e, es) == [es[0]] + tail;
    }
  }

  /** With distinct keys, sorting yields strictly increasing keys. */
  lemma {:induction false} SortEntriesSorted(es: seq<Entry>)
    requires DistinctKeys(es)
    ensures StrictlySorted(SortEntries(es))
  {
    if |es| > 0 {
      var rest := SortEntries(es[1..]);
      SortEntriesSorted(es[1..]);
      forall i | 0 <= i < |rest| ensures rest[i].0 != es[0].0 {
        assert rest[i] in multiset(es[1..]);
        var j :| 0 <= j < |es[1..]| && es[1..][j] == rest[i];
        assert es[j + 1] == rest[i];
      }
      InsertSorted(es[0], rest);
    }
  }

  // ---------------------------------------------------------------------
  // Encoding
  // ---------------------------------------------------------------------

  /** Sorts every dictionary, at every depth, by key. */
  function Canon(v: BValue): BValue {
    match v
    case BList(xs) => BList(CanonList(xs))
    case BDict(es) => BDict(SortEntries(CanonEntries(es)))
    case _ => v
  }

  function CanonList(xs: seq<BValue>): (r: seq<BValue>)
    ensures |r| == |xs|
  {
    if |xs| == 0 then [] else [Canon(xs[0])] + CanonList(xs[1..])
  }

  function CanonEntries(es: seq<Entry>): (r: seq<Entry>)
    ensures |r| == |es|
    ensures forall i | 0 <= i < |es| :: r[i].0 == es[i].0
  {
    if |es| == 0 then [] else [CanonEntry(es[0])] + CanonEntries(es[1..])
  }

  function CanonEntry(e: Entry): (r: Entry)
    ensures r.0 == e.0
  {
    (e.0, Canon(e.1))
  }

  /** Writes a value, dictionaries in the order their entries are given. */
  function Emit(v: BValue): Bytes {
    match v
    case BInt(n) => [CharI] + Decimal(n) + [CharE]
    case BStr(s) => EmitString(s)
    case BList(xs) => [CharL] + EmitList(xs) + [CharE]
    case BDict(es) => [CharD] + EmitEntries(es) + [CharE]
    case BOther => []
  }

  function EmitList(xs: seq<BValue>): Bytes {
    if |xs| == 0 then [] else Emit(xs[0]) + EmitList(xs[1..])
  }

  function EmitEntries(es: seq<Entry>): Bytes {
    if |es| == 0 then [] else EmitEntry(es[0]) + EmitEntries(es[1..])
  }

  /** A dictionary entry: the key as a string, then the value. */
  function EmitEntry(e: Entry): Bytes {
    EmitString(e.0) + Emit(e.1)
  }

  /** A byte string: its length in decimal, a colon, its bytes. */
  function EmitString(s: Bytes): Bytes {
    Decimal(|s|) + [Colon] + s
  }

  /** The tracker's `bencode`. */
  function Encode(v: BValue): Bytes {
    Emit(Canon(v))
  }

  // ---------------------------------------------------------------------
  // Decoding (this model's reader)
  // ---------------------------------------------------------------------

  /** Reads one value from the front of `s` and returns it with the rest. */
  function Decode(s: Bytes): (r: Option<(BValue, Bytes)>)
    ensures r.Some? ==> |r.value.1| < |s|
    decreases |s|, 0
  {
    if |s| == 0 then None
    else if s[0] == CharI then DecodeInt(s[1..])
    else if IsDigit(s[0]) then DecodeString(s)
    else if s[0] == CharL then
      match DecodeItems(s[1..])
      case None => None
      case Some((xs, rest)) => Some((BList(xs), rest))
    else if s[0] == CharD then
      match DecodeEntries(s[1..])
      case None => None
      case Some((es, rest)) => Some((BDict(es), rest))
    else None
  }

  /** Reads an optional minus sign, digits and the closing `e`. */
  function DecodeInt(body: Bytes): (r: Option<(BValue, Bytes)>)
    ensures r.Some? ==> |r.value.1| < |body|
  {
    var neg := |body| > 0 && body[0] == Minus;
    var ds := if neg then body[1..] else body;
    var k := DigitRun(ds);
    if k == 0 || k == |ds| || ds[k] != CharE then None
    else
      var m: int := DigitsValue(ds[..k]);
      Some((BInt(if neg then -m else m), ds[k + 1..]))
  }

  /** Reads a length, a colon and that many bytes. */
  function DecodeString(s: Bytes): (r: Option<(BValue, Bytes)>)
    ensures r.Some? ==> |r.value.1| < |s|
  {
    var k := DigitRun(s);
    var n := DigitsValue(s[..k]);
    if k == |s| || s[k] != Colon || k + 1 + n > |s| then None
    else Some((BStr(s[k + 1..k + 1 + n]), s[k + 1 + n..]))
  }

  /** Reads list items up to and including the closing `e`. */
  function DecodeItems(s: Bytes): (r: Option<(seq<BValue>, Bytes)>)
    ensures r.Some? ==> |r.value.1| < |s|
    decreases |s|, 1
  {
    if |s| == 0 then None
    else if s[0] == CharE then Some(([], s[1..]))
    else
      match Decode(s)
      case None => None
      case Some((x, rest)) =>
        match DecodeItems(rest)
        case None => None
        case Some((xs, rest')) => Some(([x] + xs, rest'))
  }

  /** Reads dictionary entries (string key, value) up to and including `e`. */
  function DecodeEntries(s: Bytes): (r: Option<(seq<Entry>, Bytes)>)
    ensures r.Some? ==> |r.value.1| < |s|
    decreases |s|, 1
  {
    if |s| == 0 then None
    else if s[0] == CharE then Some(([], s[1..]))
    else
      match Decode(s)
      case Some((BStr(k), rest)) =>
        (match Decode(rest)
         case None => None
         case Some((v, rest')) =>
           match DecodeEntries(rest')
           case None => None
           case Some((es, rest'')) => Some(([(k, v)] + es, rest'')))
      case _ => None
  }

  /** Reads exactly one value and nothing after it. */
  function DecodeAll(s: Bytes): Option<BValue> {
    match Decode(s)
    case Some((v, rest)) => if rest == [] then Some(v) else None
    case None => None
  }

  // ---------------------------------------------------------------------
  // Well-formed values and the round trip
  // ---------------------------------------------------------------------

  /** No `BOther` anywhere: every part of the value has an encoding. */
  predicate Plain(v: BValue) {
    match v
    case BList(xs) => forall i | 0 <= i < |xs| :: Plain(xs[i])
    case BDict(es) => forall i | 0 <= i < |es| :: Plain(es[i].1)
    case BOther => false
    case _ => true
  }

  /** Every dictionary, at every depth, has distinct keys (as a Ruby Hash does). */
  predicate HashLike(v: BValue) {
    match v
    case BList(xs) => forall i | 0 <= i < |xs| :: HashLike(xs[i])
    case BDict(es) => DistinctKeys(es) && forall i | 0 <= i < |es| :: HashLike(es[i].1)
    case _ => true
  }

  /** Every dictionary, at every depth, lists its keys in strictly increasing order. */
  predicate Canonical(v: BValue) {
    match v
    case BList(xs) => forall i | 0 <= i < |xs| :: Canonical(xs[i])
    case BDict(es) => StrictlySorted(es) && forall i | 0 <= i < |es| :: Canonical(es[i].1)
    case _ => true
  }

  /** The first byte of a written plain value is never the closing `e`. */
  lemma EmitStart(v: BValue)
    requires Plain(v)
    ensures |Emit(v)| > 0 && Emit(v)[0] != CharE
  {
    match v
    case BStr(s) =>
      assert Emit(v)[0] == NatDigits(|s|)[0];
    case _ =>
  }

  /** A non-negative integer is read back from its digits. */
  lemma DecodeIntDigits(m: nat, rest: Bytes)
    ensures DecodeInt(NatDigits(m) + ([CharE] + rest)) == Some((BInt(m), rest))
  {
    var ds := NatDigits(m);
    var body := NatDigits(m) + ([CharE] + rest);
    DigitRunOf(ds, [CharE] + rest);
    NatDigitsValue(m);
    assert body[0] == ds[0];
    assert body[|ds| + 1..] == rest;
  }

  /** A negative integer is read back from its sign and digits. */
  lemma DecodeIntNegative(m: nat, rest: Bytes)
    ensures DecodeInt([Minus] + NatDigits(m) + ([CharE] + rest)) == Some((BInt(-(m as int)), rest))
  {
    var ds := NatDigits(m);
    var body := [Minus] + NatDigits(m) + ([CharE] + rest);
    var unsigned := ds + ([CharE] + rest);
    assert body[1..] == unsigned;
    DigitRunOf(ds, [CharE] + rest);
    NatDigitsValue(m);
    assert unsigned[|ds| + 1..] == rest;
  }

  /** An integer is read back from its decimal form. */
  lemma EmitDecodeInt(n: int, rest: Bytes)
    ensures Decode(Emit(BInt(n)) + rest) == Some((BInt(n), rest))
  {
    var s := Emit(BInt(n)) + rest;
    if n >= 0 {
      assert s == [CharI] + (NatDigits(n) + ([CharE] + rest));
      DecodeIntDigits(n, rest);
    } else {
      assert s == [CharI] + ([Minus] + NatDigits(-n) + ([CharE] + rest));
      DecodeIntNegative(-n, rest);
    }
  }

  /** A string is read back from its length prefix. */
  lemma EmitDecodeStr(str: Bytes, rest: Bytes)
    ensures Decode(Emit(BStr(str)) + rest) == Some((BStr(str), rest))
  {
    var s := Emit(BStr(str)) + rest;
    var ds := NatDigits(|str|);
    assert s == ds + ([Colon] + str + rest);
    DigitRunOf(ds, [Colon] + str + rest);
    NatDigitsValue(|str|);
    assert s[|ds| + 1..|ds| + 1 + |str|] == str;
    assert s[|ds| + 1 + |str|..] == rest;
    assert DecodeString(s) == Some((BStr(str), rest));
  }

  /** Writing then reading a plain value gives it back and leaves what follows. */
  lemma {:induction false} EmitDecode(v: BValue, rest: Bytes)
    requires Plain(v)
    ensures Decode(Emit(v) + rest) == Some((v, rest))
    decreases v
  {
    match v
    case BInt(n) => EmitDecodeInt(n, rest);
    case BStr(str) => EmitDecodeStr(str, rest);
    case BList(xs) =>
      assert Emit(v) + rest == [CharL] + (EmitList(xs) + [CharE] + rest);
      EmitListDecode(xs, rest);
    case BDict(es) =>
      assert Emit(v) + rest == [CharD] + (EmitEntries(es) + [CharE] + rest);
      EmitEntriesDecode(es, rest);
  }

  lemma {:induction false} EmitListDecode(xs: seq<BValue>, rest: Bytes)
    requires forall i | 0 <= i < |xs| :: Plain(xs[i])
    ensures DecodeItems(EmitList(xs) + [CharE] + rest) == Some((xs, rest))
    decreases xs
  {
    if |xs| > 0 {
      var tail := EmitList(xs[1..]) + [CharE] + rest;
      assert EmitList(xs) + [CharE] + rest == Emit(xs[0]) + tail;
      EmitStart(xs[0]);
      EmitDecode(xs[0], tail);
      EmitListDecode(xs[1..], rest);
      assert xs == [xs[0]] + xs[1..];
    }
  }

  lemma {:induction false} EmitEntriesDecode(es: seq<Entry>, rest: Bytes)
    requires forall i | 0 <= i < |es| :: Plain(es[i].1)
    ensures DecodeEntries(EmitEntries(es) + [CharE] + rest) == Some((es, rest))
    decreases es
  {
    if |es| > 0 {
      var tail := EmitEntries(es[1..]) + [CharE] + rest;
      assert EmitEntries(es) + [CharE] + rest == EmitEntry(es[0]) + tail;
      EmitEntryDecode(es[0], tail);
      EmitEntriesDecode(es[1..], rest);
      assert es == [es[0]] + es[1..];
    }
  }

  lemma {:induction false} EmitEntryDecode(e: Entry, rest: Bytes)
    requires Plain(e.1)
    ensures Decode(EmitEntry(e) + rest).Some?
    ensures Decode(EmitEntry(e) + rest).value.0 == BStr(e.0)
    ensures Decode(Decode(EmitEntry(e) + rest).value.1) == Some((e.1, rest))
    ensures EmitEntry(e) + rest != [] && (EmitEntry(e) + rest)[0] != CharE
    decreases e
  {
    var valueAndRest := Emit(e.1) + rest;
    assert EmitEntry(e) + rest == Emit(BStr(e.0)) + valueAndRest;
    EmitStart(BStr(e.0));
    EmitDecodeStr(e.0, valueAndRest);
    EmitDecode(e.1, rest);
  }

  // ---------------------------------------------------------------------
  // Properties of Canon
  // ---------------------------------------------------------------------

  lemma {:induction false} CanonPlain(v: BValue)
    requires Plain(v)
    ensures Plain(Canon(v))
    decreases v
  {
    match v
    case BList(xs) => CanonListPlain(xs);
    case BDict(es) =>
      CanonEntriesPlain(es);
      var c := CanonEntries(es);
      var sorted := SortEntries(c);
      forall i | 0 <= i < |sorted| ensures Plain(sorted[i].1) {
        assert sorted[i] in multiset(c);
      }
    case _ =>
  }

  lemma {:induction false} CanonListPlain(xs: seq<BValue>)
    requires forall i | 0 <= i < |xs| :: Plain(xs[i])
    ensures forall i | 0 <= i < |xs| :: Plain(CanonList(xs)[i])
    decreases xs
  {
    if |xs| > 0 {
      CanonPlain(xs[0]);
      CanonListPlain(xs[1..]);
    }
  }

  lemma {:induction false} CanonEntriesPlain(es: seq<Entry>)
    requires forall i | 0 <= i < |es| :: Plain(es[i].1)
    ensures forall i | 0 <= i < |es| :: Plain(CanonEntries(es)[i].1)
    decreases es
  {
    if |es| > 0 {
      CanonEntryPlain(es[0]);
      CanonEntriesPlain(es[1..]);
    }
  }

  lemma {:induction false} CanonEntryPlain(e: Entry)
    requires Plain(e.1)
    ensures Plain(CanonEntry(e).1)
    decreases e
  {
    CanonPlain(e.1);
  }

  /** Canon produces sorted dictionaries at every depth when keys are distinct. */
  lemma {:induction false} CanonCanonical(v: BValue)
    requires HashLike(v)
    ensures Canonical(Canon(v))
    decreases v
  {
    match v
    case BList(xs) => CanonListCanonical(xs);
    case BDict(es) =>
      CanonEntriesCanonical(es);
      var c := CanonEntries(es);
      assert DistinctKeys(c);
      SortEntriesSorted(c);
      var sorted := SortEntries(c);
      forall i | 0 <= i < |sorted| ensures Canonical(sorted[i].1) {
        assert sorted[i] in multiset(c);
      }
    case _ =>
  }

  lemma {:induction false} CanonListCanonical(xs: seq<BValue>)
    requires forall i | 0 <= i < |xs| :: HashLike(xs[i])
    ensures forall i | 0 <= i < |xs| :: Canonical(CanonList(xs)[i])
    decreases xs
  {
    if |xs| > 0 {
      CanonCanonical(xs[0]);
      CanonListCanonical(xs[1..]);
    }
  }

  lemma {:induction false} CanonEntriesCanonical(es: seq<Entry>)
    requires forall i | 0 <= i < |es| :: HashLike(es[i].1)
    ensures forall i | 0 <= i < |es| :: Canonical(CanonEntries(es)[i].1)
    decreases es
  {
    if |es| > 0 {
      CanonEntryCanonical(es[0]);
      CanonEntriesCanonical(es[1..]);
    }
  }

  lemma {:induction false} CanonEntryCanonical(e: Entry)
    requires HashLike(e.1)
    ensures Canonical(CanonEntry(e).1)
    decreases e
  {
    CanonCanonical(e.1);
  }

  /** A value whose dictionaries are already sorted is left as it is. */
  lemma {:induction false} CanonFixesCanonical(v: BValue)
    requires Canonical(v)
    ensures Canon(v) == v
    decreases v
  {
    match v
    case BList(xs) => CanonListFixes(xs);
    case BDict(es) =>
      CanonEntriesFixes(es);
      SortSorted(es);
    case _ =>
  }

  lemma {:induction false} CanonListFixes(xs: seq<BValue>)
    requires forall i | 0 <= i < |xs| :: Canonical(xs[i])
    ensures CanonList(xs) == xs
    decreases xs
  {
    if |xs| > 0 {
      CanonFixesCanonical(xs[0]);
      CanonListFixes(xs[1..]);
      assert xs == [xs[0]] + xs[1..];
    }
  }

  lemma {:induction false} CanonEntriesFixes(es: seq<Entry>)
    requires forall i | 0 <= i < |es| :: Canonical(es[i].1)
    ensures CanonEntries(es) == es
    decreases es
  {
    if |es| > 0 {
      CanonEntryFixes(es[0]);
      CanonEntriesFixes(es[1..]);
      assert es == [es[0]] + es[1..];
    }
  }

  lemma {:induction false} CanonEntryFixes(e: Entry)
    requires Canonical(e.1)
    ensures CanonEntry(e) == e
    decreases e
  {
    CanonFixesCanonical(e.1);
  }

  /** Sorting an already strictly sorted list changes nothing. */
  lemma {:induction false} SortSorted(es: seq<Entry>)
    requires StrictlySorted(es)
    ensures SortEntries(es) == es
  {
    if |es| > 0 {
      SortSorted(es[1..]);
      assert es == [es[0]] + es[1..];
      if |es| > 1 {
        assert Less(es[0].0, es[1].0);
      }
    }
  }

  // ---------------------------------------------------------------------
  // The encoder's guarantees
  // ---------------------------------------------------------------------

  /** The encoding of a value without foreign objects reads back as that
      value with every dictionary sorted by key. */
  lemma EncodeRoundTrip(v: BValue)
    requires Plain(v)
    ensures DecodeAll(Encode(v)) == Some(Canon(v))
  {
    CanonPlain(v);
    EmitDecode(Canon(v), []);
    assert Emit(Canon(v)) + [] == Emit(Canon(v));
  }

  /** The encoder emits every dictionary's keys in strictly increasing byte
      order: what it writes reads back as a canonical value. */
  lemma EncodeSortsKeys(v: BValue)
    requires Plain(v) && HashLike(v)
    ensures DecodeAll(Encode(v)).Some?
    ensures Canonical(DecodeAll(Encode(v)).value)
  {
    EncodeRoundTrip(v);
    CanonCanonical(v);
  }

  /** Values that are already canonical are written exactly as given. */
  lemma EncodeCanonical(v: BValue)
    requires Canonical(v)
    ensures Encode(v) == Emit(v)
  {
    CanonFixesCanonical(v);
  }

  /** Two values have the same encoding exactly when they agree up to the order
      of dictionary entries. */
  lemma EncodeInjective(a: BValue, b: BValue)
    requires Plain(a) && Plain(b)
    ensures Encode(a) == Encode(b) <==> Canon(a) == Canon(b)
  {
    EncodeRoundTrip(a);
    EncodeRoundTrip(b);
  }

  /** The example from the encoder's test: `{b: 1, a: 2}` is written with `a` first. */
  lemma EncodeExample()
    ensures Encode(BDict([(Ascii("b"), BInt(1)), (Ascii("a"), BInt(2))])) == Ascii("d1:ai2e1:bi1ee")
  {
    var a := (Ascii("a"), BInt(2));
    var b := (Ascii("b"), BInt(1));
    ExampleSorted(a, b);
    ExampleWritten(a, b);
  }

  lemma ExampleSorted(a: Entry, b: Entry)
    requires a == (Ascii("a"), BInt(2)) && b == (Ascii("b"), BInt(1))
    ensures Canon(BDict([b, a])) == BDict([a, b])
  {
    assert Less(a.0, b.0);
    assert [b, a][1..] == [a] && [a][1..] == [];
    assert CanonEntries([a]) == [a];
    assert CanonEntries([b, a]) == [b, a];
    assert SortEntries([a]) == [a];
    assert SortEntries([b, a]) == Insert(b, [a]) == [a, b];
  }

  lemma ExampleWritten(a: Entry, b: Entry)
    requires a == (Ascii("a"), BInt(2)) && b == (Ascii("b"), BInt(1))
    ensures Emit(BDict([a, b])) == Ascii("d1:ai2e1:bi1ee")
  {
    assert Decimal(1) == [49] && Decimal(2) == [50];
    assert EmitEntry(a) == [49, 58, 97, 105, 50, 101];
    assert EmitEntry(b) == [49, 58, 98, 105, 49, 101];
    assert [a, b][1..] == [b] && [b][1..] == [];
    assert EmitEntries([b]) == EmitEntry(b) + EmitEntries([]) == EmitEntry(b);
    assert EmitEntries([a, b]) == EmitEntry(a) + EmitEntries([b]);
  }
}
