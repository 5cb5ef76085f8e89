/**
 * The Torznab category table (version 1.3 of the Torznab specification,
 * categories section) as app/models/category.rb keeps it: 67 numeric ids
 * with their names, in eight families. A family is a main category X000
 * and the sub-categories that share its thousands digit.
 *
 * The table is written as its eight families, concatenated in order; the
 * lookups work on any list of rows so that the duplicate table of
 * app/models/concerns/indexer_category.rb can share them.
 */
module Category {
  import opened Text

  type Row = (int, string)

  const Console: seq<Row> := [
    (1000, "Console"),
    (1010, "Console/NDS"),
    (1020, "Console/PSP"),
    (1030, "Console/Wii"),
    (1040, "Console/Xbox"),
    (1050, "Console/Xbox 360"),
    (1060, "Console/Wiiware"),
    (1070, "Console/Xbox 360 DLC"),
    (1080, "Console/PS3")
  ]

  const Movies: seq<Row> := [
    (2000, "Movies"),
    (2010, "Movies/Foreign"),
    (2020, "Movies/Other"),
    (2030, "Movies/SD"),
    (2040, "Movies/HD"),
    (2045, "Movies/UHD"),
    (2050, "Movies/BluRay"),
    (2060, "Movies/3D"),
    (2070, "Movies/DVD"),
    (2080, "Movies/WEB-DL")
  ]

  const Audio: seq<Row> := [
    (3000, "Audio"),
    (3010, "Audio/MP3"),
    (3020, "Audio/Video"),
    (3030, "Audio/Audiobook"),
    (3040, "Audio/Lossless"),
    (3050, "Audio/Other"),
    (3060, "Audio/Foreign"),
    (3070, "Audio/Podcast"),
    (3080, "Audio/Karaoke")
  ]

  const Pc: seq<Row> := [
    (4000, "PC"),
    (4010, "PC/0day"),
    (4020, "PC/ISO"),
    (4030, "PC/Mac"),
    (4040, "PC/Phone-Other"),
    (4050, "PC/Games"),
    (4060, "PC/Phone-iOS"),
    (4070, "PC/Phone-Android"),
    (4080, "PC/Phone-Windows")
  ]

  const Tv: seq<Row> := [
    (5000, "TV"),
    (5010, "TV/WEB-DL"),
    (5020, "TV/Foreign"),
    (5030, "TV/SD"),
    (5040, "TV/HD"),
    (5045, "TV/UHD"),
    (5050, "TV/Other"),
    (5060, "TV/Sport"),
    (5070, "TV/Anime"),
    (5080, "TV/Documentary"),
    (5090, "TV/x265")
  ]

  const Xxx: seq<Row> := [
    (6000, "XXX"),
    (6010, "XXX/DVD"),
    (6020, "XXX/WMV"),
    (6030, "XXX/XviD"),
    (6040, "XXX/x264"),
    (6050, "XXX/Pack"),
    (6060, "XXX/ImageSet"),
    (6070, "XXX/Other"),
    (6080, "XXX/SD")
  ]

  const Books: seq<Row> := [
    (7000, "Books"),
    (7010, "Books/Mags"),
    (7020, "Books/EBook"),
    (7030, "Books/Comics"),
    (7040, "Books/Technical"),
    (7050, "Books/Other"),
    (7060, "Books/Foreign")
  ]

  const Other: seq<Row> := [
    (8000, "Other"),
    (8010, "Other/Misc"),
    (8020, "Other/Hashed")
  ]

  const Families: seq<seq<Row>> := [Console, Movies, Audio, Pc, Tv, Xxx, Books, Other]

  function Flatten(fs: seq<seq<Row>>): seq<Row> {
    if |fs| == 0 then [] else fs[0] + Flatten(fs[1..])
  }

  /** `CATEGORIES`, in the source's order. */
  const Table: seq<Row> := Flatten(Families)

  /** The names of some rows, in order. */
  function NamesOf(rows: seq<Row>): (r: seq<string>)
    ensures |r| == |rows| && forall i | 0 <= i < |rows| :: r[i] == rows[i].1
  {
    seq(|rows|, i requires 0 <= i < |rows| => rows[i].1)
  }

  /** Hash lookup: the name of the first row with this id, or nil. */
  function Lookup(rows: seq<Row>, id: int): (r: Option<string>)
    ensures r.None? <==> id !in Firsts(rows)
    ensures r.Some? ==> exists i | 0 <= i < |rows| :: rows[i] == (id, r.value)
  {
    if |rows| == 0 then None
    else if rows[0].0 == id then Some(rows[0].1)
    else
      var r := Lookup(rows[1..], id);
      assert Firsts(rows) == [rows[0].0] + Firsts(rows[1..]);
      assert r.Some? ==> exists i | 0 <= i < |rows| :: rows[i] == (id, r.value) by {
        if r.Some? {
          var i :| 0 <= i < |rows[1..]| && rows[1..][i] == (id, r.value);
          assert rows[i + 1] == (id, r.value);
        }
      }
      r
  }

  /** `ids`. */
  function Ids(): seq<int> {
    Firsts(Table)
  }

  /** `names`. */
  function Names(): seq<string> {
    NamesOf(Table)
  }

  /** `name_for`. */
  function NameFor(id: int): Option<string> {
    Lookup(Table, id)
  }

  /** `valid_id?`: the id is a key of the table. */
  predicate ValidId(id: int) {
    id in Ids()
  }

  /** Whether `id` shares the thousands digit of `c`. Dafny's `/` and Ruby's
      `/` agree for the divisor 1000 (both round towards minus infinity). */
  function SameFamily(c: int): int -> bool {
    id => id / 1000 == c / 1000
  }

  /** `family_ids_for`: the table ids whose thousands digit is that of `c`,
      in table order. */
  function FamilyIdsFor(c: int): seq<int> {
    Filter(Ids(), SameFamily(c))
  }

  // ---------------------------------------------------------------------
  // The shape of the table
  // ---------------------------------------------------------------------

  predicate Increasing(xs: seq<int>) {
    forall i, j | 0 <= i < j < |xs| :: xs[i] < xs[j]
  }

  /** Rows forming family `k`: its main id k000 first, every id within
      k000..k999, each id above the one before. */
  predicate FamilyOf(rows: seq<Row>, k: int) {
    && |rows| > 0
    && rows[0].0 == 1000 * k
    && (forall i | 0 <= i < |rows| :: 1000 * k <= rows[i].0 < 1000 * k + 1000)
    && (forall i | 0 < i < |rows| :: rows[i - 1].0 < rows[i].0)
  }

  /** Consecutive families k, k+1, ... */
  predicate Chain(fs: seq<seq<Row>>, k: int) {
    forall j | 0 <= j < |fs| :: FamilyOf(fs[j], k + j)
  }

  lemma ConsoleFamily() ensures FamilyOf(Console, 1) {}
  lemma MoviesRows() ensures FamilyOf(Movies, 2) {}
  lemma AudioFamily() ensures FamilyOf(Audio, 3) {}
  lemma PcFamily() ensures FamilyOf(Pc, 4) {}
  lemma TvFamily() ensures FamilyOf(Tv, 5) {}
  lemma XxxFamily() ensures FamilyOf(Xxx, 6) {}
  lemma BooksFamily() ensures FamilyOf(Books, 7) {}
  lemma OtherFamily() ensures FamilyOf(Other, 8) {}

  lemma FamiliesChain()
    ensures Chain(Families, 1)
  {
    ConsoleFamily();
    MoviesRows();
    AudioFamily();
    PcFamily();
    TvFamily();
    XxxFamily();
    BooksFamily();
    OtherFamily();
  }

  /** The table is the eight families one after another. */
  lemma TableFamilies()
    ensures Table == Console + (Movies + (Audio + (Pc + (Tv + (Xxx + (Books + Other))))))
  {
    var fs := Families;
    assert fs[7..][1..] == [];
    assert Flatten(fs[7..]) == Other;
    FlattenStep(fs, 6);
    FlattenStep(fs, 5);
    FlattenStep(fs, 4);
    FlattenStep(fs, 3);
    FlattenStep(fs, 2);
    FlattenStep(fs, 1);
    FlattenStep(fs, 0);
    assert fs[0..] == fs;
  }

  lemma FlattenStep(fs: seq<seq<Row>>, k: int)
    requires 0 <= k < |fs|
    ensures Flatten(fs[k..]) == fs[k] + Flatten(fs[k + 1..])
  {
    assert fs[k..][1..] == fs[k + 1..];
  }

  /** Steps up between neighbours make a sequence increasing. */
  lemma {:induction false} StepsIncreasing(rows: seq<Row>)
    requires forall i | 0 < i < |rows| :: rows[i - 1].0 < rows[i].0
    ensures Increasing(Firsts(rows))
  {
    if |rows| > 1 {
      StepsIncreasing(rows[1..]);
      var xs := Firsts(rows);
      assert forall j | 1 <= j < |xs| :: xs[j] == Firsts(rows[1..])[j - 1];
      assert forall j | 1 <= j < |xs| :: xs[0] < xs[j] by {
        forall j | 1 <= j < |xs| ensures xs[0] < xs[j] {
          if j > 1 {
            assert xs[1] < xs[j];
          }
        }
      }
    }
  }

  /** Joining two increasing sequences, all of the first below all of the
      second, gives an increasing sequence. */
  lemma IncreasingAppend(a: seq<int>, b: seq<int>)
    requires Increasing(a) && Increasing(b)
    requires forall i, j | 0 <= i < |a| && 0 <= j < |b| :: a[i] < b[j]
    ensures Increasing(a + b)
  {
    var c := a + b;
    forall i, j | 0 <= i < j < |c| ensures c[i] < c[j] {
      if j < |a| {
      } else if i >= |a| {
        assert c[i] == b[i - |a|] && c[j] == b[j - |a|];
      } else {
        assert c[j] == b[j - |a|];
      }
    }
  }

  lemma FirstsAppend(a: seq<Row>, b: seq<Row>)
    ensures Firsts(a + b) == Firsts(a) + Firsts(b)
  {
  }

  /** The ids of a chain of families increase, lie in the families' range,
      and each has its main id k000 among them. */
  lemma {:induction false} ChainShape(fs: seq<seq<Row>>, k: int)
    requires Chain(fs, k)
    ensures Increasing(Firsts(Flatten(fs)))
    ensures forall x | x in Firsts(Flatten(fs)) :: 1000 * k <= x < 1000 * (k + |fs|) && (x / 1000) * 1000 in Firsts(Flatten(fs))
  {
    if |fs| > 0 {
      var head := Firsts(fs[0]);
      var tail := Firsts(Flatten(fs[1..]));
      ChainShape(fs[1..], k + 1);
      assert Chain(fs[1..], k + 1) by {
        assert forall j | 0 <= j < |fs| - 1 :: fs[1..][j] == fs[j + 1];
      }
      FirstsAppend(fs[0], Flatten(fs[1..]));
      StepsIncreasing(fs[0]);
      assert forall i | 0 <= i < |head| :: head[i] < 1000 * (k + 1);
      assert forall j | 0 <= j < |tail| :: tail[j] in tail;
      IncreasingAppend(head, tail);
      assert head[0] == 1000 * k;
      forall x | x in head + tail
        ensures 1000 * k <= x < 1000 * (k + |fs|) && (x / 1000) * 1000 in head + tail
      {
        if x in head {
          var i :| 0 <= i < |head| && head[i] == x;
          assert x / 1000 == k;
        }
      }
    }
  }

  /** Selecting family `c / 1000` from a chain picks exactly that family's ids. */
  lemma {:induction false} ChainFamily(fs: seq<seq<Row>>, k: int, c: int)
    requires Chain(fs, k)
    ensures k <= c / 1000 < k + |fs| ==> Filter(Firsts(Flatten(fs)), SameFamily(c)) == Firsts(fs[c / 1000 - k])
    ensures !(k <= c / 1000 < k + |fs|) ==> Filter(Firsts(Flatten(fs)), SameFamily(c)) == []
  {
    if |fs| > 0 {
      var head := Firsts(fs[0]);
      var tail := Firsts(Flatten(fs[1..]));
      assert Chain(fs[1..], k + 1) by {
        assert forall j | 0 <= j < |fs| - 1 :: fs[1..][j] == fs[j + 1];
      }
      FirstsAppend(fs[0], Flatten(fs[1..]));
      FilterAppend(head, tail, SameFamily(c));
      ChainFamily(fs[1..], k + 1, c);
      assert forall i | 0 <= i < |head| :: head[i] / 1000 == k;
      if c / 1000 == k {
        FilterAll(head, SameFamily(c));
      } else {
        FilterNone(head, SameFamily(c));
      }
    }
  }

  /** In a table without repeated ids, looking up a row's id finds that row's name. */
  lemma {:induction false} LookupRow(rows: seq<Row>, i: int)
    requires Increasing(Firsts(rows)) && 0 <= i < |rows|
    ensures Lookup(rows, rows[i].0) == Some(rows[i].1)
  {
    if i > 0 {
      assert Firsts(rows)[0] < Firsts(rows)[i];
      assert Increasing(Firsts(rows[1..])) by {
        assert forall j | 0 <= j < |rows| - 1 :: Firsts(rows[1..])[j] == Firsts(rows)[j + 1];
      }
      LookupRow(rows[1..], i - 1);
    }
  }

  // ---------------------------------------------------------------------
  // Properties
  // ---------------------------------------------------------------------

  /** `ids` and `names` are parallel lists of 67 entries. */
  lemma TableSize()
    ensures |Table| == 67 && |Ids()| == 67 && |Names()| == 67
    ensures forall i | 0 <= i < 67 :: Table[i] == (Ids()[i], Names()[i])
  {
    TableFamilies();
  }

  /** The ids increase strictly along the table, so no id appears twice. */
  lemma IdsIncreasing()
    ensures Increasing(Ids())
  {
    FamiliesChain();
    ChainShape(Families, 1);
  }

  /** Every id lies in 1000..8999 and its main category X000 is in the table. */
  lemma IdsHaveParents()
    ensures forall x | x in Ids() :: 1000 <= x <= 8999 && (x / 1000) * 1000 in Ids()
  {
    FamiliesChain();
    ChainShape(Families, 1);
  }

  /** The main category k000 of each family 1..8 is present. */
  lemma MainCategoryPresent(k: int)
    requires 1 <= k <= 8
    ensures ValidId(1000 * k)
  {
    FamiliesChain();
    ChainMain(Families, 1, k);
  }

  /** Every family of a chain contributes its main id. */
  lemma ChainMain(fs: seq<seq<Row>>, k: int, m: int)
    requires Chain(fs, k) && k <= m < k + |fs|
    ensures 1000 * m in Firsts(Flatten(fs))
  {
    var c := 1000 * m;
    assert c / 1000 == m;
    ChainFamily(fs, k, c);
    var f := fs[m - k];
    assert FamilyOf(f, m);
    assert Firsts(f)[0] == c;
    assert c in Filter(Firsts(Flatten(fs)), SameFamily(c));
    FilterMember(Firsts(Flatten(fs)), SameFamily(c), c);
  }

  /** `valid_id?` holds exactly when `name_for` gives a name. */
  lemma ValidIdIffName(id: int)
    ensures ValidId(id) <==> NameFor(id).Some?
  {
  }

  /** `family_ids_for(c)` is the whole family of c's thousands digit, and
      empty when there is no such family. */
  lemma FamilyIdsForFamily(c: int)
    ensures 1 <= c / 1000 <= 8 ==> FamilyIdsFor(c) == Firsts(Families[c / 1000 - 1])
    ensures !(1 <= c / 1000 <= 8) ==> FamilyIdsFor(c) == []
  {
    FamiliesChain();
    ChainFamily(Families, 1, c);
  }

  /** `family_ids_for(c)` holds exactly the table ids that share c's
      thousands digit. */
  lemma FamilyIdsForMembers(c: int)
    ensures forall id :: id in FamilyIdsFor(c) <==> id in Ids() && id / 1000 == c / 1000
  {
    forall id ensures id in FamilyIdsFor(c) <==> id in Ids() && id / 1000 == c / 1000 {
      FilterMember(Ids(), SameFamily(c), id);
    }
  }

  /** A valid id is in its own family. */
  lemma FamilyContainsValid(c: int)
    requires ValidId(c)
    ensures c in FamilyIdsFor(c)
  {
    FamilyIdsForMembers(c);
  }

  /** The family of 2000, as documented. */
  lemma MoviesFamily()
    ensures FamilyIdsFor(2000) == [2000, 2010, 2020, 2030, 2040, 2045, 2050, 2060, 2070, 2080]
  {
    FamilyIdsForFamily(2000);
    assert Families[1] == Movies;
    MoviesIds();
  }

  lemma MoviesIds()
    ensures Firsts(Movies) == [2000, 2010, 2020, 2030, 2040, 2045, 2050, 2060, 2070, 2080]
  {
  }

  /** The family of 9000 is empty. */
  lemma NoNinthFamily()
    ensures FamilyIdsFor(9000) == []
  {
    FamilyIdsForFamily(9000);
  }

  /** The documented lookups: 2040 is "Movies/HD" and 9999 has no name. */
  lemma NameForExamples()
    ensures NameFor(2040) == Some("Movies/HD")
    ensures NameFor(9999) == None
  {
    TableFamilies();
    assert Table[13] == (2040, "Movies/HD");
    IdsIncreasing();
    LookupRow(Table, 13);
    IdsHaveParents();
    assert 9999 !in Ids();
  }
}
