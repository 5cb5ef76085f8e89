/**
 * app/models/concerns/indexer_category.rb keeps its own copy of the Torznab
 * category table with the lookups `ids`, `names`, `name_for` and
 * `valid_id?` (no `family_ids_for`). The copy is written out again here and
 * shown equal to the table of app/models/category.rb, so every fact proved
 * there carries over.
 */
module IndexerCategory {
  import opened Text
  import Category

  const Console: seq<Category.Row> := [
    (1000, "Console"),
    (1010, "Console/NDS"),
    (1020, "Console/PSP"),
    (1030, "Console/Wii"),
    (1040, "Console/Xbox"),
    (1050, "Console/Xbox 360"),
    (1060, "Console/Wiiware"),
    (1070, "Console/Xbox 360 DLC"),
    (1080, "Console/PS3")
  ]

  const Movies: seq<Category.Row> := [
    (2000, "Movies"),
    (2010, "Movies/Foreign"),
    (2020, "Movies/Other"),
    (2030, "Movies/SD"),
    (2040, "Movies/HD"),
    (2045, "Movies/UHD"),
    (2050, "Movies/BluRay"),
    (2060, "Movies/3D"),
    (2070, "Movies/DVD"),
    (2080, "Movies/WEB-DL")
  ]

  const Audio: seq<Category.Row> := [
    (3000, "Audio"),
    (3010, "Audio/MP3"),
    (3020, "Audio/Video"),
    (3030, "Audio/Audiobook"),
    (3040, "Audio/Lossless"),
    (3050, "Audio/Other"),
    (3060, "Audio/Foreign"),
    (3070, "Audio/Podcast"),
    (3080, "Audio/Karaoke")
  ]

  const Pc: seq<Category.Row> := [
    (4000, "PC"),
    (4010, "PC/0day"),
    (4020, "PC/ISO"),
    (4030, "PC/Mac"),
    (4040, "PC/Phone-Other"),
    (4050, "PC/Games"),
    (4060, "PC/Phone-iOS"),
    (4070, "PC/Phone-Android"),
    (4080, "PC/Phone-Windows")
  ]

  const Tv: seq<Category.Row> := [
    (5000, "TV"),
    (5010, "TV/WEB-DL"),
    (5020, "TV/Foreign"),
    (5030, "TV/SD"),
    (5040, "TV/HD"),
    (5045, "TV/UHD"),
    (5050, "TV/Other"),
    (5060, "TV/Sport"),
    (5070, "TV/Anime"),
    (5080, "TV/Documentary"),
    (5090, "TV/x265")
  ]

  const Xxx: seq<Category.Row> := [
    (6000, "XXX"),
    (6010, "XXX/DVD"),
    (6020, "XXX/WMV"),
    (6030, "XXX/XviD"),
    (6040, "XXX/x264"),
    (6050, "XXX/Pack"),
    (6060, "XXX/ImageSet"),
    (6070, "XXX/Other"),
    (6080, "XXX/SD")
  ]

  const Books: seq<Category.Row> := [
    (7000, "Books"),
    (7010, "Books/Mags"),
    (7020, "Books/EBook"),
    (7030, "Books/Comics"),
    (7040, "Books/Technical"),
    (7050, "Books/Other"),
    (7060, "Books/Foreign")
  ]

  const Other: seq<Category.Row> := [
    (8000, "Other"),
    (8010, "Other/Misc"),
    (8020, "Other/Hashed")
  ]

  const Families: seq<seq<Category.Row>> := [Console, Movies, Audio, Pc, Tv, Xxx, Books, Other]

  /** `CATEGORIES` of the indexer module. */
  const Table: seq<Category.Row> := Category.Flatten(Families)

  /** `ids`. */
  function Ids(): seq<int> {
    Firsts(Table)
  }

  /** `names`. */
  function Names(): seq<string> {
    Category.NamesOf(Table)
  }

  /** `name_for`. */
  function NameFor(id: int): Option<string> {
    Category.Lookup(Table, id)
  }

  /** `valid_id?`. */
  predicate ValidId(id: int) {
    id in Ids()
  }

  // ---------------------------------------------------------------------
  // Properties
  // ---------------------------------------------------------------------

  /** The two tables hold the same rows in the same order. */
  lemma SameTable()
    ensures Table == Category.Table
  {
    assert Families == Category.Families;
  }

  /** Both modules name every id alike. */
  lemma NameForAgrees(id: int)
    ensures NameFor(id) == Category.NameFor(id)
    ensures ValidId(id) <==> Category.ValidId(id)
  {
    SameTable();
  }

  /** `valid_id?` holds exactly when `name_for` gives a name. */
  lemma ValidIdIffName(id: int)
    ensures ValidId(id) <==> NameFor(id).Some?
  {
  }

  /** `ids` and `names` are parallel lists of 67 entries; the ids are
      distinct, lie in 1000..8999 and have their X000 parent present. */
  lemma TableShape()
    ensures |Ids()| == 67 && |Names()| == 67
    ensures forall i | 0 <= i < 67 :: Table[i] == (Ids()[i], Names()[i])
    ensures forall i, j | 0 <= i < j < |Ids()| :: Ids()[i] != Ids()[j]
    ensures forall x | x in Ids() :: 1000 <= x <= 8999 && (x / 1000) * 1000 in Ids()
  {
    SameTable();
    Category.TableSize();
    Category.IdsIncreasing();
    Category.IdsHaveParents();
  }
}
