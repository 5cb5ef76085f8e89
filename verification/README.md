# Tracker core in Dafny

A model of the core of a private BitTorrent tracker written in Ruby on Rails.
It covers three parts:

- The tracker's two HTTP actions. `announce` registers a peer, credits its user and answers with a compact peer list. `scrape` reports per-torrent counters.
- The models those actions use: `Peer` validations and scopes, `User` statistics and ratio, and `Torrent` validations, magnet link and category name.
- The two background jobs that keep the counters current, and the two category tables, Torznab and indexer.

The database is one immutable value, `Store.State`. It holds the torrents and peers tables, the users by id, and the queue of enqueued recount jobs.

- `announce` is a function from a state, the request parameters, the connection address and the clock reading to a reply and the next state.
- `scrape` only reads the state.
- The jobs are functions from state to state.
- `Store.Inv` collects what the tables guarantee between requests: row validations, the two unique indexes, the peer foreign keys, and torrent and user ids in the canonical uuid form. Every writing operation is proved to keep it.

Files, one module each:

- `text.dfy`: bytes, ASCII, Ruby's `split`/`join`, decimal numerals, and `select` as a filter.
- `bencode.dfy`: the controller's bencoder, which sorts dictionary keys, with a reader proving it loses nothing.
- `info_hash.dfy`: the info-hash normaliser shared by both actions.
- `uuid.dfy`: how the `uuid` column type reads the request's user id text (case, braces, hyphens).
- `compact.dfy`: `encode_peers`, the compact 6-byte-per-peer format.
- `peer.dfy`, `user.dfy`, `torrent.dfy`: the three models.
- `category.dfy`, `indexer_category.dfy`: the category tables.
- `store.dfy`: the database state and its invariant.
- `jobs.dfy`: `UpdateTorrentStatsJob` and `CleanupStalePeersJob`.
- `tracker.dfy`: `announce`, `scrape`, `render_error` and the rendering of replies.

Bytes are `seq<Byte>` with `Byte` the integers 0..255. The packing arithmetic is written out: `pack('C')` reduces modulo 256 and `pack('n')` modulo 65536. Integers are unbounded, as Ruby's are; the width of the database's integer columns is not modelled (see "Left out"). Clock readings are integer seconds supplied by the caller.

## Model

| member | source | states |
|---|---|---|
| Bencode.Encode | app/controllers/tracker_controller.rb:130-143 | no contract of its own; the four lemmas below state what it writes |
| Bencode.EncodeRoundTrip | app/controllers/tracker_controller.rb:130-143 | any value without foreign objects encodes to bytes that read back as that value with every dictionary sorted by key |
| Bencode.EncodeSortsKeys | app/controllers/tracker_controller.rb:139 | the encoder writes every dictionary's keys in strictly increasing byte order, at every depth |
| Bencode.EncodeInjective | app/controllers/tracker_controller.rb:130-143 | two values share an encoding exactly when they agree up to the order of dictionary entries |
| Bencode.EncodeCanonical | app/controllers/tracker_controller.rb:130-143 | an already sorted value is written exactly as given |
| Bencode.EncodeExample | app/controllers/tracker_controller.rb:139 | `{b: 1, a: 2}` is written as `d1:ai2e1:bi1ee` |
| Bencode.SortEntriesSorted | app/controllers/tracker_controller.rb:139 | sorting a hash's entries gives strictly increasing keys |
| Bencode.SortEntries | app/controllers/tracker_controller.rb:139 | sorting keeps exactly the same entries (a permutation) |
| UuidCast.Cast | app/controllers/tracker_controller.rb:28 | a text casts to an id exactly when it has the accepted uuid form (braces in pairs), and the id is always in canonical form |
| UuidCast.CastFormats | app/controllers/tracker_controller.rb:28 | every accepted text casts to its 32 digits, lower-cased and regrouped 8-4-4-4-12, whether or not it was already canonical |
| UuidCast.CanonicalFormats | db/schema.rb:62 | a canonical id is accepted, and regrouping its digits gives it back |
| UuidCast.CastIdempotent | db/schema.rb:62 | an id that came out of the cast casts to itself |
| UuidCast.CastKeepsDigits | app/controllers/tracker_controller.rb:28 | the cast keeps the text's digits, lower-cased, in order |
| UuidCast.CastSpellings | app/controllers/tracker_controller.rb:28 | a canonical id written in upper case, in braces, or without hyphens casts back to that id |
| UuidCast.AcceptableNotBlank | app/controllers/tracker_controller.rb:5 | a text in uuid form is never blank, so it passes the missing-parameters check |
| InfoHash.Normalize | app/controllers/tracker_controller.rb:13-21 | the key is always lower-case hex; 40 hex digits are lower-cased in place; anything else becomes two hex digits per byte |
| InfoHash.HexRoundTrip | app/controllers/tracker_controller.rb:17 | decoding the `unpack1('H*')` text gives the raw bytes back |
| InfoHash.HexRoundTripBack | app/controllers/tracker_controller.rb:17 | every even-length lower-case hex text is the encoding of some bytes |
| InfoHash.NormalizeBinary | app/controllers/tracker_controller.rb:16-21 | a 20-byte binary hash becomes the 40-digit key of exactly those bytes |
| InfoHash.NormalizeIdempotent | app/controllers/tracker_controller.rb:13-21 | normalising a 40-digit key again changes nothing |
| Compact.EncodePeers | app/controllers/tracker_controller.rb:123-128 | six bytes per peer |
| Compact.CompactRoundTrip | app/controllers/tracker_controller.rb:123-128 | reading the compact string six bytes at a time gives each peer's four octets (mod 256) and port (mod 65536), in order |
| Compact.ValidPortRoundTrip | app/controllers/tracker_controller.rb:126 | a port in 1..65535 survives the two-byte big-endian encoding |
| Compact.FormatIpRoundTrip | app/controllers/tracker_controller.rb:126 | the dotted text of any four octets splits back into exactly those octets |
| Compact.EncodeExample | app/controllers/tracker_controller.rb:126 | `192.168.1.1:6881` is written as `C0 A8 01 01 1A E1` |
| Tracker.RenderError | app/controllers/tracker_controller.rb:119-121 | no contract of its own; Tracker.RenderErrorReadable states its status and body |
| Tracker.RenderErrorReadable | app/controllers/tracker_controller.rb:119-121 | an error is status 400 with a body that reads back as `{failure reason: message}` |
| Tracker.Announce | app/controllers/tracker_controller.rb:3-79 | announce never writes the torrents table, whose counters change only through the recount job; Tracker.CheckAccepts, AnnounceLedger, AnnounceEnqueues, AnnouncePreservesInv and AnnounceResponse state its checks, writes and reply |
| Tracker.Check | app/controllers/tracker_controller.rb:4-31 | an accepted request carries a stored torrent and a stored user's id; Tracker.CheckAccepts states the converse and the carried values |
| Tracker.Persist | app/controllers/tracker_controller.rb:57-66 | the write step changes neither the torrents nor the users table; Tracker.AnnounceStopped, AnnounceInvalid, AnnounceRefresh, AnnounceJoin and AnnounceConflict state its branches |
| Tracker.MissingParamsExact | app/controllers/tracker_controller.rb:4-5 | a parameter is named in the message exactly when it is blank, and the list is empty exactly when none is blank |
| Tracker.AnnounceMissing | app/controllers/tracker_controller.rb:4-9 | a blank required parameter refuses the announce with the missing-parameters message and changes nothing |
| Tracker.MissingExample | app/controllers/tracker_controller.rb:8 | leaving out port and uploaded gives `Missing required parameters: port, uploaded` |
| Tracker.AnnounceUnknownTorrent | app/controllers/tracker_controller.rb:22-26 | a hash that no torrent holds gives `Torrent not found` and changes nothing |
| Tracker.AnnounceUnknownUser | app/controllers/tracker_controller.rb:28-31 | a user id that is not a uuid, or is the uuid of no user, gives `User not found` and changes nothing |
| Tracker.CheckAccepts | app/controllers/tracker_controller.rb:4-31 | a request passes the checks exactly when nothing is blank, the hash names a torrent and the user id casts to a stored user's id; it then carries that torrent, the cast id and the request's values |
| Tracker.AnnounceSameUser | app/controllers/tracker_controller.rb:28 | two spellings of the user id that cast to the same uuid give the same announce, reply and writes alike |
| Tracker.AnnounceUserSpellings | app/controllers/tracker_controller.rb:28 | a stored user announcing with their id upper-cased, in braces or without hyphens gets the same announce as with the stored id |
| Tracker.FindPeer | app/controllers/tracker_controller.rb:33-38 | the lookup finds a row with the request's torrent, peer id, address, port and user, or reports that none exists |
| Tracker.FindUnique | app/controllers/tracker_controller.rb:33-38 | with the peers unique index in force, the row found is the only matching one |
| Tracker.AnnounceLedger | app/controllers/tracker_controller.rb:40-55 | on every path the user is credited with reported totals minus the row's previous totals (0 for a new row), only when one difference is positive; no other user changes |
| Tracker.AnnounceTwice | app/controllers/tracker_controller.rb:33-55 | a second announce of the same peer finds the row the first wrote and credits exactly the growth between the two reports |
| Tracker.AnnounceEnqueues | app/controllers/tracker_controller.rb:57-66 | a failed announce writes no peer row and enqueues nothing; a successful one enqueues exactly one recount, of the announced torrent |
| Tracker.AnnounceStopped | app/controllers/tracker_controller.rb:57-60 | `stopped` deletes the announcing row if there is one, enqueues a recount and answers; afterwards no row of that peer remains |
| Tracker.AnnounceInvalid | app/controllers/tracker_controller.rb:61-66 | a row that fails validation gives `Failed to update peer` and leaves peers and queue unchanged |
| Tracker.AnnounceRefresh | app/controllers/tracker_controller.rb:44-63 | a re-announce rewrites the matching row in place with the new totals and time; nothing else in the table changes |
| Tracker.AnnounceJoin | app/controllers/tracker_controller.rb:44-63 | a first announce with a free slot appends one row |
| Tracker.AnnounceConflict | app/controllers/tracker_controller.rb:61 | a new row whose unique-index slot another user's row holds makes the save raise (500) and writes no peer row |
| Tracker.AnnouncePreservesInv | app/controllers/tracker_controller.rb:33-66 | every announce keeps the store's validations, unique indexes and foreign keys |
| Tracker.AnnounceResponse | app/controllers/tracker_controller.rb:68-76 | the response holds interval 1800 and the torrent's stored seeders and leechers; its peer list reads back as min(50, active peers) endpoints, each an active peer of this torrent in the store as written |
| Tracker.AnnounceRendered | app/controllers/tracker_controller.rb:78 | a successful announce is status 200 with a body that reads back as its response, keys sorted |
| Tracker.ListedReadBack | app/controllers/tracker_controller.rb:69 | the listed peers, encoded and read back, are at most 50 endpoints of active peers of the torrent |
| Tracker.AssignKeys | app/controllers/tracker_controller.rb:105 | hash assignment keeps insertion order and appends only a new key |
| Tracker.AssignValues | app/controllers/tracker_controller.rb:105 | hash assignment sets the key's value and changes no other entry |
| Tracker.FilesKeys | app/controllers/tracker_controller.rb:89-111 | the files hash has, once each, exactly the requested hashes that name a torrent |
| Tracker.FilesValues | app/controllers/tracker_controller.rb:102-110 | each files entry holds the complete, incomplete and downloaded counters of the torrent its key names |
| Tracker.Scrape | app/controllers/tracker_controller.rb:82-115 | no contract of its own; Tracker.ScrapeReply, FilesKeys and FilesValues state its reply |
| Tracker.ScrapeReply | app/controllers/tracker_controller.rb:82-115 | scrape fails with `No info_hash provided` exactly when no hash is given; otherwise it is status 200 with a body that reads back with sorted keys |
| PeerModel.Valid | app/models/peer.rb:14-21 | no contract of its own; PeerModel.ValidPeerOneRole and the four rejection and acceptance examples below examine it, and Store.Inv requires it of every row |
| Compact.DottedQuad | app/models/peer.rb:15 | no contract of its own; Compact.FormatIpRoundTrip, PeerModel.InvalidAddressRejected and PeerModel.LargeOctetAccepted examine it |
| PeerModel.Active | app/models/peer.rb:23 | no contract of its own; PeerModel.ActiveStaleBoundary and JustAnnouncedActive state where the hour ends |
| PeerModel.Seeders | app/models/peer.rb:24 | no contract of its own; PeerModel.SeedersLeechersPartition states how it splits the table with Leechers |
| PeerModel.Leechers | app/models/peer.rb:25 | no contract of its own; PeerModel.SeedersLeechersPartition states how it splits the table with Seeders |
| PeerModel.ValidPeerOneRole | app/models/peer.rb:30-39 | a valid peer is exactly one of seeder and leecher |
| PeerModel.SeedersLeechersPartition | app/models/peer.rb:24-25 | over valid rows the seeders and leechers scopes split the table: disjoint, and together exactly the rows |
| PeerModel.ActiveStaleBoundary | app/models/peer.rb:23 | no peer is both active and stale; a peer is neither exactly at one hour |
| PeerModel.JustAnnouncedActive | app/models/peer.rb:23 | a peer that announced now is active |
| PeerModel.PortOutOfRange | app/models/peer.rb:16 | port 70000 fails validation |
| PeerModel.EmptyEventRejected | app/models/peer.rb:20 | an empty event string fails the inclusion check |
| PeerModel.InvalidAddressRejected | app/models/peer.rb:15 | `invalid` is not a dotted quad |
| PeerModel.LargeOctetAccepted | app/models/peer.rb:15 | the format check accepts `999.1.1.1` (it checks digit counts, not ranges) |
| UserModel.UpdateStats | app/models/user.rb:35-38 | the user's totals grow by exactly the deltas; id and email are unchanged |
| UserModel.UpdateStatsCompose | app/models/user.rb:35-38 | two updates equal one update by the summed deltas |
| UserModel.UpdateStatsInverse | app/models/user.rb:35-38 | an update by the negated deltas undoes an update |
| UserModel.Ratio | app/models/user.rb:21-27 | no contract of its own; the five Ratio lemmas below state its cases |
| UserModel.RatioNil | app/models/user.rb:22 | the ratio is nil exactly when both totals are zero |
| UserModel.RatioInfinite | app/models/user.rb:23 | the ratio is infinite exactly when nothing was downloaded and something uploaded |
| UserModel.RatioZero | app/models/user.rb:21-24 | the ratio is 0.0 exactly when nothing was uploaded but something downloaded |
| UserModel.RatioQuotient | app/models/user.rb:21-27 | otherwise the ratio is the quotient of the two totals, and the divisor is never zero for non-negative uploads |
| UserModel.RatioNonNegative | app/models/user.rb:21-27 | for non-negative totals the four cases are selected by which totals are positive |
| TorrentModel.Valid | app/models/torrent.rb:11-17 | no contract of its own; Store.Inv requires it of every row, and Jobs.UpdateTorrentStats writes a recount only when the row still passes it (Jobs.UpdatePreservesInv) |
| TorrentModel.CategoryName | app/models/torrent.rb:41-44 | the name is nil exactly when the category is unset or unknown; otherwise it is the table's name for that id |
| TorrentModel.UrlEncode | app/models/torrent.rb:30-33 | the encoding uses only unreserved bytes and `%` |
| TorrentModel.UrlRoundTrip | app/models/torrent.rb:30-33 | percent-decoding the encoding gives the original bytes |
| TorrentModel.UrlEncodeExamples | app/models/torrent.rb:30-33 | space, colon and question mark become `%20`, `%3A` and `%3F` |
| TorrentModel.UrlEncodeNoSeparator | app/models/torrent.rb:30-33 | an encoded value never contains `&` or a newline |
| TorrentModel.MagnetLink | app/models/torrent.rb:30-33 | no contract of its own; TorrentModel.MagnetWithoutTrackers, MagnetQueryFields and TrackerFieldDecodes state what the link holds |
| TorrentModel.MagnetWithoutTrackers | app/models/torrent.rb:30-33 | with no announce URLs the link is `magnet:?xt=urn:btih:` + hash + `&dn=` + encoded name |
| TorrentModel.MagnetQueryFields | app/models/torrent.rb:30-33 | splitting the link's query at `&` gives the hash field, the name field and one `tr=` field per tracker line, in order |
| TorrentModel.TrackerFieldDecodes | app/models/torrent.rb:31 | each `tr=` field decodes back to its tracker line |
| Category.TableSize | app/models/category.rb:22-97 | the table has 67 rows; ids and names list them in order |
| Category.IdsIncreasing | app/models/category.rb:109-111 | the ids are strictly increasing, hence distinct |
| Category.IdsHaveParents | app/models/category.rb:22-97 | every id is in 1000..8999 and its family's main id is also in the table |
| Category.MainCategoryPresent | app/models/category.rb:22-97 | each of the eight main ids 1000..8000 is valid |
| Category.NameFor | app/models/category.rb:126-128 | no contract of its own; Category.Lookup, ValidIdIffName and NameForExamples state it |
| Category.ValidId | app/models/category.rb:134-136 | no contract of its own; Category.ValidIdIffName, MainCategoryPresent and FamilyContainsValid state it |
| Category.ValidIdIffName | app/models/category.rb:126-136 | an id is valid exactly when it has a name |
| Category.Lookup | app/models/category.rb:126-128 | the lookup is nil exactly for ids not in the table, and otherwise returns that id's row name |
| Category.LookupRow | app/models/category.rb:126-128 | in a table with increasing ids, each row's id looks up that row's name |
| Category.FamilyIdsFor | app/models/category.rb:145-148 | no contract of its own; the four Family lemmas below state it |
| Category.FamilyIdsForFamily | app/models/category.rb:145-148 | a family is the ids of that thousand's block, or empty outside 1000..8999 |
| Category.FamilyIdsForMembers | app/models/category.rb:145-148 | an id is in the family of `c` exactly when it is in the table and shares `c`'s thousands |
| Category.FamilyContainsValid | app/models/category.rb:145-148 | every valid id is in its own family |
| Category.MoviesFamily | app/models/category.rb:145-148 | the family of 2000 is 2000, 2010, 2020, 2030, 2040, 2045, 2050, 2060, 2070, 2080 |
| Category.NoNinthFamily | app/models/category.rb:145-148 | the family of 9000 is empty |
| Category.NameForExamples | app/models/category.rb:126-128 | 2040 is `Movies/HD`; 9999 has no name |
| IndexerCategory.SameTable | app/models/concerns/indexer_category.rb:6-81 | the indexer table is row for row the Torznab table |
| IndexerCategory.NameFor | app/models/concerns/indexer_category.rb:95-97 | no contract of its own; IndexerCategory.NameForAgrees states it |
| IndexerCategory.ValidId | app/models/concerns/indexer_category.rb:99-101 | no contract of its own; IndexerCategory.NameForAgrees and ValidIdIffName state it |
| IndexerCategory.NameForAgrees | app/models/concerns/indexer_category.rb:95-101 | the two tables give the same name and validity for every id |
| IndexerCategory.ValidIdIffName | app/models/concerns/indexer_category.rb:95-101 | an id is valid exactly when it has a name |
| IndexerCategory.TableShape | app/models/concerns/indexer_category.rb:83-93 | 67 rows, distinct ids, each with its main id present |
| Store.TorrentByHash | app/controllers/tracker_controller.rb:22 | the lookup returns a row holding the hash, or reports that none does |
| Store.TorrentIdsCast | db/schema.rb:38 | every torrent id in the table casts to itself, so the job's lookup by id needs no cast |
| Store.TorrentById | app/jobs/update_torrent_stats_job.rb:22-23 | the lookup returns the row with the id, or reports that the id is absent |
| Jobs.UpdateUnknownNoop | app/jobs/update_torrent_stats_job.rb:22-23 | a missing or unknown torrent id changes nothing |
| Jobs.UpdateRecounts | app/jobs/update_torrent_stats_job.rb:26-31 | the torrent's counters become the counts of its active seeders and leechers |
| Jobs.UpdateWithoutPeers | app/jobs/update_torrent_stats_job.rb:26-31 | with no peers both counters become zero |
| Jobs.UpdateIgnoresOldCounts | app/jobs/update_torrent_stats_job.rb:28-31 | the result does not depend on the counters stored before |
| Jobs.UpdateIdempotent | app/jobs/update_torrent_stats_job.rb:21-31 | running the job twice is the same as once |
| Jobs.UpdateIgnoresOthers | app/jobs/update_torrent_stats_job.rb:26-31 | inserting a peer of another torrent, or one that is not active, anywhere in the peers table leaves the torrents table the job writes unchanged |
| Jobs.UpdatePreservesInv | app/jobs/update_torrent_stats_job.rb:21-31 | the job keeps the store invariant |
| Jobs.UpdateTorrentStats | app/jobs/update_torrent_stats_job.rb:21-31 | the job touches only the torrents table, and no torrent ids change |
| Jobs.Distinct | app/jobs/cleanup_stale_peers_job.rb:31 | `distinct` keeps each value once and no other values |
| Jobs.CleanupStalePeers | app/jobs/cleanup_stale_peers_job.rb:26-42 | the sweep changes neither the torrents nor the users table; Jobs.SweepDeletesStale, SweepEnqueues and SweepKeepsActive state its writes |
| Jobs.SweepDeletesStale | app/jobs/cleanup_stale_peers_job.rb:28-34 | afterwards no stale peer remains, every non-stale peer remains, and the count deleted is the number of stale rows |
| Jobs.SweepEnqueues | app/jobs/cleanup_stale_peers_job.rb:31-39 | one recount is enqueued per distinct torrent that had a stale peer, and for no other torrent |
| Jobs.SweepBoundary | app/jobs/cleanup_stale_peers_job.rb:28 | a peer exactly one hour old is neither deleted nor active |
| Jobs.SweepKeepsActive | app/jobs/cleanup_stale_peers_job.rb:28-34 | the sweep does not change any torrent's active peers |
| Jobs.SweepPreservesInv | app/jobs/cleanup_stale_peers_job.rb:26-42 | the sweep keeps the store invariant |
| Text.RubySplitSpec | app/models/torrent.rb:31 | Ruby's `split` is the plain split with trailing empty fields dropped |
| Text.SplitJoin | app/controllers/tracker_controller.rb:126 | splitting at a separator and joining back gives the original text |
| Text.JoinSplit | app/models/torrent.rb:31 | joining separator-free fields and splitting again gives the fields |
| Text.NatDigitsValue | app/controllers/tracker_controller.rb:126 | the decimal digits of a number read back as that number |
| Text.FilterComplement | app/models/peer.rb:24-25 | selecting by a test and by its negation splits a sequence |

## Left out

- Concurrency is not modelled. Requests, job runs and the atomic `increment!` calls are taken one at a time, so races between two announces of one peer are out of scope.
- Time is a parameter. `Time.current` and `1.hour.ago` are the caller's integer seconds `now` and `now - 3600`.
- Logging is not modelled. The cleanup job's log line is reduced to the deleted and updated counts it would print.
- The framework's request parsing is not modelled. Each parameter arrives as nil or bytes, and numeric ones as nil or the integer `to_i` would give. How `to_i` reads non-numeric text, and array-valued announce parameters, are left out.
- The `rescue ArgumentError` branches of the normaliser are not modelled. `unpack1('H*')` on a String does not raise, so `Invalid info_hash` and the scrape's `next` cannot be reached.
- SQL row order is not modelled. Where the database picks an unspecified order, the model uses table order:
  - the first 50 active peers of the response;
  - the order of `distinct.pluck`.
- The body of the 500 page is not modelled. A save that raises on the unique index yields `ServerError`, and its rendering carries status 500 with an empty body standing for the framework's page.
- Content types and other HTTP headers are not modelled.
- User validations (email format, password) and `has_secure_password` are outside the tracker core.
- Category.all is the table itself (`Category.Table`) and has no contract of its own.
- The uniqueness validation of `info_hash` is stated as part of the store invariant, not as a per-row check.
- Tracker.Announce requires that every stored peer row is valid. The database only holds rows that passed their validations, and the response's address encoding relies on it.
- PeerModel.Valid counts `peer_id` length in bytes, while Ruby's `length` counts characters. The two agree for the ASCII ids clients send, not for multi-byte text.
- Text.Blank treats as blank only text that is empty or all ASCII whitespace. Ruby's `blank?` also counts Unicode spaces such as U+3000. PeerModel.Valid, Tracker.BlankText (and so Tracker.MissingParams) and TorrentModel.Valid all use Text.Blank, so a parameter of only Unicode spaces passes the missing-parameters check in the model and fails it in the source.
- UserModel.Ratio keeps the two totals of the quotient case instead of the rounded float `(uploaded.to_f / downloaded).round(2)`. Floating point is not modelled.
- Tracker.AnnounceLedger follows the code: the user is credited before the save. The credit stands even when the announce then fails with `Failed to update peer` or a unique-index error, so totals can grow, or shrink, from an announce that stores nothing.
- Tracker.Announce does not model column widths. `uploaded`, `downloaded` and `left` are `bigint` columns (db/schema.rb:20, :24, :29, :64, :68), and a value outside -2^63..2^63-1 makes the write raise, so the request ends in a 500. The model's integers are unbounded: a report of `uploaded=9223372036854775808`, or a credit that takes a user's total past 2^63-1, is stored and answered with a success. UserModel.UpdateStats and PeerModel.Valid share the omission, and so does Jobs.UpdateTorrentStats for the `integer` counters of the torrents table (db/schema.rb:41, :47, :52).
- UuidCast.Cast follows the uuid type of the framework version the schema names (8.1). A closing brace is accepted only together with an opening one.
- Jobs.UpdateTorrentStats looks the torrent id up as given, without the uuid cast. The queue only holds ids read from torrent rows (Tracker.AnnounceEnqueues, Jobs.SweepEnqueues), and every such id casts to itself (Store.TorrentIdsCast), so the uncast lookup finds the same row.
