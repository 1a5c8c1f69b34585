# Notechart cache sync, modelled in Dafny

A model of the notechart cache of a rhythm-game client. The cache is a SQLite database. It
holds one row per chart file: the file's SHA-256 digest, its set (the directory holding
it), its file name, and the metadata parsed out of the `.osu` file. It also holds one row
per set: the directory's path. A sync run (`update`) has these parts:

- **Connection.** It opens the database. If that fails, the run fails with
  `ConnectionError` and does nothing else.
- **Reconciliation** (`fix_changed`). It lists every cached chart and rebuilds the file's
  path from its set's path and its file name, then re-hashes the file. A file that can no
  longer be hashed is *removed*. A file whose digest changed is *changed*; anything else
  is left alone. Then, in one transaction, it rewrites each changed row from the
  re-parsed file, deletes each removed row, and commits. Any failure rolls everything
  back and ends the run with that error.
- **Discovery** (`find_new`). This runs once per root directory, in the given order. It
  walks the directory and keeps the regular files whose extension is `osu`. It hashes
  each one and keeps the files whose digest is neither cached nor met earlier in the same
  walk. It inserts those in one transaction, skipping files that no longer parse or
  hash. A failing pass leaves the cache as it was. Its error is dropped, and the run goes
  on to the next directory.
- **Errors.** Every failure is one of eight `CacheError` kinds. Each displays as a fixed
  prefix followed by the text of the wrapped I/O or database error.

The model is purely functional, one module per component:

- `Cache` (cache.dfy) is the store: a map from chart id to row, a map from set id to
  path, and the next AUTOINCREMENT id. The schema's UNIQUE and NOT NULL constraints are
  predicates over it (`HashesUnique`, `SetPathsUnique`, `Placed`, `IdsIssued`).
- `Changed` (changed.dfy) is reconciliation. `New` (new.dfy) is discovery. `Sync`
  (sync.dfy) is the orchestrator. `Errors` (errors.dfy) is the error vocabulary.
- The world outside the database is the `Env` record:
  - `get_hash` is a function `Path -> Option<Digest>`. `None` means the file cannot be
    opened or read. Being a function, it is deterministic in the file.
  - The chart parser is `Path -> Result<Info, IoError>`.
  - The directory walk is a function from the root to its sequence of entries.
- Database failures are parameters. A fault record names which statements fail and with
  what error. Each phase returns the store it leaves together with its result, so "a
  failed phase leaves the store as it was" is a postcondition.
- The order in which SQLite returns the rows of the listing query is a parameter,
  constrained to name every chart id exactly once. A step of that query can fail: the
  loop skips the error item, and because the failure resets the statement, the listing
  ends there. The fault record says after how many rows this happens.

## Model

| member | source | states |
|---|---|---|
| Errors.Message | src/notechart_cache/error.rs:17-30 | the message is defined for all eight variants; it is the variant's prefix followed by the wrapped error's text, intact |
| Errors.Prefix | src/notechart_cache/error.rs:20-27 | each kind's prefix identifies the kind: the kind can be read back from the prefix alone |
| Errors.ParseMessage | src/notechart_cache/error.rs:17-30 | a message read back into an error is exactly the message of that error |
| Errors.MessageRoundTrip | src/notechart_cache/error.rs:17-30 | reading any error's message back gives that error: the kind from the prefix, the wrapped text from the rest |
| Errors.MessageInjective | src/notechart_cache/error.rs:20-27 | two different errors never display the same message, so the eight prefixes are pairwise distinct |
| Cache.FirstBackground | src/notechart_cache/changed.rs:38-41 | finds the first event of type "0", and there is none exactly when no event has that type |
| Cache.Background | src/notechart_cache/changed.rs:38-45 | the background is the first parameter of the first event of type "0", and the empty string when no event has that type |
| Changed.Classify | src/notechart_cache/changed.rs:103-151 | the classification loop fails only with a select error, and lists no more records than the listing has rows |
| Changed.ClassifyFailure | src/notechart_cache/changed.rs:109-126 | the loop fails exactly when the set lookup of some decodable row fails, and then with the error of the first such row in listing order |
| Changed.ClassifyRemoved | src/notechart_cache/changed.rs:135-143 | a decodable row is listed as removed exactly when its file (set path + "/" + file name) cannot be hashed, and is listed as stored |
| Changed.ClassifyChanged | src/notechart_cache/changed.rs:145-150 | a decodable row is listed as changed exactly when its file hashes to a digest other than the stored one; the record carries the new digest with the id, set, set path and file name unchanged |
| Changed.ClassifyOrder | src/notechart_cache/changed.rs:103-151 | both lists keep the listing's order and name no row twice |
| Changed.FindChangedNotecharts | src/notechart_cache/changed.rs:78-154 | a listing query that cannot be prepared gives its select error; a failed step of the listing is skipped and ends it, so only the rows read before it are classified; the pass fails exactly when preparing the listing or some set lookup over those rows fails; on success the two lists partition those rows: removed and changed as above, rows with an unchanged digest and rows that fail to decode in neither |
| Changed.ApplyUpdates | src/notechart_cache/changed.rs:25-63 | the update loop fails only with a read error (re-parse) or an update error; on success every changed file parsed, no listed UPDATE failed, and the set of ids and the sets are unchanged |
| Changed.ApplyUpdatesSucceeds | src/notechart_cache/changed.rs:25-63 | the update loop finishes when every listed file re-parses, no listed UPDATE is faulted, no listed digest is held by another stored row, and no two listed records carry the same digest |
| Changed.ApplyUpdatesEffect | src/notechart_cache/changed.rs:47-57 | a completed update loop leaves unlisted rows as they were; each listed row keeps its id and file name and takes the set, new digest and re-parsed artist, title, version, audio and background; digest uniqueness and the NOT NULL columns survive |
| Changed.ApplyDeletes | src/notechart_cache/changed.rs:65-69 | the delete loop removes exactly the listed ids and leaves every other row as it was; a failure carries the error of a listed id whose DELETE failed |
| Changed.FixChanged | src/notechart_cache/changed.rs:15-76 | any failure (preparing the listing, lookup, begin, parse, UPDATE, DELETE, commit) leaves the store as it was; a failed step of the listing is no failure; a committed pass removed every removed row among those listed, refreshed every changed row among them, left every other row (including those the listing never reached) as it was, and keeps the schema's constraints |
| Changed.FixChangedSucceeds | src/notechart_cache/changed.rs:15-76 | the pass commits when preparing the listing, every set lookup among the rows it reaches, opening the transaction and committing all work, every changed row among them re-parses, is not faulted and takes a digest held by no other stored row and by no other changed row, and no removed row's DELETE is faulted; a failed step of the listing does not prevent the commit |
| Changed.ReconciledIsStable | src/notechart_cache/changed.rs:135-150 | after a committed pass every decodable row still names an existing set, and the file of every decodable row the listing reached hashes to the digest the row holds |
| Changed.ReconcileIdempotent | src/notechart_cache/changed.rs:15-76 | after a committed pass, classifying again over the same files succeeds and finds changed or removed only rows the first listing did not reach; when that listing was read to the end, it finds nothing changed and nothing removed |
| New.OsuExtensionIff | src/notechart_cache/new.rs:130-143 | a file name has the extension "osu" exactly when it is longer than ".osu" and ends with it |
| New.IsNotechartIffOsuSuffix | src/notechart_cache/new.rs:130-143 | a path is a chart exactly when its last component is longer than ".osu" and ends with it; "sm", "ssc", any other extension and no extension are not charts |
| New.IsNotechartOfJoin | src/notechart_cache/new.rs:117-122 | a file `name` inside a directory is a chart exactly when `name` is longer than ".osu" and ends with it |
| New.GetNotechartPaths | src/notechart_cache/new.rs:109-128 | the listing fails exactly when asking some walked entry for its metadata fails; otherwise it is exactly the walk filtered to regular files that are charts, in walk order and as often as walked, so a path is in it exactly when it is walked as a regular chart file, and entries the walker could not read are skipped |
| New.ExistsQueryFinds | src/notechart_cache/new.rs:145-157 | the `SELECT EXISTS` scan answers true exactly when some row it visits holds the digest |
| New.ExistsQueryIsMembership | src/notechart_cache/new.rs:145-157 | whatever order the scan visits the table in, the existence query answers exactly whether the digest is among the stored digests |
| New.SelectFrom | src/notechart_cache/new.rs:16-39 | the selection loop fails only with a read or select error, and keeps no more paths than it was given |
| New.SelectFailure | src/notechart_cache/new.rs:19-31 | the selection fails exactly when some candidate cannot be hashed or its existence query fails, and then with the first such candidate's kind (read error or select error) |
| New.SelectKeeps | src/notechart_cache/new.rs:28-38 | a completed selection keeps exactly the candidates whose digest is not cached and not that of an earlier candidate (the first file of each content, in walk order); the kept digests are pairwise distinct |
| New.GetNotechartData | src/notechart_cache/new.rs:78-107 | reading a file succeeds exactly when it both parses and hashes, and otherwise gives a read error; the result carries the file's digest and path, the parsed artist, title, version and audio file, and as background the first parameter of the first event of type "0", or the empty string when no event has that type |
| New.AddRow | src/notechart_cache.rs:57 | an insert takes an id AUTOINCREMENT never handed out before, and leaves every other row and set alone |
| New.InsertAll | src/notechart_cache/new.rs:46-69 | the insert loop fails only with an insert error, and never touches the sets |
| New.InsertAllFailure | src/notechart_cache/new.rs:46-69 | the insert loop fails exactly when some file that loads has a digest whose INSERT faults, that is already stored, or that an earlier loading file of the selection had |
| New.InsertAllKeeps | src/notechart_cache/new.rs:52-64 | a completed insert loop leaves every stored row as it was |
| New.InsertAllAddedFrom | src/notechart_cache/new.rs:46-64 | every row the loop adds has a fresh id and is the digest and metadata of a file of the selection that loads, with no set and no file name |
| New.InsertAllAddsAll | src/notechart_cache/new.rs:46-50 | every file of the selection that loads gets its row; files that no longer parse or hash are skipped without error |
| New.InsertAllDigestsUnique | src/notechart_cache.rs:50 | no row of the result shares its digest with a row the loop added |
| New.InsertAllNothingLoads | src/notechart_cache/new.rs:47-50 | when no selected file loads, the loop succeeds and writes nothing |
| New.FindNew | src/notechart_cache/new.rs:8-76 | any failure leaves the store as it was; the pass fails with a directory error exactly when listing the directory fails; other failures are read, select, transaction or insert errors |
| New.FindNewHashFailure | src/notechart_cache/new.rs:19-26 | when no existence query fails, a candidate that cannot be hashed makes the pass fail with a read error and leaves the store as it was |
| New.FindNewEffect | src/notechart_cache/new.rs:8-76 | a committed pass keeps every stored row, adds exactly the rows of candidates that are the first of their content, not cached, and still load, and keeps digests unique |
| New.FindNewSucceeds | src/notechart_cache/new.rs:41-75 | with no storage fault, a directory whose entries all answer for their metadata and whose charts all hash is committed, whatever fails to parse |
| New.FindNewIdempotent | src/notechart_cache/new.rs:28-38 | after a committed pass, a second pass over the same files commits and writes nothing |
| Sync.Update | src/notechart_cache.rs:74-93 | a failed connection gives ConnectionError with no phase run; a failed reconciliation is the run's error, no directory is scanned and the store is unchanged; otherwise reconciliation runs once, then one discovery pass per directory in order, each from the store the previous one left, with its error dropped; the run then succeeds and digest uniqueness is kept |

## Left out

- SQL text, statement preparation and execution, and the creation of the database file
  (`get_connection`, `create_default`) are left out. The store is two maps, the schema's
  constraints are predicates, and each failing statement is named in a fault record.
- The interpolation of the digest into the existence query's SQL text is left out. Only
  what the query means is modelled.
- `walkdir` itself is left out: traversal order, following symbolic links, and how
  `metadata()` fails. The walk is a given sequence of entries. An entry is either one the
  walker could not read or a path with its metadata answer.
- `Path::display`, and `Path::extension` on paths with trailing "/" or "." components, are
  left out. Paths are strings, and the extension is taken from the text after the last
  "/".
- SHA-256 and hex formatting are left out. The digest is an uninterpreted string that the
  hashing function returns.
- `osu_parser::import_info` is left out. The parser is a function from path to parsed
  metadata or an I/O error.
- Cache.Background: the source would panic on a background event with no parameter. The
  parser's output type `Info` excludes that case, so the panic is not modelled.
- Integer width is left out. Ids are unbounded integers rather than i64.
- All printed logging is left out, and so is `src/main.rs`: its hard-coded directories,
  timing and `unwrap`.
- Changed.FindChangedNotecharts: it requires every decodable row to name an existing set.
  The source panics only on the first such row it reaches. It never reaches a row after a
  failed set lookup, so the requirement is wider than the source needs.
- Changed.FixChanged: a changed file is read twice, hashed while classifying
  (src/notechart_cache/changed.rs:137) and parsed while updating
  (src/notechart_cache/changed.rs:28). The model assumes the file does not change in
  between.
- Changed.FindChangedNotecharts: an error from stepping the set-lookup cursor is not
  modelled. The source panics on it, and the model treats a lookup as either returning the
  set or failing with a select error.
- New.FindNew: the file is read twice, once to select it and once to insert it, and the
  model assumes it does not change in between.
- New.FindNew: it requires `IdsIssued` (every id in use is below the next AUTOINCREMENT
  id). The AUTOINCREMENT key guarantees this; it is not checked by the code.
- New.FindNew: the source does not compile as written. It builds the payload-carrying
  error variants without a payload, and it sets a `hash` field that `CachedNoteChart` does
  not have. The model gives discovery payload-free error kinds.
- New.InsertAll: as written, every INSERT fails when it runs. Its statement names a
  `path` column the schema does not have, and it leaves out `set_id` and `filename`,
  which the schema declares NOT NULL (src/notechart_cache.rs:49,54). So `find_new` as
  written ends in `DbInsertError` whenever a selected file loads. The model deliberately
  lets such an INSERT succeed. It writes a row holding the digest and the metadata, with
  no set and no file name. Such rows break the NOT NULL on `set_id` and `filename`, so
  the model does not claim that discovery keeps `Placed`. Reconciliation skips these rows
  because they do not decode.
- New.FindNew: discovery creates no sets and runs a single transaction. It checks whether
  a digest is cached before that transaction opens, and skips a file that fails to parse
  or hash at insert time (src/notechart_cache/new.rs:19-50).
- Sync.Update: it requires the store to meet the reconciliation pass's requirements and
  `IdsIssued`.
