/** The data model of the notechart cache (src/notechart_cache.rs): the two stored relations,
    the schema's constraints as invariants, and the collaborators the passes consult. */
module Cache {
  import opened Wrappers
  import opened Errors

  type Id = int
  type SetId = int
  type Path = string

  /** A file's content digest (lower-case hex SHA-256 in the source); compared, never inspected. */
  type Digest = string

  // ---------------------------------------------------------------------------------------
  // What the chart parser returns
  // ---------------------------------------------------------------------------------------

  /** One entry of a chart's event list: its type code and its comma-separated parameters. */
  datatype Event = Event(eType: string, params: seq<string>)

  /** The parts of a parsed chart the cache keeps. */
  datatype ChartInfo = ChartInfo(
    artist: string,
    title: string,
    version: string,
    audioFilename: string,
    events: seq<Event>)

  /** Index of the first event of type "0" (a background image), if there is one. */
  function FirstBackground(events: seq<Event>): (k: Option<nat>)
    ensures k.Some? ==> k.value < |events| && events[k.value].eType == "0"
    ensures k.Some? ==> forall j :: 0 <= j < k.value ==> events[j].eType != "0"
    ensures k.None? ==> forall j :: 0 <= j < |events| ==> events[j].eType != "0"
  {
    if |events| == 0 then None
    else if events[0].eType == "0" then Some(0)
    else
      match FirstBackground(events[1..])
      case None => None
      case Some(k) => Some(k + 1)
  }

  /** The first background event, if any, has a first parameter to read. */
  predicate BackgroundReadable(info: ChartInfo)
  {
    match FirstBackground(info.events)
    case None => true
    case Some(k) => |info.events[k].params| > 0
  }

  /** Parser output. Taking `params[0]` of the background event cannot fail on it. */
  type Info = i: ChartInfo | BackgroundReadable(i) witness ChartInfo("", "", "", "", [])

  /** The background image: first parameter of the first type-"0" event, else the empty string. */
  function Background(info: Info): (b: string)
    ensures (forall j :: 0 <= j < |info.events| ==> info.events[j].eType != "0") ==> b == ""
    ensures forall k :: 0 <= k < |info.events| && info.events[k].eType == "0"
                        && (forall j :: 0 <= j < k ==> info.events[j].eType != "0")
                        ==> |info.events[k].params| > 0 && b == info.events[k].params[0]
  {
    match FirstBackground(info.events)
    case None => ""
    case Some(k) => info.events[k].params[0]
  }

  /** The metadata columns of a notechart row. */
  datatype Meta = Meta(artist: string, title: string, version: string, audio: string, background: string)

  /** The metadata a parsed chart contributes to its row. */
  function MetaOf(info: Info): Meta
  {
    Meta(info.artist, info.title, info.version, info.audioFilename, Background(info))
  }

  // ---------------------------------------------------------------------------------------
  // The store
  // ---------------------------------------------------------------------------------------

  /** A `notecharts` row without its id. `set_id` and `filename` are read back as optional
      because a row written without them cannot be decoded by the reconciliation pass. */
  datatype Row = Row(setId: Option<SetId>, hash: Digest, filename: Option<string>, meta: Meta)

  /** The `notecharts` table by id, the `notechart_sets` table by id (each set's path), and the
      next id AUTOINCREMENT hands out. */
  datatype Store = Store(charts: map<Id, Row>, sets: map<SetId, Path>, nextId: Id)

  /** Every digest some row holds. */
  function Hashes(charts: map<Id, Row>): set<Digest>
  {
    set id | id in charts :: charts[id].hash
  }

  /** `hash TEXT NOT NULL UNIQUE`. */
  predicate HashesUnique(charts: map<Id, Row>)
  {
    forall a, b :: a in charts && b in charts && a != b ==> charts[a].hash != charts[b].hash
  }

  /** `path TEXT UNIQUE` on `notechart_sets`. */
  predicate SetPathsUnique(sets: map<SetId, Path>)
  {
    forall a, b :: a in sets && b in sets && a != b ==> sets[a] != sets[b]
  }

  /** `set_id INTEGER NOT NULL` and `filename TEXT NOT NULL`. */
  predicate Placed(charts: map<Id, Row>)
  {
    forall id :: id in charts ==> charts[id].setId.Some? && charts[id].filename.Some?
  }

  /** `PRIMARY KEY(id AUTOINCREMENT)`: every id in use was handed out before `nextId`. */
  predicate IdsIssued(s: Store)
  {
    forall id :: id in s.charts ==> id < s.nextId
  }

  /** The constraints the schema puts on a store. */
  predicate Valid(s: Store)
  {
    HashesUnique(s.charts) && SetPathsUnique(s.sets) && Placed(s.charts) && IdsIssued(s)
  }

  // ---------------------------------------------------------------------------------------
  // Collaborators and phase outcomes
  // ---------------------------------------------------------------------------------------

  /** One entry of a recursive directory walk: either one the walker could not read, or a
      path with the result of asking for its metadata (`Some(isFile)`, or `None` on failure). */
  datatype WalkItem = Unwalkable | Entry(path: Path, isFile: Option<bool>)

  /** The world outside the store: `get_hash` (the file's digest, `None` when it cannot be
      opened or read), the chart parser, and the walk of each root directory. */
  datatype Env = Env(
    hash: Path -> Option<Digest>,
    parse: Path -> Result<Info, IoError>,
    walk: Path -> seq<WalkItem>)

  /** The store a phase leaves behind and whether the phase committed. */
  datatype Outcome<+E> = Outcome(store: Store, result: Result<(), E>)
}
