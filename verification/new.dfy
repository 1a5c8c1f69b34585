/** The discovery pass (src/notechart_cache/new.rs): walk a root directory, keep the chart files
    whose content is neither cached nor met earlier in the walk, and insert them in one
    transaction. Errors are the payload-free kinds of `ErrorKind`. */
module New {
  import opened Wrappers
  import opened Errors
  import opened Cache
  import opened Sequences

  // ---------------------------------------------------------------------------------------
  // Recognising chart files by extension
  // ---------------------------------------------------------------------------------------

  /** Position of the last `c` in `s`, or -1. */
  function LastIndexOf(s: string, c: char): (r: int)
    ensures -1 <= r < |s|
    ensures r >= 0 ==> s[r] == c
    ensures forall j :: r < j < |s| ==> s[j] != c
    decreases |s|
  {
    if |s| == 0 then -1
    else if s[|s| - 1] == c then |s| - 1
    else LastIndexOf(s[..|s| - 1], c)
  }

  /** The last component of a path: what follows its last "/". */
  function FileName(p: Path): (name: string)
    ensures |name| <= |p| && name == p[|p| - |name|..]
    ensures forall j :: 0 <= j < |name| ==> name[j] != '/'
    ensures |name| < |p| ==> p[|p| - |name| - 1] == '/'
  {
    p[LastIndexOf(p, '/') + 1..]
  }

  /** `Path::extension`: the text after the last "." of the file name, provided the name has
      text before that dot; no extension for a name without a dot, a name whose only dot leads
      it (".osu"), and the names "" and "..". */
  function Extension(p: Path): Option<string>
  {
    NameExtension(FileName(p))
  }

  function NameExtension(name: string): Option<string>
  {
    if |name| == 0 || name == ".." then None
    else
      var dot := LastIndexOf(name, '.');
      if dot <= 0 then None else Some(name[dot + 1..])
  }

  /** `is_notechart`: only the extension "osu" is taken; "sm", "ssc", any other extension and
      no extension are not. */
  predicate IsNotechart(p: Path)
  {
    match Extension(p)
    case None => false
    case Some(ext) => ext == "osu"
  }

  /** A file name has extension "osu" exactly when it is longer than ".osu" and ends with it. */
  lemma OsuExtensionIff(name: string)
    ensures NameExtension(name) == Some("osu") <==> |name| > 4 && name[|name| - 4..] == ".osu"
  {
    var n := |name|;
    if n > 4 && name[n - 4..] == ".osu" {
      assert name[n - 4] == '.' && name[n - 3] == 'o' && name[n - 2] == 's' && name[n - 1] == 'u';
      var dot := LastIndexOf(name, '.');
      assert dot == n - 4;
      assert name[dot + 1..] == "osu";
      assert |name| != 2;
    }
    if NameExtension(name) == Some("osu") {
      var dot := LastIndexOf(name, '.');
      assert name[dot + 1..] == "osu";
      assert n == dot + 4;
      assert name[n - 4..] == [name[dot]] + name[dot + 1..];
    }
  }

  /** A path names a chart exactly when its file name is longer than ".osu" and ends with it. */
  lemma IsNotechartIffOsuSuffix(p: Path)
    ensures IsNotechart(p) <==> var name := FileName(p); |name| > 4 && name[|name| - 4..] == ".osu"
  {
    OsuExtensionIff(FileName(p));
  }

  /** The file name of `dir/name` is `name`. */
  lemma FileNameOfJoin(dir: Path, name: string)
    requires forall j :: 0 <= j < |name| ==> name[j] != '/'
    ensures FileName(dir + "/" + name) == name
  {
    var p := dir + "/" + name;
    var r := LastIndexOf(p, '/');
    assert p[|dir|] == '/';
    assert r == |dir|;
  }

  /** The file `name` inside directory `dir` is a chart exactly when `name` is longer than
      ".osu" and ends with it. */
  lemma IsNotechartOfJoin(dir: Path, name: string)
    requires forall j :: 0 <= j < |name| ==> name[j] != '/'
    ensures IsNotechart(dir + "/" + name) <==> |name| > 4 && name[|name| - 4..] == ".osu"
  {
    FileNameOfJoin(dir, name);
    OsuExtensionIff(name);
  }

  // ---------------------------------------------------------------------------------------
  // Listing the candidate files
  // ---------------------------------------------------------------------------------------

  /** The paths of the walk's readable entries, in walk order. */
  function Listed(walk: seq<WalkItem>): seq<Path>
    decreases |walk|
  {
    if |walk| == 0 then []
    else if walk[0].Unwalkable? then Listed(walk[1..])
    else [walk[0].path] + Listed(walk[1..])
  }

  /** Entry `e` is a regular file whose path is a chart. */
  predicate ChartFile(e: WalkItem)
  {
    e.Entry? && e.isFile == Some(true) && IsNotechart(e.path)
  }

  /** The walk filtered down to its chart files, in walk order, each as often as it is walked. */
  function ChartFiles(walk: seq<WalkItem>): seq<Path>
    decreases |walk|
  {
    if |walk| == 0 then []
    else if ChartFile(walk[0]) then [walk[0].path] + ChartFiles(walk[1..])
    else ChartFiles(walk[1..])
  }

  /** `get_notechart_paths`: the regular files of the walk that are charts, in walk order;
      fails when asking an entry for its metadata fails, and drops entries the walker itself
      could not read. */
  function GetNotechartPaths(walk: seq<WalkItem>): (r: Option<seq<Path>>)
    ensures r.None? <==> exists e :: e in walk && e.Entry? && e.isFile.None?
    ensures r.Some? ==> forall p :: p in r.value <==> Entry(p, Some(true)) in walk && IsNotechart(p)
    ensures r.Some? ==> IsSubsequence(r.value, Listed(walk))
    ensures r.Some? ==> r.value == ChartFiles(walk)
    decreases |walk|
  {
    if |walk| == 0 then Some([])
    else
      var rest := GetNotechartPaths(walk[1..]);
      assert walk == [walk[0]] + walk[1..];
      match walk[0]
      case Unwalkable => rest
      case Entry(p, isFile) =>
        assert Listed(walk) == [p] + Listed(walk[1..]);
        if isFile.None? then None
        else if rest.None? then None
        else if isFile.value && IsNotechart(p) then
          assert ([p] + rest.value)[1..] == rest.value;
          Some([p] + rest.value)
        else rest
  }

  // ---------------------------------------------------------------------------------------
  // Selecting the files to insert
  // ---------------------------------------------------------------------------------------

  /** `is_notechart_exists`: whether some cached row holds digest `h`. */
  predicate NotechartExists(s: Store, h: Digest)
  {
    h in Hashes(s.charts)
  }

  /** `is_notechart_exists` as the query runs it: `SELECT EXISTS (SELECT 1 ... WHERE hash = h)`
      visits the table's rows and answers true at the first row holding `h`, false when none
      does. */
  function ExistsQuery(rows: seq<Row>, h: Digest): bool
    decreases |rows|
  {
    if |rows| == 0 then false
    else if rows[0].hash == h then true
    else ExistsQuery(rows[1..], h)
  }

  /** The scan answers true exactly when some visited row holds the digest. */
  lemma {:induction false} ExistsQueryFinds(rows: seq<Row>, h: Digest)
    ensures ExistsQuery(rows, h) <==> exists i :: 0 <= i < |rows| && rows[i].hash == h
    decreases |rows|
  {
    if |rows| > 0 {
      ExistsQueryFinds(rows[1..], h);
      if exists i :: 0 <= i < |rows| && rows[i].hash == h {
        var i :| 0 <= i < |rows| && rows[i].hash == h;
        if i > 0 {
          assert rows[1..][i - 1] == rows[i];
        }
      }
      if ExistsQuery(rows[1..], h) && rows[0].hash != h {
        var i :| 0 <= i < |rows[1..]| && rows[1..][i].hash == h;
        assert rows[i + 1] == rows[1..][i];
      }
    }
  }

  /** `rows` is the `notecharts` table as a scan visits it: every stored row, and only those. */
  predicate TableRows(s: Store, rows: seq<Row>)
  {
    && (forall id :: id in s.charts ==> s.charts[id] in rows)
    && (forall i :: 0 <= i < |rows| ==> exists id :: id in s.charts && s.charts[id] == rows[i])
  }

  /** Whatever order the scan visits the table in, the query answers exactly whether some
      stored row holds the digest. */
  lemma ExistsQueryIsMembership(s: Store, rows: seq<Row>, h: Digest)
    requires TableRows(s, rows)
    ensures ExistsQuery(rows, h) <==> NotechartExists(s, h)
  {
    ExistsQueryFinds(rows, h);
    if NotechartExists(s, h) {
      var id :| id in s.charts && s.charts[id].hash == h;
      var i :| 0 <= i < |rows| && rows[i] == s.charts[id];
    }
    if ExistsQuery(rows, h) {
      var i :| 0 <= i < |rows| && rows[i].hash == h;
      var id :| id in s.charts && s.charts[id] == rows[i];
    }
  }

  /** Storage operations of one discovery pass that fail. Errors here carry no payload. */
  datatype ScanFaults = ScanFaults(
    lookup: set<Digest>,   // the existence query for these digests
    begin: bool,           // opening the transaction
    insert: set<Digest>,   // the INSERT of a row with these digests
    commit: bool)          // committing

  const NoScanFaults := ScanFaults({}, false, {}, false)

  /** Path `p` stops the selection: its file cannot be hashed, or the existence query for its
      digest fails. */
  predicate Broken(env: Env, fails: set<Digest>, p: Path)
  {
    env.hash(p).None? || env.hash(p).value in fails
  }

  /** `paths[j]` hashes, its digest is not cached, and no earlier candidate has the same digest:
      the first file of its content in walk order. */
  predicate Fresh(s: Store, env: Env, paths: seq<Path>, j: int)
    requires 0 <= j < |paths|
  {
    && env.hash(paths[j]).Some?
    && env.hash(paths[j]).value !in Hashes(s.charts)
    && forall k :: 0 <= k < j ==> env.hash(paths[k]) != env.hash(paths[j])
  }

  /** `seen` holds exactly the digests of the uncached files among the first `i` candidates. */
  ghost predicate SeenExactly(s: Store, env: Env, paths: seq<Path>, i: int, seen: set<Digest>)
    requires 0 <= i <= |paths|
  {
    forall d :: d in seen <==>
      exists k :: 0 <= k < i && env.hash(paths[k]) == Some(d) && d !in Hashes(s.charts)
  }

  /** The selection loop of `find_new` from candidate `i` on, `seen` being the digests kept so far. */
  function SelectFrom(s: Store, env: Env, paths: seq<Path>, fails: set<Digest>, i: int, seen: set<Digest>)
    : (r: Result<seq<Path>, ErrorKind>)
    requires 0 <= i <= |paths|
    ensures r.Failure? ==> r.error == FileRead || r.error == DbSelect
    ensures r.Success? ==> |r.value| <= |paths| - i
    decreases |paths| - i
  {
    if i == |paths| then Success([])
    else
      match env.hash(paths[i])
      case None => Failure(FileRead)
      case Some(h) =>
        if h in fails then Failure(DbSelect)
        else if NotechartExists(s, h) || h in seen then SelectFrom(s, env, paths, fails, i + 1, seen)
        else
          match SelectFrom(s, env, paths, fails, i + 1, seen + {h})
          case Failure(e) => Failure(e)
          case Success(rest) => Success([paths[i]] + rest)
  }

  /** The selection loop of `find_new`: hash every candidate, ask the store about its digest,
      and keep it unless the digest is cached or already kept. */
  function Select(s: Store, env: Env, paths: seq<Path>, fails: set<Digest>): Result<seq<Path>, ErrorKind>
  {
    SelectFrom(s, env, paths, fails, 0, {})
  }

  /** The selection fails exactly when some candidate is broken, with the first broken
      candidate's kind of failure. */
  lemma {:induction false} SelectFailure(s: Store, env: Env, paths: seq<Path>, fails: set<Digest>, i: int, seen: set<Digest>)
    requires 0 <= i <= |paths|
    ensures var r := SelectFrom(s, env, paths, fails, i, seen);
      r.Failure? <==> exists j :: i <= j < |paths| && Broken(env, fails, paths[j])
    ensures var r := SelectFrom(s, env, paths, fails, i, seen);
      r.Failure? ==>
        exists j :: i <= j < |paths| && Broken(env, fails, paths[j])
          && (forall k :: i <= k < j ==> !Broken(env, fails, paths[k]))
          && r.error == (if env.hash(paths[j]).None? then FileRead else DbSelect)
    decreases |paths| - i
  {
    if i < |paths| {
      var r := SelectFrom(s, env, paths, fails, i, seen);
      var h := env.hash(paths[i]);
      if Broken(env, fails, paths[i]) {
        assert r.Failure? && r.error == (if h.None? then FileRead else DbSelect);
      } else {
        var seen' := if NotechartExists(s, h.value) || h.value in seen then seen else seen + {h.value};
        SelectFailure(s, env, paths, fails, i + 1, seen');
        SelectFailureStep(s, env, paths, fails, i, seen, seen');
      }
    }
  }

  /** The step of `SelectFailure` past a candidate that is not broken: the loop fails from `i`
      exactly when it fails from `i + 1`, and a first broken candidate after `i` is also the
      first one from `i`. */
  lemma SelectFailureStep(s: Store, env: Env, paths: seq<Path>, fails: set<Digest>, i: int,
                          seen: set<Digest>, seen': set<Digest>)
    requires 0 <= i < |paths| && !Broken(env, fails, paths[i])
    requires seen' == if NotechartExists(s, env.hash(paths[i]).value) || env.hash(paths[i]).value in seen
                      then seen else seen + {env.hash(paths[i]).value}
    requires var rest := SelectFrom(s, env, paths, fails, i + 1, seen');
      rest.Failure? <==> exists j :: i + 1 <= j < |paths| && Broken(env, fails, paths[j])
    requires var rest := SelectFrom(s, env, paths, fails, i + 1, seen');
      rest.Failure? ==>
        exists j :: i + 1 <= j < |paths| && Broken(env, fails, paths[j])
          && (forall k :: i + 1 <= k < j ==> !Broken(env, fails, paths[k]))
          && rest.error == (if env.hash(paths[j]).None? then FileRead else DbSelect)
    ensures var r := SelectFrom(s, env, paths, fails, i, seen);
      r.Failure? <==> exists j :: i <= j < |paths| && Broken(env, fails, paths[j])
    ensures var r := SelectFrom(s, env, paths, fails, i, seen);
      r.Failure? ==>
        exists j :: i <= j < |paths| && Broken(env, fails, paths[j])
          && (forall k :: i <= k < j ==> !Broken(env, fails, paths[k]))
          && r.error == (if env.hash(paths[j]).None? then FileRead else DbSelect)
  {
    var r := SelectFrom(s, env, paths, fails, i, seen);
    var rest := SelectFrom(s, env, paths, fails, i + 1, seen');
    var h := env.hash(paths[i]).value;
    if NotechartExists(s, h) || h in seen {
      assert r == rest;
    } else {
      assert rest.Failure? ==> r == Failure(rest.error);
      assert rest.Success? ==> r.Success?;
    }
    if rest.Failure? {
      var j :| i + 1 <= j < |paths| && Broken(env, fails, paths[j])
        && (forall k :: i + 1 <= k < j ==> !Broken(env, fails, paths[k]))
        && rest.error == (if env.hash(paths[j]).None? then FileRead else DbSelect);
      assert forall k :: i <= k < j ==> !Broken(env, fails, paths[k]);
    } else {
      assert forall j :: i <= j < |paths| ==> !Broken(env, fails, paths[j]);
    }
  }

  /** Candidate `i` is fresh exactly when the loop keeps it: its digest is neither cached nor seen. */
  lemma FreshIffUnseen(s: Store, env: Env, paths: seq<Path>, i: int, seen: set<Digest>)
    requires 0 <= i < |paths| && SeenExactly(s, env, paths, i, seen)
    requires env.hash(paths[i]).Some?
    ensures var h := env.hash(paths[i]).value;
      Fresh(s, env, paths, i) <==> !NotechartExists(s, h) && h !in seen
    ensures var h := env.hash(paths[i]).value;
      SeenExactly(s, env, paths, i + 1,
                  if NotechartExists(s, h) || h in seen then seen else seen + {h})
  {
    var h := env.hash(paths[i]).value;
    if h in seen && h !in Hashes(s.charts) {
      var k :| 0 <= k < i && env.hash(paths[k]) == Some(h) && h !in Hashes(s.charts);
    }
    var seen' := if NotechartExists(s, h) || h in seen then seen else seen + {h};
    forall d ensures d in seen' <==>
      exists k :: 0 <= k < i + 1 && env.hash(paths[k]) == Some(d) && d !in Hashes(s.charts)
    {
      if d in seen' && d !in seen {
        assert d == h && env.hash(paths[i]) == Some(d);
      }
      if exists k :: 0 <= k < i + 1 && env.hash(paths[k]) == Some(d) && d !in Hashes(s.charts) {
        var k :| 0 <= k < i + 1 && env.hash(paths[k]) == Some(d) && d !in Hashes(s.charts);
        if k < i {
          assert d in seen;
        }
      }
    }
  }

  /** On success the selection keeps exactly the fresh candidates, in walk order, with pairwise
      distinct digests. */
  lemma {:induction false} SelectKeeps(s: Store, env: Env, paths: seq<Path>, fails: set<Digest>, i: int, seen: set<Digest>)
    requires 0 <= i <= |paths|
    requires SeenExactly(s, env, paths, i, seen)
    ensures var r := SelectFrom(s, env, paths, fails, i, seen);
      r.Success? ==> forall p :: p in r.value ==>
        exists j :: i <= j < |paths| && paths[j] == p && Fresh(s, env, paths, j)
    ensures var r := SelectFrom(s, env, paths, fails, i, seen);
      r.Success? ==> forall j :: i <= j < |paths| && Fresh(s, env, paths, j) ==> paths[j] in r.value
    ensures var r := SelectFrom(s, env, paths, fails, i, seen);
      r.Success? ==> forall a, b :: 0 <= a < b < |r.value| ==> env.hash(r.value[a]) != env.hash(r.value[b])
    ensures var r := SelectFrom(s, env, paths, fails, i, seen);
      r.Success? ==> IsSubsequence(r.value, paths[i..])
    decreases |paths| - i
  {
    var r := SelectFrom(s, env, paths, fails, i, seen);
    if i < |paths| && r.Success? {
      var h := env.hash(paths[i]).value;
      FreshIffUnseen(s, env, paths, i, seen);
      var seen' := if NotechartExists(s, h) || h in seen then seen else seen + {h};
      SelectKeeps(s, env, paths, fails, i + 1, seen');
      var rest := SelectFrom(s, env, paths, fails, i + 1, seen');
      assert paths[i..] == [paths[i]] + paths[i + 1..];
      if Fresh(s, env, paths, i) {
        assert r.value == [paths[i]] + rest.value;
        assert ([paths[i]] + rest.value)[1..] == rest.value;
        forall b | 0 < b < |r.value| ensures env.hash(r.value[0]) != env.hash(r.value[b]) {
          assert r.value[b] in rest.value;
        }
      } else {
        assert r.value == rest.value;
        assert IsSubsequence(rest.value, ([paths[i]] + paths[i + 1..])[1..]);
      }
    }
  }

  // ---------------------------------------------------------------------------------------
  // Inserting the selection
  // ---------------------------------------------------------------------------------------

  /** What `get_notechart_data` reads from one file: its digest, its path and its metadata. */
  datatype NewChart = NewChart(hash: Digest, path: Path, meta: Meta)

  /** `get_notechart_data`: parse the file, then hash it; either failing is a read error. */
  function GetNotechartData(env: Env, p: Path): (r: Result<NewChart, ErrorKind>)
    ensures r.Success? <==> env.parse(p).Success? && env.hash(p).Some?
    ensures r.Failure? ==> r.error == FileRead
    ensures r.Success? ==>
      r.value == NewChart(env.hash(p).value, p, MetaOf(env.parse(p).value))
    ensures r.Success? ==>
      var info := env.parse(p).value;
      && r.value.meta.artist == info.artist && r.value.meta.title == info.title
      && r.value.meta.version == info.version && r.value.meta.audio == info.audioFilename
      && ((forall j :: 0 <= j < |info.events| ==> info.events[j].eType != "0") ==> r.value.meta.background == "")
      && (forall k :: 0 <= k < |info.events| && info.events[k].eType == "0"
                      && (forall j :: 0 <= j < k ==> info.events[j].eType != "0")
                      ==> r.value.meta.background == info.events[k].params[0])
  {
    match env.parse(p)
    case Failure(_) => Failure(FileRead)
    case Success(info) =>
      match env.hash(p)
      case None => Failure(FileRead)
      case Some(h) => Success(NewChart(h, p, MetaOf(info)))
  }

  /** Whether the file at `p` yields a row at insert time. */
  predicate Loads(env: Env, p: Path)
  {
    GetNotechartData(env, p).Success?
  }

  /** The row discovery writes: the digest and the metadata, with neither a set nor a file
      name (the INSERT names neither column). */
  function NewRow(c: NewChart): Row
  {
    Row(None, c.hash, None, c.meta)
  }

  /** One INSERT: the row takes the next id. */
  function AddRow(s: Store, row: Row): (r: Store)
    requires IdsIssued(s)
    ensures IdsIssued(r) && r.sets == s.sets && r.nextId == s.nextId + 1
    ensures s.nextId !in s.charts && r.charts == s.charts[s.nextId := row]
  {
    Store(s.charts[s.nextId := row], s.sets, s.nextId + 1)
  }

  /** The insert loop of `find_new`: a file that no longer loads is skipped; an INSERT that
      the store rejects (a faulted one, or one whose digest is already stored, which the
      unique constraint on `hash` refuses) ends the loop with an insert error. */
  function InsertAll(s: Store, env: Env, sel: seq<Path>, fails: set<Digest>): (r: Result<Store, ErrorKind>)
    requires IdsIssued(s)
    ensures r.Failure? ==> r.error == DbInsert
    ensures r.Success? ==> IdsIssued(r.value) && r.value.sets == s.sets && s.nextId <= r.value.nextId
    decreases |sel|
  {
    if |sel| == 0 then Success(s)
    else
      match GetNotechartData(env, sel[0])
      case Failure(_) => InsertAll(s, env, sel[1..], fails)
      case Success(c) =>
        if c.hash in fails || c.hash in Hashes(s.charts) then Failure(DbInsert)
        else InsertAll(AddRow(s, NewRow(c)), env, sel[1..], fails)
  }

  /** The INSERT of `sel[j]` is rejected: the file loads, and its digest is faulted, already
      stored, or that of an earlier file of `sel` that loads. */
  predicate Collides(s: Store, env: Env, sel: seq<Path>, fails: set<Digest>, j: int)
    requires 0 <= j < |sel|
  {
    && Loads(env, sel[j])
    && var h := GetNotechartData(env, sel[j]).value.hash;
       || h in fails
       || h in Hashes(s.charts)
       || exists k :: 0 <= k < j && Loads(env, sel[k]) && GetNotechartData(env, sel[k]).value.hash == h
  }

  /** Adding a row adds its digest to the stored digests. */
  lemma HashesOfAddRow(s: Store, row: Row)
    requires IdsIssued(s)
    ensures Hashes(AddRow(s, row).charts) == Hashes(s.charts) + {row.hash}
  {
    var s' := AddRow(s, row);
    assert s'.charts[s.nextId].hash == row.hash;
    forall h | h in Hashes(s'.charts) ensures h in Hashes(s.charts) + {row.hash} {
      var id :| id in s'.charts && s'.charts[id].hash == h;
    }
    forall h | h in Hashes(s.charts) ensures h in Hashes(s'.charts) {
      var id :| id in s.charts && s.charts[id].hash == h;
      assert id in s'.charts && s'.charts[id] == s.charts[id];
    }
  }

  /** Skipping a first file that does not load shifts the rejected INSERTs by one. */
  lemma CollidesAfterSkip(s: Store, env: Env, sel: seq<Path>, fails: set<Digest>, j: int)
    requires 1 <= j < |sel| && !Loads(env, sel[0])
    ensures Collides(s, env, sel, fails, j) <==> Collides(s, env, sel[1..], fails, j - 1)
  {
    var tail := sel[1..];
    assert tail[j - 1] == sel[j];
    if Loads(env, sel[j]) {
      var h := GetNotechartData(env, sel[j]).value.hash;
      if exists k :: 0 <= k < j && Loads(env, sel[k]) && GetNotechartData(env, sel[k]).value.hash == h {
        var k :| 0 <= k < j && Loads(env, sel[k]) && GetNotechartData(env, sel[k]).value.hash == h;
        assert k > 0 && tail[k - 1] == sel[k];
      }
      if exists k :: 0 <= k < j - 1 && Loads(env, tail[k]) && GetNotechartData(env, tail[k]).value.hash == h {
        var k :| 0 <= k < j - 1 && Loads(env, tail[k]) && GetNotechartData(env, tail[k]).value.hash == h;
        assert sel[k + 1] == tail[k];
      }
    }
  }

  /** Inserting a first file that loads moves its digest from "earlier in the selection" to
      "already stored", shifting the rejected INSERTs by one. */
  lemma CollidesAfterInsert(s: Store, env: Env, sel: seq<Path>, fails: set<Digest>, j: int)
    requires IdsIssued(s) && 1 <= j < |sel| && Loads(env, sel[0])
    ensures var c := GetNotechartData(env, sel[0]).value;
      Collides(s, env, sel, fails, j) <==> Collides(AddRow(s, NewRow(c)), env, sel[1..], fails, j - 1)
  {
    var c := GetNotechartData(env, sel[0]).value;
    var s' := AddRow(s, NewRow(c));
    HashesOfAddRow(s, NewRow(c));
    var tail := sel[1..];
    assert tail[j - 1] == sel[j];
    if Loads(env, sel[j]) {
      var h := GetNotechartData(env, sel[j]).value.hash;
      if exists k :: 0 <= k < j && Loads(env, sel[k]) && GetNotechartData(env, sel[k]).value.hash == h {
        var k :| 0 <= k < j && Loads(env, sel[k]) && GetNotechartData(env, sel[k]).value.hash == h;
        if k > 0 {
          assert tail[k - 1] == sel[k];
        }
      }
      if exists k :: 0 <= k < j - 1 && Loads(env, tail[k]) && GetNotechartData(env, tail[k]).value.hash == h {
        var k :| 0 <= k < j - 1 && Loads(env, tail[k]) && GetNotechartData(env, tail[k]).value.hash == h;
        assert sel[k + 1] == tail[k];
      }
      if h == c.hash {
        assert Loads(env, sel[0]);
      }
    }
  }

  /** The insert loop fails exactly when some INSERT is rejected. */
  lemma {:induction false} InsertAllFailure(s: Store, env: Env, sel: seq<Path>, fails: set<Digest>)
    requires IdsIssued(s)
    ensures InsertAll(s, env, sel, fails).Failure? <==>
      exists j :: 0 <= j < |sel| && Collides(s, env, sel, fails, j)
    decreases |sel|
  {
    if |sel| > 0 {
      var tail := sel[1..];
      var d := GetNotechartData(env, sel[0]);
      if d.Failure? {
        InsertAllFailure(s, env, tail, fails);
        forall j | 1 <= j < |sel| ensures Collides(s, env, sel, fails, j) <==> Collides(s, env, tail, fails, j - 1) {
          CollidesAfterSkip(s, env, sel, fails, j);
        }
        assert !Collides(s, env, sel, fails, 0);
        if InsertAll(s, env, sel, fails).Failure? {
          var j' :| 0 <= j' < |tail| && Collides(s, env, tail, fails, j');
          assert Collides(s, env, sel, fails, j' + 1);
        }
      } else if d.value.hash in fails || d.value.hash in Hashes(s.charts) {
        assert Collides(s, env, sel, fails, 0);
      } else {
        var s' := AddRow(s, NewRow(d.value));
        InsertAllFailure(s', env, tail, fails);
        forall j | 1 <= j < |sel| ensures Collides(s, env, sel, fails, j) <==> Collides(s', env, tail, fails, j - 1) {
          CollidesAfterInsert(s, env, sel, fails, j);
        }
        assert !Collides(s, env, sel, fails, 0);
        assert InsertAll(s, env, sel, fails) == InsertAll(s', env, tail, fails);
        if InsertAll(s, env, sel, fails).Failure? {
          var j' :| 0 <= j' < |tail| && Collides(s', env, tail, fails, j');
          assert Collides(s, env, sel, fails, j' + 1);
        }
      }
    }
  }

  /** Every row of `s` is still in `r`, unchanged. */
  predicate KeepsRows(s: Store, r: Store)
  {
    forall id :: id in s.charts ==> id in r.charts && r.charts[id] == s.charts[id]
  }

  /** Every row `r` adds to `s` has an id not handed out in `s` and is the row of a file of
      `sel` that loads. */
  predicate AddedFrom(s: Store, r: Store, env: Env, sel: seq<Path>)
  {
    forall id :: id in r.charts && id !in s.charts ==>
      && s.nextId <= id
      && exists j :: 0 <= j < |sel| && Loads(env, sel[j]) && r.charts[id] == NewRow(GetNotechartData(env, sel[j]).value)
  }

  /** Every file of `sel` that loads has its row added by `r`. */
  predicate AddsAll(s: Store, r: Store, env: Env, sel: seq<Path>)
  {
    forall j :: 0 <= j < |sel| && Loads(env, sel[j]) ==>
      exists id :: id in r.charts && id !in s.charts && r.charts[id] == NewRow(GetNotechartData(env, sel[j]).value)
  }

  /** No row of `r` shares its digest with a row `r` added to `s`. */
  predicate AddedDigestsUnique(s: Store, r: Store)
  {
    forall a, b :: a in r.charts && b in r.charts && a != b && b !in s.charts ==>
      r.charts[a].hash != r.charts[b].hash
  }

  /** A successful insert loop keeps every stored row. */
  lemma {:induction false} InsertAllKeeps(s: Store, env: Env, sel: seq<Path>, fails: set<Digest>)
    requires IdsIssued(s)
    ensures var r := InsertAll(s, env, sel, fails); r.Success? ==> KeepsRows(s, r.value)
    decreases |sel|
  {
    var r := InsertAll(s, env, sel, fails);
    if |sel| > 0 && r.Success? {
      var d := GetNotechartData(env, sel[0]);
      if d.Failure? {
        InsertAllKeeps(s, env, sel[1..], fails);
      } else {
        var s' := AddRow(s, NewRow(d.value));
        InsertAllKeeps(s', env, sel[1..], fails);
      }
    }
  }

  /** A successful insert loop adds only rows of files of the selection that load. */
  lemma {:induction false} InsertAllAddedFrom(s: Store, env: Env, sel: seq<Path>, fails: set<Digest>)
    requires IdsIssued(s)
    ensures var r := InsertAll(s, env, sel, fails); r.Success? ==> AddedFrom(s, r.value, env, sel)
    decreases |sel|
  {
    var r := InsertAll(s, env, sel, fails);
    if |sel| > 0 && r.Success? {
      var tail := sel[1..];
      var d := GetNotechartData(env, sel[0]);
      var s' := if d.Failure? then s else AddRow(s, NewRow(d.value));
      assert r == InsertAll(s', env, tail, fails);
      InsertAllAddedFrom(s', env, tail, fails);
      InsertAllKeeps(s', env, tail, fails);
      forall id | id in r.value.charts && id !in s.charts
        ensures s.nextId <= id
        ensures exists j :: 0 <= j < |sel| && Loads(env, sel[j]) && r.value.charts[id] == NewRow(GetNotechartData(env, sel[j]).value)
      {
        if id in s'.charts {
          assert d.Success? && id == s.nextId;
        } else {
          var j :| 0 <= j < |tail| && Loads(env, tail[j]) && r.value.charts[id] == NewRow(GetNotechartData(env, tail[j]).value);
          assert sel[j + 1] == tail[j];
        }
      }
    }
  }

  /** A successful insert loop adds the row of every file of the selection that loads. */
  lemma {:induction false} InsertAllAddsAll(s: Store, env: Env, sel: seq<Path>, fails: set<Digest>)
    requires IdsIssued(s)
    ensures var r := InsertAll(s, env, sel, fails); r.Success? ==> AddsAll(s, r.value, env, sel)
    decreases |sel|
  {
    var r := InsertAll(s, env, sel, fails);
    if |sel| > 0 && r.Success? {
      var tail := sel[1..];
      var d := GetNotechartData(env, sel[0]);
      var s' := if d.Failure? then s else AddRow(s, NewRow(d.value));
      assert r == InsertAll(s', env, tail, fails);
      InsertAllAddsAll(s', env, tail, fails);
      InsertAllKeeps(s', env, tail, fails);
      forall j | 0 <= j < |sel| && Loads(env, sel[j])
        ensures exists id :: id in r.value.charts && id !in s.charts && r.value.charts[id] == NewRow(GetNotechartData(env, sel[j]).value)
      {
        if j == 0 {
          assert s.nextId in r.value.charts && r.value.charts[s.nextId] == s'.charts[s.nextId];
        } else {
          assert tail[j - 1] == sel[j];
          var id :| id in r.value.charts && id !in s'.charts && r.value.charts[id] == NewRow(GetNotechartData(env, tail[j - 1]).value);
        }
      }
    }
  }

  /** A successful insert loop gives each added row a digest no other row holds. */
  lemma {:induction false} InsertAllDigestsUnique(s: Store, env: Env, sel: seq<Path>, fails: set<Digest>)
    requires IdsIssued(s)
    ensures var r := InsertAll(s, env, sel, fails); r.Success? ==> AddedDigestsUnique(s, r.value)
    decreases |sel|
  {
    var r := InsertAll(s, env, sel, fails);
    if |sel| > 0 && r.Success? {
      var tail := sel[1..];
      var d := GetNotechartData(env, sel[0]);
      if d.Failure? {
        InsertAllDigestsUnique(s, env, tail, fails);
      } else {
        var s' := AddRow(s, NewRow(d.value));
        assert r == InsertAll(s', env, tail, fails);
        InsertAllDigestsUnique(s', env, tail, fails);
        InsertAllKeeps(s', env, tail, fails);
        HashesOfAddRow(s, NewRow(d.value));
        forall a, b | a in r.value.charts && b in r.value.charts && a != b && b !in s.charts
          ensures r.value.charts[a].hash != r.value.charts[b].hash
        {
          if b == s.nextId && a in s.charts {
            assert r.value.charts[a].hash in Hashes(s.charts);
          }
        }
      }
    }
  }

  /** An insert loop over files none of which loads writes nothing. */
  lemma {:induction false} InsertAllNothingLoads(s: Store, env: Env, sel: seq<Path>, fails: set<Digest>)
    requires IdsIssued(s)
    requires forall j :: 0 <= j < |sel| ==> !Loads(env, sel[j])
    ensures InsertAll(s, env, sel, fails) == Success(s)
    decreases |sel|
  {
    if |sel| > 0 {
      assert !Loads(env, sel[0]);
      assert forall j :: 0 <= j < |sel| - 1 ==> sel[1..][j] == sel[j + 1];
      InsertAllNothingLoads(s, env, sel[1..], fails);
    }
  }

  // ---------------------------------------------------------------------------------------
  // One discovery pass
  // ---------------------------------------------------------------------------------------

  /** `find_new`: list the charts under `dir`, select the files with unseen content, and
      insert them in one transaction. Any error leaves the store as it was: nothing is
      written before the transaction opens, and a failing INSERT or commit rolls it back. */
  function FindNew(s: Store, env: Env, dir: Path, faults: ScanFaults): (out: Outcome<ErrorKind>)
    requires IdsIssued(s)
    ensures out.result.Failure? ==> out.store == s
    ensures GetNotechartPaths(env.walk(dir)).None? <==> out.result == Failure(DirRead)
    ensures out.result.Failure? ==> out.result.error in {DirRead, FileRead, DbSelect, Transaction, DbInsert}
    ensures out.result.Success? ==> IdsIssued(out.store) && out.store.sets == s.sets
  {
    match GetNotechartPaths(env.walk(dir))
    case None => Outcome(s, Failure(DirRead))
    case Some(paths) =>
      match Select(s, env, paths, faults.lookup)
      case Failure(e) => Outcome(s, Failure(e))
      case Success(sel) =>
        if faults.begin then Outcome(s, Failure(Transaction))
        else
          match InsertAll(s, env, sel, faults.insert)
          case Failure(e) => Outcome(s, Failure(e))
          case Success(s') =>
            if faults.commit then Outcome(s, Failure(Transaction)) else Outcome(s', Success(()))
  }

  /** When no existence query fails, a candidate that cannot be hashed makes the pass fail
      with a read error before its transaction opens. */
  lemma FindNewHashFailure(s: Store, env: Env, dir: Path, faults: ScanFaults)
    requires IdsIssued(s) && faults.lookup == {}
    requires var paths := GetNotechartPaths(env.walk(dir));
      paths.Some? && exists j :: 0 <= j < |paths.value| && env.hash(paths.value[j]).None?
    ensures FindNew(s, env, dir, faults) == Outcome(s, Failure(FileRead))
  {
    var paths := GetNotechartPaths(env.walk(dir)).value;
    SelectFailure(s, env, paths, {}, 0, {});
  }

  /** A committed pass keeps every stored row and set, adds exactly the rows of the candidates
      that are the first of their content in walk order, are not cached and still load, and
      keeps digests unique. */
  lemma FindNewEffect(s: Store, env: Env, dir: Path, faults: ScanFaults)
    requires IdsIssued(s)
    ensures var out := FindNew(s, env, dir, faults); out.result.Success? ==>
      && GetNotechartPaths(env.walk(dir)).Some?
      && KeepsRows(s, out.store)
      && AddedDigestsUnique(s, out.store)
      && (HashesUnique(s.charts) ==> HashesUnique(out.store.charts))
    ensures var out := FindNew(s, env, dir, faults); out.result.Success? ==>
      var paths := GetNotechartPaths(env.walk(dir)).value;
      forall id :: id in out.store.charts && id !in s.charts ==>
        exists j :: 0 <= j < |paths| && Fresh(s, env, paths, j) && Loads(env, paths[j])
          && out.store.charts[id] == NewRow(GetNotechartData(env, paths[j]).value)
    ensures var out := FindNew(s, env, dir, faults); out.result.Success? ==>
      var paths := GetNotechartPaths(env.walk(dir)).value;
      forall j :: 0 <= j < |paths| && Fresh(s, env, paths, j) && Loads(env, paths[j]) ==>
        exists id :: id in out.store.charts && id !in s.charts
          && out.store.charts[id] == NewRow(GetNotechartData(env, paths[j]).value)
  {
    var out := FindNew(s, env, dir, faults);
    if out.result.Success? {
      var paths := GetNotechartPaths(env.walk(dir)).value;
      var sel := Select(s, env, paths, faults.lookup).value;
      SelectKeeps(s, env, paths, faults.lookup, 0, {});
      var r := InsertAll(s, env, sel, faults.insert);
      assert r.Success? && out.store == r.value;
      InsertAllKeeps(s, env, sel, faults.insert);
      InsertAllAddedFrom(s, env, sel, faults.insert);
      InsertAllAddsAll(s, env, sel, faults.insert);
      InsertAllDigestsUnique(s, env, sel, faults.insert);
      forall id | id in out.store.charts && id !in s.charts
        ensures exists j :: 0 <= j < |paths| && Fresh(s, env, paths, j) && Loads(env, paths[j])
                              && out.store.charts[id] == NewRow(GetNotechartData(env, paths[j]).value)
      {
        var k :| 0 <= k < |sel| && Loads(env, sel[k]) && out.store.charts[id] == NewRow(GetNotechartData(env, sel[k]).value);
        assert sel[k] in sel;
        var j :| 0 <= j < |paths| && paths[j] == sel[k] && Fresh(s, env, paths, j);
      }
      forall j | 0 <= j < |paths| && Fresh(s, env, paths, j) && Loads(env, paths[j])
        ensures exists id :: id in out.store.charts && id !in s.charts
                               && out.store.charts[id] == NewRow(GetNotechartData(env, paths[j]).value)
      {
        var k :| 0 <= k < |sel| && sel[k] == paths[j];
      }
    }
  }

  /** With no storage fault, a pass over a walk whose entries all answer for their metadata
      and whose charts all hash commits; files that no longer parse are skipped. */
  lemma FindNewSucceeds(s: Store, env: Env, dir: Path)
    requires IdsIssued(s)
    requires var paths := GetNotechartPaths(env.walk(dir));
      paths.Some? && forall j :: 0 <= j < |paths.value| ==> env.hash(paths.value[j]).Some?
    ensures FindNew(s, env, dir, NoScanFaults).result.Success?
  {
    var paths := GetNotechartPaths(env.walk(dir)).value;
    SelectFailure(s, env, paths, {}, 0, {});
    SelectKeeps(s, env, paths, {}, 0, {});
    var sel := Select(s, env, paths, {}).value;
    InsertAllFailure(s, env, sel, {});
    forall j | 0 <= j < |sel| ensures !Collides(s, env, sel, {}, j) {
      if Loads(env, sel[j]) {
        var h := GetNotechartData(env, sel[j]).value.hash;
        assert sel[j] in sel;
        var i :| 0 <= i < |paths| && paths[i] == sel[j] && Fresh(s, env, paths, i);
        assert h !in Hashes(s.charts);
        forall k | 0 <= k < j && Loads(env, sel[k])
          ensures GetNotechartData(env, sel[k]).value.hash != h
        {
          assert env.hash(sel[k]) != env.hash(sel[j]);
        }
      }
    }
  }

  /** Discovery is idempotent: after a committed pass, a second pass over the same files with
      no storage fault commits and writes nothing. */
  lemma FindNewIdempotent(s: Store, env: Env, dir: Path, faults: ScanFaults)
    requires IdsIssued(s)
    requires FindNew(s, env, dir, faults).result.Success?
    ensures var s' := FindNew(s, env, dir, faults).store;
      FindNew(s', env, dir, NoScanFaults) == Outcome(s', Success(()))
  {
    var s' := FindNew(s, env, dir, faults).store;
    var paths := GetNotechartPaths(env.walk(dir)).value;
    FindNewEffect(s, env, dir, faults);
    SelectFailure(s, env, paths, faults.lookup, 0, {});
    SelectFailure(s', env, paths, {}, 0, {});
    SelectKeeps(s', env, paths, {}, 0, {});
    var sel := Select(s', env, paths, {}).value;
    assert Hashes(s.charts) <= Hashes(s'.charts) by {
      forall h | h in Hashes(s.charts) ensures h in Hashes(s'.charts) {
        var id :| id in s.charts && s.charts[id].hash == h;
        assert s'.charts[id] == s.charts[id];
      }
    }
    forall k | 0 <= k < |sel| ensures !Loads(env, sel[k]) {
      assert sel[k] in sel;
      var j :| 0 <= j < |paths| && paths[j] == sel[k] && Fresh(s', env, paths, j);
      assert Fresh(s, env, paths, j);
    }
    InsertAllNothingLoads(s', env, sel, {});
  }
}
