/** The reconciliation pass (src/notechart_cache/changed.rs): re-hash every cached chart at its
    recorded location, sort it into removed, changed or unchanged, then apply every update and
    every deletion in one transaction. */
module Changed {
  import opened Wrappers
  import opened Errors
  import opened Cache
  import opened Sequences

  /** `ChangedNotechart`: a decoded row, joined with its set's path. */
  datatype ChangedNotechart = ChangedNotechart(id: Id, setId: SetId, hash: Digest, setPath: Path, filename: string)

  /** Where the chart is on disk: the set's path and the file name joined with "/". */
  function FilePath(c: ChangedNotechart): Path
  {
    c.setPath + "/" + c.filename
  }

  /** Whether reading `id, set_id, hash, filename` out of the row succeeds (no NULL column). */
  predicate Decodes(row: Row)
  {
    row.setId.Some? && row.filename.Some?
  }

  /** Every decodable row names a set that exists; the source panics on a row that does not. */
  predicate ParentsResolve(s: Store)
  {
    forall id :: id in s.charts && Decodes(s.charts[id]) ==> s.charts[id].setId.value in s.sets
  }

  /** `order` is the sequence in which the listing query returns the chart ids: each id of the
      table exactly once. */
  predicate ScanOrder(s: Store, order: seq<Id>)
  {
    && (forall id :: id in s.charts ==> id in order)
    && (forall i :: 0 <= i < |order| ==> order[i] in s.charts)
    && Distinct(order)
  }

  /** The decoded, joined record of row `id`, as it stands in the store. */
  function Record(s: Store, id: Id): ChangedNotechart
    requires id in s.charts && Decodes(s.charts[id]) && s.charts[id].setId.value in s.sets
  {
    var row := s.charts[id];
    ChangedNotechart(id, row.setId.value, row.hash, s.sets[row.setId.value], row.filename.value)
  }

  /** The digest of row `id`'s file as it is on disk now. */
  function Rehash(s: Store, env: Env, id: Id): Option<Digest>
    requires id in s.charts && Decodes(s.charts[id]) && s.charts[id].setId.value in s.sets
  {
    env.hash(FilePath(Record(s, id)))
  }

  /** Row `id` decodes and its file can no longer be hashed. */
  predicate RemovedAt(s: Store, env: Env, id: Id)
    requires ParentsResolve(s)
  {
    id in s.charts && Decodes(s.charts[id]) && Rehash(s, env, id).None?
  }

  /** Row `id` decodes, its file hashes, and the digest differs from the stored one. */
  predicate ChangedAt(s: Store, env: Env, id: Id)
    requires ParentsResolve(s)
  {
    id in s.charts && Decodes(s.charts[id])
    && Rehash(s, env, id).Some? && Rehash(s, env, id).value != s.charts[id].hash
  }

  /** The ids of `cs`, in order. */
  function Ids(cs: seq<ChangedNotechart>): seq<Id>
  {
    seq(|cs|, i requires 0 <= i < |cs| => cs[i].id)
  }

  /** Database operations of the pass that fail, and with which error. */
  datatype FixFaults = FixFaults(
    listing: Option<DbError>,      // preparing the listing query
    listingStop: Option<nat>,      // stepping the listing fails after this many rows
    lookup: map<Id, DbError>,      // looking up the set path of a row
    begin: Option<DbError>,        // opening the transaction
    update: map<Id, DbError>,      // the UPDATE of a row
    delete: map<Id, DbError>,      // the DELETE of a row
    commit: Option<DbError>)       // committing

  const NoFaults := FixFaults(None, None, map[], None, map[], map[], None)

  /** The rows the listing yields. A failed step comes out of the cursor as an error item,
      which the loop skips like an undecodable row; the statement is reset by that failure,
      so the listing ends after the rows read before it. */
  function Reached(order: seq<Id>, stop: Option<nat>): seq<Id>
  {
    if stop.Some? && stop.value < |order| then order[..stop.value] else order
  }

  /** Row `order[i]` decodes and the lookup of its set fails. */
  predicate LookupFails(s: Store, order: seq<Id>, lookup: map<Id, DbError>, i: int)
    requires 0 <= i < |order| && order[i] in s.charts
  {
    Decodes(s.charts[order[i]]) && order[i] in lookup
  }

  /** The loop of `find_changed_notecharts` over the rows in `order`: returns the changed
      records (carrying their new digest) and the removed records, or the error of the first
      failed set lookup. */
  function Classify(s: Store, env: Env, order: seq<Id>, lookup: map<Id, DbError>)
    : (r: Result<(seq<ChangedNotechart>, seq<ChangedNotechart>), CacheError>)
    requires ParentsResolve(s)
    requires forall i :: 0 <= i < |order| ==> order[i] in s.charts
    ensures r.Failure? ==> r.error.DbSelectError?
    ensures r.Success? ==> |r.value.0| + |r.value.1| <= |order|
    decreases |order|
  {
    if |order| == 0 then Success(([], []))
    else
      var id := order[0];
      var row := s.charts[id];
      var rest := Classify(s, env, order[1..], lookup);
      if !Decodes(row) then rest
      else if id in lookup then Failure(DbSelectError(lookup[id]))
      else if rest.Failure? then rest
      else
        var c := Record(s, id);
        match env.hash(FilePath(c))
        case None => Success((rest.value.0, [c] + rest.value.1))
        case Some(h) =>
          if h != row.hash then Success(([c.(hash := h)] + rest.value.0, rest.value.1))
          else rest
  }

  /** The pass fails exactly when the set lookup of some decodable row fails, and then with the
      error of the first such row in listing order. */
  lemma {:induction false} ClassifyFailure(s: Store, env: Env, order: seq<Id>, lookup: map<Id, DbError>)
    requires ParentsResolve(s)
    requires forall i :: 0 <= i < |order| ==> order[i] in s.charts
    ensures var r := Classify(s, env, order, lookup);
      r.Failure? <==> exists i :: 0 <= i < |order| && LookupFails(s, order, lookup, i)
    ensures var r := Classify(s, env, order, lookup);
      r.Failure? ==>
        exists i :: 0 <= i < |order| && LookupFails(s, order, lookup, i)
          && (forall j :: 0 <= j < i ==> !LookupFails(s, order, lookup, j))
          && r.error == DbSelectError(lookup[order[i]])
    decreases |order|
  {
    if |order| > 0 {
      var tail := order[1..];
      ClassifyFailure(s, env, tail, lookup);
      forall i | 0 <= i < |tail|
        ensures LookupFails(s, tail, lookup, i) == LookupFails(s, order, lookup, i + 1)
      {
      }
      var r := Classify(s, env, order, lookup);
      var rest := Classify(s, env, tail, lookup);
      if LookupFails(s, order, lookup, 0) {
        assert r == Failure(DbSelectError(lookup[order[0]]));
      } else if rest.Failure? {
        assert r == rest;
        var i :| 0 <= i < |tail| && LookupFails(s, tail, lookup, i)
          && (forall j :: 0 <= j < i ==> !LookupFails(s, tail, lookup, j))
          && rest.error == DbSelectError(lookup[tail[i]]);
        assert LookupFails(s, order, lookup, i + 1);
        assert forall j :: 0 <= j < i + 1 ==> !LookupFails(s, order, lookup, j) by {
          forall j | 0 <= j < i + 1 ensures !LookupFails(s, order, lookup, j) {
            if j > 0 { assert !LookupFails(s, tail, lookup, j - 1); }
          }
        }
      } else {
        assert r.Success?;
        forall i | 0 <= i < |order| ensures !LookupFails(s, order, lookup, i) {
          if i > 0 { assert !LookupFails(s, tail, lookup, i - 1); }
        }
      }
    }
  }

  /** A successfully decoded row is listed as removed exactly when its file cannot be hashed,
      and is listed as it is stored. */
  lemma {:induction false} ClassifyRemoved(s: Store, env: Env, order: seq<Id>, lookup: map<Id, DbError>)
    requires ParentsResolve(s)
    requires forall i :: 0 <= i < |order| ==> order[i] in s.charts
    ensures var r := Classify(s, env, order, lookup);
      r.Success? ==> forall c :: c in r.value.1 ==>
        c.id in order && RemovedAt(s, env, c.id) && c == Record(s, c.id)
    ensures var r := Classify(s, env, order, lookup);
      r.Success? ==> forall i :: 0 <= i < |order| && RemovedAt(s, env, order[i]) ==>
        Record(s, order[i]) in r.value.1
    decreases |order|
  {
    if |order| > 0 {
      ClassifyRemoved(s, env, order[1..], lookup);
      assert forall i :: 1 <= i < |order| ==> order[i] == order[1..][i - 1];
    }
  }

  /** A row is listed as changed exactly when its file hashes to a digest other than the stored
      one; the listed record carries the new digest and the stored id, set, set path and file name. */
  lemma {:induction false} ClassifyChanged(s: Store, env: Env, order: seq<Id>, lookup: map<Id, DbError>)
    requires ParentsResolve(s)
    requires forall i :: 0 <= i < |order| ==> order[i] in s.charts
    ensures var r := Classify(s, env, order, lookup);
      r.Success? ==> forall c :: c in r.value.0 ==>
        c.id in order && ChangedAt(s, env, c.id) && c == Record(s, c.id).(hash := Rehash(s, env, c.id).value)
    ensures var r := Classify(s, env, order, lookup);
      r.Success? ==> forall i :: 0 <= i < |order| && ChangedAt(s, env, order[i]) ==>
        Record(s, order[i]).(hash := Rehash(s, env, order[i]).value) in r.value.0
    decreases |order|
  {
    if |order| > 0 {
      ClassifyChanged(s, env, order[1..], lookup);
      assert forall i :: 1 <= i < |order| ==> order[i] == order[1..][i - 1];
    }
  }

  /** Both lists keep the listing's order and name no row twice. */
  lemma {:induction false} ClassifyOrder(s: Store, env: Env, order: seq<Id>, lookup: map<Id, DbError>)
    requires ParentsResolve(s)
    requires forall i :: 0 <= i < |order| ==> order[i] in s.charts
    requires Distinct(order)
    ensures var r := Classify(s, env, order, lookup);
      r.Success? ==> IsSubsequence(Ids(r.value.0), order) && IsSubsequence(Ids(r.value.1), order)
    ensures var r := Classify(s, env, order, lookup);
      r.Success? ==> Distinct(Ids(r.value.0)) && Distinct(Ids(r.value.1))
    decreases |order|
  {
    if |order| > 0 {
      var tail := order[1..];
      ClassifyOrder(s, env, tail, lookup);
      var r := Classify(s, env, order, lookup);
      var rest := Classify(s, env, tail, lookup);
      if r.Success? && rest.Success? {
        SubsequenceElements(Ids(rest.value.0), tail);
        SubsequenceElements(Ids(rest.value.1), tail);
        assert order[0] !in tail;
        var id := order[0];
        var row := s.charts[id];
        if Decodes(row) && id !in lookup {
          var c := Record(s, id);
          IdsCons(c, rest.value.1);
          if Rehash(s, env, id).Some? {
            IdsCons(c.(hash := Rehash(s, env, id).value), rest.value.0);
          }
        }
      }
    }
  }

  /** What one call of the classification loop promises about its two lists. */
  predicate Partitioned(s: Store, env: Env, order: seq<Id>,
                        changed: seq<ChangedNotechart>, removed: seq<ChangedNotechart>)
    requires ParentsResolve(s)
  {
    && (forall c :: c in removed ==> c.id in order && RemovedAt(s, env, c.id) && c == Record(s, c.id))
    && (forall i :: 0 <= i < |order| && RemovedAt(s, env, order[i]) ==> Record(s, order[i]) in removed)
    && (forall c :: c in changed ==>
          c.id in order && ChangedAt(s, env, c.id) && c == Record(s, c.id).(hash := Rehash(s, env, c.id).value))
    && (forall i :: 0 <= i < |order| && ChangedAt(s, env, order[i]) ==>
          Record(s, order[i]).(hash := Rehash(s, env, order[i]).value) in changed)
    && IsSubsequence(Ids(changed), order) && IsSubsequence(Ids(removed), order)
    && Distinct(Ids(changed)) && Distinct(Ids(removed))
  }

  /** `find_changed_notecharts`: the listing query, then the classification loop over the
      rows the listing yields before a failed step, if any, ends it. */
  function FindChangedNotecharts(s: Store, env: Env, order: seq<Id>, faults: FixFaults)
    : (r: Result<(seq<ChangedNotechart>, seq<ChangedNotechart>), CacheError>)
    requires ParentsResolve(s) && ScanOrder(s, order)
    ensures faults.listing.Some? ==> r == Failure(DbSelectError(faults.listing.value))
    ensures r.Failure? ==> r.error.DbSelectError?
    ensures var rows := Reached(order, faults.listingStop);
      r.Failure? <==> faults.listing.Some? || exists i :: 0 <= i < |rows| && LookupFails(s, rows, faults.lookup, i)
    ensures r.Success? ==> Partitioned(s, env, Reached(order, faults.listingStop), r.value.0, r.value.1)
  {
    if faults.listing.Some? then Failure(DbSelectError(faults.listing.value))
    else
      var rows := Reached(order, faults.listingStop);
      assert forall i :: 0 <= i < |rows| ==> rows[i] == order[i];
      ClassifyFailure(s, env, rows, faults.lookup);
      ClassifyRemoved(s, env, rows, faults.lookup);
      ClassifyChanged(s, env, rows, faults.lookup);
      ClassifyOrder(s, env, rows, faults.lookup);
      Classify(s, env, rows, faults.lookup)
  }

  /** The row after `UPDATE notecharts SET set_id, hash, artist, title, version, audio,
      background`: the file name is the one column left as it was. */
  function Refreshed(row: Row, c: ChangedNotechart, info: Info): Row
  {
    row.(setId := Some(c.setId), hash := c.hash, meta := MetaOf(info))
  }

  /** Some row other than `id` already holds digest `h`. */
  predicate HashTaken(s: Store, id: Id, h: Digest)
  {
    exists other :: other in s.charts && other != id && s.charts[other].hash == h
  }

  /** What SQLite reports when a write would break the uniqueness of `hash`. */
  const UniqueViolation := DbError("UNIQUE constraint failed: notecharts.hash")

  /** The update loop of `fix_changed`: re-parse each changed chart and rewrite its row, inside
      the open transaction; stops at the first parse or UPDATE failure. */
  function ApplyUpdates(s: Store, env: Env, changed: seq<ChangedNotechart>, fails: map<Id, DbError>)
    : (r: Result<Store, CacheError>)
    ensures r.Failure? ==> r.error.FileReadError? || r.error.DbUpdateError?
    ensures r.Success? ==> r.value.sets == s.sets && r.value.nextId == s.nextId
    ensures r.Success? ==> r.value.charts.Keys == s.charts.Keys
    ensures r.Success? ==> forall c :: c in changed ==> env.parse(FilePath(c)).Success? && c.id !in fails
    decreases |changed|
  {
    if |changed| == 0 then Success(s)
    else
      var c := changed[0];
      match env.parse(FilePath(c))
      case Failure(io) => Failure(FileReadError(io))
      case Success(info) =>
        if c.id in fails then Failure(DbUpdateError(fails[c.id]))
        else if c.id in s.charts && HashTaken(s, c.id, c.hash) then Failure(DbUpdateError(UniqueViolation))
        else
          ApplyUpdates(UpdateRow(s, c, info), env, changed[1..], fails)
  }

  /** The update loop finishes when every listed file re-parses, no listed UPDATE is faulted,
      no listed digest is held by another stored row, and the listed digests are pairwise
      distinct. */
  lemma {:induction false} ApplyUpdatesSucceeds(s: Store, env: Env, changed: seq<ChangedNotechart>, fails: map<Id, DbError>)
    requires forall i :: 0 <= i < |changed| ==> env.parse(FilePath(changed[i])).Success? && changed[i].id !in fails
    requires forall i :: 0 <= i < |changed| && changed[i].id in s.charts ==> !HashTaken(s, changed[i].id, changed[i].hash)
    requires forall i, j :: 0 <= i < j < |changed| ==> changed[i].hash != changed[j].hash
    ensures ApplyUpdates(s, env, changed, fails).Success?
    decreases |changed|
  {
    if |changed| > 0 {
      var c := changed[0];
      var tail := changed[1..];
      var s1 := UpdateRow(s, c, env.parse(FilePath(c)).value);
      forall i | 0 <= i < |tail| && tail[i].id in s1.charts ensures !HashTaken(s1, tail[i].id, tail[i].hash) {
        assert tail[i] == changed[i + 1];
        forall other | other in s1.charts && other != tail[i].id ensures s1.charts[other].hash != tail[i].hash {
          if other == c.id {
            assert s1.charts[other].hash == c.hash;
          } else {
            assert s1.charts[other] == s.charts[other];
          }
        }
      }
      ApplyUpdatesSucceeds(s1, env, tail, fails);
    }
  }

  /** The store after one successful UPDATE; a missing id updates nothing. */
  function UpdateRow(s: Store, c: ChangedNotechart, info: Info): Store
  {
    if c.id in s.charts then s.(charts := s.charts[c.id := Refreshed(s.charts[c.id], c, info)]) else s
  }

  /** One UPDATE that the unique constraint lets through keeps digests unique and the NOT NULL
      columns filled. */
  lemma UpdateRowKeeps(s: Store, c: ChangedNotechart, info: Info)
    requires c.id in s.charts ==> !HashTaken(s, c.id, c.hash)
    ensures HashesUnique(s.charts) ==> HashesUnique(UpdateRow(s, c, info).charts)
    ensures Placed(s.charts) ==> Placed(UpdateRow(s, c, info).charts)
  {
  }

  /** A completed update loop leaves the rows it does not list as they were. */
  lemma {:induction false} ApplyUpdatesFrame(s: Store, env: Env, changed: seq<ChangedNotechart>, fails: map<Id, DbError>)
    requires ApplyUpdates(s, env, changed, fails).Success?
    ensures var s' := ApplyUpdates(s, env, changed, fails).value;
      forall id :: id in s.charts && id !in Ids(changed) ==> s'.charts[id] == s.charts[id]
    decreases |changed|
  {
    if |changed| > 0 {
      var c := changed[0];
      ApplyUpdatesFrame(UpdateRow(s, c, env.parse(FilePath(c)).value), env, changed[1..], fails);
      assert Ids(changed) == [c.id] + Ids(changed[1..]);
    }
  }

  /** A completed update loop over distinct ids leaves each listed row refreshed from its file. */
  lemma {:induction false} ApplyUpdatesRefresh(s: Store, env: Env, changed: seq<ChangedNotechart>, fails: map<Id, DbError>)
    requires ApplyUpdates(s, env, changed, fails).Success?
    requires Distinct(Ids(changed))
    ensures var s' := ApplyUpdates(s, env, changed, fails).value;
      forall c :: c in changed && c.id in s.charts ==>
        s'.charts[c.id] == Refreshed(s.charts[c.id], c, env.parse(FilePath(c)).value)
    decreases |changed|
  {
    if |changed| > 0 {
      var c := changed[0];
      var tail := changed[1..];
      var s1 := UpdateRow(s, c, env.parse(FilePath(c)).value);
      assert Ids(changed) == [c.id] + Ids(tail);
      assert Distinct(Ids(tail)) by {
        assert forall i :: 0 <= i < |tail| ==> Ids(tail)[i] == Ids(changed)[i + 1];
      }
      ApplyUpdatesRefresh(s1, env, tail, fails);
      ApplyUpdatesFrame(s1, env, tail, fails);
      assert c.id !in Ids(tail) by {
        forall i | 0 <= i < |tail| ensures Ids(tail)[i] != c.id {
          assert Ids(changed)[i + 1] == Ids(tail)[i] && Ids(changed)[0] == c.id;
          assert i + 1 < |Ids(changed)|;
        }
      }
      forall d | d in changed && d.id in s.charts
        ensures ApplyUpdates(s, env, changed, fails).value.charts[d.id]
                == Refreshed(s.charts[d.id], d, env.parse(FilePath(d)).value)
      {
        if d != c {
          var k :| 0 <= k < |changed| && changed[k] == d;
          assert k > 0 && tail[k - 1] == d;
          assert Ids(changed)[k] != Ids(changed)[0];
        }
      }
    }
  }

  /** A completed update loop keeps digests unique and the NOT NULL columns filled. */
  lemma {:induction false} ApplyUpdatesInvariants(s: Store, env: Env, changed: seq<ChangedNotechart>, fails: map<Id, DbError>)
    requires ApplyUpdates(s, env, changed, fails).Success?
    ensures var s' := ApplyUpdates(s, env, changed, fails).value;
      HashesUnique(s.charts) ==> HashesUnique(s'.charts)
    ensures var s' := ApplyUpdates(s, env, changed, fails).value;
      Placed(s.charts) ==> Placed(s'.charts)
    decreases |changed|
  {
    if |changed| > 0 {
      var c := changed[0];
      var info := env.parse(FilePath(c)).value;
      UpdateRowKeeps(s, c, info);
      ApplyUpdatesInvariants(UpdateRow(s, c, info), env, changed[1..], fails);
    }
  }

  /** A completed update loop rewrote exactly the listed rows, each from its re-parsed file, and
      kept digests unique. */
  lemma ApplyUpdatesEffect(s: Store, env: Env, changed: seq<ChangedNotechart>, fails: map<Id, DbError>)
    requires ApplyUpdates(s, env, changed, fails).Success?
    ensures var s' := ApplyUpdates(s, env, changed, fails).value;
      forall id :: id in s.charts && id !in Ids(changed) ==> s'.charts[id] == s.charts[id]
    ensures var s' := ApplyUpdates(s, env, changed, fails).value;
      Distinct(Ids(changed)) ==>
        forall c :: c in changed && c.id in s.charts ==>
          s'.charts[c.id] == Refreshed(s.charts[c.id], c, env.parse(FilePath(c)).value)
    ensures var s' := ApplyUpdates(s, env, changed, fails).value;
      HashesUnique(s.charts) ==> HashesUnique(s'.charts)
    ensures var s' := ApplyUpdates(s, env, changed, fails).value;
      Placed(s.charts) ==> Placed(s'.charts)
  {
    ApplyUpdatesFrame(s, env, changed, fails);
    if Distinct(Ids(changed)) {
      ApplyUpdatesRefresh(s, env, changed, fails);
    }
    ApplyUpdatesInvariants(s, env, changed, fails);
  }


  /** The delete loop of `fix_changed`: removes each listed row; stops at the first failed DELETE. */
  function ApplyDeletes(s: Store, removed: seq<ChangedNotechart>, fails: map<Id, DbError>)
    : (r: Result<Store, CacheError>)
    ensures r.Failure? ==> exists c :: c in removed && c.id in fails && r.error == DbDeleteError(fails[c.id])
    ensures r.Success? ==> r.value.sets == s.sets && r.value.nextId == s.nextId
    ensures r.Success? ==> forall c :: c in removed ==> c.id !in fails
    ensures r.Success? ==> forall id :: id in r.value.charts <==> id in s.charts && id !in Ids(removed)
    ensures r.Success? ==> forall id :: id in r.value.charts ==> r.value.charts[id] == s.charts[id]
    decreases |removed|
  {
    if |removed| == 0 then Success(s)
    else if removed[0].id in fails then Failure(DbDeleteError(fails[removed[0].id]))
    else
      assert Ids(removed) == [removed[0].id] + Ids(removed[1..]);
      ApplyDeletes(s.(charts := s.charts - {removed[0].id}), removed[1..], fails)
  }

  /** What a committed pass over the listed rows `rows` leaves: every removed row among them
      deleted, every changed row among them carrying its new digest and re-parsed metadata under
      its old id, set and file name, every other row as it was. */
  predicate Reconciled(s: Store, env: Env, rows: seq<Id>, s': Store)
    requires ParentsResolve(s)
  {
    && s'.sets == s.sets && s'.nextId == s.nextId
    && (forall id :: id in s'.charts ==> id in s.charts)
    && (forall id :: id in s.charts && id in rows && RemovedAt(s, env, id) ==> id !in s'.charts)
    && (forall id :: id in s.charts && id in rows && ChangedAt(s, env, id) ==>
          var c := Record(s, id).(hash := Rehash(s, env, id).value);
          && id in s'.charts
          && env.parse(FilePath(c)).Success?
          && s'.charts[id] == Refreshed(s.charts[id], c, env.parse(FilePath(c)).value))
    && (forall id :: id in s.charts && (id !in rows || (!RemovedAt(s, env, id) && !ChangedAt(s, env, id))) ==>
          id in s'.charts && s'.charts[id] == s.charts[id])
  }

  /** `fix_changed`: classify, open the transaction, apply the updates, then the deletions, then
      commit. Any failure leaves the store exactly as it was; a failed step of the listing is not
      a failure, and the pass commits what it classified of the rows read before it. */
  function FixChanged(s: Store, env: Env, order: seq<Id>, faults: FixFaults): (out: Outcome<CacheError>)
    requires ParentsResolve(s) && ScanOrder(s, order)
    ensures out.result.Failure? ==> out.store == s
    ensures faults.listing.Some? ==> out.result == Failure(DbSelectError(faults.listing.value))
    ensures out.result.Success? ==> faults.listing.None? && faults.begin.None? && faults.commit.None?
    ensures var rows := Reached(order, faults.listingStop);
      out.result.Success? ==> forall id :: id in s.charts && id in rows && ChangedAt(s, env, id) ==> id !in faults.update
    ensures var rows := Reached(order, faults.listingStop);
      out.result.Success? ==> forall id :: id in s.charts && id in rows && RemovedAt(s, env, id) ==> id !in faults.delete
    ensures out.result.Success? ==> Reconciled(s, env, Reached(order, faults.listingStop), out.store)
    ensures out.result.Success? && HashesUnique(s.charts) ==> HashesUnique(out.store.charts)
    ensures out.result.Success? && Valid(s) ==> Valid(out.store)
  {
    match FindChangedNotecharts(s, env, order, faults)
    case Failure(e) => Outcome(s, Failure(e))
    case Success(lists) =>
      var (changed, removed) := lists;
      if faults.begin.Some? then Outcome(s, Failure(TransactionError(faults.begin.value)))
      else
        match ApplyUpdates(s, env, changed, faults.update)
        case Failure(e) => Outcome(s, Failure(e))
        case Success(s1) =>
          match ApplyDeletes(s1, removed, faults.delete)
          case Failure(e) => Outcome(s, Failure(e))
          case Success(s2) =>
            if faults.commit.Some? then Outcome(s, Failure(TransactionError(faults.commit.value)))
            else
              FixChangedCommitted(s, env, order, faults, changed, removed, s1, s2);
              Outcome(s2, Success(()))
  }

  /** Changed row `id` can be rewritten: its file re-parses, its UPDATE is not faulted, and no
      other stored row holds its new digest. */
  predicate Updatable(s: Store, env: Env, update: map<Id, DbError>, id: Id)
    requires ParentsResolve(s)
    requires id in s.charts && ChangedAt(s, env, id)
  {
    var c := Record(s, id).(hash := Rehash(s, env, id).value);
    && env.parse(FilePath(c)).Success?
    && id !in update
    && !HashTaken(s, id, c.hash)
  }

  /** The pass commits when opening the listing, every set lookup among the rows it reaches, the
      transaction and the commit all work, every changed row among them can be rewritten with a
      digest no other changed row among them takes, and no removed row's DELETE is faulted. A
      failed step of the listing does not stop the commit. */
  lemma FixChangedSucceeds(s: Store, env: Env, order: seq<Id>, faults: FixFaults)
    requires ParentsResolve(s) && ScanOrder(s, order)
    requires faults.listing.None? && faults.begin.None? && faults.commit.None?
    requires var rows := Reached(order, faults.listingStop);
      forall i :: 0 <= i < |rows| ==> rows[i] in s.charts && !LookupFails(s, rows, faults.lookup, i)
    requires var rows := Reached(order, faults.listingStop);
      forall id :: id in rows && id in s.charts && ChangedAt(s, env, id) ==> Updatable(s, env, faults.update, id)
    requires var rows := Reached(order, faults.listingStop);
      forall a, b ::
        (a in rows && b in rows && a != b && a in s.charts && b in s.charts
         && ChangedAt(s, env, a) && ChangedAt(s, env, b)) ==> Rehash(s, env, a) != Rehash(s, env, b)
    requires var rows := Reached(order, faults.listingStop);
      forall id :: id in rows && id in s.charts && RemovedAt(s, env, id) ==> id !in faults.delete
    ensures FixChanged(s, env, order, faults).result.Success?
  {
    var rows := Reached(order, faults.listingStop);
    var lists := FindChangedNotecharts(s, env, order, faults);
    assert lists.Success?;
    var (changed, removed) := lists.value;
    PartitionedIds(s, env, rows, changed, removed);
    forall i | 0 <= i < |changed|
      ensures env.parse(FilePath(changed[i])).Success? && changed[i].id !in faults.update
      ensures changed[i].id in s.charts ==> !HashTaken(s, changed[i].id, changed[i].hash)
    {
      assert changed[i] in changed;
    }
    forall i, j | 0 <= i < j < |changed| ensures changed[i].hash != changed[j].hash {
      assert changed[i] in changed && changed[j] in changed;
      assert Ids(changed)[i] != Ids(changed)[j];
    }
    ApplyUpdatesSucceeds(s, env, changed, faults.update);
    var s1 := ApplyUpdates(s, env, changed, faults.update).value;
    forall c | c in removed ensures c.id !in faults.delete {
    }
    assert ApplyDeletes(s1, removed, faults.delete).Success?;
  }

  /** The listed ids are exactly the rows among `rows` the classification selects. */
  lemma PartitionedIds(s: Store, env: Env, rows: seq<Id>,
                       changed: seq<ChangedNotechart>, removed: seq<ChangedNotechart>)
    requires ParentsResolve(s)
    requires Partitioned(s, env, rows, changed, removed)
    ensures forall id :: id in Ids(removed) <==> id in s.charts && id in rows && RemovedAt(s, env, id)
    ensures forall id :: id in Ids(changed) <==> id in s.charts && id in rows && ChangedAt(s, env, id)
    ensures forall id :: id in s.charts && id in rows && ChangedAt(s, env, id) ==>
      Record(s, id).(hash := Rehash(s, env, id).value) in changed
  {
    forall id | id in Ids(removed) ensures id in s.charts && id in rows && RemovedAt(s, env, id) {
      var k :| 0 <= k < |removed| && Ids(removed)[k] == id;
      assert removed[k] in removed;
    }
    forall id | id in Ids(changed) ensures id in s.charts && id in rows && ChangedAt(s, env, id) {
      var k :| 0 <= k < |changed| && Ids(changed)[k] == id;
      assert changed[k] in changed;
    }
    forall id | id in s.charts && id in rows && RemovedAt(s, env, id) ensures id in Ids(removed) {
      var i :| 0 <= i < |rows| && rows[i] == id;
      var k :| 0 <= k < |removed| && removed[k] == Record(s, id);
      assert Ids(removed)[k] == id;
    }
    forall id | id in s.charts && id in rows && ChangedAt(s, env, id)
      ensures id in Ids(changed) && Record(s, id).(hash := Rehash(s, env, id).value) in changed
    {
      var i :| 0 <= i < |rows| && rows[i] == id;
      var c := Record(s, id).(hash := Rehash(s, env, id).value);
      var k :| 0 <= k < |changed| && changed[k] == c;
      assert Ids(changed)[k] == id;
    }
  }

  /** Everything `FixChanged` promises about a committed pass. */
  lemma FixChangedCommitted(s: Store, env: Env, order: seq<Id>, faults: FixFaults,
                            changed: seq<ChangedNotechart>, removed: seq<ChangedNotechart>,
                            s1: Store, s2: Store)
    requires ParentsResolve(s) && ScanOrder(s, order)
    requires FindChangedNotecharts(s, env, order, faults) == Success((changed, removed))
    requires ApplyUpdates(s, env, changed, faults.update) == Success(s1)
    requires ApplyDeletes(s1, removed, faults.delete) == Success(s2)
    ensures Reconciled(s, env, Reached(order, faults.listingStop), s2)
    ensures var rows := Reached(order, faults.listingStop);
      forall id :: id in s.charts && id in rows && ChangedAt(s, env, id) ==> id !in faults.update
    ensures var rows := Reached(order, faults.listingStop);
      forall id :: id in s.charts && id in rows && RemovedAt(s, env, id) ==> id !in faults.delete
    ensures HashesUnique(s.charts) ==> HashesUnique(s2.charts)
    ensures Valid(s) ==> Valid(s2)
  {
    var rows := Reached(order, faults.listingStop);
    PartitionedIds(s, env, rows, changed, removed);
    FixChangedEffect(s, env, rows, changed, removed, faults.update, faults.delete, s1, s2);
    ApplyUpdatesEffect(s, env, changed, faults.update);
    FixChangedKeepsValid(s, s1, s2);
  }

  /** The proof obligation of a committed pass, kept apart from `FixChanged`. */
  lemma FixChangedEffect(s: Store, env: Env, rows: seq<Id>,
                         changed: seq<ChangedNotechart>, removed: seq<ChangedNotechart>,
                         updateFails: map<Id, DbError>, deleteFails: map<Id, DbError>,
                         s1: Store, s2: Store)
    requires ParentsResolve(s)
    requires forall id :: id in Ids(removed) <==> id in s.charts && id in rows && RemovedAt(s, env, id)
    requires forall id :: id in Ids(changed) <==> id in s.charts && id in rows && ChangedAt(s, env, id)
    requires forall id :: id in s.charts && id in rows && ChangedAt(s, env, id) ==>
      Record(s, id).(hash := Rehash(s, env, id).value) in changed
    requires Distinct(Ids(changed))
    requires ApplyUpdates(s, env, changed, updateFails) == Success(s1)
    requires ApplyDeletes(s1, removed, deleteFails) == Success(s2)
    ensures Reconciled(s, env, rows, s2)
    ensures forall id :: id in s.charts && id in rows && ChangedAt(s, env, id) ==> id !in updateFails
    ensures forall id :: id in s.charts && id in rows && RemovedAt(s, env, id) ==> id !in deleteFails
  {
    ApplyUpdatesEffect(s, env, changed, updateFails);
    ChangedRowsRefreshed(s, env, rows, changed, removed, updateFails, s1, s2);
    forall id | id in s.charts && id in rows && RemovedAt(s, env, id) ensures id !in deleteFails {
      var k :| 0 <= k < |removed| && Ids(removed)[k] == id;
      assert removed[k] in removed;
    }
  }

  /** A committed pass keeps the schema's constraints: the update loop keeps them and the delete
      loop only drops rows. */
  lemma FixChangedKeepsValid(s: Store, s1: Store, s2: Store)
    requires s1.sets == s.sets && s1.nextId == s.nextId && s1.charts.Keys == s.charts.Keys
    requires s2.sets == s1.sets && s2.nextId == s1.nextId
    requires forall id :: id in s2.charts ==> id in s1.charts && s2.charts[id] == s1.charts[id]
    ensures HashesUnique(s1.charts) ==> HashesUnique(s2.charts)
    ensures Valid(s) && HashesUnique(s1.charts) && Placed(s1.charts) ==> Valid(s2)
  {
    if HashesUnique(s1.charts) {
      forall a, b | a in s2.charts && b in s2.charts && a != b ensures s2.charts[a].hash != s2.charts[b].hash {
        assert s2.charts[a] == s1.charts[a] && s2.charts[b] == s1.charts[b];
      }
    }
  }

  /** The changed-row clause of `Reconciled`, from the two loops' effects. */
  lemma ChangedRowsRefreshed(s: Store, env: Env, rows: seq<Id>,
                             changed: seq<ChangedNotechart>, removed: seq<ChangedNotechart>,
                             updateFails: map<Id, DbError>, s1: Store, s2: Store)
    requires ParentsResolve(s)
    requires forall id :: id in Ids(removed) <==> id in s.charts && id in rows && RemovedAt(s, env, id)
    requires forall id :: id in s.charts && id in rows && ChangedAt(s, env, id) ==>
      Record(s, id).(hash := Rehash(s, env, id).value) in changed
    requires ApplyUpdates(s, env, changed, updateFails) == Success(s1)
    requires forall c :: c in changed && c.id in s.charts ==>
      s1.charts[c.id] == Refreshed(s.charts[c.id], c, env.parse(FilePath(c)).value)
    requires forall id :: id in s2.charts <==> id in s1.charts && id !in Ids(removed)
    requires forall id :: id in s2.charts ==> s2.charts[id] == s1.charts[id]
    ensures forall id :: id in s.charts && id in rows && ChangedAt(s, env, id) ==>
      var c := Record(s, id).(hash := Rehash(s, env, id).value);
      && id in s2.charts
      && env.parse(FilePath(c)).Success?
      && s2.charts[id] == Refreshed(s.charts[id], c, env.parse(FilePath(c)).value)
      && id !in updateFails
  {
    forall id | id in s.charts && id in rows && ChangedAt(s, env, id)
      ensures var c := Record(s, id).(hash := Rehash(s, env, id).value);
        && id in s2.charts
        && env.parse(FilePath(c)).Success?
        && s2.charts[id] == Refreshed(s.charts[id], c, env.parse(FilePath(c)).value)
        && id !in updateFails
    {
      var c := Record(s, id).(hash := Rehash(s, env, id).value);
      assert c in changed;
      assert !RemovedAt(s, env, id);
    }
  }

  /** A store reconciled over `rows` agrees with the disk there: every decodable row still names
      an existing set, and the file of every decodable row among `rows` hashes to the digest the
      row holds. */
  lemma ReconciledIsStable(s: Store, env: Env, rows: seq<Id>, s': Store)
    requires ParentsResolve(s) && Reconciled(s, env, rows, s')
    ensures ParentsResolve(s')
    ensures forall id :: id in s'.charts && id in rows && Decodes(s'.charts[id]) ==>
      Rehash(s', env, id) == Some(s'.charts[id].hash)
  {
    forall id | id in s'.charts
      ensures Decodes(s'.charts[id]) ==> Decodes(s.charts[id]) && s'.charts[id].setId == s.charts[id].setId
      ensures Decodes(s'.charts[id]) ==> s'.charts[id].filename == s.charts[id].filename
    {
    }
    forall id | id in s'.charts && id in rows && Decodes(s'.charts[id])
      ensures Rehash(s', env, id) == Some(s'.charts[id].hash)
    {
      assert Record(s', id).setPath == Record(s, id).setPath;
    }
  }

  /** A committed pass leaves nothing to do among the rows it listed: with the files as they are,
      the next pass finds every changed or removed row outside them, and none at all when the
      listing was read to the end. */
  lemma ReconcileIdempotent(s: Store, env: Env, order: seq<Id>, faults: FixFaults, s': Store, order': seq<Id>)
    requires ParentsResolve(s) && ScanOrder(s, order)
    requires FixChanged(s, env, order, faults) == Outcome(s', Success(()))
    requires ScanOrder(s', order')
    ensures ParentsResolve(s')
    ensures var r := FindChangedNotecharts(s', env, order', NoFaults);
      && r.Success?
      && (forall c :: c in r.value.0 ==> c.id !in Reached(order, faults.listingStop))
      && (forall c :: c in r.value.1 ==> c.id !in Reached(order, faults.listingStop))
    ensures Reached(order, faults.listingStop) == order ==>
      FindChangedNotecharts(s', env, order', NoFaults) == Success(([], []))
  {
    var rows := Reached(order, faults.listingStop);
    var out := FixChanged(s, env, order, faults);
    assert out.store == s' && out.result.Success?;
    assert Reconciled(s, env, rows, s');
    ReconciledIsFixpoint(s, env, rows, s', order');
    if rows == order {
      var r := FindChangedNotecharts(s', env, order', NoFaults);
      assert forall id :: id in s'.charts ==> id in order;
      NoneOutside(r.value.0, s', order);
      NoneOutside(r.value.1, s', order);
    }
  }

  /** Records whose ids are stored but lie outside a listing that names every stored id: none. */
  lemma NoneOutside(cs: seq<ChangedNotechart>, s': Store, order: seq<Id>)
    requires forall id :: id in s'.charts ==> id in order
    requires forall c :: c in cs ==> c.id in s'.charts && c.id !in order
    ensures cs == []
  {
    var first := if |cs| > 0 then cs[0] else ChangedNotechart(0, 0, "", "", "");
    assert |cs| > 0 ==> first in cs;
  }

  /** A store reconciled over `rows` classifies every row among them as unchanged. */
  lemma ReconciledIsFixpoint(s: Store, env: Env, rows: seq<Id>, s': Store, order': seq<Id>)
    requires ParentsResolve(s) && Reconciled(s, env, rows, s') && ScanOrder(s', order')
    ensures ParentsResolve(s')
    ensures var r := FindChangedNotecharts(s', env, order', NoFaults);
      && r.Success?
      && (forall c :: c in r.value.0 ==> c.id in s'.charts && c.id !in rows)
      && (forall c :: c in r.value.1 ==> c.id in s'.charts && c.id !in rows)
  {
    ReconciledIsStable(s, env, rows, s');
    var r := FindChangedNotecharts(s', env, order', NoFaults);
    assert r.Success?;
  }

  lemma IdsCons(c: ChangedNotechart, cs: seq<ChangedNotechart>)
    ensures Ids([c] + cs) == [c.id] + Ids(cs)
  {
  }
}
