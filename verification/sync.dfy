/** The sync entry point (`update` in src/notechart_cache.rs): open the store, reconcile it
    once, then run one discovery pass per root directory in the given order. */
module Sync {
  import opened Wrappers
  import opened Errors
  import opened Cache
  import opened Changed
  import opened New

  /** One phase of a run, with the store it started from and the store it left. A discovery
      pass also records its own result, which the run reports to nobody. */
  datatype Step =
    | Reconcile(before: Store, after: Store)
    | Discover(dir: Path, before: Store, after: Store, result: Result<(), ErrorKind>)

  /** Storage failures of a whole run: opening the connection, the reconciliation pass, and
      the discovery pass over the `i`-th directory. */
  datatype SyncFaults = SyncFaults(
    connect: Option<DbError>,
    fix: FixFaults,
    scan: nat -> ScanFaults)

  /** Step `k + 1` of `trace` is the discovery pass over `dirs[k]`, started from the store
      step `k` left. */
  predicate DiscoveredAt(trace: seq<Step>, env: Env, dirs: seq<Path>, scan: nat -> ScanFaults, k: nat)
    requires k < |dirs| && k + 1 < |trace|
    requires IdsIssued(trace[k].after)
  {
    && trace[k + 1].Discover?
    && trace[k + 1].dir == dirs[k]
    && trace[k + 1].before == trace[k].after
    && Outcome(trace[k + 1].after, trace[k + 1].result) == FindNew(trace[k].after, env, dirs[k], scan(k))
  }

  /** `trace` is a reconciliation followed by the discovery passes over the first `i`
      directories, each started from the store the step before it left. */
  predicate Chained(trace: seq<Step>, env: Env, dirs: seq<Path>, scan: nat -> ScanFaults, i: nat)
  {
    && i <= |dirs| && |trace| == i + 1 && trace[0].Reconcile?
    && (forall k :: 0 <= k < |trace| ==> IdsIssued(trace[k].after))
    && (forall k :: 0 <= k < i ==> DiscoveredAt(trace, env, dirs, scan, k))
  }

  /** Appending the next discovery pass keeps a trace chained. */
  lemma ChainedExtend(trace: seq<Step>, env: Env, dirs: seq<Path>, scan: nat -> ScanFaults, i: nat)
    requires Chained(trace, env, dirs, scan, i) && i < |dirs|
    ensures var out := FindNew(trace[i].after, env, dirs[i], scan(i));
      Chained(trace + [Discover(dirs[i], trace[i].after, out.store, out.result)], env, dirs, scan, i + 1)
  {
    var out := FindNew(trace[i].after, env, dirs[i], scan(i));
    var next := trace + [Discover(dirs[i], trace[i].after, out.store, out.result)];
    forall k | 0 <= k < i + 1 ensures DiscoveredAt(next, env, dirs, scan, k) {
      if k < i {
        assert next[k] == trace[k] && next[k + 1] == trace[k + 1];
        assert DiscoveredAt(trace, env, dirs, scan, k);
      }
    }
  }

  /** The discovery passes over `dirs`, in order, each on the store the previous one left: the
      store the run ends with. */
  function DiscoverAll(s: Store, env: Env, dirs: seq<Path>, scan: nat -> ScanFaults, from: nat): (r: Store)
    requires IdsIssued(s) && from <= |dirs|
    ensures IdsIssued(r)
    decreases |dirs| - from
  {
    if from == |dirs| then s
    else DiscoverAll(FindNew(s, env, dirs[from], scan(from)).store, env, dirs, scan, from + 1)
  }

  /** `update`: a failed connection stops the run before either phase; a failed reconciliation
      stops it before any discovery and is the run's error; otherwise every directory is scanned
      in order, each pass's error is dropped, and the run succeeds. */
  method Update(s: Store, env: Env, order: seq<Id>, dirs: seq<Path>, faults: SyncFaults)
    returns (s': Store, r: Result<(), CacheError>, trace: seq<Step>)
    requires ParentsResolve(s) && ScanOrder(s, order) && IdsIssued(s)
    ensures faults.connect.Some? ==>
      r == Failure(ConnectionError(faults.connect.value)) && trace == [] && s' == s
    ensures var fix := FixChanged(s, env, order, faults.fix);
      faults.connect.None? && fix.result.Failure? ==>
        r == fix.result && trace == [Reconcile(s, s)] && s' == s
    ensures r.Success? <==> faults.connect.None? && FixChanged(s, env, order, faults.fix).result.Success?
    ensures r.Success? ==>
      && Chained(trace, env, dirs, faults.scan, |dirs|)
      && trace[0] == Reconcile(s, FixChanged(s, env, order, faults.fix).store)
      && s' == trace[|dirs|].after
    ensures r.Success? ==> s' == DiscoverAll(FixChanged(s, env, order, faults.fix).store, env, dirs, faults.scan, 0)
    ensures r.Success? ==> s'.sets == s.sets
    ensures HashesUnique(s.charts) ==> HashesUnique(s'.charts)
  {
    if faults.connect.Some? {
      return s, Failure(ConnectionError(faults.connect.value)), [];
    }
    var fix := FixChanged(s, env, order, faults.fix);
    if fix.result.Failure? {
      return s, fix.result, [Reconcile(s, s)];
    }
    var cur := fix.store;
    trace := [Reconcile(s, cur)];
    var i := 0;
    while i < |dirs|
      invariant Chained(trace, env, dirs, faults.scan, i)
      invariant trace[0] == Reconcile(s, fix.store)
      invariant cur == trace[i].after && cur.sets == s.sets
      invariant DiscoverAll(cur, env, dirs, faults.scan, i) == DiscoverAll(fix.store, env, dirs, faults.scan, 0)
      invariant HashesUnique(s.charts) ==> HashesUnique(cur.charts)
    {
      var out := FindNew(cur, env, dirs[i], faults.scan(i));
      FindNewEffect(cur, env, dirs[i], faults.scan(i));
      ChainedExtend(trace, env, dirs, faults.scan, i);
      trace := trace + [Discover(dirs[i], cur, out.store, out.result)];
      cur := out.store;
      i := i + 1;
    }
    return cur, Success(()), trace;
  }
}
