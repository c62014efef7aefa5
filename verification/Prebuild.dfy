/**
  The stamp-based rebuild loop: which connector test binaries a prebuild run compiles, and what it
  leaves behind for the next run (`needs_rebuild`, `mark_built`, `prebuild_integration_rust_tests`).
 */
module Prebuild {
  import opened DataModel

  type Time = int

  /** What a watched repo-relative path turns out to be. */
  datatype Watched = Missing | File(mtime: Time) | Directory(files: seq<Time>)

  /** A connector leg: its name, its stamp file and what it watches. */
  datatype Connector = Connector(name: string, stamp: string, watch: seq<Watched>)

  /** The environment switches `INTEG_FORCE_REBUILD` and `INTEG_SKIP_PREBUILD`. */
  datatype Env = Env(force: bool, skip: bool)

  /** The files the decision depends on: stamp mtimes and the shared failure flag. */
  datatype Cache = Cache(stamps: map<string, Time>, failed: bool)

  /** What happens if a connector is built: whether cargo succeeds, and the stamp's mtime then. */
  datatype Job = Job(ok: bool, at: Time)

  // ---------- the decision ----------

  predicate NewerPath(w: Watched, than: Time) {
    match w
    case Missing => false
    case File(t) => t > than
    case Directory(files) => exists i :: 0 <= i < |files| && files[i] > than
  }

  predicate Newer(watch: seq<Watched>, than: Time) {
    exists i :: 0 <= i < |watch| && NewerPath(watch[i], than)
  }

  /** No stamp, or a watched file modified after it. */
  predicate Stale(c: Connector, stamps: map<string, Time>) {
    c.stamp !in stamps || Newer(c.watch, stamps[c.stamp])
  }

  predicate Needs(env: Env, c: Connector, cache: Cache) {
    env.force || cache.failed || Stale(c, cache.stamps)
  }

  /** A watched file, or some file below a watched directory, was modified strictly after the given time. */
  ghost predicate EditedSince(c: Connector, stamp: Time) {
    || (exists i :: 0 <= i < |c.watch| && c.watch[i].File? && c.watch[i].mtime > stamp)
    || (exists i, k :: 0 <= i < |c.watch| && c.watch[i].Directory? && 0 <= k < |c.watch[i].files|
          && c.watch[i].files[k] > stamp)
  }

  lemma StaleMeansEdited(c: Connector, stamps: map<string, Time>)
    ensures Stale(c, stamps) <==> c.stamp !in stamps || EditedSince(c, stamps[c.stamp])
  {
    if c.stamp in stamps {
      var stamp := stamps[c.stamp];
      forall i | 0 <= i < |c.watch|
        ensures NewerPath(c.watch[i], stamp) <==>
          || (c.watch[i].File? && c.watch[i].mtime > stamp)
          || (c.watch[i].Directory? && exists k :: 0 <= k < |c.watch[i].files| && c.watch[i].files[k] > stamp)
      {}
    }
  }

  function Marked(cache: Cache, stamp: string, at: Time): Cache {
    Cache(cache.stamps[stamp := at], false)
  }

  // ---------- one run ----------

  datatype Outcome = Outcome(cache: Cache, built: seq<Connector>, stopped: Option<nat>)

  function Later(o: Outcome): Outcome {
    o.(stopped := if o.stopped.Some? then Some(o.stopped.value + 1) else None)
  }

  /** The loop over the connectors, from the given cache on; a failing build ends it. */
  function RunFrom(env: Env, cs: seq<Connector>, jobs: seq<Job>, cache: Cache): Outcome
    requires |jobs| == |cs|
    decreases |cs|
  {
    if cs == [] then Outcome(cache, [], None)
    else if !Needs(env, cs[0], cache) then Later(RunFrom(env, cs[1..], jobs[1..], cache))
    else if !jobs[0].ok then Outcome(cache, [], Some(0))
    else
      var rest := Later(RunFrom(env, cs[1..], jobs[1..], Marked(cache, cs[0].stamp, jobs[0].at)));
      rest.(built := [cs[0]] + rest.built)
  }

  function PrebuildRun(env: Env, cs: seq<Connector>, jobs: seq<Job>, cache: Cache): Outcome
    requires |jobs| == |cs|
  {
    if env.skip then Outcome(cache, [], None) else RunFrom(env, cs, jobs, cache)
  }

  // ---------- what a run builds ----------

  function StaleOnes(cs: seq<Connector>, stamps: map<string, Time>): seq<Connector> {
    if cs == [] then []
    else (if Stale(cs[0], stamps) then [cs[0]] else []) + StaleOnes(cs[1..], stamps)
  }

  /** The stale connectors, and the first one whatever its state when the failure flag is set. */
  function Expected(cs: seq<Connector>, cache: Cache): seq<Connector> {
    if cs != [] && cache.failed then [cs[0]] + StaleOnes(cs[1..], cache.stamps)
    else StaleOnes(cs, cache.stamps)
  }

  ghost predicate DistinctStamps(cs: seq<Connector>) {
    forall i, j :: 0 <= i < j < |cs| ==> cs[i].stamp != cs[j].stamp
  }

  /** How many connectors a run got through: all, or those before the failing build. */
  function Handled(cs: seq<Connector>, o: Outcome): nat {
    if o.stopped.Some? then o.stopped.value else |cs|
  }

  const PLAIN := Env(false, false)

  lemma {:induction false} StaleOnesSame(cs: seq<Connector>, a: map<string, Time>, b: map<string, Time>)
    requires forall i :: 0 <= i < |cs| ==> (Stale(cs[i], a) <==> Stale(cs[i], b))
    ensures StaleOnes(cs, a) == StaleOnes(cs, b)
  {
    if cs != [] {
      forall i | 0 <= i < |cs[1..]| ensures Stale(cs[1..][i], a) <==> Stale(cs[1..][i], b) {
        assert cs[1..][i] == cs[i + 1];
      }
      StaleOnesSame(cs[1..], a, b);
    }
  }

  /** A run stops inside the list, and exactly at a build that fails. */
  lemma {:induction false} RunStops(env: Env, cs: seq<Connector>, jobs: seq<Job>, cache: Cache)
    requires |jobs| == |cs|
    ensures var o := RunFrom(env, cs, jobs, cache);
      && Handled(cs, o) <= |cs|
      && (o.stopped.Some? ==> o.stopped.value < |cs| && !jobs[o.stopped.value].ok)
    decreases |cs|
  {
    if cs != [] {
      RunStops(env, cs[1..], jobs[1..], cache);
      RunStops(env, cs[1..], jobs[1..], Marked(cache, cs[0].stamp, jobs[0].at));
    }
  }

  function StampsOf(cs: seq<Connector>): set<string> {
    set c | c in cs :: c.stamp
  }

  ghost predicate Untouched(s: string, a: Cache, b: Cache) {
    && (s in a.stamps <==> s in b.stamps)
    && (s in a.stamps && s in b.stamps ==> a.stamps[s] == b.stamps[s])
  }

  lemma TailPrefix(cs: seq<Connector>, n: nat)
    requires 1 <= n <= |cs|
    ensures cs[..n][0] == cs[0] && cs[..n][1..] == cs[1..][..n - 1]
    ensures cs[..n] == [cs[0]] + cs[1..][..n - 1]
    ensures StampsOf(cs[..n]) == {cs[0].stamp} + StampsOf(cs[1..][..n - 1])
  {
    var tail := cs[1..][..n - 1];
    assert cs[..n] == [cs[0]] + tail;
    assert forall c :: c in cs[..n] <==> c == cs[0] || c in tail;
  }

  lemma DistinctTail(cs: seq<Connector>)
    requires cs != [] && DistinctStamps(cs)
    ensures DistinctStamps(cs[1..])
    ensures cs[0].stamp !in StampsOf(cs[1..])
    ensures forall n :: 0 <= n < |cs| ==> cs[0].stamp !in StampsOf(cs[1..][..n])
  {
    forall c | c in cs[1..] ensures c.stamp != cs[0].stamp {
      var i :| 0 <= i < |cs[1..]| && cs[1..][i] == c;
      assert cs[i + 1] == c;
    }
    forall i, j | 0 <= i < j < |cs[1..]| ensures cs[1..][i].stamp != cs[1..][j].stamp {
      assert cs[1..][i] == cs[i + 1] && cs[1..][j] == cs[j + 1];
    }
  }

  /** The stamps of the connectors a run did not get through are left as they were. */
  lemma {:induction false} OthersUntouched(env: Env, cs: seq<Connector>, jobs: seq<Job>, cache: Cache)
    requires |jobs| == |cs|
    ensures var o := RunFrom(env, cs, jobs, cache);
      && Handled(cs, o) <= |cs|
      && forall s :: s !in StampsOf(cs[..Handled(cs, o)]) ==> Untouched(s, cache, o.cache)
    decreases |cs|
  {
    RunStops(env, cs, jobs, cache);
    var n := Handled(cs, RunFrom(env, cs, jobs, cache));
    if cs != [] && n > 0 {
      TailPrefix(cs, n);
      if !Needs(env, cs[0], cache) {
        OthersUntouched(env, cs[1..], jobs[1..], cache);
      } else {
        OthersUntouched(env, cs[1..], jobs[1..], Marked(cache, cs[0].stamp, jobs[0].at));
      }
    }
  }

  lemma MarkKeepsOthersStale(cs: seq<Connector>, cache: Cache, stamp: string, at: Time)
    requires stamp !in StampsOf(cs)
    ensures StaleOnes(cs, Marked(cache, stamp, at).stamps) == StaleOnes(cs, cache.stamps)
  {
    forall i | 0 <= i < |cs| ensures cs[i].stamp != stamp {
      assert cs[i] in cs;
    }
    StaleOnesSame(cs, Marked(cache, stamp, at).stamps, cache.stamps);
  }

  lemma ExpectedAfterMark(cs: seq<Connector>, cache: Cache, stamp: string, at: Time)
    requires stamp !in StampsOf(cs)
    ensures Expected(cs, Marked(cache, stamp, at)) == StaleOnes(cs, cache.stamps)
  {
    MarkKeepsOthersStale(cs, cache, stamp, at);
  }

  /**
    As far as it gets, an unforced run builds exactly the connectors that were stale at its start,
    in order, and the first one also when only the failure flag asks for it.
   */
  lemma {:induction false} RunBuildsExpected(cs: seq<Connector>, jobs: seq<Job>, cache: Cache)
    requires |jobs| == |cs| && DistinctStamps(cs)
    ensures var o := RunFrom(PLAIN, cs, jobs, cache);
      Handled(cs, o) <= |cs| && o.built == Expected(cs[..Handled(cs, o)], cache)
    decreases |cs|
  {
    RunStops(PLAIN, cs, jobs, cache);
    var n := Handled(cs, RunFrom(PLAIN, cs, jobs, cache));
    if cs != [] && n > 0 {
      TailPrefix(cs, n);
      DistinctTail(cs);
      if !Needs(PLAIN, cs[0], cache) {
        RunBuildsExpected(cs[1..], jobs[1..], cache);
      } else {
        RunBuildsExpected(cs[1..], jobs[1..], Marked(cache, cs[0].stamp, jobs[0].at));
        ExpectedAfterMark(cs[1..][..n - 1], cache, cs[0].stamp, jobs[0].at);
      }
    }
  }

  // ---------- what a run leaves behind ----------

  /** No watched file is newer than the stamp a build of its connector would leave. */
  ghost predicate NoFutureFiles(cs: seq<Connector>, jobs: seq<Job>)
    requires |jobs| == |cs|
  {
    forall i :: 0 <= i < |cs| ==> !Newer(cs[i].watch, jobs[i].at)
  }

  /**
    After a run the connectors it got through are fresh, and the failure flag is gone unless the
    very first build failed or there was nothing to look at.
   */
  lemma {:induction false} HandledAreFresh(cs: seq<Connector>, jobs: seq<Job>, cache: Cache)
    requires |jobs| == |cs| && DistinctStamps(cs) && NoFutureFiles(cs, jobs)
    ensures var o := RunFrom(PLAIN, cs, jobs, cache);
      && Handled(cs, o) <= |cs|
      && StaleOnes(cs[..Handled(cs, o)], o.cache.stamps) == []
      && o.cache.failed == (cache.failed && Handled(cs, o) == 0)
    decreases |cs|
  {
    var o := RunFrom(PLAIN, cs, jobs, cache);
    RunStops(PLAIN, cs, jobs, cache);
    var n := Handled(cs, o);
    if cs != [] && n > 0 {
      TailPrefix(cs, n);
      DistinctTail(cs);
      forall i | 0 <= i < |cs[1..]| ensures !Newer(cs[1..][i].watch, jobs[1..][i].at) {
        assert cs[1..][i] == cs[i + 1] && jobs[1..][i] == jobs[i + 1];
      }
      assert !Newer(cs[0].watch, jobs[0].at);
      var next := if Needs(PLAIN, cs[0], cache) then Marked(cache, cs[0].stamp, jobs[0].at) else cache;
      HandledAreFresh(cs[1..], jobs[1..], next);
      OthersUntouched(PLAIN, cs[1..], jobs[1..], next);
      assert Untouched(cs[0].stamp, next, o.cache);
      assert !Stale(cs[0], o.cache.stamps);
    }
  }

  lemma {:induction false} StaleOnesAppend(a: seq<Connector>, b: seq<Connector>, stamps: map<string, Time>)
    ensures StaleOnes(a + b, stamps) == StaleOnes(a, stamps) + StaleOnes(b, stamps)
  {
    if a == [] {
      assert a + b == b;
    } else {
      assert (a + b)[1..] == a[1..] + b;
      StaleOnesAppend(a[1..], b, stamps);
    }
  }

  lemma StaleOnesSplit(cs: seq<Connector>, n: nat, stamps: map<string, Time>)
    requires n <= |cs|
    ensures StaleOnes(cs, stamps) == StaleOnes(cs[..n], stamps) + StaleOnes(cs[n..], stamps)
  {
    assert cs == cs[..n] + cs[n..];
    StaleOnesAppend(cs[..n], cs[n..], stamps);
  }

  lemma UntouchedSameStale(cs: seq<Connector>, a: Cache, b: Cache)
    requires forall i :: 0 <= i < |cs| ==> Untouched(cs[i].stamp, a, b)
    ensures StaleOnes(cs, a.stamps) == StaleOnes(cs, b.stamps)
  {
    forall i | 0 <= i < |cs| ensures Stale(cs[i], a.stamps) <==> Stale(cs[i], b.stamps) {
      assert Untouched(cs[i].stamp, a, b);
    }
    StaleOnesSame(cs, a.stamps, b.stamps);
  }

  lemma SuffixUntouched(cs: seq<Connector>, n: nat, a: Cache, b: Cache)
    requires DistinctStamps(cs) && n <= |cs|
    requires forall s :: s !in StampsOf(cs[..n]) ==> Untouched(s, a, b)
    ensures forall i :: n <= i < |cs| ==> Untouched(cs[i].stamp, a, b)
  {
    forall i | n <= i < |cs| ensures cs[i].stamp !in StampsOf(cs[..n]) {
      forall c | c in cs[..n] ensures c.stamp != cs[i].stamp {
        var k :| 0 <= k < n && cs[..n][k] == c;
        assert cs[k] == c;
      }
    }
  }

  lemma SuffixStaysStale(cs: seq<Connector>, n: nat, a: Cache, b: Cache)
    requires n <= |cs| && forall i :: n <= i < |cs| ==> Untouched(cs[i].stamp, a, b)
    ensures StaleOnes(cs[n..], a.stamps) == StaleOnes(cs[n..], b.stamps)
  {
    forall i | 0 <= i < |cs[n..]| ensures Untouched(cs[n..][i].stamp, a, b) {
      assert cs[n..][i] == cs[n + i];
    }
    UntouchedSameStale(cs[n..], a, b);
  }

  /** What is stale after a run is what was stale before it, from where it stopped on. */
  lemma StaleAfterRun(cs: seq<Connector>, jobs: seq<Job>, cache: Cache)
    requires |jobs| == |cs| && DistinctStamps(cs) && NoFutureFiles(cs, jobs)
    ensures var o := RunFrom(PLAIN, cs, jobs, cache);
      var n := Handled(cs, o);
      && n <= |cs|
      && StaleOnes(cs, o.cache.stamps) == StaleOnes(cs[n..], cache.stamps)
      && (forall i :: n <= i < |cs| ==> Untouched(cs[i].stamp, cache, o.cache))
  {
    var o := RunFrom(PLAIN, cs, jobs, cache);
    var n := Handled(cs, o);
    HandledAreFresh(cs, jobs, cache);
    OthersUntouched(PLAIN, cs, jobs, cache);
    SuffixUntouched(cs, n, cache, o.cache);
    SuffixStaysStale(cs, n, cache, o.cache);
    StaleOnesSplit(cs, n, o.cache.stamps);
  }

  /**
    The next run. With no edits in between, a run after a complete one builds nothing. After a run
    that stopped at a failing build, it takes up where that one stopped: it owes exactly what the
    first run still owed from the failing connector on, whose stamp was left alone.
   */
  lemma NextRunResumes(cs: seq<Connector>, jobs: seq<Job>, cache: Cache)
    requires |jobs| == |cs| && DistinctStamps(cs) && NoFutureFiles(cs, jobs)
    ensures var o := RunFrom(PLAIN, cs, jobs, cache);
      && (o.stopped.None? ==> Expected(cs, o.cache) == [])
      && (o.stopped.Some? ==>
            && o.stopped.value < |cs|
            && Untouched(cs[o.stopped.value].stamp, cache, o.cache)
            && Expected(cs, o.cache) ==
                 if o.stopped.value == 0 then Expected(cs, cache)
                 else StaleOnes(cs[o.stopped.value..], cache.stamps))
  {
    var o := RunFrom(PLAIN, cs, jobs, cache);
    var n := Handled(cs, o);
    RunStops(PLAIN, cs, jobs, cache);
    HandledAreFresh(cs, jobs, cache);
    StaleAfterRun(cs, jobs, cache);
    if o.stopped.None? {
      assert cs[n..] == [];
    } else if n == 0 {
      assert cs[0..] == cs;
      UntouchedSameStale(cs[1..], cache, o.cache);
    }
  }

  /** `INTEG_FORCE_REBUILD` builds every connector, whatever the stamps. */
  lemma {:induction false} ForcedRunBuildsAll(cs: seq<Connector>, jobs: seq<Job>, cache: Cache)
    requires |jobs| == |cs|
    ensures var o := RunFrom(Env(true, false), cs, jobs, cache);
      Handled(cs, o) <= |cs| && o.built == cs[..Handled(cs, o)]
    decreases |cs|
  {
    var env := Env(true, false);
    RunStops(env, cs, jobs, cache);
    var n := Handled(cs, RunFrom(env, cs, jobs, cache));
    if cs != [] && n > 0 {
      TailPrefix(cs, n);
      ForcedRunBuildsAll(cs[1..], jobs[1..], Marked(cache, cs[0].stamp, jobs[0].at));
    }
  }

  lemma {:induction false} NothingOwedNothingDone(cs: seq<Connector>, jobs: seq<Job>, cache: Cache)
    requires |jobs| == |cs| && Expected(cs, cache) == []
    ensures RunFrom(PLAIN, cs, jobs, cache) == Outcome(cache, [], None)
    decreases |cs|
  {
    if cs != [] {
      NothingOwedNothingDone(cs[1..], jobs[1..], cache);
    }
  }

  /** With no edits in between, the run after a complete one builds nothing and changes nothing. */
  lemma {:induction false} SecondRunIsIdle(cs: seq<Connector>, jobs: seq<Job>, again: seq<Job>, cache: Cache)
    requires |jobs| == |again| == |cs| && DistinctStamps(cs) && NoFutureFiles(cs, jobs)
    requires RunFrom(PLAIN, cs, jobs, cache).stopped.None?
    ensures var o := RunFrom(PLAIN, cs, jobs, cache);
      RunFrom(PLAIN, cs, again, o.cache) == Outcome(o.cache, [], None)
  {
    NextRunResumes(cs, jobs, cache);
    NothingOwedNothingDone(cs, again, RunFrom(PLAIN, cs, jobs, cache).cache);
  }

  /**
    `mark_test_failed` after a complete run makes the next one rebuild just the first connector:
    its success clears the flag before the others are looked at.
   */
  lemma {:induction false} FailedTestRebuildsFirst(cs: seq<Connector>, jobs: seq<Job>, again: seq<Job>, cache: Cache)
    requires |jobs| == |again| == |cs| && cs != [] && DistinctStamps(cs) && NoFutureFiles(cs, jobs)
    requires RunFrom(PLAIN, cs, jobs, cache).stopped.None? && again[0].ok
    ensures var flagged := RunFrom(PLAIN, cs, jobs, cache).cache.(failed := true);
      var o := RunFrom(PLAIN, cs, again, flagged);
      o.built == [cs[0]] && o.stopped.None? && !o.cache.failed
  {
    var done := RunFrom(PLAIN, cs, jobs, cache).cache;
    NextRunResumes(cs, jobs, cache);
    DistinctTail(cs);
    var next := Marked(done.(failed := true), cs[0].stamp, again[0].at);
    MarkKeepsOthersStale(cs[1..], done.(failed := true), cs[0].stamp, again[0].at);
    NothingOwedNothingDone(cs[1..], again[1..], next);
  }

  // ---------- one edit ----------

  /**
    An edit below the `i`-th watched path of a connector, made at time `t`: the file there is written, or
    file `k` of a directory, or a new one in it.
   */
  function Touched(c: Connector, i: nat, k: nat, t: Time): Connector
    requires i < |c.watch|
  {
    c.(watch := c.watch[i :=
      match c.watch[i]
      case Directory(files) => Directory(if k < |files| then files[k := t] else files + [t])
      case _ => File(t)])
  }

  lemma TouchedIsStale(c: Connector, i: nat, k: nat, t: Time, stamps: map<string, Time>)
    requires i < |c.watch| && c.stamp in stamps && t > stamps[c.stamp]
    ensures Stale(Touched(c, i, k, t), stamps)
  {
    var d := Touched(c, i, k, t);
    if c.watch[i].Directory? {
      var files := c.watch[i].files;
      assert d.watch[i].files[if k < |files| then k else |files|] == t;
    } else {
      assert d.watch[i] == File(t);
    }
    StaleMeansEdited(d, stamps);
  }

  /** When nothing is owed, one edit to one connector makes the next run build exactly that one. */
  lemma {:induction false} EditBuildsExactlyOne(cs: seq<Connector>, jobs: seq<Job>, cache: Cache, n: nat, i: nat,
                                                k: nat, t: Time)
    requires |jobs| == |cs| && DistinctStamps(cs) && Expected(cs, cache) == []
    requires n < |cs| && jobs[n].ok && i < |cs[n].watch|
    requires cs[n].stamp in cache.stamps ==> t > cache.stamps[cs[n].stamp]
    ensures var c := Touched(cs[n], i, k, t);
      RunFrom(PLAIN, cs[n := c], jobs, cache) == Outcome(Marked(cache, c.stamp, jobs[n].at), [c], None)
    decreases |cs|
  {
    var c := Touched(cs[n], i, k, t);
    var edited := cs[n := c];
    DistinctTail(cs);
    if n == 0 {
      TouchedIsStale(cs[0], i, k, t, cache.stamps);
      assert edited[1..] == cs[1..];
      MarkKeepsOthersStale(cs[1..], cache, c.stamp, jobs[0].at);
      NothingOwedNothingDone(cs[1..], jobs[1..], Marked(cache, c.stamp, jobs[0].at));
    } else {
      assert edited[1..] == cs[1..][n - 1 := c] && cs[1..][n - 1] == cs[n];
      EditBuildsExactlyOne(cs[1..], jobs[1..], cache, n - 1, i, k, t);
    }
  }

  // ---------- the script ----------

  lemma {:induction false} RunPrefix(env: Env, cs: seq<Connector>, jobs: seq<Job>, i: nat, cache: Cache,
                                     built: seq<Connector>, whole: Outcome)
    requires |jobs| == |cs| && i < |cs| && Resumes(env, cs, jobs, i, cache, built, whole)
    ensures !Needs(env, cs[i], cache) ==> Resumes(env, cs, jobs, i + 1, cache, built, whole)
    ensures Needs(env, cs[i], cache) && jobs[i].ok ==>
      Resumes(env, cs, jobs, i + 1, Marked(cache, cs[i].stamp, jobs[i].at), built + [cs[i]], whole)
    ensures Needs(env, cs[i], cache) && !jobs[i].ok ==> whole == Outcome(cache, built, Some(i))
  {
    assert cs[i..][1..] == cs[i + 1..] && jobs[i..][1..] == jobs[i + 1..];
    if Needs(env, cs[i], cache) && jobs[i].ok {
      var rest := RunFrom(env, cs[i + 1..], jobs[i + 1..], Marked(cache, cs[i].stamp, jobs[i].at));
      assert built + ([cs[i]] + rest.built) == built + [cs[i]] + rest.built;
    }
  }

  /** `whole` is the run whose loop stands before connector `i` with the given cache and builds. */
  ghost predicate Resumes(env: Env, cs: seq<Connector>, jobs: seq<Job>, i: nat, cache: Cache,
                          built: seq<Connector>, whole: Outcome)
    requires |jobs| == |cs| && i <= |cs|
  {
    var rest := RunFrom(env, cs[i..], jobs[i..], cache);
    whole == Outcome(rest.cache, built + rest.built,
                     if rest.stopped.Some? then Some(rest.stopped.value + i) else None)
  }

  /** The stamp and flag files under `libs/`, as the scripts read and write them. */
  class BuildCache {
    var stamps: map<string, Time>
    var failed: bool

    constructor ()
      ensures Snapshot() == Cache(map[], false)
    {
      stamps, failed := map[], false;
    }

    function Snapshot(): Cache
      reads this
    {
      Cache(stamps, failed)
    }

    /** `needs_rebuild`. */
    method NeedsRebuild(env: Env, c: Connector) returns (needs: bool)
      ensures needs == Needs(env, c, Snapshot())
      ensures needs <==> env.force || failed || c.stamp !in stamps || EditedSince(c, stamps[c.stamp])
    {
      StaleMeansEdited(c, stamps);
      if env.force || failed || c.stamp !in stamps {
        return true;
      }
      var mtime := stamps[c.stamp];
      for i := 0 to |c.watch|
        invariant forall j :: 0 <= j < i ==> !NewerPath(c.watch[j], mtime)
      {
        match c.watch[i] {
          case Missing =>
          case File(t) =>
            if t > mtime {
              assert NewerPath(c.watch[i], mtime);
              return true;
            }
          case Directory(files) =>
            for k := 0 to |files|
              invariant forall l :: 0 <= l < k ==> files[l] <= mtime
            {
              if files[k] > mtime {
                assert NewerPath(c.watch[i], mtime);
                return true;
              }
            }
        }
      }
      needs := false;
    }

    /** `mark_built`. */
    method MarkBuilt(stamp: string, at: Time)
      modifies this
      ensures Snapshot() == Marked(old(Snapshot()), stamp, at)
    {
      stamps := stamps[stamp := at];
      if failed {
        failed := false;
      }
    }

    /** `mark_test_failed`. */
    method MarkTestFailed()
      modifies this`failed
      ensures Snapshot() == old(Snapshot()).(failed := true)
    {
      failed := true;
    }

    /**
      `prebuild_integration_rust_tests` over the sorted connectors. `stopped` is the connector whose
      build raised, which ends the loop before its stamp is written.
     */
    method PrebuildTests(env: Env, cs: seq<Connector>, jobs: seq<Job>)
      returns (built: seq<Connector>, stopped: Option<nat>)
      requires |jobs| == |cs|
      modifies this
      ensures PrebuildRun(env, cs, jobs, old(Snapshot())) == Outcome(Snapshot(), built, stopped)
      ensures env == PLAIN && DistinctStamps(cs) && stopped.None? ==> built == Expected(cs, old(Snapshot()))
      ensures env.skip ==> built == [] && stopped.None? && Snapshot() == old(Snapshot())
      ensures env == Env(true, false) && stopped.None? ==> built == cs
    {
      built, stopped := [], None;
      if env.skip {
        return;
      }
      ghost var whole := RunFrom(env, cs, jobs, Snapshot());
      assert cs[0..] == cs && jobs[0..] == jobs;
      if env == PLAIN && DistinctStamps(cs) {
        RunBuildsExpected(cs, jobs, Snapshot());
        assert cs[..|cs|] == cs;
      }
      if env == Env(true, false) {
        ForcedRunBuildsAll(cs, jobs, Snapshot());
        assert cs[..|cs|] == cs;
      }
      for i := 0 to |cs|
        invariant Resumes(env, cs, jobs, i, Snapshot(), built, whole)
      {
        RunPrefix(env, cs, jobs, i, Snapshot(), built, whole);
        var needs := NeedsRebuild(env, cs[i]);
        if needs {
          if !jobs[i].ok {
            stopped := Some(i);
            return;
          }
          MarkBuilt(cs[i].stamp, jobs[i].at);
          built := built + [cs[i]];
        }
      }
    }
  }
}
