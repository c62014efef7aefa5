/**
  The re-entrant, cross-process build lock (`integration_cargo_build_lock`): an OS file lock taken
  by the outermost `with`, a per-process depth for the nested ones, and the holder's pid written
  into the lock file for the error message of a refused contender.

  Every process is a sequence of atomic steps; a run interleaves the steps of any number of
  processes, which may also raise inside the body or crash anywhere.
 */
module BuildLock {
  import opened DataModel

  type Pid = nat

  /** A whitespace-separated word of the lock file: one `int()` accepts, or not. */
  datatype Word = Number(n: int) | Junk

  datatype LockFile = Absent | Text(words: seq<Word>)

  /** What `_integration_lock_holder_pid` does: `None`, a pid, or an uncaught `IndexError`. */
  datatype Lookup = NoPid | Holder(pid: int) | IndexError

  function LookupHolder(file: LockFile): Lookup {
    match file
    case Absent => NoPid
    case Text(words) =>
      if words == [] then IndexError
      else match words[0] case Number(n) => Holder(n) case Junk => NoPid
  }

  /** The kinds of `with` a process can be inside of: the one that took the OS lock, or a nested one. */
  datatype Frame = Outermost | Nested

  datatype Phase =
    | Outside
    | Opened
    | Refused
    | Locked
    | Truncated
    | Buffered
    | Flushed
    | InBody
    | Releasing
    | Dead

  /** `depth` is the module's global counter; `frames` are the `with` blocks really entered. */
  datatype Proc = Proc(phase: Phase, depth: int, frames: seq<Frame>)

  const IDLE := Proc(Outside, 0, [])

  /** `owner` is the OS's view of the lock; `lastWriter` records whose pid was flushed last. */
  datatype State = State(procs: map<Pid, Proc>, owner: Option<Pid>, file: LockFile, lastWriter: Option<Pid>)

  function At(s: State, p: Pid): Proc {
    if p in s.procs then s.procs[p] else IDLE
  }

  function Put(s: State, p: Pid, proc: Proc): State {
    s.(procs := s.procs[p := proc])
  }

  datatype Action =
    | Enter
    | Flock
    | ReadHolder
    | Truncate
    | Write
    | Flush
    | StartBody
    | Exit
    | Unlock
    | Abort(flushed: bool)
    | Crash
    | Respawn

  predicate Acquiring(phase: Phase) {
    phase.Locked? || phase.Truncated? || phase.Buffered? || phase.Flushed?
  }

  /** The phases between the granted `flock` and the release. */
  predicate Holding(phase: Phase) {
    Acquiring(phase) || phase.InBody? || phase.Releasing?
  }

  /** The phases in which the holder's pid has been flushed. */
  predicate Published(phase: Phase) {
    phase.Flushed? || phase.InBody? || phase.Releasing?
  }

  predicate Enabled(s: State, p: Pid, a: Action) {
    var phase := At(s, p).phase;
    match a
    case Enter => phase.Outside? || phase.InBody?
    case Flock => phase.Opened?
    case ReadHolder => phase.Refused?
    case Truncate => phase.Locked?
    case Write => phase.Truncated?
    case Flush => phase.Buffered?
    case StartBody => phase.Flushed?
    case Exit => phase.InBody? && At(s, p).frames != []
    case Unlock => phase.Releasing?
    case Abort(_) => Acquiring(phase)
    case Crash => !phase.Dead?
    case Respawn => phase.Dead?
  }

  function Release(s: State, p: Pid): State {
    if s.owner == Some(p) then s.(owner := None) else s
  }

  function Publish(s: State, p: Pid): State {
    s.(file := Text([Number(p)]), lastWriter := Some(p))
  }

  /**
    One step. `Enter` branches on the global depth alone, as the code does; `Exit` undoes the
    innermost `with`, on return or exception; `Abort` is an exception while acquiring, which
    closes the file (flushing its buffer or not) and so drops the lock.
   */
  function Act(s: State, p: Pid, a: Action): State
    requires Enabled(s, p, a)
  {
    var proc := At(s, p);
    match a
    case Enter =>
      if proc.depth > 0 then Put(s, p, Proc(InBody, proc.depth + 1, proc.frames + [Nested]))
      else
        var created := if s.file.Absent? then s.(file := Text([])) else s;
        Put(created, p, proc.(phase := Opened))
    case Flock =>
      if s.owner.None? then Put(s, p, proc.(phase := Locked)).(owner := Some(p))
      else Put(s, p, proc.(phase := Refused))
    case ReadHolder => Put(s, p, proc.(phase := Outside))
    case Truncate => Put(s, p, proc.(phase := Truncated)).(file := Text([]))
    case Write => Put(s, p, proc.(phase := Buffered))
    case Flush => Publish(Put(s, p, proc.(phase := Flushed)), p)
    case StartBody => Put(s, p, Proc(InBody, 1, proc.frames + [Outermost]))
    case Exit =>
      var n := |proc.frames| - 1;
      if proc.frames[n].Nested? then Put(s, p, Proc(InBody, proc.depth - 1, proc.frames[..n]))
      else Put(s, p, Proc(Releasing, 0, proc.frames[..n]))
    case Unlock => Release(Put(s, p, proc.(phase := Outside)), p)
    case Abort(flushed) =>
      var closed := if proc.phase.Buffered? && flushed then Publish(s, p) else s;
      Release(Put(closed, p, proc.(phase := Outside)), p)
    case Crash => Release(Put(s, p, Proc(Dead, 0, [])), p)
    case Respawn => Put(s, p, IDLE)
  }

  // ---------- runs ----------

  type Run = seq<(Pid, Action)>

  /** No process has started; an old lock file may lie around. */
  function Init(leftover: LockFile): State {
    State(map[], None, leftover, None)
  }

  ghost predicate ValidRun(s: State, run: Run)
    decreases |run|
  {
    run == [] || (Enabled(s, run[0].0, run[0].1) && ValidRun(Act(s, run[0].0, run[0].1), run[1..]))
  }

  function After(s: State, run: Run): State
    requires ValidRun(s, run)
    decreases |run|
  {
    if run == [] then s else After(Act(s, run[0].0, run[0].1), run[1..])
  }

  // ---------- what every step keeps ----------

  ghost predicate ProcOk(s: State, p: Pid) {
    var proc := At(s, p);
    && (Holding(proc.phase) <==> s.owner == Some(p))
    && (proc.phase.InBody? ==>
          && proc.depth == |proc.frames| >= 1 && proc.frames[0] == Outermost
          && forall i :: 1 <= i < |proc.frames| ==> proc.frames[i] == Nested)
    && (!proc.phase.InBody? ==> proc.depth == 0 && proc.frames == [])
    && (Published(proc.phase) ==> s.file == Text([Number(p)]) && s.lastWriter == Some(p))
    && (proc.phase.Truncated? || proc.phase.Buffered? ==> s.file == Text([]))
    && (!proc.phase.Outside? && !proc.phase.Dead? ==> s.file.Text?)
  }

  /** The file is blank, or the last writer's, or untouched since the start. */
  ghost predicate FileOk(s: State, leftover: LockFile) {
    || s.file == Text([])
    || (s.lastWriter.Some? && s.file == Text([Number(s.lastWriter.value)]))
    || (s.lastWriter.None? && s.file == leftover)
  }

  ghost predicate Inv(s: State, leftover: LockFile) {
    FileOk(s, leftover) && forall p :: ProcOk(s, p)
  }

  lemma StepKeepsOwn(s: State, p: Pid, a: Action, leftover: LockFile)
    requires Inv(s, leftover) && Enabled(s, p, a)
    ensures ProcOk(Act(s, p, a), p) && FileOk(Act(s, p, a), leftover)
  {
    assert ProcOk(s, p);
  }

  lemma StepKeepsOther(s: State, p: Pid, a: Action, leftover: LockFile, q: Pid)
    requires Inv(s, leftover) && Enabled(s, p, a) && q != p
    ensures ProcOk(Act(s, p, a), q)
  {
    assert ProcOk(s, p) && ProcOk(s, q);
    assert At(Act(s, p, a), q) == At(s, q);
  }

  lemma StepKeepsInv(s: State, p: Pid, a: Action, leftover: LockFile)
    requires Inv(s, leftover) && Enabled(s, p, a)
    ensures Inv(Act(s, p, a), leftover)
  {
    StepKeepsOwn(s, p, a, leftover);
    forall q ensures ProcOk(Act(s, p, a), q) {
      if q != p {
        StepKeepsOther(s, p, a, leftover, q);
      }
    }
  }

  lemma {:induction false} RunKeepsInv(s: State, run: Run, leftover: LockFile)
    requires Inv(s, leftover) && ValidRun(s, run)
    ensures Inv(After(s, run), leftover)
    decreases |run|
  {
    if run != [] {
      StepKeepsInv(s, run[0].0, run[0].1, leftover);
      RunKeepsInv(Act(s, run[0].0, run[0].1), run[1..], leftover);
    }
  }

  // ---------- what happened to the lock file ----------

  datatype FileEvent = Nothing | Emptied | Written

  /** What a step does to the lock file: opening creates it if need be, a flush or a flushing close writes it. */
  function EventOf(s: State, p: Pid, a: Action): FileEvent
    requires Enabled(s, p, a)
  {
    match a
    case Enter => if At(s, p).depth <= 0 && s.file.Absent? then Emptied else Nothing
    case Truncate => Emptied
    case Flush => Written
    case Abort(flushed) => if At(s, p).phase.Buffered? && flushed then Written else Nothing
    case _ => Nothing
  }

  /** The last of these events in a run; `before` is what had happened until it began. */
  function LastEvent(s: State, run: Run, before: FileEvent): FileEvent
    requires ValidRun(s, run)
    decreases |run|
  {
    if run == [] then before
    else
      var e := EventOf(s, run[0].0, run[0].1);
      LastEvent(Act(s, run[0].0, run[0].1), run[1..], if e.Nothing? then before else e)
  }

  ghost predicate FileTells(file: LockFile, e: FileEvent, leftover: LockFile) {
    match e
    case Nothing => file == leftover
    case Emptied => file == Text([])
    case Written => file.Text? && file.words != []
  }

  lemma {:induction false} LastEventTells(s: State, run: Run, leftover: LockFile, before: FileEvent)
    requires ValidRun(s, run) && FileTells(s.file, before, leftover)
    ensures FileTells(After(s, run).file, LastEvent(s, run, before), leftover)
    decreases |run|
  {
    if run != [] {
      var e := EventOf(s, run[0].0, run[0].1);
      LastEventTells(Act(s, run[0].0, run[0].1), run[1..], leftover, if e.Nothing? then before else e);
    }
  }

  // ---------- safety over every run ----------

  /**
    After every run: at most one process is anywhere between acquiring and releasing; a process is
    in the lock body exactly when its depth is positive, and its depth is its nesting count.
   */
  lemma MutualExclusion(leftover: LockFile, run: Run, p: Pid, q: Pid)
    requires ValidRun(Init(leftover), run)
    ensures var s := After(Init(leftover), run);
      && (Holding(At(s, p).phase) && Holding(At(s, q).phase) ==> p == q)
      && (At(s, p).phase.InBody? <==> At(s, p).depth > 0)
      && At(s, p).depth == |At(s, p).frames|
  {
    RunKeepsInv(Init(leftover), run, leftover);
    var s := After(Init(leftover), run);
    assert ProcOk(s, p) && ProcOk(s, q);
  }

  /**
    In every reachable state, a step that takes the OS lock from its owner is the owner's own:
    the unlock after its outermost exit, an exception before its body began, or its crash. From
    inside the body only a crash does, and an exit leaves the body exactly when it is the outermost.
   */
  lemma OnlyOutermostExitReleases(leftover: LockFile, run: Run, p: Pid, a: Action, owner: Pid)
    requires ValidRun(Init(leftover), run)
    requires var s := After(Init(leftover), run); Enabled(s, p, a) && s.owner == Some(owner)
    ensures var s := After(Init(leftover), run);
      var t := Act(s, p, a);
      && (t.owner != Some(owner) <==> p == owner && (a.Unlock? || a.Abort? || a.Crash?))
      && (At(s, owner).phase.InBody? && t.owner != Some(owner) ==> a.Crash?)
      && (a.Exit? ==> p == owner && (At(t, p).phase.Releasing? <==> At(s, p).depth == 1))
  {
    RunKeepsInv(Init(leftover), run, leftover);
    var s := After(Init(leftover), run);
    assert ProcOk(s, p) && ProcOk(s, owner);
  }

  /** None of the steps with which `p` gives the lock up. */
  ghost predicate KeepsHold(run: Run, p: Pid) {
    forall i :: 0 <= i < |run| && run[i].0 == p ==> !run[i].1.Unlock? && !run[i].1.Abort? && !run[i].1.Crash?
  }

  /**
    From the flush until the release, over any run in which any number of contenders come and go:
    the holder stays the owner and the lock file holds exactly its pid.
   */
  lemma {:induction false} HolderFileStable(s: State, run: Run, leftover: LockFile, p: Pid)
    requires Inv(s, leftover) && Published(At(s, p).phase)
    requires ValidRun(s, run) && KeepsHold(run, p)
    ensures var t := After(s, run);
      Published(At(t, p).phase) && t.owner == Some(p) && t.file == Text([Number(p)])
    decreases |run|
  {
    assert ProcOk(s, p);
    if run != [] {
      var q, a := run[0].0, run[0].1;
      var t := Act(s, q, a);
      assert ProcOk(s, q);
      StepKeepsInv(s, q, a, leftover);
      assert ProcOk(t, p);
      forall i | 0 <= i < |run[1..]| && run[1..][i].0 == p
        ensures !run[1..][i].1.Unlock? && !run[1..][i].1.Abort? && !run[1..][i].1.Crash?
      {
        assert run[1..][i] == run[i + 1];
      }
      HolderFileStable(t, run[1..], leftover, p);
    }
  }

  ghost predicate StartsWith(file: LockFile, word: Word) {
    file.Text? && file.words != [] && file.words[0] == word
  }

  /**
    What a refused contender reads, after every run: the last completed writer's pid, or the first word the
    file was left with if nobody has written yet, and nothing if that is no number. It dies of an
    `IndexError` exactly when no write has followed the last truncation or creation of the file, or none of
    these happened and the file was left blank. It names the current owner whenever that has flushed.
   */
  lemma RefusedContenderReads(leftover: LockFile, run: Run, p: Pid)
    requires ValidRun(Init(leftover), run)
    requires Enabled(After(Init(leftover), run), p, ReadHolder)
    ensures var s := After(Init(leftover), run);
      var read := LookupHolder(s.file);
      var last := LastEvent(Init(leftover), run, Nothing);
      && (read.IndexError? <==> last.Emptied? || (last.Nothing? && leftover == Text([])))
      && (read.Holder? && s.lastWriter.Some? ==> read.pid == s.lastWriter.value)
      && (read.Holder? && s.lastWriter.None? ==> StartsWith(leftover, Number(read.pid)))
      && (read.NoPid? ==> s.lastWriter.None? && StartsWith(leftover, Junk))
      && (last.Nothing? && StartsWith(leftover, Junk) ==> read.NoPid?)
      && (forall q: Pid :: Published(At(s, q).phase) ==> read == Holder(q))
  {
    RunKeepsInv(Init(leftover), run, leftover);
    LastEventTells(Init(leftover), run, leftover, Nothing);
    var s := After(Init(leftover), run);
    assert ProcOk(s, p);
    forall q: Pid | Published(At(s, q).phase) ensures LookupHolder(s.file) == Holder(q) {
      assert ProcOk(s, q);
    }
  }

  lemma {:induction false} ValidAppend(s: State, a: Run, b: Run)
    requires ValidRun(s, a) && ValidRun(After(s, a), b)
    ensures ValidRun(s, a + b) && After(s, a + b) == After(After(s, a), b)
    decreases |a|
  {
    if a == [] {
      assert a + b == b;
    } else {
      assert (a + b)[1..] == a[1..] + b;
      ValidAppend(Act(s, a[0].0, a[0].1), a[1..], b);
    }
  }

  /** How far the first steps of a process towards the lock have taken it. */
  function Taking(steps: nat): Phase {
    if steps == 1 then Opened else if steps == 2 then Locked else Truncated
  }

  /**
    The docstring's `int | None` does not hold: a contender refused while the holder is between
    truncating and flushing finds a blank file and dies of an `IndexError` instead of reporting.
   */
  lemma RefusedContenderCanCrash(leftover: LockFile) returns (run: Run)
    ensures ValidRun(Init(leftover), run)
    ensures Enabled(After(Init(leftover), run), 2, ReadHolder)
    ensures LookupHolder(After(Init(leftover), run).file) == IndexError
  {
    var s := Init(leftover);
    run := [];
    var steps: Run := [(1, Enter), (1, Flock), (1, Truncate), (2, Enter), (2, Flock)];
    for i := 0 to 5
      invariant run == steps[..i] && ValidRun(s, run)
      invariant var t := After(s, run);
        && At(t, 1) == (if i == 0 then IDLE else Proc(Taking(i), 0, []))
        && At(t, 2) == (if i <= 3 then IDLE else Proc(if i == 4 then Opened else Refused, 0, []))
        && (t.owner == if i <= 1 then None else Some(1))
        && (i >= 3 ==> t.file == Text([]))
    {
      var next := [steps[i]];
      assert next[1..] == [];
      ValidAppend(s, run, next);
      assert steps[..i + 1] == steps[..i] + next;
      run := run + next;
    }
  }

  // ---------- re-entry and recovery ----------

  /** Leaving a nested `with` undoes entering it, whatever the depth; other processes see nothing. */
  lemma NestedEnterExit(leftover: LockFile, run: Run, p: Pid)
    requires ValidRun(Init(leftover), run)
    requires At(After(Init(leftover), run), p).phase.InBody?
    ensures var s := After(Init(leftover), run);
      && Enabled(s, p, Enter) && At(Act(s, p, Enter), p).phase.InBody?
      && Enabled(Act(s, p, Enter), p, Exit) && Act(Act(s, p, Enter), p, Exit) == s
  {
    RunKeepsInv(Init(leftover), run, leftover);
    var s := After(Init(leftover), run);
    assert ProcOk(s, p);
    var t := Act(s, p, Enter);
    assert At(t, p).frames[..|At(t, p).frames| - 1] == At(s, p).frames;
    assert Act(t, p, Exit).procs == s.procs;
  }

  function TakeSteps(p: Pid): Run {
    [(p, Enter), (p, Flock), (p, Truncate)] + PublishSteps(p)
  }

  function PublishSteps(p: Pid): Run {
    [(p, Write), (p, Flush), (p, StartBody)]
  }

  lemma PublishWorks(s: State, p: Pid)
    requires At(s, p) == Proc(Truncated, 0, [])
    ensures ValidRun(s, PublishSteps(p))
    ensures At(After(s, PublishSteps(p)), p) == Proc(InBody, 1, [Outermost])
    ensures After(s, PublishSteps(p)).file == Text([Number(p)])
  {
    var s1 := Act(s, p, Write);
    var s2 := Act(s1, p, Flush);
    Single(s2, p, StartBody);
    Cons(s1, p, Flush, [(p, StartBody)]);
    Cons(s, p, Write, [(p, Flush), (p, StartBody)]);
    assert [(p, Flush)] + [(p, StartBody)] == [(p, Flush), (p, StartBody)];
    assert [(p, Write)] + [(p, Flush), (p, StartBody)] == PublishSteps(p);
  }

  /** A lock without an owner, after crashes or not, can be taken by any process outside. */
  lemma FreeLockCanBeTaken(leftover: LockFile, run: Run, p: Pid)
    requires ValidRun(Init(leftover), run)
    requires After(Init(leftover), run).owner.None? && At(After(Init(leftover), run), p).phase.Outside?
    ensures var s := After(Init(leftover), run);
      && ValidRun(s, TakeSteps(p))
      && At(After(s, TakeSteps(p)), p) == Proc(InBody, 1, [Outermost])
      && After(s, TakeSteps(p)).file == Text([Number(p)])
  {
    RunKeepsInv(Init(leftover), run, leftover);
    var s := After(Init(leftover), run);
    assert ProcOk(s, p);
    var s1 := Act(s, p, Enter);
    var s2 := Act(s1, p, Flock);
    var s3 := Act(s2, p, Truncate);
    var tail := PublishSteps(p);
    PublishWorks(s3, p);
    Cons(s2, p, Truncate, tail);
    Cons(s1, p, Flock, [(p, Truncate)] + tail);
    Cons(s, p, Enter, [(p, Flock)] + ([(p, Truncate)] + tail));
    assert TakeSteps(p) == [(p, Enter)] + ([(p, Flock)] + ([(p, Truncate)] + tail));
  }

  /** A refused contender leaves no trace: it is outside again, and nothing else has changed. */
  lemma RefusedLeavesNoTrace(s: State, p: Pid, leftover: LockFile)
    requires Inv(s, leftover) && s.owner.Some? && At(s, p).phase.Outside?
    ensures var tried := [(p, Enter), (p, Flock), (p, ReadHolder)];
      ValidRun(s, tried) && After(s, tried) == s.(procs := s.procs[p := IDLE])
  {
    assert ProcOk(s, p) && ProcOk(s, s.owner.value);
    var s1 := Act(s, p, Enter);
    var s2 := Act(s1, p, Flock);
    Single(s2, p, ReadHolder);
    Cons(s1, p, Flock, [(p, ReadHolder)]);
    Cons(s, p, Enter, [(p, Flock), (p, ReadHolder)]);
    assert [(p, Flock)] + [(p, ReadHolder)] == [(p, Flock), (p, ReadHolder)];
    assert [(p, Enter)] + [(p, Flock), (p, ReadHolder)] == [(p, Enter), (p, Flock), (p, ReadHolder)];
    assert s2.procs[p := IDLE] == s.procs[p := IDLE];
  }

  /** A process may crash anywhere: its lock is then free, and it can come back outside, with nothing else changed. */
  lemma CrashFreesTheLock(s: State, p: Pid, leftover: LockFile)
    requires Inv(s, leftover) && !At(s, p).phase.Dead?
    ensures Enabled(s, p, Crash) && Enabled(Act(s, p, Crash), p, Respawn)
    ensures var back := Act(Act(s, p, Crash), p, Respawn);
      back == s.(procs := s.procs[p := IDLE], owner := if s.owner == Some(p) then None else s.owner)
  {
    assert Act(s, p, Crash).procs[p := IDLE] == s.procs[p := IDLE];
  }

  /** Steps of one process, none of them a crash. */
  ghost predicate OwnSteps(run: Run, p: Pid) {
    forall i :: 0 <= i < |run| ==> run[i].0 == p && !run[i].1.Crash?
  }

  /** Only `p`'s entry, the owner and nothing else differ, and `p` is outside with nothing entered. */
  ghost predicate LetGo(s: State, t: State, p: Pid) {
    t == s.(procs := s.procs[p := IDLE], owner := None)
  }

  /**
    The owner can always give the lock up by itself: while acquiring by an exception, and from any depth of
    the body by leaving its `with` blocks one by one and then unlocking. Nothing else is touched, and every
    process then finds the lock free.
   */
  lemma {:induction false} OwnerCanLetGo(s: State, p: Pid, leftover: LockFile) returns (run: Run)
    requires Inv(s, leftover) && s.owner == Some(p)
    ensures OwnSteps(run, p) && ValidRun(s, run) && LetGo(s, After(s, run), p)
    decreases |At(s, p).frames|, At(s, p).phase.InBody?
  {
    assert ProcOk(s, p);
    var proc := At(s, p);
    if proc.phase.InBody? {
      var t := Act(s, p, Exit);
      StepKeepsInv(s, p, Exit, leftover);
      var rest := OwnerCanLetGo(t, p, leftover);
      run := [(p, Exit)] + rest;
      Cons(s, p, Exit, rest);
      assert t.procs[p := IDLE] == s.procs[p := IDLE];
    } else {
      var a := if proc.phase.Releasing? then Unlock else Abort(false);
      run := [(p, a)];
      Single(s, p, a);
    }
  }

  lemma Single(s: State, p: Pid, a: Action)
    requires Enabled(s, p, a)
    ensures ValidRun(s, [(p, a)]) && After(s, [(p, a)]) == Act(s, p, a)
  {
    assert [(p, a)][1..] == [];
  }

  lemma Cons(s: State, p: Pid, a: Action, rest: Run)
    requires Enabled(s, p, a) && ValidRun(Act(s, p, a), rest)
    ensures ValidRun(s, [(p, a)] + rest) && After(s, [(p, a)] + rest) == After(Act(s, p, a), rest)
  {
    assert ([(p, a)] + rest)[1..] == rest;
  }
}
