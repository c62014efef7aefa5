/**
  Python callbacks run by the parallel engine with one shared error latch, against their
  sequential counterparts (python-wrapper/src/lib.rs).

  Each row's closure is three atomic sections: test the latch, call back, set the latch. The
  engine calls the closure once per row, in any order on any worker, and keeps results in row
  order; a schedule says whose turn each section is. The callback is deterministic, so a row's
  reply is fixed beforehand.
 */
module ParallelCallbacks {
  import opened DataModel

  // ---------- what a callback can answer ----------

  datatype PyErr =
    | Exception(id: nat)
    | RowListText
    | NotAListText
    | LengthText(got: nat, expected: nat, wording: Wording)

  datatype Wording = ParallelWording | SequentialWording

  datatype FilterReply =
    | FilterListFailed(cause: PyErr)
    | FilterRaised(raised: PyErr)
    | NotABool(extract: PyErr)
    | Keep(keep: bool)

  datatype MapReply =
    | MapListFailed(cause: PyErr)
    | MapRaised(raised: PyErr)
    | NotAList
    | Cells(cells: seq<Outcome<Value>>)

  datatype Outcome<+T> = Good(value: T) | Bad(error: PyErr)

  function FilterOutcome(reply: FilterReply, wording: Wording): Outcome<bool> {
    match reply
    case FilterListFailed(cause) => Bad(if wording.ParallelWording? then RowListText else cause)
    case FilterRaised(e) => Bad(e)
    case NotABool(e) => Bad(e)
    case Keep(b) => Good(b)
  }

  function MapOutcome(reply: MapReply, ncols: nat, wording: Wording): Outcome<Row> {
    match reply
    case MapListFailed(cause) => Bad(if wording.ParallelWording? then RowListText else cause)
    case MapRaised(e) => Bad(e)
    case NotAList => Bad(NotAListText)
    case Cells(cells) =>
      if |cells| != ncols then Bad(LengthText(|cells|, ncols, wording))
      else match Sequential(cells) case Ok(row) => Good(row) case Err(e) => Bad(e)
  }

  // ---------- sequential reference ----------

  /** Stop at the first bad row; otherwise all values, in row order. */
  function Sequential<T>(outcomes: seq<Outcome<T>>): Result<seq<T>, PyErr> {
    if outcomes == [] then Ok([])
    else
      match outcomes[0]
      case Bad(e) => Err(e)
      case Good(v) =>
        match Sequential(outcomes[1..])
        case Err(e) => Err(e)
        case Ok(vs) => Ok([v] + vs)
  }

  lemma {:induction false} SequentialExact<T>(outcomes: seq<Outcome<T>>)
    ensures Sequential(outcomes).Ok? <==> forall i :: 0 <= i < |outcomes| ==> outcomes[i].Good?
    ensures Sequential(outcomes).Ok? ==>
      var vs := Sequential(outcomes).value;
      |vs| == |outcomes| && forall i :: 0 <= i < |outcomes| ==> outcomes[i] == Good(vs[i])
    ensures Sequential(outcomes).Err? ==>
      exists j :: 0 <= j < |outcomes| && outcomes[j] == Bad(Sequential(outcomes).error)
               && forall i :: 0 <= i < j ==> outcomes[i].Good?
  {
    if outcomes != [] {
      SequentialExact(outcomes[1..]);
      if outcomes[0].Good? && Sequential(outcomes).Err? {
        var j :| 0 <= j < |outcomes[1..]| && outcomes[1..][j] == Bad(Sequential(outcomes).error)
              && forall i :: 0 <= i < j ==> outcomes[1..][i].Good?;
        assert outcomes[j + 1] == Bad(Sequential(outcomes).error);
        forall i | 0 <= i < j + 1 ensures outcomes[i].Good? {
          if i > 0 {
            assert outcomes[1..][i - 1].Good?;
          }
        }
      }
      if outcomes[0].Bad? {
        assert outcomes[0] == Bad(Sequential(outcomes).error);
      }
    }
  }

  lemma {:induction false} SequentialSnoc<T>(outcomes: seq<Outcome<T>>, last: Outcome<T>)
    ensures Sequential(outcomes + [last]) ==
      if Sequential(outcomes).Err? then Sequential(outcomes)
      else match last case Bad(e) => Err(e) case Good(v) => Ok(Sequential(outcomes).value + [v])
  {
    var all := outcomes + [last];
    if outcomes == [] {
      assert all[1..] == [];
      if last.Good? {
        assert [last.value] + [] == [] + [last.value];
      }
    } else {
      assert all[0] == outcomes[0] && all[1..] == outcomes[1..] + [last];
      SequentialSnoc(outcomes[1..], last);
      if outcomes[0].Good? && Sequential(outcomes[1..]).Ok? && last.Good? {
        var vs := Sequential(outcomes[1..]).value;
        assert [outcomes[0].value] + (vs + [last.value]) == [outcomes[0].value] + vs + [last.value];
      }
    }
  }

  lemma {:induction false} SequentialStops<T>(outcomes: seq<Outcome<T>>, n: nat)
    requires n <= |outcomes| && Sequential(outcomes[..n]).Err?
    ensures Sequential(outcomes) == Sequential(outcomes[..n])
    decreases |outcomes| - n
  {
    if n == |outcomes| {
      assert outcomes[..n] == outcomes;
    } else {
      assert outcomes[..n + 1] == outcomes[..n] + [outcomes[n]];
      SequentialSnoc(outcomes[..n], outcomes[n]);
      SequentialStops(outcomes, n + 1);
    }
  }

  /** One more iteration of a loop that stops at the first bad outcome. */
  lemma SequentialTurn<T>(outcomes: seq<Outcome<T>>, i: nat, vs: seq<T>)
    requires i < |outcomes| && Sequential(outcomes[..i]) == Ok(vs)
    ensures outcomes[i].Bad? ==> Sequential(outcomes) == Err(outcomes[i].error)
    ensures outcomes[i].Good? ==> Sequential(outcomes[..i + 1]) == Ok(vs + [outcomes[i].value])
  {
    assert outcomes[..i + 1] == outcomes[..i] + [outcomes[i]];
    SequentialSnoc(outcomes[..i], outcomes[i]);
    if outcomes[i].Bad? {
      SequentialStops(outcomes, i + 1);
    }
  }

  /** The cell-by-cell conversion loop of both mappers. */
  method ConvertRow(cells: seq<Outcome<Value>>) returns (r: Result<Row, PyErr>)
    ensures r == Sequential(cells)
  {
    var row: Row := [];
    for i := 0 to |cells|
      invariant Sequential(cells[..i]) == Ok(row)
    {
      SequentialTurn(cells, i, row);
      match cells[i] {
        case Bad(e) => return Err(e);
        case Good(v) => row := row + [v];
      }
    }
    assert cells[..|cells|] == cells;
    r := Ok(row);
  }

  // ---------- the interleaved machine ----------

  datatype Phase<+T> = Waiting | Admitted | Failing(error: PyErr) | Done(result: T)

  datatype State<+T> = State(latch: Option<PyErr>, phases: seq<Phase<T>>)

  function Start<T>(n: nat): State<T> {
    State(None, seq(n, _ => Waiting))
  }

  /** The next atomic section of row `i`. */
  function Step<T>(s: State<T>, i: nat, outcomes: seq<Outcome<T>>, skipped: T): State<T>
    requires i < |s.phases| == |outcomes|
  {
    match s.phases[i]
    case Waiting => s.(phases := s.phases[i := if s.latch.Some? then Done(skipped) else Admitted])
    case Admitted =>
      (match outcomes[i]
       case Good(v) => s.(phases := s.phases[i := Done(v)])
       case Bad(e) => s.(phases := s.phases[i := Failing(e)]))
    case Failing(e) => State(Some(e), s.phases[i := Done(skipped)])
    case Done(_) => s
  }

  ghost predicate IsSchedule(schedule: seq<nat>, n: nat) {
    forall k :: 0 <= k < |schedule| ==> schedule[k] < n
  }

  function Run<T>(s: State<T>, schedule: seq<nat>, outcomes: seq<Outcome<T>>, skipped: T): (r: State<T>)
    requires |s.phases| == |outcomes| && IsSchedule(schedule, |outcomes|)
    ensures |r.phases| == |outcomes|
    decreases |schedule|
  {
    if schedule == [] then s
    else Run(Step(s, schedule[0], outcomes, skipped), schedule[1..], outcomes, skipped)
  }

  ghost predicate Complete<T>(s: State<T>) {
    forall i :: 0 <= i < |s.phases| ==> s.phases[i].Done?
  }

  /** What holds after every prefix of every schedule. */
  ghost predicate Inv<T>(s: State<T>, outcomes: seq<Outcome<T>>, skipped: T) {
    && |s.phases| == |outcomes|
    && (s.latch.Some? ==> exists i :: 0 <= i < |outcomes| && outcomes[i] == Bad(s.latch.value))
    && (forall i :: 0 <= i < |outcomes| ==>
          match s.phases[i]
          case Waiting => true
          case Admitted => true
          case Failing(e) => outcomes[i] == Bad(e)
          case Done(v) => outcomes[i] == Good(v) || (s.latch.Some? && v == skipped))
  }

  lemma StepKeepsInv<T>(s: State<T>, i: nat, outcomes: seq<Outcome<T>>, skipped: T)
    requires i < |s.phases| && Inv(s, outcomes, skipped)
    ensures Inv(Step(s, i, outcomes, skipped), outcomes, skipped)
    ensures s.latch.Some? ==> Step(s, i, outcomes, skipped).latch.Some?
  {
    var t := Step(s, i, outcomes, skipped);
    if s.phases[i].Failing? {
      assert outcomes[i] == Bad(t.latch.value);
    } else {
      assert t.latch == s.latch;
    }
  }

  lemma {:induction false} RunKeepsInv<T>(s: State<T>, schedule: seq<nat>, outcomes: seq<Outcome<T>>, skipped: T)
    requires Inv(s, outcomes, skipped) && IsSchedule(schedule, |outcomes|)
    ensures Inv(Run(s, schedule, outcomes, skipped), outcomes, skipped)
    ensures s.latch.Some? ==> Run(s, schedule, outcomes, skipped).latch.Some?
    decreases |schedule|
  {
    if schedule != [] {
      StepKeepsInv(s, schedule[0], outcomes, skipped);
      RunKeepsInv(Step(s, schedule[0], outcomes, skipped), schedule[1..], outcomes, skipped);
    }
  }

  /** The answer read off a completed machine: the latch if set, else all results in row order. */
  function Answer<T>(s: State<T>): Result<seq<T>, PyErr>
    requires forall i :: 0 <= i < |s.phases| ==> s.phases[i].Done?
  {
    if s.latch.Some? then Err(s.latch.value)
    else Ok(seq(|s.phases|, i requires 0 <= i < |s.phases| => s.phases[i].result))
  }

  lemma OkIsSequential<T>(s: State<T>, outcomes: seq<Outcome<T>>, skipped: T)
    requires Inv(s, outcomes, skipped) && Complete(s) && s.latch.None?
    ensures Sequential(outcomes).Ok? && Answer(s) == Sequential(outcomes)
  {
    SequentialExact(outcomes);
    assert forall i :: 0 <= i < |outcomes| ==> outcomes[i] == Good(s.phases[i].result);
    assert Answer(s).value == Sequential(outcomes).value;
  }

  lemma ErrIsSomeFailure<T>(s: State<T>, outcomes: seq<Outcome<T>>, skipped: T)
    requires Inv(s, outcomes, skipped) && s.latch.Some?
    ensures Sequential(outcomes).Err?
    ensures exists i :: 0 <= i < |outcomes| && outcomes[i] == Bad(s.latch.value)
  {
    SequentialExact(outcomes);
    var i :| 0 <= i < |outcomes| && outcomes[i] == Bad(s.latch.value);
  }

  /**
    Every interleaving refines the sequential run: `Ok` exactly when it is, with the same results
    in the same order; an error is never lost, and the one reported is some failing row's.
   */
  lemma EveryScheduleRefinesSequential<T>(schedule: seq<nat>, outcomes: seq<Outcome<T>>, skipped: T)
    requires IsSchedule(schedule, |outcomes|)
    requires Complete(Run(Start(|outcomes|), schedule, outcomes, skipped))
    ensures var answer := Answer(Run(Start(|outcomes|), schedule, outcomes, skipped));
      && (answer.Ok? <==> Sequential(outcomes).Ok?)
      && (answer.Ok? ==> answer == Sequential(outcomes))
      && (answer.Err? ==> exists i :: 0 <= i < |outcomes| && outcomes[i] == Bad(answer.error))
  {
    var s := Run(Start(|outcomes|), schedule, outcomes, skipped);
    RunKeepsInv(Start(|outcomes|), schedule, outcomes, skipped);
    if s.latch.None? {
      OkIsSequential(s, outcomes, skipped);
    } else {
      ErrIsSomeFailure(s, outcomes, skipped);
    }
  }

  // ---------- schedules that complete ----------

  function Count(schedule: seq<nat>, i: nat): nat {
    if schedule == [] then 0 else (if schedule[0] == i then 1 else 0) + Count(schedule[1..], i)
  }

  function Remaining<T>(p: Phase<T>): nat {
    match p
    case Waiting => 3
    case Admitted => 2
    case Failing(_) => 1
    case Done(_) => 0
  }

  lemma {:induction false} Advances<T>(s: State<T>, schedule: seq<nat>, outcomes: seq<Outcome<T>>, skipped: T, i: nat)
    requires |s.phases| == |outcomes| && IsSchedule(schedule, |outcomes|) && i < |outcomes|
    ensures Count(schedule, i) >= Remaining(s.phases[i]) ==> Run(s, schedule, outcomes, skipped).phases[i].Done?
    decreases |schedule|
  {
    if schedule == [] {
      assert s.phases[i].Done? <==> Remaining(s.phases[i]) == 0;
    } else {
      Advances(Step(s, schedule[0], outcomes, skipped), schedule[1..], outcomes, skipped, i);
    }
  }

  /** Every row gets the turns its three sections can need. */
  ghost predicate ServesEveryRow(schedule: seq<nat>, n: nat) {
    IsSchedule(schedule, n) && forall i: nat :: i < n ==> Count(schedule, i) >= 3
  }

  lemma ServedSchedulesComplete<T>(schedule: seq<nat>, outcomes: seq<Outcome<T>>, skipped: T)
    requires ServesEveryRow(schedule, |outcomes|)
    ensures Complete(Run(Start(|outcomes|), schedule, outcomes, skipped))
  {
    forall i: nat | i < |outcomes| ensures Run(Start(|outcomes|), schedule, outcomes, skipped).phases[i].Done? {
      Advances(Start(|outcomes|), schedule, outcomes, skipped, i);
    }
  }

  // ---------- every failing row's error can be the reported one ----------

  function Thrice(n: nat): seq<nat> {
    if n == 0 then [] else Thrice(n - 1) + [n - 1, n - 1, n - 1]
  }

  lemma {:induction false} CountAppend(a: seq<nat>, b: seq<nat>, i: nat)
    ensures Count(a + b, i) == Count(a, i) + Count(b, i)
  {
    if a == [] {
      assert a + b == b;
    } else {
      assert (a + b)[1..] == a[1..] + b;
      CountAppend(a[1..], b, i);
    }
  }

  lemma CountTriple(k: nat, i: nat)
    ensures Count([k, k, k], i) == if i == k then 3 else 0
  {
    assert [k, k, k][1..] == [k, k] && [k, k][1..] == [k] && [k][1..] == [];
    assert Count([k], i) == if i == k then 1 else 0;
    assert Count([k, k], i) == if i == k then 2 else 0;
  }

  lemma {:induction false} ThriceServes(n: nat)
    ensures ServesEveryRow(Thrice(n), n)
  {
    if n > 0 {
      ThriceServes(n - 1);
      forall i: nat | i < n ensures Count(Thrice(n), i) >= 3 {
        CountAppend(Thrice(n - 1), [n - 1, n - 1, n - 1], i);
        CountTriple(n - 1, i);
      }
    }
  }

  /** With the latch set and no row inside its closure, the latch no longer changes. */
  lemma {:induction false} LatchFrozen<T>(s: State<T>, schedule: seq<nat>, outcomes: seq<Outcome<T>>, skipped: T)
    requires |s.phases| == |outcomes| && IsSchedule(schedule, |outcomes|)
    requires s.latch.Some? && forall i :: 0 <= i < |s.phases| ==> s.phases[i].Waiting? || s.phases[i].Done?
    ensures Run(s, schedule, outcomes, skipped).latch == s.latch
    decreases |schedule|
  {
    if schedule != [] {
      LatchFrozen(Step(s, schedule[0], outcomes, skipped), schedule[1..], outcomes, skipped);
    }
  }

  /** The reported error may be that of any failing row, not only of the first. */
  lemma EveryFailureCanBeReported<T>(outcomes: seq<Outcome<T>>, skipped: T, j: nat) returns (schedule: seq<nat>)
    requires j < |outcomes| && outcomes[j].Bad?
    ensures ServesEveryRow(schedule, |outcomes|)
    ensures Complete(Run(Start(|outcomes|), schedule, outcomes, skipped))
    ensures Answer(Run(Start(|outcomes|), schedule, outcomes, skipped)) == Err(outcomes[j].error)
  {
    var n := |outcomes|;
    schedule := [j, j, j] + Thrice(n);
    ThriceServes(n);
    forall i: nat | i < n ensures Count(schedule, i) >= 3 {
      CountAppend([j, j, j], Thrice(n), i);
    }
    ServedSchedulesComplete(schedule, outcomes, skipped);
    var s0 := Start<T>(n);
    var s1 := Step(s0, j, outcomes, skipped);
    var s2 := Step(s1, j, outcomes, skipped);
    var s3 := Step(s2, j, outcomes, skipped);
    assert schedule[1..] == [j, j] + Thrice(n);
    assert schedule[1..][1..] == [j] + Thrice(n);
    assert schedule[1..][1..][1..] == Thrice(n);
    assert Run(s0, schedule, outcomes, skipped) == Run(s1, schedule[1..], outcomes, skipped)
        == Run(s2, schedule[1..][1..], outcomes, skipped) == Run(s3, Thrice(n), outcomes, skipped);
    LatchFrozen(s3, Thrice(n), outcomes, skipped);
  }

  /** From the given state on, no turn of the schedule is a row's report. */
  ghost predicate NobodyReports<T>(s: State<T>, schedule: seq<nat>, outcomes: seq<Outcome<T>>, skipped: T)
    requires |s.phases| == |outcomes| && IsSchedule(schedule, |outcomes|)
    decreases |schedule|
  {
    schedule == [] ||
      (!s.phases[schedule[0]].Failing?
       && NobodyReports(Step(s, schedule[0], outcomes, skipped), schedule[1..], outcomes, skipped))
  }

  lemma {:induction false} LatchStays<T>(s: State<T>, schedule: seq<nat>, outcomes: seq<Outcome<T>>, skipped: T)
    requires |s.phases| == |outcomes| && IsSchedule(schedule, |outcomes|)
    requires NobodyReports(s, schedule, outcomes, skipped)
    ensures Run(s, schedule, outcomes, skipped).latch == s.latch
    decreases |schedule|
  {
    if schedule != [] {
      LatchStays(Step(s, schedule[0], outcomes, skipped), schedule[1..], outcomes, skipped);
    }
  }

  /** The error reported is that of the row that reported last: it overwrites whatever was there. */
  lemma LastReportWins<T>(s: State<T>, i: nat, rest: seq<nat>, outcomes: seq<Outcome<T>>, skipped: T)
    requires |s.phases| == |outcomes| && i < |outcomes| && IsSchedule(rest, |outcomes|)
    requires s.phases[i].Failing? && NobodyReports(Step(s, i, outcomes, skipped), rest, outcomes, skipped)
    ensures Run(s, [i] + rest, outcomes, skipped).latch == Some(s.phases[i].error)
  {
    assert ([i] + rest)[0] == i && ([i] + rest)[1..] == rest;
    LatchStays(Step(s, i, outcomes, skipped), rest, outcomes, skipped);
  }

  /** Under every schedule that serves all rows, the run ends with the sequential answer. */
  ghost predicate AlwaysSequential<T>(outcomes: seq<Outcome<T>>, skipped: T) {
    forall schedule :: ServesEveryRow(schedule, |outcomes|) ==>
      var s := Run(Start(|outcomes|), schedule, outcomes, skipped);
      Complete(s) && Answer(s) == Sequential(outcomes)
  }

  /**
    The parallel answer is the sequential one under every schedule, errors included, if and only if all
    failing rows fail with one error.
   */
  lemma AlwaysSequentialIff<T>(outcomes: seq<Outcome<T>>, skipped: T)
    ensures AlwaysSequential(outcomes, skipped) <==>
      forall i, j :: 0 <= i < |outcomes| && 0 <= j < |outcomes| && outcomes[i].Bad? && outcomes[j].Bad? ==>
        outcomes[i] == outcomes[j]
  {
    SequentialExact(outcomes);
    if forall i, j :: 0 <= i < |outcomes| && 0 <= j < |outcomes| && outcomes[i].Bad? && outcomes[j].Bad? ==>
         outcomes[i] == outcomes[j]
    {
      forall schedule | ServesEveryRow(schedule, |outcomes|)
        ensures var s := Run(Start(|outcomes|), schedule, outcomes, skipped);
          Complete(s) && Answer(s) == Sequential(outcomes)
      {
        ServedSchedulesComplete(schedule, outcomes, skipped);
        EveryScheduleRefinesSequential(schedule, outcomes, skipped);
      }
    } else {
      var i, j :| 0 <= i < |outcomes| && 0 <= j < |outcomes| && outcomes[i].Bad? && outcomes[j].Bad?
               && outcomes[i] != outcomes[j];
      var one := EveryFailureCanBeReported(outcomes, skipped, i);
      var two := EveryFailureCanBeReported(outcomes, skipped, j);
    }
  }

  // ---------- the closures, as they run ----------

  /** One parallel call: the shared latch and where each row's closure stands. */
  class ParallelCall<T> {
    const outcomes: seq<Outcome<T>>
    const skipped: T
    var latch: Option<PyErr>
    var phases: seq<Phase<T>>

    constructor (outcomes: seq<Outcome<T>>, skipped: T)
      ensures this.outcomes == outcomes && this.skipped == skipped
      ensures Snapshot() == Start(|outcomes|)
    {
      this.outcomes, this.skipped := outcomes, skipped;
      latch := None;
      phases := seq(|outcomes|, _ => Waiting);
    }

    function Snapshot(): State<T>
      reads this
    {
      State(latch, phases)
    }

    /** `if err_ref.lock().unwrap().is_some() { return .. }` */
    method TestLatch(i: nat)
      requires i < |phases| == |outcomes| && phases[i].Waiting?
      modifies this
      ensures Snapshot() == Step(old(Snapshot()), i, outcomes, skipped)
    {
      if latch.Some? {
        phases := phases[i := Done(skipped)];
      } else {
        phases := phases[i := Admitted];
      }
    }

    /** The call into Python and the reading of its answer; the latch is not held. */
    method CallBack(i: nat)
      requires i < |phases| == |outcomes| && phases[i].Admitted?
      modifies this`phases
      ensures Snapshot() == Step(old(Snapshot()), i, outcomes, skipped)
    {
      match outcomes[i] {
        case Good(v) => phases := phases[i := Done(v)];
        case Bad(e) => phases := phases[i := Failing(e)];
      }
    }

    /** `*err_ref.lock().unwrap() = Some(e)`: a later error overwrites an earlier one. */
    method SetLatch(i: nat)
      requires i < |phases| == |outcomes| && phases[i].Failing?
      modifies this
      ensures Snapshot() == Step(old(Snapshot()), i, outcomes, skipped)
    {
      latch := Some(phases[i].error);
      phases := phases[i := Done(skipped)];
    }

    /** The engine's run: each turn advances one row's closure by one section. */
    method RunSchedule(schedule: seq<nat>)
      requires |phases| == |outcomes| && IsSchedule(schedule, |outcomes|)
      modifies this
      ensures Snapshot() == Run(old(Snapshot()), schedule, outcomes, skipped)
    {
      assert schedule[0..] == schedule;
      for k := 0 to |schedule|
        invariant |phases| == |outcomes|
        invariant Run(Snapshot(), schedule[k..], outcomes, skipped)
               == Run(old(Snapshot()), schedule, outcomes, skipped)
      {
        var i := schedule[k];
        assert schedule[k..][1..] == schedule[k + 1..];
        match phases[i] {
          case Waiting => TestLatch(i);
          case Admitted => CallBack(i);
          case Failing(_) => SetLatch(i);
          case Done(_) =>
        }
      }
    }
  }

  // ---------- filter ----------

  function FilterOutcomes(replies: seq<FilterReply>, wording: Wording): (o: seq<Outcome<bool>>)
    ensures |o| == |replies| && forall i :: 0 <= i < |replies| ==> o[i] == FilterOutcome(replies[i], wording)
  {
    seq(|replies|, i requires 0 <= i < |replies| => FilterOutcome(replies[i], wording))
  }

  /** The sequential filter's answer: the first error, else the kept rows in order. */
  function Filtered(ds: DataSet, replies: seq<FilterReply>): Result<DataSet, PyErr>
    requires |replies| == |ds.rows|
  {
    SequentialExact(FilterOutcomes(replies, SequentialWording));
    match Sequential(FilterOutcomes(replies, SequentialWording))
    case Err(e) => Err(e)
    case Ok(keep) => Ok(DataSet(ds.schema, Kept(ds.rows, keep)))
  }

  /** The parallel closures put a text of their own in the place of a failure to build the row's list. */
  predicate ListFailure(cause: PyErr, wording: Wording, e: PyErr) {
    match wording
    case ParallelWording => e == RowListText
    case SequentialWording => e == cause
  }

  /** What a row complains of whose callback gave no plain answer. */
  ghost predicate FilterComplains(reply: FilterReply, wording: Wording, e: PyErr) {
    match reply
    case FilterListFailed(cause) => ListFailure(cause, wording, e)
    case FilterRaised(raised) => e == raised
    case NotABool(extract) => e == extract
    case Keep(_) => false
  }

  /** `out` is the rows at the positions `at`, which are those whose reply was true, in increasing order. */
  ghost predicate KeptAt(rows: seq<Row>, replies: seq<FilterReply>, out: seq<Row>, at: seq<nat>)
    requires |replies| == |rows|
  {
    && |at| == |out|
    && (forall i, j :: 0 <= i < j < |at| ==> at[i] < at[j])
    && (forall k: nat :: k in at <==> k < |rows| && replies[k] == Keep(true))
    && (forall i :: 0 <= i < |at| && at[i] < |rows| ==> out[i] == rows[at[i]])
  }

  /**
    The filter's answer on the replies themselves: under the same schema the rows whose reply was true,
    if every reply is a plain one; otherwise the complaint of the first row whose reply is not.
   */
  ghost predicate FilterAnswers(ds: DataSet, replies: seq<FilterReply>, r: Result<DataSet, PyErr>)
    requires |replies| == |ds.rows|
  {
    match r
    case Ok(out) =>
      && out.schema == ds.schema
      && (forall i :: 0 <= i < |replies| ==> replies[i].Keep?)
      && exists at :: KeptAt(ds.rows, replies, out.rows, at)
    case Err(e) =>
      exists j :: 0 <= j < |replies| && FilterComplains(replies[j], SequentialWording, e)
               && forall i :: 0 <= i < j ==> replies[i].Keep?
  }

  lemma FilterComplaint(reply: FilterReply, wording: Wording, e: PyErr)
    ensures FilterOutcome(reply, wording) == Bad(e) <==> FilterComplains(reply, wording, e)
  {
  }

  lemma FilteredAnswers(ds: DataSet, replies: seq<FilterReply>)
    requires |replies| == |ds.rows|
    ensures FilterAnswers(ds, replies, Filtered(ds, replies))
  {
    var outcomes := FilterOutcomes(replies, SequentialWording);
    var r := Sequential(outcomes);
    SequentialExact(outcomes);
    if r.Ok? {
      var at := KeptArePicked(ds.rows, r.value);
      forall i | 0 <= i < |replies| ensures replies[i] == Keep(r.value[i]) {
        assert outcomes[i] == Good(r.value[i]);
      }
      assert KeptAt(ds.rows, replies, Kept(ds.rows, r.value), at);
    } else {
      var j :| 0 <= j < |outcomes| && outcomes[j] == Bad(r.error) && forall i :: 0 <= i < j ==> outcomes[i].Good?;
      FilterComplaint(replies[j], SequentialWording, r.error);
      forall i | 0 <= i < j ensures replies[i].Keep? {
        assert outcomes[i].Good?;
      }
    }
  }

  /** Some row's bad outcome in a parallel run is what it complains of. */
  lemma FilterFailureComplains(replies: seq<FilterReply>, e: PyErr)
    requires exists i :: 0 <= i < |replies| && FilterOutcome(replies[i], ParallelWording) == Bad(e)
    ensures exists i :: 0 <= i < |replies| && FilterComplains(replies[i], ParallelWording, e)
    ensures !(forall i :: 0 <= i < |replies| ==> replies[i].Keep?)
  {
    var i :| 0 <= i < |replies| && FilterOutcome(replies[i], ParallelWording) == Bad(e);
    FilterComplaint(replies[i], ParallelWording, e);
  }

  /** `processing_filter`: the loop over rows, stopping at the first error. */
  method ProcessingFilter(ds: DataSet, replies: seq<FilterReply>) returns (r: Result<DataSet, PyErr>)
    requires |replies| == |ds.rows|
    ensures r == Filtered(ds, replies)
    ensures FilterAnswers(ds, replies, r)
  {
    FilteredAnswers(ds, replies);
    ghost var outcomes := FilterOutcomes(replies, SequentialWording);
    ghost var keep: seq<bool> := [];
    var rows: seq<Row> := [];
    for i := 0 to |ds.rows|
      invariant |keep| == i && Sequential(outcomes[..i]) == Ok(keep)
      invariant rows == Kept(ds.rows[..i], keep)
    {
      assert ds.rows[..i + 1] == ds.rows[..i] + [ds.rows[i]];
      SequentialTurn(outcomes, i, keep);
      match FilterOutcome(replies[i], SequentialWording) {
        case Bad(e) =>
          return Err(e);
        case Good(b) =>
          KeptSnoc(ds.rows[..i], keep, ds.rows[i], b);
          if b {
            rows := rows + [ds.rows[i]];
          }
          keep := keep + [b];
      }
    }
    assert ds.rows[..|ds.rows|] == ds.rows && outcomes[..|outcomes|] == outcomes;
    r := Ok(DataSet(ds.schema, rows));
  }

  /** The two wordings differ in error values only. */
  lemma {:induction false} WordingOnlyChangesErrors<T>(a: seq<Outcome<T>>, b: seq<Outcome<T>>)
    requires |a| == |b| && forall i :: 0 <= i < |a| ==> (a[i].Good? || b[i].Good? ==> a[i] == b[i])
    ensures Sequential(a).Ok? <==> Sequential(b).Ok?
    ensures Sequential(a).Ok? ==> Sequential(a) == Sequential(b)
  {
    SequentialExact(a);
    SequentialExact(b);
    if Sequential(a).Ok? {
      assert Sequential(a).value == Sequential(b).value;
    }
  }

  /**
    `filter_parallel`, under any schedule that serves every row: `Ok` exactly when the sequential
    filter is, with the same dataset, so with the rows whose reply was true; otherwise what some row
    complains of.
   */
  method FilterParallel(ds: DataSet, replies: seq<FilterReply>, schedule: seq<nat>) returns (r: Result<DataSet, PyErr>)
    requires |replies| == |ds.rows| && ServesEveryRow(schedule, |ds.rows|)
    ensures r.Ok? <==> Filtered(ds, replies).Ok?
    ensures r.Ok? ==> r == Filtered(ds, replies) && FilterAnswers(ds, replies, r)
    ensures r.Ok? <==> forall i :: 0 <= i < |replies| ==> replies[i].Keep?
    ensures r.Err? ==> exists i :: 0 <= i < |replies| && FilterOutcome(replies[i], ParallelWording) == Bad(r.error)
    ensures r.Err? ==> exists i :: 0 <= i < |replies| && FilterComplains(replies[i], ParallelWording, r.error)
  {
    FilteredAnswers(ds, replies);
    var outcomes := FilterOutcomes(replies, ParallelWording);
    var call := new ParallelCall(outcomes, false);
    call.RunSchedule(schedule);
    ServedSchedulesComplete(schedule, outcomes, false);
    EveryScheduleRefinesSequential(schedule, outcomes, false);
    WordingOnlyChangesErrors(outcomes, FilterOutcomes(replies, SequentialWording));
    assert Complete(call.Snapshot());
    if call.latch.Some? {
      FilterFailureComplains(replies, call.latch.value);
      return Err(call.latch.value);
    }
    ghost var keep := Answer(call.Snapshot()).value;
    var rows := KeepRows(ds.rows, call.phases, keep);
    r := Ok(DataSet(ds.schema, rows));
  }

  /** The engine's own part: the rows whose closure returned true. */
  method KeepRows(rows: seq<Row>, results: seq<Phase<bool>>, ghost keep: seq<bool>) returns (out: seq<Row>)
    requires |keep| == |results| == |rows| && forall i :: 0 <= i < |results| ==> results[i] == Done(keep[i])
    ensures out == Kept(rows, keep)
  {
    out := [];
    for i := 0 to |rows|
      invariant out == Kept(rows[..i], keep[..i])
    {
      assert rows[..i + 1] == rows[..i] + [rows[i]] && keep[..i + 1] == keep[..i] + [keep[i]];
      KeptSnoc(rows[..i], keep[..i], rows[i], keep[i]);
      if results[i].result {
        out := out + [rows[i]];
      }
    }
    assert rows[..|rows|] == rows && keep[..|keep|] == keep;
  }

  // ---------- map ----------

  function MapOutcomes(replies: seq<MapReply>, ncols: nat, wording: Wording): (o: seq<Outcome<Row>>)
    ensures |o| == |replies| && forall i :: 0 <= i < |replies| ==> o[i] == MapOutcome(replies[i], ncols, wording)
  {
    seq(|replies|, i requires 0 <= i < |replies| => MapOutcome(replies[i], ncols, wording))
  }

  /** The sequential mapper's answer: the first error, else the new rows in order. */
  function Mapped(ds: DataSet, replies: seq<MapReply>): Result<DataSet, PyErr>
    requires |replies| == |ds.rows|
  {
    match Sequential(MapOutcomes(replies, |ds.schema.fields|, SequentialWording))
    case Err(e) => Err(e)
    case Ok(rows) => Ok(DataSet(ds.schema, rows))
  }

  /** The first cell that does not convert, and its error. */
  ghost predicate FirstBadCell(cells: seq<Outcome<Value>>, e: PyErr) {
    exists c :: 0 <= c < |cells| && cells[c] == Bad(e) && forall i :: 0 <= i < c ==> cells[i].Good?
  }

  /** What a row complains of whose callback gave no convertible list of the right length. */
  ghost predicate MapComplains(reply: MapReply, ncols: nat, wording: Wording, e: PyErr) {
    match reply
    case MapListFailed(cause) => ListFailure(cause, wording, e)
    case MapRaised(raised) => e == raised
    case NotAList => e == NotAListText
    case Cells(cells) =>
      (|cells| != ncols && e == LengthText(|cells|, ncols, wording)) || (|cells| == ncols && FirstBadCell(cells, e))
  }

  /** The row that a reply's cells make, one by one. */
  ghost predicate MapsTo(reply: MapReply, ncols: nat, row: Row) {
    && reply.Cells? && |reply.cells| == |row| == ncols
    && forall c :: 0 <= c < ncols ==> reply.cells[c] == Good(row[c])
  }

  ghost predicate Maps(reply: MapReply, ncols: nat) {
    reply.Cells? && |reply.cells| == ncols && forall c :: 0 <= c < ncols ==> reply.cells[c].Good?
  }

  /**
    The mapper's answer on the replies themselves: under the same schema, row by row, the cells each reply
    holds, if all can be read; otherwise the complaint of the first row whose reply cannot.
   */
  ghost predicate MapAnswers(ds: DataSet, replies: seq<MapReply>, r: Result<DataSet, PyErr>)
    requires |replies| == |ds.rows|
  {
    var n := |ds.schema.fields|;
    match r
    case Ok(out) =>
      && out.schema == ds.schema && |out.rows| == |ds.rows|
      && forall i :: 0 <= i < |replies| ==> MapsTo(replies[i], n, out.rows[i])
    case Err(e) =>
      exists j :: 0 <= j < |replies| && MapComplains(replies[j], n, SequentialWording, e)
               && forall i :: 0 <= i < j ==> Maps(replies[i], n)
  }

  lemma MapOutcomeMeans(reply: MapReply, ncols: nat, wording: Wording)
    ensures match MapOutcome(reply, ncols, wording)
      case Good(row) => Maps(reply, ncols) && MapsTo(reply, ncols, row)
      case Bad(e) => !Maps(reply, ncols) && MapComplains(reply, ncols, wording, e)
  {
    if reply.Cells? {
      SequentialExact(reply.cells);
    }
  }

  lemma MappedAnswers(ds: DataSet, replies: seq<MapReply>)
    requires |replies| == |ds.rows|
    ensures MapAnswers(ds, replies, Mapped(ds, replies))
    ensures Mapped(ds, replies).Ok? <==> forall i :: 0 <= i < |replies| ==> Maps(replies[i], |ds.schema.fields|)
  {
    var n := |ds.schema.fields|;
    var outcomes := MapOutcomes(replies, n, SequentialWording);
    SequentialExact(outcomes);
    forall i | 0 <= i < |replies|
      ensures outcomes[i].Good? <==> Maps(replies[i], n)
      ensures outcomes[i].Good? ==> MapsTo(replies[i], n, outcomes[i].value)
      ensures outcomes[i].Bad? ==> MapComplains(replies[i], n, SequentialWording, outcomes[i].error)
    {
      MapOutcomeMeans(replies[i], n, SequentialWording);
    }
  }

  /** A mapped row has one cell per field, so a mapped dataset is rectangular. */
  lemma MappedIsRectangular(ds: DataSet, replies: seq<MapReply>)
    requires |replies| == |ds.rows| && Mapped(ds, replies).Ok?
    ensures Mapped(ds, replies).value.Rectangular()
  {
    var outcomes := MapOutcomes(replies, |ds.schema.fields|, SequentialWording);
    var out := Mapped(ds, replies).value;
    SequentialExact(outcomes);
    forall i | 0 <= i < |out.rows| ensures |out.rows[i]| == |ds.schema.fields| {
      assert outcomes[i] == Good(out.rows[i]);
      SequentialExact(replies[i].cells);
    }
  }

  /** `processing_map`: the loop over rows, with the cell loop inside. */
  method ProcessingMap(ds: DataSet, replies: seq<MapReply>) returns (r: Result<DataSet, PyErr>)
    requires |replies| == |ds.rows|
    ensures r == Mapped(ds, replies)
    ensures MapAnswers(ds, replies, r)
  {
    MappedAnswers(ds, replies);
    var n := |ds.schema.fields|;
    ghost var outcomes := MapOutcomes(replies, n, SequentialWording);
    var rows: seq<Row> := [];
    for i := 0 to |ds.rows|
      invariant Sequential(outcomes[..i]) == Ok(rows)
    {
      SequentialTurn(outcomes, i, rows);
      match replies[i] {
        case MapListFailed(e) => return Err(e);
        case MapRaised(e) => return Err(e);
        case NotAList => return Err(NotAListText);
        case Cells(cells) =>
          if |cells| != n {
            return Err(LengthText(|cells|, n, SequentialWording));
          }
          var row := ConvertRow(cells);
          if row.Err? {
            return Err(row.error);
          }
          rows := rows + [row.value];
      }
    }
    assert outcomes[..|outcomes|] == outcomes;
    r := Ok(DataSet(ds.schema, rows));
  }

  /**
    `map_parallel`, under any schedule that serves every row: `Ok` exactly when the sequential
    mapper is, with the same dataset; otherwise what some row complains of. Every result the
    engine sees, null rows included, has one cell per field, so its length check never panics.
   */
  method MapParallel(ds: DataSet, replies: seq<MapReply>, schedule: seq<nat>) returns (r: Result<DataSet, PyErr>)
    requires |replies| == |ds.rows| && ServesEveryRow(schedule, |ds.rows|)
    ensures r.Ok? <==> Mapped(ds, replies).Ok?
    ensures r.Ok? ==> r == Mapped(ds, replies) && MapAnswers(ds, replies, r)
    ensures r.Ok? <==> forall i :: 0 <= i < |replies| ==> Maps(replies[i], |ds.schema.fields|)
    ensures r.Err? ==>
      exists i :: 0 <= i < |replies| && MapOutcome(replies[i], |ds.schema.fields|, ParallelWording) == Bad(r.error)
    ensures r.Err? ==>
      exists i :: 0 <= i < |replies| && MapComplains(replies[i], |ds.schema.fields|, ParallelWording, r.error)
  {
    MappedAnswers(ds, replies);
    var n := |ds.schema.fields|;
    var nullRow: Row := seq(n, _ => Null);
    var outcomes := MapOutcomes(replies, n, ParallelWording);
    var call := new ParallelCall(outcomes, nullRow);
    call.RunSchedule(schedule);
    ServedSchedulesComplete(schedule, outcomes, nullRow);
    EveryScheduleRefinesSequential(schedule, outcomes, nullRow);
    WordingOnlyChangesErrors(outcomes, MapOutcomes(replies, n, SequentialWording));
    EngineNeverPanics(schedule, replies, n, nullRow);
    assert Complete(call.Snapshot());
    var rows, results := [], call.phases;
    for i := 0 to |ds.rows|
      invariant |rows| == i && forall j :: 0 <= j < i ==> rows[j] == results[j].result
    {
      assert |results[i].result| == n;
      rows := rows + [results[i].result];
    }
    if call.latch.Some? {
      ghost var i :| 0 <= i < |replies| && MapOutcome(replies[i], n, ParallelWording) == Bad(call.latch.value);
      MapOutcomeMeans(replies[i], n, ParallelWording);
      return Err(call.latch.value);
    }
    assert rows == Answer(call.Snapshot()).value;
    r := Ok(DataSet(ds.schema, rows));
  }

  /** Whatever the schedule, every row the mapper closure returns has the schema's width. */
  lemma EngineNeverPanics(schedule: seq<nat>, replies: seq<MapReply>, n: nat, nullRow: Row)
    requires IsSchedule(schedule, |replies|) && |nullRow| == n
    ensures var s := Run(Start(|replies|), schedule, MapOutcomes(replies, n, ParallelWording), nullRow);
      forall i :: 0 <= i < |replies| && s.phases[i].Done? ==> |s.phases[i].result| == n
  {
    var outcomes := MapOutcomes(replies, n, ParallelWording);
    var s := Run(Start(|replies|), schedule, outcomes, nullRow);
    RunKeepsInv(Start(|replies|), schedule, outcomes, nullRow);
    forall i | 0 <= i < |replies| && s.phases[i].Done? ensures |s.phases[i].result| == n {
      if outcomes[i] == Good(s.phases[i].result) {
        SequentialExact(replies[i].cells);
      }
    }
  }
}
