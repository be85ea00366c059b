/**
 Process ownership and cancellation (`NextestRun`, scripts/run_nextest.py): any number of
 `command` threads and outside cancellations, interleaved at the sections that hold the lock.
 */
module NextestRun {
  import opened Options

  type Thread = nat
  type Process = nat

  /**
   Where a `command` call stands. It has ended when it is `Done`, `Unclosed` because closing its
   process raised an error before the process was taken off the list, or `Refused` because it could
   not even record itself. `failed` says that the command had failed before it came to closing.
   */
  datatype Stage =
    | Pending
    | Running(process: Process)
    | Failing(owner: Option<Process>)
    | Closing(owner: Option<Process>, failed: bool)
    | Done(failed: bool)
    | Unclosed(process: Process, failed: bool)
    | Refused

  datatype State = State(
    cancelled: bool,
    processes: seq<Process>,
    threads: map<Thread, Stage>,
    launched: set<Process>,
    stopped: set<Process>,
    released: set<Process>)

  function Owner(stage: Stage): Option<Process> {
    match stage
    case Pending => None
    case Running(p) => Some(p)
    case Failing(owner) => owner
    case Closing(owner, _) => owner
    case Done(_) => None
    case Unclosed(p, _) => Some(p)
    case Refused => None
  }

  predicate Ended(stage: Stage) {
    stage.Done? || stage.Unclosed? || stage.Refused?
  }

  /** The call raised an error to its caller. */
  predicate Raised(stage: Stage) {
    (stage.Done? && stage.failed) || stage.Unclosed? || stage.Refused?
  }

  datatype Step =
    | Begin(thread: Thread)
    | BeginFails(thread: Thread)
    | Launch(thread: Thread, process: Process)
    | LaunchFails(thread: Thread)
    | Complete(thread: Thread)
    | RunFails(thread: Thread)
    | CancelAfterFailure(thread: Thread)
    | Release(thread: Thread)
    | CloseFails(thread: Thread)
    | CancelOutside

  predicate At(s: State, t: Thread, stage: Stage) {
    t in s.threads && s.threads[t] == stage
  }

  /** A step is possible when its thread is at the matching place; a new process is a fresh one. */
  predicate Enabled(s: State, step: Step) {
    match step
    case Begin(t) => t !in s.threads
    case BeginFails(t) => t !in s.threads
    case Launch(t, p) => At(s, t, Pending) && p !in s.launched
    case LaunchFails(t) => At(s, t, Pending)
    case Complete(t) => t in s.threads && s.threads[t].Running?
    case RunFails(t) => t in s.threads && s.threads[t].Running?
    case CancelAfterFailure(t) => t in s.threads && s.threads[t].Failing?
    case Release(t) => t in s.threads && s.threads[t].Closing?
    case CloseFails(t) => t in s.threads && s.threads[t].Closing? && s.threads[t].owner.Some?
    case CancelOutside => true
  }

  function RemoveFirst(ps: seq<Process>, p: Process): seq<Process> {
    if ps == [] then [] else if ps[0] == p then ps[1..] else [ps[0]] + RemoveFirst(ps[1..], p)
  }

  /** `cancel`: set the flag and stop every owned process, all under the lock. */
  function Cancelled(s: State): State {
    s.(cancelled := true, stopped := s.stopped + set p | p in s.processes)
  }

  function Move(s: State, t: Thread, stage: Stage): State {
    s.(threads := s.threads[t := stage])
  }

  function After(s: State, step: Step): State
    requires Enabled(s, step)
  {
    match step
    case Begin(t) => Move(s, t, Pending)
    case BeginFails(t) => Move(s, t, Refused)
    case Launch(t, p) =>
      if s.cancelled then Move(s, t, Failing(None))
      else Move(s.(launched := s.launched + {p}, processes := s.processes + [p]), t, Running(p))
    case LaunchFails(t) => Move(s, t, Failing(None))
    case Complete(t) => Move(s, t, Closing(Some(s.threads[t].process), false))
    case RunFails(t) => Move(s, t, Failing(Some(s.threads[t].process)))
    case CancelAfterFailure(t) => Move(Cancelled(s), t, Closing(s.threads[t].owner, true))
    case Release(t) =>
      var done := Move(s, t, Done(s.threads[t].failed));
      var owner := s.threads[t].owner;
      if owner.None? then done
      else done.(processes := RemoveFirst(s.processes, owner.value), released := s.released + {owner.value})
    case CloseFails(t) => Move(s, t, Unclosed(s.threads[t].owner.value, s.threads[t].failed))
    case CancelOutside => Cancelled(s)
  }

  // --- The invariant ---

  ghost predicate Distinct(ps: seq<Process>) {
    forall i, j :: 0 <= i < j < |ps| ==> ps[i] != ps[j]
  }

  predicate Owns(threads: map<Thread, Stage>, t: Thread, p: Process) {
    t in threads && Owner(threads[t]) == Some(p)
  }

  /** Every owned process belongs to exactly one thread, and a thread's process is owned. */
  ghost predicate Owned(threads: map<Thread, Stage>, processes: seq<Process>) {
    && Distinct(processes)
    && (forall t, p :: Owns(threads, t, p) ==> p in processes)
    && (forall t, u, p :: Owns(threads, t, p) && Owns(threads, u, p) ==> t == u)
    && (forall p :: p in processes ==> exists t :: Owns(threads, t, p))
  }

  /** A launched process is owned until its thread releases it. */
  ghost predicate Accounted(processes: seq<Process>, launched: set<Process>, released: set<Process>) {
    && (forall p :: p in launched <==> p in processes || p in released)
    && (forall p :: p in processes ==> p !in released)
  }

  /** The command failed before closing its process, and so it has called `cancel`. */
  predicate HasFailed(stage: Stage) {
    (stage.Done? || stage.Closing? || stage.Unclosed?) && stage.failed
  }

  ghost predicate Inv(s: State) {
    && Owned(s.threads, s.processes)
    && Accounted(s.processes, s.launched, s.released)
    && (s.cancelled ==> forall p :: p in s.processes ==> p in s.stopped)
    && (forall t :: t in s.threads && HasFailed(s.threads[t]) ==> s.cancelled)
  }

  lemma {:induction false} RemoveFirstMembers(ps: seq<Process>, p: Process)
    requires Distinct(ps)
    ensures Distinct(RemoveFirst(ps, p))
    ensures forall q :: q in RemoveFirst(ps, p) <==> q in ps && q != p
  {
    if ps != [] && ps[0] != p {
      RemoveFirstMembers(ps[1..], p);
      var rest := RemoveFirst(ps[1..], p);
      assert forall q :: q in ps <==> q == ps[0] || q in ps[1..];
      assert ps[0] !in rest;
    } else if ps != [] {
      assert forall q :: q in ps <==> q == ps[0] || q in ps[1..];
    }
  }

  /** Moving a thread that keeps its process changes nothing about ownership. */
  lemma MoveKeepsOwned(threads: map<Thread, Stage>, t: Thread, stage: Stage, processes: seq<Process>)
    requires Owned(threads, processes)
    requires Owner(stage) == if t in threads then Owner(threads[t]) else None
    ensures Owned(threads[t := stage], processes)
  {
    var after := threads[t := stage];
    assert forall u, p :: Owns(after, u, p) <==> Owns(threads, u, p);
    forall p | p in processes
      ensures exists u :: Owns(after, u, p)
    {
      var u :| Owns(threads, u, p);
      assert Owns(after, u, p);
    }
  }

  lemma LaunchKeepsOwned(threads: map<Thread, Stage>, t: Thread, p: Process, processes: seq<Process>)
    requires Owned(threads, processes) && t in threads && Owner(threads[t]).None? && p !in processes
    ensures Owned(threads[t := Running(p)], processes + [p])
  {
    var after := threads[t := Running(p)];
    assert forall u, q :: Owns(after, u, q) <==> (u == t && q == p) || Owns(threads, u, q);
    forall q | q in processes + [p]
      ensures exists u :: Owns(after, u, q)
    {
      if q == p {
        assert Owns(after, t, q);
      } else {
        var u :| Owns(threads, u, q);
        assert Owns(after, u, q);
      }
    }
  }

  lemma ReleaseKeepsOwned(threads: map<Thread, Stage>, t: Thread, p: Process, failed: bool, processes: seq<Process>)
    requires Owned(threads, processes) && Owns(threads, t, p)
    ensures Owned(threads[t := Done(failed)], RemoveFirst(processes, p))
  {
    var after := threads[t := Done(failed)];
    RemoveFirstMembers(processes, p);
    assert forall u, q :: Owns(after, u, q) <==> u != t && Owns(threads, u, q);
    forall q | q in RemoveFirst(processes, p)
      ensures exists u :: Owns(after, u, q)
    {
      var u :| Owns(threads, u, q);
      assert Owns(after, u, q);
    }
  }

  lemma StepKeepsInv(s: State, step: Step)
    requires Inv(s) && Enabled(s, step)
    ensures Inv(After(s, step))
  {
    hide Owned;
    match step
    case Begin(t) => MoveKeepsOwned(s.threads, t, Pending, s.processes);
    case BeginFails(t) => MoveKeepsOwned(s.threads, t, Refused, s.processes);
    case Launch(t, p) =>
      if s.cancelled {
        MoveKeepsOwned(s.threads, t, Failing(None), s.processes);
      } else {
        assert p !in s.processes;
        LaunchKeepsOwned(s.threads, t, p, s.processes);
      }
    case LaunchFails(t) => MoveKeepsOwned(s.threads, t, Failing(None), s.processes);
    case Complete(t) => MoveKeepsOwned(s.threads, t, Closing(Some(s.threads[t].process), false), s.processes);
    case RunFails(t) => MoveKeepsOwned(s.threads, t, Failing(Some(s.threads[t].process)), s.processes);
    case CancelAfterFailure(t) => MoveKeepsOwned(s.threads, t, Closing(s.threads[t].owner, true), s.processes);
    case Release(t) =>
      var owner := s.threads[t].owner;
      if owner.None? {
        MoveKeepsOwned(s.threads, t, Done(s.threads[t].failed), s.processes);
      } else {
        ReleaseKeepsOwned(s.threads, t, owner.value, s.threads[t].failed, s.processes);
        OwnedIsDistinct(s.threads, s.processes, t, owner.value);
        RemoveFirstMembers(s.processes, owner.value);
      }
    case CloseFails(t) =>
      MoveKeepsOwned(s.threads, t, Unclosed(s.threads[t].owner.value, s.threads[t].failed), s.processes);
    case CancelOutside =>
  }

  lemma OwnedIsDistinct(threads: map<Thread, Stage>, processes: seq<Process>, t: Thread, p: Process)
    requires Owned(threads, processes) && Owns(threads, t, p)
    ensures Distinct(processes) && p in processes
  {
  }

  // --- Executions ---

  ghost predicate Reaches(s: State, steps: seq<Step>, s': State)
    decreases |steps|
  {
    if steps == [] then s == s' else Enabled(s, steps[0]) && Reaches(After(s, steps[0]), steps[1..], s')
  }

  const Initial := State(false, [], map[], {}, {}, {})

  lemma {:induction false} ExecutionKeepsInv(s: State, steps: seq<Step>, s': State)
    requires Inv(s) && Reaches(s, steps, s')
    ensures Inv(s')
    decreases |steps|
  {
    if steps != [] {
      StepKeepsInv(s, steps[0]);
      ExecutionKeepsInv(After(s, steps[0]), steps[1..], s');
    }
  }

  /** Once cancellation is set it stays set, and nothing is launched any more. */
  lemma {:induction false} NothingLaunchedAfterCancel(s: State, steps: seq<Step>, s': State)
    requires s.cancelled && Reaches(s, steps, s')
    ensures s'.cancelled && s'.launched == s.launched
    decreases |steps|
  {
    if steps != [] {
      NothingLaunchedAfterCancel(After(s, steps[0]), steps[1..], s');
    }
  }

  /** A waiting command launches its process, and owns it, exactly when the run is not cancelled. */
  lemma LaunchExactly(s: State, t: Thread, p: Process)
    requires At(s, t, Pending) && p !in s.launched
    ensures Enabled(s, Launch(t, p))
    ensures var s' := After(s, Launch(t, p));
            && (p in s'.launched <==> !s.cancelled)
            && (p in s'.processes <==> !s.cancelled || p in s.processes)
            && (!s.cancelled ==> Owns(s'.threads, t, p))
            && (s.cancelled ==> s'.processes == s.processes && s'.launched == s.launched)
  {
  }

  /** `cancel` stops exactly the processes in the list, whoever owns them, and takes none off it. */
  lemma CancelStopsListed(s: State, p: Process)
    ensures var s' := After(s, CancelOutside);
            && s'.cancelled && (p in s'.stopped <==> p in s.stopped || p in s.processes)
            && s'.processes == s.processes && s'.threads == s.threads
  {
  }

  /** The command has gone wrong: it is about to cancel the run, or has done so. */
  predicate Troubled(stage: Stage) {
    stage.Failing? || HasFailed(stage)
  }

  /** The command came through and only has its process to close, or has ended. */
  predicate CameThrough(stage: Stage) {
    (stage.Done? || stage.Closing? || stage.Unclosed?) && !stage.failed
  }

  lemma StepKeepsOutcome(s: State, step: Step, t: Thread)
    requires Enabled(s, step)
    requires step == RunFails(t) || step == LaunchFails(t) || (t in s.threads && Troubled(s.threads[t]))
    ensures t in After(s, step).threads && Troubled(After(s, step).threads[t])
  {
  }

  /** A launch or a run that fails is never lost: once the command has ended, it raised and the run is cancelled. */
  lemma {:induction false} FailureIsNeverLost(s: State, steps: seq<Step>, s': State, t: Thread)
    requires Inv(s) && Reaches(s, steps, s')
    requires RunFails(t) in steps || LaunchFails(t) in steps || (t in s.threads && Troubled(s.threads[t]))
    ensures t in s'.threads && Troubled(s'.threads[t])
    ensures Ended(s'.threads[t]) ==> Raised(s'.threads[t]) && s'.cancelled
    decreases |steps|
  {
    if steps != [] {
      StepKeepsInv(s, steps[0]);
      if steps[0] == RunFails(t) || steps[0] == LaunchFails(t) || (t in s.threads && Troubled(s.threads[t])) {
        StepKeepsOutcome(s, steps[0], t);
      }
      FailureIsNeverLost(After(s, steps[0]), steps[1..], s', t);
    }
  }

  /** A command that completed does not raise, unless closing its process does. */
  lemma {:induction false} CompletionIsNeverLost(s: State, steps: seq<Step>, s': State, t: Thread)
    requires Reaches(s, steps, s')
    requires Complete(t) in steps || (t in s.threads && CameThrough(s.threads[t]))
    ensures t in s'.threads && CameThrough(s'.threads[t])
    ensures Raised(s'.threads[t]) ==> s'.threads[t].Unclosed?
    decreases |steps|
  {
    if steps != [] {
      CompletionIsNeverLost(After(s, steps[0]), steps[1..], s', t);
    }
  }

  /** No command is stuck: by steps of its own it can come to its end, with its process released. */
  lemma CommandCanEnd(s: State, t: Thread) returns (steps: seq<Step>, s': State)
    requires t in s.threads && !Ended(s.threads[t])
    ensures Reaches(s, steps, s') && (forall step :: step in steps ==> step != CancelOutside && step.thread == t)
    ensures t in s'.threads && s'.threads[t].Done?
    ensures Owner(s.threads[t]).Some? ==> Owner(s.threads[t]).value in s'.released
    decreases match s.threads[t] { case Pending => 3 case Running(_) => 2 case Failing(_) => 2 case _ => 0 }
  {
    var step := match s.threads[t]
                case Pending => LaunchFails(t)
                case Running(_) => Complete(t)
                case Failing(_) => CancelAfterFailure(t)
                case _ => Release(t);
    var next := After(s, step);
    if step.Release? {
      steps, s' := [step], next;
      assert Reaches(next, [], next);
    } else {
      var rest;
      rest, s' := CommandCanEnd(next, t);
      steps := [step] + rest;
    }
  }

  /** After cancellation every process ever launched was stopped or released by its own thread. */
  lemma CancelReachesEveryProcess(steps: seq<Step>, s: State, p: Process)
    requires Reaches(Initial, steps, s) && s.cancelled && p in s.launched
    ensures p in s.stopped || p in s.released
  {
    ExecutionKeepsInv(Initial, steps, s);
  }

  /** Cancellation has exactly two causes: a call from outside, and a command that failed before closing. */
  lemma {:induction false} CancelledExactly(s: State, steps: seq<Step>, s': State)
    requires Reaches(s, steps, s')
    requires s.cancelled <==> exists t :: t in s.threads && HasFailed(s.threads[t])
    ensures s'.cancelled <==> CancelOutside in steps || exists t :: t in s'.threads && HasFailed(s'.threads[t])
    decreases |steps|
  {
    if steps != [] {
      var (next, rest) := (After(s, steps[0]), steps[1..]);
      assert CancelOutside in steps <==> steps[0] == CancelOutside || CancelOutside in rest;
      if steps[0] == CancelOutside {
        NothingLaunchedAfterCancel(next, rest, s');
      } else {
        StepKeepsCause(s, steps[0]);
        CancelledExactly(next, rest, s');
      }
    }
  }

  lemma StepKeepsCause(s: State, step: Step)
    requires Enabled(s, step) && step != CancelOutside
    requires s.cancelled <==> exists t :: t in s.threads && HasFailed(s.threads[t])
    ensures After(s, step).cancelled <==>
              exists t :: t in After(s, step).threads && HasFailed(After(s, step).threads[t])
  {
    var s' := After(s, step);
    if t :| t in s.threads && HasFailed(s.threads[t]) {
      assert t in s'.threads && HasFailed(s'.threads[t]);
    }
    if step.CancelAfterFailure? {
      assert HasFailed(s'.threads[step.thread]);
    }
  }

  /**
   Without a call from outside, a command that raised an error leaves the run cancelled exactly when
   it or another command failed before closing its process; every process is then stopped or released.
   */
  lemma FailureCancelsEverything(steps: seq<Step>, s: State, t: Thread, p: Process)
    requires Reaches(Initial, steps, s) && t in s.threads && Raised(s.threads[t]) && CancelOutside !in steps
    ensures s.cancelled <==> exists u :: u in s.threads && HasFailed(s.threads[u])
    ensures HasFailed(s.threads[t]) ==> s.cancelled
    ensures s.cancelled && p in s.launched ==> p in s.stopped || p in s.released
  {
    CancelledExactly(Initial, steps, s);
    ExecutionKeepsInv(Initial, steps, s);
  }

  /** A close that fails raises an error, cancels nothing and leaves its process in the list. */
  lemma CloseFailureCancelsNothing(t: Thread, p: Process) returns (steps: seq<Step>, s: State)
    ensures Reaches(Initial, steps, s) && At(s, t, Unclosed(p, false))
    ensures Raised(s.threads[t]) && !s.cancelled && s.processes == [p] && s.stopped == {}
  {
    steps := [Begin(t), Launch(t, p), Complete(t), CloseFails(t)];
    s := State(false, [p], map[t := Unclosed(p, false)], {p}, {}, {});
    var s1 := After(Initial, steps[0]);
    var s2 := After(s1, steps[1]);
    var s3 := After(s2, steps[2]);
    assert s == After(s3, steps[3]);
    assert Reaches(s3, [CloseFails(t)], s);
    assert Reaches(s2, [Complete(t), CloseFails(t)], s);
    assert Reaches(s1, [Launch(t, p), Complete(t), CloseFails(t)], s);
  }

  /** When every command has ended, the list holds exactly the processes whose close failed. */
  lemma LeftBehindExactly(steps: seq<Step>, s: State, p: Process)
    requires Reaches(Initial, steps, s) && forall t :: t in s.threads ==> Ended(s.threads[t])
    ensures p in s.processes <==> exists t :: t in s.threads && s.threads[t].Unclosed? && s.threads[t].process == p
    ensures p in s.launched <==> p in s.processes || p in s.released
    ensures !(p in s.processes && p in s.released)
  {
    ExecutionKeepsInv(Initial, steps, s);
    assert p in s.processes <==> exists t :: Owns(s.threads, t, p);
    if t :| Owns(s.threads, t, p) {
      assert t in s.threads && s.threads[t].Unclosed? && s.threads[t].process == p;
    }
    if t :| t in s.threads && s.threads[t].Unclosed? && s.threads[t].process == p {
      assert Owns(s.threads, t, p);
    }
  }

  /** So nothing is left behind exactly when every close went through. */
  lemma NothingLeftBehind(steps: seq<Step>, s: State)
    requires Reaches(Initial, steps, s) && forall t :: t in s.threads ==> Ended(s.threads[t])
    ensures (s.processes == [] && s.released == s.launched) <==> forall t :: t in s.threads ==> !s.threads[t].Unclosed?
  {
    forall p
      ensures p in s.processes <==> exists t :: t in s.threads && s.threads[t].Unclosed? && s.threads[t].process == p
      ensures p in s.launched <==> p in s.processes || p in s.released
    {
      LeftBehindExactly(steps, s, p);
    }
    if s.processes != [] {
      assert s.processes[0] in s.processes;
    }
    if t :| t in s.threads && s.threads[t].Unclosed? {
      assert s.threads[t].process in s.processes;
    }
  }

  /** The list always holds the process a thread is about to remove. */
  lemma RemoveAlwaysFinds(steps: seq<Step>, s: State, t: Thread)
    requires Reaches(Initial, steps, s) && Enabled(s, Release(t)) && s.threads[t].owner.Some?
    ensures s.threads[t].owner.value in s.processes
  {
    ExecutionKeepsInv(Initial, steps, s);
    assert Owns(s.threads, t, s.threads[t].owner.value);
  }

  // --- Jobs for the shards ---

  /** `allocation`, for numbers: the jobs of each shard, or none when the request is refused. */
  function Allocation(jobs: int, shards: int): Option<seq<nat>> {
    if jobs < 1 || shards < 1 || shards > jobs then None
    else Some(seq(shards, i requires 0 <= i => jobs / shards + if i < jobs % shards then 1 else 0))
  }

  function Sum(s: seq<nat>): nat {
    if s == [] then 0 else Sum(s[..|s| - 1]) + s[|s| - 1]
  }

  /** Every shard gets a job, all jobs are given out, and no shard gets more than one job more than another. */
  lemma AllocationIsFair(jobs: int, shards: int)
    ensures Allocation(jobs, shards).Some? <==> 1 <= shards <= jobs
    ensures Allocation(jobs, shards).Some? ==>
              var r := Allocation(jobs, shards).value;
              && |r| == shards && Sum(r) == jobs
              && (forall i, j :: 0 <= i < j < |r| ==> r[j] <= r[i] <= r[j] + 1)
              && (forall i :: 0 <= i < |r| ==> r[i] >= 1)
  {
    if Allocation(jobs, shards).Some? {
      var r := Allocation(jobs, shards).value;
      var (base, extra) := (jobs / shards, jobs % shards);
      assert base >= 1 && base * shards + extra == jobs;
      SumOfShares(r, base, extra, shards);
      assert r[..shards] == r;
    }
  }

  lemma {:induction false} SumOfShares(r: seq<nat>, base: nat, extra: nat, n: nat)
    requires n <= |r| && forall i :: 0 <= i < |r| ==> r[i] == base + if i < extra then 1 else 0
    ensures Sum(r[..n]) == base * n + if n < extra then n else extra
  {
    if n > 0 {
      SumOfShares(r, base, extra, n - 1);
      assert r[..n][..n - 1] == r[..n - 1];
      assert base * n == base * (n - 1) + base;
    }
  }

  // --- The loop inside `cancel` ---

  datatype StopResult = Ok | Interrupted | Failed

  /**
   Every owned process gets a stop, a second one when the first was interrupted, whatever the other
   processes do; the call fails exactly when some stop did not go through cleanly.
   */
  method StopAll(processes: seq<Process>, result: (Process, nat) -> StopResult)
    returns (stops: seq<(Process, nat)>, errors: nat)
    ensures forall p :: p in processes ==> (p, 0) in stops
    ensures forall p :: p in processes && result(p, 0).Interrupted? ==> (p, 1) in stops
    ensures forall s :: s in stops ==> s.0 in processes && (s.1 == 0 || (s.1 == 1 && result(s.0, 0).Interrupted?))
    ensures errors > 0 <==> exists p :: p in processes && !result(p, 0).Ok?
  {
    stops, errors := [], 0;
    for i := 0 to |processes|
      invariant forall p :: p in processes[..i] ==> (p, 0) in stops
      invariant forall p :: p in processes[..i] && result(p, 0).Interrupted? ==> (p, 1) in stops
      invariant forall s :: s in stops ==> s.0 in processes && (s.1 == 0 || (s.1 == 1 && result(s.0, 0).Interrupted?))
      invariant errors > 0 <==> exists p :: p in processes[..i] && !result(p, 0).Ok?
    {
      var owner := processes[i];
      assert processes[..i + 1] == processes[..i] + [owner];
      stops := stops + [(owner, 0)];
      match result(owner, 0)
      case Ok =>
      case Interrupted =>
        errors := errors + 1;
        stops := stops + [(owner, 1)];
        if !result(owner, 1).Ok? {
          errors := errors + 1;
        }
      case Failed =>
        errors := errors + 1;
    }
    assert processes[..|processes|] == processes;
  }
}
