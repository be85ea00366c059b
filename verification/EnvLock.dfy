/**
 The re-entrant environment lock (`TestEnvLock`, module `test_env_lock` of src/config.rs) as
 interleaved steps of any number of threads. The inner mutex makes each bookkeeping section one
 step; restoring the environment happens outside it, one variable at a time.
 */
module EnvLock {
  import opened Options
  import opened EnvRestore

  type Thread = nat

  /** Where a thread stands that is dropping its outermost guard. */
  datatype Release =
    | Taken(snapshot: Option<EnvVars>)
    | Restoring(plan: seq<EnvChange>)

  datatype State = State(
    holder: Option<Thread>,
    depth: nat,
    snapshot: Option<EnvVars>,
    env: Env,
    guards: map<Thread, nat>,
    releasing: map<Thread, Release>)

  /** The live guards of a thread. */
  function Held(guards: map<Thread, nat>, t: Thread): nat {
    if t in guards then guards[t] else 0
  }

  datatype Step =
    | Acquire(thread: Thread, listing: EnvVars)
    | Edit(thread: Thread, env: Env)
    | Drop(thread: Thread)
    | Plan(thread: Thread, listing: EnvVars)
    | RestoreOne(thread: Thread)
    | Finish(thread: Thread)

  /** A thread inside a drop does nothing else; only a thread that holds a guard edits. */
  ghost predicate Enabled(s: State, step: Step, ignoreCase: bool) {
    match step
    case Acquire(t, listing) =>
      && t !in s.releasing
      && (s.holder.None? || s.holder == Some(t))
      && (s.depth == 0 ==> Lists(listing, s.env, ignoreCase))
    case Edit(t, _) => t !in s.releasing && Held(s.guards, t) > 0
    case Drop(t) => t !in s.releasing && Held(s.guards, t) > 0
    case Plan(t, listing) =>
      && t in s.releasing && s.releasing[t].Taken? && s.releasing[t].snapshot.Some?
      && Lists(listing, s.env, ignoreCase)
    case RestoreOne(t) => t in s.releasing && s.releasing[t].Restoring? && s.releasing[t].plan != []
    case Finish(t) =>
      t in s.releasing &&
      match s.releasing[t] { case Taken(snapshot) => snapshot.None? case Restoring(plan) => plan == [] }
  }

  ghost function After(s: State, step: Step, ignoreCase: bool): State
    requires Enabled(s, step, ignoreCase)
  {
    match step
    case Acquire(t, listing) =>
      s.(snapshot := if s.depth == 0 then Some(listing) else s.snapshot,
         holder := Some(t), depth := s.depth + 1, guards := s.guards[t := Held(s.guards, t) + 1])
    case Edit(_, env) => s.(env := env)
    case Drop(t) =>
      var fewer := s.(guards := s.guards[t := Held(s.guards, t) - 1]);
      if s.depth > 1 then fewer.(depth := s.depth - 1)
      else fewer.(snapshot := None, releasing := s.releasing[t := Taken(s.snapshot)])
    case Plan(t, listing) =>
      s.(releasing := s.releasing[t := Restoring(RestorePlan(s.releasing[t].snapshot.value, listing, ignoreCase))])
    case RestoreOne(t) =>
      var plan := s.releasing[t].plan;
      s.(env := Apply(s.env, plan[0], ignoreCase), releasing := s.releasing[t := Restoring(plan[1..])])
    case Finish(t) => s.(depth := 0, holder := None, releasing := s.releasing - {t})
  }

  // --- The invariant ---

  /** A snapshot that shows the environment as it was before the outermost acquire. */
  ghost predicate GoodSnapshot(snapshot: Option<EnvVars>, base: map<Text, Text>, ignoreCase: bool) {
    snapshot.Some? && DistinctKeys(snapshot.value, ignoreCase) && Shows(snapshot.value, base, ignoreCase)
  }

  ghost predicate GoodRelease(s: State, r: Release, base: map<Text, Text>, ignoreCase: bool) {
    match r
    case Taken(snapshot) => GoodSnapshot(snapshot, base, ignoreCase)
    case Restoring(plan) =>
      Visible(ApplyAll(s.env, plan, ignoreCase)) == base && forall c :: c in plan ==> SafeChange(c)
  }

  /** `base` is the restorable environment that every free moment shows. */
  ghost predicate Inv(s: State, base: map<Text, Text>, ignoreCase: bool) {
    match s.holder
    case None =>
      && s.depth == 0 && s.releasing == map[]
      && (forall t :: Held(s.guards, t) == 0)
      && Visible(s.env) == base
    case Some(owner) =>
      && (forall t :: t != owner ==> Held(s.guards, t) == 0 && t !in s.releasing)
      && s.depth >= 1
      && if owner in s.releasing
         then Held(s.guards, owner) == 0 && s.depth == 1 && GoodRelease(s, s.releasing[owner], base, ignoreCase)
         else Held(s.guards, owner) == s.depth && GoodSnapshot(s.snapshot, base, ignoreCase)
  }

  /** Only one thread's guards and release change, so the other threads still have none. */
  lemma OthersStayIdle(s: State, s': State, t: Thread)
    requires forall u :: u != t ==> Held(s.guards, u) == 0 && u !in s.releasing
    requires forall u :: u != t ==> (u in s'.guards <==> u in s.guards) && (u in s'.releasing <==> u in s.releasing)
    requires forall u :: u != t && u in s.guards ==> s'.guards[u] == s.guards[u]
    ensures forall u :: u != t ==> Held(s'.guards, u) == 0 && u !in s'.releasing
  {
    forall u | u != t
      ensures Held(s'.guards, u) == 0 && u !in s'.releasing
    {
      assert Held(s.guards, u) == 0 && u !in s.releasing;
    }
  }

  lemma AcquireKeepsInv(s: State, t: Thread, listing: EnvVars, base: map<Text, Text>, ignoreCase: bool)
    requires Inv(s, base, ignoreCase) && Enabled(s, Acquire(t, listing), ignoreCase)
    ensures Inv(After(s, Acquire(t, listing), ignoreCase), base, ignoreCase)
  {
    hide Visible, Shows, DistinctKeys, Lists;
    var s' := After(s, Acquire(t, listing), ignoreCase);
    assert Held(s.guards, t) == s.depth;
    OthersStayIdle(s, s', t);
    if s.depth == 0 {
      ListingShows(listing, s.env, ignoreCase);
      ListingIsDistinct(listing, s.env, ignoreCase);
    }
  }

  lemma ListingIsDistinct(listing: EnvVars, env: Env, ignoreCase: bool)
    requires Lists(listing, env, ignoreCase)
    ensures DistinctKeys(listing, ignoreCase)
  {
  }

  lemma DropKeepsInv(s: State, t: Thread, base: map<Text, Text>, ignoreCase: bool)
    requires Inv(s, base, ignoreCase) && Enabled(s, Drop(t), ignoreCase)
    ensures Inv(After(s, Drop(t), ignoreCase), base, ignoreCase)
  {
    hide Visible, Shows, DistinctKeys;
    assert s.holder == Some(t);
    OthersStayIdle(s, After(s, Drop(t), ignoreCase), t);
  }

  /** While a thread releases, the state is its own: nobody else holds a guard. */
  lemma ReleaseKeepsInv(s: State, step: Step, base: map<Text, Text>, ignoreCase: bool)
    requires Inv(s, base, ignoreCase) && Enabled(s, step, ignoreCase)
    requires step.Plan? || step.RestoreOne? || step.Finish?
    ensures Inv(After(s, step, ignoreCase), base, ignoreCase)
  {
    hide Visible, Shows, DistinctKeys, Lists, RestorePlan, SafeChange;
    var (t, s') := (step.thread, After(s, step, ignoreCase));
    assert s.holder == Some(t);
    OthersStayIdle(s, s', t);
    match step
    case Plan(_, listing) =>
      PlanRestores(s.releasing[t].snapshot.value, base, listing, s.env, ignoreCase);
      PlanIsSafe(s.releasing[t].snapshot.value, listing, ignoreCase);
    case RestoreOne(_) =>
    case Finish(_) =>
      assert s'.releasing == map[];
  }

  lemma StepKeepsInv(s: State, step: Step, base: map<Text, Text>, ignoreCase: bool)
    requires Inv(s, base, ignoreCase) && Enabled(s, step, ignoreCase)
    ensures Inv(After(s, step, ignoreCase), base, ignoreCase)
  {
    match step
    case Acquire(t, listing) => AcquireKeepsInv(s, t, listing, base, ignoreCase);
    case Edit(_, _) =>
    case Drop(t) => DropKeepsInv(s, t, base, ignoreCase);
    case Plan(_, _) => ReleaseKeepsInv(s, step, base, ignoreCase);
    case RestoreOne(_) => ReleaseKeepsInv(s, step, base, ignoreCase);
    case Finish(_) => ReleaseKeepsInv(s, step, base, ignoreCase);
  }

  // --- Executions ---

  /** The state after a sequence of steps, each enabled when it is taken. */
  ghost predicate Reaches(s: State, steps: seq<Step>, s': State, ignoreCase: bool)
    decreases |steps|
  {
    if steps == [] then s == s'
    else Enabled(s, steps[0], ignoreCase) && Reaches(After(s, steps[0], ignoreCase), steps[1..], s', ignoreCase)
  }

  ghost predicate Initial(s: State) {
    s.holder.None? && s.depth == 0 && s.snapshot.None? && s.guards == map[] && s.releasing == map[]
  }

  lemma {:induction false} ExecutionKeepsInv(s: State, steps: seq<Step>, s': State, base: map<Text, Text>,
                                             ignoreCase: bool)
    requires Inv(s, base, ignoreCase) && Reaches(s, steps, s', ignoreCase)
    ensures Inv(s', base, ignoreCase)
    decreases |steps|
  {
    if steps != [] {
      StepKeepsInv(s, steps[0], base, ignoreCase);
      ExecutionKeepsInv(After(s, steps[0], ignoreCase), steps[1..], s', base, ignoreCase);
    }
  }

  /** At most one thread holds guards, and while it is not releasing the depth counts them. */
  lemma OneHolder(s: State, steps: seq<Step>, s': State, ignoreCase: bool, t: Thread, u: Thread)
    requires Initial(s) && Reaches(s, steps, s', ignoreCase)
    ensures Held(s'.guards, t) > 0 && Held(s'.guards, u) > 0 ==> t == u
    ensures Held(s'.guards, t) > 0 ==> s'.holder == Some(t) && s'.depth == Held(s'.guards, t) && s'.releasing == map[]
    ensures t in s'.releasing && u in s'.releasing ==> t == u
  {
    ExecutionKeepsInv(s, steps, s', Visible(s.env), ignoreCase);
  }

  /** Whenever the lock is free, the restorable environment is what it was at the start. */
  lemma FreeMeansRestored(s: State, steps: seq<Step>, s': State, ignoreCase: bool)
    requires Initial(s) && Reaches(s, steps, s', ignoreCase) && s'.holder.None?
    ensures Visible(s'.env) == Visible(s.env)
    ensures forall t :: Held(s'.guards, t) == 0
  {
    ExecutionKeepsInv(s, steps, s', Visible(s.env), ignoreCase);
  }

  /** A variable that the calls accept: a name without `=` and NUL, and a value without NUL. */
  predicate Settable(env: Env, key: Text) {
    && key in env && |env[key].0| > 0
    && '=' as int !in env[key].0 && 0 !in env[key].0 && 0 !in env[key].1
  }

  /** Variable by variable: what could be set at the start is back with its value, and nothing was added. */
  lemma EveryVariableIsBack(s: State, steps: seq<Step>, s': State, ignoreCase: bool, key: Text)
    requires Initial(s) && Reaches(s, steps, s', ignoreCase) && s'.holder.None?
    ensures Settable(s'.env, key) <==> Settable(s.env, key)
    ensures Settable(s.env, key) ==> s'.env[key].1 == s.env[key].1
  {
    FreeMeansRestored(s, steps, s', ignoreCase);
    SettableIsVisible(s.env, key);
    SettableIsVisible(s'.env, key);
  }

  lemma SettableIsVisible(env: Env, key: Text)
    ensures Settable(env, key) <==> key in Visible(env)
    ensures Settable(env, key) ==> Visible(env)[key] == env[key].1
  {
  }

  // --- Re-entrancy ---

  /** A thread may acquire exactly when no other thread holds or is giving back the lock, whatever it holds itself. */
  lemma AcquireExactly(s: State, steps: seq<Step>, s': State, t: Thread, listing: EnvVars, ignoreCase: bool)
    requires Initial(s) && Reaches(s, steps, s', ignoreCase) && Lists(listing, s'.env, ignoreCase)
    ensures Enabled(s', Acquire(t, listing), ignoreCase) <==>
              t !in s'.releasing && forall u :: u != t ==> Held(s'.guards, u) == 0 && u !in s'.releasing
  {
    hide Lists;
    ExecutionKeepsInv(s, steps, s', Visible(s.env), ignoreCase);
  }

  /** A nested acquire adds a guard and nothing else; dropping that guard takes the state back. */
  lemma NestedAcquireUndone(s: State, steps: seq<Step>, s': State, t: Thread, listing: EnvVars, ignoreCase: bool)
    requires Initial(s) && Reaches(s, steps, s', ignoreCase) && Held(s'.guards, t) > 0
    ensures Enabled(s', Acquire(t, listing), ignoreCase)
    ensures var nested := After(s', Acquire(t, listing), ignoreCase);
            && nested.snapshot == s'.snapshot && nested.env == s'.env && nested.holder == s'.holder
            && nested.depth == s'.depth + 1 && Held(nested.guards, t) == Held(s'.guards, t) + 1
            && Enabled(nested, Drop(t), ignoreCase) && After(nested, Drop(t), ignoreCase) == s'
  {
    hide Lists;
    ExecutionKeepsInv(s, steps, s', Visible(s.env), ignoreCase);
    var nested := After(s', Acquire(t, listing), ignoreCase);
    assert After(nested, Drop(t), ignoreCase).guards == s'.guards;
  }

  /** The holder is never stuck: dropping its guards, restoring and finishing lead to a free, restored lock. */
  lemma HolderCanRelease(s: State, steps: seq<Step>, s': State, t: Thread, listing: EnvVars, ignoreCase: bool)
    returns (more: seq<Step>, freed: State)
    requires Initial(s) && Reaches(s, steps, s', ignoreCase)
    requires s'.holder == Some(t) && Lists(listing, s'.env, ignoreCase)
    ensures Reaches(s', more, freed, ignoreCase) && (forall step :: step in more ==> step.thread == t)
    ensures freed.holder.None? && Visible(freed.env) == Visible(s.env)
  {
    ExecutionKeepsInv(s, steps, s', Visible(s.env), ignoreCase);
    more, freed := ReleaseFrom(s', t, listing, Visible(s.env), ignoreCase);
    ExecutionKeepsInv(s', more, freed, Visible(s.env), ignoreCase);
  }

  lemma {:induction false} ReleaseFrom(s: State, t: Thread, listing: EnvVars, base: map<Text, Text>, ignoreCase: bool)
    returns (more: seq<Step>, freed: State)
    requires Inv(s, base, ignoreCase) && s.holder == Some(t)
    requires (t in s.releasing && s.releasing[t].Restoring?) || Lists(listing, s.env, ignoreCase)
    ensures Reaches(s, more, freed, ignoreCase) && (forall step :: step in more ==> step.thread == t)
    ensures freed.holder.None?
    decreases if t !in s.releasing then 2 else if s.releasing[t].Taken? then 1 else 0, s.depth,
              if t in s.releasing && s.releasing[t].Restoring? then |s.releasing[t].plan| else 0
  {
    hide Lists, RestorePlan, Visible, Shows, DistinctKeys;
    var step := if t !in s.releasing then Drop(t)
                else if s.releasing[t].Taken? then Plan(t, listing)
                else if s.releasing[t].plan != [] then RestoreOne(t)
                else Finish(t);
    StepKeepsInv(s, step, base, ignoreCase);
    var next := After(s, step, ignoreCase);
    if step.Finish? {
      more, freed := [step], next;
      assert Reaches(next, [], next, ignoreCase);
    } else {
      var rest;
      rest, freed := ReleaseFrom(next, t, listing, base, ignoreCase);
      more := [step] + rest;
    }
  }

  /** So every outermost acquire finds the original environment, whatever earlier holders did. */
  lemma OutermostAcquireSeesOriginal(s: State, steps: seq<Step>, s': State, t: Thread, listing: EnvVars,
                                     ignoreCase: bool)
    requires Initial(s) && Reaches(s, steps, s', ignoreCase)
    requires Enabled(s', Acquire(t, listing), ignoreCase) && Held(s'.guards, t) == 0
    ensures Visible(s'.env) == Visible(s.env)
    ensures var acquired := After(s', Acquire(t, listing), ignoreCase);
            acquired.depth == 1 && GoodSnapshot(acquired.snapshot, Visible(s.env), ignoreCase)
  {
    ExecutionKeepsInv(s, steps, s', Visible(s.env), ignoreCase);
    assert s'.holder.None?;
    ListingShows(listing, s'.env, ignoreCase);
  }

  /** A thread in the middle of a release is never stuck: some step of its own is possible. */
  lemma ReleaseIsNeverStuck(s: State, steps: seq<Step>, s': State, t: Thread, listing: EnvVars, ignoreCase: bool)
    requires Initial(s) && Reaches(s, steps, s', ignoreCase) && t in s'.releasing
    requires Lists(listing, s'.env, ignoreCase)
    ensures || Enabled(s', Plan(t, listing), ignoreCase)
            || Enabled(s', RestoreOne(t), ignoreCase)
            || Enabled(s', Finish(t), ignoreCase)
  {
    ExecutionKeepsInv(s, steps, s', Visible(s.env), ignoreCase);
  }

  /** No step of a release can panic: every call gets a name and a value it accepts. */
  lemma RestoringNeverPanics(s: State, steps: seq<Step>, s': State, t: Thread, ignoreCase: bool)
    requires Initial(s) && Reaches(s, steps, s', ignoreCase) && Enabled(s', RestoreOne(t), ignoreCase)
    ensures SafeChange(s'.releasing[t].plan[0])
  {
    ExecutionKeepsInv(s, steps, s', Visible(s.env), ignoreCase);
  }
}
