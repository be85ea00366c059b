/**
 Restoring the process environment to a snapshot (`restore_plan`, module `test_env_lock` of
 src/config.rs). Names and values are byte strings; on systems whose variable names ignore ASCII
 case, two spellings of a name are one variable.
 */
module EnvRestore {
  import opened Options

  type Text = seq<nat>
  type EnvVars = seq<(Text, Text)>

  datatype EnvChange = Remove(name: Text) | SetVar(name: Text, value: Text)

  /** Names and values that `set_var` and `remove_var` accept without a panic. */
  predicate SafeName(name: Text) {
    name != [] && 61 !in name && 0 !in name
  }

  predicate SafeValue(value: Text) {
    0 !in value
  }

  /** `restorable`. */
  predicate Restorable(entry: (Text, Text)) {
    SafeName(entry.0) && SafeValue(entry.1)
  }

  function Upper(b: nat): nat {
    if 97 <= b <= 122 then b - 32 else b
  }

  /** `env_key`. */
  function EnvKey(name: Text, ignoreCase: bool): Text {
    if ignoreCase then seq(|name|, i requires 0 <= i < |name| => Upper(name[i])) else name
  }

  lemma KeyOfSafeName(name: Text, ignoreCase: bool)
    ensures SafeName(EnvKey(name, ignoreCase)) <==> SafeName(name)
  {
    var key := EnvKey(name, ignoreCase);
    assert |key| == |name| && forall i :: 0 <= i < |name| ==> key[i] == if ignoreCase then Upper(name[i]) else name[i];
    assert forall i :: 0 <= i < |name| ==> (key[i] == 61 <==> name[i] == 61) && (key[i] == 0 <==> name[i] == 0);
    assert 61 in key <==> 61 in name by {
      if 61 in name { var i :| 0 <= i < |name| && name[i] == 61; assert key[i] in key; }
    }
    assert 0 in key <==> 0 in name by {
      if 0 in name { var i :| 0 <= i < |name| && name[i] == 0; assert key[i] in key; }
    }
  }

  /** The same byte, or the same ASCII letter in the other case. */
  predicate SameLetter(x: nat, y: nat) {
    x == y || (65 <= x <= 90 && y == x + 32) || (65 <= y <= 90 && x == y + 32)
  }

  /** Names share a key exactly when they are equal, or differ only in ASCII case where that is ignored. */
  lemma SameKeyExactly(a: Text, b: Text, ignoreCase: bool)
    ensures EnvKey(a, ignoreCase) == EnvKey(b, ignoreCase) <==>
              if ignoreCase then |a| == |b| && forall i :: 0 <= i < |a| ==> SameLetter(a[i], b[i]) else a == b
  {
    if ignoreCase {
      var (x, y) := (EnvKey(a, true), EnvKey(b, true));
      assert forall i :: 0 <= i < |a| ==> x[i] == Upper(a[i]);
      assert forall i :: 0 <= i < |b| ==> y[i] == Upper(b[i]);
      if x == y {
        assert |a| == |b| && forall i :: 0 <= i < |a| ==> x[i] == y[i];
      }
    }
  }

  /** The value a `HashMap` collected from the restorable entries holds for a key: the last one. */
  function LookUp(vars: EnvVars, key: Text, ignoreCase: bool): Option<Text> {
    if vars == [] then None
    else
      var last := vars[|vars| - 1];
      if Restorable(last) && EnvKey(last.0, ignoreCase) == key then Some(last.1)
      else LookUp(vars[..|vars| - 1], key, ignoreCase)
  }

  /** `added`: what the current environment has beyond the snapshot. */
  function Added(vars: EnvVars, snapshot: EnvVars, ignoreCase: bool): seq<EnvChange> {
    if vars == [] then []
    else
      (if Restorable(vars[0]) && LookUp(snapshot, EnvKey(vars[0].0, ignoreCase), ignoreCase).None?
       then [Remove(vars[0].0)] else [])
      + Added(vars[1..], snapshot, ignoreCase)
  }

  predicate Reverts(entry: (Text, Text), current: EnvVars, ignoreCase: bool) {
    Restorable(entry) && LookUp(current, EnvKey(entry.0, ignoreCase), ignoreCase) != Some(entry.1)
  }

  /** `reverted`: what the snapshot had and the current environment lost or changed. */
  function Reverted(vars: EnvVars, current: EnvVars, ignoreCase: bool): seq<EnvChange> {
    if vars == [] then []
    else
      (if Reverts(vars[0], current, ignoreCase) then [SetVar(vars[0].0, vars[0].1)] else [])
      + Reverted(vars[1..], current, ignoreCase)
  }

  /** `restore_plan`: first the removals, then the assignments. */
  function RestorePlan(snapshot: EnvVars, current: EnvVars, ignoreCase: bool): seq<EnvChange> {
    Added(current, snapshot, ignoreCase) + Reverted(snapshot, current, ignoreCase)
  }

  // --- The environment ---

  /** The process environment: one spelling and one value for each variable. */
  type Env = map<Text, (Text, Text)>

  function Apply(env: Env, change: EnvChange, ignoreCase: bool): Env {
    match change
    case Remove(name) => env - {EnvKey(name, ignoreCase)}
    case SetVar(name, value) => env[EnvKey(name, ignoreCase) := (name, value)]
  }

  function ApplyAll(env: Env, changes: seq<EnvChange>, ignoreCase: bool): Env
    decreases |changes|
  {
    if changes == [] then env else ApplyAll(Apply(env, changes[0], ignoreCase), changes[1..], ignoreCase)
  }

  lemma {:induction false} ApplyConcat(env: Env, a: seq<EnvChange>, b: seq<EnvChange>, ignoreCase: bool)
    ensures ApplyAll(env, a + b, ignoreCase) == ApplyAll(ApplyAll(env, a, ignoreCase), b, ignoreCase)
    decreases |a|
  {
    if a == [] {
      assert a + b == b;
    } else {
      assert (a + b)[1..] == a[1..] + b;
      ApplyConcat(Apply(env, a[0], ignoreCase), a[1..], b, ignoreCase);
    }
  }

  /** The restorable variables and their values, by key. */
  function Visible(env: Env): map<Text, Text> {
    map key | key in env && Restorable(env[key]) :: env[key].1
  }

  ghost predicate DistinctKeys(vars: EnvVars, ignoreCase: bool) {
    forall i, j :: 0 <= i < j < |vars| ==> EnvKey(vars[i].0, ignoreCase) != EnvKey(vars[j].0, ignoreCase)
  }

  /** The list is what `vars_os` returns: every variable once, in some order. */
  ghost predicate Lists(vars: EnvVars, env: Env, ignoreCase: bool) {
    && DistinctKeys(vars, ignoreCase)
    && (forall i :: 0 <= i < |vars| ==>
          EnvKey(vars[i].0, ignoreCase) in env && env[EnvKey(vars[i].0, ignoreCase)] == vars[i])
    && (forall key :: key in env ==> exists i :: 0 <= i < |vars| && EnvKey(vars[i].0, ignoreCase) == key)
  }

  /** The list, looked up key by key, shows these values. */
  ghost predicate Shows(vars: EnvVars, visible: map<Text, Text>, ignoreCase: bool) {
    forall key :: LookUp(vars, key, ignoreCase) == if key in visible then Some(visible[key]) else None
  }

  lemma {:induction false} LookUpFinds(vars: EnvVars, i: nat, ignoreCase: bool)
    requires DistinctKeys(vars, ignoreCase) && i < |vars| && Restorable(vars[i])
    ensures LookUp(vars, EnvKey(vars[i].0, ignoreCase), ignoreCase) == Some(vars[i].1)
  {
    if i < |vars| - 1 {
      LookUpFinds(vars[..|vars| - 1], i, ignoreCase);
    }
  }

  lemma {:induction false} LookUpIsListed(vars: EnvVars, key: Text, ignoreCase: bool)
    ensures LookUp(vars, key, ignoreCase).Some? ==>
              exists i :: 0 <= i < |vars| && Restorable(vars[i]) && EnvKey(vars[i].0, ignoreCase) == key
                          && vars[i].1 == LookUp(vars, key, ignoreCase).value
  {
    if vars != [] && LookUp(vars, key, ignoreCase).Some? {
      var n := |vars| - 1;
      if Restorable(vars[n]) && EnvKey(vars[n].0, ignoreCase) == key {
        assert vars[n].1 == LookUp(vars, key, ignoreCase).value;
      } else {
        LookUpIsListed(vars[..n], key, ignoreCase);
        var i :| 0 <= i < n && Restorable(vars[..n][i]) && EnvKey(vars[..n][i].0, ignoreCase) == key
                 && vars[..n][i].1 == LookUp(vars, key, ignoreCase).value;
        assert vars[i] == vars[..n][i];
      }
    }
  }

  /** A listing of the environment shows its restorable part. */
  lemma ListingShows(vars: EnvVars, env: Env, ignoreCase: bool)
    requires Lists(vars, env, ignoreCase)
    ensures Shows(vars, Visible(env), ignoreCase)
  {
    forall key
      ensures LookUp(vars, key, ignoreCase) == if key in Visible(env) then Some(Visible(env)[key]) else None
    {
      LookUpIsListed(vars, key, ignoreCase);
      if key in Visible(env) {
        var i :| 0 <= i < |vars| && EnvKey(vars[i].0, ignoreCase) == key;
        LookUpFinds(vars, i, ignoreCase);
      }
    }
  }

  // --- What the plan does ---

  /** The plan only uses names and values that cannot make the calls panic. */
  predicate SafeChange(change: EnvChange) {
    SafeName(change.name) && (change.SetVar? ==> SafeValue(change.value))
  }

  lemma {:induction false} AddedIsSafe(vars: EnvVars, snapshot: EnvVars, ignoreCase: bool)
    ensures forall c :: c in Added(vars, snapshot, ignoreCase) ==> SafeChange(c)
  {
    if vars != [] {
      AddedIsSafe(vars[1..], snapshot, ignoreCase);
    }
  }

  lemma {:induction false} RevertedIsSafe(vars: EnvVars, current: EnvVars, ignoreCase: bool)
    ensures forall c :: c in Reverted(vars, current, ignoreCase) ==> SafeChange(c)
  {
    if vars != [] {
      RevertedIsSafe(vars[1..], current, ignoreCase);
    }
  }

  lemma PlanIsSafe(snapshot: EnvVars, current: EnvVars, ignoreCase: bool)
    ensures forall c :: c in RestorePlan(snapshot, current, ignoreCase) ==> SafeChange(c)
    ensures forall c :: c in RestorePlan(snapshot, current, ignoreCase) ==>
              && |c.name| > 0 && '=' as int !in c.name && 0 !in c.name
              && (c.SetVar? ==> 0 !in c.value)
  {
    AddedIsSafe(current, snapshot, ignoreCase);
    RevertedIsSafe(snapshot, current, ignoreCase);
  }

  /** The removals take away exactly the restorable variables that the snapshot does not show. */
  lemma {:induction false} AddedRemoves(env: Env, vars: EnvVars, snapshot: EnvVars, ignoreCase: bool, key: Text)
    ensures var after := ApplyAll(env, Added(vars, snapshot, ignoreCase), ignoreCase);
            var gone := LookUp(snapshot, key, ignoreCase).None?
                        && exists i :: 0 <= i < |vars| && Restorable(vars[i]) && EnvKey(vars[i].0, ignoreCase) == key;
            && (key in after <==> key in env && !gone)
            && (key in after ==> after[key] == env[key])
    decreases |vars|
  {
    if vars != [] {
      var head := if Restorable(vars[0]) && LookUp(snapshot, EnvKey(vars[0].0, ignoreCase), ignoreCase).None?
                  then [Remove(vars[0].0)] else [];
      var env1 := ApplyAll(env, head, ignoreCase);
      ApplyConcat(env, head, Added(vars[1..], snapshot, ignoreCase), ignoreCase);
      AddedRemoves(env1, vars[1..], snapshot, ignoreCase, key);
      assert forall i :: 0 <= i < |vars| - 1 ==> vars[1..][i] == vars[i + 1];
      assert head != [] ==> env1 == Apply(env, head[0], ignoreCase);
      assert (exists i :: 0 <= i < |vars| && Restorable(vars[i]) && EnvKey(vars[i].0, ignoreCase) == key)
        <==> (Restorable(vars[0]) && EnvKey(vars[0].0, ignoreCase) == key)
             || (exists i :: 0 <= i < |vars| - 1
                             && Restorable(vars[1..][i]) && EnvKey(vars[1..][i].0, ignoreCase) == key);
    }
  }

  /** The assignments leave every other variable alone. */
  lemma {:induction false} RevertedKeepsOthers(env: Env, vars: EnvVars, current: EnvVars, ignoreCase: bool, key: Text)
    requires forall i :: 0 <= i < |vars| && Reverts(vars[i], current, ignoreCase) ==>
               EnvKey(vars[i].0, ignoreCase) != key
    ensures var after := ApplyAll(env, Reverted(vars, current, ignoreCase), ignoreCase);
            (key in after <==> key in env) && (key in after ==> after[key] == env[key])
    decreases |vars|
  {
    if vars != [] {
      var head := if Reverts(vars[0], current, ignoreCase) then [SetVar(vars[0].0, vars[0].1)] else [];
      ApplyConcat(env, head, Reverted(vars[1..], current, ignoreCase), ignoreCase);
      assert head != [] ==> ApplyAll(env, head, ignoreCase) == Apply(env, head[0], ignoreCase);
      RevertedKeepsOthers(ApplyAll(env, head, ignoreCase), vars[1..], current, ignoreCase, key);
    }
  }

  /** The assignments give every reverted variable its entry back. */
  lemma {:induction false} RevertedSets(env: Env, vars: EnvVars, current: EnvVars, ignoreCase: bool, i: nat)
    requires DistinctKeys(vars, ignoreCase) && i < |vars| && Reverts(vars[i], current, ignoreCase)
    ensures var after := ApplyAll(env, Reverted(vars, current, ignoreCase), ignoreCase);
            var key := EnvKey(vars[i].0, ignoreCase);
            key in after && after[key] == vars[i]
    decreases |vars|
  {
    var head := if Reverts(vars[0], current, ignoreCase) then [SetVar(vars[0].0, vars[0].1)] else [];
    var env1 := ApplyAll(env, head, ignoreCase);
    ApplyConcat(env, head, Reverted(vars[1..], current, ignoreCase), ignoreCase);
    if i == 0 {
      assert env1 == Apply(env, head[0], ignoreCase);
      assert forall j :: 0 <= j < |vars[1..]| ==> vars[1..][j] == vars[j + 1];
      RevertedKeepsOthers(env1, vars[1..], current, ignoreCase, EnvKey(vars[0].0, ignoreCase));
    } else {
      RevertedSets(env1, vars[1..], current, ignoreCase, i - 1);
    }
  }

  /** Carrying out the plan makes the restorable environment what the snapshot shows. */
  lemma PlanRestores(snapshot: EnvVars, wanted: map<Text, Text>, current: EnvVars, env: Env, ignoreCase: bool)
    requires DistinctKeys(snapshot, ignoreCase) && Shows(snapshot, wanted, ignoreCase)
    requires Lists(current, env, ignoreCase)
    ensures Visible(ApplyAll(env, RestorePlan(snapshot, current, ignoreCase), ignoreCase)) == wanted
  {
    var after := ApplyAll(env, RestorePlan(snapshot, current, ignoreCase), ignoreCase);
    forall key
      ensures key in Visible(after) <==> key in wanted
      ensures key in wanted ==> Visible(after)[key] == wanted[key]
    {
      KeyIsRestored(snapshot, wanted, current, env, ignoreCase, key);
    }
  }

  lemma KeyIsRestored(snapshot: EnvVars, wanted: map<Text, Text>, current: EnvVars, env: Env, ignoreCase: bool,
                      key: Text)
    requires DistinctKeys(snapshot, ignoreCase) && Shows(snapshot, wanted, ignoreCase)
    requires Lists(current, env, ignoreCase)
    ensures var after := Visible(ApplyAll(env, RestorePlan(snapshot, current, ignoreCase), ignoreCase));
            (key in after <==> key in wanted) && (key in wanted ==> after[key] == wanted[key])
  {
    hide Visible, Added, Reverted;
    var removals := Added(current, snapshot, ignoreCase);
    var env1 := ApplyAll(env, removals, ignoreCase);
    ApplyConcat(env, removals, Reverted(snapshot, current, ignoreCase), ignoreCase);
    RemovalsClear(snapshot, wanted, current, env, ignoreCase, key);
    if key in wanted {
      AssignmentsRestore(snapshot, wanted, current, env, env1, ignoreCase, key);
    } else {
      forall i | 0 <= i < |snapshot| && Reverts(snapshot[i], current, ignoreCase)
        ensures EnvKey(snapshot[i].0, ignoreCase) != key
      {
        LookUpFinds(snapshot, i, ignoreCase);
      }
      RevertedKeepsOthers(env1, snapshot, current, ignoreCase, key);
      SameVisibility(env1, ApplyAll(env1, Reverted(snapshot, current, ignoreCase), ignoreCase), key);
    }
  }

  lemma SameVisibility(a: Env, b: Env, key: Text)
    requires (key in a <==> key in b) && (key in a ==> a[key] == b[key])
    ensures key in Visible(a) <==> key in Visible(b)
    ensures key in Visible(a) ==> Visible(a)[key] == Visible(b)[key]
  {
  }

  /** After the removals a wanted variable is as it was, and an unwanted one is not visible. */
  lemma RemovalsClear(snapshot: EnvVars, wanted: map<Text, Text>, current: EnvVars, env: Env, ignoreCase: bool,
                      key: Text)
    requires Shows(snapshot, wanted, ignoreCase) && Lists(current, env, ignoreCase)
    ensures var after := ApplyAll(env, Added(current, snapshot, ignoreCase), ignoreCase);
            if key in wanted then (key in after <==> key in env) && (key in after ==> after[key] == env[key])
            else key !in Visible(after)
  {
    hide Added;
    AddedRemoves(env, current, snapshot, ignoreCase, key);
    ListingShows(current, env, ignoreCase);
    LookUpIsListed(current, key, ignoreCase);
  }

  /** After the assignments a wanted variable has the wanted value, whether or not it needed one. */
  lemma AssignmentsRestore(snapshot: EnvVars, wanted: map<Text, Text>, current: EnvVars, env: Env, env1: Env,
                           ignoreCase: bool, key: Text)
    requires DistinctKeys(snapshot, ignoreCase) && Shows(snapshot, wanted, ignoreCase)
    requires Lists(current, env, ignoreCase) && key in wanted
    requires (key in env1 <==> key in env) && (key in env1 ==> env1[key] == env[key])
    ensures var after := Visible(ApplyAll(env1, Reverted(snapshot, current, ignoreCase), ignoreCase));
            key in after && after[key] == wanted[key]
  {
    hide Reverted;
    ListingShows(current, env, ignoreCase);
    LookUpIsListed(snapshot, key, ignoreCase);
    var i :| 0 <= i < |snapshot| && Restorable(snapshot[i]) && EnvKey(snapshot[i].0, ignoreCase) == key
             && snapshot[i].1 == wanted[key];
    if Reverts(snapshot[i], current, ignoreCase) {
      RevertedSets(env1, snapshot, current, ignoreCase, i);
    } else {
      RevertedKeepsOthers(env1, snapshot, current, ignoreCase, key);
    }
  }

  /** Variables whose names are not restorable, such as Windows' `=C:`, are never touched. */
  lemma {:induction false} SafeChangesKeepUnsafeNames(env: Env, changes: seq<EnvChange>, ignoreCase: bool, key: Text)
    requires !SafeName(key) && forall c :: c in changes ==> SafeChange(c)
    ensures var after := ApplyAll(env, changes, ignoreCase);
            (key in after <==> key in env) && (key in after ==> after[key] == env[key])
    decreases |changes|
  {
    if changes != [] {
      assert SafeChange(changes[0]);
      KeyOfSafeName(changes[0].name, ignoreCase);
      SafeChangesKeepUnsafeNames(Apply(env, changes[0], ignoreCase), changes[1..], ignoreCase, key);
    }
  }

  /** What a change does is needed: it removes a visible stranger or sets a value that differs. */
  ghost predicate Needed(change: EnvChange, wanted: map<Text, Text>, env: Env, ignoreCase: bool) {
    var key := EnvKey(change.name, ignoreCase);
    match change
    case Remove(_) => key in Visible(env) && key !in wanted
    case SetVar(_, value) =>
      key in wanted && wanted[key] == value && (key in Visible(env) ==> Visible(env)[key] != value)
  }

  lemma {:induction false} AddedComesFromList(vars: EnvVars, snapshot: EnvVars, ignoreCase: bool, c: EnvChange)
    requires c in Added(vars, snapshot, ignoreCase)
    ensures c.Remove? && LookUp(snapshot, EnvKey(c.name, ignoreCase), ignoreCase).None?
    ensures exists i :: 0 <= i < |vars| && Restorable(vars[i]) && vars[i].0 == c.name
    decreases |vars|
  {
    if c !in Added(vars[1..], snapshot, ignoreCase) {
      assert vars[0].0 == c.name;
    } else {
      AddedComesFromList(vars[1..], snapshot, ignoreCase, c);
      var i :| 0 <= i < |vars[1..]| && Restorable(vars[1..][i]) && vars[1..][i].0 == c.name;
      assert vars[i + 1].0 == c.name;
    }
  }

  lemma {:induction false} RevertedComesFromList(vars: EnvVars, current: EnvVars, ignoreCase: bool, c: EnvChange)
    requires c in Reverted(vars, current, ignoreCase)
    ensures c.SetVar?
    ensures exists i :: 0 <= i < |vars| && Reverts(vars[i], current, ignoreCase) && vars[i] == (c.name, c.value)
    decreases |vars|
  {
    if c !in Reverted(vars[1..], current, ignoreCase) {
      assert vars[0] == (c.name, c.value);
    } else {
      RevertedComesFromList(vars[1..], current, ignoreCase, c);
      var i :| 0 <= i < |vars[1..]| && Reverts(vars[1..][i], current, ignoreCase) && vars[1..][i] == (c.name, c.value);
      assert vars[i + 1] == (c.name, c.value);
    }
  }

  /** Every change of the plan is needed, so an environment that already shows the snapshot gets none. */
  lemma PlanIsMinimal(snapshot: EnvVars, wanted: map<Text, Text>, current: EnvVars, env: Env, ignoreCase: bool,
                      c: EnvChange)
    requires DistinctKeys(snapshot, ignoreCase) && Shows(snapshot, wanted, ignoreCase)
    requires Lists(current, env, ignoreCase) && c in RestorePlan(snapshot, current, ignoreCase)
    ensures Needed(c, wanted, env, ignoreCase) && Visible(env) != wanted
  {
    ListingShows(current, env, ignoreCase);
    if c in Added(current, snapshot, ignoreCase) {
      AddedComesFromList(current, snapshot, ignoreCase, c);
      var i :| 0 <= i < |current| && Restorable(current[i]) && current[i].0 == c.name;
      LookUpFinds(current, i, ignoreCase);
    } else {
      RevertedComesFromList(snapshot, current, ignoreCase, c);
      var i :| 0 <= i < |snapshot| && Reverts(snapshot[i], current, ignoreCase) && snapshot[i] == (c.name, c.value);
      LookUpFinds(snapshot, i, ignoreCase);
    }
  }

  /**
   A variable that is still there, under any spelling, is set again exactly when its value differs;
   otherwise no change of the plan touches it and a new spelling stays.
   */
  lemma RespelledVariableIsLeftAlone(snapshot: EnvVars, i: nat, current: EnvVars, j: nat, ignoreCase: bool)
    requires DistinctKeys(snapshot, ignoreCase) && DistinctKeys(current, ignoreCase)
    requires i < |snapshot| && j < |current| && Restorable(snapshot[i]) && Restorable(current[j])
    requires EnvKey(snapshot[i].0, ignoreCase) == EnvKey(current[j].0, ignoreCase)
    ensures var plan := RestorePlan(snapshot, current, ignoreCase);
            if snapshot[i].1 == current[j].1
            then forall c :: c in plan ==> EnvKey(c.name, ignoreCase) != EnvKey(snapshot[i].0, ignoreCase)
            else SetVar(snapshot[i].0, snapshot[i].1) in plan
    ensures forall c :: c in RestorePlan(snapshot, current, ignoreCase) && c.Remove? ==>
              EnvKey(c.name, ignoreCase) != EnvKey(snapshot[i].0, ignoreCase)
  {
    hide EnvKey, Restorable;
    var key := EnvKey(snapshot[i].0, ignoreCase);
    LookUpFinds(snapshot, i, ignoreCase);
    LookUpFinds(current, j, ignoreCase);
    if snapshot[i].1 != current[j].1 {
      RevertedIsListed(snapshot, current, ignoreCase, i);
    }
    forall c | c in RestorePlan(snapshot, current, ignoreCase) && EnvKey(c.name, ignoreCase) == key
      ensures c.SetVar? && snapshot[i].1 != current[j].1
    {
      if c in Added(current, snapshot, ignoreCase) {
        AddedComesFromList(current, snapshot, ignoreCase, c);
      } else {
        RevertedComesFromList(snapshot, current, ignoreCase, c);
        var k :| 0 <= k < |snapshot| && Reverts(snapshot[k], current, ignoreCase) && snapshot[k] == (c.name, c.value);
        assert k == i;
      }
    }
  }

  lemma {:induction false} RevertedIsListed(vars: EnvVars, current: EnvVars, ignoreCase: bool, i: nat)
    requires i < |vars| && Reverts(vars[i], current, ignoreCase)
    ensures SetVar(vars[i].0, vars[i].1) in Reverted(vars, current, ignoreCase)
    decreases |vars|
  {
    if i > 0 {
      RevertedIsListed(vars[1..], current, ignoreCase, i - 1);
    }
  }
}
