/**
 What the runner protocol does to the database: the order of the migration list, convergence of
 repeated runs, what a clean exit means, and that completion always stays possible.
 */
module MigrationEffect {
  import opened Wrappers
  import opened NameOrder
  import opened MigrationRunner

  // ---------------------------------------------------------------------------------------------
  // The ordered list
  // ---------------------------------------------------------------------------------------------

  predicate EndsWith(s: string, suffix: string) {
    |suffix| <= |s| && s[|s| - |suffix|..] == suffix
  }

  /** A migration that is applied: an SQL file that is not a rollback. */
  predicate Forward(name: string) { EndsWith(name, ".sql") && !EndsWith(name, "_down.sql") }

  /** The plan for a directory: exactly its forward migrations, in strict name order. */
  ghost predicate PlanFor(listing: seq<string>, plan: seq<string>) {
    Sorted(plan) && forall name :: name in plan <==> name in listing && Forward(name)
  }

  lemma EndsWithWrittenOut(s: string, suffix: string)
    ensures EndsWith(s, suffix) <==> exists stem :: s == stem + suffix
  {
    if EndsWith(s, suffix) { assert s == s[..|s| - |suffix|] + suffix; }
    if stem :| s == stem + suffix { assert s[|stem|..] == suffix; }
  }

  /** A name is planned exactly when it is in the directory, ends in `.sql` and not in `_down.sql`. */
  lemma PlannedExactlyWhen(listing: seq<string>, plan: seq<string>, name: string)
    requires PlanFor(listing, plan)
    ensures name in plan <==>
            name in listing && (exists stem :: name == stem + ".sql") && !(exists stem :: name == stem + "_down.sql")
  {
    EndsWithWrittenOut(name, ".sql");
    EndsWithWrittenOut(name, "_down.sql");
  }

  /** Sort and filter, one directory entry at a time. */
  method OrderedMigrations(listing: seq<string>) returns (plan: seq<string>)
    requires forall i, j :: 0 <= i < j < |listing| ==> listing[i] != listing[j]
    ensures PlanFor(listing, plan)
  {
    plan := [];
    for i := 0 to |listing|
      invariant PlanFor(listing[..i], plan)
    {
      assert listing[..i + 1] == listing[..i] + [listing[i]];
      if Forward(listing[i]) {
        plan := Insert(plan, listing[i]);
      }
    }
    assert listing[..|listing|] == listing;
  }

  /** The plan does not depend on the order in which the directory is listed. */
  lemma {:induction false} PlanIsDetermined(listing: seq<string>, listing': seq<string>, p: seq<string>, p': seq<string>)
    requires forall x :: x in listing <==> x in listing'
    requires PlanFor(listing, p) && PlanFor(listing', p')
    ensures p == p'
  {
    SortedIsDetermined(p, p');
  }

  /** No rollback script is ever applied. */
  lemma NeverRollsBack(listing: seq<string>, plan: seq<string>, s: System, e: Entry)
    requires PlanFor(listing, plan) && Reachable(|plan|, s) && e in s.log
    ensures e.index < |plan| && !EndsWith(plan[e.index], "_down.sql")
  {
    ReachableInv(|plan|, s);
    assert plan[e.index] in plan;
  }

  // ---------------------------------------------------------------------------------------------
  // Convergence
  // ---------------------------------------------------------------------------------------------

  /** The database after the first `k` migrations, each applied once and in order. */
  function After<D>(apply: (D, nat) -> D, d: D, k: nat): D {
    if k == 0 then d else apply(After(apply, d, k - 1), k - 1)
  }

  function Replay<D>(apply: (D, nat) -> D, d: D, log: seq<Entry>): D {
    if log == [] then d else apply(Replay(apply, d, log[..|log| - 1]), log[|log| - 1].index)
  }

  /** How far down the list any runner has ever got. */
  function High(log: seq<Entry>): (k: nat)
    ensures forall e :: e in log ==> e.index < k
    ensures k == 0 || exists e :: e in log && e.index == k - 1
  {
    if log == [] then 0
    else
      var k, e := High(log[..|log| - 1]), log[|log| - 1];
      assert log == log[..|log| - 1] + [e];
      assert e in log;
      if e.index < k then k else e.index + 1
  }

  /** Each migration does nothing on every state reached at or after its own application. */
  ghost predicate NoOpAfterwards<D>(apply: (D, nat) -> D, d: D, n: nat) {
    forall i: nat, k: nat :: i < k <= n ==> NoOpOn(apply, d, i, k)
  }

  ghost predicate NoOpOn<D>(apply: (D, nat) -> D, d: D, i: nat, k: nat) {
    apply(After(apply, d, k), i) == After(apply, d, k)
  }

  lemma {:induction false} ReplayIsAfter<D>(apply: (D, nat) -> D, d: D, n: nat, log: seq<Entry>)
    requires NoOpAfterwards(apply, d, n)
    requires Contiguous(log) && OneRunEach(log) && forall e :: e in log ==> e.index < n
    ensures Replay(apply, d, log) == After(apply, d, High(log))
  {
    if log != [] {
      var front, e := log[..|log| - 1], log[|log| - 1];
      WithoutLastEntry(log);
      assert e in log;
      ReplayIsAfter(apply, d, n, front);
      var k := High(front);
      if e.index > 0 { assert front[|front| - 1] in front; }
      assert e.index <= k;
      assert k <= n by {
        if k > 0 {
          var x :| x in front && x.index == k - 1;
          assert x in log;
        }
      }
      if e.index < k { assert NoOpOn(apply, d, e.index, k); }
    }
  }

  /** Replaying a block of the same migrations on top of `k >= j` of them. */
  lemma HighOfTwoRuns(k: nat, j: nat)
    requires j <= k
    ensures High(Block(Run(0, k)) + Block(Run(1, j))) == k
  {
    var log := Block(Run(0, k)) + Block(Run(1, j));
    if k > 0 { assert log[k - 1] == Entry(0, k - 1) && Entry(0, k - 1) in log; }
    if High(log) > 0 {
      var e :| e in log && e.index == High(log) - 1;
    }
  }

  lemma TwoRunsReachable(n: nat, k: nat, j: nat) returns (s: System)
    requires 0 < j <= k <= n
    ensures Reachable(n, s) && s.log == Block(Run(0, k)) + Block(Run(1, j))
  {
    var runs := [Run(0, k), Run(1, j)];
    s := EveryRunSequenceHappens(n, runs);
    assert runs[..1] == [Run(0, k)] && [Run(0, k)][..0] == [];
    assert Expand([Run(0, k)]) == Expand([]) + Block(Run(0, k)) == Block(Run(0, k));
  }

  /** If every reachable state is the state after a prefix, then rerunning the first migrations
      over `k` of them changes nothing. */
  lemma NoOpIsNecessary<D>(apply: (D, nat) -> D, d: D, n: nat, i: nat, k: nat)
    requires forall s :: Reachable(n, s) ==> Replay(apply, d, s.log) == After(apply, d, High(s.log))
    requires i < k <= n
    ensures NoOpOn(apply, d, i, k)
  {
    var s := TwoRunsReachable(n, k, i + 1);
    var front := Block(Run(0, k)) + Block(Run(1, i));
    assert Block(Run(1, i + 1)) == Block(Run(1, i)) + [Entry(1, i)];
    assert s.log == front + [Entry(1, i)];
    assert s.log[..|s.log| - 1] == front;
    HighOfTwoRuns(k, i + 1);
    HighOfTwoRuns(k, i);
    var s' := FrontReachable(n, k, i);
    assert Replay(apply, d, front) == After(apply, d, k);
  }

  lemma FrontReachable(n: nat, k: nat, i: nat) returns (s: System)
    requires i < k <= n
    ensures Reachable(n, s) && s.log == Block(Run(0, k)) + Block(Run(1, i))
  {
    if i > 0 {
      s := TwoRunsReachable(n, k, i);
    } else {
      var runs := [Run(0, k)];
      s := EveryRunSequenceHappens(n, runs);
      assert runs[..0] == [];
      assert Expand(runs) == Block(Run(0, k)) == Block(Run(0, k)) + Block(Run(1, 0));
    }
  }

  /** The database is, in every reachable state, the state after the first `High` migrations
      applied once — exactly when every migration is a no-op from its own application on. */
  lemma ConvergesExactlyWhen<D>(apply: (D, nat) -> D, d: D, n: nat)
    ensures (forall s :: Reachable(n, s) ==> Replay(apply, d, s.log) == After(apply, d, High(s.log)))
            <==> NoOpAfterwards(apply, d, n)
  {
    if NoOpAfterwards(apply, d, n) {
      forall s | Reachable(n, s) ensures Replay(apply, d, s.log) == After(apply, d, High(s.log)) {
        ReachableInv(n, s);
        ReplayIsAfter(apply, d, n, s.log);
      }
    }
    if forall s :: Reachable(n, s) ==> Replay(apply, d, s.log) == After(apply, d, High(s.log)) {
      forall i: nat, k: nat | i < k <= n ensures NoOpOn(apply, d, i, k) {
        NoOpIsNecessary(apply, d, n, i, k);
      }
    }
  }

  /** A migration that flips one bit: the database is always the state after some prefix, although
      the migration is no no-op on the state after it. */
  function Toggle(): (bool, nat) -> bool { (d, i) => !d }

  /** So the prefix has to be named: being the state after some prefix says less than converging. */
  lemma SomePrefixIsWeaker(s: System)
    requires Reachable(1, s)
    ensures exists k :: 0 <= k <= 1 && Replay(Toggle(), false, s.log) == After(Toggle(), false, k)
    ensures !NoOpAfterwards(Toggle(), false, 1)
  {
    var flip := Toggle();
    assert After(flip, false, 0) == false && After(flip, false, 1) == true;
    assert Replay(flip, false, s.log) == After(flip, false, if Replay(flip, false, s.log) then 1 else 0);
    assert !NoOpOn(flip, false, 0, 1);
  }

  lemma {:induction false} LogOnlyGrows(n: nat, s: System, steps: seq<Step>)
    requires Exec(n, s, steps).Some?
    ensures s.log <= Exec(n, s, steps).value.log
    decreases |steps|
  {
    if steps != [] { LogOnlyGrows(n, Do(n, s, steps[0]).value, steps[1..]); }
  }

  /** Progress is never undone: along any run the high mark only rises. */
  lemma HighNeverDecreases(n: nat, s: System, steps: seq<Step>)
    requires Exec(n, s, steps).Some?
    ensures High(s.log) <= High(Exec(n, s, steps).value.log)
  {
    LogOnlyGrows(n, s, steps);
    if High(s.log) > 0 {
      var e :| e in s.log && e.index == High(s.log) - 1;
      assert e in Exec(n, s, steps).value.log;
    }
  }

  /** A runner that was enabled and exits with 0 leaves the list fully applied, and it stays so in
      every later state. */
  lemma CompletedRunnerMeansComplete(n: nat, s: System, r: nat, later: seq<Step>)
    requires Reachable(n, s) && r in s.runners && Exec(n, s, later).Some?
    requires s.runners[r].phase == Exited(0) && AllowedToRun(s.runners[r])
    ensures High(Exec(n, s, later).value.log) == n
  {
    ReachableInv(n, s);
    var s' := Exec(n, s, later).value;
    RunKeepsInv(n, s, later);
    LogOnlyGrows(n, s, later);
    assert Complete(n, s.log, r);
    if n > 0 { assert Entry(r, n - 1) in s'.log; }
    if High(s'.log) > 0 { var e :| e in s'.log && e.index == High(s'.log) - 1; }
  }

  /** A runner that is not enabled, or has no database URL, never touches the database. */
  lemma DisabledRunnerAppliesNothing(n: nat, s: System, r: nat)
    requires Reachable(n, s) && r in s.runners && !AllowedToRun(s.runners[r])
    ensures Untouched(s.log, r)
  {
    ReachableInv(n, s);
  }

  // ---------------------------------------------------------------------------------------------
  // Recovery
  // ---------------------------------------------------------------------------------------------

  lemma {:induction false} FreshId(used: set<nat>) returns (r: nat)
    ensures r !in used
    ensures forall u :: u in used ==> u < r
    decreases |used|
  {
    if used == {} {
      r := 0;
    } else {
      var u :| u in used;
      var rest := FreshId(used - {u});
      r := if u < rest then rest else u + 1;
      forall x | x in used ensures x < r { if x != u { assert x in used - {u}; } }
    }
  }

  predicate FaultFree(steps: seq<Step>) { forall step :: step in steps ==> !Fault(step.action) }

  lemma FaultFreeConcat(a: seq<Step>, b: seq<Step>)
    requires FaultFree(a) && FaultFree(b)
    ensures FaultFree(a + b)
  {
  }

  /** A runner in the middle of the list that meets no fault applies the rest and unlocks. */
  lemma FinishesAndUnlocks(n: nat, s: System, r: nat, i: nat) returns (steps: seq<Step>, s': System)
    requires r in s.runners && s.runners[r].phase == Applying(i) && i <= n && s.lock == Some(r)
    ensures Exec(n, s, steps) == Some(s') && s'.lock.None? && s'.runners.Keys == s.runners.Keys && FaultFree(steps)
  {
    var middle := ApplySome(n, s, r, i, n - i);
    var s1 := Exec(n, s, middle).value;
    var last, s2 := UnlocksAtEnd(n, s1, r);
    steps, s' := middle + last, s2;
    FaultFreeConcat(middle, last);
    ExecConcat(n, s, middle, last);
  }

  lemma UnlocksAtEnd(n: nat, s: System, r: nat) returns (steps: seq<Step>, s': System)
    requires r in s.runners && s.runners[r].phase == Applying(n) && s.lock == Some(r)
    ensures Exec(n, s, steps) == Some(s') && s'.lock.None? && s'.runners.Keys == s.runners.Keys && FaultFree(steps)
  {
    var a, b := Step(r, AllApplied), Step(r, Unlock);
    var s1 := OneStep(n, s, a);
    s' := OneStep(n, s1, b);
    steps := [a] + [b];
    ExecConcat(n, s, [a], [b]);
  }

  /** Nobody can block the others for good: a lock holder that meets no fault gives the lock back. */
  lemma LockCanBeFreed(n: nat, s: System) returns (steps: seq<Step>, s': System)
    requires Inv(n, s)
    ensures Exec(n, s, steps) == Some(s') && s'.lock.None? && s'.runners.Keys == s.runners.Keys && FaultFree(steps)
  {
    if s.lock.None? {
      steps, s' := [], s;
    } else {
      var r := s.lock.value;
      if s.runners[r].phase.Applying? {
        steps, s' := FinishesAndUnlocks(n, s, r, s.runners[r].phase.next);
      } else {
        var step := Step(r, if s.runners[r].phase.Unlocking? then Unlock else Close);
        steps := [step];
        s' := OneStep(n, s, step);
      }
    }
  }

  lemma OneStep(n: nat, s: System, step: Step) returns (s': System)
    requires Do(n, s, step).Some?
    ensures Do(n, s, step) == Some(s') && Exec(n, s, [step]) == Some(s')
  {
    s' := Do(n, s, step).value;
    assert [step][1..] == [];
  }

  /** A new runner that meets no fault runs to a clean exit. */
  lemma CleanRunHappens(n: nat, s: System, r: nat) returns (steps: seq<Step>, s': System)
    requires s.lock.None? && r !in s.runners
    ensures Exec(n, s, steps) == Some(s') && r in s'.runners && s'.runners[r] == Runner(true, true, Exited(0))
    ensures FaultFree(steps)
  {
    var prelude := [Step(r, Spawn(true, true)), Step(r, Gate), Step(r, SetTimeout), Step(r, Acquire)];
    var s0 := System(s.runners[r := Runner(true, true, Applying(0))], Some(r), s.log);
    PreludeRuns(n, s, r);
    var rest;
    rest, s' := AppliesAndExits(n, s0, r);
    steps := prelude + rest;
    FaultFreeConcat(prelude, rest);
    ExecConcat(n, s, prelude, rest);
  }

  lemma AppliesAndExits(n: nat, s: System, r: nat) returns (steps: seq<Step>, s': System)
    requires r in s.runners && s.runners[r] == Runner(true, true, Applying(0)) && s.lock == Some(r)
    ensures Exec(n, s, steps) == Some(s') && r in s'.runners && s'.runners[r] == Runner(true, true, Exited(0))
    ensures FaultFree(steps)
  {
    var middle := ApplySome(n, s, r, 0, n);
    var s1 := Exec(n, s, middle).value;
    var end := [Step(r, AllApplied), Step(r, Unlock), Step(r, Close)];
    s' := ClosingRuns(n, s1, r);
    steps := middle + end;
    FaultFreeConcat(middle, end);
    ExecConcat(n, s, middle, end);
  }

  lemma ClosingRuns(n: nat, s: System, r: nat) returns (s': System)
    requires r in s.runners && s.runners[r] == Runner(true, true, Applying(n)) && s.lock == Some(r)
    ensures Exec(n, s, [Step(r, AllApplied), Step(r, Unlock), Step(r, Close)]) == Some(s')
    ensures r in s'.runners && s'.runners[r] == Runner(true, true, Exited(0))
  {
    var a, b, c := Step(r, AllApplied), Step(r, Unlock), Step(r, Close);
    var s1 := Do(n, s, a).value;
    var s2 := Do(n, s1, b).value;
    s' := Do(n, s2, c).value;
    assert [a, b, c][1..] == [b, c] && [b, c][1..] == [c] && [c][1..] == [];
    assert Exec(n, s2, [c]) == Exec(n, s', []) == Some(s');
    assert Exec(n, s1, [b, c]) == Exec(n, s2, [c]);
  }

  /** From every reachable state, whatever has failed or crashed so far, the list can still be
      brought to completion by one more runner, without any further fault. */
  lemma CompletionStaysPossible(n: nat, s: System) returns (steps: seq<Step>, r: nat)
    requires Reachable(n, s)
    ensures Exec(n, s, steps).Some?
    ensures var s' := Exec(n, s, steps).value;
            r !in s.runners && r in s'.runners && s'.runners[r].phase == Exited(0) && High(s'.log) == n
    ensures FaultFree(steps)
  {
    ReachableInv(n, s);
    var first, mid := LockCanBeFreed(n, s);
    r := FreshId(s.runners.Keys);
    var second, end := CleanRunHappens(n, mid, r);
    steps := first + second;
    FaultFreeConcat(first, second);
    ExecConcat(n, s, first, second);
    ReachableThen(n, s, steps);
    assert Exec(n, end, []) == Some(end);
    CompletedRunnerMeansComplete(n, end, r, []);
  }
}
