/**
 The advisory-lock migration runner as a concurrent protocol: any number of runner processes, one
 session lock, one ordered list of migrations, no ledger, and faults at every step.
 */
module MigrationRunner {
  import opened Wrappers

  // ---------------------------------------------------------------------------------------------
  // The processes and the database server
  // ---------------------------------------------------------------------------------------------

  /** Where a runner process is. The lock is held while `Applying` and `Unlocking`; a session whose
      unlock failed, or whose lock call failed after the lock was granted, still holds it while
      `Closing`. */
  datatype Phase =
    | Starting
    | Connected
    | Waiting
    | Applying(next: nat)
    | Unlocking(clean: bool)
    | Closing(clean: bool)
    | Exited(code: int)
    | Crashed

  datatype Runner = Runner(enabled: bool, hasUrl: bool, phase: Phase)

  /** One migration file, by position in the ordered list, applied by one runner. */
  datatype Entry = Entry(runner: nat, index: nat)

  datatype System = System(runners: map<nat, Runner>, lock: Option<nat>, log: seq<Entry>)

  const INIT: System := System(map[], None, [])

  datatype Action =
    | Spawn(enabled: bool, hasUrl: bool)
    | Gate           // main(): plan only, missing URL, or a connection is opened
    | ConnectFails
    | SetTimeout
    | SetTimeoutFails
    | Acquire
    | AcquireThenFails
    | LockTimesOut
    | ApplyNext
    | ApplyFails
    | ApplyThenFails
    | AllApplied
    | Unlock
    | UnlockFails
    | UnlockThenFails
    | Close
    | Crash

  /** The actions in which something goes wrong. */
  predicate Fault(a: Action) {
    a.ConnectFails? || a.SetTimeoutFails? || a.AcquireThenFails? || a.LockTimesOut? || a.ApplyFails?
    || a.ApplyThenFails? || a.UnlockFails? || a.UnlockThenFails? || a.Crash?
  }

  datatype Step = Step(runner: nat, action: Action)

  function Released(lock: Option<nat>, r: nat): Option<nat> { if lock == Some(r) then None else lock }

  predicate Live(p: Phase) { !p.Exited? && !p.Crashed? }

  /** The effect of one action of an existing runner, when it can happen in its phase: the new
      phase, the new lock and whether a migration was applied. `n` is the number of migrations. */
  function Act(n: nat, me: Runner, r: nat, lock: Option<nat>, a: Action): Option<(Phase, Option<nat>, bool)> {
    match (a, me.phase)
    case (Gate, Starting) =>
      Some((if !me.enabled then Exited(0) else if !me.hasUrl then Exited(2) else Connected, lock, false))
    case (ConnectFails, Starting) => if me.enabled && me.hasUrl then Some((Exited(1), lock, false)) else None
    case (SetTimeout, Connected) => Some((Waiting, lock, false))
    case (SetTimeoutFails, Connected) => Some((Closing(false), lock, false))
    case (Acquire, Waiting) => if lock.None? then Some((Applying(0), Some(r), false)) else None
    case (AcquireThenFails, Waiting) => if lock.None? then Some((Closing(false), Some(r), false)) else None
    case (LockTimesOut, Waiting) => Some((Closing(false), lock, false))
    case (ApplyNext, Applying(i)) => if i < n then Some((Applying(i + 1), lock, true)) else None
    case (ApplyFails, Applying(i)) => if i < n then Some((Unlocking(false), lock, false)) else None
    case (ApplyThenFails, Applying(i)) => if i < n then Some((Unlocking(false), lock, true)) else None
    case (AllApplied, Applying(i)) => if i == n then Some((Unlocking(true), lock, false)) else None
    case (Unlock, Unlocking(clean)) => Some((Closing(clean), Released(lock, r), false))
    case (UnlockFails, Unlocking(clean)) => Some((Closing(false), lock, false))
    case (UnlockThenFails, Unlocking(clean)) => Some((Closing(false), Released(lock, r), false))
    case (Close, Closing(clean)) => Some((Exited(if clean then 0 else 1), Released(lock, r), false))
    case (Crash, p) => if Live(p) then Some((Crashed, Released(lock, r), false)) else None
    case _ => None
  }

  function Do(n: nat, s: System, step: Step): Option<System> {
    var r := step.runner;
    if step.action.Spawn? then
      if r in s.runners then None
      else Some(s.(runners := s.runners[r := Runner(step.action.enabled, step.action.hasUrl, Starting)]))
    else if r !in s.runners then None
    else match Act(n, s.runners[r], r, s.lock, step.action)
      case None => None
      case Some((phase, lock, applied)) =>
        Some(System(
          s.runners[r := s.runners[r].(phase := phase)],
          lock,
          if applied && s.runners[r].phase.Applying?
          then s.log + [Entry(r, s.runners[r].phase.next)] else s.log))
  }

  function Exec(n: nat, s: System, steps: seq<Step>): Option<System>
    decreases |steps|
  {
    if steps == [] then Some(s)
    else match Do(n, s, steps[0])
      case None => None
      case Some(s') => Exec(n, s', steps[1..])
  }

  lemma {:induction false} ExecConcat(n: nat, s: System, a: seq<Step>, b: seq<Step>)
    ensures Exec(n, s, a + b) == match Exec(n, s, a) case None => None case Some(s') => Exec(n, s', b)
    decreases |a|
  {
    if a == [] {
      assert a + b == b;
    } else {
      assert (a + b)[1..] == a[1..] + b;
      match Do(n, s, a[0]) {
        case None =>
        case Some(s') => ExecConcat(n, s', a[1..], b);
      }
    }
  }

  // ---------------------------------------------------------------------------------------------
  // Invariant
  // ---------------------------------------------------------------------------------------------

  /** Between taking the lock and giving it back. */
  predicate Critical(p: Phase) { p.Applying? || p.Unlocking? }

  predicate MayHold(p: Phase) { Critical(p) || p.Closing? }

  /** Every entry starts a run at the first migration or continues the previous entry's run. */
  predicate Contiguous(log: seq<Entry>) {
    forall k :: 0 <= k < |log| ==> Continues(log, k)
  }

  predicate Continues(log: seq<Entry>, k: int)
    requires 0 <= k < |log|
  {
    log[k].index == 0 || (k > 0 && log[k - 1] == Entry(log[k].runner, log[k].index - 1))
  }

  /** No runner starts a second run. */
  predicate OneRunEach(log: seq<Entry>) {
    forall j, k :: 0 <= j < k < |log| && log[j].index == 0 && log[k].index == 0 ==>
      log[j].runner != log[k].runner
  }

  /** What the log says about a runner in a given phase. */
  predicate LogAgrees(log: seq<Entry>, r: nat, p: Phase) {
    match p
    case Applying(i) => if i == 0 then Untouched(log, r) else |log| > 0 && log[|log| - 1] == Entry(r, i - 1)
    case Starting => Untouched(log, r)
    case Connected => Untouched(log, r)
    case Waiting => Untouched(log, r)
    case _ => true
  }

  predicate Untouched(log: seq<Entry>, r: nat) { forall e :: e in log ==> e.runner != r }

  /** The runner got through the whole list without an exception. */
  predicate Finished(me: Runner) {
    me.phase == Unlocking(true) || me.phase == Closing(true)
    || (me.phase == Exited(0) && me.enabled && me.hasUrl)
  }

  predicate AllowedToRun(me: Runner) { me.enabled && me.hasUrl }

  predicate Complete(n: nat, log: seq<Entry>, r: nat) { n == 0 || Entry(r, n - 1) in log }

  predicate RunnerOk(n: nat, log: seq<Entry>, r: nat, me: Runner) {
    && (Finished(me) ==> Complete(n, log, r))
    && (Live(me.phase) && !me.phase.Starting? ==> AllowedToRun(me))
    && (me.phase.Exited? ==> ExitOk(me, me.phase.code))
  }

  /** A disabled runner exits with 0, an enabled one without a database URL with 2, any other with 0
      or 1. */
  predicate ExitOk(me: Runner, code: int) {
    if !me.enabled then code == 0 else if !me.hasUrl then code == 2 else code == 0 || code == 1
  }

  /** Whoever is between lock and unlock holds the lock, and only a runner that may hold it does. */
  predicate LockInv(n: nat, s: System) {
    && (forall r :: r in s.runners && Critical(s.runners[r].phase) ==> s.lock == Some(r))
    && (s.lock.Some? ==> s.lock.value in s.runners && MayHold(s.runners[s.lock.value].phase))
    && (forall r :: r in s.runners && s.runners[r].phase.Applying? ==> s.runners[r].phase.next <= n)
  }

  predicate LogInv(n: nat, s: System) {
    && (forall r :: r in s.runners ==> LogAgrees(s.log, r, s.runners[r].phase))
    && (forall e :: e in s.log ==> e.runner in s.runners && e.index < n && AllowedToRun(s.runners[e.runner]))
    && (forall r :: r in s.runners ==> RunnerOk(n, s.log, r, s.runners[r]))
    && Contiguous(s.log) && OneRunEach(s.log)
  }

  predicate Inv(n: nat, s: System) { LockInv(n, s) && LogInv(n, s) }

  lemma AppendKeepsLog(log: seq<Entry>, r: nat, i: nat)
    requires Contiguous(log) && OneRunEach(log) && LogAgrees(log, r, Applying(i))
    ensures Contiguous(log + [Entry(r, i)]) && OneRunEach(log + [Entry(r, i)])
  {
    var log' := log + [Entry(r, i)];
    forall k | 0 <= k < |log'| ensures Continues(log', k) {
      if k < |log| { assert Continues(log, k); assert log'[k] == log[k]; }
      if k > 0 { assert log'[k - 1] == log[k - 1]; }
    }
    if i == 0 {
      forall j | 0 <= j < |log| ensures log[j].runner != r { assert log[j] in log; }
    }
  }

  /** Only the lock holder is in the middle of a run, so others' claims about the log survive. */
  lemma AppendKeepsOthers(log: seq<Entry>, r: nat, i: nat, q: nat, p: Phase)
    requires q != r && LogAgrees(log, q, p) && !p.Applying?
    ensures LogAgrees(log + [Entry(r, i)], q, p)
  {
  }

  lemma SpawnKeepsInv(n: nat, s: System, step: Step)
    requires Inv(n, s) && step.action.Spawn? && Do(n, s, step).Some?
    ensures Inv(n, Do(n, s, step).value)
  {
    assert Untouched(s.log, step.runner);
  }

  /** How one action can change the lock, and what it leaves the runner's phase to say. */
  lemma ActFacts(n: nat, me: Runner, r: nat, lock: Option<nat>, a: Action, log: seq<Entry>)
    requires Act(n, me, r, lock, a).Some?
    requires Critical(me.phase) ==> lock == Some(r)
    requires LogAgrees(log, r, me.phase) && (me.phase.Applying? ==> me.phase.next <= n)
    requires RunnerOk(n, log, r, me)
    ensures var (phase, lock', applied) := Act(n, me, r, lock, a).value;
            && (lock' == lock || (lock.None? && lock' == Some(r)) || (lock == Some(r) && lock'.None?))
            && (Critical(phase) ==> lock' == Some(r))
            && (lock' == Some(r) && (lock == Some(r) ==> MayHold(me.phase)) ==> MayHold(phase))
            && (applied ==> me.phase.Applying? && me.phase.next < n)
            && (phase.Applying? ==> phase.next <= n)
            && (applied ==> AllowedToRun(me))
            && (if applied then LogAgrees(log + [Entry(r, me.phase.next)], r, phase)
                                && RunnerOk(n, log + [Entry(r, me.phase.next)], r, me.(phase := phase))
                else LogAgrees(log, r, phase) && RunnerOk(n, log, r, me.(phase := phase)))
  {
    if a.AllApplied? && me.phase == Applying(n) && n > 0 { assert log[|log| - 1] in log; }
  }

  lemma UpdateKeepsLockInv(n: nat, s: System, r: nat, phase: Phase, lock: Option<nat>, log: seq<Entry>)
    requires LockInv(n, s) && r in s.runners
    requires lock == s.lock || (s.lock.None? && lock == Some(r)) || (s.lock == Some(r) && lock.None?)
    requires Critical(phase) ==> lock == Some(r)
    requires lock == Some(r) ==> MayHold(phase)
    requires phase.Applying? ==> phase.next <= n
    ensures LockInv(n, System(s.runners[r := s.runners[r].(phase := phase)], lock, log))
  {
  }

  lemma UpdateKeepsLogInv(n: nat, s: System, r: nat, phase: Phase, lock: Option<nat>, log: seq<Entry>)
    requires LogInv(n, s) && r in s.runners
    requires forall q :: q in s.runners && q != r && s.runners[q].phase.Applying? ==> log == s.log
    requires LogAgrees(log, r, phase) && RunnerOk(n, log, r, s.runners[r].(phase := phase))
    requires log == s.log
             || (AllowedToRun(s.runners[r]) && s.runners[r].phase.Applying? && s.runners[r].phase.next < n
                 && log == s.log + [Entry(r, s.runners[r].phase.next)])
    ensures LogInv(n, System(s.runners[r := s.runners[r].(phase := phase)], lock, log))
  {
    var me := s.runners[r];
    if log != s.log { AppendKeepsLog(s.log, r, me.phase.next); }
    forall q | q in s.runners && q != r ensures LogAgrees(log, q, s.runners[q].phase) {
      if log != s.log { AppendKeepsOthers(s.log, r, me.phase.next, q, s.runners[q].phase); }
    }
  }

  lemma ActKeepsInv(n: nat, s: System, step: Step)
    requires Inv(n, s) && !step.action.Spawn? && Do(n, s, step).Some?
    ensures Inv(n, Do(n, s, step).value)
  {
    var r := step.runner;
    var me := s.runners[r];
    ActFacts(n, me, r, s.lock, step.action, s.log);
    var (phase, lock, applied) := Act(n, me, r, s.lock, step.action).value;
    var log := if applied then s.log + [Entry(r, me.phase.next)] else s.log;
    UpdateKeepsLockInv(n, s, r, phase, lock, log);
    UpdateKeepsLogInv(n, s, r, phase, lock, log);
  }

  lemma {:induction false} RunKeepsInv(n: nat, s: System, steps: seq<Step>)
    requires Inv(n, s) && Exec(n, s, steps).Some?
    ensures Inv(n, Exec(n, s, steps).value)
    decreases |steps|
  {
    if steps != [] {
      if steps[0].action.Spawn? { SpawnKeepsInv(n, s, steps[0]); } else { ActKeepsInv(n, s, steps[0]); }
      RunKeepsInv(n, Do(n, s, steps[0]).value, steps[1..]);
    }
  }

  // ---------------------------------------------------------------------------------------------
  // Safety of every interleaving
  // ---------------------------------------------------------------------------------------------

  ghost predicate Reachable(n: nat, s: System) { exists steps :: Exec(n, INIT, steps) == Some(s) }

  lemma ReachableInv(n: nat, s: System)
    requires Reachable(n, s)
    ensures Inv(n, s)
  {
    var steps :| Exec(n, INIT, steps) == Some(s);
    RunKeepsInv(n, INIT, steps);
  }

  /** At most one runner is between lock and unlock, in every interleaving and whatever fails. */
  lemma MutualExclusion(n: nat, s: System, q: nat, r: nat)
    requires Reachable(n, s) && q in s.runners && r in s.runners
    requires Critical(s.runners[q].phase) && Critical(s.runners[r].phase)
    ensures q == r
  {
    ReachableInv(n, s);
  }

  /** What an exit code says in every reachable state, whatever happened on the way. */
  lemma ExitCodeSays(n: nat, s: System, r: nat)
    requires Reachable(n, s) && r in s.runners && s.runners[r].phase.Exited?
    ensures var me := s.runners[r];
            && (me.phase.code == 2 <==> me.enabled && !me.hasUrl)
            && (me.phase.code == 1 ==> me.enabled && me.hasUrl)
            && (me.phase.code == 0 ==> !me.enabled || (n > 0 ==> Entry(r, n - 1) in s.log))
            && me.phase.code in {0, 1, 2}
  {
    ReachableInv(n, s);
  }

  /** A runner's contribution: the first `count` migrations in order. */
  datatype Run = Run(runner: nat, count: nat)

  function Block(r: Run): (b: seq<Entry>)
    ensures |b| == r.count && forall i :: 0 <= i < r.count ==> b[i] == Entry(r.runner, i)
  {
    seq(r.count, i requires 0 <= i => Entry(r.runner, i))
  }

  function Expand(runs: seq<Run>): seq<Entry> {
    if runs == [] then [] else Expand(runs[..|runs| - 1]) + Block(runs[|runs| - 1])
  }

  predicate LegalRuns(n: nat, runs: seq<Run>) {
    (forall i :: 0 <= i < |runs| ==> 0 < runs[i].count <= n)
    && forall i, j :: 0 <= i < j < |runs| ==> runs[i].runner != runs[j].runner
  }

  lemma {:induction false} RunStartsInLog(runs: seq<Run>, i: nat)
    requires i < |runs| && runs[i].count > 0
    ensures Entry(runs[i].runner, 0) in Expand(runs)
  {
    var m := |runs| - 1;
    if i < m {
      assert runs[..m][i] == runs[i];
      RunStartsInLog(runs[..m], i);
    } else {
      assert Block(runs[m])[0] == Entry(runs[i].runner, 0);
    }
  }

  /** A contiguous log is a sequence of whole runs. */
  lemma {:induction false} LogIsRuns(n: nat, log: seq<Entry>) returns (runs: seq<Run>)
    requires Contiguous(log) && OneRunEach(log) && forall e :: e in log ==> e.index < n
    ensures LegalRuns(n, runs) && Expand(runs) == log
  {
    if log == [] {
      runs := [];
    } else {
      var front, e := log[..|log| - 1], log[|log| - 1];
      WithoutLastEntry(log);
      runs := LogIsRuns(n, front);
      assert log == front + [e] && e in log;
      if e.index == 0 {
        runs := StartsFreshRun(n, front, e, runs);
      } else {
        runs := ExtendLastRun(n, front, e, runs);
      }
    }
  }

  lemma WithoutLastEntry(log: seq<Entry>)
    requires log != [] && Contiguous(log) && OneRunEach(log)
    ensures var front, e := log[..|log| - 1], log[|log| - 1];
            Contiguous(front) && OneRunEach(front)
            && (e.index > 0 ==> front != [] && front[|front| - 1] == Entry(e.runner, e.index - 1))
  {
    var front := log[..|log| - 1];
    forall k | 0 <= k < |front| ensures Continues(front, k) { assert Continues(log, k); }
    assert Continues(log, |log| - 1);
  }

  lemma StartsFreshRun(n: nat, front: seq<Entry>, e: Entry, runs: seq<Run>) returns (runs': seq<Run>)
    requires LegalRuns(n, runs) && Expand(runs) == front && e.index == 0 && e.index < n
    requires OneRunEach(front + [e])
    ensures LegalRuns(n, runs') && Expand(runs') == front + [e]
  {
    runs' := runs + [Run(e.runner, 1)];
    assert runs'[..|runs|] == runs;
    assert Block(Run(e.runner, 1)) == [e];
    forall i | 0 <= i < |runs| ensures runs[i].runner != e.runner {
      RunStartsInLog(runs, i);
      var j :| 0 <= j < |front| && front[j] == Entry(runs[i].runner, 0);
      assert (front + [e])[j] == front[j] && (front + [e])[|front|] == e;
    }
  }

  lemma ExpandLast(runs: seq<Run>, run: Run)
    ensures Expand(runs + [run]) == Expand(runs) + Block(run)
  {
    assert (runs + [run])[..|runs|] == runs;
  }

  lemma LastEntryIs(runs: seq<Run>, run: Run, e: Entry)
    requires run.count > 0 && Expand(runs + [run]) != [] && Expand(runs + [run])[|Expand(runs + [run])| - 1] == e
    ensures e == Entry(run.runner, run.count - 1)
  {
    ExpandLast(runs, run);
    assert Block(run)[run.count - 1] == e;
  }

  lemma LongerBlock(run: Run, e: Entry)
    requires e == Entry(run.runner, run.count)
    ensures Block(Run(run.runner, run.count + 1)) == Block(run) + [e]
  {
  }

  lemma ExtendLastRun(n: nat, front: seq<Entry>, e: Entry, runs: seq<Run>) returns (runs': seq<Run>)
    requires LegalRuns(n, runs) && Expand(runs) == front && 0 < e.index < n
    requires front != [] && front[|front| - 1] == Entry(e.runner, e.index - 1)
    ensures LegalRuns(n, runs') && Expand(runs') == front + [e]
  {
    var m := |runs| - 1;
    var init, last := runs[..m], runs[m];
    assert runs == init + [last];
    LastEntryIs(init, last, front[|front| - 1]);
    var longer := Run(last.runner, last.count + 1);
    runs' := init + [longer];
    ExpandLast(init, last);
    ExpandLast(init, longer);
    LongerBlock(last, e);
  }

  /** In every reachable state the applied log is a concatenation of prefixes of the ordered list,
      one per runner, never interleaved. */
  lemma LogIsConcatenationOfPrefixes(n: nat, s: System) returns (runs: seq<Run>)
    requires Reachable(n, s)
    ensures LegalRuns(n, runs) && s.log == Expand(runs)
  {
    ReachableInv(n, s);
    runs := LogIsRuns(n, s.log);
  }

  // ---------------------------------------------------------------------------------------------
  // Every such log can happen
  // ---------------------------------------------------------------------------------------------

  lemma {:induction false} ApplySome(n: nat, s: System, r: nat, from: nat, count: nat) returns (steps: seq<Step>)
    requires from + count <= n && r in s.runners && s.runners[r].phase == Applying(from)
    ensures Exec(n, s, steps) == Some(System(
              s.runners[r := s.runners[r].(phase := Applying(from + count))], s.lock,
              s.log + seq(count, i requires 0 <= i => Entry(r, from + i))))
    ensures forall step :: step in steps ==> step == Step(r, ApplyNext)
    decreases count
  {
    if count == 0 {
      steps := [];
      assert s.runners[r := s.runners[r].(phase := Applying(from))] == s.runners;
      assert s.log + seq(0, i requires 0 <= i => Entry(r, from + i)) == s.log;
    } else {
      var first := Step(r, ApplyNext);
      var s' := Do(n, s, first).value;
      var rest := ApplySome(n, s', r, from + 1, count - 1);
      steps := [first] + rest;
      assert steps[1..] == rest;
      assert s'.log + seq(count - 1, i requires 0 <= i => Entry(r, from + 1 + i))
             == s.log + seq(count, i requires 0 <= i => Entry(r, from + i));
      var last := s.runners[r].(phase := Applying(from + count));
      assert s'.runners[r := s'.runners[r].(phase := Applying(from + 1 + (count - 1)))] == s.runners[r := last];
    }
  }

  /** A new runner starts, gets the lock, applies a prefix and crashes. */
  lemma OneRunHappens(n: nat, s: System, run: Run) returns (steps: seq<Step>, s': System)
    requires s.lock.None? && run.runner !in s.runners && run.count <= n
    ensures Exec(n, s, steps) == Some(s')
    ensures s'.lock.None? && s'.log == s.log + Block(run) && s'.runners.Keys == s.runners.Keys + {run.runner}
  {
    var r := run.runner;
    var prelude := [Step(r, Spawn(true, true)), Step(r, Gate), Step(r, SetTimeout), Step(r, Acquire)];
    var s0 := System(s.runners[r := Runner(true, true, Applying(0))], Some(r), s.log);
    assert Exec(n, s, prelude) == Some(s0) by { PreludeRuns(n, s, r); }
    var middle := ApplySome(n, s0, r, 0, run.count);
    var s1 := Exec(n, s0, middle).value;
    assert s1.log == s.log + Block(run);
    var end := [Step(r, Crash)];
    s' := Do(n, s1, end[0]).value;
    assert Exec(n, s1, end) == Some(s') by { assert end[1..] == []; }
    steps := prelude + (middle + end);
    ExecConcat(n, s0, middle, end);
    ExecConcat(n, s, prelude, middle + end);
  }

  lemma PreludeRuns(n: nat, s: System, r: nat)
    requires s.lock.None? && r !in s.runners
    ensures Exec(n, s, [Step(r, Spawn(true, true)), Step(r, Gate), Step(r, SetTimeout), Step(r, Acquire)])
            == Some(System(s.runners[r := Runner(true, true, Applying(0))], Some(r), s.log))
  {
    var a, b, c, d := Step(r, Spawn(true, true)), Step(r, Gate), Step(r, SetTimeout), Step(r, Acquire);
    var s1 := System(s.runners[r := Runner(true, true, Starting)], None, s.log);
    var s2 := System(s.runners[r := Runner(true, true, Connected)], None, s.log);
    var s3 := System(s.runners[r := Runner(true, true, Waiting)], None, s.log);
    var s4 := System(s.runners[r := Runner(true, true, Applying(0))], Some(r), s.log);
    assert Do(n, s, a) == Some(s1);
    assert s1.runners[r := Runner(true, true, Connected)] == s2.runners;
    assert Do(n, s1, b) == Some(s2);
    assert s2.runners[r := Runner(true, true, Waiting)] == s3.runners;
    assert Do(n, s2, c) == Some(s3);
    assert s3.runners[r := Runner(true, true, Applying(0))] == s4.runners;
    assert Do(n, s3, d) == Some(s4);
    assert [a, b, c, d][1..] == [b, c, d] && [b, c, d][1..] == [c, d] && [c, d][1..] == [d] && [d][1..] == [];
    assert Exec(n, s3, [d]) == Exec(n, s4, []);
    assert Exec(n, s2, [c, d]) == Exec(n, s3, [d]);
    assert Exec(n, s1, [b, c, d]) == Exec(n, s2, [c, d]);
  }

  lemma ReachableThen(n: nat, s: System, steps: seq<Step>)
    requires Reachable(n, s) && Exec(n, s, steps).Some?
    ensures Reachable(n, Exec(n, s, steps).value)
  {
    var before :| Exec(n, INIT, before) == Some(s);
    ExecConcat(n, INIT, before, steps);
    assert Exec(n, INIT, before + steps) == Exec(n, s, steps);
  }

  predicate RunBy(runs: seq<Run>, r: nat) { exists i :: 0 <= i < |runs| && runs[i].runner == r }

  lemma RunByOneMore(runs: seq<Run>, run: Run, r: nat)
    ensures RunBy(runs + [run], r) <==> RunBy(runs, r) || run.runner == r
  {
    if i :| 0 <= i < |runs| && runs[i].runner == r { assert (runs + [run])[i].runner == r; }
    if run.runner == r { assert (runs + [run])[|runs|].runner == r; }
  }

  /** The other direction: every concatenation of prefixes by distinct runners is the log of some
      interleaving, so the shape above is exactly what the protocol guarantees. */
  lemma {:induction false} EveryRunSequenceHappens(n: nat, runs: seq<Run>) returns (s: System)
    requires LegalRuns(n, runs)
    ensures Reachable(n, s) && s.log == Expand(runs) && s.lock.None?
    ensures forall r :: r in s.runners ==> RunBy(runs, r)
  {
    if runs == [] {
      s := INIT;
      assert Exec(n, INIT, []) == Some(INIT);
    } else {
      var m := |runs| - 1;
      var front, last := runs[..m], runs[m];
      assert runs == front + [last];
      var s0 := EveryRunSequenceHappens(n, front);
      assert last.runner !in s0.runners;
      var steps;
      steps, s := OneRunHappens(n, s0, last);
      ReachableThen(n, s0, steps);
      forall r ensures RunBy(runs, r) <==> RunBy(front, r) || last.runner == r { RunByOneMore(front, last, r); }
    }
  }
}
