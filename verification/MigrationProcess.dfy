/**
 One runner process as code: the lock, the loop over the migrations and the two nested `finally`
 blocks, proved to be a run of the protocol.
 */
module MigrationProcess {
  import opened Wrappers
  import opened MigrationRunner

  lemma ExecOneMore(n: nat, s: System, trace: seq<Step>, step: Step)
    requires Exec(n, s, trace).Some? && Do(n, Exec(n, s, trace).value, step).Some?
    ensures Exec(n, s, trace + [step]) == Do(n, Exec(n, s, trace).value, step)
  {
    ExecConcat(n, s, trace, [step]);
    assert [step][1..] == [];
  }

  predicate AllBy(r: nat, trace: seq<Step>) { forall step :: step in trace ==> step.runner == r }

  /** How a call to the server ends: it may fail before or after it has taken effect. */
  datatype Answer = Succeeds | Fails | FailsAfterEffect

  predicate AllSucceed(size: nat, answers: nat -> Answer) {
    answers(0) == Succeeds && answers(1) == Succeeds && answers(2) == Succeeds
    && forall k :: 3 <= k < size + 3 ==> answers(k) == Succeeds
  }

  /** The start state with the one runner moved on and `applied` migrations in the log. */
  ghost function Shape(start: System, r: nat, phase: Phase, lock: Option<nat>, applied: nat): System
    requires r in start.runners
  {
    System(start.runners[r := start.runners[r].(phase := phase)], lock, start.log + Block(Run(r, applied)))
  }

  lemma ShapeSteps(n: nat, start: System, r: nat, p: Phase, lock: Option<nat>, k: nat, a: Action)
    requires r in start.runners && !a.Spawn?
    requires Act(n, start.runners[r].(phase := p), r, lock, a).Some?
    ensures var (p', lock', applied) := Act(n, start.runners[r].(phase := p), r, lock, a).value;
            applied ==> p == Applying(k) ==>
            Do(n, Shape(start, r, p, lock, k), Step(r, a)) == Some(Shape(start, r, p', lock', k + 1))
    ensures var (p', lock', applied) := Act(n, start.runners[r].(phase := p), r, lock, a).value;
            !applied ==>
            Do(n, Shape(start, r, p, lock, k), Step(r, a)) == Some(Shape(start, r, p', lock', k))
  {
    var s := Shape(start, r, p, lock, k);
    var (p', lock', applied) := Act(n, start.runners[r].(phase := p), r, lock, a).value;
    assert s.runners[r := s.runners[r].(phase := p')] == start.runners[r := start.runners[r].(phase := p')];
    assert start.log + Block(Run(r, k + 1)) == start.log + Block(Run(r, k)) + [Entry(r, k)];
  }

  /** The database server and its sessions. */
  class Server {
    var state: System
    const size: nat
    ghost var trace: seq<Step>

    constructor (n: nat)
      ensures state == INIT && size == n && trace == []
    {
      state, size, trace := INIT, n, [];
    }

    /** `trace` leads from `start` to the present state by steps of runner `r`. */
    ghost predicate Since(start: System, r: nat)
      reads this
    {
      Exec(size, start, trace) == Some(state) && AllBy(r, trace)
    }

    /** One step of the protocol, taken by runner `r`. */
    method Take(r: nat, action: Action, ghost start: System, ghost target: System)
      requires Since(start, r) && Do(size, state, Step(r, action)) == Some(target)
      modifies this
      ensures Since(start, r) && state == target
    {
      ExecOneMore(size, start, trace, Step(r, action));
      trace := trace + [Step(r, action)];
      state := Do(size, state, Step(r, action)).value;
    }

    /** One step of the process, from one shape of the system to the next. */
    method Move(r: nat, a: Action, ghost start: System, ghost p: Phase, ghost lock: Option<nat>, ghost k: nat,
                ghost p': Phase, ghost lock': Option<nat>, ghost k': nat)
      requires r in start.runners && !a.Spawn? && Since(start, r) && state == Shape(start, r, p, lock, k)
      requires Act(size, start.runners[r].(phase := p), r, lock, a) == Some((p', lock', k' == k + 1))
      requires k' == k || (k' == k + 1 && p == Applying(k))
      modifies this
      ensures Since(start, r) && state == Shape(start, r, p', lock', k')
    {
      ShapeSteps(size, start, r, p, lock, k, a);
      Take(r, a, start, Shape(start, r, p', lock', k'));
    }

    /** One migration: it is applied unless the call fails before it takes effect. */
    method ApplyOne(r: nat, i: nat, answer: Answer, ghost start: System)
      requires r in start.runners && i < size && Since(start, r)
      requires state == Shape(start, r, Applying(i), Some(r), i)
      modifies this
      ensures Since(start, r)
      ensures state == match answer
                       case Succeeds => Shape(start, r, Applying(i + 1), Some(r), i + 1)
                       case Fails => Shape(start, r, Unlocking(false), Some(r), i)
                       case FailsAfterEffect => Shape(start, r, Unlocking(false), Some(r), i + 1)
    {
      match answer {
        case Succeeds => Move(r, ApplyNext, start, Applying(i), Some(r), i, Applying(i + 1), Some(r), i + 1);
        case Fails => Move(r, ApplyFails, start, Applying(i), Some(r), i, Unlocking(false), Some(r), i);
        case FailsAfterEffect =>
          Move(r, ApplyThenFails, start, Applying(i), Some(r), i, Unlocking(false), Some(r), i + 1);
      }
    }

    /** The loop over the migrations, with the lock held: stops at the first failing call. A failing
        call may have applied its migration all the same. */
    method ApplyAll(r: nat, answers: nat -> Answer, ghost start: System)
      returns (clean: bool, ghost applied: nat)
      requires r in start.runners && Since(start, r) && state == Shape(start, r, Applying(0), Some(r), 0)
      modifies this
      ensures applied <= size && (clean ==> applied == size)
      ensures clean <==> forall k :: 0 <= k < size ==> answers(k) == Succeeds
      ensures Since(start, r) && state == Shape(start, r, Unlocking(clean), Some(r), applied)
    {
      var i := 0;
      while i < size
        invariant i <= size && forall k :: 0 <= k < i ==> answers(k) == Succeeds
        invariant Since(start, r) && state == Shape(start, r, Applying(i), Some(r), i)
      {
        var answer := answers(i);
        ApplyOne(r, i, answer, start);
        if answer != Succeeds {
          return false, if answer == Fails then i else i + 1;
        }
        i := i + 1;
      }
      Move(r, AllApplied, start, Applying(i), Some(r), i, Unlocking(true), Some(r), i);
      clean, applied := true, i;
    }

    /** The inner `finally`: give the lock back, if the call does. */
    method Release(r: nat, answer: Answer, before: bool, ghost start: System, ghost applied: nat) returns (clean: bool)
      requires r in start.runners && Since(start, r) && state == Shape(start, r, Unlocking(before), Some(r), applied)
      modifies this
      ensures clean <==> before && answer == Succeeds
      ensures Since(start, r)
      ensures state == Shape(start, r, Closing(clean), if answer == Fails then Some(r) else None, applied)
    {
      match answer {
        case Succeeds =>
          Move(r, Unlock, start, Unlocking(before), Some(r), applied, Closing(before), None, applied);
          clean := before;
        case Fails =>
          Move(r, UnlockFails, start, Unlocking(before), Some(r), applied, Closing(false), Some(r), applied);
          clean := false;
        case FailsAfterEffect =>
          Move(r, UnlockThenFails, start, Unlocking(before), Some(r), applied, Closing(false), None, applied);
          clean := false;
      }
    }

    /** Take the free lock, apply, and run the inner `finally`. */
    method HoldAndApply(r: nat, answers: nat -> Answer, ghost start: System)
      returns (clean: bool, ghost applied: nat)
      requires r in start.runners && start.lock.None?
      requires Since(start, r) && state == Shape(start, r, Waiting, None, 0)
      modifies this
      ensures applied <= size && (clean ==> applied == size)
      ensures Since(start, r)
      ensures state == Shape(start, r, Closing(clean), None, applied)
              || state == Shape(start, r, Closing(clean), Some(r), applied)
      ensures clean <==> answers(2) == Succeeds && forall k :: 3 <= k < size + 3 ==> answers(k) == Succeeds
    {
      Move(r, Acquire, start, Waiting, None, 0, Applying(0), Some(r), 0);
      var done;
      var fromThird := (i: nat) => answers(i + 3);
      assert forall k :: 3 <= k < size + 3 ==> answers(k) == fromThird(k - 3);
      done, applied := ApplyAll(r, fromThird, start);
      clean := Release(r, answers(2), done, start, applied);
    }

    /** From an open connection to the point where only closing is left: the lock is either back or
        was never taken, or the closing session still holds it. */
    method LockAndApply(r: nat, answers: nat -> Answer, ghost start: System)
      returns (clean: bool, ghost applied: nat)
      requires r in start.runners && start.runners[r].phase == Connected && start.lock != Some(r)
      requires Since(start, r) && state == Shape(start, r, Connected, start.lock, 0)
      modifies this
      ensures applied <= size && (clean ==> applied == size)
      ensures Since(start, r)
      ensures state == Shape(start, r, Closing(clean), start.lock, applied)
              || (start.lock.None? && state == Shape(start, r, Closing(clean), Some(r), applied))
      ensures clean <==> start.lock.None? && AllSucceed(size, answers)
    {
      if answers(0) != Succeeds {
        Move(r, SetTimeoutFails, start, Connected, start.lock, 0, Closing(false), start.lock, 0);
        return false, 0;
      }
      Move(r, SetTimeout, start, Connected, start.lock, 0, Waiting, start.lock, 0);
      if state.lock.Some? || answers(1) == Fails {
        Move(r, LockTimesOut, start, Waiting, start.lock, 0, Closing(false), start.lock, 0);
        return false, 0;
      }
      if answers(1) == FailsAfterEffect {
        Move(r, AcquireThenFails, start, Waiting, None, 0, Closing(false), Some(r), 0);
        return false, 0;
      }
      clean, applied := HoldAndApply(r, answers, start);
    }

    /** `_apply` from an open connection. `answers` says how each call to the server ends: 0 is the
        timeout setting, 1 the lock, 2 the unlock, and 3 + i the i-th migration. However they end,
        the process exits with the lock given back and a prefix of the list applied; it exits with 0
        exactly when the lock was free and every call succeeded, and then all of it is applied. */
    method Apply(r: nat, answers: nat -> Answer) returns (code: int, ghost applied: nat)
      requires r in state.runners && state.runners[r].phase == Connected && state.lock != Some(r)
      requires trace == []
      modifies this
      ensures Exec(size, old(state), trace) == Some(state) && AllBy(r, trace)
      ensures r in state.runners && state.runners[r].phase == Exited(code)
      ensures state.lock == old(state.lock)
      ensures applied <= size && state.log == old(state.log) + Block(Run(r, applied))
      ensures code == 0 || code == 1
      ensures code == 0 <==> old(state.lock).None? && AllSucceed(size, answers)
      ensures code == 0 ==> applied == size
    {
      ghost var start := state;
      assert start.runners[r := start.runners[r].(phase := Connected)] == start.runners;
      assert start.log + Block(Run(r, 0)) == start.log;
      var clean;
      clean, applied := LockAndApply(r, answers, start);
      code := if clean then 0 else 1;
      ghost var lock := state.lock;
      Move(r, Close, start, Closing(clean), lock, applied, Exited(code), Released(lock, r), applied);
    }
  }
}
