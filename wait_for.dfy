/** `waitFor` of `src/wait-for.ts` as a machine driven by an explicit schedule of events.
    The callback's k-th invocation settles with `callback(k)`; the schedule says when the
    in-flight invocation settles, when the 50 ms pause ends and when the timeout timer fires.
    No real timer or promise is involved. */
module WaitFor {
  import opened Wrappers

  /** The `timeout` option: a whole number of milliseconds, or `false`. */
  datatype Timeout = Ms(ms: int) | Disabled

  /** `timeout > 0`; `false > 0` is false, so `false` behaves like 0. */
  predicate HasTimeout(timeout: Timeout) {
    timeout.Ms? && timeout.ms > 0
  }

  /** `{ timeout = config.timeout }`: an omitted timeout is the configured one. */
  function EffectiveTimeout(timeout: Option<Timeout>, configured: int): (r: Timeout)
    ensures timeout.Some? ==> r == timeout.value
    ensures timeout.None? ==> r == Ms(configured)
  {
    timeout.GetOr(Ms(configured))
  }

  /** How one invocation of the callback settles. */
  datatype Attempt<T, E> = Returned(value: T) | Threw(error: E)

  /** The events the loop waits for. */
  datatype Tick = AttemptSettles | PauseElapses | TimerFires

  /** Where the loop is: awaiting the callback, sleeping 50 ms, or exited. */
  datatype Phase = Running | Pausing | Stopped

  /** The state of the promise `waitFor` returns. */
  datatype Settlement<T, E> = Pending | Resolved(value: T) | Rejected(reason: Option<E>)

  /** The variables of `waitFor` (`result` is None while it is INITIAL_RESULT, `timerArmed`
      stands for a pending `timerID`), plus counters that make its behaviour observable:
      invocations started and completed, calls of resolve/reject, invocations started after
      the promise settled, and the number of completed invocations when it settled. */
  datatype Machine<T, E> = Machine(
    hasTimeout: bool,
    result: Option<T>,
    error: Option<E>,
    hasRejected: bool,
    timerArmed: bool,
    phase: Phase,
    started: nat,
    completed: nat,
    settlement: Settlement<T, E>,
    settleCalls: nat,
    lateStarts: nat,
    completedAtSettlement: nat)

  /** Entering `waitFor`: the timer is armed iff `timeout > 0`, and the loop invokes the
      callback at once. */
  function Start<T, E>(timeout: Timeout): Machine<T, E> {
    var hasTimeout := HasTimeout(timeout);
    Machine(hasTimeout, None, None, false, hasTimeout, Running, 1, 0, Pending, 0, 0, 0)
  }

  /** A call of `resolve` or `reject`: only the first one decides the promise. */
  function Settle<T, E>(m: Machine<T, E>, s: Settlement<T, E>): Machine<T, E> {
    if m.settlement.Pending? then
      m.(settlement := s, settleCalls := m.settleCalls + 1, completedAtSettlement := m.completed)
    else
      m.(settleCalls := m.settleCalls + 1)
  }

  /** One event. `recheck` selects the corrected loop, which looks at `hasRejected` again
      after the pause; the source does not (see StepAsWritten and Step). */
  function StepWith<T, E>(recheck: bool, m: Machine<T, E>, tick: Tick, callback: nat -> Attempt<T, E>): Machine<T, E> {
    match tick
    case AttemptSettles =>
      if m.phase != Running then m
      else
        var m1 := m.(completed := m.completed + 1);
        (match callback(m.completed)
        case Returned(v) =>
          // result = await callback(); the loop exits; unless rejected, clear the timer and resolve
          var m2 := m1.(result := Some(v), phase := Stopped);
          if m2.hasRejected then m2 else Settle(m2.(timerArmed := false), Resolved(v))
        case Threw(e) =>
          // error = err; without a timer reject at once; in `finally`, stop if rejected, else sleep
          var m2 := m1.(error := Some(e));
          if !m2.hasTimeout then Settle(m2.(hasRejected := true, phase := Stopped), Rejected(Some(e)))
          else if m2.hasRejected then m2.(phase := Stopped)
          else m2.(phase := Pausing))
    case PauseElapses =>
      if m.phase != Pausing then m
      else if recheck && m.hasRejected then m.(phase := Stopped)
      else
        // the loop condition `result === INITIAL_RESULT` holds: invoke the callback again
        m.(phase := Running, started := m.started + 1,
           lateStarts := m.lateStarts + if m.settlement.Pending? then 0 else 1)
    case TimerFires =>
      // reject(error); hasRejected = true
      if !m.timerArmed then m
      else Settle(m.(timerArmed := false, hasRejected := true), Rejected(m.error))
  }

  function RunWith<T, E>(recheck: bool, m: Machine<T, E>, callback: nat -> Attempt<T, E>, ticks: seq<Tick>): Machine<T, E>
    decreases |ticks|
  {
    if |ticks| == 0 then m
    else StepWith(recheck, RunWith(recheck, m, callback, ticks[..|ticks| - 1]), ticks[|ticks| - 1], callback)
  }

  /** The loop as the source writes it. */
  function StepAsWritten<T, E>(m: Machine<T, E>, tick: Tick, callback: nat -> Attempt<T, E>): Machine<T, E> {
    StepWith(false, m, tick, callback)
  }

  function RunAsWritten<T, E>(timeout: Timeout, callback: nat -> Attempt<T, E>, ticks: seq<Tick>): Machine<T, E> {
    RunWith(false, Start(timeout), callback, ticks)
  }

  /** The loop as intended: after the pause it stops if the timer has rejected meanwhile. */
  function Step<T, E>(m: Machine<T, E>, tick: Tick, callback: nat -> Attempt<T, E>): Machine<T, E> {
    StepWith(true, m, tick, callback)
  }

  function Run<T, E>(timeout: Timeout, callback: nat -> Attempt<T, E>, ticks: seq<Tick>): Machine<T, E> {
    RunWith(true, Start(timeout), callback, ticks)
  }

  // ----- The invariant -----

  ghost predicate FailedSoFar<T, E>(callback: nat -> Attempt<T, E>, n: nat) {
    forall k :: 0 <= k < n ==> callback(k).Threw?
  }

  /** The most recently recorded error after `n` failed invocations (undefined for none). */
  function LastError<T, E>(callback: nat -> Attempt<T, E>, n: nat): Option<E>
    requires n > 0 ==> callback(n - 1).Threw?
  {
    if n == 0 then None else Some(callback(n - 1).error)
  }

  /** What a settled promise says about the invocations completed when it settled. */
  ghost predicate SettledBy<T, E>(s: Settlement<T, E>, callback: nat -> Attempt<T, E>, n: nat) {
    match s
    case Pending => false
    case Resolved(v) => n >= 1 && callback(n - 1) == Returned(v) && FailedSoFar(callback, n - 1)
    case Rejected(r) => FailedSoFar(callback, n) && r == LastError(callback, n)
  }

  ghost predicate Inv<T, E>(recheck: bool, m: Machine<T, E>, callback: nat -> Attempt<T, E>) {
    && m.settleCalls <= 1
    && (m.settlement.Pending? <==> m.settleCalls == 0)
    && (m.hasRejected <==> m.settlement.Rejected?)
    && (m.timerArmed ==> m.hasTimeout)
    && (m.hasTimeout ==> (m.timerArmed <==> m.settlement.Pending?))
    && m.started >= 1
    && (m.phase == Running ==> m.started == m.completed + 1)
    && (m.phase != Running ==> m.started == m.completed)
    && (m.phase == Pausing ==> m.hasTimeout && m.result.None? && m.lateStarts == 0)
    && (m.phase == Stopped ==> !m.timerArmed && !m.settlement.Pending?)
    && (m.result.Some? ==> m.phase == Stopped)
    && (!m.hasTimeout ==> m.started == 1)
    && (m.settlement.Pending? ==>
          m.result.None? && FailedSoFar(callback, m.completed) && m.error == LastError(callback, m.completed))
    && (!m.settlement.Pending? ==>
          m.completedAtSettlement <= m.completed && SettledBy(m.settlement, callback, m.completedAtSettlement))
    && (!m.hasTimeout && !m.settlement.Pending? ==> m.completedAtSettlement == 1)
    && (m.settlement.Resolved? ==> m.phase == Stopped && m.started == m.completedAtSettlement)
    && (!m.settlement.Pending? ==> m.started <= m.completedAtSettlement + 1 + m.lateStarts)
    && m.lateStarts <= 1
    && (m.lateStarts == 1 ==> m.settlement.Rejected? && m.hasTimeout)
    && (recheck ==> m.lateStarts == 0)
  }

  lemma InvStart<T, E>(recheck: bool, timeout: Timeout, callback: nat -> Attempt<T, E>)
    ensures Inv(recheck, Start(timeout), callback)
  {
  }

  lemma InvReturns<T, E>(recheck: bool, m: Machine<T, E>, callback: nat -> Attempt<T, E>)
    requires Inv(recheck, m, callback) && m.phase == Running && callback(m.completed).Returned?
    ensures Inv(recheck, StepWith(recheck, m, AttemptSettles, callback), callback)
  {
  }

  lemma InvThrows<T, E>(recheck: bool, m: Machine<T, E>, callback: nat -> Attempt<T, E>)
    requires Inv(recheck, m, callback) && m.phase == Running && callback(m.completed).Threw?
    ensures Inv(recheck, StepWith(recheck, m, AttemptSettles, callback), callback)
  {
    if m.settlement.Pending? {
      assert FailedSoFar(callback, m.completed + 1) by {
        forall k | 0 <= k < m.completed + 1 ensures callback(k).Threw? {
          if k < m.completed { assert callback(k).Threw?; }
        }
      }
    }
  }

  lemma InvSettles<T, E>(recheck: bool, m: Machine<T, E>, callback: nat -> Attempt<T, E>)
    requires Inv(recheck, m, callback)
    ensures Inv(recheck, StepWith(recheck, m, AttemptSettles, callback), callback)
  {
    if m.phase == Running {
      if callback(m.completed).Returned? {
        InvReturns(recheck, m, callback);
      } else {
        InvThrows(recheck, m, callback);
      }
    }
  }

  lemma InvPauses<T, E>(recheck: bool, m: Machine<T, E>, callback: nat -> Attempt<T, E>)
    requires Inv(recheck, m, callback)
    ensures Inv(recheck, StepWith(recheck, m, PauseElapses, callback), callback)
  {
  }

  lemma InvFires<T, E>(recheck: bool, m: Machine<T, E>, callback: nat -> Attempt<T, E>)
    requires Inv(recheck, m, callback)
    ensures Inv(recheck, StepWith(recheck, m, TimerFires, callback), callback)
  {
  }

  lemma InvStep<T, E>(recheck: bool, m: Machine<T, E>, tick: Tick, callback: nat -> Attempt<T, E>)
    requires Inv(recheck, m, callback)
    ensures Inv(recheck, StepWith(recheck, m, tick, callback), callback)
    ensures StepWith(recheck, m, tick, callback).hasTimeout == m.hasTimeout
  {
    match tick {
      case AttemptSettles => InvSettles(recheck, m, callback);
      case PauseElapses => InvPauses(recheck, m, callback);
      case TimerFires => InvFires(recheck, m, callback);
    }
  }

  lemma {:induction false} InvRunFrom<T, E>(recheck: bool, m: Machine<T, E>, callback: nat -> Attempt<T, E>, ticks: seq<Tick>)
    requires Inv(recheck, m, callback)
    ensures Inv(recheck, RunWith(recheck, m, callback, ticks), callback)
    ensures RunWith(recheck, m, callback, ticks).hasTimeout == m.hasTimeout
    decreases |ticks|
  {
    if |ticks| > 0 {
      var prev := RunWith(recheck, m, callback, ticks[..|ticks| - 1]);
      InvRunFrom(recheck, m, callback, ticks[..|ticks| - 1]);
      InvStep(recheck, prev, ticks[|ticks| - 1], callback);
    }
  }

  lemma InvRun<T, E>(recheck: bool, timeout: Timeout, callback: nat -> Attempt<T, E>, ticks: seq<Tick>)
    ensures Inv(recheck, RunWith(recheck, Start(timeout), callback, ticks), callback)
    ensures RunWith(recheck, Start(timeout), callback, ticks).hasTimeout == HasTimeout(timeout)
  {
    InvStart(recheck, timeout, callback);
    InvRunFrom(recheck, Start(timeout), callback, ticks);
  }

  lemma {:induction false} RunAppend<T, E>(recheck: bool, m: Machine<T, E>, callback: nat -> Attempt<T, E>, a: seq<Tick>, b: seq<Tick>)
    ensures RunWith(recheck, m, callback, a + b) == RunWith(recheck, RunWith(recheck, m, callback, a), callback, b)
    decreases |b|
  {
    if |b| == 0 {
      assert a + b == a;
    } else {
      assert (a + b)[..|a + b| - 1] == a + b[..|b| - 1];
      RunAppend(recheck, m, callback, a, b[..|b| - 1]);
    }
  }

  /** Once the loop has stopped with no timer pending, no event changes anything. */
  lemma {:induction false} StoppedIsFinal<T, E>(recheck: bool, m: Machine<T, E>, callback: nat -> Attempt<T, E>, ticks: seq<Tick>)
    requires m.phase == Stopped && !m.timerArmed
    ensures RunWith(recheck, m, callback, ticks) == m
    decreases |ticks|
  {
    if |ticks| > 0 {
      StoppedIsFinal(recheck, m, callback, ticks[..|ticks| - 1]);
    }
  }


  // ----- Properties -----

  /** The timer is armed iff `timeout > 0`: never for `false`, 0 or a negative number. */
  lemma TimerArmedIffPositive<T, E>(timeout: Timeout)
    ensures Start<T, E>(timeout).timerArmed <==> timeout.Ms? && timeout.ms > 0
    ensures Start<T, E>(timeout).started == 1 && Start<T, E>(timeout).settlement.Pending?
  {
  }

  /** `resolve` and `reject` are called at most once in all: the promise settles once. */
  lemma SingleSettlement<T, E>(recheck: bool, timeout: Timeout, callback: nat -> Attempt<T, E>, ticks: seq<Tick>)
    ensures RunWith(recheck, Start(timeout), callback, ticks).settleCalls <= 1
  {
    InvRun(recheck, timeout, callback, ticks);
  }

  lemma {:induction false} SettledStays<T, E>(recheck: bool, m: Machine<T, E>, callback: nat -> Attempt<T, E>, ticks: seq<Tick>)
    requires !m.settlement.Pending?
    ensures RunWith(recheck, m, callback, ticks).settlement == m.settlement
    decreases |ticks|
  {
    if |ticks| > 0 {
      SettledStays(recheck, m, callback, ticks[..|ticks| - 1]);
    }
  }

  /** Once settled, the promise keeps its outcome whatever happens afterwards. */
  lemma SettlementIsFinal<T, E>(recheck: bool, timeout: Timeout, callback: nat -> Attempt<T, E>, before: seq<Tick>, after: seq<Tick>)
    requires !RunWith(recheck, Start(timeout), callback, before).settlement.Pending?
    ensures RunWith(recheck, Start(timeout), callback, before + after).settlement
            == RunWith(recheck, Start(timeout), callback, before).settlement
  {
    RunAppend(recheck, Start(timeout), callback, before, after);
    SettledStays(recheck, RunWith(recheck, Start(timeout), callback, before), callback, after);
  }

  /** Without a timer (`timeout` not > 0) the callback runs exactly once and its outcome is
      passed on unchanged: its value resolves, its error rejects. */
  lemma NoTimeoutSingleAttempt<T, E>(recheck: bool, timeout: Timeout, callback: nat -> Attempt<T, E>, ticks: seq<Tick>)
    requires !HasTimeout(timeout)
    ensures var m := RunWith(recheck, Start(timeout), callback, ticks);
      && m.started == 1
      && !m.timerArmed
      && (m.settlement.Pending? || m.settlement == match callback(0)
            case Returned(v) => Resolved(v)
            case Threw(e) => Rejected(Some(e)))
  {
    InvRun(recheck, timeout, callback, ticks);
  }

  /** A resolved promise carries the value of the first invocation that returned; every
      earlier one threw, none ran after it, and the timer is cleared. */
  lemma ResolvesWithFirstSuccess<T, E>(recheck: bool, timeout: Timeout, callback: nat -> Attempt<T, E>, ticks: seq<Tick>)
    requires RunWith(recheck, Start(timeout), callback, ticks).settlement.Resolved?
    ensures var m := RunWith(recheck, Start(timeout), callback, ticks);
      var n := m.completedAtSettlement;
      && 1 <= n == m.started
      && callback(n - 1) == Returned(m.settlement.value)
      && (forall k :: 0 <= k < n - 1 ==> callback(k).Threw?)
      && !m.timerArmed
  {
    InvRun(recheck, timeout, callback, ticks);
  }

  /** A rejected promise carries the most recently recorded error, undefined when no
      invocation had failed yet; every invocation completed by then failed. Without a timer
      it is the error of the only invocation. */
  lemma RejectsWithLastError<T, E>(recheck: bool, timeout: Timeout, callback: nat -> Attempt<T, E>, ticks: seq<Tick>)
    requires RunWith(recheck, Start(timeout), callback, ticks).settlement.Rejected?
    ensures var m := RunWith(recheck, Start(timeout), callback, ticks);
      var n := m.completedAtSettlement;
      && (forall k :: 0 <= k < n ==> callback(k).Threw?)
      && m.settlement.reason == (if n == 0 then None else Some(callback(n - 1).error))
      && (!HasTimeout(timeout) ==> n == 1)
      && !m.timerArmed
  {
    InvRun(recheck, timeout, callback, ticks);
  }

  /** With a timer, a failing invocation is swallowed: the loop sleeps and the promise stays
      pending until the next invocation or the timer. */
  lemma FailureWithTimeoutPauses<T, E>(recheck: bool, timeout: Timeout, callback: nat -> Attempt<T, E>, ticks: seq<Tick>)
    requires HasTimeout(timeout)
    requires var m := RunWith(recheck, Start(timeout), callback, ticks);
      m.phase == Running && m.settlement.Pending? && callback(m.completed).Threw?
    ensures var m := RunWith(recheck, Start(timeout), callback, ticks);
      var next := StepWith(recheck, m, AttemptSettles, callback);
      && next.phase == Pausing && next.settlement.Pending? && next.timerArmed
      && next.error == Some(callback(m.completed).error)
  {
    InvRun(recheck, timeout, callback, ticks);
  }

  /** When the timer fires, the promise rejects with the error recorded so far. */
  lemma TimerRejectsWithRecordedError<T, E>(recheck: bool, timeout: Timeout, callback: nat -> Attempt<T, E>, ticks: seq<Tick>)
    requires RunWith(recheck, Start(timeout), callback, ticks).timerArmed
    ensures var m := RunWith(recheck, Start(timeout), callback, ticks);
      && StepWith(recheck, m, TimerFires, callback).settlement == Rejected(m.error)
      && (forall k :: 0 <= k < m.completed ==> callback(k).Threw?)
      && m.error == (if m.completed == 0 then None else Some(callback(m.completed - 1).error))
  {
    InvRun(recheck, timeout, callback, ticks);
  }

  /** Invocations are strictly sequential: at most one is in flight, and a new one starts
      only after the previous one has settled. */
  lemma AttemptsSequential<T, E>(recheck: bool, timeout: Timeout, callback: nat -> Attempt<T, E>, ticks: seq<Tick>)
    ensures var m := RunWith(recheck, Start(timeout), callback, ticks);
      && m.completed <= m.started <= m.completed + 1
      && (m.started == m.completed + 1 <==> m.phase == Running)
  {
    InvRun(recheck, timeout, callback, ticks);
  }

  lemma {:induction false} NoStartAfterSettlementFrom<T, E>(m: Machine<T, E>, callback: nat -> Attempt<T, E>, ticks: seq<Tick>)
    requires Inv(true, m, callback) && !m.settlement.Pending?
    ensures RunWith(true, m, callback, ticks).started == m.started
    decreases |ticks|
  {
    if |ticks| > 0 {
      var init := ticks[..|ticks| - 1];
      NoStartAfterSettlementFrom(m, callback, init);
      InvRunFrom(true, m, callback, init);
      SettledStays(true, m, callback, init);
    }
  }

  /** Corrected loop: once the promise has settled, the callback is never invoked again. */
  lemma NoAttemptAfterSettlement<T, E>(timeout: Timeout, callback: nat -> Attempt<T, E>, before: seq<Tick>, after: seq<Tick>)
    requires !Run(timeout, callback, before).settlement.Pending?
    ensures Run(timeout, callback, before + after).started == Run(timeout, callback, before).started
  {
    RunAppend(true, Start(timeout), callback, before, after);
    InvRun(true, timeout, callback, before);
    NoStartAfterSettlementFrom(Run(timeout, callback, before), callback, after);
  }

  /** Loop as written: at most one invocation starts after the promise has settled, and only
      after a rejection by the timer. */
  lemma AtMostOneLateAttempt<T, E>(timeout: Timeout, callback: nat -> Attempt<T, E>, ticks: seq<Tick>)
    ensures RunAsWritten(timeout, callback, ticks).lateStarts <= 1
    ensures RunAsWritten(timeout, callback, ticks).lateStarts == 1 ==>
      RunAsWritten(timeout, callback, ticks).settlement.Rejected? && HasTimeout(timeout)
  {
    InvRun(false, timeout, callback, ticks);
  }

  /** Loop as written: the timer fires during the pause after a failure; the loop condition
      still holds, so the callback is invoked a second time after the promise was rejected.
      The corrected loop stops there. */
  /** A callback whose every invocation throws its own index. */
  function AlwaysThrows(k: nat): (r: Attempt<int, nat>)
    ensures r.Threw? && r.error == k
  {
    Threw(k)
  }

  lemma LateAttemptAsWritten()
    ensures var callback := AlwaysThrows;
      var rejected := [AttemptSettles, TimerFires];
      var resumed := rejected + [PauseElapses];
      && RunAsWritten(Ms(100), callback, rejected).settlement == Rejected(Some(0))
      && RunAsWritten(Ms(100), callback, rejected).started == 1
      && RunAsWritten(Ms(100), callback, resumed).started == 2
      && RunAsWritten(Ms(100), callback, resumed).lateStarts == 1
      && Run(Ms(100), callback, resumed).started == 1
  {
    var resumed := [AttemptSettles, TimerFires, PauseElapses];
    assert resumed[..2] == [AttemptSettles, TimerFires];
    assert [AttemptSettles, TimerFires][..1] == [AttemptSettles];
    assert [AttemptSettles][..0] == [];
    var m0 := Start<int, nat>(Ms(100));
    var m1 := StepAsWritten(m0, AttemptSettles, AlwaysThrows);
    assert m1.phase == Pausing && m1.error == Some(0);
    var m2 := StepAsWritten(m1, TimerFires, AlwaysThrows);
    assert m2.settlement == Rejected(Some(0)) && m2.phase == Pausing;
    assert RunAsWritten(Ms(100), AlwaysThrows, [AttemptSettles]) == m1;
    assert RunAsWritten(Ms(100), AlwaysThrows, [AttemptSettles, TimerFires]) == m2;
    assert RunAsWritten(Ms(100), AlwaysThrows, resumed) == StepAsWritten(m2, PauseElapses, AlwaysThrows);
    assert Run(Ms(100), AlwaysThrows, [AttemptSettles]) == m1;
    assert Run(Ms(100), AlwaysThrows, [AttemptSettles, TimerFires]) == m2;
    assert Run(Ms(100), AlwaysThrows, resumed) == Step(m2, PauseElapses, AlwaysThrows);
  }

  lemma StepAgrees<T, E>(a: Machine<T, E>, b: Machine<T, E>, tick: Tick, callback: nat -> Attempt<T, E>)
    requires Inv(true, b, callback)
    requires a.settlement == b.settlement && a.completedAtSettlement == b.completedAtSettlement
    requires a == b || !b.settlement.Pending?
    ensures StepAsWritten(a, tick, callback).settlement == Step(b, tick, callback).settlement
    ensures StepAsWritten(a, tick, callback).completedAtSettlement == Step(b, tick, callback).completedAtSettlement
    ensures StepAsWritten(a, tick, callback) == Step(b, tick, callback) || !Step(b, tick, callback).settlement.Pending?
  {
    if a == b {
      // the loops differ only after the pause, once the timer has rejected
      if tick == PauseElapses && b.phase == Pausing && b.hasRejected {
        assert !b.settlement.Pending?;
      }
    } else {
      // a settled promise keeps its outcome and its completion count
      assert !StepAsWritten(a, tick, callback).settlement.Pending?;
    }
  }

  /** The extra invocation of the loop as written never changes how the promise settles, nor
      how many invocations had completed when it did. */
  lemma {:induction false} SettlementAgrees<T, E>(timeout: Timeout, callback: nat -> Attempt<T, E>, ticks: seq<Tick>)
    ensures RunAsWritten(timeout, callback, ticks).settlement == Run(timeout, callback, ticks).settlement
    ensures RunAsWritten(timeout, callback, ticks).completedAtSettlement == Run(timeout, callback, ticks).completedAtSettlement
    ensures RunAsWritten(timeout, callback, ticks) == Run(timeout, callback, ticks)
            || !Run(timeout, callback, ticks).settlement.Pending?
    decreases |ticks|
  {
    if |ticks| > 0 {
      var init := ticks[..|ticks| - 1];
      SettlementAgrees(timeout, callback, init);
      InvRun(true, timeout, callback, init);
      StepAgrees(RunAsWritten(timeout, callback, init), Run(timeout, callback, init), ticks[|ticks| - 1], callback);
    }
  }

  // ----- The imperative loop -----

  /** Leaving the loop once it has stopped with no timer pending skips only events that
      would change nothing. */
  lemma LeaveEarly<T, E>(timeout: Timeout, callback: nat -> Attempt<T, E>, schedule: seq<Tick>, i: nat)
    requires i <= |schedule|
    requires i < |schedule| ==>
      RunWith(false, Start(timeout), callback, schedule[..i]).phase == Stopped &&
      !RunWith(false, Start(timeout), callback, schedule[..i]).timerArmed
    ensures RunAsWritten(timeout, callback, schedule) == RunWith(false, Start(timeout), callback, schedule[..i])
  {
    var reached := RunWith(false, Start(timeout), callback, schedule[..i]);
    if i < |schedule| {
      assert schedule == schedule[..i] + schedule[i..];
      RunAppend(false, Start(timeout), callback, schedule[..i], schedule[i..]);
      StoppedIsFinal(false, reached, callback, schedule[i..]);
    } else {
      assert schedule[..i] == schedule;
    }
  }

  /** `waitFor(callback, { timeout })` on one schedule of events: the loop of the source, with
      its variables. Returns how the promise settled and how many times the callback ran. */
  method WaitFor<T, E>(timeout: Timeout, callback: nat -> Attempt<T, E>, schedule: seq<Tick>)
    returns (settlement: Settlement<T, E>, invocations: nat)
    ensures settlement == RunAsWritten(timeout, callback, schedule).settlement
    ensures invocations == RunAsWritten(timeout, callback, schedule).started
  {
    var hasTimeout := timeout.Ms? && timeout.ms > 0;
    var timerArmed := hasTimeout;
    var result: Option<T> := None;
    var error: Option<E> := None;
    var hasRejected := false;
    var phase := Running;
    invocations := 1;
    var completed: nat := 0;
    settlement := Pending;
    ghost var settleCalls: nat := 0;
    ghost var lateStarts: nat := 0;
    ghost var completedAtSettlement: nat := 0;
    var i := 0;
    while i < |schedule|
      invariant 0 <= i <= |schedule|
      invariant Machine(hasTimeout, result, error, hasRejected, timerArmed, phase, invocations, completed,
                        settlement, settleCalls, lateStarts, completedAtSettlement)
                == RunWith(false, Start(timeout), callback, schedule[..i])
    {
      ghost var before := RunWith(false, Start(timeout), callback, schedule[..i]);
      assert schedule[..i + 1][..i] == schedule[..i];
      assert RunWith(false, Start(timeout), callback, schedule[..i + 1]) == StepWith(false, before, schedule[i], callback);
      var tick := schedule[i];
      if tick == TimerFires && timerArmed {
        // the timer's callback: reject(error); hasRejected = true
        if settlement.Pending? {
          settlement := Rejected(error);
          completedAtSettlement := completed;
        }
        settleCalls := settleCalls + 1;
        hasRejected := true;
        timerArmed := false;
      } else if tick == AttemptSettles && phase == Running {
        completed := completed + 1;
        match callback(completed - 1) {
        case Returned(v) =>
          result := Some(v);
          phase := Stopped;
          if !hasRejected {
            timerArmed := false;
            if settlement.Pending? {
              settlement := Resolved(v);
              completedAtSettlement := completed;
            }
            settleCalls := settleCalls + 1;
          }
        case Threw(e) =>
          error := Some(e);
          if !hasTimeout {
            if settlement.Pending? {
              settlement := Rejected(error);
              completedAtSettlement := completed;
            }
            settleCalls := settleCalls + 1;
            hasRejected := true;
            phase := Stopped;
          } else if hasRejected {
            phase := Stopped;
          } else {
            phase := Pausing;
          }
        }
      } else if tick == PauseElapses && phase == Pausing {
        if !settlement.Pending? {
          lateStarts := lateStarts + 1;
        }
        invocations := invocations + 1;
        phase := Running;
      }
      assert Machine(hasTimeout, result, error, hasRejected, timerArmed, phase, invocations, completed,
                     settlement, settleCalls, lateStarts, completedAtSettlement)
             == StepWith(false, before, tick, callback);
      i := i + 1;
      if phase == Stopped && !timerArmed {
        break;
      }
    }
    LeaveEarly(timeout, callback, schedule, i);
  }
}
