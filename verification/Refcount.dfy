/**
 Reference counts that saturate at 2^32 - 1: the version under a lock, which is
 the specification, and the lock-free version with its compare-exchange loops,
 under every interleaving and with compare-exchange allowed to fail for no
 reason.
 */
module Refcount {
  const REFCOUNT_MAX: nat := 0xFFFF_FFFF

  datatype Op = Inc | DecAndTestZero

  /** Inc returns nothing, written as false. */
  datatype Outcome = Returned(zero: bool) | Aborted

  // ---------- under the lock ----------

  function LockedValue(op: Op, v: nat): nat {
    match op
    case Inc => if v < REFCOUNT_MAX then v + 1 else v
    case DecAndTestZero => if 0 < v < REFCOUNT_MAX then v - 1 else v
  }

  function LockedOutcome(op: Op, v: nat): Outcome {
    match op
    case Inc => Returned(false)
    case DecAndTestZero => if v == 0 then Aborted else Returned(LockedValue(op, v) == 0)
  }

  class LockedCount {
    var count: nat

    method Increment()
      requires count <= REFCOUNT_MAX
      modifies this
      ensures count == LockedValue(Inc, old(count)) <= REFCOUNT_MAX
    {
      if count < REFCOUNT_MAX {
        count := count + 1;
      }
    }

    method DecrementAndTestZero() returns (out: Outcome)
      requires count <= REFCOUNT_MAX
      modifies this
      ensures count == LockedValue(DecAndTestZero, old(count)) <= REFCOUNT_MAX
      ensures out == LockedOutcome(DecAndTestZero, old(count))
    {
      if count == 0 { return Aborted; }
      if count < REFCOUNT_MAX {
        count := count - 1;
      }
      return Returned(count == 0);
    }
  }

  // ---------- lock-free: one thread against an environment ----------

  /** What happens between two atomic accesses of a thread: the operations of others, and whether the next exchange fails anyway. */
  datatype Between = Between(others: seq<Op>, spurious: bool)

  function After(v: nat, ops: seq<Op>): (r: nat)
    requires v <= REFCOUNT_MAX
    ensures r <= REFCOUNT_MAX
    decreases |ops|
  {
    if ops == [] then v else After(LockedValue(ops[0], v), ops[1..])
  }

  /** The value after the first k intervals. */
  function ValueAt(v: nat, env: seq<Between>, k: nat): (r: nat)
    requires v <= REFCOUNT_MAX && k <= |env|
    ensures r <= REFCOUNT_MAX
  {
    if k == 0 then v else After(ValueAt(v, env, k - 1), env[k - 1].others)
  }

  class AtomicCount {
    var value: nat

    /** Others have run since the last access. */
    method Interfere(ops: seq<Op>)
      requires value <= REFCOUNT_MAX
      modifies this
      ensures value == After(old(value), ops)
    {
      var i := 0;
      while i < |ops|
        invariant 0 <= i <= |ops| && value <= REFCOUNT_MAX
        invariant After(value, ops[i..]) == After(old(value), ops)
      {
        value := LockedValue(ops[i], value);
        i := i + 1;
      }
    }

    /** atomic_compare_exchange_weak; on failure the current value is given back. */
    method CompareExchangeWeak(expected: nat, desired: nat, spurious: bool) returns (ok: bool, seen: nat)
      modifies this
      ensures ok <==> old(value) == expected && !spurious
      ensures value == (if ok then desired else old(value)) && seen == old(value)
    {
      seen := value;
      ok := value == expected && !spurious;
      if ok { value := desired; }
    }
  }

  /**
   CRYPTO_refcount_inc while `env` happens around it: it takes effect in one
   atomic step, at the moment after the first k intervals, as the version
   under the lock would then.
   */
  method Increment(count: AtomicCount, env: seq<Between>) returns (ghost k: nat)
    requires count.value <= REFCOUNT_MAX
    modifies count
    ensures k <= |env| && count.value == LockedValue(Inc, ValueAt(old(count.value), env, k))
  {
    var expected := count.value;
    var i := 0;
    k := 0;
    while expected != REFCOUNT_MAX
      invariant 0 <= i <= |env| && k == i
      invariant count.value == expected == ValueAt(old(count.value), env, i)
      decreases |env| - i, expected != REFCOUNT_MAX
    {
      var desired := expected + 1;
      var spurious := false;
      if i < |env| {
        count.Interfere(env[i].others);
        spurious := env[i].spurious;
        i := i + 1;
        k := i;
      }
      var ok, seen := count.CompareExchangeWeak(expected, desired, spurious);
      if ok { return; }
      expected := seen;
    }
  }

  /** CRYPTO_refcount_dec_and_test_zero while `env` happens around it, likewise. */
  method DecrementAndTestZero(count: AtomicCount, env: seq<Between>) returns (out: Outcome, ghost k: nat)
    requires count.value <= REFCOUNT_MAX
    modifies count
    ensures k <= |env| && count.value == LockedValue(DecAndTestZero, ValueAt(old(count.value), env, k))
    ensures out == LockedOutcome(DecAndTestZero, ValueAt(old(count.value), env, k))
  {
    var expected := count.value;
    var i := 0;
    k := 0;
    while true
      invariant 0 <= i <= |env| && k == i
      invariant count.value == expected == ValueAt(old(count.value), env, i)
      decreases |env| - i
    {
      if expected == 0 { return Aborted, k; }
      if expected == REFCOUNT_MAX { return Returned(false), k; }
      var desired := expected - 1;
      var spurious := false;
      if i < |env| {
        count.Interfere(env[i].others);
        spurious := env[i].spurious;
        i := i + 1;
        k := i;
      }
      var ok, seen := count.CompareExchangeWeak(expected, desired, spurious);
      if ok { return Returned(desired == 0), k; }
      expected := seen;
    }
  }

  // ---------- lock-free: any number of threads ----------

  /** Between operations, or in the loop with the value it last saw. */
  datatype Thread = Idle | Looping(op: Op, expected: nat)

  datatype Event = Event(thread: nat, op: Op, outcome: Outcome)

  /**
   `log` is the operations in the order in which they take effect, `answers`
   those that have returned or aborted, in the order in which they do.
   */
  datatype System = System(count: nat, threads: seq<Thread>, log: seq<Event>, answers: seq<Event>)

  /** The value seen settles the operation without an exchange. */
  predicate Decided(op: Op, seen: nat) {
    seen == REFCOUNT_MAX || (op == DecAndTestZero && seen == 0)
  }

  datatype Step = Start(op: Op) | ExchangeFails | ExchangeSucceeds | Answer

  predicate Enabled(s: System, i: nat, step: Step) {
    && i < |s.threads|
    && match step
       case Start(_) => s.threads[i].Idle?
       case ExchangeFails => s.threads[i].Looping? && !Decided(s.threads[i].op, s.threads[i].expected)
       case ExchangeSucceeds => s.threads[i].Looping? && !Decided(s.threads[i].op, s.threads[i].expected)
                                && s.count == s.threads[i].expected
       case Answer => s.threads[i].Looping? && Decided(s.threads[i].op, s.threads[i].expected)
  }

  /** The thread reads the count; a value that settles the operation is its effect. */
  function See(s: System, i: nat, op: Op): System
    requires i < |s.threads|
  {
    s.(threads := s.threads[i := Looping(op, s.count)],
       log := if Decided(op, s.count) then s.log + [Event(i, op, LockedOutcome(op, s.count))] else s.log)
  }

  /** One atomic step of thread i. */
  function Take(s: System, i: nat, step: Step): System
    requires Enabled(s, i, step)
  {
    var t := s.threads[i];
    match step
    case Start(op) => See(s, i, op)
    case ExchangeFails => See(s, i, t.op)
    case ExchangeSucceeds =>
      var newValue := if t.op == Inc then t.expected + 1 else t.expected - 1;
      var e := Event(i, t.op, Returned(t.op == DecAndTestZero && newValue == 0));
      s.(count := newValue, threads := s.threads[i := Idle], log := s.log + [e], answers := s.answers + [e])
    case Answer =>
      var e := Event(i, t.op, if t.op == DecAndTestZero && t.expected == 0 then Aborted else Returned(false));
      s.(threads := s.threads[i := Idle], answers := s.answers + [e])
  }

  /** The log is a run of the version under the lock, from v to the count. */
  ghost predicate LockedRun(v: nat, log: seq<Event>, count: nat)
    decreases |log|
  {
    if log == [] then count == v
    else
      var before, e := log[..|log| - 1], log[|log| - 1];
      exists u: nat :: LockedRun(v, before, u) && e.outcome == LockedOutcome(e.op, u) && count == LockedValue(e.op, u)
  }

  function EventsOf(log: seq<Event>, i: nat): seq<Event> {
    if log == [] then []
    else EventsOf(log[..|log| - 1], i) + if log[|log| - 1].thread == i then [log[|log| - 1]] else []
  }

  /** An operation that has taken effect and has not answered yet. */
  function Owed(s: System, i: nat): seq<Event>
    requires i < |s.threads|
  {
    var t := s.threads[i];
    if t.Looping? && Decided(t.op, t.expected) then [Event(i, t.op, LockedOutcome(t.op, t.expected))] else []
  }

  ghost predicate Linear(v: nat, s: System) {
    && s.count <= REFCOUNT_MAX && LockedRun(v, s.log, s.count)
    && forall i: nat | i < |s.threads| :: InOrder(s, i)
  }

  /** Each operation of the thread that has answered took effect once, in the thread's order, with that outcome. */
  ghost predicate InOrder(s: System, i: nat)
    requires i < |s.threads|
  {
    EventsOf(s.log, i) == EventsOf(s.answers, i) + Owed(s, i)
  }

  /** Every step either changes nothing shared or is one operation under the lock. */
  lemma StepIsAtomic(s: System, i: nat, step: Step)
    requires Enabled(s, i, step) && s.count <= REFCOUNT_MAX
    ensures var s' := Take(s, i, step);
      || (s'.log == s.log && s'.count == s.count)
      || exists e: Event :: s'.log == s.log + [e] && e.thread == i
           && e.outcome == LockedOutcome(e.op, s.count) && s'.count == LockedValue(e.op, s.count)
  {
    var s' := Take(s, i, step);
    if s'.log != s.log {
      var e := s'.log[|s.log|];
      assert s'.log == s.log + [e];
    }
  }

  lemma Extend(v: nat, log: seq<Event>, u: nat, e: Event)
    requires LockedRun(v, log, u) && e.outcome == LockedOutcome(e.op, u)
    ensures LockedRun(v, log + [e], LockedValue(e.op, u))
  {
    assert (log + [e])[..|log|] == log;
  }

  lemma EventsAppend(log: seq<Event>, e: Event, i: nat)
    ensures EventsOf(log + [e], i) == EventsOf(log, i) + if e.thread == i then [e] else []
  {
    assert (log + [e])[..|log|] == log;
  }

  lemma StepKeeps(v: nat, s: System, i: nat, step: Step)
    requires Linear(v, s) && Enabled(s, i, step)
    ensures Linear(v, Take(s, i, step))
  {
    hide LockedRun, EventsOf;
    var s' := Take(s, i, step);
    StepIsAtomic(s, i, step);
    if s'.log != s.log {
      var e: Event :| s'.log == s.log + [e] && e.thread == i
        && e.outcome == LockedOutcome(e.op, s.count) && s'.count == LockedValue(e.op, s.count);
      Extend(v, s.log, s.count, e);
    }
    forall j: nat | j < |s'.threads| ensures InOrder(s', j) {
      assert InOrder(s, j);
      OthersKeepOrder(s, i, step, j);
    }
  }

  lemma OthersKeepOrder(s: System, i: nat, step: Step, j: nat)
    requires Enabled(s, i, step) && j < |s.threads| && InOrder(s, j)
    ensures InOrder(Take(s, i, step), j)
  {
    hide EventsOf;
    var s' := Take(s, i, step);
    if s'.log != s.log {
      EventsAppend(s.log, s'.log[|s.log|], j);
      assert s'.log == s.log + [s'.log[|s.log|]];
    }
    if s'.answers != s.answers {
      EventsAppend(s.answers, s'.answers[|s.answers|], j);
      assert s'.answers == s.answers + [s'.answers[|s.answers|]];
    }
  }

  ghost predicate Takes(s: System, i: nat, step: Step, s': System) {
    Enabled(s, i, step) && s' == Take(s, i, step)
  }

  ghost predicate Next(s: System, s': System) {
    exists i: nat, step: Step :: Takes(s, i, step, s')
  }

  ghost predicate IsRun(v: nat, n: nat, run: seq<System>) {
    && |run| > 0 && run[0] == System(v, seq(n, _ => Idle), [], [])
    && forall k | 0 < k < |run| :: Next(run[k - 1], run[k])
  }

  /** Under every interleaving of any number of threads the lock-free count is the count under the lock. */
  lemma {:induction false} Linearizable(v: nat, n: nat, run: seq<System>)
    requires v <= REFCOUNT_MAX && IsRun(v, n, run)
    ensures Linear(v, run[|run| - 1])
    decreases |run|
  {
    if |run| > 1 {
      var before := run[..|run| - 1];
      Linearizable(v, n, before);
      assert Next(run[|run| - 2], run[|run| - 1]);
      var i: nat, step: Step :| Takes(run[|run| - 2], i, step, run[|run| - 1]);
      StepKeeps(v, run[|run| - 2], i, step);
    }
  }

  /** A count that has reached the maximum never changes again. */
  lemma {:induction false} Saturated(v: nat, n: nat, run: seq<System>, k: nat)
    requires v <= REFCOUNT_MAX && IsRun(v, n, run) && k < |run| && run[k].count == REFCOUNT_MAX
    ensures run[|run| - 1].count == REFCOUNT_MAX
    decreases |run|
  {
    if k < |run| - 1 {
      var before := run[..|run| - 1];
      Saturated(v, n, before, k);
      assert Next(run[|run| - 2], run[|run| - 1]);
      var i: nat, step: Step :| Takes(run[|run| - 2], i, step, run[|run| - 1]);
      StepIsAtomic(run[|run| - 2], i, step);
    }
  }

  // ---------- what is counted ----------

  function Ups(log: seq<Event>): nat {
    if log == [] then 0 else Ups(log[..|log| - 1]) + if log[|log| - 1].op == Inc then 1 else 0
  }

  function Downs(log: seq<Event>): nat {
    if log == [] then 0
    else Downs(log[..|log| - 1]) + if log[|log| - 1].op == DecAndTestZero && log[|log| - 1].outcome != Aborted then 1 else 0
  }

  /** What there must be after these operations: as many more as were taken, as many fewer as were given back. */
  function Balance(v: nat, log: seq<Event>): int {
    v + Ups(log) - Downs(log)
  }

  lemma {:induction false} CountIsBalance(v: nat, log: seq<Event>, count: nat)
    requires LockedRun(v, log, count) && count < 0xFFFF_FFFF
    ensures count == Balance(v, log)
    decreases |log|
  {
    if log != [] {
      var before, e := log[..|log| - 1], log[|log| - 1];
      var u: nat :| LockedRun(v, before, u) && e.outcome == LockedOutcome(e.op, u) && count == LockedValue(e.op, u);
      CountIsBalance(v, before, u);
    }
  }

  lemma {:induction false} CountBefore(v: nat, log: seq<Event>, count: nat, k: nat) returns (u: nat)
    requires LockedRun(v, log, count) && count < 0xFFFF_FFFF && k < |log|
    ensures LockedRun(v, log[..k], u) && u < 0xFFFF_FFFF && log[k].outcome == LockedOutcome(log[k].op, u)
    decreases |log|
  {
    var before, e := log[..|log| - 1], log[|log| - 1];
    u :| LockedRun(v, before, u) && e.outcome == LockedOutcome(e.op, u) && count == LockedValue(e.op, u);
    if k < |before| {
      assert before[..k] == log[..k];
      u := CountBefore(v, before, u, k);
    }
  }

  /**
   Under every interleaving, as long as the count has not reached 2^32 - 1: it is
   what was there, and what was taken less what was given back; giving back says
   that nothing is left exactly when that is so, and aborts exactly when there
   was nothing.
   */
  lemma Counts(v: nat, n: nat, run: seq<System>, k: nat)
    requires v <= REFCOUNT_MAX && IsRun(v, n, run) && run[|run| - 1].count < 0xFFFF_FFFF && k < |run[|run| - 1].log|
    ensures var s := run[|run| - 1];
      var before := Balance(v, s.log[..k]);
      && s.count == Balance(v, s.log)
      && s.log[k].outcome ==
           if s.log[k].op == Inc then Returned(false)
           else if before == 0 then Aborted
           else Returned(before == 1)
  {
    hide LockedRun;
    var s := run[|run| - 1];
    Linearizable(v, n, run);
    CountIsBalance(v, s.log, s.count);
    var u := CountBefore(v, s.log, s.count, k);
    CountIsBalance(v, s.log[..k], u);
  }
}
