/** clock_ticks, the count of the clock's ticks that step() keeps and run_fast does not: how far the two
    drift apart. No instruction reads it. */
module TickCount {
  import opened Words
  import opened Engine
  import opened FastRun
  import I = Interrupts

  /** A step that is neither simple nor an interrupt taken. */
  predicate IsSlow<E(!new)>(isa: Isa<E>, m: Machine<E>, check: bool) {
    !(check && I.Taken(m.inputs, m.clock.mtime).Some?) && Simple(isa, m).None?
  }

  /** The ticks of one step: those it makes itself, and its end_step's. */
  function StepTicks<E(!new)>(isa: Isa<E>, s: State<E>): nat {
    if s.m.halted then 0
    else
      var m, check := BeginStep(s.m), !IrqUnchanged(s);
      var e := ExecuteOrTake(isa, m, check);
      (if IsSlow(isa, m, check) then isa.slowTicks(m) else 0)
      + (if e.steps.count != s.m.steps.count && e.clock.phase + 1 == INSNS_PER_TICK then 1 else 0)
  }

  function Ticks<E(!new)>(isa: Isa<E>, s: State<E>, n: nat): nat
    decreases n
  {
    if n == 0 then 0 else StepTicks(isa, s) + Ticks(isa, Step(isa, s), n - 1)
  }

  /** What run_fast counts: the ticks of the steps it takes the ordinary way, and of no others. */
  function PassTicks<E(!new)>(isa: Isa<E>, s: State<E>, budget: nat): nat
    requires budget > 0
  {
    if !MayBatch(isa, s) then StepTicks(isa, s)
    else
      var e, limit := WithIncrement(s), Limit(s, budget);
      var p := Batch(isa, e, limit, Start(e));
      if p.done < limit then StepTicks(isa, Added(e, p)) else 0
  }

  function RunFastTicks<E(!new)>(isa: Isa<E>, s: State<E>, n: nat): nat
    decreases n
  {
    if n == 0 || s.m.halted then 0
    else
      var (t, used) := Pass(isa, s, n);
      PassTicks(isa, s, n) + RunFastTicks(isa, t, n - used)
  }

  /** The ticks inside a pass's run. */
  function RunTicks<E(!new)>(isa: Isa<E>, s: State<E>, budget: nat): nat
    requires budget > 0
  {
    if !MayBatch(isa, s) then 0
    else
      var e := WithIncrement(s);
      (s.m.clock.phase + Batch(isa, e, Limit(s, budget), Start(e)).done) / INSNS_PER_TICK
  }

  function Uncounted<E(!new)>(isa: Isa<E>, s: State<E>, n: nat): nat
    decreases n
  {
    if n == 0 || s.m.halted then 0
    else
      var (t, used) := Pass(isa, s, n);
      RunTicks(isa, s, n) + Uncounted(isa, t, n - used)
  }

  lemma {:induction false} TicksAppend<E(!new)>(isa: Isa<E>, s: State<E>, a: nat, b: nat)
    ensures Ticks(isa, s, a + b) == Ticks(isa, s, a) + Ticks(isa, StepN(isa, s, a), b)
    decreases a
  {
    hide Step, StepTicks;
    if a > 0 {
      TicksAppend(isa, Step(isa, s), a - 1, b);
    }
  }

  lemma TicksOnce<E(!new)>(isa: Isa<E>, s: State<E>)
    ensures Ticks(isa, s, 1) == StepTicks(isa, s) && Ticks(isa, s, 0) == 0
  {
  }

  lemma {:induction false} HaltedTicks<E(!new)>(isa: Isa<E>, s: State<E>, n: nat)
    requires s.m.halted
    ensures Ticks(isa, s, n) == 0
    decreases n
  {
    if n > 0 {
      HaltedTicks(isa, s, n - 1);
    }
  }

  /** A step of a run ticks if the phase is at its end. */
  lemma RunStepTicks<E(!new)>(isa: Isa<E>, s: State<E>, p: Progress)
    requires Fast(isa, s) && NothingDue(s, BulkClock(s.m.clock, p.done).mtime) && Next(isa, s, p).Some?
    ensures StepTicks(isa, Applied(s, p)) == if (s.m.clock.phase + p.done) % INSNS_PER_TICK == 1 then 1 else 0
  {
    hide I.Taken, I.Deadline;
    var b := Applied(s, p).m;
    BulkKeepsKeys(s.m.inputs, s.m.clock.phase, s.m.counters, s.m.epoch, p.done);
    var m := BeginStep(b);
    assert Simple(isa, m) == Next(isa, s, p);
    if b.clock.mtime == MAX64 == s.irqDeadline {
      BulkKeepsEvents(s.m.inputs, s.m.clock.phase, s.m.counters, p.done);
      I.DecisionReadsOnlyEvents(s.m.inputs, b.inputs, MAX64);
    }
  }

  lemma {:induction false} BatchTicks<E(!new)>(isa: Isa<E>, s: State<E>, limit: nat, p: Progress)
    requires Fast(isa, s) && p.done <= limit && StepN(isa, s, p.done) == Applied(s, p)
    requires Ticks(isa, s, p.done) == (s.m.clock.phase + p.done) / INSNS_PER_TICK
    requires var done := Batch(isa, s, limit, p).done; WithinLimit(s, done) && !Misses(s, done)
    ensures var q := Batch(isa, s, limit, p); Ticks(isa, s, q.done) == (s.m.clock.phase + q.done) / INSNS_PER_TICK
    decreases limit - p.done
  {
    hide Step, Fast, WithinLimit, Misses, Applied, BulkClock, StepTicks;
    if p.done < limit && Next(isa, s, p).Some? {
      NothingDueInside(s, Batch(isa, s, limit, p).done, p.done);
      StepExtendsRun(isa, s, p);
      StepNAppend(isa, s, p.done, 1);
      RunStepTicks(isa, s, p);
      TicksAppend(isa, s, p.done, 1);
      TicksOnce(isa, Applied(s, p));
      BatchTicks(isa, s, limit, WithOne(p, Next(isa, s, p).value));
    }
  }

  lemma SameTicks<E(!new)>(isa: Isa<E>, s: State<E>, k: nat)
    requires !s.m.halted
    ensures Ticks(isa, WithIncrement(s), k) == Ticks(isa, s, k)
  {
    IncrementIsDecidedAfresh(isa, s);
    assert BeginStep(WithIncrement(s).m) == BeginStep(s.m);
  }

  lemma PassTicksCounted<E(!new)>(isa: Isa<E>, s: State<E>, budget: nat)
    requires 0 < budget && !s.m.halted && CleanPass(isa, s, budget)
    ensures PassTicks(isa, s, budget) + RunTicks(isa, s, budget) == Ticks(isa, s, Pass(isa, s, budget).1)
  {
    hide Step, StepTicks, Ticks, Batch, Misses, Applied, Added, RunLimit, Keyed, StepN;
    TicksOnce(isa, s);
    if MayBatch(isa, s) {
      var e, limit := WithIncrement(s), Limit(s, budget);
      var p := Batch(isa, e, limit, Start(e));
      NothingDone(e);
      NoSteps(isa, e);
      TicksOnce(isa, e);
      BatchIsSteps(isa, e, limit, Start(e));
      BatchTicks(isa, e, limit, Start(e));
      AddedIsApplied(e, p);
      TicksAppend(isa, e, p.done, 1);
      TicksOnce(isa, Applied(e, p));
      SameTicks(isa, s, p.done);
      SameTicks(isa, s, p.done + 1);
    }
  }

  /** run_fast's count falls behind the steps' by exactly the ticks inside its runs. The counts agree only
      if there were none. */
  lemma {:induction false} RunFastFallsBehind<E(!new)>(isa: Isa<E>, s: State<E>, n: nat)
    requires Clean(isa, s, n)
    ensures RunFastTicks(isa, s, n) + Uncounted(isa, s, n) == Ticks(isa, s, n)
    decreases n
  {
    hide Step, StepTicks, Ticks, Pass, PassTicks, RunTicks, CleanPass, StepN;
    if n == 0 {
      TicksOnce(isa, s);
    } else if s.m.halted {
      HaltedTicks(isa, s, n);
    } else {
      var (t, used) := Pass(isa, s, n);
      PassTicksCounted(isa, s, n);
      PassIsSteps(isa, s, n);
      RunFastFallsBehind(isa, t, n - used);
      TicksAppend(isa, s, used, n - used);
    }
  }

  /** Two idle instructions in one run tick the clock once, and run_fast does not count it. */
  lemma OneTickUncounted()
    ensures var s := AtLastTick().(m := AtLastTick().m.(clock := Clock(0, 0)));
      RunFast(Idle(), s, 2) == StepN(Idle(), s, 2) && RunFastTicks(Idle(), s, 2) == 0 && Ticks(Idle(), s, 2) == 1
  {
    hide I.Taken, I.LastTick, I.Deadline, StepN, Ticks;
    var isa, s := Idle(), AtLastTick().(m := AtLastTick().m.(clock := Clock(0, 0)));
    var p := WithOne(Start(s), Next(isa, s, Start(s)).value);
    var q := WithOne(p, Next(isa, s, p).value);
    assert WithIncrement(s) == s && Limit(s, 2) == 2;
    assert Batch(isa, s, 2, q) == q && Batch(isa, s, 2, p) == q && Batch(isa, s, 2, Start(s)) == q;
    AddedIsApplied(s, q);
    assert Pass(isa, s, 2) == (Added(s, q), 2);
    assert Clean(isa, Added(s, q), 0);
    assert Clean(isa, s, 2);
    RunFastIsSteps(isa, s, 2);
    RunFastFallsBehind(isa, s, 2);
    assert RunFastTicks(isa, Added(s, q), 0) == 0 == Uncounted(isa, Added(s, q), 0);
    assert RunTicks(isa, s, 2) == 1 && PassTicks(isa, s, 2) == 0;
  }
}
