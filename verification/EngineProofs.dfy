/** Why the engine may skip: the interrupt check between its deadlines, and the per-step bookkeeping
    inside a run of simple instructions. */
module EngineProofs {
  import opened Words
  import opened Registers
  import opened Engine
  import I = Interrupts

  // ---- Skipping the interrupt check ---------------------------------------------------

  /** (j, u) comes after (i, t) with the event counter honest: it never goes back, and while it
      stands still nothing an interrupt decision reads has changed and mtime has only grown. */
  ghost predicate Honest(i: I.Inputs, t: nat, j: I.Inputs, u: nat) {
    && i.regs.eventGen <= j.regs.eventGen
    && (i.regs.eventGen == j.regs.eventGen ==> I.SameInputs(i, j) && t <= u)
  }

  ghost predicate HonestMove<E>(a: Machine<E>, b: Machine<E>) {
    Honest(a.inputs, a.clock.mtime, b.inputs, b.clock.mtime)
  }

  /** What event_gen.hpp asks of everything outside the engine: a change bumps the counter, and
      entering a trap (a privilege change) always does. */
  ghost predicate EventContract<E(!new)>(isa: Isa<E>) {
    && (forall m: Machine<E> {:trigger isa.slow(m)} :: HonestMove(m, isa.slow(m)))
    && (forall m: Machine<E>, b: nat {:trigger isa.trap(m, b)} ::
          m.inputs.regs.eventGen < isa.trap(m, b).inputs.regs.eventGen)
  }

  /** Nothing to take from `t` up to the deadline. */
  ghost predicate Quiet(i: I.Inputs, t: nat, deadline: nat) {
    forall u | t <= u < deadline :: I.Taken(i, u).None?
  }

  /** The cached check is still good: it was made under this event count or an older one, and if
      under this one, there is nothing to take up to its deadline. */
  ghost predicate CheckIsGood<E>(s: State<E>) {
    && (s.irqKey <= s.m.inputs.regs.eventGen || s.irqDeadline == 0)
    && (s.irqKey == s.m.inputs.regs.eventGen ==> Quiet(s.m.inputs, s.m.clock.mtime, s.irqDeadline))
  }

  lemma CountingKeepsEvents(i: I.Inputs, addr: nat, n: nat)
    requires addr == MCYCLE || addr == MINSTRET
    ensures I.SameInputs(i, Add(i, addr, n)) && Add(i, addr, n).regs.eventGen == i.regs.eventGen
  {
  }

  lemma EndStepKeepsInputs<E>(m: Machine<E>)
    ensures I.SameInputs(m.inputs, EndStep(m).inputs) && EndStep(m).inputs.regs.eventGen == m.inputs.regs.eventGen
  {
    hide Refresh;
    CountingKeepsEvents(m.inputs, MINSTRET, 1);
    CountingKeepsEvents(m.inputs, MCYCLE, 1);
    CountingKeepsEvents(Add(m.inputs, MINSTRET, 1), MCYCLE, 1);
  }

  lemma HonestKeepsQuiet(i: I.Inputs, t: nat, j: I.Inputs, u: nat, deadline: nat)
    requires Honest(i, t, j, u) && i.regs.eventGen == j.regs.eventGen && Quiet(i, t, deadline)
    ensures Quiet(j, u, deadline)
  {
    forall v | u <= v < deadline
      ensures I.Taken(j, v).None?
    {
      I.DecisionReadsOnlyEvents(i, j, v);
    }
  }

  /** A check that finds nothing is good until its deadline. */
  lemma FreshCheckIsQuiet(i: I.Inputs, now: nat)
    requires I.Taken(i, now).None?
    ensures Quiet(i, now, I.Deadline(i, now))
  {
    forall t | now <= t < I.Deadline(i, now)
      ensures I.Taken(i, t).None?
    {
      I.SameUntilDeadline(i, now, t);
    }
  }

  lemma ExecuteHonest<E(!new)>(isa: Isa<E>, m: Machine<E>)
    requires EventContract(isa)
    ensures HonestMove(m, Execute(isa, m))
  {
  }

  /** An uninterrupted step from a machine with nothing to take up to `deadline`. */
  lemma QuietStep<E(!new)>(isa: Isa<E>, m: Machine<E>, deadline: nat)
    requires EventContract(isa) && !m.halted
    requires I.Taken(m.inputs, m.clock.mtime).None?
    requires Quiet(m.inputs, m.clock.mtime, deadline)
    ensures var m' := AlwaysStep(isa, m);
      && m.inputs.regs.eventGen <= m'.inputs.regs.eventGen
      && (m.inputs.regs.eventGen == m'.inputs.regs.eventGen ==> I.SameInputs(m.inputs, m'.inputs))
      && (m.inputs.regs.eventGen == m'.inputs.regs.eventGen && m.clock.mtime <= m'.clock.mtime ==>
            Quiet(m'.inputs, m'.clock.mtime, deadline))
  {
    hide I.Taken, EndStep;
    var e := Execute(isa, BeginStep(m));
    ExecuteHonest(isa, BeginStep(m));
    EndStepKeepsInputs(e);
    var m' := AfterExecute(m, e);
    if m.inputs.regs.eventGen == m'.inputs.regs.eventGen && m.clock.mtime <= m'.clock.mtime {
      HonestKeepsQuiet(m.inputs, m.clock.mtime, m'.inputs, m'.clock.mtime, deadline);
    }
  }

  /** If the step taken from `s` takes mtime past its last value without an event, there is nothing to
      take from then up to the deadline: which was made before the clock came round, and does not see it. */
  ghost predicate WrapsQuietly<E(!new)>(isa: Isa<E>, s: State<E>) {
    var t := Step(isa, s);
    t.m.clock.mtime < s.m.clock.mtime && t.m.inputs.regs.eventGen == s.m.inputs.regs.eventGen == t.irqKey ==>
      Quiet(t.m.inputs, t.m.clock.mtime, t.irqDeadline)
  }

  ghost predicate AlwaysWrapsQuietly<E(!new)>(isa: Isa<E>, s: State<E>, n: nat)
    decreases n
  {
    n > 0 ==> WrapsQuietly(isa, s) && AlwaysWrapsQuietly(isa, Step(isa, s), n - 1)
  }

  /** One step: skipping the check while the cache stands takes an interrupt exactly when checking
      would, and leaves a cache that is good again exactly if the clock does not come round to something. */
  lemma SkipOneStep<E(!new)>(isa: Isa<E>, s: State<E>)
    requires EventContract(isa) && CheckIsGood(s)
    ensures Step(isa, s).m == AlwaysStep(isa, s.m)
    ensures CheckIsGood(Step(isa, s)) <==> WrapsQuietly(isa, s)
  {
    var m := s.m;
    if m.halted {
    } else if IrqUnchanged(s) {
      QuietStep(isa, m, s.irqDeadline);
    } else {
      var b := I.Taken(m.inputs, m.clock.mtime);
      if b.Some? {
        var _ := isa.trap(BeginStep(m), b.value);
        EndStepKeepsInputs(TakeInterrupt(isa, BeginStep(m), b.value));
      } else {
        FreshCheckIsQuiet(m.inputs, m.clock.mtime);
        QuietStep(isa, m, I.Deadline(m.inputs, m.clock.mtime));
      }
    }
  }

  /** Over every run whose clock comes round, if it does, quietly, a machine that skips the check while no
      event has moved the counter and mtime is short of the deadline is, step for step, the machine that makes
      it before every step. */
  lemma {:induction false} SkippingIsInvisible<E(!new)>(isa: Isa<E>, s: State<E>, n: nat)
    requires EventContract(isa) && CheckIsGood(s) && AlwaysWrapsQuietly(isa, s, n)
    ensures StepN(isa, s, n).m == AlwaysStepN(isa, s.m, n)
    ensures CheckIsGood(StepN(isa, s, n))
    decreases n
  {
    hide Step, AlwaysStep, CheckIsGood, EventContract, WrapsQuietly;
    if n > 0 {
      SkipOneStep(isa, s);
      SkippingIsInvisible(isa, Step(isa, s), n - 1);
    }
  }

  // ---- When the clock comes round quietly ----------------------------------------------------------

  /** No transition brings htimedelta into play, or has a timer hide another interrupt. */
  ghost predicate KeepsOrdinary<E(!new)>(isa: Isa<E>) {
    && (forall m: Machine<E> {:trigger isa.slow(m)} :: I.Ordinary(m.inputs) ==> I.Ordinary(isa.slow(m).inputs))
    && (forall m: Machine<E>, b: nat {:trigger isa.trap(m, b)} :: I.Ordinary(m.inputs) ==>
          I.Ordinary(isa.trap(m, b).inputs))
  }

  lemma StepKeepsOrdinary<E(!new)>(isa: Isa<E>, s: State<E>)
    requires KeepsOrdinary(isa) && I.Ordinary(s.m.inputs)
    ensures I.Ordinary(Step(isa, s).m.inputs)
  {
    hide I.Taken, I.Deadline, I.Ordinary, I.SameInputs, EndStep;
    var m := BeginStep(s.m);
    var b := I.Taken(m.inputs, m.clock.mtime);
    if b.Some? {
      var e := TakeInterrupt(isa, m, b.value);
      assert I.Ordinary(isa.trap(m, b.value).inputs);
      EndStepKeepsInputs(e);
      I.SameInputsOrdinary(e.inputs, EndStep(e).inputs);
    }
    var e := Execute(isa, m);
    assert I.Ordinary(e.inputs);
    EndStepKeepsInputs(e);
    I.SameInputsOrdinary(e.inputs, EndStep(e).inputs);
  }

  /** With no htimedelta in play what is not due at the end of time was not due before, and so the clock
      may come round under any deadline. */
  lemma OrdinaryWrapsQuietly<E(!new)>(isa: Isa<E>, s: State<E>)
    requires EventContract(isa) && CheckIsGood(s) && I.Ordinary(s.m.inputs)
    ensures WrapsQuietly(isa, s)
  {
    hide I.Taken, I.Deadline, I.Ordinary, I.SameInputs, EndStep;
    var m, t := s.m, Step(isa, s);
    if !m.halted && t.m.inputs.regs.eventGen == m.inputs.regs.eventGen == t.irqKey {
      NotDue(isa, s);
      QuietStep(isa, m, t.irqDeadline);
      forall u | t.m.clock.mtime <= u < t.irqDeadline
        ensures I.Taken(t.m.inputs, u).None?
      {
        if u < m.clock.mtime {
          I.NotTakenBefore(m.inputs, u, m.clock.mtime);
        }
        I.DecisionReadsOnlyEvents(m.inputs, t.m.inputs, u);
      }
    }
  }

  /** A step without an event took no interrupt, and there is none up to the deadline it leaves. */
  lemma NotDue<E(!new)>(isa: Isa<E>, s: State<E>)
    requires EventContract(isa) && CheckIsGood(s) && !s.m.halted
    requires Step(isa, s).m.inputs.regs.eventGen == s.m.inputs.regs.eventGen == Step(isa, s).irqKey
    ensures I.Taken(s.m.inputs, s.m.clock.mtime).None? && Step(isa, s).m == AlwaysStep(isa, s.m)
    ensures Quiet(s.m.inputs, s.m.clock.mtime, Step(isa, s).irqDeadline)
  {
    hide I.Taken, I.Deadline, I.SameInputs, EndStep;
    var m := BeginStep(s.m);
    var b := I.Taken(m.inputs, m.clock.mtime);
    if !IrqUnchanged(s) {
      if b.Some? {
        var _ := isa.trap(m, b.value);
        EndStepKeepsInputs(TakeInterrupt(isa, m, b.value));
      } else {
        FreshCheckIsQuiet(s.m.inputs, s.m.clock.mtime);
      }
    }
  }

  lemma {:induction false} OrdinaryAlwaysWrapsQuietly<E(!new)>(isa: Isa<E>, s: State<E>, n: nat)
    requires EventContract(isa) && KeepsOrdinary(isa) && CheckIsGood(s) && I.Ordinary(s.m.inputs)
    ensures AlwaysWrapsQuietly(isa, s, n)
    decreases n
  {
    hide Step, AlwaysStep, CheckIsGood, EventContract, KeepsOrdinary, WrapsQuietly, I.Ordinary;
    if n > 0 {
      OrdinaryWrapsQuietly(isa, s);
      SkipOneStep(isa, s);
      StepKeepsOrdinary(isa, s);
      OrdinaryAlwaysWrapsQuietly(isa, Step(isa, s), n - 1);
    }
  }

  /** So on a machine with no htimedelta in play, over every run of any length and from any clock, skipping
      the check is invisible. */
  lemma OrdinarySkippingIsInvisible<E(!new)>(isa: Isa<E>, s: State<E>, n: nat)
    requires EventContract(isa) && KeepsOrdinary(isa) && CheckIsGood(s) && I.Ordinary(s.m.inputs)
    ensures StepN(isa, s, n).m == AlwaysStepN(isa, s.m, n)
    ensures CheckIsGood(StepN(isa, s, n))
  {
    OrdinaryAlwaysWrapsQuietly(isa, s, n);
    SkippingIsInvisible(isa, s, n);
  }
}
