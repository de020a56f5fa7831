/** The clock coming round: which inputs let a check be skipped past the end of time, and some that do
    not. The guest may write mtime, so it can bring the end about. */
module ClockWrap {
  import opened Words
  import opened Bits
  import opened Registers
  import opened Engine
  import opened EngineProofs
  import opened FastRun
  import I = Interrupts

  /** A phase later. */
  function Later(c: Clock): Clock {
    if c.phase == 0 then c.(phase := 1) else Clock((c.mtime + 1) % TWO64, 0)
  }

  const END: Clock := Clock(MAX64, 1)

  // ---- One step of the idle machine -----------------------------------------------------------

  /** Its clock moves on, and nothing that decides an interrupt changes but that taking one is an event. */
  lemma IdleAlways(m: Machine<()>)
    requires !m.halted
    ensures var a := AlwaysStep(Idle(), m);
      && !a.halted && a.clock == Later(m.clock) && I.SameInputs(m.inputs, a.inputs)
      && a.inputs.regs.eventGen == m.inputs.regs.eventGen + if I.Taken(m.inputs, m.clock.mtime).Some? then 1 else 0
  {
    hide I.Taken, Refresh;
    var b := BeginStep(m);
    EndStepKeepsInputs(Execute(Idle(), b));
    EndStepKeepsInputs(TakeInterrupt(Idle(), b, 0));
  }

  lemma IdleStep(s: State<()>)
    requires !s.m.halted
    ensures var t := Step(Idle(), s);
      if IrqUnchanged(s) then
        && !t.m.halted && t.m.clock == Later(s.m.clock) && I.SameInputs(s.m.inputs, t.m.inputs)
        && t.m.inputs.regs.eventGen == s.m.inputs.regs.eventGen
        && t.irqKey == s.irqKey && t.irqDeadline == s.irqDeadline
      else t == State(AlwaysStep(Idle(), s.m), s.m.inputs.regs.eventGen, I.Deadline(s.m.inputs, s.m.clock.mtime))
  {
    hide I.Taken, I.Deadline, Refresh;
    EndStepKeepsInputs(Execute(Idle(), BeginStep(s.m)));
  }

  lemma IdleContract()
    ensures EventContract(Idle())
  {
  }

  /** Away from the end a step of it does not come round. */
  lemma NoWrap(s: State<()>)
    requires !s.m.halted && s.m.clock != END
    ensures WrapsQuietly(Idle(), s)
  {
    hide Step, AlwaysStep, Quiet, I.Taken, I.Deadline, I.SameInputs, Later;
    IdleAlways(s.m);
    IdleStep(s);
    LaterIsLater(s.m.clock);
  }

  lemma LaterIsLater(c: Clock)
    ensures c != END ==> c.mtime <= Later(c).mtime
  {
  }

  // ---- Where it comes round quietly -----------------------------------------------------------

  /** At the end of time an interrupt is taken, which is an event, or there is none to be taken at any
      time. */
  ghost predicate RoundIsQuiet(i: I.Inputs) {
    I.Taken(i, MAX64).Some? || Quiet(i, 0, MAX64)
  }

  lemma SameInputsSameRound(i: I.Inputs, j: I.Inputs)
    requires I.SameInputs(i, j)
    ensures RoundIsQuiet(i) == RoundIsQuiet(j)
  {
    hide I.Taken, I.SameInputs;
    forall u: nat
      ensures I.Taken(i, u) == I.Taken(j, u)
    {
      I.DecisionReadsOnlyEvents(i, j, u);
    }
  }

  lemma {:induction false} QuietRounds(s: State<()>, n: nat)
    requires !s.m.halted && RoundIsQuiet(s.m.inputs)
    ensures AlwaysWrapsQuietly(Idle(), s, n)
    decreases n
  {
    hide Step, AlwaysStep, I.Taken, I.Deadline, I.SameInputs;
    if n > 0 {
      var t := Step(Idle(), s);
      IdleAlways(s.m);
      IdleStep(s);
      SameInputsSameRound(s.m.inputs, t.m.inputs);
      if s.m.clock == END {
        forall u | 0 <= u < t.irqDeadline && Quiet(s.m.inputs, 0, MAX64)
          ensures I.Taken(t.m.inputs, u).None?
        {
          I.DecisionReadsOnlyEvents(s.m.inputs, t.m.inputs, u);
        }
      } else {
        NoWrap(s);
      }
      QuietRounds(t, n - 1);
    }
  }

  // ---- Where it does not -------------------------------------------------------------------------

  lemma {:induction false} AlwaysAppend(m: Machine<()>, a: nat, b: nat)
    ensures AlwaysStepN(Idle(), m, a + b) == AlwaysStepN(Idle(), AlwaysStepN(Idle(), m, a), b)
    decreases a
  {
    hide AlwaysStep;
    if a > 0 {
      AlwaysAppend(AlwaysStep(Idle(), m), a - 1, b);
    }
  }

  function StepsToEnd(c: Clock): nat {
    2 * (MAX64 - c.mtime) + 1 - c.phase
  }

  /** Both machines reach the end of time alike. */
  lemma {:induction false} ReachEnd(s: State<()>)
    requires CheckIsGood(s) && !s.m.halted
    ensures var t := StepN(Idle(), s, StepsToEnd(s.m.clock));
      && t.m == AlwaysStepN(Idle(), s.m, StepsToEnd(s.m.clock)) && CheckIsGood(t) && !t.m.halted
      && t.m.clock == END && I.SameInputs(s.m.inputs, t.m.inputs)
    decreases StepsToEnd(s.m.clock)
  {
    hide Step, AlwaysStep, CheckIsGood, EventContract, I.Taken, WrapsQuietly;
    if s.m.clock != END {
      IdleContract();
      NoWrap(s);
      SkipOneStep(Idle(), s);
      IdleAlways(s.m);
      ReachEnd(Step(Idle(), s));
    }
  }

  /** From the beginning of time the skipping machine looks at nothing, and the other finds nothing until
      `u`. */
  lemma {:induction false} Drift(s: State<()>, u: nat)
    requires !s.m.halted && s.m.clock.phase == 0 && s.m.clock.mtime <= u < MAX64
    requires s.irqKey == s.m.inputs.regs.eventGen && s.irqDeadline == MAX64
    requires Quiet(s.m.inputs, s.m.clock.mtime, u) && I.Taken(s.m.inputs, u).Some?
    ensures var n := 2 * (u - s.m.clock.mtime) + 1;
      StepN(Idle(), s, n).m.inputs.regs.eventGen < AlwaysStepN(Idle(), s.m, n).inputs.regs.eventGen
    decreases u - s.m.clock.mtime
  {
    hide Step, AlwaysStep, I.Taken, I.Deadline, I.SameInputs;
    var one, two := Step(Idle(), s), Step(Idle(), Step(Idle(), s));
    IdleAlways(s.m);
    IdleStep(s);
    if s.m.clock.mtime == u {
      assert StepN(Idle(), s, 1) == StepN(Idle(), one, 0);
      assert AlwaysStepN(Idle(), s.m, 1) == AlwaysStepN(Idle(), AlwaysStep(Idle(), s.m), 0);
    } else {
      SkipIdle(s);
      IdleStep(one);
      SkipIdle(one);
      assert two.m.clock.mtime == s.m.clock.mtime + 1;
      SameAndSame(s.m.inputs, one.m.inputs, two.m.inputs);
      StillQuiet(s.m.inputs, two.m.inputs, s.m.clock.mtime, u);
      Drift(two, u);
      var n := 2 * (u - two.m.clock.mtime) + 1;
      assert StepN(Idle(), s, n + 2) == StepN(Idle(), one, n + 1) == StepN(Idle(), two, n);
      assert AlwaysStepN(Idle(), s.m, n + 2) == AlwaysStepN(Idle(), one.m, n + 1) == AlwaysStepN(Idle(), two.m, n);
    }
  }

  /** With nothing to take, a check skipped is a check made. */
  lemma SkipIdle(s: State<()>)
    requires !s.m.halted && IrqUnchanged(s) && I.Taken(s.m.inputs, s.m.clock.mtime).None?
    ensures Step(Idle(), s).m == AlwaysStep(Idle(), s.m)
    ensures I.Taken(Step(Idle(), s).m.inputs, s.m.clock.mtime).None?
  {
    hide I.Taken, I.Deadline, I.SameInputs, AfterExecute;
    IdleStep(s);
    I.DecisionReadsOnlyEvents(s.m.inputs, Step(Idle(), s).m.inputs, s.m.clock.mtime);
  }

  lemma SameAndSame(i: I.Inputs, j: I.Inputs, k: I.Inputs)
    requires I.SameInputs(i, j) && I.SameInputs(j, k)
    ensures I.SameInputs(i, k)
  {
  }

  lemma StillQuiet(i: I.Inputs, j: I.Inputs, t: nat, u: nat)
    requires Quiet(i, t, u) && I.SameInputs(i, j) && I.Taken(i, u).Some?
    ensures Quiet(j, t + 1, u) && I.Taken(j, u).Some?
  {
    hide I.Taken, I.SameInputs;
    I.DecisionReadsOnlyEvents(i, j, u);
    forall v | t + 1 <= v < u
      ensures I.Taken(j, v).None?
    {
      I.DecisionReadsOnlyEvents(i, j, v);
    }
  }

  /** The first time something would be taken. */
  lemma {:induction false} FirstTaken(i: I.Inputs, t: nat, u: nat) returns (v: nat)
    requires t <= u && I.Taken(i, u).Some?
    ensures t <= v <= u && Quiet(i, t, v) && I.Taken(i, v).Some?
    decreases u - t
  {
    hide I.Taken;
    if I.Taken(i, t).Some? {
      v := t;
    } else {
      v := FirstTaken(i, t + 1, u);
    }
  }

  /** Past an end of time with nothing to take there, an interrupt due later in the round is missed. */
  lemma MissedAfterEnd(s: State<()>)
    requires !s.m.halted && s.m.clock == END && CheckIsGood(s) && !RoundIsQuiet(s.m.inputs)
    ensures exists n: nat :: StepN(Idle(), s, n).m != AlwaysStepN(Idle(), s.m, n)
  {
    hide Step, AlwaysStep, I.Taken, I.Deadline, I.SameInputs, StepN, AlwaysStepN;
    var u: nat :| u < MAX64 && I.Taken(s.m.inputs, u).Some?;
    var one := Step(Idle(), s);
    IdleAlways(s.m);
    IdleStep(s);
    LastDeadline(s.m.inputs);
    SameInputsSameRound(s.m.inputs, one.m.inputs);
    I.DecisionReadsOnlyEvents(s.m.inputs, one.m.inputs, u);
    var v := FirstTaken(one.m.inputs, 0, u);
    Drift(one, v);
    var n := 2 * v + 1;
    StepOnce(s, n);
    assert StepN(Idle(), s, n + 1).m != AlwaysStepN(Idle(), s.m, n + 1);
  }

  lemma StepOnce(s: State<()>, n: nat)
    ensures StepN(Idle(), s, n + 1) == StepN(Idle(), Step(Idle(), s), n)
    ensures AlwaysStepN(Idle(), s.m, n + 1) == AlwaysStepN(Idle(), AlwaysStep(Idle(), s.m), n)
  {
  }

  /** From any clock, a hart that goes on idling has its interrupts taken when due, for ever, exactly if an
      interrupt is taken at the end of time or there is none to be taken at any time. */
  lemma IdleForeverExactly(s: State<()>)
    requires CheckIsGood(s) && !s.m.halted
    ensures (forall n: nat :: StepN(Idle(), s, n).m == AlwaysStepN(Idle(), s.m, n)) <==> RoundIsQuiet(s.m.inputs)
  {
    hide Step, AlwaysStep, StepN, AlwaysStepN, CheckIsGood, EventContract, RoundIsQuiet, AlwaysWrapsQuietly;
    IdleContract();
    if RoundIsQuiet(s.m.inputs) {
      forall n: nat
        ensures StepN(Idle(), s, n).m == AlwaysStepN(Idle(), s.m, n)
      {
        QuietRounds(s, n);
        SkippingIsInvisible(Idle(), s, n);
      }
    } else {
      var k := StepsToEnd(s.m.clock);
      ReachEnd(s);
      var t := StepN(Idle(), s, k);
      SameInputsSameRound(s.m.inputs, t.m.inputs);
      MissedAfterEnd(t);
      var n: nat :| StepN(Idle(), t, n).m != AlwaysStepN(Idle(), t.m, n);
      StepNAppend(Idle(), s, k, n);
      AlwaysAppend(s.m, k, n);
      assert StepN(Idle(), s, k + n).m != AlwaysStepN(Idle(), s.m, k + n);
    }
  }

  /** That is so of a hart with no htimedelta in play. */
  lemma OrdinaryRoundIsQuiet(i: I.Inputs)
    requires I.Ordinary(i)
    ensures RoundIsQuiet(i)
  {
    hide I.Taken, I.Ordinary;
    if I.Taken(i, MAX64).None? {
      forall u | 0 <= u < MAX64
        ensures I.Taken(i, u).None?
      {
        I.NotTakenBefore(i, u, MAX64);
      }
    }
  }

  /** And of a hart with htimedelta 0 that a wait would leave asleep at the end of time. */
  lemma AsleepIsQuiet(i: I.Inputs)
    requires i.regs.csr[0x605] == 0 && !I.Wake(i, MAX64)
    ensures Quiet(i, 0, MAX64) && RoundIsQuiet(i)
  {
    hide I.PendingEnabled;
    forall u | 0 <= u < MAX64
      ensures I.Taken(i, u).None?
    {
      I.NeverWakesBeforeLast(i, u);
    }
  }

  // ---- htimedelta -----------------------------------------------------------------------------------

  /** A program in U-mode under a hypervisor whose guest's timer, `delta` ahead of the machine's, is set for
      the beginning of time. */
  function Ahead(delta: nat): I.Inputs {
    var csr: CsrFile := seq(CSRS, k =>
      if k == 0x304 then 64 else if k == 0x303 then 0x1444 else if k == 0x30A || k == 0x60A then I.STCE
      else if k == 0x605 || k == 0x24D then delta else 0);
    I.Inputs(Regs(csr, U, false, 0, 0), true, MAX64, false, false, false, false)
  }

  lemma AheadTakes(delta: nat, now: nat)
    requires 0 < delta < TWO64 && now <= MAX64
    ensures I.Taken(Ahead(delta), now) == if (now + delta) % TWO64 >= delta then Some(6) else None
  {
    var i := Ahead(delta);
    OnlyBitSix();
    assert Bit(0x1444, 6) by {
      assert Bit(0x1444, 6) == Bit(0x1444 / 8, 3) == Bit(0x1444 / 64, 0);
    }
    assert !Bit(0, 6) by {
      assert Bit(0, 6) == Bit(0, 3);
    }
    assert forall b <- I.PRIORITY | b != 6 :: !I.PendingEnabled(i, b, now);
    assert I.PendingEnabled(i, 6, now) <==> (now + delta) % TWO64 >= delta;
    if (now + delta) % TWO64 >= delta {
      assert I.FirstPending(i, now, 9) == Some(6);
    }
    assert I.Delivered(i, 6);
  }

  lemma OnlyBitSix()
    ensures Bit(64, 6) && forall b <- I.PRIORITY | b != 6 :: !Bit(64, b)
  {
    forall b | b in I.PRIORITY
      ensures Bit(64, b) == (b == 6)
    {
      if b > 6 {
        assert Bit(64, b) == Bit(8, b - 3) == Bit(1, b - 6) == Bit(0, b - 7);
      } else if b > 3 {
        assert Bit(64, b) == Bit(8, b - 3);
      }
    }
    assert 6 in I.PRIORITY;
  }

  /** Any htimedelta but 0 can be what goes wrong: nothing is to be taken at the end of time, the deadline
      recorded there is the end itself, and the guest's timer, due a tick later, is not looked at. */
  lemma OffsetIsMissed(delta: nat, s: State<()>)
    requires 0 < delta < TWO64 && s.m.inputs == Ahead(delta) && CheckIsGood(s) && !s.m.halted
    ensures I.UsualDelegation(Ahead(delta)) && EventContract(Idle())
    ensures I.Taken(Ahead(delta), MAX64) == None && I.Deadline(Ahead(delta), MAX64) == MAX64
    ensures I.Taken(Ahead(delta), 0) == Some(6)
    ensures s.m.clock == END ==> StepN(Idle(), s, 2).m != AlwaysStepN(Idle(), s.m, 2)
    ensures exists n: nat :: StepN(Idle(), s, n).m != AlwaysStepN(Idle(), s.m, n)
  {
    hide Step, AlwaysStep, StepN, AlwaysStepN, CheckIsGood, EventContract, I.Taken, I.Deadline, Ahead,
      I.UsualDelegation;
    IdleContract();
    AheadIsUsual(delta);
    AheadTakes(delta, MAX64);
    AheadTakes(delta, 0);
    LastDeadline(Ahead(delta));
    IdleForeverExactly(s);
    if s.m.clock == END {
      MissedAtOnce(s);
    }
  }

  lemma AheadIsUsual(delta: nat)
    ensures I.UsualDelegation(Ahead(delta))
  {
    assert Bit(0x1444, 2) && !Bit(0x1444, 7);
    assert Bit(0x1444, 6) == Bit(0x1444 / 8, 3) == Bit(0x1444 / 64, 0);
    assert Bit(0x1444, 10) == Bit(0x1444 / 64, 4) == Bit(0x1444 / 1024, 0);
    assert Bit(0x1444, 12) == Bit(0x1444 / 64, 6) == Bit(0x1444 / 4096, 0);
    assert !Bit(0, 5);
  }

  lemma MissedAtOnce(s: State<()>)
    requires !s.m.halted && s.m.clock == END && I.Taken(s.m.inputs, MAX64).None? && I.Taken(s.m.inputs, 0).Some?
    requires CheckIsGood(s)
    ensures StepN(Idle(), s, 2).m != AlwaysStepN(Idle(), s.m, 2)
  {
    hide Step, AlwaysStep, StepN, AlwaysStepN, I.Taken, I.Deadline, I.SameInputs;
    var one := Step(Idle(), s);
    IdleAlways(s.m);
    IdleStep(s);
    LastDeadline(s.m.inputs);
    I.DecisionReadsOnlyEvents(s.m.inputs, one.m.inputs, 0);
    Drift(one, 0);
    StepOnce(s, 1);
  }

  /** M-mode delegating its own timer, which then hides an interrupt it would take. */
  function OwnTimerAway(): I.Inputs {
    var csr: CsrFile := seq(CSRS, k =>
      if k == MSTATUS then I.MIE_BIT else if k == 0x304 then 130
      else if k == 0x303 then 128 else if k == 0x344 then 2 else 0);
    I.Inputs(Regs(csr, M, false, 0, 0), false, MAX64, false, false, false, false)
  }

  /** Delegation can be what goes wrong, too, with no htimedelta at all. */
  lemma DelegationIsMissed(s: State<()>)
    requires s.m.inputs == OwnTimerAway() && CheckIsGood(s) && !s.m.halted
    ensures I.Taken(OwnTimerAway(), MAX64) == None && I.Taken(OwnTimerAway(), 0) == Some(1)
    ensures exists n: nat :: StepN(Idle(), s, n).m != AlwaysStepN(Idle(), s.m, n)
  {
    hide StepN, AlwaysStepN, CheckIsGood;
    OwnTimerTakes();
    IdleForeverExactly(s);
  }

  lemma OwnTimerTakes()
    ensures I.Taken(OwnTimerAway(), MAX64) == None && I.Taken(OwnTimerAway(), 0) == Some(1)
  {
    hide OwnTimerAway, I.Delivered, I.PendingEnabled, I.FirstPending;
    var i := OwnTimerAway();
    OwnTimerDelivered();
    OwnTimerPending(MAX64);
    OwnTimerPending(0);
    var p := I.FirstIsFirst(i, MAX64, 0);
    var q := I.FirstIsFirst(i, 0, 0);
    I.FirstOne(i, MAX64, p);
    I.FirstOne(i, 0, q);
    WhereTimersAre(p, q);
  }

  lemma WhereTimersAre(p: nat, q: nat)
    requires p < |I.PRIORITY| && q < |I.PRIORITY|
    ensures I.PRIORITY[2] == 7 && I.PRIORITY[4] == 1 && (I.PRIORITY[p] in {1, 7} ==> p in {2, 4})
      && (I.PRIORITY[q] == 1 ==> q == 4)
    ensures p == 4 ==> 2 < p
  {
  }

  lemma OwnTimerDelivered()
    ensures !I.Delivered(OwnTimerAway(), 7) && I.Delivered(OwnTimerAway(), 1)
  {
    hide Bit;
    OwnTimerBits();
    assert I.PRIORITY[2] == 7 && I.PRIORITY[4] == 1;
  }

  lemma OwnTimerPending(now: nat)
    ensures forall b <- I.PRIORITY :: I.PendingEnabled(OwnTimerAway(), b, now) <==> b == 1 || (b == 7 && now >= MAX64)
    ensures I.FirstPending(OwnTimerAway(), now, 0).Some?
  {
    hide Bit;
    OwnTimerBits();
    assert I.PRIORITY[4] == 1;
  }

  /** 130 is bits 1 and 7, and 128 is 7. */
  lemma OwnTimerBits()
    ensures forall b <- I.PRIORITY :: Bit(130, b) == (b in {1, 7}) && Bit(128, b) == (b == 7)
  {
    forall b | b in I.PRIORITY
      ensures Bit(130, b) == (b in {1, 7}) && Bit(128, b) == (b == 7)
    {
      if b >= 6 {
        assert Bit(130, b) == Bit(16, b - 3) == Bit(2, b - 6);
        assert Bit(128, b) == Bit(16, b - 3) == Bit(2, b - 6);
        if b >= 9 {
          assert Bit(2, b - 6) == Bit(0, b - 9) == false by {
            BitOfZero(b - 9);
          }
        }
      } else if b >= 3 {
        assert Bit(130, b) == Bit(16, b - 3) && Bit(128, b) == Bit(16, b - 3);
      }
    }
  }
}
