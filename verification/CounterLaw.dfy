/** What steps do to minstret, mcycle and mtime, by the bits of mcountinhibit (bit 0 for mcycle, bit 2 for
    minstret) and of Smcntrpmf's mcyclecfg and minstretcfg (bit 62 for M-mode, 61 for S, 60 for U, 59 for VS and
    58 for VU). */
module CounterLaw {
  import opened Words
  import opened Bits
  import opened BitFlags
  import opened Registers
  import opened Engine
  import opened EngineProofs
  import opened FastRun
  import P = Pmp
  import I = Interrupts

  /** The bit that stops a counter in the mode a hart is in. */
  function ModeBit(r: Regs, extH: bool): nat {
    match r.priv
    case M => 62
    case S => if extH && r.virt then 59 else 61
    case U => if extH && r.virt then 58 else 60
  }

  /** Neither inhibited nor filtered. */
  predicate Runs(r: Regs, extH: bool, inhibit: nat, cfg: nat)
    requires cfg < CSRS
  {
    !Bit(r.csr[0x320], inhibit) && !Bit(r.csr[cfg], ModeBit(r, extH))
  }

  predicate InstretRuns(i: I.Inputs) {
    Runs(i.regs, i.extH, 2, 0x322)
  }

  predicate CycleRuns(i: I.Inputs) {
    Runs(i.regs, i.extH, 0, 0x321)
  }

  function Minstret(i: I.Inputs): nat {
    i.regs.csr[0xB02]
  }

  function Mcycle(i: I.Inputs): nat {
    i.regs.csr[0xB00]
  }

  lemma CountsAreRuns(i: I.Inputs)
    ensures CountsInstret(i.regs, i.extH) == InstretRuns(i) && CountsCycle(i.regs, i.extH) == CycleRuns(i)
  {
    hide Bit, Has;
    Inhibits(i.regs.csr[0x320]);
    Filters(i.regs.csr[0x321]);
    Filters(i.regs.csr[0x322]);
  }

  lemma Inhibits(v: nat)
    ensures Bit(v, 0) == Has(v, 1) && Bit(v, 2) == Has(v, 4)
  {
    hide Bit, Has;
    ByteFlags(v, 0, 1);
  }

  lemma Filters(v: nat)
    ensures Bit(v, 58) == Has(v, 0x400_0000_0000_0000) && Bit(v, 59) == Has(v, 0x800_0000_0000_0000)
    ensures Bit(v, 60) == Has(v, 0x1000_0000_0000_0000) && Bit(v, 61) == Has(v, 0x2000_0000_0000_0000)
    ensures Bit(v, 62) == Has(v, 0x4000_0000_0000_0000)
  {
    hide Bit, Has, P.Pow2;
    Powers();
    ByteFlags(v, 56, 0x100_0000_0000_0000);
  }

  /** The cached enables are right if their key is the hart's. */
  predicate EnablesRight(c: Counters, i: I.Inputs, epoch: nat) {
    c.key == Keyed(i.regs, epoch) ==> c.instret == InstretRuns(i) && c.cycle == CycleRuns(i)
  }

  lemma RefreshIsRight(c: Counters, i: I.Inputs, epoch: nat)
    requires EnablesRight(c, i, epoch)
    ensures var d := Refresh(c, i, epoch);
      && d.key == Keyed(i.regs, epoch) && d.increment == c.increment
      && d.instret == InstretRuns(i) && d.cycle == CycleRuns(i)
  {
    hide CountsInstret, CountsCycle, InstretRuns, CycleRuns;
    CountsAreRuns(i);
  }

  /** Counting changes nothing that the enables rest on. */
  lemma CountingKeepsRuns(i: I.Inputs, addr: nat, n: nat)
    requires addr == 0xB00 || addr == 0xB02
    ensures InstretRuns(Add(i, addr, n)) == InstretRuns(i) && CycleRuns(Add(i, addr, n)) == CycleRuns(i)
  {
  }

  function Plus(v: nat, counted: bool): nat {
    if counted then (v + 1) % TWO64 else v
  }

  /** The end of a step: an instruction counted if it committed and minstret ran when it began, and in every
      second step a tick, counted if mcycle runs. */
  lemma EndStepCounts<E>(m: Machine<E>)
    requires EnablesRight(m.counters, m.inputs, m.epoch)
    ensures var t := EndStep(m); var tick := m.clock.phase == 1;
      && Minstret(t.inputs) == Plus(Minstret(m.inputs), m.last.committed && m.counters.increment)
      && Mcycle(t.inputs) == Plus(Mcycle(m.inputs), tick && CycleRuns(m.inputs))
      && t.clock == Clock(if tick then (m.clock.mtime + 1) % TWO64 else m.clock.mtime, 1 - m.clock.phase)
      && InstretRuns(t.inputs) == InstretRuns(m.inputs) && CycleRuns(t.inputs) == CycleRuns(m.inputs)
      && EnablesRight(t.counters, t.inputs, t.epoch) && t.last == m.last && t.steps == m.steps && t.halted == m.halted
  {
    hide InstretRuns, CycleRuns, Refresh;
    CountingKeepsRuns(m.inputs, MINSTRET, 1);
    CountingKeepsRuns(m.inputs, MCYCLE, 1);
    var a := if m.last.committed && m.counters.increment then Add(m.inputs, MINSTRET, 1) else m.inputs;
    CountingKeepsRuns(a, MCYCLE, 1);
    RefreshIsRight(m.counters, a, m.epoch);
  }

  // ---- A step ----------------------------------------------------------------------------------------

  /** What the instruction, or the interrupt's trap, leaves before the step's end. */
  function Executed<E(!new)>(isa: Isa<E>, s: State<E>): Machine<E> {
    ExecuteOrTake(isa, BeginStep(s.m), !IrqUnchanged(s))
  }

  /** Whether minstret counts the step is decided as it begins. */
  lemma DecidedAtOnce<E>(m: Machine<E>)
    requires EnablesRight(m.counters, m.inputs, m.epoch)
    ensures var b := BeginStep(m);
      && b.counters.increment == InstretRuns(m.inputs) && EnablesRight(b.counters, b.inputs, b.epoch)
      && b.inputs == m.inputs && b.clock == m.clock && !b.last.committed && b.steps == m.steps
  {
    hide InstretRuns, CycleRuns, Refresh;
    RefreshIsRight(m.counters, m.inputs, m.epoch);
  }

  /** Any step, whatever its instruction did to the counters' registers itself. */
  lemma StepCounts<E(!new)>(isa: Isa<E>, s: State<E>)
    requires !s.m.halted
    requires var e := Executed(isa, s); EnablesRight(e.counters, e.inputs, e.epoch)
    ensures var e, t := Executed(isa, s), Step(isa, s).m;
      if e.steps.count == s.m.steps.count then t == e
      else
        var tick := e.clock.phase == 1;
        && Minstret(t.inputs) == Plus(Minstret(e.inputs), e.last.committed && e.counters.increment)
        && Mcycle(t.inputs) == Plus(Mcycle(e.inputs), tick && CycleRuns(t.inputs))
        && t.clock == Clock(if tick then (e.clock.mtime + 1) % TWO64 else e.clock.mtime, 1 - e.clock.phase)
  {
    hide InstretRuns, CycleRuns, EndStep, ExecuteOrTake, BeginStep, I.Deadline, EnablesRight;
    EndStepCounts(Executed(isa, s));
  }

  // ---- Runs -------------------------------------------------------------------------------------------

  /** A transition leaves the counters, the clock and what it is to do with this step alone. */
  predicate LeavesAlone<E>(m: Machine<E>, t: Machine<E>) {
    && Minstret(t.inputs) == Minstret(m.inputs) && Mcycle(t.inputs) == Mcycle(m.inputs) && t.clock == m.clock
    && t.counters.increment == m.counters.increment
    && (EnablesRight(m.counters, m.inputs, m.epoch) ==> EnablesRight(t.counters, t.inputs, t.epoch))
  }

  /** Whatever the instructions and traps of a machine do, none writes a counter or waits, each is a step, and a
      trap commits nothing. */
  ghost predicate CountersAlone<E(!new)>(isa: Isa<E>) {
    && (forall m: Machine<E> {:trigger isa.slow(m)} ::
          LeavesAlone(m, isa.slow(m)) && isa.slow(m).steps.count != m.steps.count)
    && (forall m: Machine<E>, b: nat {:trigger isa.trap(m, b)} ::
          && LeavesAlone(m, isa.trap(m, b)) && isa.trap(m, b).steps == m.steps && isa.trap(m, b).last == m.last)
  }

  lemma ExecutedAlone<E(!new)>(isa: Isa<E>, s: State<E>)
    requires CountersAlone(isa) && EnablesRight(s.m.counters, s.m.inputs, s.m.epoch) && !s.m.halted
    ensures var e := Executed(isa, s);
      && LeavesAlone(BeginStep(s.m), e) && e.steps.count != s.m.steps.count
      && EnablesRight(e.counters, e.inputs, e.epoch) && e.counters.increment == InstretRuns(s.m.inputs)
  {
    hide InstretRuns, CycleRuns, BeginStep, I.Taken, EnablesRight;
    DecidedAtOnce(s.m);
    var b := I.Taken(s.m.inputs, s.m.clock.mtime);
    if b.Some? {
      var _ := isa.trap(BeginStep(s.m), b.value);
    }
    var _ := isa.slow(BeginStep(s.m));
  }

  /** A step of such a machine: minstret advances if it committed an instruction and minstret ran as it began;
      mcycle, with mtime, in every second step, if it runs as the step ends. */
  lemma StepLaw<E(!new)>(isa: Isa<E>, s: State<E>)
    requires CountersAlone(isa) && EnablesRight(s.m.counters, s.m.inputs, s.m.epoch)
    ensures var t := Step(isa, s).m;
      && Minstret(t.inputs) == Plus(Minstret(s.m.inputs), InstretCounts(isa, s))
      && Mcycle(t.inputs) == Plus(Mcycle(s.m.inputs), CycleCounts(isa, s))
      && t.clock.mtime ==
         (if !s.m.halted && s.m.clock.phase == 1 then (s.m.clock.mtime + 1) % TWO64 else s.m.clock.mtime)
      && (!s.m.halted ==> t.clock.phase == 1 - s.m.clock.phase)
      && EnablesRight(t.counters, t.inputs, t.epoch)
  {
    hide InstretRuns, CycleRuns, EndStep, BeginStep, ExecuteOrTake, EnablesRight, CountersAlone, I.Deadline;
    if !s.m.halted {
      ExecutedAlone(isa, s);
      DecidedAtOnce(s.m);
      EndStepCounts(Executed(isa, s));
    }
  }

  predicate InstretCounts<E(!new)>(isa: Isa<E>, s: State<E>) {
    !s.m.halted && Step(isa, s).m.last.committed && InstretRuns(s.m.inputs)
  }

  predicate CycleCounts<E(!new)>(isa: Isa<E>, s: State<E>) {
    !s.m.halted && s.m.clock.phase == 1 && CycleRuns(Step(isa, s).m.inputs)
  }

  /** How many of the next n steps minstret counts, and mcycle. */
  function Instrets<E(!new)>(isa: Isa<E>, s: State<E>, n: nat): nat
    decreases n
  {
    if n == 0 then 0 else (if InstretCounts(isa, s) then 1 else 0) + Instrets(isa, Step(isa, s), n - 1)
  }

  function Cycles<E(!new)>(isa: Isa<E>, s: State<E>, n: nat): nat
    decreases n
  {
    if n == 0 then 0 else (if CycleCounts(isa, s) then 1 else 0) + Cycles(isa, Step(isa, s), n - 1)
  }

  lemma PlusSum(v: nat, counted: bool, rest: nat)
    ensures (Plus(v, counted) + rest) % TWO64 == (v + (if counted then 1 else 0) + rest) % TWO64
  {
  }

  /** Over any run of it. */
  lemma {:induction false} RunLaw<E(!new)>(isa: Isa<E>, s: State<E>, n: nat)
    requires CountersAlone(isa) && EnablesRight(s.m.counters, s.m.inputs, s.m.epoch)
    ensures var t := StepN(isa, s, n).m;
      && Minstret(t.inputs) % TWO64 == (Minstret(s.m.inputs) + Instrets(isa, s, n)) % TWO64
      && Mcycle(t.inputs) % TWO64 == (Mcycle(s.m.inputs) + Cycles(isa, s, n)) % TWO64
      && EnablesRight(t.counters, t.inputs, t.epoch)
    decreases n
  {
    hide Step, InstretCounts, CycleCounts, EnablesRight, CountersAlone, Plus, Minstret, Mcycle;
    if n > 0 {
      StepLaw(isa, s);
      RunLaw(isa, Step(isa, s), n - 1);
      PlusSum(Minstret(s.m.inputs), InstretCounts(isa, s), Instrets(isa, Step(isa, s), n - 1));
      PlusSum(Mcycle(s.m.inputs), CycleCounts(isa, s), Cycles(isa, Step(isa, s), n - 1));
    }
  }

  /** And over a run_fast that is its steps. */
  lemma RunFastLaw<E(!new)>(isa: Isa<E>, s: State<E>, n: nat)
    requires CountersAlone(isa) && EnablesRight(s.m.counters, s.m.inputs, s.m.epoch) && Clean(isa, s, n)
    ensures var t := RunFast(isa, s, n).m;
      && Minstret(t.inputs) % TWO64 == (Minstret(s.m.inputs) + Instrets(isa, s, n)) % TWO64
      && Mcycle(t.inputs) % TWO64 == (Mcycle(s.m.inputs) + Cycles(isa, s, n)) % TWO64
  {
    hide StepN, RunFast, Clean, CountersAlone, EnablesRight, Instrets, Cycles;
    RunFastIsSteps(isa, s, n);
    RunLaw(isa, s, n);
  }

  // ---- Simple instructions -------------------------------------------------------------------------------

  /** Each of the next n steps takes an instruction run_fast can take, and no interrupt. */
  ghost predicate AllSimple<E(!new)>(isa: Isa<E>, s: State<E>, n: nat)
    decreases n
  {
    n > 0 ==>
      && !s.m.halted && Simple(isa, BeginStep(s.m)).Some?
      && Executed(isa, s) == Execute(isa, BeginStep(s.m)) && AllSimple(isa, Step(isa, s), n - 1)
  }

  /** What a simple instruction leaves is its own effect, and itself in the history ring at its own address. */
  lemma SimpleStepRecords<E(!new)>(isa: Isa<E>, s: State<E>)
    requires AllSimple(isa, s, 1)
    ensures var t := Step(isa, s).m;
      var r, h := Simple(isa, BeginStep(s.m)).value, s.m.history;
      && t.core == r.core && t.last == Last(true, true, r.insn, r.len)
      && t.history.next == (h.next + 1) % 4096
      && t.history.ring == h.ring[h.next := HistoryRecord(s.m.core.pc, r.insn)]
  {
    hide EndStep, BeginStep, I.Deadline, Simple, Advance, ExecuteOrTake, StepN;
    BeginsQuietly(s.m);
    EndsQuietly(Executed(isa, s));
    OneAdvanced(s.m.steps);
  }

  lemma OneAdvanced(s: Steps)
    ensures Advance(s, 1).count == s.count + 1
  {
  }

  lemma SimpleStepLaw<E(!new)>(isa: Isa<E>, s: State<E>)
    requires EnablesRight(s.m.counters, s.m.inputs, s.m.epoch) && AllSimple(isa, s, 1)
    ensures var t := Step(isa, s).m; var tick := s.m.clock.phase == 1;
      && Minstret(t.inputs) == Plus(Minstret(s.m.inputs), InstretRuns(s.m.inputs))
      && Mcycle(t.inputs) == Plus(Mcycle(s.m.inputs), tick && CycleRuns(s.m.inputs))
      && t.clock == Clock(if tick then (s.m.clock.mtime + 1) % TWO64 else s.m.clock.mtime, 1 - s.m.clock.phase)
      && t.steps == Advance(s.m.steps, 1) && EnablesRight(t.counters, t.inputs, t.epoch)
      && InstretRuns(t.inputs) == InstretRuns(s.m.inputs) && CycleRuns(t.inputs) == CycleRuns(s.m.inputs)
  {
    hide InstretRuns, CycleRuns, EndStep, BeginStep, EnablesRight, I.Deadline, Simple, Record;
    DecidedAtOnce(s.m);
    EndStepCounts(Executed(isa, s));
  }

  lemma BeginsQuietly<E>(m: Machine<E>)
    ensures BeginStep(m).core == m.core && BeginStep(m).history == m.history && BeginStep(m).steps == m.steps
  {
  }

  lemma EndsQuietly<E>(m: Machine<E>)
    ensures EndStep(m).core == m.core && EndStep(m).history == m.history && EndStep(m).last == m.last
  {
  }

  /** A counter after `n` events, each counted or none. */
  predicate Advanced(before: nat, after: nat, counted: bool, n: nat) {
    if counted then after % TWO64 == (before + n) % TWO64 else after == before
  }

  /** The clock `n` instructions on: two of them are a tick. */
  function Ticked(c: Clock, n: nat): Clock {
    Clock((c.mtime + (c.phase + n) / 2) % TWO64, (c.phase + n) % 2)
  }

  /** And the steps: 1200 of them are a millisecond. */
  function Stepped(s: Steps, n: nat): Steps {
    Steps(s.count + n, (s.msAccum + n) % 1200, s.ticks + (s.msAccum + n) / 1200)
  }

  lemma TickedMore(c: Clock, n: nat)
    requires n > 0
    ensures Ticked(Ticked(c, 1), n - 1) == Ticked(c, n)
    ensures Ticked(c, 1) == Clock(if c.phase == 1 then (c.mtime + 1) % TWO64 else c.mtime, 1 - c.phase)
    ensures (c.phase + n) / 2 == (Ticked(c, 1).phase + (n - 1)) / 2 + if c.phase == 1 then 1 else 0
  {
    var one := if c.phase == 1 then 1 else 0;
    WrapSum(c.mtime, one, (1 - c.phase + (n - 1)) / 2);
    HalvesMore(c.phase, n);
  }

  lemma WrapSum(m: nat, a: nat, b: nat)
    ensures ((m + a) % TWO64 + b) % TWO64 == (m + (a + b)) % TWO64
  {
  }

  lemma HalvesMore(phase: nat, n: nat)
    requires phase < 2 && n > 0
    ensures (phase + n) / 2 == (1 - phase + (n - 1)) / 2 + phase && (phase + n) % 2 == (1 - phase + (n - 1)) % 2
    ensures (phase + 1) / 2 == phase && (phase + 1) % 2 == 1 - phase
  {
  }

  lemma SteppedMore(s: Steps, n: nat)
    requires n > 0
    ensures Stepped(Stepped(s, 1), n - 1) == Stepped(s, n) && Advance(s, 1) == Stepped(s, 1)
  {
    AdvanceOneMore(s.msAccum, n - 1);
  }

  lemma AdvanceOneMore(a: nat, n: nat)
    requires a < 1200
    ensures ((a + 1) % 1200 + n) % 1200 == (a + 1 + n) % 1200
    ensures (a + 1) / 1200 + ((a + 1) % 1200 + n) / 1200 == (a + 1 + n) / 1200
  {
  }

  /** n simple instructions: minstret advances by n, and mcycle by the ticks, unless it is inhibited or
      filtered; mtime by the ticks, always. */
  lemma {:induction false} SimpleRunLaw<E(!new)>(isa: Isa<E>, s: State<E>, n: nat)
    requires EnablesRight(s.m.counters, s.m.inputs, s.m.epoch) && AllSimple(isa, s, n)
    ensures var t := StepN(isa, s, n).m;
      && Advanced(Minstret(s.m.inputs), Minstret(t.inputs), InstretRuns(s.m.inputs), n)
      && Advanced(Mcycle(s.m.inputs), Mcycle(t.inputs), CycleRuns(s.m.inputs), (s.m.clock.phase + n) / 2)
      && t.clock == Ticked(s.m.clock, n) && t.steps == Stepped(s.m.steps, n)
    decreases n
  {
    hide Step, EnablesRight, InstretRuns, CycleRuns, Minstret, Mcycle, Executed, Simple, BeginStep, Plus, Advance;
    hide Advanced, Ticked, Stepped;
    if n > 0 {
      var one := Step(isa, s);
      SimpleStepLaw(isa, s);
      TickedMore(s.m.clock, n);
      SteppedMore(s.m.steps, n);
      SimpleRunLaw(isa, one, n - 1);
      AdvancedMore(Minstret(s.m.inputs), Minstret(one.m.inputs), Minstret(StepN(isa, s, n).m.inputs),
                   InstretRuns(s.m.inputs), true, n - 1);
      AdvancedMore(Mcycle(s.m.inputs), Mcycle(one.m.inputs), Mcycle(StepN(isa, s, n).m.inputs),
                   CycleRuns(s.m.inputs), s.m.clock.phase == 1, (one.m.clock.phase + (n - 1)) / 2);
    } else {
      NoneAdvanced(s.m);
    }
  }

  lemma NoneAdvanced<E>(m: Machine<E>)
    ensures Advanced(Minstret(m.inputs), Minstret(m.inputs), InstretRuns(m.inputs), 0)
    ensures Advanced(Mcycle(m.inputs), Mcycle(m.inputs), CycleRuns(m.inputs), m.clock.phase / 2)
    ensures Ticked(m.clock, 0) == m.clock && Stepped(m.steps, 0) == m.steps
  {
    hide InstretRuns, CycleRuns;
  }

  /** One more event. */
  lemma AdvancedFrom(a: nat, b: nat, c: nat, counted: bool, n: nat)
    requires Advanced(a, b, counted, n) && c == Plus(b, counted)
    ensures Advanced(a, c, counted, n + 1)
  {
    if counted {
      assert (b + 1) % TWO64 == (b % TWO64 + 1) % TWO64 && (a + n + 1) % TWO64 == ((a + n) % TWO64 + 1) % TWO64;
    }
  }

  lemma AdvancedMore(a: nat, b: nat, c: nat, counted: bool, one: bool, n: nat)
    requires b == Plus(a, one && counted) && Advanced(b, c, counted, n)
    ensures Advanced(a, c, counted, n + if one then 1 else 0)
  {
    PlusSum(a, one && counted, n);
  }
}
