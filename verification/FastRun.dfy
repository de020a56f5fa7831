/** run_fast: a run of simple instructions with its checks made once and its bookkeeping added up,
    against the same number of calls to step(). */
module FastRun {
  import opened Words
  import opened Registers
  import opened Engine
  import opened EngineProofs
  import I = Interrupts

  // ---- A run of simple steps, added up ------------------------------------------------

  /** The counters after `j` steps of a run: minstret once a step, mcycle once a tick. */
  function BulkInputs(i: I.Inputs, phase: Phase, c: Counters, j: nat): I.Inputs {
    var a := if j > 0 && c.increment then Add(i, MINSTRET, j) else i;
    var ticks := (phase + j) / INSNS_PER_TICK;
    if ticks > 0 && c.cycle then Add(a, MCYCLE, ticks) else a
  }

  function BulkClock(c: Clock, j: nat): Clock {
    Clock((c.mtime + (c.phase + j) / INSNS_PER_TICK) % TWO64, (c.phase + j) % INSNS_PER_TICK)
  }

  /** `m` after `j` simple steps that left `core`, `history` and `last`. */
  function Bulk<E>(m: Machine<E>, j: nat, core: Core, history: History, last: Last): Machine<E> {
    m.(core := core, inputs := BulkInputs(m.inputs, m.clock.phase, m.counters, j), clock := BulkClock(m.clock, j),
       history := history, steps := Advance(m.steps, j), last := last)
  }

  /** The conditions a run is entered under. */
  predicate Fast<E(!new)>(isa: Isa<E>, s: State<E>) {
    && !s.m.halted && !isa.fastOff(s.m.env)
    && Keyed(s.m.inputs.regs, s.m.epoch) == s.m.counters.key
    && IrqUnchanged(s)
    && s.m.counters.increment == s.m.counters.instret
  }

  /** How far a run has come: what its steps have written, and how many there were. */
  datatype Progress = Progress(done: nat, core: Core, history: History, last: Last)

  function Start<E>(s: State<E>): Progress {
    Progress(0, s.m.core, s.m.history, s.m.last)
  }

  function Next<E(!new)>(isa: Isa<E>, s: State<E>, p: Progress): Option<Retired> {
    isa.simple(p.core, KeysOf(s.m.inputs.regs, s.m.epoch), s.m.env)
  }

  function WithOne(p: Progress, r: Retired): Progress {
    Progress(p.done + 1, r.core, Record(p.history, p.core.pc, r.insn), Last(true, true, r.insn, r.len))
  }

  /** Simple instructions one after another, nothing but the core and the history written, until `limit`
      or an instruction that is not simple. */
  function Batch<E(!new)>(isa: Isa<E>, s: State<E>, limit: nat, p: Progress): (q: Progress)
    requires p.done <= limit
    ensures p.done <= q.done <= limit
    decreases limit - p.done
  {
    if p.done == limit || Next(isa, s, p).None? then p else Batch(isa, s, limit, WithOne(p, Next(isa, s, p).value))
  }

  /** The run's bookkeeping, added up. */
  function Applied<E>(s: State<E>, p: Progress): State<E> {
    s.(m := Bulk(s.m, p.done, p.core, p.history, p.last))
  }

  /** step_instructions, whose count and whose millisecond accumulator are 32 bits wide. */
  function AddSteps(s: Steps, n: nat): Steps {
    var ms := (s.msAccum + n) % TWO32;
    Steps(s.count + n, ms % INSTR_PER_MS, s.ticks + ms / INSTR_PER_MS)
  }

  /** The phases a run goes through, and the bookkeeping as run_fast adds it up, at its widths: the steps
      and the ticks pass through 32 bits. */
  function Phases(c: Clock, done: nat): nat {
    (c.phase + done) % TWO64
  }

  function AddedClock(c: Clock, done: nat): Clock {
    var phases := Phases(c, done);
    Clock((c.mtime + phases / INSNS_PER_TICK % TWO32) % TWO64, phases % INSNS_PER_TICK)
  }

  function AddedInputs(i: I.Inputs, c: Clock, counters: Counters, done: nat): I.Inputs {
    var ticks := Phases(c, done) / INSNS_PER_TICK;
    var a := if done > 0 && counters.increment then Add(i, MINSTRET, done) else i;
    if ticks > 0 && counters.cycle then Add(a, MCYCLE, ticks) else a
  }

  function Added<E>(s: State<E>, p: Progress): State<E> {
    var m := s.m;
    s.(m := m.(core := p.core, history := p.history, last := p.last,
               inputs := AddedInputs(m.inputs, m.clock, m.counters, p.done),
               clock := AddedClock(m.clock, p.done),
               steps := AddSteps(m.steps, p.done % TWO32)))
  }

  /** A run short enough for those widths. */
  predicate Counts<E>(s: State<E>, done: nat) {
    s.m.steps.msAccum + done < TWO32
  }

  lemma AddedIsApplied<E>(s: State<E>, p: Progress)
    requires Counts(s, p.done)
    ensures Added(s, p) == Applied(s, p)
  {
    hide Advance, AddSteps, Add;
    ShortSteps(s.m.steps, p.done);
    ShortPhases(s.m.clock, p.done);
  }

  lemma ShortSteps(s: Steps, n: nat)
    requires s.msAccum + n < TWO32
    ensures AddSteps(s, n % TWO32) == Advance(s, n)
  {
    Small32(n);
    Small32(s.msAccum + n);
  }

  lemma ShortPhases(c: Clock, n: nat)
    requires n < TWO32
    ensures Phases(c, n) == c.phase + n && Phases(c, n) / INSNS_PER_TICK % TWO32 == (c.phase + n) / INSNS_PER_TICK
  {
    assert c.phase + n < TWO64;
    Small32((c.phase + n) / INSNS_PER_TICK);
  }

  lemma Small32(n: nat)
    requires n < TWO32
    ensures n % TWO32 == n
  {
  }

  /** And only such a run has its steps and milliseconds counted. */
  lemma AddedFallsShort<E>(s: State<E>, p: Progress)
    requires !Counts(s, p.done)
    ensures Added(s, p).m.steps != Applied(s, p).m.steps
    ensures Added(s, p).m.inputs.regs.eventGen == s.m.inputs.regs.eventGen
  {
    LostMilliseconds(s.m.steps, p.done);
  }

  lemma LostMilliseconds(s: Steps, n: nat)
    requires s.msAccum + n >= TWO32
    ensures AddSteps(s, n % TWO32) != Advance(s, n)
  {
    if n < TWO32 {
      assert s.msAccum + n < 2 * TWO32;
      var ms: nat := s.msAccum + n - TWO32;
      assert (s.msAccum + n) % TWO32 == ms && n % TWO32 == n;
      assert (ms + TWO32) / INSTR_PER_MS > ms / INSTR_PER_MS;
    } else {
      assert n % TWO32 < n;
    }
  }

  predicate MayBatch<E(!new)>(isa: Isa<E>, s: State<E>) {
    !isa.fastOff(s.m.env) && Keyed(s.m.inputs.regs, s.m.epoch) == s.m.counters.key && IrqUnchanged(s)
  }

  /** How many steps a run may take: as many as are asked for, or those before one could see mtime reach
      the interrupt deadline. The last value mtime has stands for no deadline, and no limit. */
  function Limit<E>(s: State<E>, budget: nat): (limit: nat)
    requires IrqUnchanged(s)
    ensures limit <= budget && (budget > 0 ==> limit > 0)
  {
    var d := s.irqDeadline - s.m.clock.mtime;
    if s.irqDeadline == MAX64 || d > MAX64 / 4 || budget <= RunLimit(s.m.clock, s.irqDeadline) then budget
    else RunLimit(s.m.clock, s.irqDeadline)
  }

  /** One pass of run_fast's outer loop, and the steps it used: one step taken the ordinary way, or a run
      of simple ones followed by the step that ended it. */
  function Pass<E(!new)>(isa: Isa<E>, s: State<E>, budget: nat): (r: (State<E>, nat))
    requires budget > 0
    ensures 0 < r.1 <= budget
  {
    if !MayBatch(isa, s) then (Step(isa, s), 1)
    else
      var e, limit := WithIncrement(s), Limit(s, budget);
      var p := Batch(isa, e, limit, Start(e));
      if p.done < limit then (Step(isa, Added(e, p)), p.done + 1) else (Added(e, p), p.done)
  }

  function RunFast<E(!new)>(isa: Isa<E>, s: State<E>, n: nat): State<E>
    decreases n
  {
    if n == 0 || s.m.halted then s
    else
      var (t, used) := Pass(isa, s, n);
      RunFast(isa, t, n - used)
  }

  lemma AdvanceOnce(s: Steps, j: nat)
    ensures Advance(Advance(s, j), 1) == Advance(s, j + 1)
  {
  }

  lemma AddOnce(i: I.Inputs, addr: nat, j: nat)
    requires addr < CSRS
    ensures Add(Add(i, addr, j), addr, 1) == Add(i, addr, j + 1)
  {
  }

  lemma AddsCommute(i: I.Inputs, a: nat, b: nat, j: nat, k: nat)
    requires a < CSRS && b < CSRS && a != b
    ensures Add(Add(i, a, j), b, k) == Add(Add(i, b, k), a, j)
  {
  }

  /** One more instruction retired: minstret, and mcycle if the phase turns over. */
  function CountOne(i: I.Inputs, c: Counters, tick: bool): I.Inputs {
    var a := if c.increment then Add(i, MINSTRET, 1) else i;
    if tick && c.cycle then Add(a, MCYCLE, 1) else a
  }

  lemma BulkInputsOnce(i: I.Inputs, phase: Phase, c: Counters, j: nat)
    ensures CountOne(BulkInputs(i, phase, c, j), c, (phase + j) % INSNS_PER_TICK == 1) == BulkInputs(i, phase, c, j + 1)
  {
    var t := (phase + j) / INSNS_PER_TICK;
    var a := if j > 0 && c.increment then Add(i, MINSTRET, j) else i;
    var b := if c.increment then Add(i, MINSTRET, j + 1) else i;
    AddOnce(i, MINSTRET, j);
    assert b == if c.increment then Add(a, MINSTRET, 1) else a;
    if t > 0 && c.cycle {
      AddsCommute(a, MCYCLE, MINSTRET, t, 1);
      AddOnce(b, MCYCLE, t);
    }
  }

  lemma BulkClockOnce(c: Clock, j: nat)
    ensures var d := BulkClock(c, j);
      BulkClock(c, j + 1) == if d.phase == 1 then Clock((d.mtime + 1) % TWO64, 0) else d.(phase := 1)
  {
    var n := c.phase + j;
    var t := n / INSNS_PER_TICK;
    if n % INSNS_PER_TICK == 1 {
      assert (n + 1) / INSNS_PER_TICK == t + 1 && (n + 1) % INSNS_PER_TICK == 0;
      WrapOnce(c.mtime + t);
    } else {
      assert (n + 1) / INSNS_PER_TICK == t && (n + 1) % INSNS_PER_TICK == 1;
    }
  }

  lemma WrapOnce(v: nat)
    ensures (v % TWO64 + 1) % TWO64 == (v + 1) % TWO64
  {
  }

  lemma CountingKeepsKeys(i: I.Inputs, addr: nat, n: nat, epoch: nat)
    requires addr == MCYCLE || addr == MINSTRET
    ensures var j := Add(i, addr, n);
      && Keyed(j.regs, epoch) == Keyed(i.regs, epoch) && KeysOf(j.regs, epoch) == KeysOf(i.regs, epoch)
      && j.regs.eventGen == i.regs.eventGen
  {
  }

  lemma BulkKeepsKeys(i: I.Inputs, phase: Phase, c: Counters, epoch: nat, j: nat)
    ensures var b := BulkInputs(i, phase, c, j);
      && Keyed(b.regs, epoch) == Keyed(i.regs, epoch) && KeysOf(b.regs, epoch) == KeysOf(i.regs, epoch)
      && b.regs.eventGen == i.regs.eventGen
  {
    var a := if j > 0 && c.increment then Add(i, MINSTRET, j) else i;
    CountingKeepsKeys(i, MINSTRET, j, epoch);
    CountingKeepsKeys(a, MCYCLE, (phase + j) / INSNS_PER_TICK, epoch);
  }

  lemma BulkKeepsEvents(i: I.Inputs, phase: Phase, c: Counters, j: nat)
    ensures I.SameInputs(i, BulkInputs(i, phase, c, j))
  {
  }

  /** A step that is inside the deadline, or that checks at the last value of mtime and finds nothing. */
  predicate NothingDue<E>(s: State<E>, now: nat) {
    now < s.irqDeadline || (now == MAX64 == s.irqDeadline && I.Taken(s.m.inputs, MAX64).None?)
  }

  /** The definition of a step, from inside a run: it is the next element of the run. */
  lemma StepExtendsRun<E(!new)>(isa: Isa<E>, s: State<E>, p: Progress)
    requires Fast(isa, s) && NothingDue(s, BulkClock(s.m.clock, p.done).mtime) && Next(isa, s, p).Some?
    ensures Step(isa, Applied(s, p)) == Applied(s, WithOne(p, Next(isa, s, p).value))
  {
    hide I.Taken, I.Deadline, AfterExecute;
    var b := Applied(s, p).m;
    BulkKeepsKeys(s.m.inputs, s.m.clock.phase, s.m.counters, s.m.epoch, p.done);
    var m := BeginStep(b);
    assert m.counters == b.counters;
    assert Execute(isa, m) == Retire(b, Next(isa, s, p).value);
    if b.clock.mtime == MAX64 == s.irqDeadline {
      BulkKeepsEvents(s.m.inputs, s.m.clock.phase, s.m.counters, p.done);
      I.DecisionReadsOnlyEvents(s.m.inputs, b.inputs, MAX64);
      LastDeadline(b.inputs);
    }
    RetireExtendsRun(isa, s, p);
  }

  /** A check made at the last value of mtime finds no deadline ahead. */
  lemma LastDeadline(i: I.Inputs)
    ensures I.Deadline(i, MAX64) == MAX64
  {
  }

  lemma RetireExtendsRun<E(!new)>(isa: Isa<E>, s: State<E>, p: Progress)
    requires Fast(isa, s) && Next(isa, s, p).Some?
    ensures var b := Applied(s, p).m; var r := Next(isa, s, p).value;
      AfterExecute(b, Retire(b, r)) == Applied(s, WithOne(p, r)).m
  {
    hide I.Taken, I.Deadline, BulkInputs, BulkClock, Advance, Record, CountsInstret, CountsCycle;
    var b := Applied(s, p).m;
    var e := Retire(b, Next(isa, s, p).value);
    assert b.steps.count + 1 == e.steps.count by {
      CountsOne(b.steps);
    }
    PhaseOf(s.m.clock, p.done);
    BulkKeepsKeys(s.m.inputs, s.m.clock.phase, s.m.counters, s.m.epoch, p.done);
    BulkKeepsKeys(s.m.inputs, s.m.clock.phase, s.m.counters, s.m.epoch, p.done + 1);
    AdvanceOnce(s.m.steps, p.done);
    BulkInputsOnce(s.m.inputs, s.m.clock.phase, s.m.counters, p.done);
    BulkClockOnce(s.m.clock, p.done);
    assert EndStep(e).inputs == BulkInputs(s.m.inputs, s.m.clock.phase, s.m.counters, p.done + 1);
  }

  lemma CountsOne(s: Steps)
    ensures Advance(s, 1).count == s.count + 1
  {
  }

  lemma PhaseOf(c: Clock, j: nat)
    ensures BulkClock(c, j).phase == (c.phase + j) % INSNS_PER_TICK
  {
  }

  // ---- The deadline as a step count -----------------------------------------------------

  /** The largest run in which no step sees mtime reach the deadline. */
  function RunLimit(c: Clock, deadline: nat): nat
    requires c.mtime < deadline
  {
    2 * (deadline - c.mtime) - c.phase
  }

  /** Step `j` of a run (from 0) sees mtime short of the deadline exactly while j is below the limit. */
  lemma RunLimitIsExact(c: Clock, deadline: nat, j: nat)
    requires c.mtime < deadline <= MAX64
    ensures RunLimit(c, deadline) > 0
    ensures j < RunLimit(c, deadline) <==> c.mtime + (c.phase + j) / INSNS_PER_TICK < deadline
    ensures j < RunLimit(c, deadline) ==> BulkClock(c, j).mtime == c.mtime + (c.phase + j) / INSNS_PER_TICK
  {
  }

  // ---- StepN ------------------------------------------------------------------------------

  lemma {:induction false} StepNAppend<E(!new)>(isa: Isa<E>, s: State<E>, a: nat, b: nat)
    ensures StepN(isa, s, a + b) == StepN(isa, StepN(isa, s, a), b)
    decreases a
  {
    if a > 0 {
      StepNAppend(isa, Step(isa, s), a - 1, b);
    }
  }

  lemma {:induction false} StepNHalted<E(!new)>(isa: Isa<E>, s: State<E>, n: nat)
    requires s.m.halted
    ensures StepN(isa, s, n) == s
    decreases n
  {
    if n > 0 {
      StepNHalted(isa, s, n - 1);
    }
  }

  /** Whether minstret counts is decided afresh in each step, so what it was does not matter. */
  function WithIncrement<E>(s: State<E>): State<E> {
    s.(m := s.m.(counters := s.m.counters.(increment := s.m.counters.instret)))
  }

  lemma IncrementIsDecidedAfresh<E(!new)>(isa: Isa<E>, s: State<E>)
    requires !s.m.halted
    ensures Step(isa, WithIncrement(s)) == Step(isa, s)
  {
    assert BeginStep(WithIncrement(s).m) == BeginStep(s.m);
  }

  lemma RunFromEntry<E(!new)>(isa: Isa<E>, s: State<E>, k: nat)
    requires !s.m.halted
    ensures k > 0 ==> StepN(isa, WithIncrement(s), k) == StepN(isa, s, k)
    ensures StepN(isa, WithIncrement(s), k).m.clock == StepN(isa, s, k).m.clock
  {
    IncrementIsDecidedAfresh(isa, s);
  }

  // ---- A run against its steps -----------------------------------------------------------------

  /** What keeps a run of `done` steps short of its deadline, unless that is mtime's last value. */
  predicate WithinLimit<E>(s: State<E>, done: nat) {
    && s.m.clock.mtime < s.irqDeadline && done < TWO32
    && (s.irqDeadline == MAX64 || s.irqDeadline - s.m.clock.mtime > MAX64 / 4
          || done <= RunLimit(s.m.clock, s.irqDeadline))
  }

  /** A step of the run would have seen mtime at its last value, and taken an interrupt there. */
  predicate Misses<E>(s: State<E>, done: nat) {
    && s.irqDeadline == MAX64 && done > 0 && s.m.clock.mtime + (s.m.clock.phase + done - 1) / INSNS_PER_TICK >= MAX64
    && I.Taken(s.m.inputs, MAX64).Some?
  }

  lemma NothingDueInside<E>(s: State<E>, done: nat, j: nat)
    requires WithinLimit(s, done) && !Misses(s, done) && j < done
    ensures NothingDue(s, BulkClock(s.m.clock, j).mtime)
  {
    hide I.Taken;
  }

  lemma {:induction false} BatchIsSteps<E(!new)>(isa: Isa<E>, s: State<E>, limit: nat, p: Progress)
    requires Fast(isa, s) && p.done <= limit && StepN(isa, s, p.done) == Applied(s, p)
    requires var done := Batch(isa, s, limit, p).done; WithinLimit(s, done) && !Misses(s, done)
    ensures var q := Batch(isa, s, limit, p); StepN(isa, s, q.done) == Applied(s, q)
    decreases limit - p.done
  {
    hide Step, Fast, WithinLimit, Misses, Applied, BulkClock;
    if p.done < limit && Next(isa, s, p).Some? {
      NothingDueInside(s, Batch(isa, s, limit, p).done, p.done);
      StepExtendsRun(isa, s, p);
      StepNAppend(isa, s, p.done, 1);
      BatchIsSteps(isa, s, limit, WithOne(p, Next(isa, s, p).value));
    }
  }

  /** A run stopped early and taken up again. */
  lemma {:induction false} BatchInTwo<E(!new)>(isa: Isa<E>, s: State<E>, limit: nat, p: Progress, k: nat)
    requires p.done <= limit && p.done <= k < Batch(isa, s, limit, p).done
    ensures var q := Batch(isa, s, k, p); q.done == k && Next(isa, s, q).Some?
    decreases limit - p.done
  {
    if p.done < k {
      BatchInTwo(isa, s, limit, WithOne(p, Next(isa, s, p).value), k);
    }
  }

  lemma EventsGrow<E(!new)>(isa: Isa<E>, s: State<E>)
    requires EventContract(isa)
    ensures s.m.inputs.regs.eventGen <= Step(isa, s).m.inputs.regs.eventGen
    ensures !s.m.halted && !IrqUnchanged(s) && I.Taken(s.m.inputs, s.m.clock.mtime).Some? ==>
      s.m.inputs.regs.eventGen < Step(isa, s).m.inputs.regs.eventGen
  {
    hide I.Taken, I.Deadline;
    var m := BeginStep(s.m);
    ExecuteHonest(isa, m);
    var b := I.Taken(m.inputs, m.clock.mtime);
    if b.Some? {
      var _ := isa.trap(m, b.value);
      EndStepKeepsInputs(TakeInterrupt(isa, m, b.value));
    }
    EndStepKeepsInputs(Execute(isa, m));
  }

  lemma {:induction false} EventsOnlyGrow<E(!new)>(isa: Isa<E>, s: State<E>, n: nat)
    requires EventContract(isa)
    ensures s.m.inputs.regs.eventGen <= StepN(isa, s, n).m.inputs.regs.eventGen
    decreases n
  {
    hide Step, EventContract;
    if n > 0 {
      EventsGrow(isa, s);
      EventsOnlyGrow(isa, Step(isa, s), n - 1);
    }
  }

  /** A run that goes past mtime's last value without looking has missed an interrupt for good. */
  lemma MissedForGood<E(!new)>(isa: Isa<E>, s: State<E>, limit: nat)
    requires EventContract(isa) && Fast(isa, s)
    requires var done := Batch(isa, s, limit, Start(s)).done; WithinLimit(s, done) && Misses(s, done)
    ensures var q := Batch(isa, s, limit, Start(s)); StepN(isa, s, q.done) != Applied(s, q)
  {
    hide Step, EventContract, Fast, BulkClock, I.Taken, Batch, Next;
    var q := Batch(isa, s, limit, Start(s));
    var k := RunLimit(s.m.clock, MAX64);
    FirstAtLast(s.m.clock, q.done);
    BatchInTwo(isa, s, limit, Start(s), k);
    var p := Batch(isa, s, k, Start(s));
    NothingDone(s);
    BatchIsSteps(isa, s, k, Start(s));
    var b := Applied(s, p);
    BulkKeepsKeys(s.m.inputs, s.m.clock.phase, s.m.counters, s.m.epoch, k);
    BulkKeepsKeys(s.m.inputs, s.m.clock.phase, s.m.counters, s.m.epoch, q.done);
    BulkKeepsEvents(s.m.inputs, s.m.clock.phase, s.m.counters, k);
    I.DecisionReadsOnlyEvents(s.m.inputs, b.m.inputs, MAX64);
    FastParts(isa, s);
    EventsGrow(isa, b);
    EventsOnlyGrow(isa, Step(isa, b), q.done - k - 1);
    StepNAppend(isa, s, k, q.done - k);
  }

  lemma FastParts<E(!new)>(isa: Isa<E>, s: State<E>)
    requires Fast(isa, s)
    ensures !s.m.halted && s.irqKey == s.m.inputs.regs.eventGen && s.m.clock.mtime < s.irqDeadline
  {
  }

  lemma NothingDone<E>(s: State<E>)
    ensures Applied(s, Start(s)) == s
  {
  }

  /** The first step of a run to see mtime at its last value. */
  lemma FirstAtLast(c: Clock, done: nat)
    requires c.mtime < MAX64 && done > 0 && c.mtime + (c.phase + done - 1) / INSNS_PER_TICK >= MAX64
    ensures var k := RunLimit(c, MAX64);
      k < done && BulkClock(c, k).mtime == MAX64 && (k > 0 ==> c.mtime + (c.phase + k - 1) / INSNS_PER_TICK < MAX64)
  {
  }

  /** However long a run, after as many steps either the machine is what its bookkeeping in full would make
      it, or an interrupt was taken on the way. */
  lemma {:induction false} RunOrEvent<E(!new)>(isa: Isa<E>, s: State<E>, limit: nat, p: Progress, t: State<E>)
    requires EventContract(isa) && Fast(isa, s) && p.done <= limit && t.m == Applied(s, p).m
    ensures var q := Batch(isa, s, limit, p); var u := StepN(isa, t, q.done - p.done);
      u.m == Applied(s, q).m || u.m.inputs.regs.eventGen > s.m.inputs.regs.eventGen
    decreases limit - p.done
  {
    hide Step, Fast, Applied, EventContract;
    if p.done < limit && Next(isa, s, p).Some? {
      var done := Batch(isa, s, limit, p).done;
      StepOrEvent(isa, s, p, t);
      if Step(isa, t).m.inputs.regs.eventGen > s.m.inputs.regs.eventGen {
        EventsOnlyGrow(isa, Step(isa, t), done - p.done - 1);
      } else {
        RunOrEvent(isa, s, limit, WithOne(p, Next(isa, s, p).value), Step(isa, t));
      }
    }
  }

  lemma StepOrEvent<E(!new)>(isa: Isa<E>, s: State<E>, p: Progress, t: State<E>)
    requires EventContract(isa) && Fast(isa, s) && t.m == Applied(s, p).m && Next(isa, s, p).Some?
    ensures Step(isa, t).m == Applied(s, WithOne(p, Next(isa, s, p).value)).m
         || Step(isa, t).m.inputs.regs.eventGen > s.m.inputs.regs.eventGen
  {
    hide I.Taken, I.Deadline, AfterExecute;
    var b := t.m;
    BulkKeepsKeys(s.m.inputs, s.m.clock.phase, s.m.counters, s.m.epoch, p.done);
    var m := BeginStep(b);
    assert m.counters == b.counters;
    assert Execute(isa, m) == Retire(b, Next(isa, s, p).value);
    RetireExtendsRun(isa, s, p);
    EventsGrow(isa, t);
  }

  /** A run is what as many steps do, exactly if no step of it would have taken an interrupt at the last
      value mtime has, and its length does not overrun the 32-bit count of milliseconds. */
  lemma RunIsStepsExactly<E(!new)>(isa: Isa<E>, s: State<E>, budget: nat)
    requires EventContract(isa) && Fast(isa, s)
    ensures var q := Batch(isa, s, Limit(s, budget), Start(s));
      StepN(isa, s, q.done) == Added(s, q) <==> !Misses(s, q.done) && Counts(s, q.done)
  {
    hide EventContract, Fast, Applied, Added, Misses, StepN, Batch, RunLimit;
    FastParts(isa, s);
    var limit := Limit(s, budget);
    var q := Batch(isa, s, limit, Start(s));
    NothingDone(s);
    NoSteps(isa, s);
    if !Counts(s, q.done) {
      RunOrEvent(isa, s, limit, Start(s), s);
      AddedFallsShort(s, q);
    } else {
      AddedIsApplied(s, q);
      if Misses(s, q.done) {
        MissedForGood(isa, s, limit);
      } else {
        BatchIsSteps(isa, s, limit, Start(s));
      }
    }
  }

  lemma NoSteps<E(!new)>(isa: Isa<E>, s: State<E>)
    ensures StepN(isa, s, 0) == s
  {
  }

  // ---- The whole of run_fast ------------------------------------------------------------------------

  /** The run a pass takes before anything else, if it takes one, misses nothing and is not too long. */
  predicate CleanPass<E(!new)>(isa: Isa<E>, s: State<E>, budget: nat) {
    MayBatch(isa, s) ==>
      var e := WithIncrement(s);
      var done := Batch(isa, e, Limit(s, budget), Start(e)).done;
      !Misses(e, done) && Counts(e, done)
  }

  ghost predicate Clean<E(!new)>(isa: Isa<E>, s: State<E>, n: nat)
    decreases n
  {
    n > 0 && !s.m.halted ==>
      var (t, used) := Pass(isa, s, n);
      CleanPass(isa, s, n) && Clean(isa, t, n - used)
  }

  lemma PassIsSteps<E(!new)>(isa: Isa<E>, s: State<E>, budget: nat)
    requires 0 < budget && !s.m.halted && CleanPass(isa, s, budget)
    ensures var (t, used) := Pass(isa, s, budget); t == StepN(isa, s, used)
  {
    hide Step, Batch, Misses, Applied, Added, RunLimit, Keyed, StepN;
    StepNOnce(isa, s);
    if MayBatch(isa, s) {
      var e, limit := WithIncrement(s), Limit(s, budget);
      var p := Batch(isa, e, limit, Start(e));
      NothingDone(e);
      NoSteps(isa, e);
      BatchIsSteps(isa, e, limit, Start(e));
      AddedIsApplied(e, p);
      StepNAppend(isa, e, p.done, 1);
      StepNOnce(isa, Applied(e, p));
      RunFromEntry(isa, s, p.done);
      RunFromEntry(isa, s, p.done + 1);
    }
  }

  lemma StepNOnce<E(!new)>(isa: Isa<E>, s: State<E>)
    ensures StepN(isa, s, 1) == Step(isa, s)
  {
  }

  /** Exactly what n steps do, wherever no run goes past mtime's last value over an interrupt it should
      have taken there, or is too long to count. */
  lemma {:induction false} RunFastIsSteps<E(!new)>(isa: Isa<E>, s: State<E>, n: nat)
    requires Clean(isa, s, n)
    ensures RunFast(isa, s, n) == StepN(isa, s, n)
    decreases n
  {
    hide Step, Pass, StepN, CleanPass;
    if n == 0 {
      NoSteps(isa, s);
    } else if s.m.halted {
      StepNHalted(isa, s, n);
    } else {
      var (t, used) := Pass(isa, s, n);
      PassIsSteps(isa, s, n);
      RunFastIsSteps(isa, t, n - used);
      StepNAppend(isa, s, used, n - used);
    }
  }

  /** Nothing to take at any step that starts with mtime at its last value: enough for any run, and most
      that get there. */
  ghost predicate QuietAtLast<E(!new)>(isa: Isa<E>, s: State<E>, n: nat)
    decreases n
  {
    n > 0 ==>
      && (s.m.halted || s.m.clock.mtime < MAX64 || I.Taken(s.m.inputs, MAX64).None?)
      && QuietAtLast(isa, Step(isa, s), n - 1)
  }

  lemma {:induction false} QuietAfter<E(!new)>(isa: Isa<E>, s: State<E>, n: nat, k: nat)
    requires QuietAtLast(isa, s, n) && k <= n
    ensures QuietAtLast(isa, StepN(isa, s, k), n - k)
    decreases k
  {
    hide Step;
    if k > 0 {
      QuietAfter(isa, Step(isa, s), n - 1, k - 1);
    }
  }

  /** The step at which a run would first miss something does not start quiet. */
  lemma QuietPassIsClean<E(!new)>(isa: Isa<E>, s: State<E>, n: nat)
    requires 0 < n <= TWO32 - INSTR_PER_MS && !s.m.halted && QuietAtLast(isa, s, n)
    ensures CleanPass(isa, s, n)
  {
    hide Step, Batch, I.Taken, Keyed, StepN, Next;
    var e := WithIncrement(s);
    if MayBatch(isa, s) {
      var limit := Limit(s, n);
      var q := Batch(isa, e, limit, Start(e));
      if Misses(e, q.done) {
        var k := RunLimit(e.m.clock, MAX64);
        FirstAtLast(e.m.clock, q.done);
        BatchInTwo(isa, e, limit, Start(e), k);
        NothingDone(e);
        NoSteps(isa, e);
        BatchIsSteps(isa, e, k, Start(e));
        RunFromEntry(isa, s, k);
        QuietAfter(isa, s, n, k);
        BulkKeepsEvents(e.m.inputs, e.m.clock.phase, e.m.counters, k);
        I.DecisionReadsOnlyEvents(e.m.inputs, StepN(isa, s, k).m.inputs, MAX64);
      }
    }
  }

  lemma {:induction false} QuietIsClean<E(!new)>(isa: Isa<E>, s: State<E>, n: nat)
    requires n <= TWO32 - INSTR_PER_MS && QuietAtLast(isa, s, n)
    ensures Clean(isa, s, n)
    decreases n
  {
    hide Step, Pass, StepN, CleanPass;
    if n > 0 && !s.m.halted {
      var (t, used) := Pass(isa, s, n);
      QuietPassIsClean(isa, s, n);
      PassIsSteps(isa, s, n);
      QuietAfter(isa, s, n, used);
      QuietIsClean(isa, t, n - used);
    }
  }

  /** As QuietAtLast, of the machine that checks before every step. */
  ghost predicate NaiveQuietAtLast<E(!new)>(isa: Isa<E>, m: Machine<E>, n: nat)
    decreases n
  {
    n > 0 ==>
      && (m.halted || m.clock.mtime < MAX64 || I.Taken(m.inputs, MAX64).None?)
      && NaiveQuietAtLast(isa, AlwaysStep(isa, m), n - 1)
  }

  lemma {:induction false} NaiveQuietIsEnough<E(!new)>(isa: Isa<E>, s: State<E>, n: nat)
    requires EventContract(isa) && CheckIsGood(s) && AlwaysWrapsQuietly(isa, s, n) && NaiveQuietAtLast(isa, s.m, n)
    ensures QuietAtLast(isa, s, n)
    decreases n
  {
    hide Step, AlwaysStep, CheckIsGood, EventContract, WrapsQuietly, I.Taken;
    if n > 0 {
      SkipOneStep(isa, s);
      NaiveQuietIsEnough(isa, Step(isa, s), n - 1);
    }
  }

  /** The fast machine against the simplest: batched runs and skipped checks make no difference. */
  lemma RunFastIsAlwaysSteps<E(!new)>(isa: Isa<E>, s: State<E>, n: nat)
    requires EventContract(isa) && CheckIsGood(s) && Clean(isa, s, n) && AlwaysWrapsQuietly(isa, s, n)
    ensures RunFast(isa, s, n).m == AlwaysStepN(isa, s.m, n)
  {
    hide AlwaysStepN, StepN;
    RunFastIsSteps(isa, s, n);
    SkippingIsInvisible(isa, s, n);
  }

  /** With no htimedelta in play, and at no step at the last value of mtime anything to take, they make none
      whatever the clock does. */
  lemma OrdinaryRunFast<E(!new)>(isa: Isa<E>, s: State<E>, n: nat)
    requires EventContract(isa) && KeepsOrdinary(isa) && CheckIsGood(s) && I.Ordinary(s.m.inputs)
    requires n <= TWO32 - INSTR_PER_MS && NaiveQuietAtLast(isa, s.m, n)
    ensures RunFast(isa, s, n).m == AlwaysStepN(isa, s.m, n)
  {
    hide AlwaysStepN, StepN, I.Ordinary;
    OrdinaryAlwaysWrapsQuietly(isa, s, n);
    NaiveQuietIsEnough(isa, s, n);
    QuietIsClean(isa, s, n);
    RunFastIsAlwaysSteps(isa, s, n);
  }

  // ---- The run that is not its steps ----------------------------------------------------------------

  /** A machine whose every instruction does nothing but move pc, and whose interrupts are events. */
  function Idle(): Isa<()> {
    Isa(_ => false,
        (core: Core, keys: Keys, e: ()) => Some(Retired(core.(pc := core.pc + 2), 1, 2)),
        (m: Machine<()>) => m,
        (m: Machine<()>) => 0,
        (m: Machine<()>, b: nat) =>
          m.(inputs := m.inputs.(regs := m.inputs.regs.(eventGen := m.inputs.regs.eventGen + 1))))
  }

  /** One step short of mtime's last value, for which a timer interrupt is set, and with the check made. */
  function AtLastTick(): State<()> {
    var i := I.LastTick();
    State(Machine(Core([], [], 0, map[], 0), i, Clock(MAX64 - 1, 1), Counters(Keyed(i.regs, 0), true, true, true),
                  History(seq(HISTORY_SIZE, _ => HistoryRecord(0, 0)), 0), Steps(0, 0, 0),
                  Last(false, false, 0, 0), 0, false, ()),
          i.regs.eventGen, MAX64)
  }

  /** Nothing is amiss with it but its clock, and two steps of run_fast are not two steps. */
  lemma LastTickIsMissed()
    ensures EventContract(Idle()) && CheckIsGood(AtLastTick())
    ensures RunFast(Idle(), AtLastTick(), 2) != StepN(Idle(), AtLastTick(), 2)
  {
    hide I.Taken, I.LastTick, StepN, I.Deadline;
    var isa, s := Idle(), AtLastTick();
    I.LastValueIsADeadline();
    FreshCheckIsQuiet(I.LastTick(), MAX64 - 1);
    assert WithIncrement(s) == s && Limit(s, 2) == 2;
    var p := WithOne(Start(s), Next(isa, s, Start(s)).value);
    var q := WithOne(p, Next(isa, s, p).value);
    assert Batch(isa, s, 2, q) == q && Batch(isa, s, 2, p) == q && Batch(isa, s, 2, Start(s)) == q;
    MissedForGood(isa, s, 2);
    AddedIsApplied(s, q);
    assert Pass(isa, s, 2) == (Added(s, q), 2);
    assert RunFast(isa, Added(s, q), 0) == Added(s, q);
  }
}
