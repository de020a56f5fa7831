/** The stepping engine of a one-hart machine.

    `Step` is the definition of a step. `AlwaysStep` is the same step with the interrupt check made
    every time. `DoomSystem` is the object, with `Step` and the batched `RunFast`.

    An instruction run_fast can take by itself is an abstract function on the registers, pc and RAM
    (`Isa.simple`), reading only caches and keys that such an instruction leaves alone; anything else
    -- a miss, a device access, a CSR instruction, a trap, a whole wait -- is an opaque transition of
    the whole machine (`Isa.slow`, `Isa.trap`). */
module Engine {
  import opened Words
  import opened Registers
  import I = Interrupts

  const INSNS_PER_TICK: nat := 2
  const INSTR_PER_MS: nat := 1200
  const HISTORY_SIZE: nat := 4096

  datatype HistoryRecord = HistoryRecord(pc: nat, insn: nat)

  /** All that a simple instruction may change. */
  type Ring = s: seq<HistoryRecord> | |s| == HISTORY_SIZE witness seq(HISTORY_SIZE, _ => HistoryRecord(0, 0))
  type RingIndex = i: nat | i < HISTORY_SIZE
  type Phase = i: nat | i < INSNS_PER_TICK
  type MsIndex = i: nat | i < INSTR_PER_MS
  type Time = t: nat | t <= MAX64

  datatype Core = Core(x: seq<nat>, f: seq<nat>, fflags: nat, ram: map<nat, nat>, pc: nat)

  datatype Retired = Retired(core: Core, insn: nat, len: nat)

  /** Memory::step_instructions' counters. */
  datatype Steps = Steps(count: nat, msAccum: MsIndex, ticks: nat)

  /** What step_instructions(n) leaves: whole milliseconds move from the accumulator to the counter. */
  function Advance(s: Steps, n: nat): Steps {
    Steps(s.count + n, (s.msAccum + n) % INSTR_PER_MS, s.ticks + (s.msAccum + n) / INSTR_PER_MS)
  }

  /** What the last step was. */
  datatype Last = Last(committed: bool, decoded: bool, insn: nat, len: nat)

  /** The instruction history ring. */
  datatype History = History(ring: Ring, next: RingIndex)

  function Record(h: History, pc: nat, insn: nat): History {
    History(h.ring[h.next := HistoryRecord(pc, insn)], (h.next + 1) % HISTORY_SIZE)
  }

  datatype Clock = Clock(mtime: Time, phase: Phase)

  /** Which counters count, decided once per change of key. */
  datatype Counters = Counters(key: nat, instret: bool, cycle: bool, increment: bool)

  /** Everything a step can see except the interrupt check's own cache. `env` stands for all the rest
      of the machine: caches, devices, the debugger. */
  datatype Machine<E> = Machine(
    core: Core, inputs: I.Inputs, clock: Clock, counters: Counters, history: History,
    steps: Steps, last: Last, epoch: nat, halted: bool, env: E)

  /** Registers::keyed over stateGen and the extension epoch. */
  function Keyed(r: Regs, epoch: nat): nat {
    (r.stateGen + epoch) * 4 + Code(r.priv)
  }

  /** What lets a simple instruction run: keys and modes, none of them touched by one. */
  datatype Keys = Keys(stateGen: nat, epoch: nat, priv: PrivMode, virt: bool, mstatus: nat)

  function KeysOf(r: Regs, epoch: nat): Keys {
    Keys(r.stateGen, epoch, r.priv, r.virt, r.csr[MSTATUS])
  }

  datatype Isa<!E(!new)> = Isa(
    /** Conditions under which run_fast takes no step itself: a debugger or log attached, a stale
        decode cache, C off, a wait requested. */
    fastOff: E -> bool,
    simple: (Core, Keys, E) -> Option<Retired>,
    slow: Machine<E> -> Machine<E>,
    /** The ticks of the clock such a step makes itself: a wait's. */
    slowTicks: Machine<E> -> nat,
    trap: (Machine<E>, nat) -> Machine<E>)

  /** The instruction at pc, when it is one run_fast can take. */
  function Simple<E(!new)>(isa: Isa<E>, m: Machine<E>): Option<Retired>
  {
    if isa.fastOff(m.env) then None else isa.simple(m.core, KeysOf(m.inputs.regs, m.epoch), m.env)
  }

  // ---- One step --------------------------------------------------------------------

  const INHIBIT_CY: nat := 1
  const INHIBIT_IR: nat := 4

  /** Whether Smcntrpmf's filter register stops a counter in the mode the hart is in. */
  predicate FilteredHere(r: Regs, extH: bool, cfg: nat)
    requires cfg < CSRS
  {
    var virt := extH && r.virt;
    var bit: nat := match r.priv
      case M => 0x4000_0000_0000_0000
      case S => if virt then 0x800_0000_0000_0000 else 0x2000_0000_0000_0000
      case U => if virt then 0x400_0000_0000_0000 else 0x1000_0000_0000_0000;
    Has(r.csr[cfg], bit)
  }

  predicate CountsInstret(r: Regs, extH: bool) {
    !Has(r.csr[0x320], INHIBIT_IR) && !FilteredHere(r, extH, 0x322)
  }

  predicate CountsCycle(r: Regs, extH: bool) {
    !Has(r.csr[0x320], INHIBIT_CY) && !FilteredHere(r, extH, 0x321)
  }

  function Refresh(c: Counters, i: I.Inputs, epoch: nat): Counters {
    if Keyed(i.regs, epoch) == c.key then c
    else Counters(Keyed(i.regs, epoch), CountsInstret(i.regs, i.extH), CountsCycle(i.regs, i.extH), c.increment)
  }

  /** The head of step_execute, up to the interrupt check. */
  function BeginStep<E>(m: Machine<E>): Machine<E> {
    var c := Refresh(m.counters, m.inputs, m.epoch);
    m.(last := m.last.(committed := false, decoded := false), counters := c.(increment := c.instret))
  }

  function Retire<E>(m: Machine<E>, r: Retired): Machine<E> {
    m.(core := r.core,
       history := Record(m.history, m.core.pc, r.insn),
       steps := Advance(m.steps, 1),
       last := Last(true, true, r.insn, r.len))
  }

  function Execute<E(!new)>(isa: Isa<E>, m: Machine<E>): Machine<E>
  {
    var r := Simple(isa, m);
    if r.Some? then Retire(m, r.value) else isa.slow(m)
  }

  function TakeInterrupt<E(!new)>(isa: Isa<E>, m: Machine<E>, b: nat): Machine<E> {
    var t := isa.trap(m, b);
    t.(steps := Advance(t.steps, 1))
  }

  function Add(i: I.Inputs, addr: nat, n: nat): I.Inputs
    requires addr < CSRS
  {
    i.(regs := i.regs.CsrAdd(addr, n))
  }

  function ClockTick<E>(m: Machine<E>): Machine<E> {
    var c := Refresh(m.counters, m.inputs, m.epoch);
    m.(counters := c,
       inputs := if c.cycle then Add(m.inputs, MCYCLE, 1) else m.inputs,
       clock := m.clock.(mtime := (m.clock.mtime + 1) % TWO64))
  }

  function EndStep<E>(m: Machine<E>): Machine<E> {
    var a := if m.last.committed && m.counters.increment then m.(inputs := Add(m.inputs, MINSTRET, 1)) else m;
    if a.clock.phase + 1 == INSNS_PER_TICK then ClockTick(a.(clock := a.clock.(phase := 0)))
    else a.(clock := a.clock.(phase := a.clock.phase + 1))
  }

  /** end_step runs only if the step counted as one. */
  function AfterExecute<E>(before: Machine<E>, after: Machine<E>): Machine<E>
  {
    if after.steps.count != before.steps.count then EndStep(after) else after
  }

  /** The machine with the interrupt check's cache: the event counter it last ran under and the mtime
      up to which what it found stands. */
  datatype State<E> = State(m: Machine<E>, irqKey: nat, irqDeadline: Time)

  predicate IrqUnchanged<E>(s: State<E>) {
    s.m.inputs.regs.eventGen == s.irqKey && s.m.clock.mtime < s.irqDeadline
  }

  function ExecuteOrTake<E(!new)>(isa: Isa<E>, m: Machine<E>, check: bool): Machine<E>
  {
    var b := I.Taken(m.inputs, m.clock.mtime);
    if check && b.Some? then TakeInterrupt(isa, m, b.value) else Execute(isa, m)
  }

  function Step<E(!new)>(isa: Isa<E>, s: State<E>): State<E>
  {
    if s.m.halted then s
    else
      var m := BeginStep(s.m);
      if IrqUnchanged(s) then
        s.(m := AfterExecute(s.m, ExecuteOrTake(isa, m, false)))
      else
        State(AfterExecute(s.m, ExecuteOrTake(isa, m, true)), m.inputs.regs.eventGen,
          I.Deadline(m.inputs, m.clock.mtime))
  }

  function StepN<E(!new)>(isa: Isa<E>, s: State<E>, n: nat): State<E>
    decreases n
  {
    if n == 0 then s else StepN(isa, Step(isa, s), n - 1)
  }

  /** The simple definition: the interrupt check is made before every step. */
  function AlwaysStep<E(!new)>(isa: Isa<E>, m: Machine<E>): Machine<E>
  {
    if m.halted then m
    else
      AfterExecute(m, ExecuteOrTake(isa, BeginStep(m), true))
  }

  function AlwaysStepN<E(!new)>(isa: Isa<E>, m: Machine<E>, n: nat): Machine<E>
    decreases n
  {
    if n == 0 then m else AlwaysStepN(isa, AlwaysStep(isa, m), n - 1)
  }
}
