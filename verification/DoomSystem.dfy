/** The one-hart machine as the object that steps itself: `Step`, the definition, and `RunFast`, the
    loop that batches it. */
module DoomSystem {
  import opened Words
  import opened Registers
  import opened Engine
  import opened EngineProofs
  import opened FastRun
  import opened TickCount
  import I = Interrupts

  class System<E(!new)> {
    const isa: Isa<E>
    const history: array<HistoryRecord>
    var core: Core
    var inputs: I.Inputs
    var clock: Clock
    var counters: Counters
    var next: RingIndex
    var steps: Steps
    var last: Last
    var epoch: nat
    var halted: bool
    var env: E
    var irqKey: nat
    var irqDeadline: Time
    var clockTicks: nat

    ghost predicate Valid() {
      history.Length == HISTORY_SIZE
    }

    function Snapshot(): Machine<E>
      requires Valid()
      reads this, history
    {
      Machine(core, inputs, clock, counters, History(history[..], next), steps, last, epoch, halted, env)
    }

    ghost function View(): State<E>
      requires Valid()
      reads this, history
    {
      State(Snapshot(), irqKey, irqDeadline)
    }

    constructor (isa: Isa<E>, m: Machine<E>)
      ensures Valid() && this.isa == isa && View() == State(m, MAX64, 0) && clockTicks == 0
    {
      this.isa := isa;
      history := new HistoryRecord[HISTORY_SIZE](i requires 0 <= i < HISTORY_SIZE => m.history.ring[i]);
      core, inputs, clock, counters, next := m.core, m.inputs, m.clock, m.counters, m.history.next;
      steps, last, epoch, halted, env := m.steps, m.last, m.epoch, m.halted, m.env;
      irqKey, irqDeadline, clockTicks := MAX64, 0, 0;
      new;
      assert history[..] == m.history.ring;
    }

    /** The machine after an opaque transition. */
    method Become(m: Machine<E>)
      requires Valid()
      modifies this`core, this`inputs, this`clock, this`counters, this`next, this`steps, this`last, this`epoch,
               this`halted, this`env, history
      ensures Snapshot() == m
    {
      core, inputs, clock, counters, next := m.core, m.inputs, m.clock, m.counters, m.history.next;
      steps, last, epoch, halted, env := m.steps, m.last, m.epoch, m.halted, m.env;
      forall i | 0 <= i < HISTORY_SIZE {
        history[i] := m.history.ring[i];
      }
      assert history[..] == m.history.ring;
    }

    /** Memory::step_instructions. */
    method StepInstructions(count: nat)
      requires Valid() && count < TWO32
      modifies this`steps
      ensures steps == AddSteps(old(steps), count)
    {
      var ms := (steps.msAccum + count) % TWO32;
      var ticks := steps.ticks;
      while ms >= INSTR_PER_MS
        invariant ms >= 0
        invariant ms + (ticks - steps.ticks) * INSTR_PER_MS == (steps.msAccum + count) % TWO32
      {
        ms := ms - INSTR_PER_MS;
        ticks := ticks + 1;
      }
      ghost var k := ticks - steps.ticks;
      ghost var all := (steps.msAccum + count) % TWO32;
      assert all / INSTR_PER_MS == k && all % INSTR_PER_MS == ms;
      steps := Steps(steps.count + count, ms, ticks);
    }

    method RefreshCounterEnables()
      requires Valid()
      modifies this`counters
      ensures counters == Refresh(old(counters), inputs, epoch)
    {
      if Keyed(inputs.regs, epoch) != counters.key {
        counters := Refresh(counters, inputs, epoch);
      }
    }

    method ClockTick()
      requires Valid()
      modifies this`counters, this`inputs, this`clock, this`clockTicks
      ensures Snapshot() == Engine.ClockTick(old(Snapshot())) && clockTicks == old(clockTicks) + 1
    {
      clockTicks := clockTicks + 1;
      RefreshCounterEnables();
      if counters.cycle {
        inputs := Add(inputs, MCYCLE, 1);
      }
      clock := clock.(mtime := (clock.mtime + 1) % TWO64);
    }

    method EndStep()
      requires Valid()
      modifies this`counters, this`inputs, this`clock, this`clockTicks
      ensures Snapshot() == Engine.EndStep(old(Snapshot()))
      ensures clockTicks == old(clockTicks) + if old(clock.phase) + 1 == INSNS_PER_TICK then 1 else 0
    {
      if last.committed && counters.increment {
        inputs := Add(inputs, MINSTRET, 1);
      }
      if clock.phase + 1 == INSNS_PER_TICK {
        clock := clock.(phase := 0);
        ClockTick();
      } else {
        clock := clock.(phase := clock.phase + 1);
      }
    }

    /** Whether the check could find anything new; if it could, what is known from now on. */
    method InterruptMayBeDue() returns (due: bool)
      requires Valid()
      modifies this`irqKey, this`irqDeadline
      ensures due == !old(IrqUnchanged(View()))
      ensures due ==> irqKey == inputs.regs.eventGen && irqDeadline == I.Deadline(inputs, clock.mtime)
      ensures !due ==> irqKey == old(irqKey) && irqDeadline == old(irqDeadline)
    {
      if inputs.regs.eventGen == irqKey && clock.mtime < irqDeadline {
        return false;
      }
      irqKey := inputs.regs.eventGen;
      irqDeadline := I.Deadline(inputs, clock.mtime);
      return true;
    }

    method ExecuteInstruction()
      requires Valid()
      modifies this, history
      ensures Snapshot() == Execute(isa, old(Snapshot()))
      ensures irqKey == old(irqKey) && irqDeadline == old(irqDeadline)
      ensures clockTicks
           == old(clockTicks) + if Simple(isa, old(Snapshot())).None? then isa.slowTicks(old(Snapshot())) else 0
    {
      var m := Snapshot();
      var r := Simple(isa, m);
      if r.None? {
        clockTicks := clockTicks + isa.slowTicks(m);
        Become(isa.slow(m));
        return;
      }
      history[next] := HistoryRecord(core.pc, r.value.insn);
      next := (next + 1) % HISTORY_SIZE;
      core := r.value.core;
      last := Last(true, true, r.value.insn, r.value.len);
      StepInstructions(1);
    }

    method TakeInterrupt(b: nat)
      requires Valid()
      modifies this, history
      ensures Snapshot() == Engine.TakeInterrupt(isa, old(Snapshot()), b)
      ensures irqKey == old(irqKey) && irqDeadline == old(irqDeadline) && clockTicks == old(clockTicks)
    {
      Become(isa.trap(Snapshot(), b));
      StepInstructions(1);
    }

    method StepExecute()
      requires Valid() && !halted
      modifies this, history
      ensures var m := BeginStep(old(Snapshot()));
        View() == if old(IrqUnchanged(View())) then State(ExecuteOrTake(isa, m, false), old(irqKey), old(irqDeadline))
                  else State(ExecuteOrTake(isa, m, true), m.inputs.regs.eventGen, I.Deadline(m.inputs, m.clock.mtime))
      ensures var m := BeginStep(old(Snapshot()));
        clockTicks == old(clockTicks) + if IsSlow(isa, m, !old(IrqUnchanged(View()))) then isa.slowTicks(m) else 0
    {
      hide I.Taken, I.Deadline, Refresh, Execute, Advance, Simple, Engine.TakeInterrupt;
      last := last.(committed := false, decoded := false);
      RefreshCounterEnables();
      counters := counters.(increment := counters.instret);
      assert Snapshot() == BeginStep(old(Snapshot()));
      var due := InterruptMayBeDue();
      if due {
        var b := I.Taken(inputs, clock.mtime);
        if b.Some? {
          TakeInterrupt(b.value);
          return;
        }
      }
      ExecuteInstruction();
    }

    method Step()
      requires Valid()
      modifies this, history
      ensures View() == Engine.Step(isa, old(View()))
      ensures clockTicks == old(clockTicks) + StepTicks(isa, old(View()))
    {
      hide IsSlow, ExecuteOrTake, BeginStep, Engine.EndStep, I.Deadline;
      if halted {
        return;
      }
      var before := steps.count;
      StepExecute();
      if steps.count != before {
        EndStep();
      }
    }

    /** The inner loop of run_fast. */
    method TakeRun(limit: nat) returns (done: nat, insn: nat, len: nat)
      requires Valid()
      modifies this`core, this`next, history
      ensures Progress(done, core, History(history[..], next), if done == 0 then last else Last(true, true, insn, len))
           == Batch(isa, old(View()), limit, Start(old(View())))
    {
      ghost var run := View();
      done, insn, len := 0, 0, 4;
      while done < limit
        invariant done <= limit
        invariant Batch(isa, run, limit, Start(run)) == Batch(isa, run, limit,
                    Progress(done, core, History(history[..], next),
                             if done == 0 then last else Last(true, true, insn, len)))
      {
        ghost var p := Progress(done, core, History(history[..], next),
                                if done == 0 then last else Last(true, true, insn, len));
        var r := isa.simple(core, KeysOf(inputs.regs, epoch), env);
        assert r == Next(isa, run, p);
        if r.None? {
          return;
        }
        history[next] := HistoryRecord(core.pc, r.value.insn);
        next := (next + 1) % HISTORY_SIZE;
        core := r.value.core;
        insn, len := r.value.insn, r.value.len;
        done := done + 1;
        assert Progress(done, core, History(history[..], next), Last(true, true, insn, len)) == WithOne(p, r.value);
      }
    }

    /** What `done` steps' end_step and step_instructions would have added, at once. */
    method AddUp(done: nat, insn: nat, len: nat)
      requires Valid() && done > 0
      modifies this`steps, this`inputs, this`clock, this`last
      ensures steps == AddSteps(old(steps), done % TWO32) && clock == AddedClock(old(clock), done)
      ensures inputs == AddedInputs(old(inputs), old(clock), counters, done)
      ensures last == Last(true, true, insn, len)
    {
      hide AddSteps;
      StepInstructions(done % TWO32);
      if counters.increment {
        inputs := Add(inputs, MINSTRET, done);
      }
      var phases := (clock.phase + done) % TWO64;
      var ticks := phases / INSNS_PER_TICK;
      clock := clock.(phase := phases % INSNS_PER_TICK);
      assert clock.mtime % TWO64 == clock.mtime;
      if ticks > 0 {
        if counters.cycle {
          inputs := Add(inputs, MCYCLE, ticks);
        }
        clock := clock.(mtime := (clock.mtime + ticks % TWO32) % TWO64);
      }
      last := Last(true, true, insn, len);
    }

    /** How many steps may run before one could see mtime reach the interrupt deadline. */
    method StepsUntilDeadline(budget: nat) returns (limit: nat)
      requires Valid() && budget < TWO64 && IrqUnchanged(View())
      ensures limit == Limit(View(), budget)
    {
      limit := budget;
      if irqDeadline != MAX64 {
        var d := irqDeadline - clock.mtime;
        var runs := if d > MAX64 / 4 then MAX64 else 2 * d - clock.phase;
        if runs < limit {
          limit := runs;
        }
      }
    }

    /** A run of simple instructions with its bookkeeping. */
    method SimpleRun(limit: nat) returns (done: nat)
      requires Valid()
      modifies this`core, this`next, this`counters, this`steps, this`inputs, this`clock, this`last, history
      ensures var e := WithIncrement(old(View())); var p := Batch(isa, e, limit, Start(e));
        done == p.done && View() == Added(e, p)
    {
      hide Batch, AddSteps, AddedClock, AddedInputs;
      counters := counters.(increment := counters.instret);
      ghost var run := View();
      assert run == WithIncrement(old(View()));
      var insn, len;
      done, insn, len := TakeRun(limit);
      if done > 0 {
        AddUp(done, insn, len);
      } else {
        NoneAdded(run, core, History(history[..], next), last);
      }
    }

    /** One pass of run_fast's outer loop. */
    method Pass(budget: nat) returns (used: nat)
      requires Valid() && 0 < budget < TWO64 && !halted
      modifies this, history
      ensures (View(), used) == FastRun.Pass(isa, old(View()), budget)
      ensures clockTicks == old(clockTicks) + PassTicks(isa, old(View()), budget)
    {
      hide Engine.Step, StepTicks, RunLimit, Batch, Added, Keyed;
      if isa.fastOff(env) || Keyed(inputs.regs, epoch) != counters.key
         || inputs.regs.eventGen != irqKey || clock.mtime >= irqDeadline {
        Step();
        return 1;
      }
      var limit := StepsUntilDeadline(budget);
      used := SimpleRun(limit);
      if used < limit {
        Step();
        used := used + 1;
      }
    }

    /** run_fast, which is n calls to Step wherever no run of it goes past mtime's last value over an
        interrupt to be taken there, or is too long to count -- but for its count of the clock's ticks. */
    method RunFast(n: nat)
      requires Valid() && n < TWO64
      modifies this, history
      ensures View() == FastRun.RunFast(isa, old(View()), n)
      ensures clockTicks == old(clockTicks) + RunFastTicks(isa, old(View()), n)
      ensures Clean(isa, old(View()), n) ==>
        && View() == StepN(isa, old(View()), n)
        && clockTicks + Uncounted(isa, old(View()), n) == old(clockTicks) + Ticks(isa, old(View()), n)
    {
      hide FastRun.Pass, PassTicks, Clean, Ticks, Uncounted, StepN;
      var left := n;
      ghost var s0 := View();
      while left > 0 && !halted
        invariant 0 <= left <= n
        invariant FastRun.RunFast(isa, View(), left) == FastRun.RunFast(isa, s0, n)
        invariant clockTicks + RunFastTicks(isa, View(), left) == old(clockTicks) + RunFastTicks(isa, s0, n)
      {
        var used := Pass(left);
        left := left - used;
      }
      if Clean(isa, s0, n) {
        RunFastIsSteps(isa, s0, n);
        RunFastFallsBehind(isa, s0, n);
      }
    }
  }

  lemma NoneAdded<E(!new)>(s: State<E>, core: Core, history: History, last: Last)
    ensures Added(s, Progress(0, core, history, last)) == s.(m := s.m.(core := core, history := history, last := last))
  {
  }
}
