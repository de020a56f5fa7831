/** The APLIC's writes against the engine's event counter: a step that writes one of its registers, on a
    machine of one hart, and whether interrupt checks may then be skipped. */
module AplicEvents {
  import opened Words
  import opened Registers
  import opened Engine
  import opened EngineProofs
  import opened Bits
  import opened Aplic
  import I = Interrupts

  /** A step that stores `val` to the APLIC register at `offset`: the domain as write32 leaves it, the wire
      to the hart where that moves it, and the event counter where write32 bumps it. */
  function Poked(m: Machine<Domain>, offset: nat, val: nat): Machine<Domain> {
    var d := WriteIn(m.env, 1, offset, val);
    var line := if DirectLine(d, 0) == DirectLine(m.env, 0) then m.inputs.aplicLine else DirectLine(d, 0);
    var r := m.inputs.regs;
    m.(env := d, steps := Advance(m.steps, 1),
       inputs := m.inputs.(aplicLine := line,
                           regs := if Announces(m.env, 1, offset, val) then r.(eventGen := r.eventGen + 1) else r))
  }

  /** A machine all of whose steps do that. Taking an interrupt is an event. */
  function Poke(offset: nat, val: nat): Isa<Domain> {
    Isa(_ => true, (core: Core, keys: Keys, d: Domain) => None,
        (m: Machine<Domain>) => Poked(m, offset, val),
        (m: Machine<Domain>) => 0,
        (m: Machine<Domain>, b: nat) =>
          m.(inputs := m.inputs.(regs := m.inputs.regs.(eventGen := m.inputs.regs.eventGen + 1))))
  }

  /** A hart in U-mode that takes S-level external interrupts. */
  function User(line: bool): I.Inputs {
    I.Inputs(Regs(seq(CSRS, k => if k == 0x304 then 512 else 0), U, false, 0, 0), false,
             MAX64, false, false, false, line)
  }

  lemma UserTakes(line: bool, now: nat)
    ensures I.Taken(User(line), now) == if line then Some(9) else None
  {
    var i := User(line);
    assert Bit(512, 9) && !Bit(512, 11) && !Bit(512, 3) && !Bit(512, 7) by {
      assert Bit(512, 9) == Bit(64, 6) == Bit(8, 3) && Bit(512, 11) == Bit(32, 7) == Bit(2, 3)
          && Bit(512, 7) == Bit(64, 4) == Bit(8, 1);
    }
    assert !Bit(0, 9) by {
      assert Bit(0, 9) == Bit(0, 6) == Bit(0, 3);
    }
    OnlyBitNine();
    assert forall b <- I.PRIORITY | b != 9 :: !I.PendingEnabled(i, b, now);
    assert I.PendingEnabled(i, 9, now) <==> line;
    if line {
      assert I.FirstPending(i, now, 3) == Some(9);
      assert I.Delivered(i, 9);
    }
  }

  lemma OnlyBitNine()
    ensures forall b <- I.PRIORITY | b != 9 :: !Bit(512, b)
  {
  }

  /** One source with its line kept off by the register at `offset`, and the value that lets it through. */
  function HeldBack(offset: nat): Domain
    requires Configures(offset)
  {
    match Decode(offset)
    case DomainCfg => OneSource(1).(cfg := 0)
    case SourceCfg(i) => OneSource(i).(source := OneSource(i).source[i := 0])
    case Target(i) => OneSource(i).(target := OneSource(i).target[i := 0x4_0000])
  }

  function Release(offset: nat): nat {
    match Decode(offset)
    case DomainCfg => DOMAINCFG_IE
    case SourceCfg(_) => 1
    case _ => 0
  }

  lemma ReleaseMovesLine(offset: nat)
    requires Configures(offset)
    ensures !DirectLine(HeldBack(offset), 0) && DirectLine(WriteIn(HeldBack(offset), 1, offset, Release(offset)), 0)
    ensures var d := WriteIn(HeldBack(offset), 1, offset, Release(offset)); WriteIn(d, 1, offset, Release(offset)) == d
    ensures forall d: Domain :: !Announces(d, 1, offset, Release(offset))
  {
    hide DirectLine;
    var i := if Decode(offset).DomainCfg? then 1 else Decode(offset).i;
    assert TargetWritable(0) == 0 && CfgWritable(DOMAINCFG_IE) == DOMAINCFG_IE;
    OneSourceLine(i, HeldBack(offset));
    OneSourceLine(i, WriteIn(HeldBack(offset), 1, offset, Release(offset)));
  }

  /** The hart, with the line off and the check made. */
  function Before(offset: nat): State<Domain>
    requires Configures(offset)
  {
    State(Machine(Core([], [], 0, map[], 0), User(false), Clock(0, 0), Counters(MAX64, false, false, false),
                  History(seq(HISTORY_SIZE, _ => HistoryRecord(0, 0)), 0), Steps(0, 0, 0),
                  Last(false, false, 0, 0), 0, false,
                  HeldBack(offset)),
          0, MAX64)
  }

  /** It breaks the contract, and its second step is one that the checking machine takes as a trap. */
  lemma PokeIsMissed(offset: nat)
    requires Configures(offset)
    ensures var isa, s := Poke(offset, Release(offset)), Before(offset);
      && CheckIsGood(s) && I.Ordinary(s.m.inputs)
      && StepN(isa, s, 2).m != AlwaysStepN(isa, s.m, 2)
  {
    hide I.Taken, I.Deadline, User, HeldBack, WriteIn, DirectLine, Announces, Quiet, Refresh, I.Ordinary;
    var isa, s := Poke(offset, Release(offset)), Before(offset);
    ReleaseMovesLine(offset);
    UserStill();
    QuietUser();
    var one := Step(isa, s);
    FirstPoke(offset);
    SecondSteps(offset, one);
    assert StepN(isa, s, 2) == StepN(isa, one, 1) == StepN(isa, Step(isa, one), 0);
    assert AlwaysStepN(isa, s.m, 2) == AlwaysStepN(isa, one.m, 1) == AlwaysStepN(isa, AlwaysStep(isa, one.m), 0);
    UserIsOrdinary();
  }

  lemma UserStill()
    ensures User(false).regs.eventGen == 0 == User(true).regs.eventGen && User(false).(aplicLine := true) == User(true)
  {
  }

  lemma UserIsOrdinary()
    ensures I.Ordinary(User(false))
  {
    hide I.Ordinary;
    assert !Bit(0, 7) by {
      assert Bit(0, 7) == Bit(0, 3);
    }
    I.UsualIsOrdinary(User(false));
  }

  lemma QuietUser()
    ensures Quiet(User(false), 0, MAX64)
  {
    forall u: nat
      ensures I.Taken(User(false), u).None?
    {
      UserTakes(false, u);
    }
  }

  lemma FirstPoke(offset: nat)
    requires Configures(offset)
    ensures var isa, s := Poke(offset, Release(offset)), Before(offset); var one := Step(isa, s);
      && one.m == AlwaysStep(isa, s.m) && one.m.inputs == User(true) && one.m.clock == Clock(0, 1)
      && one.irqKey == 0 && one.irqDeadline == MAX64 && !one.m.halted
  {
    hide I.Taken, I.Deadline, User, HeldBack, WriteIn, DirectLine, Announces, Refresh;
    ReleaseMovesLine(offset);
    UserStill();
    UserTakes(false, 0);
  }

  lemma SecondSteps(offset: nat, s: State<Domain>)
    requires Configures(offset) && s.m.inputs == User(true) && s.m.clock == Clock(0, 1)
    requires s.irqKey == 0 && s.irqDeadline == MAX64 && !s.m.halted
    ensures var isa := Poke(offset, Release(offset));
      && Step(isa, s).m.inputs.regs.eventGen == 0 && AlwaysStep(isa, s.m).inputs.regs.eventGen == 1
      && AlwaysStep(isa, s.m).clock.mtime == 1
  {
    hide I.Taken, I.Deadline, User, WriteIn, DirectLine, Announces, Refresh;
    var isa := Poke(offset, Release(offset));
    ReleaseMovesLine(offset);
    UserStill();
    UserTakes(true, 0);
    EndStepKeepsInputs(Execute(isa, BeginStep(s.m)));
    EndStepKeepsInputs(TakeInterrupt(isa, BeginStep(s.m), 9));
  }

  /** A write that cannot move the line unannounced keeps the contract. */
  lemma AnnouncedKeepsContract(offset: nat, val: nat)
    requires !Configures(offset)
    ensures EventContract(Poke(offset, val))
  {
    hide DirectLine, WriteIn, Announces;
    AnnouncedExactly(offset);
    forall m: Machine<Domain>
      ensures HonestMove(m, Poke(offset, val).slow(m))
    {
      assert !Announces(m.env, 1, offset, val) ==>
        DirectLine(WriteIn(m.env, 1, offset, val), 0) == DirectLine(m.env, 0);
    }
  }

  /** No such write brings htimedelta into play, or delegates anything. */
  lemma PokeKeepsOrdinary(offset: nat, val: nat)
    ensures KeepsOrdinary(Poke(offset, val))
  {
    hide DirectLine, WriteIn, Announces, I.Ordinary;
    forall m: Machine<Domain> | I.Ordinary(m.inputs)
      ensures I.Ordinary(Poke(offset, val).slow(m).inputs)
    {
      SameRegistersOrdinary(m.inputs, Poke(offset, val).slow(m).inputs);
    }
    forall m: Machine<Domain>, b: nat | I.Ordinary(m.inputs)
      ensures I.Ordinary(Poke(offset, val).trap(m, b).inputs)
    {
      SameRegistersOrdinary(m.inputs, Poke(offset, val).trap(m, b).inputs);
    }
  }

  lemma SameRegistersOrdinary(i: I.Inputs, j: I.Inputs)
    requires I.Ordinary(i) && i.extH == j.extH && j.regs == i.regs.(eventGen := j.regs.eventGen)
    ensures I.Ordinary(j)
  {
    hide Bit;
    forall b: nat
      ensures I.Delivered(i, b) == I.Delivered(j, b)
    {
    }
  }

  /** Skipping checks shows in no run of any length, from any state with a good check and no htimedelta in
      play, exactly if the register is not one of the configuration registers. */
  lemma SkippingIsSafeExactly(offset: nat)
    ensures (forall val: nat, s: State<Domain>, n: nat {:trigger StepN(Poke(offset, val), s, n)} ::
               CheckIsGood(s) && I.Ordinary(s.m.inputs) ==>
                 StepN(Poke(offset, val), s, n).m == AlwaysStepN(Poke(offset, val), s.m, n))
       <==> !Configures(offset)
  {
    hide Configures, Poke, StepN, AlwaysStepN, CheckIsGood, I.Ordinary, Before, EventContract, KeepsOrdinary;
    if Configures(offset) {
      PokeIsMissed(offset);
    } else {
      forall val: nat, s: State<Domain>, n: nat | CheckIsGood(s) && I.Ordinary(s.m.inputs)
        ensures StepN(Poke(offset, val), s, n).m == AlwaysStepN(Poke(offset, val), s.m, n)
      {
        AnnouncedKeepsContract(offset, val);
        PokeKeepsOrdinary(offset, val);
        OrdinarySkippingIsInvisible(Poke(offset, val), s, n);
      }
    }
  }

  /** The contract the engine rests on, likewise. */
  lemma ContractExactly(offset: nat)
    ensures (forall val: nat {:trigger Poke(offset, val)} :: EventContract(Poke(offset, val))) <==> !Configures(offset)
  {
    hide Configures, Poke, StepN, AlwaysStepN, CheckIsGood, I.Ordinary, Before, EventContract, KeepsOrdinary;
    if Configures(offset) {
      PokeIsMissed(offset);
      if EventContract(Poke(offset, Release(offset))) {
        PokeKeepsOrdinary(offset, Release(offset));
        OrdinarySkippingIsInvisible(Poke(offset, Release(offset)), Before(offset), 2);
      }
    } else {
      forall val: nat
        ensures EventContract(Poke(offset, val))
      {
        AnnouncedKeepsContract(offset, val);
      }
    }
  }
}
