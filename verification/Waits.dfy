/** WFI and WRS. With one hart the whole wait runs inside its step (run_wait); with several it goes on
    one round at a time (begin_wait, wait_slot), and a waiting hart that cannot have been woken since
    it last looked is passed over (run_round's shortcut). */
module Waits {
  import opened Words
  import opened Bits
  import opened BitFlags
  import opened Registers
  import opened Engine
  import P = Pmp
  import I = Interrupts

  const MAX_WAIT_TICKS: nat := 10
  const TW: nat := 0x20_0000
  const VTW: nat := 0x20_0000

  datatype Kind = Wfi | WrsSto | WrsNto

  /** How a look at a wait comes out: it goes on, or it ends and the instruction completes (trap 0),
      or traps as illegal (2) or as a virtual instruction (22). */
  datatype Look = GoesOn | Ends(trap: nat)

  function TimeoutTrap(kind: Kind, i: I.Inputs): nat {
    var v := i.extH && i.regs.virt;
    var tw := Has(i.regs.csr[MSTATUS], TW);
    var vtw := v && Has(i.regs.csr[0x600], VTW);
    match kind
    case Wfi =>
      if i.regs.priv == S && v then (if vtw then 22 else 0)
      else if i.regs.priv != M then (if tw then 2 else 0)
      else 0
    case WrsNto =>
      if i.regs.priv != M then (if tw then 2 else if vtw then 22 else 0) else 0
    case WrsSto => 0
  }

  /** One look: the body of run_wait's loop, and of wait_slot. */
  function LookAt(kind: Kind, i: I.Inputs, reserved: bool, now: nat, remaining: nat): Look {
    if I.Wake(i, now) then Ends(0)
    else if kind != Wfi && !reserved then Ends(0)
    else if remaining == 0 then Ends(TimeoutTrap(kind, i))
    else GoesOn
  }

  /** What a wait that has run out ends with. mstatus.TW (bit 21) makes it illegal below M: a wrs.nto, and a WFI
      but in VS. hstatus.VTW (bit 21) makes it a virtual instruction: a WFI in VS, and in a guest a wrs.nto
      that TW leaves. Otherwise it completes. */
  predicate RunsOutWith(kind: Kind, i: I.Inputs, trap: nat) {
    var r := i.regs;
    var guest := i.extH && r.virt;
    var tw, vtw := Bit(r.csr[0x300], 21), Bit(r.csr[0x600], 21);
    && (trap == 2 <==> r.priv != M && tw && (kind == WrsNto || (kind == Wfi && !(guest && r.priv == S))))
    && (trap == 22 <==> guest && vtw && ((kind == Wfi && r.priv == S) || (kind == WrsNto && r.priv != M && !tw)))
    && trap in {0, 2, 22}
  }

  /** A look, by what there is to see: something to wake for, or a WRS without its reservation, completes the
      instruction; otherwise the wait goes on until it has run out. */
  ghost predicate Looks(kind: Kind, i: I.Inputs, reserved: bool, now: nat, remaining: nat, look: Look) {
    if I.Wake(i, now) || (kind in {WrsSto, WrsNto} && !reserved) then look == Ends(0)
    else if remaining > 0 then look == GoesOn
    else look.Ends? && RunsOutWith(kind, i, look.trap)
  }

  lemma LookIsThat(kind: Kind, i: I.Inputs, reserved: bool, now: nat, remaining: nat, look: Look)
    ensures LookAt(kind, i, reserved, now, remaining) == look <==> Looks(kind, i, reserved, now, remaining, look)
  {
    hide Bit, Has, I.Wake, P.Pow2;
    BitTwentyOne(i.regs.csr[0x300]);
    BitTwentyOne(i.regs.csr[0x600]);
  }

  lemma BitTwentyOne(v: nat)
    ensures Bit(v, 21) == Has(v, 0x20_0000)
  {
    hide Bit, Has, P.Pow2;
    Powers();
    ByteFlags(v, 16, 0x1_0000);
  }

  /** A hart's share of a tick: its mcycle, where mcountinhibit and its filter let it count. */
  function TickHart(i: I.Inputs): I.Inputs {
    if CountsCycle(i.regs, i.extH) then Add(i, MCYCLE, 1) else i
  }

  lemma TickKeepsInputs(i: I.Inputs)
    ensures I.SameInputs(i, TickHart(i))
  {
  }

  function Next(t: Time): Time {
    (t + 1) % TWO64
  }

  // ---- The cached counter enables ---------------------------------------------------------

  /** The enables are what the registers say, if the key is the registers' own. */
  predicate EnablesGood(c: Counters, r: Regs, extH: bool, epoch: nat) {
    c.key == Keyed(r, epoch) ==> c.instret == CountsInstret(r, extH) && c.cycle == CountsCycle(r, extH)
  }

  /** Enables decided at one moment of a run are right at any later one that has the same key, whatever
      CSRs were written and modes entered between -- the set of extensions changing only with the epoch. */
  lemma EqualKeyEqualEnables(a: Regs, extHa: bool, epochA: nat, ops: seq<RegOp>, extHb: bool, epochB: nat)
    requires forall op <- ops :: LegalOp(op)
    requires epochA <= epochB && (epochA == epochB ==> extHa == extHb)
    requires Keyed(Run(a, ops), epochB) == Keyed(a, epochA)
    ensures CountsInstret(Run(a, ops), extHb) == CountsInstret(a, extHa)
    ensures CountsCycle(Run(a, ops), extHb) == CountsCycle(a, extHa)
  {
    hide Has, SameState;
    var b := Run(a, ops);
    GenerationsOnlyGrow(a, ops);
    assert b.stateGen + epochB == a.stateGen + epochA && b.priv == a.priv;
    SameStateGenSameState(a, ops);
    SameStateSameEnables(a, b);
  }

  lemma SameStateSameEnables(a: Regs, b: Regs)
    requires SameState(a, b)
    ensures a.virt == b.virt && a.csr[0x320] == b.csr[0x320] && a.csr[0x321] == b.csr[0x321]
      && a.csr[0x322] == b.csr[0x322]
  {
  }

  lemma TickKeepsEnables(c: Counters, i: I.Inputs, epoch: nat)
    requires EnablesGood(c, i.regs, i.extH, epoch)
    ensures EnablesGood(c, TickHart(i).regs, i.extH, epoch)
  {
  }

  // ---- The wait inside one step ---------------------------------------------------------

  /** Where a wait that has looked `k` times and not ended stands: the hart's inputs and mtime. The
      first tick comes before the first look, and the last look follows its predecessor at once. */
  function WaitState(i: I.Inputs, t: Time, k: nat): (I.Inputs, Time)
    requires k <= MAX_WAIT_TICKS
  {
    if k == 0 then (TickHart(i), Next(t))
    else
      var (j, u) := WaitState(i, t, k - 1);
      if k == MAX_WAIT_TICKS then (j, u) else (TickHart(j), Next(u))
  }

  function LookNumber(kind: Kind, i: I.Inputs, reserved: bool, t: Time, k: nat): Look
    requires k <= MAX_WAIT_TICKS
  {
    var (j, u) := WaitState(i, t, k);
    LookAt(kind, j, reserved, u, MAX_WAIT_TICKS - k)
  }

  /** The wait goes on at every look before number `n` and ends there. */
  ghost predicate EndsAtLook(kind: Kind, i: I.Inputs, reserved: bool, t: Time, n: nat) {
    && n <= MAX_WAIT_TICKS
    && LookNumber(kind, i, reserved, t, n).Ends?
    && forall m | 0 <= m < n :: LookNumber(kind, i, reserved, t, m).GoesOn?
  }

  /** So a wait ends at the first look with something to wake for, and else runs out; a WRS without its
      reservation, at the first look of all. */
  lemma EndsAtFirstReason(kind: Kind, i: I.Inputs, reserved: bool, t: Time, n: nat)
    requires EndsAtLook(kind, i, reserved, t, n)
    ensures forall m: nat | m < n :: !I.Wake(WaitState(i, t, m).0, WaitState(i, t, m).1)
    ensures n < 10 ==> I.Wake(WaitState(i, t, n).0, WaitState(i, t, n).1) || (kind in {WrsSto, WrsNto} && !reserved)
    ensures kind in {WrsSto, WrsNto} && !reserved ==> n == 0
  {
    hide WaitState, I.Wake, RunsOutWith, LookAt;
    forall m: nat | m <= n
      ensures var (j, u) := WaitState(i, t, m);
        Looks(kind, j, reserved, u, 10 - m, LookNumber(kind, i, reserved, t, m))
    {
      var (j, u) := WaitState(i, t, m);
      LookIsThat(kind, j, reserved, u, 10 - m, LookNumber(kind, i, reserved, t, m));
    }
    LookIsThat(kind, WaitState(i, t, 0).0, reserved, WaitState(i, t, 0).1, 10, LookNumber(kind, i, reserved, t, 0));
  }

  class SingleHart {
    const epoch: nat
    /** -cycle-clock: the reference's stamps move the clock, and a wait does not. */
    const cycleClock: bool
    var inputs: I.Inputs
    var mtime: Time
    var reserved: bool
    var counters: Counters
    /** Ticks of the clock so far. */
    var ticks: nat

    predicate Valid()
      reads this
    {
      EnablesGood(counters, inputs.regs, inputs.extH, epoch)
    }

    constructor (inputs: I.Inputs, mtime: Time, reserved: bool, counters: Counters, epoch: nat, cycleClock: bool)
      requires EnablesGood(counters, inputs.regs, inputs.extH, epoch)
      ensures Valid() && this.inputs == inputs && this.mtime == mtime && this.reserved == reserved && ticks == 0
      ensures this.epoch == epoch && this.cycleClock == cycleClock && this.counters == counters
    {
      this.inputs, this.mtime, this.reserved, ticks := inputs, mtime, reserved, 0;
      this.counters, this.epoch, this.cycleClock := counters, epoch, cycleClock;
    }

    method RefreshCounterEnables()
      requires Valid()
      modifies this`counters
      ensures Valid() && counters.key == Keyed(inputs.regs, epoch) && counters.increment == old(counters.increment)
    {
      if Keyed(inputs.regs, epoch) != counters.key {
        counters := Refresh(counters, inputs, epoch);
      }
    }

    method ClockTick()
      requires Valid()
      modifies this`inputs, this`mtime, this`ticks, this`counters
      ensures Valid() && inputs == TickHart(old(inputs)) && mtime == Next(old(mtime)) && ticks == old(ticks) + 1
    {
      hide EnablesGood, CountsInstret, CountsCycle;
      RefreshCounterEnables();
      assert counters.cycle == CountsCycle(inputs.regs, inputs.extH) by {
        GoodEnables(counters, inputs.regs, inputs.extH, epoch);
      }
      TickKeepsEnables(counters, inputs, epoch);
      if counters.cycle {
        inputs := Add(inputs, MCYCLE, 1);
      }
      mtime := Next(mtime);
      ticks := ticks + 1;
    }

    /** The wait ends at its first look that finds a reason, after at most MAX_WAIT_TICKS ticks -- or, its
        clock not its own, after one look and none. */
    method RunWait(kind: Kind) returns (trap: nat, ghost looks: nat)
      requires Valid()
      modifies this`inputs, this`mtime, this`ticks, this`counters
      ensures Valid() && counters.increment == CountsInstret(inputs.regs, inputs.extH)
      ensures !cycleClock ==>
        && EndsAtLook(kind, old(inputs), reserved, old(mtime), looks)
        && (inputs, mtime) == WaitState(old(inputs), old(mtime), looks)
        && LookNumber(kind, old(inputs), reserved, old(mtime), looks) == Ends(trap)
        && ticks - old(ticks) == Min(looks + 1, MAX_WAIT_TICKS)
      ensures cycleClock ==>
        && inputs == old(inputs) && mtime == old(mtime) && ticks == old(ticks)
        && Ends(trap) == LookAt(kind, inputs, reserved, mtime, 0)
      ensures kind in {WrsSto, WrsNto} && !reserved ==> looks == 0 && trap == 0
      ensures I.Wake(inputs, mtime) ==> trap == 0
      ensures !I.Wake(inputs, mtime) && (kind == Wfi || reserved) ==>
        RunsOutWith(kind, inputs, trap) && (!cycleClock ==> looks == 10 && ticks == old(ticks) + 10)
    {
      hide RunsOutWith;
      hide I.Wake, TickHart, TimeoutTrap, EnablesGood, CountsInstret;
      ghost var i0, t0 := inputs, mtime;
      var remaining := if cycleClock then 0 else MAX_WAIT_TICKS;
      if !cycleClock {
        ClockTick();
      }
      trap, looks := 0, 0;
      while true
        invariant Valid() && 0 <= remaining && trap == 0 && (kind != Wfi && !reserved ==> looks == 0)
        invariant if cycleClock then remaining == looks == 0 && inputs == i0 && mtime == t0 && ticks == old(ticks)
          else && looks + remaining == MAX_WAIT_TICKS && (inputs, mtime) == WaitState(i0, t0, looks)
               && ticks - old(ticks) == Min(looks + 1, MAX_WAIT_TICKS)
               && forall m | 0 <= m < looks :: LookNumber(kind, i0, reserved, t0, m).GoesOn?
        decreases remaining
      {
        assert !cycleClock ==>
          LookNumber(kind, i0, reserved, t0, looks) == LookAt(kind, inputs, reserved, mtime, remaining);
        RefreshCounterEnables();
        GoodEnables(counters, inputs.regs, inputs.extH, epoch);
        SameEnables(counters, counters.(increment := counters.instret), inputs.regs, inputs.extH, epoch);
        counters := counters.(increment := counters.instret);
        if I.Wake(inputs, mtime) {
          break;
        }
        if kind != Wfi && !reserved {
          break;
        }
        if remaining == 0 {
          trap := TimeoutTrap(kind, inputs);
          break;
        }
        remaining := remaining - 1;
        looks := looks + 1;
        if remaining > 0 {
          ClockTick();
        }
      }
      LookIsThat(kind, inputs, reserved, mtime, remaining, Ends(trap));
    }
  }

  lemma GoodEnables(c: Counters, r: Regs, extH: bool, epoch: nat)
    requires EnablesGood(c, r, extH, epoch) && c.key == Keyed(r, epoch)
    ensures c.instret == CountsInstret(r, extH) && c.cycle == CountsCycle(r, extH)
  {
  }

  lemma SameEnables(c: Counters, d: Counters, r: Regs, extH: bool, epoch: nat)
    requires c.key == d.key && c.instret == d.instret && c.cycle == d.cycle
    ensures EnablesGood(c, r, extH, epoch) == EnablesGood(d, r, extH, epoch)
  {
  }
}
