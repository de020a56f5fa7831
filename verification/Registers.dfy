/** One hart's CSRs, privilege and virtualisation mode, and the two generations that say what has
    changed: `stateGen` (this hart's, keys the translation and counter caches) and the machine-wide
    event counter (keys the interrupt decision).

    `Regs` is the register file as a value with the operations as functions on it; the class is
    the object the emulator updates in place, proved against those functions. */
module Registers {
  import opened Words

  datatype PrivMode = U | S | M

  function Code(p: PrivMode): nat {
    match p
    case U => 0
    case S => 1
    case M => 3
  }

  // mstatus fields, by weight.
  const MPRV: nat := 0x2_0000
  const SUM: nat := 0x4_0000
  const MXR: nat := 0x8_0000
  const TVM: nat := 0x10_0000
  const UBE: nat := 0x40
  const SBE: nat := 0x10_0000_0000
  const MBE: nat := 0x20_0000_0000
  const GVA: nat := 0x40_0000_0000
  const MPV: nat := 0x80_0000_0000

  function Mpp(mstatus: nat): nat {
    mstatus / 0x800 % 4
  }

  const MSTATUS: nat := 0x300
  const STIMECMP: nat := 0x14D
  const MCYCLE: nat := 0xB00
  const MINSTRET: nat := 0xB02
  const CSRS: nat := 4096

  type CsrFile = s: seq<nat> | |s| == CSRS witness seq(CSRS, _ => 0)

  /** The CSRs whose writes move neither generation. */
  predicate Exempt(addr: nat) {
    || 0x140 <= addr <= 0x143 || 0x340 <= addr <= 0x343   // scratch, epc, cause, tval of S and M
    || 0x001 <= addr <= 0x003 || 0x008 <= addr <= 0x00A   // floating-point and vector status
    || 0xC00 <= addr <= 0xC02                             // cycle, time, instret
  }

  /** Whether two mstatus values differ in a bit some stateGen-keyed decision reads. */
  predicate KeyedDiffers(old_: nat, new_: nat) {
    || Has(old_, MPRV) != Has(new_, MPRV)
    || ((Has(old_, MPRV) || Has(new_, MPRV)) && (Mpp(old_) != Mpp(new_) || Has(old_, MPV) != Has(new_, MPV)))
    || Has(old_, TVM) != Has(new_, TVM) || Has(old_, UBE) != Has(new_, UBE)
    || Has(old_, SBE) != Has(new_, SBE) || Has(old_, MBE) != Has(new_, MBE)
    || Has(old_, GVA) != Has(new_, GVA)
  }

  datatype Regs = Regs(csr: CsrFile, priv: PrivMode, virt: bool, stateGen: nat, eventGen: nat) {

    function WriteCsr(addr: nat, value: nat): Regs
      requires addr < CSRS
    {
      var same := csr[addr] == value;
      var bumpState :=
        if addr == MSTATUS then KeyedDiffers(csr[addr], value)
        else !same && !Exempt(addr) && addr != STIMECMP;
      var bumpEvent := !same && !Exempt(addr);
      this.(csr := csr[addr := value],
            stateGen := if bumpState then stateGen + 1 else stateGen,
            eventGen := if bumpEvent then eventGen + 1 else eventGen)
    }

    function SetPriv(mode: PrivMode): Regs {
      this.(priv := mode, eventGen := eventGen + 1)
    }

    function SetVirt(v: bool): Regs {
      this.(virt := v, stateGen := stateGen + 1, eventGen := eventGen + 1)
    }

    /** A counter's own increment: not a write, so no generation moves. */
    function CsrAdd(addr: nat, n: nat): Regs
      requires addr < CSRS
    {
      this.(csr := csr[addr := (csr[addr] + n) % TWO64])
    }
  }

  // ---- The object -----------------------------------------------------------

  class EventCounter {
    var gen: nat
    constructor ()
      ensures gen == 0
    {
      gen := 0;
    }
  }

  class RegisterFile {
    const csr: array<nat>
    const events: EventCounter
    var priv: PrivMode
    var virt: bool
    var stateGen: nat

    ghost predicate Valid() {
      csr.Length == CSRS
    }

    ghost function View(): Regs
      requires Valid()
      reads this, csr, events
    {
      Regs(csr[..], priv, virt, stateGen, events.gen)
    }

    constructor (events: EventCounter)
      ensures Valid() && fresh(csr) && this.events == events
      ensures View() == Regs(seq(CSRS, _ => 0), M, false, 0, events.gen)
    {
      csr := new nat[CSRS](_ => 0);
      this.events := events;
      priv, virt, stateGen := M, false, 0;
    }

    method WriteCsr(addr: nat, value: nat)
      requires Valid() && addr < CSRS
      modifies this, csr, events
      ensures View() == old(View()).WriteCsr(addr, value)
    {
      if addr == MSTATUS {
        var before := csr[addr];
        csr[addr] := value;
        if KeyedDiffers(before, value) {
          stateGen := stateGen + 1;
        }
        if before != value {
          events.gen := events.gen + 1;
        }
        return;
      }
      var same := csr[addr] == value;
      csr[addr] := value;
      var interrupts := !same;
      if Exempt(addr) {
        interrupts := false;
      } else if addr != STIMECMP && !same {
        stateGen := stateGen + 1;
      }
      if interrupts {
        events.gen := events.gen + 1;
      }
    }

    method SetPriv(mode: PrivMode)
      requires Valid()
      modifies this, events
      ensures View() == old(View()).SetPriv(mode)
    {
      priv := mode;
      events.gen := events.gen + 1;
    }

    method SetVirt(v: bool)
      requires Valid()
      modifies this, events
      ensures View() == old(View()).SetVirt(v)
    {
      virt := v;
      stateGen := stateGen + 1;
      events.gen := events.gen + 1;
    }

    method CsrAdd(addr: nat, n: nat)
      requires Valid() && addr < CSRS
      modifies csr
      ensures View() == old(View()).CsrAdd(addr, n)
    {
      csr[addr] := (csr[addr] + n) % TWO64;
    }
  }

  // ---- Runs -------------------------------------------------------------------

  datatype RegOp =
    | Write(addr: nat, value: nat)
    | Priv(mode: PrivMode)
    | Virt(v: bool)
    | Count(addr: nat, n: nat)   // bump_csr, csr_add

  predicate LegalOp(op: RegOp) {
    match op
    case Write(addr, _) => addr < CSRS
    case Count(addr, _) => addr == MCYCLE || addr == MINSTRET
    case _ => true
  }

  function Apply(r: Regs, op: RegOp): Regs
    requires LegalOp(op)
  {
    match op
    case Write(addr, value) => r.WriteCsr(addr, value)
    case Priv(mode) => r.SetPriv(mode)
    case Virt(v) => r.SetVirt(v)
    case Count(addr, n) => r.CsrAdd(addr, n)
  }

  function Run(r: Regs, ops: seq<RegOp>): Regs
    requires forall op <- ops :: LegalOp(op)
    decreases |ops|
  {
    if ops == [] then r else Run(Apply(r, ops[0]), ops[1..])
  }

  /** A CSR that some decision keyed on stateGen may read in full: every CSR but the exempt ones, the
      two running counters, stimecmp and mstatus. */
  predicate StateCsr(addr: nat) {
    addr < CSRS && !Exempt(addr) && addr != MSTATUS && addr != STIMECMP && addr != MCYCLE && addr != MINSTRET
  }

  ghost predicate SameState(a: Regs, b: Regs)
  {
    && a.virt == b.virt
    && !KeyedDiffers(a.csr[MSTATUS], b.csr[MSTATUS])
    && forall addr: nat | StateCsr(addr) :: a.csr[addr] == b.csr[addr]
  }

  ghost predicate SameEvents(a: Regs, b: Regs)
  {
    && a.virt == b.virt && a.priv == b.priv
    && forall addr: nat | (StateCsr(addr) || addr == MSTATUS || addr == STIMECMP) :: a.csr[addr] == b.csr[addr]
  }

  lemma {:induction false} GenerationsOnlyGrow(r: Regs, ops: seq<RegOp>)
    requires forall op <- ops :: LegalOp(op)
    ensures r.stateGen <= Run(r, ops).stateGen
    ensures r.eventGen <= Run(r, ops).eventGen
    decreases |ops|
  {
    if ops != [] {
      GenerationsOnlyGrow(Apply(r, ops[0]), ops[1..]);
    }
  }

  /** Over any run, an unmoved stateGen means that nothing keyed on it has changed. */
  lemma {:induction false} SameStateGenSameState(r: Regs, ops: seq<RegOp>)
    requires forall op <- ops :: LegalOp(op)
    requires Run(r, ops).stateGen == r.stateGen
    ensures SameState(r, Run(r, ops))
    decreases |ops|
  {
    if ops != [] {
      var next := Apply(r, ops[0]);
      GenerationsOnlyGrow(next, ops[1..]);
      SameStateGenSameState(next, ops[1..]);
    }
  }

  /** Over any run, an unmoved event counter means that the privilege, V and every CSR an interrupt
      decision can read are what they were. */
  lemma {:induction false} SameEventGenSameEvents(r: Regs, ops: seq<RegOp>)
    requires forall op <- ops :: LegalOp(op)
    requires Run(r, ops).eventGen == r.eventGen
    ensures SameEvents(r, Run(r, ops))
    decreases |ops|
  {
    if ops != [] {
      var next := Apply(r, ops[0]);
      GenerationsOnlyGrow(next, ops[1..]);
      SameEventGenSameEvents(next, ops[1..]);
    }
  }
}
