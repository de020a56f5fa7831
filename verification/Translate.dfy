/** mmu_translate without its TLB: the effective privilege, pointer masking, and the walk -- and the
    keys under which an answer may be kept. */
module Translate {
  import opened Words
  import opened Registers
  import opened PageTables
  import P = Pmp

  /** What the machine has. ShadowStack accesses exist as a type; the extension itself is off. */
  datatype Ext = Ext(svpbmt: bool, svnapot: bool, smpmp: bool, ssnpm: bool, pmp: P.PmpConfig)

  const SATP: nat := 0x180
  const MENVCFG: nat := 0x30A
  const SENVCFG: nat := 0x10A
  const MSECCFG: nat := 0x747
  const ADUE: nat := 0x2000_0000_0000_0000
  const PBMTE: nat := 0x4000_0000_0000_0000

  /** The CSRs a PMP check reads, and no others. */
  function PmpView(csr: CsrFile): CsrFile {
    seq(CSRS, i requires 0 <= i < CSRS => if P.IsPmpCsr(i) then csr[i] else 0)
  }

  lemma PmpViewChecks(c: P.PmpConfig, csr: CsrFile, paddr: nat, size: nat, access: P.Access, priv: PrivMode)
    ensures P.Check(c, PmpView(csr), paddr, size, access, priv) == P.Check(c, csr, paddr, size, access, priv)
  {
    P.CheckReadsPmpCsrs(c, PmpView(csr), csr, 0, paddr, paddr + if size > 0 then size - 1 else 0, access, priv);
  }

  function EnvOf(x: Ext, csr: CsrFile): Env {
    Env(csr[SATP] / 0x1000_0000_0000_0000, csr[SATP] % 0x1000_0000_0000,
        Has(csr[MENVCFG], ADUE), x.svpbmt && Has(csr[MENVCFG], PBMTE), x.svpbmt, x.svnapot, x.smpmp, x.pmp,
        PmpView(csr))
  }

  function PrivOf(mpp: nat): PrivMode {
    match mpp
    case 0 => U
    case 3 => M
    case _ => S   // 2 is never stored
  }

  /** mstatus.MPRV makes an M-mode load or store one of mstatus.MPP; a fetch never. */
  function EffPriv(r: Regs, t: AccessType): PrivMode {
    if t != Fetch && r.priv == M && Has(r.csr[MSTATUS], MPRV) then PrivOf(Mpp(r.csr[MSTATUS])) else r.priv
  }

  function CtxOf(r: Regs, t: AccessType): Ctx {
    Ctx(EffPriv(r, t) == U, Has(r.csr[MSTATUS], SUM), Has(r.csr[MSTATUS], MXR))
  }

  /** The address whose top bits are the sign extension of the `half`-weight bit. */
  function SignExtend(va: nat, half: nat): nat
    requires 0 < half < TWO64
  {
    var low := va % (2 * half);
    if low >= half && TWO64 >= 2 * half then low + TWO64 - 2 * half else low
  }

  function PointerMask(x: Ext, r: Regs, va: nat, t: AccessType): nat {
    var p := EffPriv(r, t);
    if t == Fetch || !x.ssnpm || (p != M && Has(r.csr[MSTATUS], MXR)) then va
    else
      var pmm := match p
        case U => r.csr[SENVCFG] / 0x1_0000_0000 % 4
        case S => r.csr[MENVCFG] / 0x1_0000_0000 % 4
        case M => r.csr[MSECCFG] / 0x1_0000_0000 % 4;
      match pmm
      case 2 => SignExtend(va, 0x100_0000_0000_0000)
      case 3 => SignExtend(va, 0x8000_0000_0000)
      case _ => va
  }

  datatype Answer = Trap(cause: nat, tval: nat) | Address(paddr: nat)

  function Answered(o: Outcome, va: nat): Answer {
    match o
    case Fault(cause) => Trap(cause, va)
    case Ok(paddr, _, _) => Address(paddr)
  }

  /** A translation that page tables have no part in. */
  predicate Untranslated(x: Ext, r: Regs, t: AccessType) {
    EffPriv(r, t) == M || EnvOf(x, r.csr).mode == 0
  }

  function Direct(va: nat, t: AccessType): Answer {
    if t == ShadowStack then Trap(AccessFault(Store), va) else Address(va)
  }

  /** The translation, and the page tables after it. */
  function Translation(x: Ext, r: Regs, mem: Mem, vaddr: nat, t: AccessType): (Answer, Mem) {
    var va := PointerMask(x, r, vaddr, t);
    if Untranslated(x, r, t) then (Direct(va, t), mem)
    else
      var w := Walk(EnvOf(x, r.csr), mem, va, t, CtxOf(r, t));
      (Answered(w.outcome, va), w.mem)
  }

  // ---- Keys ---------------------------------------------------------------------------------------

  /** A moment of a run, as far as the caches' keys can tell: the registers, the TLB generation and the
      extension epoch, with the extensions enabled then. */
  datatype Moment = Moment(r: Regs, tlbGen: nat, epoch: nat, x: Ext)

  function Generation(m: Moment): nat {
    m.r.stateGen + m.tlbGen + m.epoch
  }

  function FetchKey(m: Moment): nat {
    Generation(m) * 16 + Code(m.r.priv)
  }

  function DataKey(m: Moment): nat {
    Generation(m) * 16 + m.r.csr[MSTATUS] / SUM % 4 * 4 + Code(m.r.priv)
  }

  /** `b` is a later moment of the run `a` is from: CSR operations, TLB flushes, and changes of the
      extension set, each of which bumps the epoch. */
  ghost predicate Later(a: Moment, b: Moment, ops: seq<RegOp>) {
    && (forall op <- ops :: LegalOp(op)) && b.r == Run(a.r, ops)
    && a.tlbGen <= b.tlbGen && a.epoch <= b.epoch && (a.epoch == b.epoch ==> a.x == b.x)
  }

  /** A sum of counters that only grow stands still only if each does. */
  lemma SameGenerationSameState(a: Moment, b: Moment, ops: seq<RegOp>)
    requires Later(a, b, ops) && Generation(a) == Generation(b)
    ensures SameState(a.r, b.r) && a.x == b.x && a.tlbGen == b.tlbGen && a.r.stateGen == b.r.stateGen
  {
    GenerationsOnlyGrow(a.r, ops);
    SameStateGenSameState(a.r, ops);
  }

  lemma SameStateSameEnv(x: Ext, a: Regs, b: Regs)
    requires SameState(a, b)
    ensures EnvOf(x, a.csr) == EnvOf(x, b.csr)
  {
  }

  lemma SumAndMxr(v: nat)
    ensures Has(v, SUM) == (v / SUM % 4 % 2 == 1) && Has(v, MXR) == (v / SUM % 4 / 2 == 1)
  {
    assert v / MXR == v / SUM / 2;
    TwoBits(v / SUM);
  }

  lemma TwoBits(q: nat)
    ensures q % 4 % 2 == q % 2 && q % 4 / 2 == q / 2 % 2
  {
  }

  /** Equal data keys at two moments of a run mean equal answers to every load, store and AMO, over the
      same page tables. */
  lemma SameDataKeySameTranslation(a: Moment, b: Moment, ops: seq<RegOp>, mem: Mem, va: nat, t: AccessType)
    requires Later(a, b, ops) && DataKey(a) == DataKey(b) && t != Fetch
    ensures Translation(a.x, a.r, mem, va, t) == Translation(b.x, b.r, mem, va, t)
  {
    hide Walk, EnvOf, SameState, Later;
    assert Generation(a) == Generation(b) && a.r.priv == b.r.priv
        && a.r.csr[MSTATUS] / SUM % 4 == b.r.csr[MSTATUS] / SUM % 4;
    SameGenerationSameState(a, b, ops);
    SameStateSameEnv(a.x, a.r, b.r);
    SumAndMxr(a.r.csr[MSTATUS]);
    SumAndMxr(b.r.csr[MSTATUS]);
    SameStateSameContext(a.r, b.r, t);
    SameStateSameMask(a.x, a.r, b.r, va, t);
  }

  lemma SameStateSameContext(a: Regs, b: Regs, t: AccessType)
    requires SameState(a, b) && a.priv == b.priv
    ensures EffPriv(a, t) == EffPriv(b, t)
  {
  }

  lemma SameStateSameMask(x: Ext, a: Regs, b: Regs, va: nat, t: AccessType)
    requires SameState(a, b) && a.priv == b.priv && Has(a.csr[MSTATUS], MXR) == Has(b.csr[MSTATUS], MXR)
    ensures PointerMask(x, a, va, t) == PointerMask(x, b, va, t)
  {
  }

  /** Equal fetch keys mean equal answers to every fetch, whatever SUM and MXR have become. */
  lemma SameFetchKeySameTranslation(a: Moment, b: Moment, ops: seq<RegOp>, mem: Mem, va: nat)
    requires Later(a, b, ops) && FetchKey(a) == FetchKey(b)
    ensures Translation(a.x, a.r, mem, va, Fetch) == Translation(b.x, b.r, mem, va, Fetch)
  {
    hide EnvOf, SameState, Later, Walk;
    assert Generation(a) == Generation(b) && a.r.priv == b.r.priv;
    SameGenerationSameState(a, b, ops);
    SameStateSameEnv(a.x, a.r, b.r);
    FetchIgnoresSumAndMxr(EnvOf(a.x, a.r.csr), mem, va, CtxOf(a.r, Fetch), CtxOf(b.r, Fetch));
  }

  lemma FetchIgnoresSumAndMxr(e: Env, mem: Mem, va: nat, c: Ctx, d: Ctx)
    requires c.user == d.user
    ensures Walk(e, mem, va, Fetch, c) == Walk(e, mem, va, Fetch, d)
  {
  }
}
