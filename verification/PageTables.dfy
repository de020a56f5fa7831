/** The single-stage page-table walk of mmu_translate (Sv39, Sv48, Sv57: sections 4.3.2 and 4.4 to 4.6
    of the RISC-V Privileged Architecture 1.12), with Svadu, Svpbmt and Svnapot, on a machine with the
    hypervisor and shadow-stack extensions off.

    Memory is the RAM words page tables live in, by byte address; every address a walk reads is a
    multiple of eight. */
module PageTables {
  import opened Words
  import opened Registers
  import P = Pmp

  datatype AccessType = Fetch | Load | Store | Amo | CacheBlock | ShadowStack

  function TypeCode(t: AccessType): nat {
    match t
    case Fetch => 0
    case Load => 1
    case Store => 2
    case Amo => 3
    case CacheBlock => 4
    case ShadowStack => 5
  }

  type Mem = map<nat, nat>

  /** What a walk reads besides the page tables: satp, the envcfg enables, the extensions, and PMP for
      its own accesses. */
  datatype Env = Env(mode: nat, root: nat, adue: bool, pbmte: bool, svpbmt: bool, svnapot: bool,
                     smpmp: bool, pmp: P.PmpConfig, csr: CsrFile)

  /** The effective privilege of the access, and mstatus.SUM and MXR. */
  datatype Ctx = Ctx(user: bool, sum: bool, mxr: bool)

  function Levels(mode: nat): nat {
    match mode
    case 8 => 3
    case 9 => 4
    case 10 => 5
    case _ => 0
  }

  /** The number of the page of a level -- 4 KB, 2 MB, 1 GB, 512 GB or 256 TB -- holding `va`. */
  function PageNo(va: nat, level: nat): nat {
    var frame := va / 0x1000;
    match level
    case 0 => frame
    case 1 => frame / 0x200
    case 2 => frame / 0x4_0000
    case 3 => frame / 0x800_0000
    case _ => frame / 0x10_0000_0000
  }

  /** The low 12 + 9 * level bits of `va`: frames within the page, and bytes within the frame. */
  function Offset(va: nat, level: nat): nat {
    FrameOffset(va / 0x1000, level) * 0x1000 + va % 0x1000
  }

  function FrameOffset(frame: nat, level: nat): nat {
    match level
    case 0 => 0
    case 1 => frame % 0x200
    case 2 => frame % 0x4_0000
    case 3 => frame % 0x800_0000
    case _ => frame % 0x10_0000_0000
  }

  /** Whether a frame number has zeros where a leaf at `level` takes them from the address. */
  predicate AlignedPpn(ppn: nat, level: nat) {
    match level
    case 0 => true
    case 1 => ppn % 0x200 == 0
    case 2 => ppn % 0x4_0000 == 0
    case 3 => ppn % 0x800_0000 == 0
    case _ => ppn % 0x10_0000_0000 == 0
  }

  /** The top half-range of a canonical address: 2^38, 2^47 or 2^56. */
  function HalfSpace(levels: nat): nat {
    match levels
    case 3 => 0x40_0000_0000
    case 4 => 0x8000_0000_0000
    case _ => 0x100_0000_0000_0000
  }

  predicate Canonical(va: nat, levels: nat) {
    va < HalfSpace(levels) || TWO64 - HalfSpace(levels) <= va < TWO64
  }

  // ---- Page-table entries ------------------------------------------------------------------

  const V: nat := 1
  const R: nat := 2
  const W: nat := 4
  const X: nat := 8
  const U_BIT: nat := 16
  const A: nat := 64
  const D: nat := 128

  function Ppn(pte: nat): nat {
    pte / 1024 % 0x1000_0000_0000
  }

  function Pbmt(pte: nat): nat {
    pte / 1024 / 0x8_0000_0000_0000 % 4
  }

  function Reserved(pte: nat): nat {
    pte / 1024 / 0x1000_0000_0000 % 128
  }

  predicate Napot(pte: nat) {
    pte / 1024 / 0x20_0000_0000_0000 % 2 == 1
  }

  predicate IsLeaf(pte: nat) {
    Has(pte, R) || Has(pte, X)
  }

  predicate NeedsD(t: AccessType) {
    t == Store || t == Amo
  }

  predicate HasAD(pte: nat, t: AccessType) {
    Has(pte, A) && (NeedsD(t) ==> Has(pte, D))
  }

  function SetAD(pte: nat, t: AccessType): nat {
    var p := if Has(pte, A) then pte else pte + A;
    if NeedsD(t) && !Has(p, D) then p + D else p
  }

  function PageFault(t: AccessType): nat {
    match t
    case Fetch => 12
    case Load => 13
    case _ => 15
  }

  function AccessFault(t: AccessType): nat {
    match t
    case Fetch => 1
    case Load => 5
    case _ => 7
  }

  predicate PermOk(pte: nat, t: AccessType, mxr: bool) {
    match t
    case Fetch => Has(pte, X)
    case Load => Has(pte, R) || (mxr && Has(pte, X))
    case Store => Has(pte, W)
    case Amo => Has(pte, R) && Has(pte, W)
    case CacheBlock => Has(pte, R) || Has(pte, W)
    case ShadowStack => false
  }

  predicate UserOk(pte: nat, t: AccessType, ctx: Ctx) {
    if ctx.user then Has(pte, U_BIT) else Has(pte, U_BIT) ==> t != Fetch && ctx.sum
  }

  // ---- The walk --------------------------------------------------------------------------------

  predicate WalkMayRead(e: Env, addr: nat) {
    e.smpmp ==> P.Check(e.pmp, e.csr, addr, 8, P.Load, S)
  }

  predicate WalkMayWrite(e: Env, addr: nat) {
    e.smpmp ==> P.Check(e.pmp, e.csr, addr, 8, P.Store, S)
  }

  function PteAddr(table: nat, va: nat, level: nat): nat {
    table + PageNo(va, level) % 512 * 8
  }

  /** Why a walk stops short: an access fault on its own read, or a page fault. */
  datatype Leaf = NoAccess | NoPage | Found(pte: nat, level: nat, addr: nat)

  predicate PtrOk(e: Env, pte: nat) {
    !Has(pte, A) && !Has(pte, D) && !Has(pte, U_BIT) && (e.svpbmt ==> Pbmt(pte) == 0)
  }

  function FindLeaf(e: Env, mem: Mem, va: nat, level: nat, table: nat): Leaf
    decreases level
  {
    var addr := PteAddr(table, va, level);
    if addr !in mem || !WalkMayRead(e, addr) then NoAccess
    else
      var pte := mem[addr];
      if !Has(pte, V) || (!Has(pte, R) && Has(pte, W)) then NoPage
      else if IsLeaf(pte) then Found(pte, level, addr)
      else if !PtrOk(e, pte) || level == 0 then NoPage
      else FindLeaf(e, mem, va, level - 1, Ppn(pte) * 0x1000)
  }

  datatype Outcome = Fault(cause: nat) | Ok(paddr: nat, level: nat, updated: bool)

  /** What a walk answers, and the page tables it leaves. */
  datatype Result = Result(outcome: Outcome, mem: Mem)

  /** The frame number with Svnapot's four low bits taken from the address. */
  function FullPpn(pte: nat, va: nat): nat {
    if Napot(pte) then Ppn(pte) - Ppn(pte) % 16 + va / 0x1000 % 16 else Ppn(pte)
  }

  /** The checks that come after A and D are settled, and the address. */
  function Place(e: Env, pte: nat, va: nat, level: nat, t: AccessType, updated: bool): Outcome {
    if Pbmt(pte) == 3 || (Pbmt(pte) != 0 && !e.pbmte) then Fault(PageFault(t))
    else if Reserved(pte) != 0 then Fault(PageFault(t))
    else if Napot(pte) && (!e.svnapot || level != 0 || Ppn(pte) % 16 != 8) then Fault(PageFault(t))
    else if !AlignedPpn(FullPpn(pte, va), level) then Fault(PageFault(t))
    else Ok(FullPpn(pte, va) * 0x1000 + Offset(va, level), level, updated)
  }

  /** Permissions, then A and D, for a leaf that was found. */
  function UseLeaf(e: Env, mem: Mem, va: nat, t: AccessType, ctx: Ctx, pte: nat, level: nat, addr: nat): Result {
    if t == ShadowStack then Result(Fault(if Has(pte, W) then AccessFault(Store) else PageFault(Store)), mem)
    else if !PermOk(pte, t, ctx.mxr) || !UserOk(pte, t, ctx) then Result(Fault(PageFault(t)), mem)
    else if HasAD(pte, t) then Result(Place(e, pte, va, level, t, false), mem)
    else if !e.adue || addr == 0 then Result(Fault(PageFault(t)), mem)
    else if !WalkMayWrite(e, addr) then Result(Fault(AccessFault(t)), mem)
    else Result(Place(e, SetAD(pte, t), va, level, t, true), mem[addr := SetAD(pte, t)])
  }

  function Walk(e: Env, mem: Mem, va: nat, t: AccessType, ctx: Ctx): Result {
    var levels := Levels(e.mode);
    if levels == 0 then Result(Ok(va, 0, false), mem)
    else if !Canonical(va, levels) then Result(Fault(PageFault(t)), mem)
    else
      match FindLeaf(e, mem, va, levels - 1, e.root * 0x1000)
      case NoAccess => Result(Fault(AccessFault(t)), mem)
      case NoPage => Result(Fault(PageFault(t)), mem)
      case Found(pte, level, addr) => UseLeaf(e, mem, va, t, ctx, pte, level, addr)
  }

  // ---- One page, one answer ----------------------------------------------------------------------

  predicate SamePage(a: nat, b: nat) {
    a / 0x1000 == b / 0x1000
  }

  lemma {:induction false} SamePageSameLeaf(e: Env, mem: Mem, a: nat, b: nat, level: nat, table: nat)
    requires SamePage(a, b)
    ensures FindLeaf(e, mem, a, level, table) == FindLeaf(e, mem, b, level, table)
    decreases level
  {
    hide WalkMayRead, Has, PtrOk, Ppn;
    assert PageNo(a, level) == PageNo(b, level);
    if level > 0 {
      var addr := PteAddr(table, a, level);
      if addr in mem {
        SamePageSameLeaf(e, mem, a, b, level - 1, Ppn(mem[addr]) * 0x1000);
      }
    }
  }

  /** Two outcomes that differ only as the low twelve bits of their addresses do. */
  predicate SameBut(a: Outcome, va: nat, b: Outcome, vb: nat) {
    match a
    case Fault(_) => a == b
    case Ok(p, level, updated) =>
      b.Ok? && b.level == level && b.updated == updated
      && p % 0x1000 == va % 0x1000 && b.paddr % 0x1000 == vb % 0x1000 && p / 0x1000 == b.paddr / 0x1000
  }

  lemma SamePagePlace(e: Env, pte: nat, a: nat, b: nat, level: nat, t: AccessType, updated: bool)
    requires SamePage(a, b)
    ensures SameBut(Place(e, pte, a, level, t, updated), a, Place(e, pte, b, level, t, updated), b)
  {
    hide Ppn, Napot, Pbmt, Reserved, PageFault, AlignedPpn, FrameOffset;
    assert FullPpn(pte, a) == FullPpn(pte, b);
  }

  /** One page, one answer: this is what lets a page's translation be kept. */
  lemma SamePageSameWalk(e: Env, mem: Mem, a: nat, b: nat, t: AccessType, ctx: Ctx)
    requires SamePage(a, b) && b < TWO64
    requires Levels(e.mode) > 0
    ensures SameBut(Walk(e, mem, a, t, ctx).outcome, a, Walk(e, mem, b, t, ctx).outcome, b)
    ensures Walk(e, mem, a, t, ctx).mem == Walk(e, mem, b, t, ctx).mem
  {
    hide FindLeaf, UseLeaf, SameBut;
    var levels := Levels(e.mode);
    assert Canonical(a, levels) == Canonical(b, levels);
    SamePageSameLeaf(e, mem, a, b, levels - 1, e.root * 0x1000);
    var leaf := FindLeaf(e, mem, a, levels - 1, e.root * 0x1000);
    SameButFault(a, b, t);
    if Canonical(a, levels) && leaf.Found? {
      SamePageUse(e, mem, a, b, t, ctx, leaf.pte, leaf.level, leaf.addr);
    }
  }

  lemma SamePageUse(e: Env, mem: Mem, a: nat, b: nat, t: AccessType, ctx: Ctx, pte: nat, level: nat, addr: nat)
    requires SamePage(a, b)
    ensures var p, q := UseLeaf(e, mem, a, t, ctx, pte, level, addr), UseLeaf(e, mem, b, t, ctx, pte, level, addr);
      SameBut(p.outcome, a, q.outcome, b) && p.mem == q.mem
  {
    hide Place, HasAD, SetAD, PermOk, UserOk, WalkMayWrite;
    SamePagePlace(e, pte, a, b, level, t, false);
    SamePagePlace(e, SetAD(pte, t), a, b, level, t, true);
  }

  lemma SameButFault(a: nat, b: nat, t: AccessType)
    ensures SameBut(Fault(PageFault(t)), a, Fault(PageFault(t)), b)
      && SameBut(Fault(AccessFault(t)), a, Fault(AccessFault(t)), b)
  {
  }

  // ---- A and D --------------------------------------------------------------------------------------

  /** Setting A and D changes nothing else in an entry. */
  lemma SetADKeeps(pte: nat, t: AccessType)
    ensures var p := SetAD(pte, t);
      SameLowFlags(p, pte) && p / 1024 == pte / 1024 && Has(p, A) && (Has(pte, D) || NeedsD(t) ==> Has(p, D))
  {
    hide Has, SameLowFlags;
    var p := if Has(pte, A) then pte else pte + A;
    FlagsAfter(pte);
    FlagsAfter(p);
    LowFlagsAfter(pte);
    LowFlagsAfter(p);
    if !Has(pte, A) {
      HighAfterA(pte);
    }
    if !Has(p, D) {
      HighAfterD(p);
    }
    SameLowFlagsTransitive(SetAD(pte, t), p, pte);
  }

  predicate SameLowFlags(p: nat, q: nat) {
    && Has(p, V) == Has(q, V) && Has(p, R) == Has(q, R) && Has(p, W) == Has(q, W)
    && Has(p, X) == Has(q, X) && Has(p, U_BIT) == Has(q, U_BIT)
  }

  lemma AddKeepsLow(pte: nat)
    ensures SameLowFlags(pte + 64, pte)
  {
    AddKeepsFlags(pte / 4);
    assert (pte + 64) / 4 == pte / 4 + 16;
    assert (pte + 64) / 2 == pte / 2 + 32;
    assert (pte + 64) / 8 == pte / 4 / 2 + 8 && pte / 8 == pte / 4 / 2;
    assert (pte + 64) / 16 == pte / 4 / 4 + 4 && pte / 16 == pte / 4 / 4;
  }

  lemma AddKeepsFlags(v: nat)
    ensures (v + 16) % 2 == v % 2 && (v / 2 + 8) % 2 == v / 2 % 2 && (v / 4 + 4) % 2 == v / 4 % 2
  {
  }

  lemma LowFlagsAfter(pte: nat)
    ensures SameLowFlags(pte, pte) && SameLowFlags(pte + 64, pte) && SameLowFlags(pte + 128, pte)
  {
    AddKeepsLow(pte);
    AddKeepsLow(pte + 64);
  }

  lemma SameLowFlagsTransitive(p: nat, q: nat, r: nat)
    requires SameLowFlags(p, q) && SameLowFlags(q, r)
    ensures SameLowFlags(p, r)
  {
  }

  lemma NoCarryA(pte: nat)
    requires !Has(pte, A)
    ensures (pte + 64) / 128 == pte / 128
  {
  }

  lemma HighAfterA(pte: nat)
    requires !Has(pte, A)
    ensures (pte + 64) / 1024 == pte / 1024 && Has(pte + 64, D) == Has(pte, D)
  {
    NoCarryA(pte);
    assert (pte + 64) / 1024 == (pte + 64) / 128 / 8;
    assert pte / 1024 == pte / 128 / 8;
  }

  lemma NoCarryD(pte: nat)
    requires !Has(pte, D)
    ensures (pte + 128) / 256 == pte / 256
  {
  }

  lemma HighAfterD(pte: nat)
    requires !Has(pte, D)
    ensures (pte + 128) / 1024 == pte / 1024
  {
    NoCarryD(pte);
    assert (pte + 128) / 1024 == (pte + 128) / 256 / 4;
    assert pte / 1024 == pte / 256 / 4;
  }

  lemma FlagsAfter(pte: nat)
    ensures Has(pte + 64, A) == !Has(pte, A) && Has(pte + 128, A) == Has(pte, A) && Has(pte + 128, D) == !Has(pte, D)
  {
  }

  /** `b` is `a` after a walker set A, and perhaps D, in some leaves. */
  ghost predicate OnlyADSet(a: Mem, b: Mem) {
    && a.Keys == b.Keys
    && forall w <- a.Keys :: b[w] == a[w] || (IsLeaf(a[w]) && ADSuperset(a[w], b[w]))
  }

  predicate ADSuperset(p: nat, q: nat) {
    && SameLowFlags(q, p) && q / 1024 == p / 1024
    && (Has(p, A) ==> Has(q, A)) && (Has(p, D) ==> Has(q, D))
  }

  /** A walk changes memory in no other way. */
  lemma WalkOnlySetsAD(e: Env, mem: Mem, va: nat, t: AccessType, ctx: Ctx)
    ensures OnlyADSet(mem, Walk(e, mem, va, t, ctx).mem)
  {
    hide UseLeaf, Canonical, OnlyADSet;
    var levels := Levels(e.mode);
    SameIsOnlyAD(mem);
    if levels > 0 {
      var leaf := FindLeaf(e, mem, va, levels - 1, e.root * 0x1000);
      FoundInMemory(e, mem, va, levels - 1, e.root * 0x1000);
      if leaf.Found? {
        UseOnlySetsAD(e, mem, va, t, ctx, leaf.pte, leaf.level, leaf.addr);
      }
    }
  }

  lemma SameIsOnlyAD(mem: Mem)
    ensures OnlyADSet(mem, mem)
  {
  }

  lemma UseOnlySetsAD(e: Env, mem: Mem, va: nat, t: AccessType, ctx: Ctx, pte: nat, level: nat, addr: nat)
    requires addr in mem && mem[addr] == pte && IsLeaf(pte)
    ensures OnlyADSet(mem, UseLeaf(e, mem, va, t, ctx, pte, level, addr).mem)
  {
    hide Place, HasAD, PermOk, UserOk, WalkMayWrite, SetAD, SameLowFlags;
    SetADKeeps(pte, t);
    assert mem[addr := SetAD(pte, t)].Keys == mem.Keys;
  }

  lemma {:induction false} FoundInMemory(e: Env, mem: Mem, va: nat, level: nat, table: nat)
    ensures var leaf := FindLeaf(e, mem, va, level, table);
      leaf.Found? ==> leaf.addr in mem && mem[leaf.addr] == leaf.pte && IsLeaf(leaf.pte) && leaf.level <= level
    decreases level
  {
    hide PageNo, WalkMayRead, PtrOk, IsLeaf;
    var addr := PteAddr(table, va, level);
    if level > 0 && addr in mem {
      FoundInMemory(e, mem, va, level - 1, Ppn(mem[addr]) * 0x1000);
    }
  }

  /** The walk to a leaf is the same walk, to the same leaf with its A and D. */
  lemma {:induction false} LeafAfterAD(e: Env, a: Mem, b: Mem, va: nat, level: nat, table: nat)
    requires OnlyADSet(a, b)
    ensures var p, q := FindLeaf(e, a, va, level, table), FindLeaf(e, b, va, level, table);
      if p.Found? then q.Found? && q.level == p.level && q.addr == p.addr
        && (q.pte == p.pte || ADSuperset(p.pte, q.pte))
      else q == p
    decreases level
  {
    hide PageNo, WalkMayRead, PtrOk;
    var addr := PteAddr(table, va, level);
    if addr in a {
      assert addr in a.Keys;
      if level > 0 {
        LeafAfterAD(e, a, b, va, level - 1, Ppn(a[addr]) * 0x1000);
      }
    }
  }

  /** A translation that needed no update is not changed by anyone's update. */
  lemma UpdatesKeepTranslations(e: Env, a: Mem, b: Mem, va: nat, t: AccessType, ctx: Ctx)
    requires OnlyADSet(a, b)
    requires Walk(e, a, va, t, ctx).outcome.Ok? && !Walk(e, a, va, t, ctx).outcome.updated
    ensures Walk(e, b, va, t, ctx) == Result(Walk(e, a, va, t, ctx).outcome, b)
  {
    hide FindLeaf, Canonical, UseLeaf, ADSuperset;
    var levels := Levels(e.mode);
    if levels > 0 && Canonical(va, levels) {
      LeafAfterAD(e, a, b, va, levels - 1, e.root * 0x1000);
      var p := FindLeaf(e, a, va, levels - 1, e.root * 0x1000);
      var q := FindLeaf(e, b, va, levels - 1, e.root * 0x1000);
      if p.Found? {
        SameUse(e, a, b, va, t, ctx, p.pte, q.pte, p.level, p.addr);
      }
    }
  }

  lemma SameUse(e: Env, a: Mem, b: Mem, va: nat, t: AccessType, ctx: Ctx, p: nat, q: nat, level: nat, addr: nat)
    requires q == p || ADSuperset(p, q)
    requires var r := UseLeaf(e, a, va, t, ctx, p, level, addr).outcome; r.Ok? && !r.updated
    ensures UseLeaf(e, b, va, t, ctx, q, level, addr) == Result(UseLeaf(e, a, va, t, ctx, p, level, addr).outcome, b)
  {
    hide WalkMayWrite, SetAD;
    SamePlace(e, p, q, va, level, t);
  }

  lemma SamePlace(e: Env, p: nat, q: nat, va: nat, level: nat, t: AccessType)
    requires p / 1024 == q / 1024
    ensures Place(e, p, va, level, t, false) == Place(e, q, va, level, t, false)
  {
  }

  /** The walk after a walk that succeeded: the same address, and nothing more to set. */
  lemma WalkAgain(e: Env, mem: Mem, va: nat, t: AccessType, ctx: Ctx)
    requires Walk(e, mem, va, t, ctx).outcome.Ok?
    ensures var w := Walk(e, mem, va, t, ctx);
      Walk(e, w.mem, va, t, ctx) == Result(w.outcome.(updated := false), w.mem)
  {
    hide FindLeaf, Canonical, UseLeaf, OnlyADSet, SetAD, ADSuperset;
    var levels := Levels(e.mode);
    if levels > 0 {
      var w := Walk(e, mem, va, t, ctx);
      var leaf := FindLeaf(e, mem, va, levels - 1, e.root * 0x1000);
      FoundInMemory(e, mem, va, levels - 1, e.root * 0x1000);
      WalkOnlySetsAD(e, mem, va, t, ctx);
      LeafAfterAD(e, mem, w.mem, va, levels - 1, e.root * 0x1000);
      FoundInMemory(e, w.mem, va, levels - 1, e.root * 0x1000);
      UseAgain(e, mem, va, t, ctx, leaf.pte, leaf.level, leaf.addr);
    }
  }

  lemma UseAgain(e: Env, mem: Mem, va: nat, t: AccessType, ctx: Ctx, pte: nat, level: nat, addr: nat)
    requires addr in mem && mem[addr] == pte && UseLeaf(e, mem, va, t, ctx, pte, level, addr).outcome.Ok?
    ensures var r := UseLeaf(e, mem, va, t, ctx, pte, level, addr);
      addr in r.mem && UseLeaf(e, r.mem, va, t, ctx, r.mem[addr], level, addr)
        == Result(r.outcome.(updated := false), r.mem)
  {
    hide PermOk, UserOk, WalkMayWrite, Place, HasAD, SetAD, SameLowFlags;
    SetADKeeps(pte, t);
    SetADHasAD(pte, t);
    SameFlagsSameRights(SetAD(pte, t), pte, t, ctx);
    SamePlaceUpdated(e, SetAD(pte, t), va, level, t);
    SamePlaceUpdated(e, pte, va, level, t);
  }

  lemma SetADHasAD(pte: nat, t: AccessType)
    ensures HasAD(SetAD(pte, t), t)
  {
    SetADKeeps(pte, t);
  }

  lemma SameFlagsSameRights(p: nat, q: nat, t: AccessType, ctx: Ctx)
    requires SameLowFlags(p, q)
    ensures PermOk(p, t, ctx.mxr) == PermOk(q, t, ctx.mxr) && UserOk(p, t, ctx) == UserOk(q, t, ctx)
  {
  }

  lemma SamePlaceUpdated(e: Env, pte: nat, va: nat, level: nat, t: AccessType)
    ensures var a, b := Place(e, pte, va, level, t, false), Place(e, pte, va, level, t, true);
      if b.Ok? then b.updated && a == b.(updated := false) else a == b
  {
  }

  // ---- What a walk reads ---------------------------------------------------------------------------

  /** The addresses of the entries a descent reads. */
  function Trail(e: Env, mem: Mem, va: nat, level: nat, table: nat): set<nat>
    decreases level
  {
    var addr := PteAddr(table, va, level);
    {addr} + if addr in mem && level > 0 then Trail(e, mem, va, level - 1, Ppn(mem[addr]) * 0x1000) else {}
  }

  lemma {:induction false} SameTrailSameLeaf(e: Env, a: Mem, w: nat, pte: nat, va: nat, level: nat, table: nat)
    requires w in a && w !in Trail(e, a, va, level, table)
    ensures FindLeaf(e, a[w := pte], va, level, table) == FindLeaf(e, a, va, level, table)
    decreases level
  {
    hide WalkMayRead, Has, PtrOk, Ppn, PteAddr, IsLeaf;
    var addr := PteAddr(table, va, level);
    if level > 0 && addr in a {
      SameTrailSameLeaf(e, a, w, pte, va, level - 1, Ppn(a[addr]) * 0x1000);
    }
  }

  /** A store to a word no step of the descent reads leaves the translation alone, apart from the page
      tables it is part of. */
  lemma UnreadWordSameWalk(e: Env, a: Mem, w: nat, pte: nat, va: nat, t: AccessType, ctx: Ctx)
    requires w in a && Levels(e.mode) > 0 && w !in Trail(e, a, va, Levels(e.mode) - 1, e.root * 0x1000)
    ensures Walk(e, a[w := pte], va, t, ctx).outcome == Walk(e, a, va, t, ctx).outcome
  {
    hide FindLeaf, Canonical, PermOk, UserOk, HasAD, WalkMayWrite, Place, SetAD, Trail;
    SameTrailSameLeaf(e, a, w, pte, va, Levels(e.mode) - 1, e.root * 0x1000);
  }
}
