/** The debugger's own page walk: it reads the guest's page tables, sets nothing and checks no
    permission, and must find where the guest's own accesses go. */
module GdbWalk {
  import opened Words
  import opened Registers
  import opened PageTables
  import opened Translate

  /** The frame number with zeros where a leaf at `level` takes them from the address. */
  function FrameDown(ppn: nat, level: nat): nat {
    match level
    case 0 => ppn
    case 1 => ppn / 0x200 * 0x200
    case 2 => ppn / 0x4_0000 * 0x4_0000
    case 3 => ppn / 0x800_0000 * 0x800_0000
    case _ => ppn / 0x10_0000_0000 * 0x10_0000_0000
  }

  function LeafFrame(pte: nat, va: nat, level: nat): nat {
    if Napot(pte) && level == 0 then Ppn(pte) - Ppn(pte) % 16 + va / 0x1000 % 16 else Ppn(pte)
  }

  function LeafAddress(pte: nat, va: nat, level: nat): nat {
    FrameDown(LeafFrame(pte, va, level), level) * 0x1000 + Offset(va, level)
  }

  /** What the descent finds from `level` on. */
  function Look(mem: Mem, va: nat, level: nat, table: nat): Option<nat>
    decreases level
  {
    var addr := PteAddr(table, va, level);
    if addr !in mem || !Has(mem[addr], V) then None
    else if IsLeaf(mem[addr]) then Some(LeafAddress(mem[addr], va, level))
    else if level == 0 then None
    else Look(mem, va, level - 1, Ppn(mem[addr]) * 0x1000)
  }

  const VSATP: nat := 0x280
  const HGATP: nat := 0x680

  /** What is found from the root that satp, or vsatp, names. */
  function SeenFrom(satp: nat, mem: Mem, va: nat): Option<nat> {
    var mode := satp / 0x1000_0000_0000_0000;
    if mode == 0 then Some(va)
    else if mode < 8 || mode > 10 then None
    else Look(mem, va, mode - 6, satp % 0x1000_0000_0000 * 0x1000)
  }

  /** A guest's address is found only if its second stage is bare: its physical addresses are then the
      machine's. */
  function Seen(r: Regs, mem: Mem, va: nat): Option<nat> {
    if r.priv == M then Some(va)
    else if !r.virt then SeenFrom(r.csr[SATP], mem, va)
    else if r.csr[HGATP] / 0x1000_0000_0000_0000 != 0 then None
    else SeenFrom(r.csr[VSATP], mem, va)
  }

  method WalkFrom(satp: nat, mem: Mem, va: nat) returns (found: bool, paddr: nat)
    ensures SeenFrom(satp, mem, va) == if found then Some(paddr) else None
  {
    hide Has, Ppn, PteAddr, LeafAddress;
    var mode := satp / 0x1000_0000_0000_0000;
    if mode == 0 {
      return true, va;
    }
    if mode < 8 || mode > 10 {
      return false, va;
    }
    var levels := mode - 5;
    var table: nat := satp % 0x1000_0000_0000 * 0x1000;
    var level := levels - 1;
    while level >= 0
      invariant -1 <= level < levels
      invariant SeenFrom(satp, mem, va) == if level >= 0 then Look(mem, va, level, table) else None
    {
      var addr := PteAddr(table, va, level);
      if addr !in mem {
        return false, va;
      }
      var pte := mem[addr];
      if !Has(pte, V) {
        return false, va;
      }
      if Has(pte, R) || Has(pte, X) {
        return true, LeafAddress(pte, va, level);
      }
      table := Ppn(pte) * 0x1000;
      level := level - 1;
    }
    return false, va;
  }

  /** gdb_translate. */
  method GdbTranslate(r: Regs, mem: Mem, va: nat) returns (found: bool, paddr: nat)
    ensures Seen(r, mem, va) == if found then Some(paddr) else None
  {
    hide SeenFrom;
    if r.priv == M {
      return true, va;
    }
    if r.virt {
      if r.csr[HGATP] / 0x1000_0000_0000_0000 != 0 {
        return false, va;
      }
      found, paddr := WalkFrom(r.csr[VSATP], mem, va);
      return;
    }
    found, paddr := WalkFrom(r.csr[SATP], mem, va);
  }

  /** The guest's descent and the debugger's meet the same leaf. */
  lemma {:induction false} SameLeafSeen(e: Env, mem: Mem, va: nat, level: nat, table: nat)
    requires FindLeaf(e, mem, va, level, table).Found?
    ensures var leaf := FindLeaf(e, mem, va, level, table);
      Look(mem, va, level, table) == Some(LeafAddress(leaf.pte, va, leaf.level))
    decreases level
  {
    hide WalkMayRead, PtrOk, Ppn, PteAddr, Has, LeafAddress;
    var addr := PteAddr(table, va, level);
    if !IsLeaf(mem[addr]) {
      SameLeafSeen(e, mem, va, level - 1, Ppn(mem[addr]) * 0x1000);
    }
  }

  /** And place the page alike, Svnapot pages and superpages included. */
  lemma SamePlaceSeen(e: Env, pte: nat, va: nat, level: nat, t: AccessType, updated: bool)
    requires Place(e, pte, va, level, t, updated).Ok?
    ensures Place(e, pte, va, level, t, updated).paddr == LeafAddress(pte, va, level)
  {
  }

  lemma CleanWalkSeen(e: Env, mem: Mem, va: nat, t: AccessType, ctx: Ctx)
    requires Levels(e.mode) > 0 && Walk(e, mem, va, t, ctx).outcome.Ok?
    ensures Look(mem, va, Levels(e.mode) - 1, e.root * 0x1000) == Some(Walk(e, mem, va, t, ctx).outcome.paddr)
  {
    hide FindLeaf, Look, Canonical, PermOk, UserOk, HasAD, WalkMayWrite, Place, LeafAddress, SetAD;
    var levels := Levels(e.mode);
    var leaf := FindLeaf(e, mem, va, levels - 1, e.root * 0x1000);
    SameLeafSeen(e, mem, va, levels - 1, e.root * 0x1000);
    SetADKeeps(leaf.pte, t);
    SameEntrySeen(leaf.pte, SetAD(leaf.pte, t), va, leaf.level);
    if HasAD(leaf.pte, t) {
      SamePlaceSeen(e, leaf.pte, va, leaf.level, t, false);
    } else {
      SamePlaceSeen(e, SetAD(leaf.pte, t), va, leaf.level, t, true);
    }
  }

  lemma SameEntrySeen(p: nat, q: nat, va: nat, level: nat)
    requires p / 1024 == q / 1024
    ensures LeafAddress(p, va, level) == LeafAddress(q, va, level)
  {
  }

  /** Wherever the program's own access goes, the debugger sees it -- before the access sets A and D, and
      after. */
  lemma DebuggerSeesTranslation(x: Ext, r: Regs, mem: Mem, va: nat, t: AccessType)
    requires Translation(x, r, mem, va, t).0.Address?
    requires !r.virt && EffPriv(r, t) == r.priv && PointerMask(x, r, va, t) == va
    requires r.csr[SATP] / 0x1000_0000_0000_0000 in {0, 8, 9, 10}
    ensures var (answer, after) := Translation(x, r, mem, va, t);
      Seen(r, mem, va) == Some(answer.paddr) && Seen(r, after, va) == Some(answer.paddr)
  {
    hide Walk, Look, PointerMask, EffPriv, PmpView;
    if !Untranslated(x, r, t) {
      var e, ctx := EnvOf(x, r.csr), CtxOf(r, t);
      CleanWalkSeen(e, mem, va, t, ctx);
      WalkAgain(e, mem, va, t, ctx);
      CleanWalkSeen(e, Walk(e, mem, va, t, ctx).mem, va, t, ctx);
    }
  }

  /** A guest whose second stage is bare (hgatp, 0x680, of mode 0) is seen as the host would be with the guest's vsatp
      (0x280) for its satp (0x180); and no other guest is seen at all. */
  lemma GuestSeenAsHost(r: Regs, mem: Mem, va: nat)
    requires r.priv != M && r.virt
    ensures Seen(r, mem, va) ==
      if r.csr[0x680] / 0x1000_0000_0000_0000 == 0
      then Seen(r.(virt := false, csr := r.csr[0x180 := r.csr[0x280]]), mem, va) else None
  {
    hide SeenFrom;
  }
}
