/** The MMU as the object that translates: the walk loop, the TLBs in front of it -- one a hart, the
    selected hart's generation and superpage summary in plain variables -- and the flushes. */
module Mmu {
  import opened Words
  import opened Bits
  import opened BitFlags
  import opened Registers
  import opened PageTables
  import opened Translate
  import opened Tlb
  import P = Pmp
  import PmpShifts

  /** What mmu_select_hart puts away for a hart. */
  datatype Saved = Saved(gen: nat, superpages: set<nat>)

  class Harts {
    const x: Ext
    const idLimit: nat           // one more than the largest ASID
    const ppnLimit: nat          // and than the largest frame number
    const sv48: bool             // whether satp may ask for Sv48, and for Sv57
    const sv57: bool
    const tables: seq<array<Entry>>
    var saved: seq<Saved>
    var cur: nat
    var gen: nat
    var superpages: set<nat>
    var regs: seq<Regs>
    var mem: Mem

    /** Where each hart's entries came from, and what each hart owes: what its TLB rests on has changed,
        and it has not fenced since. */
    ghost var origins: seq<Origins>
    ghost var debts: seq<Debt>

    ghost predicate Shape()
      reads this
    {
      && |saved| == |regs| == |tables| == |origins| == |debts| && cur < |tables|
      && idLimit > 0 && ppnLimit > 0
      && (forall i | 0 <= i < |tables| :: tables[i].Length == TLB_SIZE)
      && (forall i, j | 0 <= i < j < |tables| :: tables[i] != tables[j])
    }

    /** A hart's TLB. */
    ghost function ViewOf(h: nat): View
      requires Shape() && h < |tables|
      reads this, tables
    {
      if h == cur then View(tables[h][..], origins[h], gen, superpages)
      else View(tables[h][..], origins[h], saved[h].gen, saved[h].superpages)
    }

    ghost function EnvFor(h: nat): Env
      requires h < |regs|
      reads this
    {
      EnvOf(x, regs[h].csr)
    }

    /** Every hit a hart can get is what the walk over the present page tables would answer, but for what
        the hart owes. */
    ghost predicate Valid()
      reads this, tables
    {
      Shape() && forall h | 0 <= h < |tables| :: Good(ViewOf(h), EnvFor(h), mem, debts[h])
    }

    predicate PagingMode(mode: nat) {
      mode == 0 || mode == 8 || (mode == 9 && sv48) || (mode == 10 && sv57)
    }

    /** mmu_set_harts: an empty TLB for each hart. */
    constructor (x: Ext, regs: seq<Regs>, mem: Mem, idLimit: nat, ppnLimit: nat, sv48: bool, sv57: bool)
      requires regs != [] && idLimit > 0 && ppnLimit > 0
      ensures Valid() && debts == seq(|regs|, _ => Pages({})) && cur == 0
      ensures this.x == x && this.regs == regs && this.mem == mem && |tables| == |regs|
      ensures forall h | 0 <= h < |tables| :: fresh(tables[h])
    {
      this.x, this.regs, this.mem, this.idLimit, this.ppnLimit := x, regs, mem, idLimit, ppnLimit;
      this.sv48, this.sv57 := sv48, sv57;
      saved := seq(|regs|, _ => Saved(0, {}));
      origins := seq(|regs|, _ => seq(TLB_SIZE, _ => 0));
      debts := seq(|regs|, _ => Pages({}));
      cur, gen, superpages := 0, 0, {};
      var made: seq<array<Entry>> := [];
      for h := 0 to |regs|
        invariant |made| == h
        invariant forall i | 0 <= i < h :: fresh(made[i]) && made[i].Length == TLB_SIZE
        invariant forall i, k | 0 <= i < h && 0 <= k < TLB_SIZE :: made[i][k] == NO_ENTRY
        invariant forall i, j | 0 <= i < j < h :: made[i] != made[j]
      {
        var tlb := new Entry[TLB_SIZE](_ => NO_ENTRY);
        made := made + [tlb];
      }
      tables := made;
      new;
      hide Good, Shaped, EnvOf;
      forall h | 0 <= h < |tables|
        ensures Good(ViewOf(h), EnvFor(h), mem, debts[h])
      {
        EmptyIsGood(ViewOf(h), EnvFor(h), mem);
      }
    }

    /** mmu_select_hart. Harts' TLBs are independent: it changes none. */
    method SelectHart(h: nat)
      requires Valid() && h < |tables|
      modifies this`saved, this`cur, this`gen, this`superpages
      ensures Valid() && cur == h
      ensures forall k | 0 <= k < |tables| :: ViewOf(k) == old(ViewOf(k))
    {
      hide Good, Shaped;
      if h == cur {
        return;
      }
      saved := saved[cur := Saved(gen, superpages)];
      cur := h;
      gen := saved[h].gen;
      superpages := saved[h].superpages;
      assert forall k | 0 <= k < |tables| :: ViewOf(k) == old(ViewOf(k));
    }

    /** The descent of the page tables: one level a turn, until a leaf or a reason to stop. */
    method Descend(va: nat, levels: nat) returns (leaf: Leaf)
      requires levels > 0 && cur < |regs|
      ensures leaf == FindLeaf(EnvFor(cur), mem, va, levels - 1, EnvFor(cur).root * 0x1000)
    {
      hide Has, PtrOk, Ppn, WalkMayRead, PageNo, EnvOf;
      var e := EnvOf(x, regs[cur].csr);
      var table: nat := e.root * 0x1000;
      var i := levels - 1;
      while true
        invariant 0 <= i < levels
        invariant FindLeaf(e, mem, va, i, table) == FindLeaf(e, mem, va, levels - 1, e.root * 0x1000)
        decreases i
      {
        var addr := PteAddr(table, va, i);
        if addr !in mem {
          return NoAccess;
        }
        if !WalkMayRead(e, addr) {
          return NoAccess;
        }
        var pte := mem[addr];
        if !Has(pte, PageTables.V) || (!Has(pte, PageTables.R) && Has(pte, PageTables.W)) {
          return NoPage;
        }
        if Has(pte, PageTables.R) || Has(pte, PageTables.X) {
          return Found(pte, i, addr);
        }
        if !PtrOk(e, pte) {
          return NoPage;
        }
        if i == 0 {
          return NoPage;
        }
        table := Ppn(pte) * 0x1000;
        i := i - 1;
      }
    }

    /** The whole walk, with the page tables updated in place. */
    method FullWalk(va: nat, t: AccessType, ctx: Ctx) returns (o: Outcome)
      requires cur < |regs|
      modifies this`mem
      ensures Result(o, mem) == Walk(EnvFor(cur), old(mem), va, t, ctx)
    {
      hide EnvOf, FindLeaf, PermOk, UserOk, HasAD, SetAD, WalkMayWrite, Canonical, Place;
      var e := EnvOf(x, regs[cur].csr);
      var levels := Levels(e.mode);
      if levels == 0 {
        return Ok(va, 0, false);
      }
      if !Canonical(va, levels) {
        return Fault(PageFault(t));
      }
      var leaf := Descend(va, levels);
      if leaf.NoAccess? {
        return Fault(AccessFault(t));
      }
      if leaf.NoPage? {
        return Fault(PageFault(t));
      }
      var pte := leaf.pte;
      if t == ShadowStack {
        return Fault(if Has(pte, PageTables.W) then AccessFault(AccessType.Store) else PageFault(AccessType.Store));
      }
      if !PermOk(pte, t, ctx.mxr) || !UserOk(pte, t, ctx) {
        return Fault(PageFault(t));
      }
      var updated := false;
      if !HasAD(pte, t) {
        updated := true;
        if !e.adue || leaf.addr == 0 {
          return Fault(PageFault(t));
        }
        if !WalkMayWrite(e, leaf.addr) {
          return Fault(AccessFault(t));
        }
        pte := SetAD(pte, t);
        mem := mem[leaf.addr := pte];
      }
      return Place(e, pte, va, leaf.level, t, updated);
    }

    /** A walk by one hart spoils no hart's TLB. */
    twostate lemma WalkSpoilsNothing()
      requires old(Valid()) && Shape() && OnlyADSet(old(mem), mem)
      requires unchanged(this`saved, this`cur, this`gen, this`superpages, this`regs, this`origins, this`debts)
      requires forall h | 0 <= h < |tables| :: unchanged(tables[h])
      ensures Valid() && forall h | 0 <= h < |tables| :: ViewOf(h) == old(ViewOf(h))
    {
      hide Good, OnlyADSet, EnvOf;
      forall h | 0 <= h < |tables|
        ensures ViewOf(h) == old(ViewOf(h)) && Good(ViewOf(h), EnvFor(h), mem, debts[h])
      {
        assert ViewOf(h) == old(ViewOf(h)) && EnvFor(h) == old(EnvFor(h));
        assert old(Good(ViewOf(h), EnvFor(h), mem, debts[h]));
        GoodAfterUpdates(ViewOf(h), EnvFor(h), old(mem), mem, debts[h]);
      }
    }

    /** Only the selected hart's TLB changed, and it is good. */
    twostate lemma OnlyCurrentChanged()
      requires old(Valid()) && Shape() && mem == old(mem) && cur == old(cur)
      requires regs == old(regs)[cur := regs[cur]] && saved == old(saved)
      requires origins == old(origins)[cur := origins[cur]] && debts == old(debts)[cur := debts[cur]]
      requires forall h | 0 <= h < |tables| && h != cur :: unchanged(tables[h])
      requires Good(ViewOf(cur), EnvFor(cur), mem, debts[cur])
      ensures Valid()
      ensures forall h | 0 <= h < |tables| && h != cur :: ViewOf(h) == old(ViewOf(h))
    {
      hide Good, EnvOf;
      forall h | 0 <= h < |tables| && h != cur
        ensures ViewOf(h) == old(ViewOf(h)) && EnvFor(h) == old(EnvFor(h))
      {
      }
    }

    /** The end of a walk that succeeded: the superpage goes on record, and a translation that needed no
        update of A or D is kept. */
    method Keep(va: nat, t: AccessType, ctx: Ctx, o: Outcome, ghost before: Mem)
      requires Valid() && va < TWO64 && Levels(EnvFor(cur).mode) > 0
      requires OnlyADSet(before, mem) && o.Ok? && Result(o, mem) == Walk(EnvFor(cur), before, va, t, ctx)
      modifies this`superpages, this`origins, tables[cur]
      ensures Valid() && Marked(superpages, va, o.level) && old(superpages) <= superpages
      ensures forall h | 0 <= h < |tables| && h != cur :: ViewOf(h) == old(ViewOf(h))
    {
      hide EnvOf, Walk, Hit, OnlyADSet, Mark, Marked, KeyOf, RegionBit, Good;
      ghost var e, v, debt := EnvFor(cur), ViewOf(cur), debts[cur];
      GoodIsShaped(v, e, mem, debt);
      MarkKeeps(superpages, va, o.level, va, o.level);
      GoodAfterMark(v, e, mem, debt, va, o.level);
      superpages := Mark(superpages, va, o.level);
      ghost var w := ViewOf(cur);
      assert w == v.(superpages := superpages);
      if !o.updated {
        UnupdatedMemory(e, before, va, t, ctx);
        GoodAfterInsert(w, e, mem, debt, va, t, ctx);
        tables[cur][Tlb.Index(va / 0x1000, t)] := Entry(KeyOf(va, t, ctx), o.paddr - o.paddr % 0x1000, gen);
        origins := origins[cur := origins[cur][Tlb.Index(va / 0x1000, t) := o.level]];
        assert ViewOf(cur) == Insert(w, va, t, ctx, o.paddr, o.level);
      }
      OnlyCurrentChanged();
    }

    /** What the selected hart's translation is with no TLB at all, and the level of its leaf. */
    ghost predicate Exact(before: Mem, vaddr: nat, t: AccessType, a: Answer, level: nat)
      requires cur < |regs|
      reads this`cur, this`regs, this`mem
    {
      && (a, mem) == Translation(x, regs[cur], before, vaddr, t)
      && (a.Address? ==>
            level == if Untranslated(x, regs[cur], t) then 0
              else Walk(EnvOf(x, regs[cur].csr), before, PointerMask(x, regs[cur], vaddr, t), t,
                        CtxOf(regs[cur], t)).outcome.level)
    }

    /** mmu_translate, for the selected hart. The answer and the page tables left behind are those of the
        translation with no TLB at all, if none is looked in, if the lookup misses, or if the hart owes a fence of some
        addresses at most and none of them could be under the entry. Whoever walks, no hart's TLB goes
        wrong. `level` is where the answer came from. */
    method Translate(vaddr: nat, t: AccessType) returns (a: Answer, ghost level: nat)
      requires Valid() && vaddr < TWO64
      modifies this`mem, this`superpages, this`origins, tables[cur]
      ensures Valid() && OnlyADSet(old(mem), mem) && old(superpages) <= superpages
      ensures forall h | 0 <= h < |tables| && h != cur :: ViewOf(h) == old(ViewOf(h))
      ensures var va := PointerMask(x, regs[cur], vaddr, t);
        && (a.Address? ==> Marked(superpages, va, level))
        && (Untranslated(x, regs[cur], t) || !Hit(old(ViewOf(cur)), va, t, CtxOf(regs[cur], t)) ==>
              Exact(old(mem), vaddr, t, a, level))
        && (Settled(old(superpages), debts[cur], va) ==> Exact(old(mem), vaddr, t, a, level))
        && (debts[cur].Pages? ==>
              Exact(old(mem), vaddr, t, a, level) || (mem == old(mem) && SomeOver(debts[cur].owed, va, level)))
    {
      hide EnvOf, Walk, PointerMask, EffPriv, Good, Hit, OnlyADSet, Marked, KeyOf, Tlb.Index, Doubtful, SomeOver, Over;
      var r := regs[cur];
      var va := PointerMask(x, r, vaddr, t);
      MaskInRange(x, r, vaddr, t);
      ghost var e := EnvFor(cur);
      SameIsOnlyAD(mem);
      if EffPriv(r, t) == M || EnvOf(x, r.csr).mode == 0 {
        LevelZeroMarked(superpages, va);
        return Direct(va, t), 0;
      }
      var ctx := CtxOf(r, t);
      var key := KeyOf(va, t, ctx);
      var entry := tables[cur][Tlb.Index(va / 0x1000, t)];
      if entry.key == key && entry.gen == gen {
        EntryHits(ViewOf(cur), va, t, ctx);
        HitAnswers(ViewOf(cur), e, mem, debts[cur], va, t, ctx);
        return Address(entry.page + va % 0x1000), origins[cur][Tlb.Index(va / 0x1000, t)];
      }
      if Levels(EnvOf(x, r.csr).mode) == 0 {
        UnknownMode(e, mem, va, t, ctx);
        LevelZeroMarked(superpages, va);
        return Address(va), 0;
      }
      WalkOnlySetsAD(e, mem, va, t, ctx);
      var o := FullWalk(va, t, ctx);
      WalkSpoilsNothing();
      if o.Fault? {
        return Trap(o.cause, va), 0;
      }
      Keep(va, t, ctx, o, old(mem));
      return Address(o.paddr), o.level;
    }

    /** mmu_tlb_flush: one more generation, and no superpages on record. Nothing is owed any more. */
    method Flush()
      requires Shape() && Shaped(ViewOf(cur))
      modifies this`gen, this`superpages, this`debts
      ensures debts == old(debts)[cur := Pages({})]
      ensures ViewOf(cur) == old(ViewOf(cur)).(gen := old(gen) + 1, superpages := {})
      ensures Good(ViewOf(cur), EnvFor(cur), mem, debts[cur])
      ensures forall h | 0 <= h < |tables| && h != cur :: ViewOf(h) == old(ViewOf(h))
    {
      GoodAfterFlush(ViewOf(cur), EnvFor(cur), mem);
      gen := gen + 1;
      superpages := {};
      debts := debts[cur := Pages({})];
    }

    /** SFENCE.VMA of everything. */
    method FenceAll()
      requires Valid()
      modifies this`gen, this`superpages, this`debts
      ensures Valid() && debts == old(debts)[cur := Pages({})] && gen == old(gen) + 1
      ensures forall h | 0 <= h < |tables| && h != cur :: ViewOf(h) == old(ViewOf(h))
    {
      hide Good, Shaped, EnvOf;
      GoodIsShaped(ViewOf(cur), EnvFor(cur), mem, debts[cur]);
      Flush();
      OnlyCurrentChanged();
    }

    method SetPriv(mode: PrivMode)
      requires Valid()
      modifies this`regs
      ensures Valid() && regs == old(regs)[cur := old(regs)[cur].SetPriv(mode)]
      ensures forall h | 0 <= h < |tables| :: ViewOf(h) == old(ViewOf(h))
    {
      hide Good;
      regs := regs[cur := regs[cur].SetPriv(mode)];
      assert EnvFor(cur) == old(EnvFor(cur)) && ViewOf(cur) == old(ViewOf(cur));
      OnlyCurrentChanged();
    }

    /** A CSR write needs no flush unless the walk reads the CSR: SUM, MXR, MPRV and MPP are in the keys,
        and the masking fields apply before the lookup. The PMP CSRs it does read, and writing them
        flushes nothing: the hart owes a fence of everything. */
    method WriteCsr(addr: nat, value: nat)
      requires Valid() && addr < CSRS && addr !in {SATP, MENVCFG, SENVCFG}
      modifies this`regs, this`debts
      ensures Valid() && regs == old(regs)[cur := old(regs)[cur].WriteCsr(addr, value)]
      ensures debts == if P.IsPmpCsr(addr) then old(debts)[cur := Everything] else old(debts)
      ensures forall h | 0 <= h < |tables| :: ViewOf(h) == old(ViewOf(h))
    {
      hide Good;
      GoodAtAll(ViewOf(cur), EnvFor(cur), mem, debts[cur]);
      regs := regs[cur := regs[cur].WriteCsr(addr, value)];
      assert ViewOf(cur) == old(ViewOf(cur));
      if P.IsPmpCsr(addr) {
        debts := debts[cur := Everything];
      } else {
        assert PmpView(regs[cur].csr) == PmpView(old(regs)[cur].csr);
        assert EnvFor(cur) == old(EnvFor(cur));
      }
      OnlyCurrentChanged();
    }

    /** write_satp: nothing for the value already there; else a flush, and then the write, refused if
        the mode is not one of ours. */
    method WriteSatp(value: nat)
      requires Valid()
      modifies this`regs, this`gen, this`superpages, this`debts
      ensures Valid() && idLimit > 0 && ppnLimit > 0
      ensures value == old(regs)[cur].csr[SATP] ==>
        gen == old(gen) && superpages == old(superpages) && regs == old(regs) && debts == old(debts)
      ensures value != old(regs)[cur].csr[SATP] ==>
        && gen == old(gen) + 1 && debts == old(debts)[cur := Pages({})]
        && var mode := value / 0x1000_0000_0000_0000;
        regs == (if mode == 0 || mode == 8 || (mode == 9 && sv48) || (mode == 10 && sv57)
                    then old(regs)[cur := old(regs)[cur].WriteCsr(SATP, LegalAtp(value, idLimit, ppnLimit))]
                    else old(regs))
      ensures forall h | 0 <= h < |tables| && h != cur :: ViewOf(h) == old(ViewOf(h))
    {
      hide Good, LegalAtp, Shaped;
      if regs[cur].csr[SATP] == value {
        return;
      }
      GoodIsShaped(ViewOf(cur), EnvFor(cur), mem, debts[cur]);
      Flush();
      ghost var v := ViewOf(cur);
      if PagingMode(value / 0x1000_0000_0000_0000) {
        var legal := LegalAtp(value, idLimit, ppnLimit);
        regs := regs[cur := regs[cur].WriteCsr(SATP, legal)];
      }
      assert ViewOf(cur) == v;
      GoodAfterFlush(old(ViewOf(cur)), EnvFor(cur), mem);
      OnlyCurrentChanged();
    }

    /** A write of menvcfg or senvcfg flushes: a cached entry was checked under menvcfg's enables. */
    method WriteEnvcfg(addr: nat, value: nat)
      requires Valid() && addr in {MENVCFG, SENVCFG}
      modifies this`regs, this`gen, this`superpages, this`debts
      ensures Valid() && regs == old(regs)[cur := old(regs)[cur].WriteCsr(addr, value)]
      ensures gen == old(gen) + 1 && debts == old(debts)[cur := Pages({})]
      ensures forall h | 0 <= h < |tables| && h != cur :: ViewOf(h) == old(ViewOf(h))
    {
      hide Good, Shaped;
      GoodIsShaped(ViewOf(cur), EnvFor(cur), mem, debts[cur]);
      Flush();
      ghost var v := ViewOf(cur);
      regs := regs[cur := regs[cur].WriteCsr(addr, value)];
      assert ViewOf(cur) == v;
      GoodAfterFlush(old(ViewOf(cur)), EnvFor(cur), mem);
      OnlyCurrentChanged();
    }

    /** Stores, of anything anywhere, by any hart. If they edit the leaves over `over`, a hart some of
        whose translations change comes to owe a fence of these addresses. */
    method Store(edited: Mem, ghost over: set<nat>)
      requires Valid()
      modifies this`mem, this`debts
      ensures Valid() && mem == edited && |debts| == |tables|
      ensures forall h | 0 <= h < |tables| ::
        ViewOf(h) == old(ViewOf(h)) && debts[h] == Charged(old(debts[h]), EnvFor(h), old(mem), edited, over)
    {
      hide Good, Charged, EnvOf;
      debts := Billed(edited, over);
      mem := edited;
      forall h | 0 <= h < |tables|
        ensures ViewOf(h) == old(ViewOf(h)) && Good(ViewOf(h), EnvFor(h), mem, debts[h])
      {
        assert ViewOf(h) == old(ViewOf(h)) && EnvFor(h) == old(EnvFor(h));
        GoodAfterStore(ViewOf(h), EnvFor(h), old(mem), edited, old(debts[h]), over);
      }
    }

    ghost function Billed(edited: Mem, over: set<nat>): seq<Debt>
      requires Shape()
      reads this
    {
      seq(|debts|, h requires Shape() && 0 <= h < |debts| reads this => Charged(debts[h], EnvFor(h), mem, edited, over))
    }

    /** SFENCE.VMA of an address: mmu_tlb_flush_page. Whichever way it goes, and whatever has been stored
        since its entries were made, the hart is left with none from a leaf over `va`; it has paid for
        the address, and if everything was flushed, for all. Other harts keep their entries. */
    method FlushPage(va: nat) returns (kept: bool)
      requires Valid()
      modifies this`gen, this`superpages, this`debts, tables[cur]
      ensures Valid() && ViewOf(cur) == Tlb.FlushPage(old(ViewOf(cur)), va)
      ensures forall i | 0 <= i < TLB_SIZE && Live(ViewOf(cur), i) ::
        !Over(va, EntryPage(ViewOf(cur), i), origins[cur][i])
      ensures debts == old(debts)[cur := DebtAfterFence(old(ViewOf(cur)), old(debts)[cur], va)]
      ensures (kept <==> gen == old(gen)) && (!kept ==> gen == old(gen) + 1 && debts[cur] == Pages({}))
      ensures forall h | 0 <= h < |tables| && h != cur :: ViewOf(h) == old(ViewOf(h))
    {
      hide RegionBit, Good, Shaped, Live, EntryPage, Over, Tlb.FlushPage;
      ghost var v := ViewOf(cur);
      GoodIsShaped(v, EnvFor(cur), mem, debts[cur]);
      GoodAfterFence(v, EnvFor(cur), mem, debts[cur], va);
      kept := DropEntries(va);
      debts := debts[cur := DebtAfterFence(v, debts[cur], va)];
      forall i | 0 <= i < TLB_SIZE && Live(ViewOf(cur), i)
        ensures !Over(va, EntryPage(ViewOf(cur), i), origins[cur][i])
      {
        FencedOff(v, va, i);
        SameEntrySamePage(v, ViewOf(cur), i);
      }
      OnlyCurrentChanged();
    }

    method DropEntries(va: nat) returns (kept: bool)
      requires Shape()
      modifies this`gen, this`superpages, tables[cur]
      ensures ViewOf(cur) == Tlb.FlushPage(old(ViewOf(cur)), va)
      ensures (kept <==> gen == old(gen)) && (kept <==> RegionBit(va) !in old(superpages))
      ensures gen == old(gen) || gen == old(gen) + 1
    {
      hide RegionBit;
      if RegionBit(va) in superpages {
        gen := gen + 1;
        superpages := {};
        return false;
      }
      DropPage(tables[cur], va / 0x1000);
      assert ViewOf(cur).entries == Tlb.FlushPage(old(ViewOf(cur)), va).entries;
      return true;
    }
  }

  lemma EmptyIsGood(v: View, e: Env, mem: Mem)
    requires v.superpages == {} && forall k | 0 <= k < TLB_SIZE :: v.entries[k] == NO_ENTRY
    ensures Good(v, e, mem, Pages({}))
  {
    hide Walk, Tlb.Index, TlbKey;
    forall va: nat, t: AccessType, ctx: Ctx {:trigger Hit(v, va, t, ctx)}
      ensures !Hit(v, va, t, ctx)
    {
      TlbKeyInjective(va / 0x1000, if ctx.user then U else S, t, ctx.sum, ctx.mxr, 0, U, Fetch, false, false);
    }
  }

  /** The four slots a page's entries can be in, one a type of access. */
  method DropPage(tlb: array<Entry>, vpn: nat)
    requires tlb.Length == TLB_SIZE
    modifies tlb
    ensures forall i | 0 <= i < TLB_SIZE :: tlb[i] == Dropped(vpn, old(tlb[i]), i, 4)
  {
    for type_ := 0 to 4
      invariant forall i | 0 <= i < TLB_SIZE :: tlb[i] == Dropped(vpn, old(tlb[i]), i, type_)
    {
      var i := (vpn * 4 + type_) % TLB_SIZE;
      assert i / 4 == vpn % 0x1000 && i % 4 == type_;
      if tlb[i].key / 256 == vpn {
        tlb[i] := tlb[i].(key := 0);
      }
    }
  }

  function Dropped(vpn: nat, entry: Entry, i: nat, types: nat): Entry {
    if i / 4 == vpn % 0x1000 && i % 4 < types && entry.key / 256 == vpn then entry.(key := 0) else entry
  }

  /** satp's fields past what is implemented read zero. */
  function LegalAtp(value: nat, idLimit: nat, ppnLimit: nat): nat
    requires idLimit > 0 && ppnLimit > 0
  {
    value / 0x1000_0000_0000_0000 % 16 * 0x1000_0000_0000_0000
    + value / 0x1000_0000_0000 % 0x1_0000 % idLimit * 0x1000_0000_0000 + value % ppnLimit
  }

  /** Section 4.1.11 of the privileged manual: bits 63 to 60 are the mode, the ASID starts at bit 44 and
      the frame number at bit 0, and each keeps as many bits as are implemented. */
  lemma SatpKept(value: nat, asidBits: nat, ppnBits: nat, k: nat)
    requires asidBits <= 16 && ppnBits <= 44
    ensures Bit(LegalAtp(value, P.Pow2(asidBits), P.Pow2(ppnBits)), k) ==
      (Bit(value, k) && (60 <= k < 64 || 44 <= k < 44 + asidBits || k < ppnBits))
  {
    hide Bit, Low, P.Pow2, PmpShifts.Shr;
    var mode, asid := Low(PmpShifts.Shr(value, 60), 4), Low(PmpShifts.Shr(value, 44), asidBits);
    var ppn := Low(value, ppnBits);
    SatpFields(value, asidBits, ppnBits);
    BitOfParts(mode * P.Pow2(16) + asid, ppn, 44, k);
    if k >= 44 {
      BitOfParts(mode, asid, 16, k - 44);
      BitOfLow(PmpShifts.Shr(value, 44), asidBits, k - 44);
      BitOfShr(value, 44, k - 44);
      if k >= 60 {
        BitOfLow(PmpShifts.Shr(value, 60), 4, k - 60);
        BitOfShr(value, 60, k - 60);
      }
    }
    BitOfLow(value, ppnBits, k);
  }

  lemma SatpFields(value: nat, asidBits: nat, ppnBits: nat)
    requires asidBits <= 16 && ppnBits <= 44
    ensures var asid, ppn := Low(PmpShifts.Shr(value, 44), asidBits), Low(value, ppnBits);
      && asid < P.Pow2(16) && ppn < P.Pow2(44)
      && LegalAtp(value, P.Pow2(asidBits), P.Pow2(ppnBits))
         == (Low(PmpShifts.Shr(value, 60), 4) * P.Pow2(16) + asid) * P.Pow2(44) + ppn
  {
    hide Bit, Low, P.Pow2, PmpShifts.Shr;
    AtpPowers();
    PmpShifts.ShrIsDiv(value, 60);
    PmpShifts.ShrIsDiv(value, 44);
    LowIsMod(PmpShifts.Shr(value, 60), 4);
    LowIsMod(PmpShifts.Shr(value, 44), 16);
    LowIsMod(value, ppnBits);
    LowIsMod(Low(PmpShifts.Shr(value, 44), 16), asidBits);
    LowLow(PmpShifts.Shr(value, 44), 16, asidBits);
    Pow2Sum(asidBits, 16 - asidBits);
    Pow2Sum(ppnBits, 44 - ppnBits);
    NoMore(P.Pow2(asidBits), P.Pow2(16 - asidBits));
    NoMore(P.Pow2(ppnBits), P.Pow2(44 - ppnBits));
  }

  lemma AtpPowers()
    ensures P.Pow2(4) == 16 && P.Pow2(16) == 0x1_0000 && P.Pow2(44) == 0x1000_0000_0000
    ensures P.Pow2(60) == 0x1000_0000_0000_0000
  {
    Powers();
    Pow2Sum(32, 12);
    Pow2Sum(8, 4);
    Pow2Sum(56, 4);
  }

  lemma NoMore(p: nat, q: nat)
    requires q > 0
    ensures p <= p * q
  {
  }

  lemma GoodIsShaped(v: View, e: Env, mem: Mem, debt: Debt)
    requires Good(v, e, mem, debt)
    ensures Shaped(v)
  {
  }

  /** A hart that owes everything is promised nothing of its page tables. */
  lemma GoodAtAll(v: View, e: Env, mem: Mem, debt: Debt)
    requires Good(v, e, mem, debt)
    ensures forall f: Env, b: Mem :: Good(v, f, b, Everything)
  {
  }

  lemma SameEntrySamePage(v: View, w: View, i: nat)
    requires i < TLB_SIZE && w.entries[i] == v.entries[i]
    ensures EntryPage(v, i) == EntryPage(w, i)
  {
  }

  lemma LevelZeroMarked(superpages: set<nat>, va: nat)
    ensures Marked(superpages, va, 0)
  {
  }

  lemma MaskInRange(x: Ext, r: Regs, va: nat, t: AccessType)
    requires va < TWO64
    ensures PointerMask(x, r, va, t) < TWO64
  {
  }

  lemma EntryHits(v: View, va: nat, t: AccessType, ctx: Ctx)
    requires var e := v.entries[Tlb.Index(va / 0x1000, t)]; e.key == KeyOf(va, t, ctx) && e.gen == v.gen
    ensures Hit(v, va, t, ctx)
  {
  }

  lemma HitAnswers(v: View, e: Env, mem: Mem, debt: Debt, va: nat, t: AccessType, ctx: Ctx)
    requires Good(v, e, mem, debt) && va < TWO64 && Hit(v, va, t, ctx)
    ensures var i := Tlb.Index(va / 0x1000, t); var w := Walk(e, mem, va, t, ctx);
      && Marked(v.superpages, va, v.origins[i])
      && (debt.Pages? ==>
            || (Answered(w.outcome, va) == Address(v.entries[i].page + va % 0x1000)
                && w.mem == mem && w.outcome.level == v.origins[i])
            || (SomeOver(debt.owed, va, v.origins[i]) && Doubtful(v.superpages, debt.owed, va)))
  {
    hide Walk, Marked, Tlb.Index, Hit, Over, Doubtful, EntryPage, Live;
    var i := Tlb.Index(va / 0x1000, t);
    HitIsLive(v, va, t, ctx);
    assert InPlace(v, i);
    SamePageMarked(v.superpages, EntryPage(v, i), va, v.origins[i]);
    if debt.Pages? {
      if Promise(v, e, mem, va, t, ctx) {
        UnupdatedMemory(e, mem, va, t, ctx);
      } else {
        OwedIsDoubtful(v, debt.owed, va, t, ctx);
      }
    }
  }

  lemma UnupdatedMemory(e: Env, mem: Mem, va: nat, t: AccessType, ctx: Ctx)
    ensures var w := Walk(e, mem, va, t, ctx); w.outcome.Ok? && !w.outcome.updated ==> w.mem == mem
  {
  }

  lemma UnknownMode(e: Env, mem: Mem, va: nat, t: AccessType, ctx: Ctx)
    requires Levels(e.mode) == 0
    ensures Walk(e, mem, va, t, ctx) == Result(Ok(va, 0, false), mem)
  {
  }
}
