/** A hart's load and store caches as the object its loads and stores go through, over the MMU of all the
    harts. */
module DataUnit {
  import opened Words
  import opened Registers
  import opened PageTables
  import opened Translate
  import opened DataCache
  import F = Fetch
  import U = FetchUnit
  import T = Tlb
  import P = Pmp
  import Mmu

  class DataCaches {
    const pl: DataCache.Platform
    const mmu: Mmu.Harts
    const hart: nat
    const epoch: nat
    const loads: array<F.FetchEntry>
    const stores: array<F.FetchEntry>

    /** At which level the leaf was that each page was found through. */
    ghost var loadLevels: F.Levels
    ghost var storeLevels: F.Levels

    /** What the two caches owe: what the hart's TLB does, and what a fence has not paid here. */
    ghost var debt: T.Debt

    ghost predicate Shape()
      reads mmu
    {
      && loads.Length == F.FETCH_CACHE_SIZE && stores.Length == F.FETCH_CACHE_SIZE && loads != stores
      && mmu.Shape() && hart < |mmu.tables|
    }

    ghost function Gen(): nat
      requires Shape()
      reads mmu, mmu.tables
    {
      mmu.regs[hart].stateGen + mmu.ViewOf(hart).gen + epoch
    }

    ghost function View(t: AccessType): DataView
      requires Shape()
      reads this, mmu, mmu.tables, loads, stores
    {
      var csr := mmu.regs[hart].csr;
      DataView(t, if t == Load then loads[..] else stores[..], if t == Load then loadLevels else storeLevels,
               mmu.EnvFor(hart), MasksOf(mmu.x, csr), Has(csr[MSTATUS], MPRV), Gen(),
               mmu.ViewOf(hart).superpages, mmu.mem, debt)
    }

    /** Whatever either cache would answer is right, but for what they owe. */
    ghost predicate Valid()
      reads this, mmu, mmu.tables, loads, stores
    {
      && Shape() && mmu.Valid() && Covers(debt, mmu.debts[hart])
      && DataGood(pl, View(Load)) && DataGood(pl, View(Store))
    }

    constructor (pl: DataCache.Platform, mmu: Mmu.Harts, hart: nat, epoch: nat)
      requires mmu.Valid() && hart < |mmu.tables|
      ensures Valid() && this.pl == pl && this.mmu == mmu && this.hart == hart && debt == mmu.debts[hart]
      ensures fresh(loads) && fresh(stores)
    {
      this.pl, this.mmu, this.hart, this.epoch := pl, mmu, hart, epoch;
      loads := new F.FetchEntry[F.FETCH_CACHE_SIZE](_ => F.FetchEntry(F.NO_PAGE, MAX64, 0));
      stores := new F.FetchEntry[F.FETCH_CACHE_SIZE](_ => F.FetchEntry(F.NO_PAGE, MAX64, 0));
      loadLevels, storeLevels := seq(F.FETCH_CACHE_SIZE, _ => 0), seq(F.FETCH_CACHE_SIZE, _ => 0);
      debt := mmu.debts[hart];
      new;
      hide DataGood, T.Good, EnvOf;
      EmptyIsGood(pl, View(Load));
      EmptyIsGood(pl, View(Store));
    }

    /** The hart accesses `vaddr` with no page table having a part, or the caches owe no fence that could
        touch an entry for it. */
    ghost predicate Settled(vaddr: nat, t: AccessType)
      requires Shape()
      reads this, mmu
    {
      Untranslated(mmu.x, mmu.regs[hart], t)
      || T.Settled(mmu.superpages, debt, PointerMask(mmu.x, mmu.regs[hart], vaddr, t))
    }

    /** What the caches owe after an operation of the MMU that is no store and no fence of an address: if
        the key has moved, what the TLB does. */
    ghost function DebtNow(gen: nat, debt: T.Debt): T.Debt
      requires Shape()
      reads mmu, mmu.tables
    {
      if gen < Gen() then mmu.debts[hart] else if Covers(debt, mmu.debts[hart]) then debt else T.Everything
    }

    /** One operation of the MMU has been done. */
    twostate lemma StillGood()
      requires old(Valid()) && Shape() && mmu.Valid() && unchanged(loads) && unchanged(stores)
      requires unchanged(this`loadLevels) && unchanged(this`storeLevels) && debt == DebtNow(old(Gen()), old(debt))
      requires old(Gen()) <= Gen()
      requires old(Gen()) < Gen() || (OnlyADSet(old(mmu.mem), mmu.mem) && SameContext())
      ensures Valid()
    {
      hide DataGood, OnlyADSet, EnvOf, T.Good, MasksOf;
      StillGoodFor(Load);
      StillGoodFor(Store);
    }

    /** What the entries rest on besides page tables is what it was. */
    twostate predicate SameContext()
      requires old(Shape()) && Shape()
      reads mmu, mmu.tables
    {
      && mmu.EnvFor(hart) == old(mmu.EnvFor(hart))
      && MasksOf(mmu.x, mmu.regs[hart].csr) == old(MasksOf(mmu.x, mmu.regs[hart].csr))
      && Has(mmu.regs[hart].csr[MSTATUS], MPRV) == old(Has(mmu.regs[hart].csr[MSTATUS], MPRV))
      && old(mmu.ViewOf(hart).superpages) <= mmu.ViewOf(hart).superpages
    }

    twostate lemma StillGoodFor(t: AccessType)
      requires old(Shape()) && old(DataGood(pl, View(t))) && Shape() && mmu.Valid()
      requires unchanged(loads) && unchanged(stores) && unchanged(this`loadLevels) && unchanged(this`storeLevels)
      requires debt == DebtNow(old(Gen()), old(debt))
      requires old(Gen()) <= Gen()
      requires old(Gen()) < Gen() || (OnlyADSet(old(mmu.mem), mmu.mem) && SameContext())
      ensures DataGood(pl, View(t))
    {
      hide DataGood, OnlyADSet, EnvOf, T.Good, MasksOf;
      var v := old(View(t));
      if old(Gen()) < Gen() {
        GoodIsShaped(pl, v);
        GoodAfterKeyMoves(pl, v.cache, v.gen, View(t));
      } else {
        U.SummaryInRange(mmu.ViewOf(hart), mmu.EnvFor(hart), mmu.mem, mmu.debts[hart]);
        GoodAfterUpdates(pl, v, View(t).superpages, mmu.mem);
        var w := v.(superpages := View(t).superpages, mem := mmu.mem);
        GoodOwingMore(pl, w, debt);
        assert View(t) == w.(debt := debt);
      }
    }

    /** mmu_translate for a load or a store, and where the caches may say it went. */
    method TranslateData(vaddr: nat, t: AccessType) returns (a: Answer, ghost level: nat)
      requires Valid() && mmu.cur == hart && vaddr < TWO64 && t in {Load, Store}
      modifies mmu`mem, mmu`superpages, mmu`origins, mmu.tables[mmu.cur]
      ensures Valid() && old(mmu.superpages) <= mmu.superpages <= T.ALL_REGIONS
      ensures Settled(vaddr, t) ==> (a, mmu.mem) == Translation(mmu.x, mmu.regs[hart], old(mmu.mem), vaddr, t)
      ensures a.Address? && !Has(mmu.regs[hart].csr[MSTATUS], MPRV) ==>
        var who := WhoOf(mmu.regs[hart]);
        Arrived(View(t), old(mmu.mem), who, Masked(View(t).masks, who, vaddr), a.paddr, level)
      ensures SameContext() && Gen() == old(Gen())
    {
      hide DataGood, OnlyADSet, EnvOf, T.Good, Walk, T.Marked, Translation, T.SomeOver, T.Settled, T.Hit;
      hide MasksOf, PointerMask, Masked, Walked, Untranslated;
      a, level := mmu.Translate(vaddr, t);
      StillGood();
      U.SummaryInRange(mmu.ViewOf(hart), mmu.EnvFor(hart), mmu.mem, mmu.debts[hart]);
      var r := mmu.regs[hart];
      ghost var va := PointerMask(mmu.x, r, vaddr, t);
      if T.Settled(mmu.superpages, debt, va) {
        SettledByLess(mmu.superpages, debt, mmu.debts[hart], va);
        T.SettledEarlier(old(mmu.superpages), mmu.superpages, mmu.debts[hart], va);
      }
      if a.Address? && !Has(r.csr[MSTATUS], MPRV) {
        OwnAccess(mmu.x, r, vaddr, t);
        BareIsUntranslated(mmu.x, r, t);
        if mmu.Exact(old(mmu.mem), vaddr, t, a, level) {
          ExactIsWalked(mmu.x, r, old(mmu.mem), View(t), vaddr, a.paddr, level);
        } else if mmu.debts[hart].Pages? && debt.Pages? {
          OwesMore(mmu.debts[hart].owed, debt.owed, va, level);
        }
      }
    }

    /** translate_or_trap once the translation is done. */
    method Finish(vaddr: nat, size: nat, t: AccessType, a: Answer) returns (f: Reach)
      requires hart < |mmu.regs|
      ensures f == if a.Trap? then Trapped(a.cause, a.tval)
        else Rest(pl, mmu.x, mmu.regs[hart], vaddr, size, t, a.paddr)
    {
      hide P.Check, Backed, Port;
      if a.Trap? {
        return Trapped(a.cause, a.tval);
      }
      if !Backed(pl, a.paddr, size) {
        return Trapped(AccessFault(t), vaddr);
      }
      if mmu.x.smpmp && !P.Check(mmu.x.pmp, mmu.regs[hart].csr, a.paddr, size, AccessOf(t), PmpPriv(mmu.regs[hart])) {
        return Trapped(AccessFault(t), vaddr);
      }
      return At(a.paddr, Port(pl, t, a.paddr, size));
    }

    /** load_virtual and store_virtual in one page: a hit, or translate_or_trap, and the page kept if every
        such access in it would be answered alike. */
    method Access(vaddr: nat, size: nat, t: AccessType) returns (f: Reach)
      requires Valid() && mmu.cur == hart && vaddr < TWO64 && t in {Load, Store}
      requires size > 0 && vaddr % 0x1000 + size <= 0x1000
      modifies this`loadLevels, this`storeLevels, loads, stores
      modifies mmu`mem, mmu`superpages, mmu`origins, mmu.tables[mmu.cur]
      ensures Valid()
      ensures Settled(vaddr, t) ==> (f, mmu.mem) == FullAccess(pl, mmu.x, mmu.regs[hart], old(mmu.mem), vaddr, size, t)
    {
      hide DataGood, EnvOf, T.Good, Translation, Promised, T.Settled, Rest, Arrived, OnlyADSet, MasksOf, PointerMask;
      hide Untranslated, P.PagePermits, DirectPage, HoldsPort, Masked;
      if pl.misalignedTraps && vaddr % size != 0 {
        return Trapped(Misaligned(t), vaddr);
      }
      var r := mmu.regs[hart];
      var key := (r.stateGen + mmu.gen + epoch) * 16 + r.csr[MSTATUS] / SUM % 4 * 4 + Code(r.priv);
      var vpage := vaddr / 0x1000;
      var i := vpage % F.FETCH_CACHE_SIZE;
      var e := if t == Load then loads[i] else stores[i];
      KeyIsDataKey(Moment(r, mmu.gen, epoch, mmu.x));
      if e.vpage == vpage && e.key == key {
        if Settled(vaddr, t) {
          HitAnswers(vaddr, size, t, i);
        }
        return At(e.ppage + vaddr % 0x1000, false);
      }
      ghost var level;
      var a;
      a, level := TranslateData(vaddr, t);
      f := Finish(vaddr, size, t, a);
      if f.At? {
        var page := F.PageBase(a.paddr);
        if DirectPage(pl, page) && !Has(r.csr[MSTATUS], MPRV)
           && (!mmu.x.smpmp || P.PagePermits(mmu.x.pmp, r.csr, page, AccessOf(t), r.priv))
           && (t != Store || !HoldsPort(pl, page)) {
          Remember(vaddr, a.paddr, key, t, old(mmu.mem), level);
        }
      }
    }

    /** A hit, where the caches owe nothing that could touch it. */
    lemma HitAnswers(vaddr: nat, size: nat, t: AccessType, i: nat)
      requires Valid() && mmu.cur == hart && vaddr < TWO64 && t in {Load, Store}
      requires size > 0 && vaddr % 0x1000 + size <= 0x1000
      requires Settled(vaddr, t) && !(pl.misalignedTraps && vaddr % size != 0)
      requires i < F.FETCH_CACHE_SIZE && View(t).cache[i].vpage == vaddr / 0x1000
      requires View(t).cache[i].key == Key(Gen(), WhoOf(mmu.regs[hart]))
      ensures FullAccess(pl, mmu.x, mmu.regs[hart], mmu.mem, vaddr, size, t)
           == (At(View(t).cache[i].ppage + vaddr % 0x1000, false), mmu.mem)
    {
      hide EnvOf, T.Good, FullAccess, T.Settled, MasksOf, PointerMask, Untranslated, Usable, Tag, Masked,
        TranslatesTo, T.Marked;
      var v, r := View(t), mmu.regs[hart];
      assert Alive(v, i, WhoOf(r));
      assert Sound(pl, v, i, WhoOf(r));
      NeverUnderMprv(pl, v, v.cache[i], r.priv);
      OwnAccess(mmu.x, r, vaddr, t);
      BareIsUntranslated(mmu.x, r, t);
      AliveIsPromised(pl, v, i, WhoOf(r), vaddr);
      HitIsFullAccess(pl, mmu.x, r, v, v.cache[i], v.levels[i], vaddr, size);
    }

    /** remember_data_page. */
    method Remember(vaddr: nat, paddr: nat, key: nat, t: AccessType, ghost before: Mem, ghost level: nat)
      requires Valid() && mmu.cur == hart && vaddr < TWO64 && t in {Load, Store}
      requires key == Key(Gen(), WhoOf(mmu.regs[hart])) && !Has(mmu.regs[hart].csr[MSTATUS], MPRV)
      requires DirectPage(pl, F.PageBase(paddr)) && (t == Store ==> !HoldsPort(pl, F.PageBase(paddr)))
      requires mmu.x.smpmp ==>
        P.PagePermits(mmu.x.pmp, mmu.regs[hart].csr, F.PageBase(paddr), AccessOf(t), mmu.regs[hart].priv)
      requires Arrived(View(t), before, WhoOf(mmu.regs[hart]),
                       Masked(View(t).masks, WhoOf(mmu.regs[hart]), vaddr), paddr, level)
      modifies this`loadLevels, this`storeLevels, loads, stores
      ensures Valid()
    {
      hide DataGood, EnvOf, T.Good, P.PagePermits, Arrived, MasksOf, Masked, DirectPage, HoldsPort, Tag;
      ghost var v, other, r := View(t), View(if t == Load then Store else Load), mmu.regs[hart];
      F.EnvParts(mmu.x, r.csr);
      U.PmpViewPermits(mmu.x.pmp, r.csr, F.PageBase(paddr), AccessOf(t), r.priv);
      var i, entry := vaddr / 0x1000 % F.FETCH_CACHE_SIZE, F.FetchEntry(vaddr / 0x1000, key, F.PageBase(paddr));
      GoodAfterInsert(pl, v, before, WhoOf(r), vaddr, paddr, level);
      if t == Load {
        loads[i] := entry;
        loadLevels := loadLevels[i := level];
      } else {
        stores[i] := entry;
        storeLevels := storeLevels[i := level];
      }
      assert View(t) == Inserted(v, i, entry, level);
      assert View(if t == Load then Store else Load) == other;
    }

    /** fence_page by any hart. Where it is this one, both caches drop the page of the address as it was
        given: that pays for the address if no other is masked to it, or if everything was flushed. */
    method FencePage(va: nat)
      requires Valid()
      modifies this`debt, mmu`gen, mmu`superpages, mmu`debts, mmu.tables[mmu.cur], loads, stores
      ensures Valid()
      ensures mmu.debts
           == old(mmu.debts)[mmu.cur := T.DebtAfterFence(old(mmu.ViewOf(mmu.cur)), old(mmu.debts)[mmu.cur], va)]
      ensures debt == if mmu.cur != hart then old(debt)
        else if T.RegionBit(va) in old(mmu.superpages) then T.Pages({})
        else DebtAfterFence(MasksOf(mmu.x, mmu.regs[hart].csr), old(debt), va)
    {
      hide DataGood, EnvOf, T.Good, T.RegionBit, T.FlushPage, T.Over, T.Paid, MasksOf, Unmasked;
      ghost var l, s := View(Load), View(Store);
      U.FlushPageParts(mmu.ViewOf(hart), va);
      U.SummaryInRange(mmu.ViewOf(hart), mmu.EnvFor(hart), mmu.mem, mmu.debts[hart]);
      var kept := mmu.FlushPage(va);
      if mmu.cur != hart {
        assert View(Load) == l && View(Store) == s;
      } else if !kept {
        debt := T.Pages({});
        GoodIsShaped(pl, l);
        GoodIsShaped(pl, s);
        GoodAfterKeyMoves(pl, l.cache, l.gen, View(Load));
        GoodAfterKeyMoves(pl, s.cache, s.gen, View(Store));
      } else {
        GoodAfterFence(pl, l, va);
        GoodAfterFence(pl, s, va);
        DropBoth(va);
        CoversAfterFence(l.masks, debt, old(mmu.debts)[hart], va);
        debt := DebtAfterFence(l.masks, debt, va);
        assert View(Load) == Fenced(l, va) && View(Store) == Fenced(s, va);
      }
    }

    method DropBoth(va: nat)
      requires Shape()
      modifies loads, stores
      ensures loads[..] == F.DropPage(old(loads[..]), va / 0x1000)
        && stores[..] == F.DropPage(old(stores[..]), va / 0x1000)
    {
      var vpage := va / 0x1000;
      var i := vpage % F.FETCH_CACHE_SIZE;
      if loads[i].vpage == vpage {
        loads[i] := loads[i].(vpage := F.NO_PAGE);
      }
      if stores[i].vpage == vpage {
        stores[i] := stores[i].(vpage := F.NO_PAGE);
      }
    }

    // ---- What else happens to the machine ----------------------------------------------------------

    method SelectHart(h: nat)
      requires Valid() && h < |mmu.tables|
      modifies mmu`saved, mmu`cur, mmu`gen, mmu`superpages
      ensures Valid() && mmu.cur == h
    {
      hide DataGood, EnvOf, T.Good, MasksOf;
      mmu.SelectHart(h);
      assert View(Load) == old(View(Load)) && View(Store) == old(View(Store));
    }

    /** Any hart's translation, of anything. */
    method Translate(vaddr: nat, t: AccessType) returns (a: Answer)
      requires Valid() && vaddr < TWO64
      modifies mmu`mem, mmu`superpages, mmu`origins, mmu.tables[mmu.cur]
      ensures Valid()
    {
      hide DataGood, OnlyADSet, EnvOf, T.Good, Walk, T.Marked, Translation, T.Hit, T.SomeOver, T.Settled, MasksOf;
      ghost var level;
      a, level := mmu.Translate(vaddr, t);
      assert mmu.cur != hart ==> mmu.ViewOf(hart) == old(mmu.ViewOf(hart));
      StillGood();
    }

    /** Any hart's stores, these caches' own among them. */
    method StoreAny(edited: Mem, ghost over: set<nat>)
      requires Valid()
      modifies this`debt, mmu`mem, mmu`debts
      ensures Valid() && mmu.mem == edited
      ensures debt == T.Charged(old(debt), mmu.EnvFor(hart), old(mmu.mem), edited, over)
    {
      hide DataGood, EnvOf, T.Good, MasksOf, T.EditedOver;
      ghost var l, s := View(Load), View(Store);
      GoodAfterStore(pl, l, edited, over);
      GoodAfterStore(pl, s, edited, over);
      mmu.Store(edited, over);
      debt := T.Charged(debt, l.e, l.mem, edited, over);
      assert mmu.ViewOf(hart) == old(mmu.ViewOf(hart));
      assert View(Load) == l.(mem := edited, debt := debt) && View(Store) == s.(mem := edited, debt := debt);
    }

    method FenceAll()
      requires Valid()
      modifies this`debt, mmu`gen, mmu`superpages, mmu`debts
      ensures Valid() && debt == if mmu.cur == hart then T.Pages({}) else old(debt)
    {
      hide DataGood, EnvOf, T.Good, OnlyADSet, MasksOf;
      mmu.FenceAll();
      assert mmu.cur != hart ==> mmu.ViewOf(hart) == old(mmu.ViewOf(hart));
      debt := DebtNow(old(Gen()), debt);
      SameIsOnlyAD(mmu.mem);
      StillGood();
    }

    /** Privilege is in the key itself. */
    method SetPriv(mode: PrivMode)
      requires Valid()
      modifies mmu`regs
      ensures Valid()
    {
      hide DataGood, EnvOf, T.Good, OnlyADSet, MasksOf;
      mmu.SetPriv(mode);
      assert mmu.ViewOf(hart) == old(mmu.ViewOf(hart));
      assert mmu.EnvFor(hart) == old(mmu.EnvFor(hart));
      SameIsOnlyAD(mmu.mem);
      StillGood();
    }

    /** SUM and MXR are in the key, and MPRV, the masks and PMP move its generation. */
    method WriteCsr(addr: nat, value: nat)
      requires Valid() && addr < CSRS && addr !in {SATP, MENVCFG, SENVCFG}
      modifies this`debt, mmu`regs, mmu`debts
      ensures Valid() && debt == DebtNow(old(Gen()), old(debt))
    {
      hide DataGood, EnvOf, T.Good, OnlyADSet, MasksOf;
      mmu.WriteCsr(addr, value);
      assert mmu.ViewOf(hart) == old(mmu.ViewOf(hart));
      debt := DebtNow(old(Gen()), debt);
      QuietWrite(mmu.x, old(mmu.regs)[mmu.cur], addr, value);
      SameIsOnlyAD(mmu.mem);
      StillGood();
    }

    method WriteSatp(value: nat)
      requires Valid()
      modifies this`debt, mmu`regs, mmu`gen, mmu`superpages, mmu`debts
      ensures Valid() && debt == DebtNow(old(Gen()), old(debt))
    {
      hide DataGood, EnvOf, T.Good, OnlyADSet, Mmu.LegalAtp, MasksOf;
      mmu.WriteSatp(value);
      assert mmu.cur != hart ==> mmu.ViewOf(hart) == old(mmu.ViewOf(hart)) && mmu.EnvFor(hart) == old(mmu.EnvFor(hart));
      debt := DebtNow(old(Gen()), debt);
      SameIsOnlyAD(mmu.mem);
      StillGood();
    }

    method WriteEnvcfg(addr: nat, value: nat)
      requires Valid() && addr in {MENVCFG, SENVCFG}
      modifies this`debt, mmu`regs, mmu`gen, mmu`superpages, mmu`debts
      ensures Valid() && debt == DebtNow(old(Gen()), old(debt))
    {
      hide DataGood, EnvOf, T.Good, OnlyADSet, MasksOf;
      mmu.WriteEnvcfg(addr, value);
      assert mmu.cur != hart ==> mmu.ViewOf(hart) == old(mmu.ViewOf(hart)) && mmu.EnvFor(hart) == old(mmu.EnvFor(hart));
      debt := DebtNow(old(Gen()), debt);
      SameIsOnlyAD(mmu.mem);
      StillGood();
    }
  }

  /** A CSR write that moves no generation changes nothing the caches rest on. */
  lemma QuietWrite(x: Ext, r: Regs, addr: nat, value: nat)
    requires addr < CSRS
    ensures var w := r.WriteCsr(addr, value);
      w.stateGen >= r.stateGen && (w.stateGen == r.stateGen ==> SameParts(x, w.csr, r.csr))
  {
    if value == r.csr[addr] {
      assert r.csr[addr := value] == r.csr;
    } else if r.WriteCsr(addr, value).stateGen == r.stateGen {
      assert PmpView(r.csr[addr := value]) == PmpView(r.csr);
    }
  }

  predicate SameParts(x: Ext, a: CsrFile, b: CsrFile) {
    EnvOf(x, a) == EnvOf(x, b) && MasksOf(x, a) == MasksOf(x, b) && Has(a[MSTATUS], MPRV) == Has(b[MSTATUS], MPRV)
  }

  lemma CoversAfterFence(masks: Masks, more: T.Debt, less: T.Debt, va: nat)
    requires Covers(more, less)
    ensures Covers(DebtAfterFence(masks, more, va), if less.Everything? then less else T.Pages(T.Paid(less.owed, va)))
  {
  }

  lemma EmptyIsGood(pl: DataCache.Platform, v: DataView)
    requires forall i | 0 <= i < F.FETCH_CACHE_SIZE :: v.cache[i].vpage == F.NO_PAGE
    ensures DataGood(pl, v)
  {
  }

  lemma GoodIsShaped(pl: DataCache.Platform, v: DataView)
    requires DataGood(pl, v)
    ensures F.CacheShaped(v.cache, v.gen)
  {
  }

  lemma NeverUnderMprv(pl: DataCache.Platform, v: DataView, entry: F.FetchEntry, p: PrivMode)
    requires Usable(pl, v, entry, p)
    ensures !v.mprv
  {
  }

  lemma BareIsUntranslated(x: Ext, r: Regs, t: AccessType)
    requires t in {Load, Store} && !Has(r.csr[MSTATUS], MPRV)
    ensures Bare(EnvOf(x, r.csr), WhoOf(r)) == Untranslated(x, r, t)
  {
  }

  lemma OwesMore(less: set<nat>, more: set<nat>, va: nat, level: nat)
    requires less <= more && T.SomeOver(less, va, level)
    ensures T.SomeOver(more, va, level)
  {
  }

  /** An exact translation of an access, as the walk the caches speak of. */
  lemma ExactIsWalked(x: Ext, r: Regs, before: Mem, v: DataView, vaddr: nat, paddr: nat, level: nat)
    requires v.t in {Load, Store} && v.e == EnvOf(x, r.csr) && v.masks == MasksOf(x, r.csr)
      && !Has(r.csr[MSTATUS], MPRV)
    requires (Address(paddr), v.mem) == Translation(x, r, before, vaddr, v.t)
    requires level == if Untranslated(x, r, v.t) then 0
      else Walk(v.e, before, PointerMask(x, r, vaddr, v.t), v.t, CtxOf(r, v.t)).outcome.level
    ensures Walked(v, before, WhoOf(r), Masked(v.masks, WhoOf(r), vaddr), paddr, level)
  {
    hide EnvOf, Walk, Translation, PointerMask, Masked, MasksOf;
    TranslationIsDataWalk(x, r, before, vaddr, v.t);
    OwnAccess(x, r, vaddr, v.t);
    if r.priv != M && v.e.mode == 0 {
      NoPaging(v.e, before, Masked(v.masks, WhoOf(r), vaddr), v.t, CtxOf(r, v.t));
    }
  }
}
