/** A hart's fetch cache as the object the fetches go through, over the MMU of all the harts. */
module FetchUnit {
  import opened Words
  import opened Registers
  import opened PageTables
  import opened Translate
  import opened Fetch
  import T = Tlb
  import P = Pmp
  import Mmu

  class Fetcher {
    const pl: Platform
    const mmu: Mmu.Harts
    const hart: nat
    const epoch: nat
    const cache: array<FetchEntry>

    /** At which level the leaf was that each page was found through. */
    ghost var levels: Fetch.Levels

    ghost predicate Shape()
      reads mmu
    {
      cache.Length == FETCH_CACHE_SIZE && mmu.Shape() && hart < |mmu.tables|
    }

    ghost function Gen(): nat
      requires Shape()
      reads mmu, mmu.tables
    {
      mmu.regs[hart].stateGen + mmu.ViewOf(hart).gen + epoch
    }

    ghost function View(): FetchView
      requires Shape()
      reads this, mmu, mmu.tables, cache
    {
      FetchView(cache[..], levels, mmu.EnvFor(hart), Gen(), mmu.ViewOf(hart).superpages, mmu.mem, mmu.debts[hart])
    }

    /** Whatever the cache would answer is right, but for what the hart owes. */
    ghost predicate Valid()
      reads this, mmu, mmu.tables, cache
    {
      Shape() && mmu.Valid() && CacheGood(pl, View())
    }

    constructor (pl: Platform, mmu: Mmu.Harts, hart: nat, epoch: nat)
      requires mmu.Valid() && hart < |mmu.tables|
      ensures Valid() && this.pl == pl && this.mmu == mmu && this.hart == hart && fresh(cache)
    {
      this.pl, this.mmu, this.hart, this.epoch := pl, mmu, hart, epoch;
      cache := new FetchEntry[FETCH_CACHE_SIZE](_ => FetchEntry(NO_PAGE, MAX64, 0));
      levels := seq(FETCH_CACHE_SIZE, _ => 0);
      new;
      hide Sound;
    }

    /** One operation of the MMU has been done. */
    twostate lemma StillGood()
      requires old(Valid()) && Shape() && mmu.Valid() && unchanged(cache) && unchanged(this) && old(Gen()) <= Gen()
      requires old(Gen()) < Gen()
        || (View().e == old(View()).e && Gen() == old(Gen()) && mmu.debts[hart] in {old(mmu.debts[hart]), T.Everything}
            && OnlyADSet(old(mmu.mem), mmu.mem) && old(View()).superpages <= View().superpages)
      ensures Valid()
    {
      hide CacheGood, OnlyADSet, EnvOf, T.Good;
      if old(Gen()) < Gen() {
        GoodIsShaped(pl, old(View()));
        GoodAfterKeyMoves(pl, cache[..], old(Gen()), View());
      } else {
        SummaryInRange(mmu.ViewOf(hart), mmu.EnvFor(hart), mmu.mem, mmu.debts[hart]);
        CacheAfterUpdates(pl, old(View()), View().superpages, mmu.mem);
        var v := old(View()).(superpages := View().superpages, mem := mmu.mem);
        GoodOwingEverything(pl, v);
        assert View() == v || View() == v.(debt := T.Everything);
      }
    }

    /** The hart fetches from `va` with no page table having a part, or owes no fence that could touch an
        entry for it. */
    ghost predicate Settled(va: nat)
      requires Shape()
      reads mmu
    {
      Bare(mmu.EnvFor(hart), mmu.regs[hart].priv) || T.Settled(mmu.superpages, mmu.debts[hart], va)
    }

    /** translate_or_trap's translations. */
    method TranslateFetch(vaddr: nat) returns (a: Answer, ghost level: nat)
      requires Valid() && mmu.cur == hart && vaddr < TWO64
      modifies mmu`mem, mmu`superpages, mmu`origins, mmu.tables[mmu.cur]
      ensures Valid() && old(mmu.superpages) <= mmu.superpages <= T.ALL_REGIONS
      ensures Bare(mmu.EnvFor(hart), mmu.regs[hart].priv) || T.Settled(old(mmu.superpages), mmu.debts[hart], vaddr) ==>
        (a, mmu.mem) == Translation(mmu.x, mmu.regs[hart], old(mmu.mem), vaddr, AccessType.Fetch)
      ensures a.Address? ==> Arrived(View(), old(mmu.mem), mmu.regs[hart].priv, vaddr, a.paddr, level)
      ensures View().e == old(View()).e && Gen() == old(Gen())
    {
      hide CacheGood, OnlyADSet, EnvOf, T.Good, Walk, T.Marked, Translation, T.SomeOver, T.Settled, T.Doubtful, T.Hit;
      a, level := mmu.Translate(vaddr, AccessType.Fetch);
      StillGood();
      SummaryInRange(mmu.ViewOf(hart), mmu.EnvFor(hart), mmu.mem, mmu.debts[hart]);
      FetchContext(mmu.x, mmu.regs[hart], old(mmu.mem), vaddr);
      if a.Address? && mmu.Exact(old(mmu.mem), vaddr, AccessType.Fetch, a, level) {
        ExactIsWalked(mmu.x, mmu.regs[hart], old(mmu.mem), View(), vaddr, a.paddr, level);
      }
    }

    /** fetch16: a hit, or translate_or_trap and read16, and the page kept if every fetch in it would
        answer alike. */
    method Fetch16(vaddr: nat) returns (f: Fetched)
      requires Valid() && mmu.cur == hart && vaddr < TWO64
      modifies this`levels, mmu`mem, mmu`superpages, mmu`origins, mmu.tables[mmu.cur], cache
      ensures Valid() && old(mmu.superpages) <= mmu.superpages <= T.ALL_REGIONS
      ensures Settled(vaddr) && Settled((vaddr + 1) % TWO64) ==>
        (f, mmu.mem) == FullFetch16(pl, mmu.x, mmu.regs[hart], old(mmu.mem), vaddr)
    {
      hide CacheGood, OnlyADSet, EnvOf, T.Good, Translation, Promised, T.Settled;
      hide ReadHalf, P.Check, P.PagePermits, Arrived, Backed;
      var r := mmu.regs[hart];
      var key := (r.stateGen + mmu.gen + epoch) * 16 + Code(r.priv);
      var vpage := vaddr / 0x1000;
      var offset := vaddr % 0x1000;
      var i := vpage % FETCH_CACHE_SIZE;
      var e := cache[i];
      SummaryInRange(mmu.ViewOf(hart), mmu.EnvFor(hart), mmu.mem, mmu.debts[hart]);
      if e.vpage == vpage && e.key == key && offset <= 0xFFE {
        if Settled(vaddr) {
          AliveIsPromised(pl, View(), i, r.priv, vaddr);
          HitIsFullFetch(pl, mmu.x, r, View(), e, levels[i], vaddr);
        }
        return Got(ReadHalf(mmu.mem, e.ppage + offset), false);
      }
      ghost var level;
      var a;
      a, level := TranslateFetch(vaddr);
      ghost var between, fewer := mmu.mem, mmu.superpages;
      var paddr := if a.Address? then a.paddr else 0;
      var b := a;
      if a.Address? && offset == 0xFFF {
        ghost var other;
        b, other := TranslateFetch((vaddr + 1) % TWO64);
      }
      f := Finish(vaddr, a, b);
      if Settled(vaddr) && Settled((vaddr + 1) % TWO64) {
        if !Bare(mmu.EnvFor(hart), r.priv) {
          T.SettledEarlier(old(mmu.superpages), mmu.superpages, mmu.debts[hart], vaddr);
          T.SettledEarlier(fewer, mmu.superpages, mmu.debts[hart], (vaddr + 1) % TWO64);
        }
        FullPath(pl, mmu.x, r, old(mmu.mem), between, mmu.mem, vaddr, a, b);
      }
      var ppage := PageBase(paddr);
      if f.Got? && offset <= 0xFFE && InRam(pl, ppage, 0x1000)
         && (!mmu.x.smpmp || P.PagePermits(mmu.x.pmp, r.csr, ppage, P.Fetch, r.priv)) {
        Remember(vaddr, paddr, key, old(mmu.mem), level);
      }
    }

    /** translate_or_trap once its translations are done, and read16. */
    method Finish(vaddr: nat, a: Answer, b: Answer) returns (f: Fetched)
      requires hart < |mmu.regs| && (a.Trap? ==> b == a)
      ensures f == if a.Trap? then Trapped(a.cause, a.tval) else if b.Trap? then Trapped(b.cause, b.tval)
        else Rest(pl, mmu.x, mmu.regs[hart], mmu.mem, vaddr, a.paddr)
    {
      hide ReadHalf, P.Check, Backed;
      if a.Trap? {
        return Trapped(a.cause, a.tval);
      }
      if b.Trap? {
        return Trapped(b.cause, b.tval);
      }
      if !Backed(pl, a.paddr, 2) {
        return Trapped(AccessFault(AccessType.Fetch), vaddr);
      }
      if mmu.x.smpmp && !P.Check(mmu.x.pmp, mmu.regs[hart].csr, a.paddr, 2, P.Fetch, mmu.regs[hart].priv) {
        return Trapped(AccessFault(AccessType.Fetch), vaddr);
      }
      return if InRam(pl, a.paddr, 2) then Got(ReadHalf(mmu.mem, a.paddr), false)
        else Got(pl.device(a.paddr) % 0x1_0000, true);
    }

    method Remember(vaddr: nat, paddr: nat, key: nat, ghost before: Mem, ghost level: nat)
      requires Valid() && mmu.cur == hart && vaddr < TWO64
      requires key == Gen() * 16 + Code(mmu.regs[hart].priv)
      requires InRam(pl, PageBase(paddr), 0x1000)
      requires mmu.x.smpmp ==>
        P.PagePermits(mmu.x.pmp, mmu.regs[hart].csr, PageBase(paddr), P.Fetch, mmu.regs[hart].priv)
      requires Arrived(View(), before, mmu.regs[hart].priv, vaddr, paddr, level)
      modifies this`levels, cache
      ensures Valid()
    {
      hide CacheGood, EnvOf, T.Good, P.PagePermits, Arrived;
      ghost var v, r := View(), mmu.regs[hart];
      EnvParts(mmu.x, r.csr);
      PmpViewPermits(mmu.x.pmp, r.csr, PageBase(paddr), P.Fetch, r.priv);
      CacheAfterInsert(pl, v, before, r.priv, vaddr, paddr, level);
      var i, entry := vaddr / 0x1000 % FETCH_CACHE_SIZE, FetchEntry(vaddr / 0x1000, key, PageBase(paddr));
      cache[i] := entry;
      levels := levels[i := level];
      assert View() == Inserted(v, i, entry, level);
    }

    ghost predicate AllSettled(vaddr: nat)
      requires Shape()
      reads mmu
    {
      Settled(vaddr) && Settled((vaddr + 1) % TWO64) && Settled((vaddr + 2) % TWO64) && Settled((vaddr + 3) % TWO64)
    }

    /** fetch_instr: one read of four bytes on a hit, else a halfword at a time. */
    method FetchInstr(vaddr: nat) returns (f: Fetched)
      requires Valid() && mmu.cur == hart && vaddr < TWO64
      modifies this`levels, mmu`mem, mmu`superpages, mmu`origins, mmu.tables[mmu.cur], cache
      ensures Valid()
      ensures AllSettled(vaddr) ==>
        var (want, mem) := FullFetch(pl, mmu.x, mmu.regs[hart], old(mmu.mem), vaddr);
        mmu.mem == mem && SameInstruction(f, want)
    {
      hide CacheGood, EnvOf, T.Good, FullFetch16, FullFetch, SameInstruction, Promised, ReadWord, T.Settled;
      var r := mmu.regs[hart];
      var key := (r.stateGen + mmu.gen + epoch) * 16 + Code(r.priv);
      var vpage := vaddr / 0x1000;
      var offset := vaddr % 0x1000;
      var i := vpage % FETCH_CACHE_SIZE;
      var e := cache[i];
      if e.vpage == vpage && e.key == key && offset <= 0xFFC {
        if Settled(vaddr) {
          AliveIsPromised(pl, View(), i, r.priv, vaddr);
          WordHitIsFullFetch(pl, mmu.x, r, View(), e, levels[i], vaddr);
        }
        return Got(ReadWord(mmu.mem, e.ppage + offset), false);
      }
      f := Fetch16(vaddr);
      ghost var fewer := mmu.superpages;
      ghost var between, low := mmu.mem, f;
      if f.Trapped? || f.bits % 4 != 3 {
        if AllSettled(vaddr) {
          FromHalves(pl, mmu.x, r, old(mmu.mem), between, mmu.mem, vaddr, low, low);
        }
        return;
      }
      var half := Fetch16((vaddr + 2) % TWO64);
      assert ((vaddr + 2) % TWO64 + 1) % TWO64 == (vaddr + 3) % TWO64;
      if AllSettled(vaddr) {
        if !Bare(mmu.EnvFor(hart), r.priv) {
          T.SettledEarlier(fewer, mmu.superpages, mmu.debts[hart], vaddr);
          T.SettledEarlier(fewer, mmu.superpages, mmu.debts[hart], (vaddr + 1) % TWO64);
        }
        FromHalves(pl, mmu.x, r, old(mmu.mem), between, mmu.mem, vaddr, low, half);
      }
      f := if half.Trapped? then half else Got(f.bits + half.bits * 0x1_0000, f.device || half.device);
    }

    // ---- What else happens to the machine ----------------------------------------------------------

    method SelectHart(h: nat)
      requires Valid() && h < |mmu.tables|
      modifies mmu`saved, mmu`cur, mmu`gen, mmu`superpages
      ensures Valid() && mmu.cur == h
    {
      hide CacheGood, EnvOf, T.Good;
      mmu.SelectHart(h);
      assert View() == old(View());
    }

    /** Any hart's translation, of anything. */
    method Translate(vaddr: nat, t: AccessType) returns (a: Answer)
      requires Valid() && vaddr < TWO64
      modifies mmu`mem, mmu`superpages, mmu`origins, mmu.tables[mmu.cur]
      ensures Valid()
    {
      hide CacheGood, OnlyADSet, EnvOf, T.Good, Walk, T.Marked, Translation, T.Hit, T.SomeOver, T.Settled;
      ghost var level;
      a, level := mmu.Translate(vaddr, t);
      assert mmu.cur != hart ==> mmu.ViewOf(hart) == old(mmu.ViewOf(hart));
      StillGood();
    }

    /** Any hart's stores. Code is read when it is fetched, so a store to code needs nothing here. */
    method Store(edited: Mem, ghost over: set<nat>)
      requires Valid()
      modifies mmu`mem, mmu`debts
      ensures Valid() && mmu.mem == edited
      ensures mmu.debts[hart] == T.Charged(old(mmu.debts[hart]), mmu.EnvFor(hart), old(mmu.mem), edited, over)
    {
      hide CacheGood, EnvOf, T.Good, T.Charged;
      CacheAfterStore(pl, View(), edited, over);
      mmu.Store(edited, over);
      assert mmu.ViewOf(hart) == old(mmu.ViewOf(hart));
      assert View() == old(View()).(mem := edited, debt := mmu.debts[hart]);
    }

    method FenceAll()
      requires Valid()
      modifies mmu`gen, mmu`superpages, mmu`debts
      ensures Valid() && mmu.debts[mmu.cur] == T.Pages({})
    {
      hide CacheGood, EnvOf, T.Good, OnlyADSet;
      mmu.FenceAll();
      assert mmu.cur != hart ==> mmu.ViewOf(hart) == old(mmu.ViewOf(hart));
      SameIsOnlyAD(mmu.mem);
      StillGood();
    }

    /** Privilege is in the key itself. */
    method SetPriv(mode: PrivMode)
      requires Valid()
      modifies mmu`regs
      ensures Valid()
    {
      hide CacheGood, EnvOf, T.Good, OnlyADSet;
      mmu.SetPriv(mode);
      assert mmu.ViewOf(hart) == old(mmu.ViewOf(hart));
      assert mmu.EnvFor(hart) == old(mmu.EnvFor(hart));
      SameIsOnlyAD(mmu.mem);
      StillGood();
    }

    method WriteCsr(addr: nat, value: nat)
      requires Valid() && addr < CSRS && addr !in {SATP, MENVCFG, SENVCFG}
      modifies mmu`regs, mmu`debts
      ensures Valid()
    {
      hide CacheGood, EnvOf, T.Good, OnlyADSet;
      mmu.WriteCsr(addr, value);
      assert mmu.ViewOf(hart) == old(mmu.ViewOf(hart));
      if !P.IsPmpCsr(addr) {
        UnreadCsrSameEnv(mmu.x, old(mmu.regs)[mmu.cur].csr, addr, value);
        assert mmu.EnvFor(hart) == old(mmu.EnvFor(hart));
      } else {
        PmpCsrMovesKey(old(mmu.regs)[mmu.cur], addr, value);
      }
      SameIsOnlyAD(mmu.mem);
      StillGood();
    }

    method WriteSatp(value: nat)
      requires Valid()
      modifies mmu`regs, mmu`gen, mmu`superpages, mmu`debts
      ensures Valid()
    {
      hide CacheGood, EnvOf, T.Good, OnlyADSet, Mmu.LegalAtp;
      mmu.WriteSatp(value);
      assert mmu.cur != hart ==> mmu.ViewOf(hart) == old(mmu.ViewOf(hart)) && mmu.EnvFor(hart) == old(mmu.EnvFor(hart));
      SameIsOnlyAD(mmu.mem);
      StillGood();
    }

    method WriteEnvcfg(addr: nat, value: nat)
      requires Valid() && addr in {MENVCFG, SENVCFG}
      modifies mmu`regs, mmu`gen, mmu`superpages, mmu`debts
      ensures Valid()
    {
      hide CacheGood, EnvOf, T.Good, OnlyADSet;
      mmu.WriteEnvcfg(addr, value);
      assert mmu.cur != hart ==> mmu.ViewOf(hart) == old(mmu.ViewOf(hart)) && mmu.EnvFor(hart) == old(mmu.EnvFor(hart));
      SameIsOnlyAD(mmu.mem);
      StillGood();
    }

    /** fence_page by any hart. Where it is this one, no page is left that came from a leaf over `va`,
        whatever has been stored since, and the address is paid for. */
    method FencePage(va: nat)
      requires Valid()
      modifies mmu`gen, mmu`superpages, mmu`debts, mmu.tables[mmu.cur], cache
      ensures Valid()
      ensures mmu.debts
           == old(mmu.debts)[mmu.cur := T.DebtAfterFence(old(mmu.ViewOf(mmu.cur)), old(mmu.debts)[mmu.cur], va)]
      ensures mmu.cur == hart ==> forall i, p | 0 <= i < FETCH_CACHE_SIZE && Alive(View(), i, p) ::
        !T.Over(va, cache[i].vpage * 0x1000, levels[i])
    {
      hide CacheGood, EnvOf, T.Good, T.RegionBit, T.FlushPage, T.Over, T.Paid;
      ghost var v := View();
      FlushPageParts(mmu.ViewOf(hart), va);
      SummaryInRange(mmu.ViewOf(hart), mmu.EnvFor(hart), mmu.mem, mmu.debts[hart]);
      var kept := mmu.FlushPage(va);
      if mmu.cur != hart {
        assert View() == v;
      } else if !kept {
        GoodIsShaped(pl, v);
        GoodAfterKeyMoves(pl, v.cache, v.gen, View());
        NoneAlive(v.cache, v.gen, View());
      } else {
        CacheAfterFence(pl, v, va);
        var i := va / 0x1000 % FETCH_CACHE_SIZE;
        if cache[i].vpage == va / 0x1000 {
          cache[i] := cache[i].(vpage := NO_PAGE);
        }
        assert View() == v.(cache := DropPage(v.cache, va / 0x1000), debt := mmu.debts[hart]);
        forall i, p | 0 <= i < FETCH_CACHE_SIZE && Alive(View(), i, p)
          ensures !T.Over(va, cache[i].vpage * 0x1000, levels[i])
        {
          DroppedPageIsGone(pl, v, va, i, p);
        }
      }
    }
  }

  /** An exact translation of a fetch, as the walk the fetch cache speaks of. */
  lemma ExactIsWalked(x: Ext, r: Regs, before: Mem, v: FetchView, vaddr: nat, paddr: nat, level: nat)
    requires v.e == EnvOf(x, r.csr) && (Address(paddr), v.mem) == Translation(x, r, before, vaddr, AccessType.Fetch)
    requires level == if Untranslated(x, r, AccessType.Fetch) then 0
      else Walk(v.e, before, vaddr, AccessType.Fetch, CtxOf(r, AccessType.Fetch)).outcome.level
    ensures Walked(v, before, r.priv, vaddr, paddr, level)
  {
    hide EnvOf, Walk, Translation;
    TranslationIsFetchWalk(x, r, before, vaddr);
    FetchContext(x, r, before, vaddr);
    if r.priv != M && v.e.mode == 0 {
      NoPaging(v.e, before, vaddr, Ctx(r.priv == U, false, false));
    }
  }

  /** The full path of a halfword, from its translations. */
  lemma FullPath(pl: Platform, x: Ext, r: Regs, before: Mem, between: Mem, after: Mem, vaddr: nat, a: Answer, b: Answer)
    requires (a, between) == Translation(x, r, before, vaddr, AccessType.Fetch)
    requires if a.Address? && vaddr % 0x1000 == 0xFFF
      then (b, after) == Translation(x, r, between, (vaddr + 1) % TWO64, AccessType.Fetch)
        else b == a && after == between
    ensures FullFetch16(pl, x, r, before, vaddr) ==
      (if a.Trap? then Trapped(a.cause, a.tval) else if b.Trap? then Trapped(b.cause, b.tval)
       else Rest(pl, x, r, after, vaddr, a.paddr), after)
  {
  }

  lemma NoneAlive(cache: Cache, gen: nat, v: FetchView)
    requires CacheShaped(cache, gen) && v.cache == cache && v.gen > gen
    ensures forall i, p | 0 <= i < FETCH_CACHE_SIZE :: !Alive(v, i, p)
  {
  }

  lemma GoodIsShaped(pl: Platform, v: FetchView)
    requires CacheGood(pl, v)
    ensures CacheShaped(v.cache, v.gen)
  {
  }

  lemma SummaryInRange(v: T.View, e: Env, mem: Mem, debt: T.Debt)
    requires T.Good(v, e, mem, debt)
    ensures v.superpages <= T.ALL_REGIONS
  {
  }

  lemma FlushPageParts(v: T.View, va: nat)
    ensures var w := T.FlushPage(v, va);
      if T.RegionBit(va) in v.superpages then w.gen == v.gen + 1 else w.gen == v.gen && w.superpages == v.superpages
  {
  }

  /** A fetch is not masked, and at its hart's own privilege. */
  lemma FetchContext(x: Ext, r: Regs, mem: Mem, vaddr: nat)
    ensures PointerMask(x, r, vaddr, AccessType.Fetch) == vaddr && EffPriv(r, AccessType.Fetch) == r.priv
    ensures Walk(EnvOf(x, r.csr), mem, vaddr, AccessType.Fetch, CtxOf(r, AccessType.Fetch))
         == Walk(EnvOf(x, r.csr), mem, vaddr, AccessType.Fetch, Ctx(r.priv == U, false, false))
  {
  }

  lemma PmpViewPermits(c: P.PmpConfig, csr: CsrFile, page: nat, access: P.Access, priv: PrivMode)
    ensures P.PagePermits(c, PmpView(csr), page, access, priv) == P.PagePermits(c, csr, page, access, priv)
  {
    P.PageReadsPmpCsrs(c, PmpView(csr), csr, 0, page, access, priv);
  }

  /** An instruction from its halfwords. */
  lemma FromHalves(pl: Platform, x: Ext, r: Regs, before: Mem, between: Mem, after: Mem, vaddr: nat, low: Fetched,
                   high: Fetched)
    requires (low, between) == FullFetch16(pl, x, r, before, vaddr)
    requires var more := low.Got? && low.bits % 4 == 3;
      if more then (high, after) == FullFetch16(pl, x, r, between, (vaddr + 2) % TWO64) else after == between
    ensures var (want, mem) := FullFetch(pl, x, r, before, vaddr);
      && mem == after
      && SameInstruction(if low.Trapped? || low.bits % 4 != 3 then low else if high.Trapped? then high
                         else Got(low.bits + high.bits * 0x1_0000, low.device || high.device), want)
  {
    hide FullFetch16;
    FetchedHalf(pl, x, r, before, vaddr);
    if low.Got? && high.Got? {
      LowTwoBits(low.bits, high.bits);
    }
    if low.Got? {
      assert low.bits < 0x1_0000;
    }
  }

  lemma LowTwoBits(low: nat, high: nat)
    ensures (low + high * 0x1_0000) % 4 == low % 4
  {
  }

  lemma FetchedHalf(pl: Platform, x: Ext, r: Regs, mem: Mem, vaddr: nat)
    ensures var f := FullFetch16(pl, x, r, mem, vaddr).0; f.Got? ==> f.bits < 0x1_0000
  {
    hide Translation, Backed, P.Check;
  }

  lemma UnreadCsrSameEnv(x: Ext, csr: CsrFile, addr: nat, value: nat)
    requires addr < CSRS && addr != SATP && addr != MENVCFG && !P.IsPmpCsr(addr)
    ensures EnvOf(x, csr[addr := value]) == EnvOf(x, csr)
  {
  }

  lemma PmpCsrMovesKey(r: Regs, addr: nat, value: nat)
    requires P.IsPmpCsr(addr) && addr < CSRS
    ensures r.WriteCsr(addr, value) == r || r.WriteCsr(addr, value).stateGen > r.stateGen
  {
  }
}
