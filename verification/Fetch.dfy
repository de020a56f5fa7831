/** Instruction fetch: the full path, a halfword at a time, and when a page in the fetch cache may stand
    in for it. */
module Fetch {
  import opened Words
  import opened Registers
  import opened PageTables
  import opened Translate
  import T = Tlb
  import P = Pmp

  const FETCH_CACHE_SIZE: nat := 4096
  const NO_PAGE: nat := MAX64
  const RAM_BASE: nat := 0x8000_0000

  /** RAM's length, the windows devices answer in, and the halfword a device answers with. */
  datatype Layout = Layout(ramSpan: nat, windows: seq<P.Region>, device: nat -> nat)

  type Platform = l: Layout | l.ramSpan <= TWO32 witness Layout(0, [], _ => 0)

  predicate InRam(pl: Platform, addr: nat, size: nat) {
    RAM_BASE <= addr && addr + size <= RAM_BASE + pl.ramSpan
  }

  predicate Backed(pl: Platform, addr: nat, size: nat) {
    && addr + size <= TWO64
    && (InRam(pl, addr, size) || exists w <- pl.windows :: w.lo <= addr && addr + size <= w.hi)
  }

  function MemByte(mem: Mem, a: nat): (b: nat)
    ensures b < 256
  {
    var w := a / 8 * 8;
    if w in mem then P.Byte(mem[w], a % 8) else 0
  }

  function ReadHalf(mem: Mem, a: nat): (h: nat)
    ensures h < 0x1_0000
  {
    MemByte(mem, a) + MemByte(mem, a + 1) * 0x100
  }

  function ReadWord(mem: Mem, a: nat): nat {
    MemByte(mem, a) + MemByte(mem, a + 1) * 0x100 + MemByte(mem, a + 2) * 0x1_0000 + MemByte(mem, a + 3) * 0x100_0000
  }

  // ---- The full path ----------------------------------------------------------------------------

  /** `device` is whether any of it was read from a device. */
  datatype Fetched = Trapped(cause: nat, tval: nat) | Got(bits: nat, device: bool)

  /** translate_or_trap after the translations, and read16. */
  function Rest(pl: Platform, x: Ext, r: Regs, mem: Mem, vaddr: nat, paddr: nat): Fetched {
    if !Backed(pl, paddr, 2) then Trapped(AccessFault(AccessType.Fetch), vaddr)
    else if x.smpmp && !P.Check(x.pmp, r.csr, paddr, 2, P.Fetch, r.priv)
      then Trapped(AccessFault(AccessType.Fetch), vaddr)
    else if InRam(pl, paddr, 2) then Got(ReadHalf(mem, paddr), false)
    else Got(pl.device(paddr) % 0x1_0000, true)
  }

  /** One halfword, with both pages translated if it straddles two. */
  function FullFetch16(pl: Platform, x: Ext, r: Regs, mem: Mem, vaddr: nat): (Fetched, Mem) {
    var (a, m1) := Translation(x, r, mem, vaddr, AccessType.Fetch);
    match a
    case Trap(cause, tval) => (Trapped(cause, tval), m1)
    case Address(paddr) =>
      if vaddr % 0x1000 != 0xFFF then (Rest(pl, x, r, m1, vaddr, paddr), m1)
      else
        var (b, m2) := Translation(x, r, m1, (vaddr + 1) % TWO64, AccessType.Fetch);
        match b
        case Trap(cause, tval) => (Trapped(cause, tval), m2)
        case Address(_) => (Rest(pl, x, r, m2, vaddr, paddr), m2)
  }

  /** An instruction: the second halfword is fetched only if the first says there is one. */
  function FullFetch(pl: Platform, x: Ext, r: Regs, mem: Mem, vaddr: nat): (Fetched, Mem) {
    var (low, m1) := FullFetch16(pl, x, r, mem, vaddr);
    if low.Trapped? || low.bits % 4 != 3 then (low, m1)
    else
      var (high, m2) := FullFetch16(pl, x, r, m1, (vaddr + 2) % TWO64);
      if high.Trapped? then (high, m2) else (Got(low.bits + high.bits * 0x1_0000, low.device || high.device), m2)
  }

  /** The same instruction: a compressed one is its low half. */
  predicate SameInstruction(f: Fetched, want: Fetched) {
    if want.Trapped? || want.bits % 4 == 3 then f == want
    else f.Got? && f.device == want.device && f.bits % 0x1_0000 == want.bits
  }

  // ---- The cache -----------------------------------------------------------------------------------

  datatype FetchEntry = FetchEntry(vpage: nat, key: nat, ppage: nat)

  type Cache = s: seq<FetchEntry> | |s| == FETCH_CACHE_SIZE
    witness seq(FETCH_CACHE_SIZE, _ => FetchEntry(NO_PAGE, MAX64, 0))

  type Levels = s: seq<nat> | |s| == FETCH_CACHE_SIZE witness seq(FETCH_CACHE_SIZE, _ => 0)

  /** The cache and everything that decides whether what it holds is right. `levels`, no part of the
      machine, says at which level the leaf was that each page was found through. */
  datatype FetchView = FetchView(cache: Cache, levels: Levels, e: Env, gen: nat, superpages: set<nat>, mem: Mem,
                                 debt: T.Debt)

  /** A fetch's translation at privilege `p`: no SUM, no MXR. */
  function FetchWalk(e: Env, p: PrivMode, mem: Mem, va: nat): Result {
    if p == M then Result(Ok(va, 0, false), mem) else Walk(e, mem, va, AccessType.Fetch, Ctx(p == U, false, false))
  }

  /** No page table has a part in a fetch. */
  predicate Bare(e: Env, p: PrivMode) {
    p == M || e.mode == 0
  }

  predicate TranslatesTo(v: FetchView, p: PrivMode, va: nat, paddr: nat, level: nat) {
    var o := FetchWalk(v.e, p, v.mem, va).outcome;
    o.Ok? && !o.updated && o.paddr == paddr && o.level == level
  }

  /** A fetch at privilege `p` of anything in the page goes there, in RAM, and PMP permits it. */
  predicate Promised(pl: Platform, v: FetchView, entry: FetchEntry, p: PrivMode, level: nat) {
    Usable(pl, v, entry, p) && TranslatesTo(v, p, entry.vpage * 0x1000, entry.ppage, level)
  }

  predicate Usable(pl: Platform, v: FetchView, entry: FetchEntry, p: PrivMode) {
    && entry.vpage < 0x10_0000_0000_0000 && entry.ppage % 0x1000 == 0 && InRam(pl, entry.ppage, 0x1000)
    && (v.e.smpmp ==> P.PagePermits(v.e.pmp, v.e.csr, entry.ppage, P.Fetch, p))
  }

  /** What an entry says, it says rightly -- or of a page over an address whose fence is owed. */
  predicate Sound(pl: Platform, v: FetchView, i: nat, p: PrivMode)
    requires i < FETCH_CACHE_SIZE
  {
    var entry, va := v.cache[i], v.cache[i].vpage * 0x1000;
    && Usable(pl, v, entry, p) && T.Marked(v.superpages, va, v.levels[i])
    && (Bare(v.e, p) ==> TranslatesTo(v, p, va, entry.ppage, v.levels[i]))
    && (v.debt.Pages? ==> TranslatesTo(v, p, va, entry.ppage, v.levels[i]) || T.SomeOver(v.debt.owed, va, v.levels[i]))
  }

  predicate Alive(v: FetchView, i: nat, p: PrivMode)
    requires i < FETCH_CACHE_SIZE
  {
    v.cache[i].vpage != NO_PAGE && v.cache[i].key == v.gen * 16 + Code(p)
  }

  /** Every entry is in its place and from no later generation. */
  ghost predicate CacheShaped(cache: Cache, gen: nat) {
    forall i | 0 <= i < FETCH_CACHE_SIZE && cache[i].vpage != NO_PAGE ::
      cache[i].vpage % FETCH_CACHE_SIZE == i && cache[i].key < gen * 16 + 16
  }

  ghost predicate CacheGood(pl: Platform, v: FetchView) {
    && CacheShaped(v.cache, v.gen)
    && forall i, p | 0 <= i < FETCH_CACHE_SIZE && Alive(v, i, p) :: Sound(pl, v, i, p)
  }

  // ---- A hit is the full path -----------------------------------------------------------------------

  lemma TranslationIsFetchWalk(x: Ext, r: Regs, mem: Mem, va: nat)
    ensures var w := FetchWalk(EnvOf(x, r.csr), r.priv, mem, va);
      Translation(x, r, mem, va, AccessType.Fetch) == (Answered(w.outcome, va), w.mem)
  {
    hide EnvOf, Walk;
    var e := EnvOf(x, r.csr);
    FetchIgnoresSumAndMxr(e, mem, va, CtxOf(r, AccessType.Fetch), Ctx(r.priv == U, false, false));
    if e.mode == 0 {
      NoPaging(e, mem, va, Ctx(r.priv == U, false, false));
    }
  }

  lemma NoPaging(e: Env, mem: Mem, va: nat, ctx: Ctx)
    requires PageTables.Levels(e.mode) == 0
    ensures Walk(e, mem, va, AccessType.Fetch, ctx) == Result(Ok(va, 0, false), mem)
  {
  }

  /** The rest of the page goes where its first byte does. */
  lemma PageTranslates(v: FetchView, p: PrivMode, vpage: nat, ppage: nat, va: nat)
    requires vpage < 0x10_0000_0000_0000 && va / 0x1000 == vpage && ppage % 0x1000 == 0
    requires exists level :: TranslatesTo(v, p, vpage * 0x1000, ppage, level)
    ensures FetchWalk(v.e, p, v.mem, va).outcome.Ok? && !FetchWalk(v.e, p, v.mem, va).outcome.updated
    ensures FetchWalk(v.e, p, v.mem, va).outcome.paddr == ppage + va % 0x1000
    ensures FetchWalk(v.e, p, v.mem, va).mem == v.mem
  {
    hide Walk;
    var ctx := Ctx(p == U, false, false);
    if p != M {
      if PageTables.Levels(v.e.mode) == 0 {
        NoPaging(v.e, v.mem, va, ctx);
        NoPaging(v.e, v.mem, vpage * 0x1000, ctx);
      } else {
        SamePageSameWalk(v.e, v.mem, vpage * 0x1000, va, AccessType.Fetch, ctx);
        CleanWalkKeepsMemory(v.e, v.mem, va, AccessType.Fetch, ctx);
      }
    }
  }

  lemma CleanWalkKeepsMemory(e: Env, mem: Mem, va: nat, t: AccessType, ctx: Ctx)
    ensures var w := Walk(e, mem, va, t, ctx); w.outcome.Ok? && !w.outcome.updated ==> w.mem == mem
  {
  }

  /** A halfword that the cache answers is the halfword the full path answers, from RAM, with no fault
      and no update of a page table. */
  lemma HitIsFullFetch(pl: Platform, x: Ext, r: Regs, v: FetchView, entry: FetchEntry, level: nat, vaddr: nat)
    requires v.e == EnvOf(x, r.csr) && Promised(pl, v, entry, r.priv, level)
    requires vaddr / 0x1000 == entry.vpage && vaddr % 0x1000 <= 0xFFE
    ensures FullFetch16(pl, x, r, v.mem, vaddr) == (Got(ReadHalf(v.mem, entry.ppage + vaddr % 0x1000), false), v.mem)
  {
    hide EnvOf, FetchWalk, Translation, P.PagePermits, P.Check, ReadHalf, TranslatesTo, PmpView;
    var paddr := entry.ppage + vaddr % 0x1000;
    PageTranslates(v, r.priv, entry.vpage, entry.ppage, vaddr);
    TranslationIsFetchWalk(x, r, v.mem, vaddr);
    EnvParts(x, r.csr);
    if x.smpmp {
      P.PagePermitsMeansCheck(x.pmp, v.e.csr, entry.ppage, paddr, 2, P.Fetch, r.priv);
      PmpViewChecks(x.pmp, r.csr, paddr, 2, P.Fetch, r.priv);
    }
    assert InRam(pl, paddr, 2);
  }

  lemma EnvParts(x: Ext, csr: CsrFile)
    ensures var e := EnvOf(x, csr); e.smpmp == x.smpmp && e.pmp == x.pmp && e.csr == PmpView(csr)
  {
  }

  /** Four bytes at once are the two halfwords. */
  lemma WordIsTwoHalves(mem: Mem, a: nat)
    ensures ReadWord(mem, a) == ReadHalf(mem, a) + ReadHalf(mem, a + 2) * 0x1_0000
    ensures ReadWord(mem, a) % 0x1_0000 == ReadHalf(mem, a) && ReadWord(mem, a) % 4 == ReadHalf(mem, a) % 4
  {
    hide MemByte;
    assert ReadWord(mem, a) == ReadHalf(mem, a) + ReadHalf(mem, a + 2) * 0x1_0000;
  }

  lemma WordHitIsFullFetch(pl: Platform, x: Ext, r: Regs, v: FetchView, entry: FetchEntry, level: nat, vaddr: nat)
    requires v.e == EnvOf(x, r.csr) && Promised(pl, v, entry, r.priv, level) && vaddr < TWO64
    requires vaddr / 0x1000 == entry.vpage && vaddr % 0x1000 <= 0xFFC
    ensures var (want, mem) := FullFetch(pl, x, r, v.mem, vaddr);
      mem == v.mem && SameInstruction(Got(ReadWord(v.mem, entry.ppage + vaddr % 0x1000), false), want)
  {
    hide EnvOf, FullFetch16, ReadHalf, ReadWord, Promised;
    assert (vaddr + 2) / 0x1000 == entry.vpage && (vaddr + 2) % 0x1000 == vaddr % 0x1000 + 2 && vaddr + 2 < TWO64;
    HitIsFullFetch(pl, x, r, v, entry, level, vaddr);
    HitIsFullFetch(pl, x, r, v, entry, level, vaddr + 2);
    WordIsTwoHalves(v.mem, entry.ppage + vaddr % 0x1000);
  }

  /** What a live entry says is right, unless an owed address could lie under its page. */
  lemma AliveIsPromised(pl: Platform, v: FetchView, i: nat, p: PrivMode, vaddr: nat)
    requires CacheGood(pl, v) && i < FETCH_CACHE_SIZE && Alive(v, i, p) && v.cache[i].vpage == vaddr / 0x1000
    requires Bare(v.e, p) || T.Settled(v.superpages, v.debt, vaddr)
    ensures Promised(pl, v, v.cache[i], p, v.levels[i])
  {
    hide T.Marked, T.Over, TranslatesTo, Usable;
    assert Sound(pl, v, i, p);
    var level, va := v.levels[i], v.cache[i].vpage * 0x1000;
    T.SamePageMarked(v.superpages, va, vaddr, level);
    if !Bare(v.e, p) && v.debt.Pages? {
      NoneOver(v.superpages, v.debt, va, vaddr, level);
    }
  }

  lemma NoneOver(superpages: set<nat>, debt: T.Debt, va: nat, vaddr: nat, level: nat)
    requires T.Settled(superpages, debt, vaddr) && T.Marked(superpages, vaddr, level) && SamePage(va, vaddr)
    ensures !T.SomeOver(debt.owed, va, level)
  {
  }

  // ---- What keeps the cache good ------------------------------------------------------------------------

  lemma GoodAfterKeyMoves(pl: Platform, cache: Cache, gen: nat, v: FetchView)
    requires CacheShaped(cache, gen) && v.cache == cache && v.gen > gen
    ensures CacheGood(pl, v)
  {
  }

  /** Owing everything, a hart's entries need be right of nothing. */
  lemma GoodOwingEverything(pl: Platform, v: FetchView)
    requires CacheGood(pl, v)
    ensures CacheGood(pl, v.(debt := T.Everything))
  {
    hide Usable, TranslatesTo, T.Marked;
    var w := v.(debt := T.Everything);
    SameTranslatesTo(v, w);
    forall i, p | 0 <= i < FETCH_CACHE_SIZE && Alive(w, i, p)
      ensures Sound(pl, w, i, p)
    {
      assert Alive(v, i, p) && Sound(pl, v, i, p);
      assert Usable(pl, v, v.cache[i], p) == Usable(pl, w, w.cache[i], p) by {
        UsableReads(pl, v, w, v.cache[i], p);
      }
    }
  }

  lemma UsableReads(pl: Platform, v: FetchView, w: FetchView, entry: FetchEntry, p: PrivMode)
    requires v.e == w.e
    ensures Usable(pl, v, entry, p) == Usable(pl, w, entry, p)
  {
  }

  lemma PageInRange(pl: Platform, v: FetchView, entry: FetchEntry, p: PrivMode)
    requires Usable(pl, v, entry, p)
    ensures entry.vpage * 0x1000 < TWO64
  {
  }

  /** Walkers' updates of A and D, and superpages put on record. */
  lemma CacheAfterUpdates(pl: Platform, v: FetchView, superpages: set<nat>, mem: Mem)
    requires CacheGood(pl, v) && OnlyADSet(v.mem, mem) && v.superpages <= superpages <= T.ALL_REGIONS
    ensures CacheGood(pl, v.(superpages := superpages, mem := mem))
  {
    hide Walk, OnlyADSet, Usable, T.SomeOver, T.RegionBit;
    var w := v.(superpages := superpages, mem := mem);
    forall i, p | 0 <= i < FETCH_CACHE_SIZE && Alive(w, i, p)
      ensures Sound(pl, w, i, p)
    {
      assert Alive(v, i, p) && Sound(pl, v, i, p);
      UsableReads(pl, v, w, v.cache[i], p);
      var va := v.cache[i].vpage * 0x1000;
      if p != M && TranslatesTo(v, p, va, v.cache[i].ppage, v.levels[i]) {
        UpdatesKeepTranslations(v.e, v.mem, mem, va, AccessType.Fetch, Ctx(p == U, false, false));
      }
    }
  }

  /** Stores, to page tables or -- code being read when it is fetched -- to code. */
  lemma CacheAfterStore(pl: Platform, v: FetchView, mem: Mem, over: set<nat>)
    requires CacheGood(pl, v)
    ensures CacheGood(pl, v.(mem := mem, debt := T.Charged(v.debt, v.e, v.mem, mem, over)))
  {
    hide Usable, T.SomeOver, T.Marked, TranslatesTo, T.EditedOver;
    var w := v.(mem := mem, debt := T.Charged(v.debt, v.e, v.mem, mem, over));
    forall i, p | 0 <= i < FETCH_CACHE_SIZE && Alive(w, i, p)
      ensures Sound(pl, w, i, p)
    {
      assert Alive(v, i, p) && Sound(pl, v, i, p);
      UsableReads(pl, v, w, v.cache[i], p);
      if Bare(v.e, p) {
        BareStays(v, w, p);
      }
      if w.debt.Pages? {
        var va, level := v.cache[i].vpage * 0x1000, v.levels[i];
        var edited := if T.EditedOver(v.e, v.mem, mem, {}) then {} else over;
        assert w.debt.owed == v.debt.owed + edited;
        PageInRange(pl, v, v.cache[i], p);
        EditKeepsOrOwes(v, w, p, va, v.cache[i].ppage, level, edited);
      }
    }
  }

  lemma BareStays(v: FetchView, w: FetchView, p: PrivMode)
    requires v.e == w.e && Bare(v.e, p)
    ensures forall va: nat, paddr: nat, level: nat ::
      TranslatesTo(v, p, va, paddr, level) == TranslatesTo(w, p, va, paddr, level)
  {
  }

  lemma EditKeepsOrOwes(v: FetchView, w: FetchView, p: PrivMode, va: nat, ppage: nat, level: nat, edited: set<nat>)
    requires v.e == w.e && v.debt.Pages? && w.debt.Pages? && w.debt.owed == v.debt.owed + edited && va < TWO64
    requires T.EditedOver(v.e, v.mem, w.mem, edited)
    requires TranslatesTo(v, p, va, ppage, level) || T.SomeOver(v.debt.owed, va, level)
    ensures TranslatesTo(w, p, va, ppage, level) || T.SomeOver(w.debt.owed, va, level)
  {
  }

  function PageBase(a: nat): nat {
    a / 0x1000 * 0x1000
  }

  /** Where a translation went: there by the walk that brought memory here, or by a TLB entry over an
      address whose fence is owed. */
  predicate Arrived(v: FetchView, before: Mem, p: PrivMode, vaddr: nat, paddr: nat, level: nat) {
    && T.Marked(v.superpages, vaddr, level)
    && (Bare(v.e, p) ==> Walked(v, before, p, vaddr, paddr, level))
    && (v.debt.Pages? ==> Walked(v, before, p, vaddr, paddr, level) || T.SomeOver(v.debt.owed, vaddr, level))
  }

  predicate Walked(v: FetchView, before: Mem, p: PrivMode, vaddr: nat, paddr: nat, level: nat) {
    var w := FetchWalk(v.e, p, before, vaddr);
    w.outcome.Ok? && w.mem == v.mem && w.outcome.paddr == paddr && w.outcome.level == level
  }

  function Inserted(v: FetchView, i: nat, entry: FetchEntry, level: nat): FetchView
    requires i < FETCH_CACHE_SIZE
  {
    v.(cache := v.cache[i := entry], levels := v.levels[i := level])
  }

  /** The page of a fetch that went through the full path. Walking for it may have set A: the TLB would
      not keep that walk, but the fetch cache may. */
  lemma CacheAfterInsert(pl: Platform, v: FetchView, before: Mem, p: PrivMode, vaddr: nat, paddr: nat, level: nat)
    requires CacheGood(pl, v) && vaddr < TWO64
    requires Arrived(v, before, p, vaddr, paddr, level)
    requires InRam(pl, PageBase(paddr), 0x1000)
    requires v.e.smpmp ==> P.PagePermits(v.e.pmp, v.e.csr, PageBase(paddr), P.Fetch, p)
    ensures var entry := FetchEntry(vaddr / 0x1000, v.gen * 16 + Code(p), PageBase(paddr));
      CacheGood(pl, Inserted(v, vaddr / 0x1000 % FETCH_CACHE_SIZE, entry, level))
  {
    hide Walked, TranslatesTo, P.PagePermits, T.Marked, T.SomeOver;
    var entry := FetchEntry(vaddr / 0x1000, v.gen * 16 + Code(p), PageBase(paddr));
    var at := vaddr / 0x1000 % FETCH_CACHE_SIZE;
    var w := Inserted(v, at, entry, level);
    T.SamePageMarked(v.superpages, vaddr, PageBase(vaddr), level);
    SomeOverPage(v.debt, vaddr, level);
    if Walked(v, before, p, vaddr, paddr, level) {
      FirstByteTranslates(v, before, p, vaddr, paddr, level);
    }
    SameTranslatesTo(v, w);
    forall i, q | 0 <= i < FETCH_CACHE_SIZE && Alive(w, i, q)
      ensures Sound(pl, w, i, q)
    {
      if i != at {
        assert Alive(v, i, q) && Sound(pl, v, i, q);
      }
    }
  }

  lemma SomeOverPage(debt: T.Debt, vaddr: nat, level: nat)
    ensures debt.Pages? && T.SomeOver(debt.owed, vaddr, level) ==> T.SomeOver(debt.owed, PageBase(vaddr), level)
  {
  }

  lemma SameTranslatesTo(v: FetchView, w: FetchView)
    requires v.e == w.e && v.mem == w.mem
    ensures forall p: PrivMode, va: nat, paddr: nat, level: nat {:trigger TranslatesTo(w, p, va, paddr, level)}
      {:trigger TranslatesTo(v, p, va, paddr, level)} ::
        TranslatesTo(v, p, va, paddr, level) == TranslatesTo(w, p, va, paddr, level)
  {
  }

  lemma FirstByteTranslates(v: FetchView, before: Mem, p: PrivMode, vaddr: nat, paddr: nat, level: nat)
    requires vaddr < TWO64
    requires Walked(v, before, p, vaddr, paddr, level)
    ensures TranslatesTo(v, p, PageBase(vaddr), PageBase(paddr), level)
  {
    hide Walk;
    var ctx := Ctx(p == U, false, false);
    var va := PageBase(vaddr);
    if p != M {
      WalkAgain(v.e, before, vaddr, AccessType.Fetch, ctx);
      if PageTables.Levels(v.e.mode) == 0 {
        NoPaging(v.e, v.mem, va, ctx);
        NoPaging(v.e, before, vaddr, ctx);
      } else {
        SamePageSameWalk(v.e, v.mem, vaddr, va, AccessType.Fetch, ctx);
      }
    }
  }

  // ---- Address fences --------------------------------------------------------------------------------------

  function DropPage(cache: Cache, vpage: nat): Cache {
    var i := vpage % FETCH_CACHE_SIZE;
    if cache[i].vpage == vpage then cache[i := cache[i].(vpage := NO_PAGE)] else cache
  }

  /** fence_page where the TLB kept its generation, whatever has been stored since the entries were made:
      no page that is left came from a leaf, of any size, over `va`. */
  lemma DroppedPageIsGone(pl: Platform, v: FetchView, va: nat, i: nat, p: PrivMode)
    requires CacheGood(pl, v) && v.superpages <= T.ALL_REGIONS && T.RegionBit(va) !in v.superpages
    requires var w := v.(cache := DropPage(v.cache, va / 0x1000)); i < FETCH_CACHE_SIZE && Alive(w, i, p)
    ensures DropPage(v.cache, va / 0x1000)[i] == v.cache[i] && Alive(v, i, p)
    ensures !T.Over(va, v.cache[i].vpage * 0x1000, v.levels[i])
  {
    hide Usable, TranslatesTo, T.Marked, T.RegionBit, T.Over;
    assert Alive(v, i, p) && Sound(pl, v, i, p);
    assert !SamePage(va, v.cache[i].vpage * 0x1000);
    if T.Over(va, v.cache[i].vpage * 0x1000, v.levels[i]) {
      T.OverMeansSamePage(v.superpages, va, v.cache[i].vpage * 0x1000, v.levels[i]);
    }
  }

  /** Such a fence pays for the address. */
  lemma CacheAfterFence(pl: Platform, v: FetchView, va: nat)
    requires CacheGood(pl, v) && v.superpages <= T.ALL_REGIONS && T.RegionBit(va) !in v.superpages
    ensures var debt := if v.debt.Everything? then v.debt else T.Pages(T.Paid(v.debt.owed, va));
      CacheGood(pl, v.(cache := DropPage(v.cache, va / 0x1000), debt := debt))
  {
    hide Usable, TranslatesTo, T.Marked, T.RegionBit, T.Over, T.Paid;
    var w := v.(cache := DropPage(v.cache, va / 0x1000),
                debt := if v.debt.Everything? then v.debt else T.Pages(T.Paid(v.debt.owed, va)));
    SameTranslatesTo(v, w);
    forall i, p | 0 <= i < FETCH_CACHE_SIZE && Alive(w, i, p)
      ensures Sound(pl, w, i, p)
    {
      DroppedPageIsGone(pl, v, va, i, p);
      assert Sound(pl, v, i, p);
      UsableReads(pl, v, w, v.cache[i], p);
      if v.debt.Pages? && T.SomeOver(v.debt.owed, v.cache[i].vpage * 0x1000, v.levels[i]) {
        T.StillOwed(v.debt.owed, va, v.cache[i].vpage * 0x1000, v.levels[i]);
      }
    }
  }
}
