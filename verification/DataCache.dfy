/** Loads and stores inside one page: the full path, and when a page in the load or the store cache may
    stand in for it. Entries are filed under the page of the address before pointer masking; page tables
    and fences speak of the address after it. */
module DataCache {
  import opened Words
  import opened Registers
  import opened PageTables
  import opened Translate
  import F = Fetch
  import T = Tlb
  import P = Pmp

  /** RAM and the devices, the misaligned-access option, and the address of the host's port (0 for none). */
  datatype Machine = Machine(layout: F.Platform, misalignedTraps: bool, port: nat)

  type Platform = pl: Machine | pl.port < TWO64 witness Machine(F.Layout(0, [], _ => 0), false, 0)

  const FRAMEBUFFERS: seq<P.Region> :=
    [P.Region(0x1020_0000, 0x1020_0000 + 320 * 200 * 4), P.Region(0x5000_0000, 0x5000_0000 + 1168 * 4 * 1056)]

  predicate InFrame(paddr: nat, size: nat) {
    exists w <- FRAMEBUFFERS :: w.lo <= paddr && paddr + size <= w.hi
  }

  predicate Backed(pl: Platform, paddr: nat, size: nat) {
    F.Backed(pl.layout, paddr, size) || InFrame(paddr, size)
  }

  /** direct_page: the page is one piece of plain memory. */
  predicate DirectPage(pl: Platform, page: nat) {
    F.InRam(pl.layout, page, 0x1000) || InFrame(page, 0x1000)
  }

  // ---- The full path --------------------------------------------------------------------------------

  /** Where an access goes, and whether the host looks at its port after it. */
  datatype Reach = Trapped(cause: nat, tval: nat) | At(paddr: nat, port: bool)

  function AccessOf(t: AccessType): P.Access {
    match t
    case Fetch => P.Fetch
    case Load => P.Load
    case _ => P.Store
  }

  /** The privilege PMP checks a load or store at. */
  function PmpPriv(r: Regs): PrivMode {
    if Has(r.csr[MSTATUS], MPRV) then PrivOf(Mpp(r.csr[MSTATUS])) else r.priv
  }

  /** write32 looks at the port if it stored its high half; write64 is two of these. */
  predicate Port(pl: Platform, t: AccessType, paddr: nat, size: nat) {
    && t == Store && pl.port != 0
    && ((size >= 4 && paddr == (pl.port + 4) % TWO64) || (size == 8 && (paddr + 4) % TWO64 == (pl.port + 4) % TWO64))
  }

  function Rest(pl: Platform, x: Ext, r: Regs, vaddr: nat, size: nat, t: AccessType, paddr: nat): Reach {
    if !Backed(pl, paddr, size) then Trapped(AccessFault(t), vaddr)
    else if x.smpmp && !P.Check(x.pmp, r.csr, paddr, size, AccessOf(t), PmpPriv(r)) then Trapped(AccessFault(t), vaddr)
    else At(paddr, Port(pl, t, paddr, size))
  }

  function Misaligned(t: AccessType): nat {
    if t == Load then 4 else 6
  }

  /** load_virtual and store_virtual in one page, with no cache and no TLB. */
  function FullAccess(pl: Platform, x: Ext, r: Regs, mem: Mem, vaddr: nat, size: nat, t: AccessType): (Reach, Mem)
    requires size > 0
  {
    if pl.misalignedTraps && vaddr % size != 0 then (Trapped(Misaligned(t), vaddr), mem)
    else
      var (a, m) := Translation(x, r, mem, vaddr, t);
      match a
      case Trap(cause, tval) => (Trapped(cause, tval), m)
      case Address(paddr) => (Rest(pl, x, r, vaddr, size, t, paddr), m)
  }

  // ---- Who accesses, and what its addresses mean -------------------------------------------------------

  /** What a key says besides the generation. */
  datatype Who = Who(priv: PrivMode, sum: bool, mxr: bool)

  function WhoOf(r: Regs): Who {
    Who(r.priv, Has(r.csr[MSTATUS], SUM), Has(r.csr[MSTATUS], MXR))
  }

  function Tag(who: Who): (tag: nat)
    ensures tag < 16
  {
    (if who.mxr then 8 else 0) + (if who.sum then 4 else 0) + Code(who.priv)
  }

  function Key(gen: nat, who: Who): nat {
    gen * 16 + Tag(who)
  }

  lemma KeyIsDataKey(m: Moment)
    ensures Key(Generation(m), WhoOf(m.r)) == DataKey(m)
  {
    SumAndMxr(m.r.csr[MSTATUS]);
  }

  lemma KeyInjective(g: nat, a: Who, h: nat, b: Who)
    ensures Key(g, a) == Key(h, b) <==> g == h && a == b
  {
  }

  /** The pointer-masking fields: whether the extension is there, and each mode's. */
  datatype Masks = Masks(on: bool, u: nat, s: nat, m: nat)

  function MasksOf(x: Ext, csr: CsrFile): Masks {
    Masks(x.ssnpm, csr[SENVCFG] / 0x1_0000_0000 % 4, csr[MENVCFG] / 0x1_0000_0000 % 4, csr[MSECCFG] / 0x1_0000_0000 % 4)
  }

  function FieldOf(masks: Masks, p: PrivMode): nat {
    match p
    case U => masks.u
    case S => masks.s
    case M => masks.m
  }

  function Masked(masks: Masks, who: Who, va: nat): nat {
    if !masks.on || (who.priv != M && who.mxr) then va
    else
      match FieldOf(masks, who.priv)
      case 2 => SignExtend(va, 0x100_0000_0000_0000)
      case 3 => SignExtend(va, 0x8000_0000_0000)
      case _ => va
  }

  /** No access a page table has a part in is masked. */
  predicate Unmasked(masks: Masks) {
    masks.on ==> masks.u !in {2, 3} && masks.s !in {2, 3}
  }

  /** Without MPRV a load or store is its hart's own. */
  lemma OwnAccess(x: Ext, r: Regs, va: nat, t: AccessType)
    requires t != Fetch && !Has(r.csr[MSTATUS], MPRV)
    ensures PointerMask(x, r, va, t) == Masked(MasksOf(x, r.csr), WhoOf(r), va)
    ensures EffPriv(r, t) == PmpPriv(r) == r.priv && CtxOf(r, t) == CtxFor(WhoOf(r))
  {
    hide SignExtend;
  }

  function CtxFor(who: Who): Ctx {
    Ctx(who.priv == U, who.sum, who.mxr)
  }

  /** Masking moves pages about, not the bytes in them. */
  lemma MaskedPage(masks: Masks, who: Who, va: nat)
    ensures Masked(masks, who, va) % 0x1000 == va % 0x1000
    ensures Masked(masks, who, va) / 0x1000 == Masked(masks, who, va / 0x1000 * 0x1000) / 0x1000
    ensures va < TWO64 ==> Masked(masks, who, va) < TWO64
  {
    hide SignExtend;
    ExtendedPage57(va);
    ExtendedPage48(va);
  }

  /** Sign extension keeps a page's bytes in order. */
  predicate KeepsPages(va: nat, half: nat)
    requires 0 < half < TWO64
  {
    && SignExtend(va, half) % 0x1000 == va % 0x1000 && SignExtend(va, half) < TWO64
    && SignExtend(va, half) / 0x1000 == SignExtend(va / 0x1000 * 0x1000, half) / 0x1000
  }

  lemma ExtendedPage57(va: nat)
    ensures KeepsPages(va, 0x100_0000_0000_0000)
  {
    var frame, offset := va / 0x1000, va % 0x1000;
    LowOf57(frame, offset);
    LowOf57(frame, 0);
    Extended57(frame % 0x2000_0000_0000, offset);
    Extended57(frame % 0x2000_0000_0000, 0);
  }

  lemma ExtendedPage48(va: nat)
    ensures KeepsPages(va, 0x8000_0000_0000)
  {
    var frame, offset := va / 0x1000, va % 0x1000;
    LowOf48(frame, offset);
    LowOf48(frame, 0);
    Extended48(frame % 0x10_0000_0000, offset);
    Extended48(frame % 0x10_0000_0000, 0);
  }

  lemma LowOf57(frame: nat, offset: nat)
    requires offset < 0x1000
    ensures (frame * 0x1000 + offset) % 0x200_0000_0000_0000 == frame % 0x2000_0000_0000 * 0x1000 + offset
  {
  }

  lemma LowOf48(frame: nat, offset: nat)
    requires offset < 0x1000
    ensures (frame * 0x1000 + offset) % 0x1_0000_0000_0000 == frame % 0x10_0000_0000 * 0x1000 + offset
  {
  }

  lemma Extended57(frame: nat, offset: nat)
    requires frame < 0x2000_0000_0000 && offset < 0x1000
    ensures var low := frame * 0x1000 + offset;
      && (low >= 0x100_0000_0000_0000 <==> frame >= 0x1000_0000_0000)
      && low + TWO64 - 0x200_0000_0000_0000 == (frame + 0x10_0000_0000_0000 - 0x2000_0000_0000) * 0x1000 + offset
  {
  }

  lemma Extended48(frame: nat, offset: nat)
    requires frame < 0x10_0000_0000 && offset < 0x1000
    ensures var low := frame * 0x1000 + offset;
      && (low >= 0x8000_0000_0000 <==> frame >= 0x8_0000_0000)
      && low + TWO64 - 0x1_0000_0000_0000 == (frame + 0x10_0000_0000_0000 - 0x10_0000_0000) * 0x1000 + offset
  {
  }

  // ---- The caches ----------------------------------------------------------------------------------------

  /** One of the two caches and everything that decides whether what it holds is right. `levels`, no part
      of the machine, says at which level the leaf was that each page was found through. */
  datatype DataView = DataView(t: AccessType, cache: F.Cache, levels: F.Levels, e: Env, masks: Masks, mprv: bool,
                               gen: nat, superpages: set<nat>, mem: Mem, debt: T.Debt)

  /** A translation of a masked address. */
  function DataWalk(e: Env, t: AccessType, who: Who, mem: Mem, va: nat): Result {
    if who.priv == M then Result(Ok(va, 0, false), mem) else Walk(e, mem, va, t, CtxFor(who))
  }

  predicate Bare(e: Env, who: Who) {
    who.priv == M || e.mode == 0
  }

  predicate TranslatesTo(v: DataView, who: Who, va: nat, paddr: nat, level: nat) {
    var o := DataWalk(v.e, v.t, who, v.mem, va).outcome;
    o.Ok? && !o.updated && o.paddr == paddr && o.level == level
  }

  /** Whether the port is in the page. */
  predicate HoldsPort(pl: Platform, page: nat) {
    pl.port != 0 && (pl.port / 0x1000 == page / 0x1000 || (pl.port + 7) % TWO64 / 0x1000 == page / 0x1000)
  }

  /** The page may be reached directly: it is plain memory that the whole page may be read or written of. */
  predicate Usable(pl: Platform, v: DataView, entry: F.FetchEntry, p: PrivMode) {
    && entry.vpage < 0x10_0000_0000_0000 && entry.ppage % 0x1000 == 0 && DirectPage(pl, entry.ppage) && !v.mprv
    && (v.e.smpmp ==> P.PagePermits(v.e.pmp, v.e.csr, entry.ppage, AccessOf(v.t), p))
    && (v.t == Store ==> !HoldsPort(pl, entry.ppage))
  }

  /** An access by `who` to anything in the page goes there. */
  predicate Promised(pl: Platform, v: DataView, entry: F.FetchEntry, who: Who, level: nat) {
    && Usable(pl, v, entry, who.priv)
    && TranslatesTo(v, who, Masked(v.masks, who, entry.vpage * 0x1000), entry.ppage, level)
  }

  /** The masked address of the page an entry is for. */
  function EntryPage(v: DataView, i: nat, who: Who): nat
    requires i < F.FETCH_CACHE_SIZE
  {
    Masked(v.masks, who, v.cache[i].vpage * 0x1000)
  }

  /** What an entry says, it says rightly -- or of a page over an address whose fence is owed. */
  predicate Sound(pl: Platform, v: DataView, i: nat, who: Who)
    requires i < F.FETCH_CACHE_SIZE
  {
    var entry, va := v.cache[i], EntryPage(v, i, who);
    && Usable(pl, v, entry, who.priv) && T.Marked(v.superpages, va, v.levels[i])
    && (Bare(v.e, who) ==> TranslatesTo(v, who, va, entry.ppage, v.levels[i]))
    && (v.debt.Pages? ==>
          TranslatesTo(v, who, va, entry.ppage, v.levels[i]) || T.SomeOver(v.debt.owed, va, v.levels[i]))
  }

  predicate Alive(v: DataView, i: nat, who: Who)
    requires i < F.FETCH_CACHE_SIZE
  {
    v.cache[i].vpage != F.NO_PAGE && v.cache[i].key == Key(v.gen, who)
  }

  ghost predicate DataGood(pl: Platform, v: DataView) {
    && F.CacheShaped(v.cache, v.gen)
    && forall i, who | 0 <= i < F.FETCH_CACHE_SIZE && Alive(v, i, who) :: Sound(pl, v, i, who)
  }

  // ---- A hit is the full path -----------------------------------------------------------------------------

  lemma TranslationIsDataWalk(x: Ext, r: Regs, mem: Mem, vaddr: nat, t: AccessType)
    requires t in {Load, Store} && !Has(r.csr[MSTATUS], MPRV)
    ensures var va := Masked(MasksOf(x, r.csr), WhoOf(r), vaddr);
      var w := DataWalk(EnvOf(x, r.csr), t, WhoOf(r), mem, va);
      Translation(x, r, mem, vaddr, t) == (Answered(w.outcome, va), w.mem)
  {
    hide EnvOf, Walk, Masked, PointerMask;
    OwnAccess(x, r, vaddr, t);
    var e := EnvOf(x, r.csr);
    if e.mode == 0 {
      NoPaging(e, mem, Masked(MasksOf(x, r.csr), WhoOf(r), vaddr), t, CtxOf(r, t));
    }
  }

  lemma NoPaging(e: Env, mem: Mem, va: nat, t: AccessType, ctx: Ctx)
    requires Levels(e.mode) == 0
    ensures Walk(e, mem, va, t, ctx) == Result(Ok(va, 0, false), mem)
  {
  }

  /** One page, one answer. */
  lemma SamePageSameData(e: Env, t: AccessType, who: Who, mem: Mem, a: nat, b: nat)
    requires SamePage(a, b) && a < TWO64 && b < TWO64
    ensures SameBut(DataWalk(e, t, who, mem, a).outcome, a, DataWalk(e, t, who, mem, b).outcome, b)
  {
    hide Walk;
    if who.priv != M {
      if Levels(e.mode) == 0 {
        NoPaging(e, mem, a, t, CtxFor(who));
        NoPaging(e, mem, b, t, CtxFor(who));
      } else {
        SamePageSameWalk(e, mem, a, b, t, CtxFor(who));
      }
    }
  }

  lemma CleanKeepsMemory(e: Env, t: AccessType, who: Who, mem: Mem, va: nat)
    ensures var w := DataWalk(e, t, who, mem, va); w.outcome.Ok? && !w.outcome.updated ==> w.mem == mem
  {
    F.CleanWalkKeepsMemory(e, mem, va, t, CtxFor(who));
  }

  /** No store in a page without the port is looked at by the host. */
  lemma NoPort(pl: Platform, t: AccessType, page: nat, paddr: nat, size: nat)
    requires t == Store ==> !HoldsPort(pl, page)
    requires page % 0x1000 == 0 && page <= paddr && paddr + size <= page + 0x1000 <= TWO64
    ensures !Port(pl, t, paddr, size)
  {
    if Port(pl, t, paddr, size) {
      if paddr != pl.port {
        SamePageAs(page, paddr + 3);
        PortAfter(pl.port, paddr);
      } else {
        SamePageAs(page, paddr);
      }
    }
  }

  lemma PortAfter(port: nat, paddr: nat)
    requires port < TWO64 && paddr + 4 <= TWO64 && paddr == (port + 4) % TWO64
    ensures (port + 7) % TWO64 == paddr + 3
  {
  }

  lemma SamePageAs(page: nat, a: nat)
    requires page % 0x1000 == 0 && page <= a < page + 0x1000
    ensures a / 0x1000 == page / 0x1000
  {
  }

  /** An access that a cache answers goes where the full path takes it, in the same memory, with no fault,
      no update of a page table and nothing for the host to see. */
  lemma HitIsFullAccess(pl: Platform, x: Ext, r: Regs, v: DataView, entry: F.FetchEntry, level: nat,
                        vaddr: nat, size: nat)
    requires v.t in {Load, Store} && v.e == EnvOf(x, r.csr) && v.masks == MasksOf(x, r.csr)
    requires v.mprv == Has(r.csr[MSTATUS], MPRV) && Promised(pl, v, entry, WhoOf(r), level)
    requires size > 0 && vaddr / 0x1000 == entry.vpage && vaddr % 0x1000 + size <= 0x1000
    requires !(pl.misalignedTraps && vaddr % size != 0)
    ensures FullAccess(pl, x, r, v.mem, vaddr, size, v.t) == (At(entry.ppage + vaddr % 0x1000, false), v.mem)
    ensures DirectPage(pl, entry.ppage)
  {
    hide EnvOf, DataWalk, Translation, P.PagePermits, P.Check, PmpView, Masked, Port, HoldsPort;
    var who, paddr := WhoOf(r), entry.ppage + vaddr % 0x1000;
    var va := Masked(v.masks, who, vaddr);
    MaskedPage(v.masks, who, vaddr);
    MaskedPage(v.masks, who, entry.vpage * 0x1000);
    SamePageSameData(v.e, v.t, who, v.mem, Masked(v.masks, who, entry.vpage * 0x1000), va);
    CleanKeepsMemory(v.e, v.t, who, v.mem, va);
    TranslationIsDataWalk(x, r, v.mem, vaddr, v.t);
    OwnAccess(x, r, vaddr, v.t);
    F.EnvParts(x, r.csr);
    if x.smpmp {
      P.PagePermitsMeansCheck(x.pmp, v.e.csr, entry.ppage, paddr, size, AccessOf(v.t), r.priv);
      PmpViewChecks(x.pmp, r.csr, paddr, size, AccessOf(v.t), r.priv);
    }
    DirectIsBacked(pl, entry.ppage, paddr, size);
    NoPort(pl, v.t, entry.ppage, paddr, size);
  }

  lemma DirectIsBacked(pl: Platform, page: nat, paddr: nat, size: nat)
    requires DirectPage(pl, page) && page <= paddr && paddr + size <= page + 0x1000
    ensures Backed(pl, paddr, size) && page + 0x1000 <= TWO64
  {
    if InFrame(page, 0x1000) {
      var w :| w in FRAMEBUFFERS && w.lo <= page && page + 0x1000 <= w.hi;
      assert InFrame(paddr, size);
    } else {
      assert F.InRam(pl.layout, paddr, size);
    }
  }

  /** What a live entry says is right, unless an owed address could lie under its page. */
  lemma AliveIsPromised(pl: Platform, v: DataView, i: nat, who: Who, vaddr: nat)
    requires DataGood(pl, v) && i < F.FETCH_CACHE_SIZE && Alive(v, i, who) && v.cache[i].vpage == vaddr / 0x1000
    requires Bare(v.e, who) || T.Settled(v.superpages, v.debt, Masked(v.masks, who, vaddr))
    ensures Promised(pl, v, v.cache[i], who, v.levels[i])
  {
    hide T.Marked, T.Over, TranslatesTo, Usable, Masked;
    assert Sound(pl, v, i, who);
    var level, va, at := v.levels[i], EntryPage(v, i, who), Masked(v.masks, who, vaddr);
    MaskedPage(v.masks, who, vaddr);
    T.SamePageMarked(v.superpages, va, at, level);
    if !Bare(v.e, who) && v.debt.Pages? {
      F.NoneOver(v.superpages, v.debt, va, at, level);
    }
  }

  // ---- What keeps a cache good -------------------------------------------------------------------------------

  lemma GoodAfterKeyMoves(pl: Platform, cache: F.Cache, gen: nat, v: DataView)
    requires F.CacheShaped(cache, gen) && v.cache == cache && v.gen > gen
    ensures DataGood(pl, v) && forall i, who | 0 <= i < F.FETCH_CACHE_SIZE :: !Alive(v, i, who)
  {
  }

  /** Whoever owes `more` owes no less than who owes `less`. */
  predicate Covers(more: T.Debt, less: T.Debt) {
    more.Everything? || (less.Pages? && less.owed <= more.owed)
  }

  lemma SettledByLess(superpages: set<nat>, more: T.Debt, less: T.Debt, va: nat)
    requires Covers(more, less) && T.Settled(superpages, more, va)
    ensures T.Settled(superpages, less, va)
  {
  }

  lemma UsableReads(pl: Platform, v: DataView, w: DataView, entry: F.FetchEntry, p: PrivMode)
    requires v.e == w.e && v.t == w.t && v.mprv == w.mprv
    ensures Usable(pl, v, entry, p) == Usable(pl, w, entry, p)
  {
  }

  lemma SameTranslatesTo(v: DataView, w: DataView)
    requires v.e == w.e && v.t == w.t && v.mem == w.mem
    ensures forall who: Who, va: nat, paddr: nat, level: nat {:trigger TranslatesTo(w, who, va, paddr, level)}
      {:trigger TranslatesTo(v, who, va, paddr, level)} ::
        TranslatesTo(v, who, va, paddr, level) == TranslatesTo(w, who, va, paddr, level)
  {
  }

  lemma GoodOwingMore(pl: Platform, v: DataView, debt: T.Debt)
    requires DataGood(pl, v) && Covers(debt, v.debt)
    ensures DataGood(pl, v.(debt := debt))
  {
    hide Usable, TranslatesTo, T.Marked, T.Over, Masked;
    var w := v.(debt := debt);
    SameTranslatesTo(v, w);
    forall i, who | 0 <= i < F.FETCH_CACHE_SIZE && Alive(w, i, who)
      ensures Sound(pl, w, i, who)
    {
      assert Alive(v, i, who) && Sound(pl, v, i, who);
      UsableReads(pl, v, w, v.cache[i], who.priv);
    }
  }

  /** Walkers' updates of A and D, and superpages put on record. */
  lemma GoodAfterUpdates(pl: Platform, v: DataView, superpages: set<nat>, mem: Mem)
    requires DataGood(pl, v) && OnlyADSet(v.mem, mem) && v.superpages <= superpages <= T.ALL_REGIONS
    ensures DataGood(pl, v.(superpages := superpages, mem := mem))
  {
    hide Walk, OnlyADSet, Usable, T.SomeOver, T.RegionBit, Masked;
    var w := v.(superpages := superpages, mem := mem);
    forall i, who | 0 <= i < F.FETCH_CACHE_SIZE && Alive(w, i, who)
      ensures Sound(pl, w, i, who)
    {
      assert Alive(v, i, who) && Sound(pl, v, i, who);
      UsableReads(pl, v, w, v.cache[i], who.priv);
      var va := EntryPage(v, i, who);
      if who.priv != M && TranslatesTo(v, who, va, v.cache[i].ppage, v.levels[i]) {
        UpdatesKeepTranslations(v.e, v.mem, mem, va, v.t, CtxFor(who));
      }
    }
  }

  lemma EntryInRange(pl: Platform, v: DataView, i: nat, who: Who)
    requires i < F.FETCH_CACHE_SIZE && Usable(pl, v, v.cache[i], who.priv)
    ensures EntryPage(v, i, who) < TWO64
  {
    hide Masked;
    MaskedPage(v.masks, who, v.cache[i].vpage * 0x1000);
  }

  /** Stores by anyone, to anything. */
  lemma GoodAfterStore(pl: Platform, v: DataView, mem: Mem, over: set<nat>)
    requires DataGood(pl, v)
    ensures DataGood(pl, v.(mem := mem, debt := T.Charged(v.debt, v.e, v.mem, mem, over)))
  {
    hide Usable, T.SomeOver, T.Marked, TranslatesTo, T.EditedOver, Masked;
    var w := v.(mem := mem, debt := T.Charged(v.debt, v.e, v.mem, mem, over));
    forall i, who | 0 <= i < F.FETCH_CACHE_SIZE && Alive(w, i, who)
      ensures Sound(pl, w, i, who)
    {
      assert Alive(v, i, who) && Sound(pl, v, i, who);
      UsableReads(pl, v, w, v.cache[i], who.priv);
      if Bare(v.e, who) {
        BareStays(v, w, who);
      }
      if w.debt.Pages? {
        var edited := if T.EditedOver(v.e, v.mem, mem, {}) then {} else over;
        assert w.debt.owed == v.debt.owed + edited;
        EntryInRange(pl, v, i, who);
        EditKeepsOrOwes(v, w, who, EntryPage(v, i, who), v.cache[i].ppage, v.levels[i], edited);
      }
    }
  }

  lemma BareStays(v: DataView, w: DataView, who: Who)
    requires v.e == w.e && v.t == w.t && Bare(v.e, who)
    ensures forall va: nat, paddr: nat, level: nat ::
      TranslatesTo(v, who, va, paddr, level) == TranslatesTo(w, who, va, paddr, level)
  {
  }

  lemma EditKeepsOrOwes(v: DataView, w: DataView, who: Who, va: nat, ppage: nat, level: nat, edited: set<nat>)
    requires v.e == w.e && v.t == w.t && v.debt.Pages? && w.debt.Pages? && w.debt.owed == v.debt.owed + edited
    requires va < TWO64 && T.EditedOver(v.e, v.mem, w.mem, edited)
    requires TranslatesTo(v, who, va, ppage, level) || T.SomeOver(v.debt.owed, va, level)
    ensures TranslatesTo(w, who, va, ppage, level) || T.SomeOver(w.debt.owed, va, level)
  {
  }

  /** Where a translation went: there by the walk that brought memory here, or by a TLB entry over an
      address whose fence is owed. */
  predicate Arrived(v: DataView, before: Mem, who: Who, va: nat, paddr: nat, level: nat) {
    && T.Marked(v.superpages, va, level)
    && (Bare(v.e, who) ==> Walked(v, before, who, va, paddr, level))
    && (v.debt.Pages? ==> Walked(v, before, who, va, paddr, level) || T.SomeOver(v.debt.owed, va, level))
  }

  predicate Walked(v: DataView, before: Mem, who: Who, va: nat, paddr: nat, level: nat) {
    var w := DataWalk(v.e, v.t, who, before, va);
    w.outcome.Ok? && w.mem == v.mem && w.outcome.paddr == paddr && w.outcome.level == level
  }

  function Inserted(v: DataView, i: nat, entry: F.FetchEntry, level: nat): DataView
    requires i < F.FETCH_CACHE_SIZE
  {
    v.(cache := v.cache[i := entry], levels := v.levels[i := level])
  }

  function EntryFor(v: DataView, who: Who, vaddr: nat, paddr: nat): F.FetchEntry {
    F.FetchEntry(vaddr / 0x1000, Key(v.gen, who), F.PageBase(paddr))
  }

  /** The page of an access that went through the full path. A store's walk may have set D. */
  lemma GoodAfterInsert(pl: Platform, v: DataView, before: Mem, who: Who, vaddr: nat, paddr: nat, level: nat)
    requires DataGood(pl, v) && vaddr < TWO64
    requires Arrived(v, before, who, Masked(v.masks, who, vaddr), paddr, level)
    requires Usable(pl, v, EntryFor(v, who, vaddr, paddr), who.priv)
    ensures DataGood(pl, Inserted(v, vaddr / 0x1000 % F.FETCH_CACHE_SIZE, EntryFor(v, who, vaddr, paddr), level))
  {
    hide Walked, TranslatesTo, Usable, T.Marked, T.SomeOver, Masked, Tag;
    var at := vaddr / 0x1000 % F.FETCH_CACHE_SIZE;
    var w := Inserted(v, at, EntryFor(v, who, vaddr, paddr), level);
    InsertedIsSound(pl, v, before, who, vaddr, paddr, level);
    SameTranslatesTo(v, w);
    forall i, q | 0 <= i < F.FETCH_CACHE_SIZE && Alive(w, i, q)
      ensures Sound(pl, w, i, q)
    {
      UsableReads(pl, v, w, w.cache[i], q.priv);
      if i != at {
        assert Alive(v, i, q) && Sound(pl, v, i, q);
      } else {
        KeyInjective(v.gen, who, v.gen, q);
      }
    }
  }

  lemma InsertedIsSound(pl: Platform, v: DataView, before: Mem, who: Who, vaddr: nat, paddr: nat, level: nat)
    requires vaddr < TWO64 && Arrived(v, before, who, Masked(v.masks, who, vaddr), paddr, level)
    requires Usable(pl, v, EntryFor(v, who, vaddr, paddr), who.priv)
    ensures var at := vaddr / 0x1000 % F.FETCH_CACHE_SIZE;
      Sound(pl, Inserted(v, at, EntryFor(v, who, vaddr, paddr), level), at, who)
  {
    hide Walked, TranslatesTo, Usable, T.Marked, T.Over, Masked;
    var at := vaddr / 0x1000 % F.FETCH_CACHE_SIZE;
    var w := Inserted(v, at, EntryFor(v, who, vaddr, paddr), level);
    var va, page := Masked(v.masks, who, vaddr), Masked(v.masks, who, vaddr / 0x1000 * 0x1000);
    MaskedPage(v.masks, who, vaddr);
    MaskedPage(v.masks, who, vaddr / 0x1000 * 0x1000);
    T.SamePageMarked(v.superpages, va, page, level);
    SomeOverPage(v.debt, va, page, level);
    UsableReads(pl, v, w, w.cache[at], who.priv);
    SameTranslatesTo(v, w);
    if Walked(v, before, who, va, paddr, level) {
      FirstByteTranslates(v, before, who, va, page, paddr, level);
    }
  }

  lemma SomeOverPage(debt: T.Debt, va: nat, page: nat, level: nat)
    requires SamePage(va, page)
    ensures debt.Pages? && T.SomeOver(debt.owed, va, level) ==> T.SomeOver(debt.owed, page, level)
  {
  }

  lemma FirstByteTranslates(v: DataView, before: Mem, who: Who, va: nat, page: nat, paddr: nat, level: nat)
    requires va < TWO64 && page < TWO64 && SamePage(va, page) && page % 0x1000 == 0
    requires Walked(v, before, who, va, paddr, level)
    ensures TranslatesTo(v, who, page, F.PageBase(paddr), level)
  {
    hide Walk;
    if who.priv != M {
      WalkAgain(v.e, before, va, v.t, CtxFor(who));
    }
    SamePageSameData(v.e, v.t, who, v.mem, va, page);
  }

  // ---- Address fences ------------------------------------------------------------------------------------------

  /** fence_page, where the TLB kept its generation: the page of the address as it was given. */
  function Fenced(v: DataView, va: nat): DataView {
    v.(cache := F.DropPage(v.cache, va / 0x1000), debt := DebtAfterFence(v.masks, v.debt, va))
  }

  /** It pays for the address only where no other address is masked to it. */
  function DebtAfterFence(masks: Masks, debt: T.Debt, va: nat): T.Debt {
    if debt.Everything? || !Unmasked(masks) then debt else T.Pages(T.Paid(debt.owed, va))
  }

  /** Without masking, no entry that is left came from a leaf over the address, whatever has been stored
      since. */
  lemma DroppedPageIsGone(pl: Platform, v: DataView, va: nat, i: nat, who: Who)
    requires DataGood(pl, v) && v.superpages <= T.ALL_REGIONS && T.RegionBit(va) !in v.superpages && Unmasked(v.masks)
    requires i < F.FETCH_CACHE_SIZE && Alive(Fenced(v, va), i, who) && who.priv != M
    ensures !T.Over(va, EntryPage(v, i, who), v.levels[i])
  {
    hide Usable, TranslatesTo, T.Marked, T.RegionBit, T.Over;
    assert Alive(v, i, who) && Sound(pl, v, i, who);
    assert EntryPage(v, i, who) == v.cache[i].vpage * 0x1000;
    assert !SamePage(va, EntryPage(v, i, who));
    if T.Over(va, EntryPage(v, i, who), v.levels[i]) {
      T.OverMeansSamePage(v.superpages, va, EntryPage(v, i, who), v.levels[i]);
    }
  }

  lemma GoodAfterFence(pl: Platform, v: DataView, va: nat)
    requires DataGood(pl, v) && v.superpages <= T.ALL_REGIONS && T.RegionBit(va) !in v.superpages
    ensures DataGood(pl, Fenced(v, va))
  {
    hide Usable, TranslatesTo, T.Marked, T.RegionBit, T.Over, T.Paid, Masked;
    var w := Fenced(v, va);
    SameTranslatesTo(v, w);
    forall i, who | 0 <= i < F.FETCH_CACHE_SIZE && Alive(w, i, who)
      ensures Sound(pl, w, i, who)
    {
      assert Alive(v, i, who) && Sound(pl, v, i, who);
      UsableReads(pl, v, w, v.cache[i], who.priv);
      var owed := v.debt.Pages? && T.SomeOver(v.debt.owed, EntryPage(v, i, who), v.levels[i]);
      if Unmasked(v.masks) && owed && who.priv != M {
        DroppedPageIsGone(pl, v, va, i, who);
        T.StillOwed(v.debt.owed, va, EntryPage(v, i, who), v.levels[i]);
      }
    }
  }
}
