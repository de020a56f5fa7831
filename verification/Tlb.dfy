/** What the TLB may hold: its keys and index, and when a hit is what the walk would answer. */
module Tlb {
  import opened Words
  import opened Registers
  import opened PageTables

  const TLB_SIZE: nat := 0x4000

  /** key 0 is empty; gen is the TLB generation the entry was made under. */
  datatype Entry = Entry(key: nat, page: nat, gen: nat)

  const NO_ENTRY: Entry := Entry(0, 0, 0)

  type Entries = s: seq<Entry> | |s| == TLB_SIZE witness seq(TLB_SIZE, _ => Entry(0, 0, 0))

  /** The privilege and MXR fields of a key, which share bit 3. */
  function PrivMxr(priv: PrivMode, mxr: bool): nat {
    match priv
    case U => if mxr then 8 else 0
    case S => if mxr then 12 else 4
    case M => 12
  }

  function TlbKey(vpn: nat, priv: PrivMode, t: AccessType, sum: bool, mxr: bool): nat {
    vpn * 256 + LowKey(priv, t, sum, mxr)
  }

  function LowKey(priv: PrivMode, t: AccessType, sum: bool, mxr: bool): nat {
    TypeCode(t) * 16 + PrivMxr(priv, mxr) + (if sum then 2 else 0) + 1
  }

  function Index(vpn: nat, t: AccessType): (i: nat)
    ensures i < TLB_SIZE
  {
    (vpn * 4 + TypeCode(t) % 4) % TLB_SIZE
  }

  /** Outside M-mode a key names its page, its access type and its context; M-mode keys would collide
      with S-mode ones, and are never made. */
  lemma TlbKeyInjective(v1: nat, p1: PrivMode, t1: AccessType, s1: bool, x1: bool,
                        v2: nat, p2: PrivMode, t2: AccessType, s2: bool, x2: bool)
    requires p1 != M && p2 != M
    ensures TlbKey(v1, p1, t1, s1, x1) == TlbKey(v2, p2, t2, s2, x2)
       <==> v1 == v2 && p1 == p2 && t1 == t2 && s1 == s2 && x1 == x2
    ensures TlbKey(v1, M, t1, s1, x1) == TlbKey(v1, S, t1, s1, true)
    ensures TlbKey(v1, p1, t1, s1, x1) != 0
  {
    hide LowKey, TlbKey;
    KeysEqual(v1, p1, t1, s1, x1, v2, p2, t2, s2, x2);
    LowKeyInjective(p1, t1, s1, x1, p2, t2, s2, x2);
    KeyAtM(v1, p1, t1, s1, x1);
  }

  lemma KeysEqual(v1: nat, p1: PrivMode, t1: AccessType, s1: bool, x1: bool,
                  v2: nat, p2: PrivMode, t2: AccessType, s2: bool, x2: bool)
    ensures TlbKey(v1, p1, t1, s1, x1) == TlbKey(v2, p2, t2, s2, x2)
       <==> v1 == v2 && LowKey(p1, t1, s1, x1) == LowKey(p2, t2, s2, x2)
  {
  }

  lemma KeyAtM(v: nat, p: PrivMode, t: AccessType, s: bool, x: bool)
    ensures TlbKey(v, M, t, s, x) == TlbKey(v, S, t, s, true) && TlbKey(v, p, t, s, x) != 0
  {
  }

  lemma LowKeyInjective(p1: PrivMode, t1: AccessType, s1: bool, x1: bool, p2: PrivMode, t2: AccessType, s2: bool,
                        x2: bool)
    requires p1 != M && p2 != M
    ensures LowKey(p1, t1, s1, x1) == LowKey(p2, t2, s2, x2) <==> p1 == p2 && t1 == t2 && s1 == s2 && x1 == x2
  {
  }

  function KeyOf(va: nat, t: AccessType, ctx: Ctx): nat {
    TlbKey(va / 0x1000, if ctx.user then U else S, t, ctx.sum, ctx.mxr)
  }

  // ---- The superpage summary -------------------------------------------------------------------

  const ALL_REGIONS: set<nat> := set r: nat | r < 64

  /** The bit of a 1 GB region: a multiplicative hash of its number. */
  function RegionBit(va: nat): (r: nat)
    ensures r < 64
  {
    va / 0x4000_0000 * 0x9E37_79B9_7F4A_7C15 % TWO64 / 0x400_0000_0000_0000
  }

  /** A leaf above 4 KB is on record: its own region, or all of them if it spans many. */
  predicate Marked(superpages: set<nat>, va: nat, level: nat) {
    level > 0 ==> if level >= 3 then superpages == ALL_REGIONS else RegionBit(va) in superpages
  }

  function Mark(superpages: set<nat>, va: nat, level: nat): set<nat> {
    if level >= 3 then ALL_REGIONS
    else if level > 0 then superpages + {RegionBit(va)}
    else superpages
  }

  lemma MarkKeeps(superpages: set<nat>, va: nat, level: nat, vb: nat, other: nat)
    requires superpages <= ALL_REGIONS
    ensures superpages <= Mark(superpages, va, level) <= ALL_REGIONS && Marked(Mark(superpages, va, level), va, level)
    ensures Marked(superpages, vb, other) ==> Marked(Mark(superpages, va, level), vb, other)
  {
  }

  // ---- What a TLB holds, and from where -------------------------------------------------------------

  type Origins = s: seq<nat> | |s| == TLB_SIZE witness seq(TLB_SIZE, _ => 0)

  /** A hart's TLB. `origins` is no part of the machine: it says at which level the leaf was that each
      entry came from. */
  datatype View = View(entries: Entries, origins: Origins, gen: nat, superpages: set<nat>)

  predicate Live(v: View, i: nat)
    requires i < TLB_SIZE
  {
    v.entries[i].key != 0 && v.entries[i].gen == v.gen
  }

  /** The address of the page an entry is for. */
  function EntryPage(v: View, i: nat): nat
    requires i < TLB_SIZE
  {
    v.entries[i].key / 256 * 0x1000
  }

  /** One page of the size `level` has holds both. */
  predicate Over(a: nat, b: nat, level: nat) {
    PageNo(a, level) == PageNo(b, level)
  }

  /** Every live entry is in its page's slot, and on record if a superpage is where it came from. This
      rests on no page table: it holds whatever has been stored since. */
  ghost predicate Shaped(v: View) {
    && v.superpages <= ALL_REGIONS
    && forall i | 0 <= i < TLB_SIZE ::
         v.entries[i].gen <= v.gen && (Live(v, i) ==> InPlace(v, i))
  }

  predicate InPlace(v: View, i: nat)
    requires i < TLB_SIZE
  {
    v.entries[i].key / 256 % 0x1000 == i / 4 && Marked(v.superpages, EntryPage(v, i), v.origins[i])
  }

  /** A lookup for (va, t, ctx) hits. */
  predicate Hit(v: View, va: nat, t: AccessType, ctx: Ctx)
  {
    var e := v.entries[Index(va / 0x1000, t)];
    e.key == KeyOf(va, t, ctx) && e.gen == v.gen
  }

  /** The hit is right: the walk would succeed with the address the entry holds, needing no update of A or
      D, at the leaf the entry came from. */
  predicate Promise(v: View, e: Env, mem: Mem, va: nat, t: AccessType, ctx: Ctx)
  {
    var o := Walk(e, mem, va, t, ctx).outcome;
    && Levels(e.mode) > 0 && o.Ok? && !o.updated
    && o.paddr == v.entries[Index(va / 0x1000, t)].page + va % 0x1000
    && o.level == v.origins[Index(va / 0x1000, t)]
  }

  /** What a hart owes: a fence of everything, or of each of these addresses. */
  datatype Debt = Everything | Pages(owed: set<nat>)

  predicate SomeOver(owed: set<nat>, va: nat, level: nat) {
    exists a <- owed :: Over(a, va, level)
  }

  /** The entry a lookup finds came from a leaf over an address whose fence is owed. */
  predicate Owed(v: View, owed: set<nat>, va: nat, t: AccessType) {
    SomeOver(owed, va, v.origins[Index(va / 0x1000, t)])
  }

  /** Every hit is right, or over an owed address. */
  ghost predicate Right(v: View, e: Env, mem: Mem, owed: set<nat>) {
    forall va: nat, t: AccessType, ctx: Ctx {:trigger Hit(v, va, t, ctx)} ::
      va < TWO64 && Hit(v, va, t, ctx) ==> Promise(v, e, mem, va, t, ctx) || Owed(v, owed, va, t)
  }

  ghost predicate Good(v: View, e: Env, mem: Mem, debt: Debt) {
    Shaped(v) && (debt.Pages? ==> Right(v, e, mem, debt.owed))
  }

  /** Whether an owed address could lie under an entry for `va`: one in its page, or one in its superpage if
      a superpage may be in play there. */
  ghost predicate Doubtful(superpages: set<nat>, owed: set<nat>, va: nat) {
    exists a: nat, level: nat :: a in owed && Over(a, va, level) && Marked(superpages, va, level)
  }

  /** No fence is owed that could touch an entry for `va`. */
  ghost predicate Settled(superpages: set<nat>, debt: Debt, va: nat) {
    debt.Pages? && !Doubtful(superpages, debt.owed, va)
  }

  /** With fewer superpages on record there is less doubt. */
  lemma SettledEarlier(fewer: set<nat>, more: set<nat>, debt: Debt, va: nat)
    requires fewer <= more <= ALL_REGIONS && Settled(more, debt, va)
    ensures Settled(fewer, debt, va)
  {
  }

  lemma HitIsLive(v: View, va: nat, t: AccessType, ctx: Ctx)
    requires Hit(v, va, t, ctx)
    ensures var i := Index(va / 0x1000, t); Live(v, i) && EntryPage(v, i) == va / 0x1000 * 0x1000
  {
    hide Index;
    KeyPage(va, t, ctx);
    KeyNotZero(va, t, ctx);
  }

  lemma KeyNotZero(va: nat, t: AccessType, ctx: Ctx)
    ensures KeyOf(va, t, ctx) != 0
  {
  }

  /** A hit on an entry over an owed address is at a doubtful one. */
  lemma OwedIsDoubtful(v: View, owed: set<nat>, va: nat, t: AccessType, ctx: Ctx)
    requires Shaped(v) && Hit(v, va, t, ctx) && Owed(v, owed, va, t)
    ensures Doubtful(v.superpages, owed, va)
  {
    hide Index, Marked, KeyOf, Over;
    var i := Index(va / 0x1000, t);
    HitIsLive(v, va, t, ctx);
    assert InPlace(v, i);
    SamePageMarked(v.superpages, EntryPage(v, i), va, v.origins[i]);
  }

  lemma SamePageMarked(superpages: set<nat>, va: nat, vb: nat, level: nat)
    requires SamePage(va, vb)
    ensures Marked(superpages, va, level) == Marked(superpages, vb, level)
  {
    assert va / 0x4000_0000 == va / 0x1000 / 0x4_0000;
    assert vb / 0x4000_0000 == vb / 0x1000 / 0x4_0000;
  }

  lemma SameOver(a: nat, va: nat, vb: nat, level: nat)
    requires SamePage(va, vb)
    ensures Over(a, va, level) == Over(a, vb, level)
  {
  }

  // ---- What keeps it good -----------------------------------------------------------------------------

  /** Walkers' updates of A and D, anywhere. */
  lemma GoodAfterUpdates(v: View, e: Env, a: Mem, b: Mem, debt: Debt)
    requires Good(v, e, a, debt) && OnlyADSet(a, b)
    ensures Good(v, e, b, debt)
  {
    hide Walk, OnlyADSet, Hit, Owed, Shaped;
    if debt.Pages? {
      forall va: nat, t: AccessType, ctx: Ctx {:trigger Hit(v, va, t, ctx)} | va < TWO64 && Hit(v, va, t, ctx)
        ensures Promise(v, e, b, va, t, ctx) || Owed(v, debt.owed, va, t)
      {
        if Promise(v, e, a, va, t, ctx) {
          UpdatesKeepTranslations(e, a, b, va, t, ctx);
        }
      }
    }
  }

  lemma GoodAfterMark(v: View, e: Env, mem: Mem, debt: Debt, va: nat, level: nat)
    requires Good(v, e, mem, debt)
    ensures Good(v.(superpages := Mark(v.superpages, va, level)), e, mem, debt)
  {
    hide Walk, Mark, Marked, KeyOf, Index, Over;
    var w := v.(superpages := Mark(v.superpages, va, level));
    MarkKeeps(v.superpages, va, level, 0, 0);
    forall i | 0 <= i < TLB_SIZE && Live(w, i)
      ensures InPlace(w, i)
    {
      assert Live(v, i) && InPlace(v, i);
      MarkKeeps(v.superpages, va, level, EntryPage(v, i), v.origins[i]);
    }
    if debt.Pages? {
      forall vb: nat, t: AccessType, ctx: Ctx {:trigger Hit(w, vb, t, ctx)} | vb < TWO64 && Hit(w, vb, t, ctx)
        ensures Promise(w, e, mem, vb, t, ctx) || Owed(w, debt.owed, vb, t)
      {
        assert Hit(v, vb, t, ctx);
        assert Owed(v, debt.owed, vb, t) == Owed(w, debt.owed, vb, t);
      }
    }
  }

  function Insert(v: View, va: nat, t: AccessType, ctx: Ctx, paddr: nat, level: nat): View
  {
    var i := Index(va / 0x1000, t);
    v.(entries := v.entries[i := Entry(KeyOf(va, t, ctx), paddr - paddr % 0x1000, v.gen)],
       origins := v.origins[i := level])
  }

  lemma ShapedAfterInsert(v: View, va: nat, t: AccessType, ctx: Ctx, paddr: nat, level: nat)
    requires Shaped(v) && Marked(v.superpages, va, level)
    ensures Shaped(Insert(v, va, t, ctx, paddr, level))
  {
    hide Index, Marked, KeyOf;
    var w := Insert(v, va, t, ctx, paddr, level);
    var at := Index(va / 0x1000, t);
    KeyPage(va, t, ctx);
    IndexParts(va / 0x1000, t);
    SamePageMarked(v.superpages, va, va / 0x1000 * 0x1000, level);
    forall i | 0 <= i < TLB_SIZE && Live(w, i)
      ensures InPlace(w, i)
    {
      if i != at {
        assert Live(v, i) && InPlace(v, i);
      }
    }
  }

  /** The result of a walk that set nothing. */
  lemma GoodAfterInsert(v: View, e: Env, mem: Mem, debt: Debt, va: nat, t: AccessType, ctx: Ctx)
    requires Good(v, e, mem, debt) && va < TWO64 && Levels(e.mode) > 0
    requires var o := Walk(e, mem, va, t, ctx).outcome; o.Ok? && !o.updated && Marked(v.superpages, va, o.level)
    ensures var o := Walk(e, mem, va, t, ctx).outcome; Good(Insert(v, va, t, ctx, o.paddr, o.level), e, mem, debt)
  {
    hide Walk, Marked, Index, TlbKey, Shaped, Over;
    var o := Walk(e, mem, va, t, ctx).outcome;
    var w := Insert(v, va, t, ctx, o.paddr, o.level);
    ShapedAfterInsert(v, va, t, ctx, o.paddr, o.level);
    if debt.Pages? {
      forall vb: nat, t2: AccessType, ctx2: Ctx {:trigger Hit(w, vb, t2, ctx2)} | vb < TWO64 && Hit(w, vb, t2, ctx2)
        ensures Promise(w, e, mem, vb, t2, ctx2) || Owed(w, debt.owed, vb, t2)
      {
        if Index(vb / 0x1000, t2) == Index(va / 0x1000, t) {
          TlbKeyInjective(va / 0x1000, if ctx.user then U else S, t, ctx.sum, ctx.mxr,
                          vb / 0x1000, if ctx2.user then U else S, t2, ctx2.sum, ctx2.mxr);
          assert SamePage(va, vb) && t == t2 && ctx == ctx2;
          SamePageSameWalk(e, mem, va, vb, t, ctx);
        } else {
          assert Hit(v, vb, t2, ctx2);
          assert Owed(v, debt.owed, vb, t2) == Owed(w, debt.owed, vb, t2);
        }
      }
    }
  }

  /** A flush, before anything at all: nothing is owed after it. */
  lemma GoodAfterFlush(v: View, e: Env, mem: Mem)
    requires Shaped(v)
    ensures Good(v.(gen := v.gen + 1, superpages := {}), e, mem, Pages({}))
  {
  }

  // ---- Edits of page tables ----------------------------------------------------------------------------

  /** No clean translation changes but those of leaves over some of these addresses. */
  ghost predicate EditedOver(e: Env, a: Mem, b: Mem, over: set<nat>) {
    forall va: nat, t: AccessType, ctx: Ctx {:trigger Walk(e, a, va, t, ctx)} ::
      var o := Walk(e, a, va, t, ctx).outcome;
      va < TWO64 && o.Ok? && !o.updated && !SomeOver(over, va, o.level) ==> Walk(e, b, va, t, ctx).outcome == o
  }

  /** What a hart owes after stores that turned `a` into `b`, an edit of leaves over `over`: no more than it
      did if none of its translations changed, these addresses if the others did not, else everything. */
  ghost function Charged(debt: Debt, e: Env, a: Mem, b: Mem, over: set<nat>): Debt {
    if debt.Everything? || EditedOver(e, a, b, {}) then debt
    else if EditedOver(e, a, b, over) then Pages(debt.owed + over)
    else Everything
  }

  lemma GoodAfterEdit(v: View, e: Env, a: Mem, b: Mem, owed: set<nat>, over: set<nat>)
    requires Right(v, e, a, owed) && EditedOver(e, a, b, over)
    ensures Right(v, e, b, owed + over)
  {
  }

  lemma GoodAfterStore(v: View, e: Env, a: Mem, b: Mem, debt: Debt, over: set<nat>)
    requires Good(v, e, a, debt)
    ensures Good(v, e, b, Charged(debt, e, a, b, over))
  {
    hide Right, EditedOver, Shaped;
    if debt.Pages? {
      if EditedOver(e, a, b, {}) {
        GoodAfterEdit(v, e, a, b, debt.owed, {});
        assert debt.owed + {} == debt.owed;
      } else if EditedOver(e, a, b, over) {
        GoodAfterEdit(v, e, a, b, debt.owed, over);
      }
    }
  }

  /** Every descent for a canonical address that reads the word at `w` ends, if anywhere, in a leaf over
      `va`. */
  ghost predicate OnlyFor(e: Env, mem: Mem, w: nat, va: nat) {
    forall vb: nat {:trigger FindLeaf(e, mem, vb, Levels(e.mode) - 1, e.root * 0x1000)} ::
      Levels(e.mode) > 0 && Canonical(vb, Levels(e.mode))
      && w in Trail(e, mem, vb, Levels(e.mode) - 1, e.root * 0x1000) ==>
        var leaf := FindLeaf(e, mem, vb, Levels(e.mode) - 1, e.root * 0x1000);
        leaf.Found? ==> Over(va, vb, leaf.level)
  }

  /** Rewriting one entry read only on the way to a leaf over `va` -- that leaf, or a table of which it is
      the only leaf -- is such an edit, whatever is written. */
  lemma OneEntryIsEditedOver(e: Env, a: Mem, w: nat, pte: nat, va: nat)
    requires w in a && Levels(e.mode) > 0 && OnlyFor(e, a, w, va)
    ensures EditedOver(e, a, a[w := pte], {va})
  {
    hide Walk, FindLeaf, Trail, Over, Canonical;
    forall vb: nat, t: AccessType, ctx: Ctx {:trigger Walk(e, a, vb, t, ctx)} | vb < TWO64
      ensures var o := Walk(e, a, vb, t, ctx).outcome;
        o.Ok? && !SomeOver({va}, vb, o.level) ==> Walk(e, a[w := pte], vb, t, ctx).outcome == o
    {
      var levels := Levels(e.mode);
      WalkUsesLeaf(e, a, vb, t, ctx);
      assert va in {va};
      if w !in Trail(e, a, vb, levels - 1, e.root * 0x1000) {
        UnreadWordSameWalk(e, a, w, pte, vb, t, ctx);
      }
    }
  }

  lemma WalkUsesLeaf(e: Env, mem: Mem, va: nat, t: AccessType, ctx: Ctx)
    requires Levels(e.mode) > 0
    ensures var o := Walk(e, mem, va, t, ctx).outcome;
      var leaf := FindLeaf(e, mem, va, Levels(e.mode) - 1, e.root * 0x1000);
      o.Ok? ==> Canonical(va, Levels(e.mode)) && leaf.Found? && leaf.level == o.level
  {
  }

  // ---- Address fences ------------------------------------------------------------------------------------

  /** mmu_tlb_flush_page: everything, if a superpage may be in play in va's region; else the page's
      entries, of whichever kind. */
  function FlushPage(v: View, va: nat): View
  {
    if RegionBit(va) in v.superpages then v.(gen := v.gen + 1, superpages := {})
    else v.(entries := seq(TLB_SIZE, i requires 0 <= i < TLB_SIZE =>
              if i / 4 == va / 0x1000 % 0x1000 && v.entries[i].key / 256 == va / 0x1000 then v.entries[i].(key := 0)
              else v.entries[i]))
  }

  lemma IndexParts(vpn: nat, t: AccessType)
    ensures Index(vpn, t) / 4 == vpn % 0x1000 && Index(vpn, t) % 4 == TypeCode(t) % 4
  {
    hide TypeCode;
    var q, r, k := vpn / 0x1000, vpn % 0x1000, TypeCode(t) % 4;
    assert vpn * 4 + k == q * 0x4000 + (r * 4 + k);
    assert Index(vpn, t) == r * 4 + k;
  }

  lemma SameRegion(va: nat, vb: nat, level: nat)
    requires level <= 2 && PageNo(va, level) == PageNo(vb, level)
    ensures RegionBit(va) == RegionBit(vb)
  {
    RegionFromPage(va, level);
    RegionFromPage(vb, level);
  }

  lemma RegionFromPage(va: nat, level: nat)
    requires level <= 2
    ensures var page := PageNo(va, level);
      va / 0x4000_0000 == if level == 0 then page / 0x4_0000 else if level == 1 then page / 0x200 else page
  {
  }

  /** A page on record over `va`, where no superpage is in play in va's region, is va's own 4 KB page. */
  lemma OverMeansSamePage(superpages: set<nat>, va: nat, vb: nat, level: nat)
    requires superpages <= ALL_REGIONS && RegionBit(va) !in superpages && Marked(superpages, vb, level)
      && Over(va, vb, level)
    ensures SamePage(va, vb)
  {
    hide RegionBit;
    assert RegionBit(va) in ALL_REGIONS;
    if level in {1, 2} {
      SameRegion(va, vb, level);
    }
  }

  /** After an address fence, whichever way it goes and whatever has been stored to the page tables since
      the entries were made, a live entry was live before and came from no leaf -- of any size -- whose
      page holds the address. */
  lemma FencedOff(v: View, va: nat, i: nat)
    requires Shaped(v) && i < TLB_SIZE && Live(FlushPage(v, va), i)
    ensures var w := FlushPage(v, va); Live(v, i) && w.entries[i] == v.entries[i] && w.superpages == v.superpages
    ensures !Over(va, EntryPage(v, i), v.origins[i])
  {
    hide RegionBit, Marked, Over;
    assert RegionBit(va) !in v.superpages;
    assert Live(v, i) && InPlace(v, i);
    assert !SamePage(va, EntryPage(v, i));
    if Over(va, EntryPage(v, i), v.origins[i]) {
      OverMeansSamePage(v.superpages, va, EntryPage(v, i), v.origins[i]);
    }
  }

  lemma ShapedAfterFence(v: View, va: nat)
    requires Shaped(v)
    ensures Shaped(FlushPage(v, va))
  {
  }

  lemma KeyPage(va: nat, t: AccessType, ctx: Ctx)
    ensures KeyOf(va, t, ctx) / 256 == va / 0x1000
  {
  }

  /** What is still owed after a fence of `va` that kept the rest. */
  function Paid(owed: set<nat>, va: nat): set<nat> {
    set a | a in owed && !SamePage(a, va)
  }

  function DebtAfterFence(v: View, debt: Debt, va: nat): Debt {
    if RegionBit(va) in v.superpages then Pages({})
    else if debt.Everything? then debt
    else Pages(Paid(debt.owed, va))
  }

  /** An address fence pays what is owed for the address, and if it flushed everything, all. */
  lemma GoodAfterFence(v: View, e: Env, mem: Mem, debt: Debt, va: nat)
    requires Good(v, e, mem, debt)
    ensures Good(FlushPage(v, va), e, mem, DebtAfterFence(v, debt, va))
  {
    hide Walk, RegionBit, Over, Index, KeyOf, Shaped;
    var w := FlushPage(v, va);
    ShapedAfterFence(v, va);
    if RegionBit(va) in v.superpages {
      GoodAfterFlush(v, e, mem);
    } else if debt.Pages? {
      forall vb: nat, t: AccessType, ctx: Ctx {:trigger Hit(w, vb, t, ctx)} | vb < TWO64 && Hit(w, vb, t, ctx)
        ensures Promise(w, e, mem, vb, t, ctx) || Owed(w, Paid(debt.owed, va), vb, t)
      {
        HitAfterFence(v, va, vb, t, ctx);
        if !Promise(v, e, mem, vb, t, ctx) {
          StillOwed(debt.owed, va, vb, v.origins[Index(vb / 0x1000, t)]);
        }
      }
    }
  }

  lemma HitAfterFence(v: View, va: nat, vb: nat, t: AccessType, ctx: Ctx)
    requires Shaped(v) && RegionBit(va) !in v.superpages && Hit(FlushPage(v, va), vb, t, ctx)
    ensures var i := Index(vb / 0x1000, t); FlushPage(v, va).entries[i] == v.entries[i]
    ensures Hit(v, vb, t, ctx) && !Over(va, vb, v.origins[Index(vb / 0x1000, t)])
  {
    hide RegionBit, Over, Index, KeyOf, Shaped, Live, EntryPage;
    var i := Index(vb / 0x1000, t);
    HitIsLive(FlushPage(v, va), vb, t, ctx);
    FencedOff(v, va, i);
    HitIsLive(v, vb, t, ctx);
    SameOver(va, EntryPage(v, i), vb, v.origins[i]);
  }

  lemma StillOwed(owed: set<nat>, va: nat, vb: nat, level: nat)
    requires SomeOver(owed, vb, level) && !Over(va, vb, level)
    ensures SomeOver(Paid(owed, va), vb, level)
  {
  }

  // ---- A run of edits and fences --------------------------------------------------------------------------

  /** What happens to a hart's debt: stores, by any hart; address fences of its own, of the TLB it had by
      then; full flushes. */
  datatype FenceOp = Stored(e: Env, a: Mem, b: Mem, over: set<nat>) | Fenced(v: View, va: nat) | Flushed

  ghost function Settle(debt: Debt, ops: seq<FenceOp>): Debt
    decreases |ops|
  {
    if ops == [] then debt
    else
      var d := Settle(debt, ops[..|ops| - 1]);
      match ops[|ops| - 1]
      case Stored(e, a, b, over) => Charged(d, e, a, b, over)
      case Fenced(v, va) => DebtAfterFence(v, d, va)
      case Flushed => Pages({})
  }

  /** A store was an edit of leaves over what it says. */
  ghost predicate SaysWhat(op: FenceOp) {
    op.Stored? ==> EditedOver(op.e, op.a, op.b, op.over)
  }

  predicate PaysFor(op: FenceOp, x: nat) {
    op.Flushed? || (op.Fenced? && SamePage(x, op.va))
  }

  /** `x` was edited over at `i`, and the hart has not fenced it since. */
  predicate Outstanding(ops: seq<FenceOp>, i: nat, x: nat) {
    && i < |ops| && ops[i].Stored? && x in ops[i].over
    && forall j | i < j < |ops| :: !PaysFor(ops[j], x)
  }

  /** Over any run, whatever is done by whom between an edit and its fence, a hart owes nothing but
      addresses edited over since it last fenced them. */
  lemma {:induction false} OwesOnlyOutstanding(ops: seq<FenceOp>)
    requires forall op <- ops :: SaysWhat(op)
    ensures Settle(Pages({}), ops).Pages?
    ensures forall x <- Settle(Pages({}), ops).owed :: exists i: nat :: Outstanding(ops, i, x)
    decreases |ops|
  {
    hide EditedOver, RegionBit;
    if ops != [] {
      var before, last := ops[..|ops| - 1], ops[|ops| - 1];
      assert last in ops;
      OwesOnlyOutstanding(before);
      var d := Settle(Pages({}), before);
      forall x | x in Settle(Pages({}), ops).owed
        ensures exists i: nat :: Outstanding(ops, i, x)
      {
        if x in d.owed {
          var i: nat :| Outstanding(before, i, x);
          assert !PaysFor(last, x);
          assert Outstanding(ops, i, x);
        } else {
          assert Outstanding(ops, |ops| - 1, x);
        }
      }
    }
  }
}
