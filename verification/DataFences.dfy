/** What an address fence does for the data caches. The TLB and the fetch cache file a page under the
    address page tables know it by, and a fence names that address; the data caches file it under the
    address the program used, whose top bits pointer masking may ignore. */
module DataFences {
  import opened Words
  import opened Registers
  import opened PageTables
  import opened Translate
  import opened DataCache
  import F = Fetch
  import T = Tlb
  import P = Pmp

  /** A leaf over `va` has been edited, by a hart that owed nothing, and then `va` fenced, with no superpage
      in play there. */
  ghost predicate EditThenFence(pl: Platform, v: DataView, mem: Mem, va: nat) {
    && DataGood(pl, v) && v.debt == T.Pages({}) && v.superpages <= T.ALL_REGIONS && T.RegionBit(va) !in v.superpages
    && T.EditedOver(v.e, v.mem, mem, {va})
  }

  function AfterFence(v: DataView, mem: Mem, va: nat): DataView {
    v.(mem := mem, cache := F.DropPage(v.cache, va / 0x1000))
  }

  /** Every page a cache would answer for is where the page tables say. */
  ghost predicate AllPromised(pl: Platform, v: DataView) {
    forall i, who | 0 <= i < F.FETCH_CACHE_SIZE && Alive(v, i, who) :: Promised(pl, v, v.cache[i], who, v.levels[i])
  }

  ghost predicate FenceIsEnough(pl: Platform, masks: Masks) {
    forall v: DataView, mem: Mem, va: nat {:trigger AfterFence(v, mem, va)} ::
      v.masks == masks && EditThenFence(pl, v, mem, va) ==> AllPromised(pl, AfterFence(v, mem, va))
  }

  lemma EnoughIfUnmasked(pl: Platform, v: DataView, mem: Mem, va: nat)
    requires Unmasked(v.masks) && EditThenFence(pl, v, mem, va)
    ensures AllPromised(pl, AfterFence(v, mem, va))
  {
    hide Usable, TranslatesTo, T.EditedOver, T.RegionBit, T.Marked, Masked, Unmasked;
    var stored := v.(mem := mem, debt := T.Charged(v.debt, v.e, v.mem, mem, {va}));
    GoodAfterStore(pl, v, mem, {va});
    GoodAfterFence(pl, stored, va);
    var w, fenced := AfterFence(v, mem, va), Fenced(stored, va);
    assert v.debt.owed + {va} == {va};
    NothingLeft(v.masks, stored.debt, va);
    SameTranslatesTo(fenced, w);
    forall i, who | 0 <= i < F.FETCH_CACHE_SIZE && Alive(w, i, who)
      ensures Promised(pl, w, w.cache[i], who, w.levels[i])
    {
      assert Alive(fenced, i, who) && Sound(pl, fenced, i, who);
      UsableReads(pl, fenced, w, w.cache[i], who.priv);
    }
  }

  lemma NothingLeft(masks: Masks, debt: T.Debt, va: nat)
    requires Unmasked(masks) && debt in {T.Pages({}), T.Pages({va})}
    ensures DebtAfterFence(masks, debt, va) == T.Pages({})
  {
  }

  // ---- With masking on ---------------------------------------------------------------------------------

  /** An address every form of masking takes to 0. */
  const ALIAS: nat := 0x8000_0000_0000_0000
  const LEAF: nat := 0x8000_3000
  const FRAME: nat := 0x1020_0000

  /** One Sv39 path: page 0 is a page of a framebuffer, which U may read and write. */
  function OnePath(): Mem {
    map[0x8000_1000 := 0x8_0002 * 1024 + 1, 0x8000_2000 := 0x8_0003 * 1024 + 1, LEAF := 0x1_0200 * 1024 + 215]
  }

  predicate OnePathEnv(e: Env) {
    e.mode == 8 && e.root == 0x8_0001 && !e.smpmp
  }

  /** Someone whose addresses are masked. */
  function MaskedWho(masks: Masks): Who {
    if masks.u in {2, 3} then Who(U, false, false) else Who(S, true, false)
  }

  lemma AliasIsZero(masks: Masks)
    requires !Unmasked(masks)
    ensures Masked(masks, MaskedWho(masks), ALIAS) == 0
  {
  }

  lemma PathTo(e: Env, mem: Mem, va: nat)
    requires OnePathEnv(e) && va / 0x1000 == 0
    requires mem == OnePath() || mem == OnePath()[LEAF := 0]
    ensures FindLeaf(e, mem, va, 2, 0x8000_1000) == FindLeaf(e, mem, va, 0, LEAF)
  {
    PathStep(e, mem, va, 2, 0x8000_1000, 0x8_0002);
    PathStep(e, mem, va, 1, 0x8000_2000, 0x8_0003);
  }

  lemma PathStep(e: Env, mem: Mem, va: nat, level: nat, table: nat, next: nat)
    requires !e.smpmp && va / 0x1000 == 0 && 0 < level && next in {0x8_0002, 0x8_0003}
    requires table in mem && mem[table] == next * 1024 + 1
    ensures FindLeaf(e, mem, va, level, table) == FindLeaf(e, mem, va, level - 1, next * 0x1000)
  {
    hide PageNo, Has, Ppn, Pbmt;
    PageZero(va, level);
    PointerParts(next);
  }

  lemma PageZero(va: nat, level: nat)
    requires va / 0x1000 == 0
    ensures PageNo(va, level) == 0
  {
  }

  lemma PointerParts(next: nat)
    requires next in {0x8_0002, 0x8_0003}
    ensures var pte := next * 1024 + 1;
      && Has(pte, PageTables.V) && Ppn(pte) == next && Pbmt(pte) == 0
      && forall flag | flag in {PageTables.R, PageTables.W, PageTables.X, U_BIT, A, D} :: !Has(pte, flag)
  {
  }

  lemma PathLeads(e: Env, who: Who)
    requires OnePathEnv(e) && who in {Who(U, false, false), Who(S, true, false)}
    ensures Walk(e, OnePath(), 0, Load, CtxFor(who)) == Result(Ok(FRAME, 0, false), OnePath())
  {
    hide FindLeaf, UseLeaf, OnePath;
    PathTo(e, OnePath(), 0);
    LeafThere(e);
    LeafUsed(e, OnePath(), CtxFor(who));
  }

  lemma LeafThere(e: Env)
    requires OnePathEnv(e)
    ensures FindLeaf(e, OnePath(), 0, 0, LEAF) == Found(0x1_0200 * 1024 + 215, 0, LEAF)
  {
  }

  lemma LeafUsed(e: Env, mem: Mem, ctx: Ctx)
    requires ctx.user || ctx.sum
    ensures UseLeaf(e, mem, 0, Load, ctx, 0x1_0200 * 1024 + 215, 0, LEAF) == Result(Ok(FRAME, 0, false), mem)
  {
  }

  lemma CutFaults(e: Env, who: Who)
    requires OnePathEnv(e) && who.priv != M
    ensures DataWalk(e, Load, who, OnePath()[LEAF := 0], 0) == Result(Fault(13), OnePath()[LEAF := 0])
  {
    hide FindLeaf, OnePath;
    PathTo(e, OnePath()[LEAF := 0], 0);
    LeafCut(e);
  }

  lemma LeafCut(e: Env)
    requires OnePathEnv(e)
    ensures FindLeaf(e, OnePath()[LEAF := 0], 0, 0, LEAF) == NoPage
  {
  }

  /** The leaf is read on the way to page 0 alone. */
  lemma LeafOnlyForZero(e: Env)
    requires OnePathEnv(e)
    ensures T.OnlyFor(e, OnePath(), LEAF, 0)
  {
    hide FindLeaf, Trail, Canonical;
    forall vb: nat {:trigger FindLeaf(e, OnePath(), vb, 2, 0x8000_1000)} |
      Canonical(vb, 3) && LEAF in Trail(e, OnePath(), vb, 2, 0x8000_1000)
      ensures vb / 0x1000 == 0 && (FindLeaf(e, OnePath(), vb, 2, 0x8000_1000).Found? ==>
        T.Over(0, vb, FindLeaf(e, OnePath(), vb, 2, 0x8000_1000).level))
    {
      TrailToLeaf(e, vb);
      OnlyPageZero(vb);
      PathTo(e, OnePath(), vb);
      AtLevelZero(e, OnePath(), vb);
    }
  }

  lemma AtLevelZero(e: Env, mem: Mem, va: nat)
    ensures FindLeaf(e, mem, va, 0, LEAF).Found? ==> FindLeaf(e, mem, va, 0, LEAF).level == 0
  {
  }

  lemma TrailToLeaf(e: Env, vb: nat)
    requires LEAF in Trail(e, OnePath(), vb, 2, 0x8000_1000)
    ensures PageNo(vb, 2) % 512 == 0 && PageNo(vb, 1) % 512 == 0 && PageNo(vb, 0) % 512 == 0
  {
    hide PageNo;
    assert PteAddr(0x8000_1000, vb, 2) == 0x8000_1000;
    assert LEAF in Trail(e, OnePath(), vb, 1, 0x8000_2000);
    assert PteAddr(0x8000_2000, vb, 1) == 0x8000_2000;
    assert LEAF in Trail(e, OnePath(), vb, 0, LEAF);
    assert PteAddr(LEAF, vb, 0) == LEAF;
  }

  lemma OnlyPageZero(vb: nat)
    requires Canonical(vb, 3) && PageNo(vb, 2) % 512 == 0 && PageNo(vb, 1) % 512 == 0 && PageNo(vb, 0) % 512 == 0
    ensures vb / 0x1000 == 0
  {
    if vb >= 0x40_0000_0000 {
      TopHalfSetsBit38(vb);
    }
  }

  lemma TopHalfSetsBit38(vb: nat)
    requires TWO64 - 0x40_0000_0000 <= vb < TWO64
    ensures PageNo(vb, 2) % 512 != 0
  {
    var g := vb / 0x4000_0000;
    assert PageNo(vb, 2) == g && 0x3_FFFF_FF00 <= g < 0x4_0000_0000;
    assert g % 512 == g - 0x3_FFFF_FE00;
  }

  /** A load cache that holds page 0 under its alias alone. */
  function AliasView(e: Env, masks: Masks): DataView {
    var entry := F.FetchEntry(ALIAS / 0x1000, Key(0, MaskedWho(masks)), FRAME);
    DataView(Load, seq(F.FETCH_CACHE_SIZE, i => if i == 0 then entry else F.FetchEntry(F.NO_PAGE, MAX64, 0)),
             seq(F.FETCH_CACHE_SIZE, _ => 0), e, masks, false, 0, {}, OnePath(), T.Pages({}))
  }

  lemma AliasIsPromised(pl: Platform, e: Env, masks: Masks)
    requires OnePathEnv(e) && !Unmasked(masks)
    ensures DataGood(pl, AliasView(e, masks))
    ensures Promised(pl, AliasView(e, masks), AliasView(e, masks).cache[0], MaskedWho(masks), 0)
  {
    hide Walk, Masked, Unmasked, Tag;
    var v, who := AliasView(e, masks), MaskedWho(masks);
    AliasIsZero(masks);
    PathLeads(e, who);
    assert FRAMEBUFFERS[0].lo <= FRAME && FRAME + 0x1000 <= FRAMEBUFFERS[0].hi;
    assert InFrame(FRAME, 0x1000);
    forall i, q | 0 <= i < F.FETCH_CACHE_SIZE && Alive(v, i, q)
      ensures Sound(pl, v, i, q)
    {
      KeyInjective(0, who, 0, q);
    }
  }

  /** The alias is still there, and right no more. */
  lemma AliasSurvives(pl: Platform, e: Env, masks: Masks)
    requires OnePathEnv(e) && !Unmasked(masks)
    ensures EditThenFence(pl, AliasView(e, masks), OnePath()[LEAF := 0], 0)
    ensures var w := AfterFence(AliasView(e, masks), OnePath()[LEAF := 0], 0);
      Alive(w, 0, MaskedWho(masks)) && !Promised(pl, w, w.cache[0], MaskedWho(masks), w.levels[0])
  {
    hide Walk, Masked, Unmasked, Tag, T.EditedOver, T.OnlyFor, T.RegionBit, DataGood;
    var v := AliasView(e, masks);
    AliasIsPromised(pl, e, masks);
    LeafOnlyForZero(e);
    T.OneEntryIsEditedOver(e, OnePath(), LEAF, 0, 0);
    AliasIsZero(masks);
    CutFaults(e, MaskedWho(masks));
  }

  lemma SomeFenceFails(pl: Platform, masks: Masks)
    requires !Unmasked(masks)
    ensures !FenceIsEnough(pl, masks)
  {
    hide Unmasked, AllPromised, EditThenFence, DataGood, AfterFence, Alive, Promised, OnePath;
    var e := Env(8, 0x8_0001, false, false, false, false, false, P.Config(0, 0, 0, 56), seq(CSRS, _ => 0));
    var v := AliasView(e, masks);
    AliasSurvives(pl, e, masks);
    NotAllPromised(pl, AfterFence(v, OnePath()[LEAF := 0], 0), MaskedWho(masks));
  }

  /** Over all caches, edits and addresses: a fence of the address of an edit is enough exactly where
      pointer masking is off for U and for S. */
  lemma FenceIsEnoughExactly(pl: Platform, masks: Masks)
    ensures FenceIsEnough(pl, masks) <==> Unmasked(masks)
  {
    hide Unmasked, AllPromised, EditThenFence, DataGood;
    if Unmasked(masks) {
      forall v: DataView, mem: Mem, va: nat {:trigger AfterFence(v, mem, va)} |
        v.masks == masks && EditThenFence(pl, v, mem, va)
        ensures AllPromised(pl, AfterFence(v, mem, va))
      {
        EnoughIfUnmasked(pl, v, mem, va);
      }
    } else {
      SomeFenceFails(pl, masks);
    }
  }

  lemma NotAllPromised(pl: Platform, v: DataView, who: Who)
    requires Alive(v, 0, who) && !Promised(pl, v, v.cache[0], who, v.levels[0])
    ensures !AllPromised(pl, v)
  {
  }

  // ---- The same, seen by a program -------------------------------------------------------------------------

  const SSNPM: Ext := Ext(false, false, false, true, P.Config(0, 0, 0, 56))

  /** U-mode, over that path, seven bits of its addresses ignored. */
  function TaggedRegs(): Regs {
    Regs(seq(CSRS, i => if i == SATP then 8 * 0x1000_0000_0000_0000 + 0x8_0001
                        else if i == SENVCFG then 2 * 0x1_0000_0000 else 0), U, false, 0, 0)
  }

  lemma TaggedParts()
    ensures OnePathEnv(EnvOf(SSNPM, TaggedRegs().csr)) && MasksOf(SSNPM, TaggedRegs().csr) == Masks(true, 2, 0, 0)
    ensures WhoOf(TaggedRegs()) == MaskedWho(MasksOf(SSNPM, TaggedRegs().csr))
    ensures !Has(TaggedRegs().csr[MSTATUS], MPRV) && !Unmasked(MasksOf(SSNPM, TaggedRegs().csr))
  {
  }

  lemma BeforeAndAfter(pl: Platform, x: Ext, r: Regs)
    requires OnePathEnv(EnvOf(x, r.csr)) && !Has(r.csr[MSTATUS], MPRV)
    requires !Unmasked(MasksOf(x, r.csr)) && WhoOf(r) == MaskedWho(MasksOf(x, r.csr))
    ensures FullAccess(pl, x, r, OnePath(), ALIAS, 8, Load) == (At(FRAME, false), OnePath())
    ensures FullAccess(pl, x, r, OnePath()[LEAF := 0], ALIAS, 8, Load) == (Trapped(13, 0), OnePath()[LEAF := 0])
  {
    hide EnvOf, MasksOf, Walk, Translation, Masked, Unmasked, DataWalk, Promised, DataGood, OnePath;
    var e, masks := EnvOf(x, r.csr), MasksOf(x, r.csr);
    var v := AliasView(e, masks);
    AliasIsPromised(pl, e, masks);
    HitIsFullAccess(pl, x, r, v, v.cache[0], 0, ALIAS, 8);
    AliasIsZero(masks);
    CutFaults(e, WhoOf(r));
    TranslationIsDataWalk(x, r, OnePath()[LEAF := 0], ALIAS, Load);
  }

  /** A load through a tagged pointer, the leaf cleared, the address fenced: the cache still answers the
      next load, which should take a page fault. */
  lemma StaleLoad(pl: Platform)
    ensures var x, r := SSNPM, TaggedRegs();
      var v, cut := AliasView(EnvOf(x, r.csr), MasksOf(x, r.csr)), OnePath()[LEAF := 0];
      && EditThenFence(pl, v, cut, 0)
      && Alive(AfterFence(v, cut, 0), 0, WhoOf(r)) && v.cache[0].vpage == ALIAS / 0x1000
      && FullAccess(pl, x, r, OnePath(), ALIAS, 8, Load) == (At(FRAME, false), OnePath())
      && FullAccess(pl, x, r, cut, ALIAS, 8, Load) == (Trapped(13, 0), cut)
  {
    hide EnvOf, MasksOf, FullAccess, TaggedRegs, EditThenFence, OnePath, Promised, MaskedWho;
    var x, r := SSNPM, TaggedRegs();
    TaggedParts();
    AliasSurvives(pl, EnvOf(x, r.csr), MasksOf(x, r.csr));
    BeforeAndAfter(pl, x, r);
  }
}
