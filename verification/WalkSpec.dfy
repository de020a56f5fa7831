/** What a walk answers, said of the bits that sections 4.3 to 4.6 of the RISC-V Privileged Architecture 1.12
    number: which accesses an entry permits, which entries lead where, and what address comes out. */
module WalkSpec {
  import opened Words
  import opened Bits
  import opened BitFlags
  import opened PageTables
  import P = Pmp
  import S = PmpShifts
  import R = Registers

  // ---- One entry -----------------------------------------------------------------------------

  /** R, W, X and U are bits 1 to 4. A fetch needs X; a load R, or X while MXR is set; a store W; an AMO
      both R and W; a cache-block operation either. In U-mode U must be set; in S-mode a U page is never
      fetched from, and reached otherwise only while SUM is set. */
  predicate Protection(pte: nat, t: AccessType, user: bool, sum: bool, mxr: bool) {
    && (t == Fetch ==> Bit(pte, 3) && (user <==> Bit(pte, 4)))
    && (t == Load ==> Bit(pte, 1) || (mxr && Bit(pte, 3)))
    && (t == Store ==> Bit(pte, 2))
    && (t == Amo ==> Bit(pte, 1) && Bit(pte, 2))
    && (t == CacheBlock ==> Bit(pte, 1) || Bit(pte, 2))
    && t != ShadowStack
    && (if user then Bit(pte, 4) else !Bit(pte, 4) || sum)
  }

  /** A is bit 6 and D bit 7: an access needs A, and one that writes D. */
  predicate Accessed(pte: nat, t: AccessType) {
    Bit(pte, 6) && (t in {Store, Amo} ==> Bit(pte, 7))
  }

  /** Bits 54 to 60 are reserved; 61 and 62 are a memory type, of which 3 is reserved and none may be used
      unless enabled; 63 makes a 64 KB page, whose frame number ends in 1000; and a page of level l has
      9 * l zeros at the end of its frame number. */
  ghost predicate WellFormed(e: Env, pte: nat, level: nat) {
    && Clear(pte, 54, 7)
    && !(Bit(pte, 61) && Bit(pte, 62)) && (Bit(pte, 61) || Bit(pte, 62) ==> e.pbmte)
    && (Bit(pte, 63) ==> e.svnapot && level == 0 && Bit(pte, 13) && !Bit(pte, 12) && !Bit(pte, 11) && !Bit(pte, 10))
    && Clear(pte, 10, 9 * level)
  }

  /** How many low bits of an address a page leaves as they are. */
  function PageBits(pte: nat, level: nat): nat {
    if Bit(pte, 63) then 16 else 12 + 9 * level
  }

  /** The page's bits of the address, and above them the frame number: bit 10 of the entry is bit 12 of the
      physical address, which has 56 bits. */
  ghost predicate Mapped(pte: nat, level: nat, va: nat, paddr: nat) {
    forall k: nat :: Bit(paddr, k) == if k < PageBits(pte, level) then Bit(va, k) else k < 56 && Bit(pte, k - 2)
  }

  /** The entry with A set, and D if the access writes. */
  ghost predicate Marked(pte: nat, t: AccessType, q: nat) {
    forall k: nat :: Bit(q, k) == (Bit(pte, k) || k == 6 || (k == 7 && t in {Store, Amo}))
  }

  // ---- Where the entries are ----------------------------------------------------------------------

  /** Nine bits of the address for each level, from bit 12 on. */
  function Vpn(va: nat, level: nat): nat {
    if level == 0 then va / 0x1000 % 512 else Vpn(va / 512, level - 1)
  }

  function EntryAt(va: nat, level: nat, table: nat): nat {
    table + 8 * Vpn(va, level)
  }

  /** The walk's own read: of RAM, and allowed by PMP at supervisor privilege whoever asked for it. */
  predicate Readable(e: Env, mem: Mem, addr: nat) {
    addr in mem && (e.smpmp ==> P.Check(e.pmp, e.csr, addr, 8, P.Load, R.S))
  }

  /** Valid, and with nothing set that only leaves have. */
  predicate Pointer(e: Env, pte: nat) {
    && Bit(pte, 0) && !Bit(pte, 1) && !Bit(pte, 2) && !Bit(pte, 3) && !Bit(pte, 4) && !Bit(pte, 6) && !Bit(pte, 7)
    && (e.svpbmt ==> !Bit(pte, 61) && !Bit(pte, 62))
  }

  /** Valid, readable or executable, and not writable alone. */
  predicate LeafEntry(pte: nat) {
    Bit(pte, 0) && (Bit(pte, 1) || Bit(pte, 3)) && (Bit(pte, 2) ==> Bit(pte, 1))
  }

  /** Bits 10 to 53, times a page. */
  function NextTable(pte: nat): nat {
    pte / 0x400 % 0x1000_0000_0000 * 0x1000
  }

  /** The tables of a walk from `level` down: each but the last is read for a pointer to the next, and the
      last one's entry is none, or may not be read, or is at the bottom. */
  ghost predicate Path(e: Env, mem: Mem, va: nat, level: nat, tables: seq<nat>)
    ensures Path(e, mem, va, level, tables) ==> 0 < |tables| <= level + 1
    decreases level
  {
    tables != []
    && var a := EntryAt(va, level, tables[0]);
    var more := level > 0 && Readable(e, mem, a) && Pointer(e, mem[a]);
    if |tables| == 1 then !more
    else more && tables[1] == NextTable(mem[a]) && Path(e, mem, va, level - 1, tables[1..])
  }

  /** Every bit above those a mode translates is the topmost of these. */
  ghost predicate SignExtended(va: nat, bits: nat)
    requires bits > 0
  {
    forall k: nat | bits - 1 <= k < 64 :: Bit(va, k) == Bit(va, bits - 1)
  }

  // ---- What the walk does with an entry -------------------------------------------------------------

  lemma LowFlags(pte: nat)
    ensures Has(pte, PageTables.V) == Bit(pte, 0) && Has(pte, PageTables.R) == Bit(pte, 1)
    ensures Has(pte, PageTables.W) == Bit(pte, 2) && Has(pte, PageTables.X) == Bit(pte, 3)
    ensures Has(pte, U_BIT) == Bit(pte, 4) && Has(pte, A) == Bit(pte, 6) && Has(pte, D) == Bit(pte, 7)
  {
    hide Bit, Has;
    ByteFlags(pte, 0, 1);
  }

  lemma RightsAreProtection(pte: nat, t: AccessType, ctx: Ctx)
    requires t != ShadowStack
    ensures PermOk(pte, t, ctx.mxr) && UserOk(pte, t, ctx) <==> Protection(pte, t, ctx.user, ctx.sum, ctx.mxr)
    ensures HasAD(pte, t) <==> Accessed(pte, t)
  {
    hide Bit, Has;
    LowFlags(pte);
  }

  lemma SetADMarks(pte: nat, t: AccessType)
    ensures Marked(pte, t, SetAD(pte, t))
  {
    hide Bit, Has;
    LowFlags(pte);
    var p := if Has(pte, A) then pte else pte + A;
    LowFlags(p);
    assert P.Pow2(6) == 64 && P.Pow2(7) == 128;
    forall k: nat
      ensures Bit(p, k) == (Bit(pte, k) || k == 6)
    {
      if !Has(pte, A) {
        BitOfSum(pte, 6, k);
      }
    }
    forall k: nat
      ensures Bit(SetAD(pte, t), k) == (Bit(pte, k) || k == 6 || (k == 7 && t in {Store, Amo}))
    {
      if NeedsD(t) && !Has(p, D) {
        BitOfSum(p, 7, k);
      }
    }
  }

  lemma FramePowers()
    ensures P.Pow2(9) == 0x200 && P.Pow2(10) == 0x400 && P.Pow2(18) == 0x4_0000
    ensures P.Pow2(27) == 0x800_0000 && P.Pow2(36) == 0x10_0000_0000 && P.Pow2(44) == 0x1000_0000_0000
    ensures P.Pow2(51) == 0x8_0000_0000_0000 && P.Pow2(53) == 0x20_0000_0000_0000
  {
    hide P.Pow2;
    Powers();
    SmallPowers();
    Pow2Sum(8, 1);
    Pow2Sum(8, 2);
    Pow2Sum(16, 2);
    Pow2Sum(16, 8);
    Pow2Sum(24, 3);
    Pow2Sum(32, 4);
    Pow2Sum(36, 8);
    Pow2Sum(48, 3);
    Pow2Sum(48, 5);
  }

  lemma SmallPowers()
    ensures P.Pow2(1) == 2 && P.Pow2(2) == 4 && P.Pow2(3) == 8 && P.Pow2(4) == 16 && P.Pow2(5) == 32 && P.Pow2(7) == 128
  {
  }

  /** The upper fields of an entry by their bits. */
  lemma HighFlags(pte: nat)
    ensures Pbmt(pte) == 3 <==> Bit(pte, 61) && Bit(pte, 62)
    ensures Pbmt(pte) == 0 <==> !Bit(pte, 61) && !Bit(pte, 62)
    ensures Reserved(pte) == 0 <==> Clear(pte, 54, 7)
    ensures Napot(pte) <==> Bit(pte, 63)
  {
    hide P.Pow2, S.Shr, Bit, Low, Clear;
    var x := pte / 1024;
    FramePowers();
    SmallPowers();
    S.ShrIsDiv(pte, 10);
    S.ShrIsDiv(x, 51);
    S.ShrIsDiv(x, 44);
    S.ShrIsDiv(x, 53);
    ShrShr(pte, 10, 51);
    ShrShr(pte, 10, 44);
    ShrShr(pte, 10, 53);
    LowIsMod(S.Shr(pte, 54), 7);
    FieldIsZero(pte, 54, 7);
    FirstBits(S.Shr(pte, 61));
    FirstBits(S.Shr(pte, 63));
    BitOfShr(pte, 61, 0);
    BitOfShr(pte, 61, 1);
    BitOfShr(pte, 63, 0);
  }

  lemma FirstBits(v: nat)
    ensures v % 2 == (if Bit(v, 0) then 1 else 0)
    ensures v % 4 == (if Bit(v, 0) then 1 else 0) + (if Bit(v, 1) then 2 else 0)
  {
    assert v % 4 == v / 2 % 2 * 2 + v % 2;
  }

  /** The frame number is bits 10 to 53. */
  lemma FrameBits(pte: nat, k: nat)
    ensures Bit(Ppn(pte), k) == (k < 44 && Bit(pte, 10 + k))
  {
    hide P.Pow2, S.Shr, Bit, Low;
    FramePowers();
    S.ShrIsDiv(pte, 10);
    LowIsMod(pte / 1024, 44);
    BitOfLow(pte / 1024, 44, k);
    BitOfShr(pte, 10, k);
  }

  lemma NapotFrame(pte: nat)
    ensures Ppn(pte) % 16 == 8 <==> Bit(pte, 13) && !Bit(pte, 12) && !Bit(pte, 11) && !Bit(pte, 10)
  {
    hide Ppn;
    var n := Ppn(pte);
    assert n % 16 == n / 4 % 4 * 4 + n % 4;
    FirstBits(n);
    FirstBits(n / 4);
    assert Bit(n / 4, 0) == Bit(n, 2) && Bit(n / 4, 1) == Bit(n, 3);
    hide Bit;
    FrameBits(pte, 0);
    FrameBits(pte, 1);
    FrameBits(pte, 2);
    FrameBits(pte, 3);
  }

  lemma AlignedIsClear(pte: nat, level: nat)
    requires level <= 4
    ensures AlignedPpn(Ppn(pte), level) <==> Clear(pte, 10, 9 * level)
  {
    hide P.Pow2, S.Shr, Bit, Low, Clear;
    var x := pte / 1024;
    FramePowers();
    S.ShrIsDiv(pte, 10);
    LowIsMod(x, 44);
    LowIsMod(Ppn(pte), 9 * level);
    LowLow(x, 44, 9 * level);
    FieldIsZero(pte, 10, 9 * level);
    NothingLow(x);
  }

  lemma NothingLow(x: nat)
    ensures Low(x, 0) == 0
  {
  }

  lemma PlaceIsWellFormed(e: Env, pte: nat, va: nat, level: nat, t: AccessType, updated: bool)
    requires level <= 4
    ensures Place(e, pte, va, level, t, updated).Ok? <==> WellFormed(e, pte, level)
    ensures Place(e, pte, va, level, t, updated).Fault? ==> Place(e, pte, va, level, t, updated).cause == PageFault(t)
  {
    hide Bit, Ppn, Pbmt, Reserved, Napot, Clear, AlignedPpn, PageFault, Offset;
    HighFlags(pte);
    NapotFrame(pte);
    AlignedIsClear(pte, level);
    LevelZeroAligned(FullPpn(pte, va));
    LevelZeroAligned(Ppn(pte));
  }

  lemma LevelZeroAligned(ppn: nat)
    ensures AlignedPpn(ppn, 0)
  {
  }

  lemma PlaceIsMapped(e: Env, pte: nat, va: nat, level: nat, t: AccessType, updated: bool)
    requires level <= 4 && Place(e, pte, va, level, t, updated).Ok?
    ensures Mapped(pte, level, va, Place(e, pte, va, level, t, updated).paddr)
    ensures var p := Place(e, pte, va, level, t, updated); p.level == level && p.updated == updated
  {
    hide P.Pow2, S.Shr, Bit, Low, Ppn, Napot, Pbmt, Reserved;
    var paddr, n := Place(e, pte, va, level, t, updated).paddr, PageBits(pte, level);
    HighFlags(pte);
    PageParts(pte, va, level);
    forall k: nat
      ensures Bit(paddr, k) == if k < n then Bit(va, k) else k < 56 && Bit(pte, k - 2)
    {
      LowIsMod(va, n);
      BitOfParts(S.Shr(Ppn(pte), n - 12), Low(va, n), n, k);
      BitOfLow(va, n, k);
      if k >= n {
        BitOfShr(Ppn(pte), n - 12, k - n);
        FrameBits(pte, k - 12);
      }
    }
  }

  /** The address an entry gives, in two parts. */
  lemma PageParts(pte: nat, va: nat, level: nat)
    requires level <= 4 && AlignedPpn(FullPpn(pte, va), level) && (Napot(pte) ==> level == 0)
    ensures var n := if Napot(pte) then 4 else 9 * level;
      FullPpn(pte, va) * 0x1000 + Offset(va, level) == S.Shr(Ppn(pte), n) * P.Pow2(n + 12) + Low(va, n + 12)
  {
    hide P.Pow2, S.Shr, Bit, Low, Ppn, Napot;
    var f, n := Ppn(pte), if Napot(pte) then 4 else 9 * level;
    var high, p := S.Shr(f, n), P.Pow2(n);
    FramePowers();
    SmallPowers();
    Pow2Sum(9, 3);
    Pow2Sum(n, 12);
    S.ShrIsDiv(va, 12);
    LowIsMod(va, 12);
    LowSplit(va, 12, n);
    LowIsMod(va / 0x1000, n);
    LowIsMod(f, n);
    NothingLow(f);
    NothingLow(va / 0x1000);
    assert FullPpn(pte, va) + FrameOffset(va / 0x1000, level) == high * p + Low(va / 0x1000, n);
    Regroup(high, p, P.Pow2(n + 12), Low(va / 0x1000, n), va % 0x1000);
  }

  lemma Regroup(high: nat, p: nat, q: nat, middle: nat, low: nat)
    requires q == p * 0x1000
    ensures (high * p + middle) * 0x1000 + low == high * q + (middle * 0x1000 + low)
  {
    assert high * p * 0x1000 == high * q;
  }

  // ---- The descent -----------------------------------------------------------------------------------

  lemma {:induction false} VpnIsPageNo(va: nat, level: nat)
    requires level <= 4
    ensures PageNo(va, level) % 512 == Vpn(va, level)
  {
    if level > 0 {
      VpnIsPageNo(va / 512, level - 1);
      PageNoUp(va, level);
    }
  }

  lemma PageNoUp(va: nat, level: nat)
    requires 0 < level <= 4
    ensures PageNo(va, level) == PageNo(va / 512, level - 1)
  {
    var f := va / 0x1000;
    assert va / 512 / 0x1000 == f / 512;
  }

  lemma EntryKinds(e: Env, pte: nat)
    ensures var valid := Has(pte, PageTables.V) && !(!Has(pte, PageTables.R) && Has(pte, PageTables.W));
      && (IsLeaf(pte) && valid <==> LeafEntry(pte))
      && (valid && !IsLeaf(pte) && PtrOk(e, pte) <==> Pointer(e, pte))
    ensures Ppn(pte) * 0x1000 == NextTable(pte)
  {
    hide Bit, Has, Pbmt;
    LowFlags(pte);
    HighFlags(pte);
  }

  /** What the descent finds is at the end of the path. */
  lemma {:induction false} FindLeafIsPath(e: Env, mem: Mem, va: nat, level: nat, tables: seq<nat>)
    requires level <= 4 && Path(e, mem, va, level, tables)
    ensures var l := level + 1 - |tables|; var a := EntryAt(va, l, tables[|tables| - 1]);
      FindLeaf(e, mem, va, level, tables[0])
        == if !Readable(e, mem, a) then NoAccess else if LeafEntry(mem[a]) then Found(mem[a], l, a) else NoPage
    decreases level
  {
    hide Bit, Has, PtrOk, Pointer, LeafEntry, IsLeaf, Ppn, NextTable, PageNo, Vpn;
    VpnIsPageNo(va, level);
    var a := EntryAt(va, level, tables[0]);
    assert a == PteAddr(tables[0], va, level);
    if a in mem {
      EntryKinds(e, mem[a]);
    }
    if |tables| > 1 {
      FindLeafIsPath(e, mem, va, level - 1, tables[1..]);
    }
  }

  /** There is one path. */
  lemma {:induction false} PathExists(e: Env, mem: Mem, va: nat, level: nat, table: nat) returns (tables: seq<nat>)
    ensures Path(e, mem, va, level, tables) && tables[0] == table
    decreases level
  {
    hide Pointer, NextTable, Vpn;
    var a := EntryAt(va, level, table);
    if level > 0 && Readable(e, mem, a) && Pointer(e, mem[a]) {
      var rest := PathExists(e, mem, va, level - 1, NextTable(mem[a]));
      tables := [table] + rest;
      assert tables[1..] == rest;
    } else {
      tables := [table];
    }
  }

  lemma {:induction false} PathUnique(e: Env, mem: Mem, va: nat, level: nat, p: seq<nat>, q: seq<nat>)
    requires Path(e, mem, va, level, p) && Path(e, mem, va, level, q) && p[0] == q[0]
    ensures p == q
    decreases level
  {
    hide Pointer, NextTable, Vpn;
    if |p| > 1 {
      PathUnique(e, mem, va, level - 1, p[1..], q[1..]);
      assert p == [p[0]] + p[1..] && q == [q[0]] + q[1..];
    }
  }

  lemma CanonicalIsSignExtended(va: nat, levels: nat)
    requires 3 <= levels <= 5 && va < TWO64
    ensures Canonical(va, levels) <==> SignExtended(va, 12 + 9 * levels)
  {
    hide Bit, Clear, P.Pow2, Low, S.Shr;
    var m := 11 + 9 * levels;
    TopIsClear(va, levels);
    TopIsClear(MAX64 - va, levels);
    forall k: nat | k < 64
      ensures Bit(MAX64 - va, k) == !Bit(va, k)
    {
      Powers();
      Pow2Sum(48, 16);
      BitOfComplement(va, 64, k);
    }
    TopBitsAgree(va, MAX64 - va, m);
  }

  /** All of the top bits alike: all clear, or all set. */
  lemma TopBitsAgree(va: nat, w: nat, m: nat)
    requires m < 64 && forall k: nat | k < 64 :: Bit(w, k) == !Bit(va, k)
    ensures SignExtended(va, m + 1) <==> Clear(va, m, 64 - m) || Clear(w, m, 64 - m)
  {
    hide Bit;
    if SignExtended(va, m + 1) {
      if Bit(va, m) {
        forall k: nat | m <= k < m + (64 - m)
          ensures !Bit(w, k)
        {
          assert Bit(va, k) == Bit(va, m) && Bit(w, k) == !Bit(va, k);
        }
      } else {
        forall k: nat | m <= k < m + (64 - m)
          ensures !Bit(va, k)
        {
          assert Bit(va, k) == Bit(va, m);
        }
      }
    } else {
      var k: nat :| m <= k < 64 && Bit(va, k) != Bit(va, m);
      if Bit(va, m) {
        SetIsNotClear(va, m, 64 - m, m);
        SetIsNotClear(w, m, 64 - m, k);
      } else {
        SetIsNotClear(va, m, 64 - m, k);
        SetIsNotClear(w, m, 64 - m, m);
      }
    }
  }

  lemma SetIsNotClear(v: nat, low: nat, width: nat, k: nat)
    requires low <= k < low + width && Bit(v, k)
    ensures !Clear(v, low, width)
  {
  }

  lemma TopIsClear(va: nat, levels: nat)
    requires 3 <= levels <= 5 && va < TWO64
    ensures va < HalfSpace(levels) <==> Clear(va, 11 + 9 * levels, 53 - 9 * levels)
  {
    hide Bit, Clear, P.Pow2, Low, S.Shr;
    var m := 11 + 9 * levels;
    HalfPowers();
    S.ShrIsDiv(va, m);
    LowIsMod(S.Shr(va, m), 64 - m);
    FieldIsZero(va, m, 64 - m);
  }

  lemma HalfPowers()
    ensures P.Pow2(38) == 0x40_0000_0000 && P.Pow2(47) == 0x8000_0000_0000 && P.Pow2(56) == 0x100_0000_0000_0000
    ensures P.Pow2(26) == 0x400_0000 && P.Pow2(17) == 0x2_0000 && P.Pow2(8) == 0x100
  {
    hide P.Pow2;
    Powers();
    SmallPowers();
    Pow2Sum(16, 1);
    Pow2Sum(16, 2);
    Pow2Sum(18, 8);
    Pow2Sum(32, 5);
    Pow2Sum(37, 1);
    Pow2Sum(32, 16);
    Pow2Sum(37, 10);
    Pow2Sum(8, 2);
  }

  // ---- The whole of it --------------------------------------------------------------------------------

  /** Page faults and access faults by the kind of access. */
  function CauseOf(t: AccessType, page: bool): nat {
    if t == Fetch then if page then 12 else 1
    else if t == Load then if page then 13 else 5
    else if page then 15 else 7
  }

  lemma CausesAreCauses(t: AccessType)
    ensures PageFault(t) == CauseOf(t, true) && AccessFault(t) == CauseOf(t, false)
  {
  }

  /** Whether the walk may set A and D itself: menvcfg.ADUE, and PMP for the store. */
  predicate Settable(e: Env, addr: nat) {
    e.adue && addr != 0 && (e.smpmp ==> P.Check(e.pmp, e.csr, addr, 8, P.Store, R.S))
  }

  /** The address is one of the mode's, and the entry at `a` is a leaf that may be read and permits the
      access. */
  ghost predicate Permitted(e: Env, mem: Mem, va: nat, t: AccessType, ctx: Ctx, a: nat)
    requires e.mode in {8, 9, 10}
  {
    && SignExtended(va, 12 + 9 * (e.mode - 5)) && Readable(e, mem, a)
    && LeafEntry(mem[a]) && Protection(mem[a], t, ctx.user, ctx.sum, ctx.mxr)
  }

  /** Bits above D are as they were. */
  lemma MarkedIsWellFormed(e: Env, pte: nat, t: AccessType, q: nat, level: nat)
    requires Marked(pte, t, q)
    ensures WellFormed(e, pte, level) <==> WellFormed(e, q, level)
    ensures forall k: nat | k >= 8 :: Bit(q, k) == Bit(pte, k)
  {
    hide Bit, Clear;
    SameClear(pte, q, 54, 7);
    SameClear(pte, q, 10, 9 * level);
  }

  lemma SameClear(pte: nat, q: nat, low: nat, width: nat)
    requires low >= 8 && forall k: nat | k >= 8 :: Bit(q, k) == Bit(pte, k)
    ensures Clear(pte, low, width) <==> Clear(q, low, width)
  {
    hide Bit;
    if Clear(pte, low, width) {
      assert forall k: nat | low <= k < low + width :: Bit(q, k) == Bit(pte, k);
    } else {
      var k: nat :| low <= k < low + width && Bit(pte, k);
      SetIsNotClear(q, low, width, k);
    }
  }

  lemma SameAbove(pte: nat, q: nat, level: nat, va: nat, paddr: nat)
    requires (forall k: nat | k >= 8 :: Bit(q, k) == Bit(pte, k)) && Mapped(q, level, va, paddr)
    ensures Mapped(pte, level, va, paddr)
  {
    hide Bit;
    var n := PageBits(pte, level);
    assert PageBits(q, level) == n;
    forall k: nat
      ensures Bit(paddr, k) == if k < n then Bit(va, k) else k < 56 && Bit(pte, k - 2)
    {
    }
  }

  /** What is done with a leaf that was found. */
  lemma UseLeafIsVerdict(e: Env, mem: Mem, va: nat, t: AccessType, ctx: Ctx, pte: nat, level: nat, addr: nat)
    requires level <= 4 && t != ShadowStack
    ensures var w := UseLeaf(e, mem, va, t, ctx, pte, level, addr);
      var permitted := Protection(pte, t, ctx.user, ctx.sum, ctx.mxr);
      && (w.outcome.Ok? <==> permitted && (Accessed(pte, t) || Settable(e, addr)) && WellFormed(e, pte, level))
      && (w.outcome.Ok? ==> Mapped(pte, level, va, w.outcome.paddr) && w.outcome.level == level
                            && (w.outcome.updated <==> !Accessed(pte, t)))
      && (w.outcome.Fault? ==>
            var refused := permitted && !Accessed(pte, t) && e.adue && addr != 0 && !Settable(e, addr);
            w.outcome.cause == CauseOf(t, !refused))
      && (if permitted && !Accessed(pte, t) && Settable(e, addr)
          then addr in w.mem && w.mem == mem[addr := w.mem[addr]] && Marked(pte, t, w.mem[addr]) else w.mem == mem)
  {
    hide Bit, Has, PermOk, UserOk, HasAD, Protection, Accessed, Place, WellFormed, Mapped, SetAD, Marked;
    hide PageFault, AccessFault;
    RightsAreProtection(pte, t, ctx);
    CausesAreCauses(t);
    var q := SetAD(pte, t);
    SetADMarks(pte, t);
    MarkedIsWellFormed(e, pte, t, q, level);
    PlaceIsWellFormed(e, pte, va, level, t, false);
    PlaceIsWellFormed(e, q, va, level, t, true);
    if WellFormed(e, pte, level) {
      PlaceIsMapped(e, pte, va, level, t, false);
      PlaceIsMapped(e, q, va, level, t, true);
      SameAbove(pte, q, level, va, Place(e, q, va, level, t, true).paddr);
    }
  }

  /** What the architecture says of a walk whose path ends at the entry at `a`, of level `level`. It succeeds
      exactly where the address is one of the mode's, the entry is a leaf that may be read and permits the
      access, A and D are set or may be, and the entry is well formed; it then gives the address the entry
      maps. Else it faults, for PMP if that is what refused the walk itself. It writes that entry's A and D
      alone. */
  ghost predicate Answers(e: Env, mem: Mem, va: nat, t: AccessType, ctx: Ctx, level: nat, a: nat, w: Result)
    requires e.mode in {8, 9, 10}
  {
    var permitted := Permitted(e, mem, va, t, ctx, a);
    && (w.outcome.Ok? <==> permitted && (Accessed(mem[a], t) || Settable(e, a)) && WellFormed(e, mem[a], level))
    && (w.outcome.Ok? ==> Mapped(mem[a], level, va, w.outcome.paddr) && w.outcome.level == level
                          && (w.outcome.updated <==> !Accessed(mem[a], t)))
    && (w.outcome.Fault? ==>
          var refused := (SignExtended(va, 12 + 9 * (e.mode - 5)) && !Readable(e, mem, a))
                         || (permitted && !Accessed(mem[a], t) && e.adue && a != 0 && !Settable(e, a));
          w.outcome.cause == CauseOf(t, !refused))
    && (if permitted && !Accessed(mem[a], t) && Settable(e, a)
        then a in w.mem && w.mem == mem[a := w.mem[a]] && Marked(mem[a], t, w.mem[a]) else w.mem == mem)
  }

  /** The walk, once the descent is known. */
  lemma WalkFromPath(e: Env, mem: Mem, va: nat, t: AccessType, ctx: Ctx, tables: seq<nat>)
    requires e.mode in {8, 9, 10} && va < TWO64 && t != ShadowStack
    requires Path(e, mem, va, e.mode - 6, tables) && tables[0] == e.root * 0x1000
    ensures var level := e.mode - 5 - |tables|; var a := EntryAt(va, level, tables[|tables| - 1]);
      Walk(e, mem, va, t, ctx) ==
        if !SignExtended(va, 12 + 9 * (e.mode - 5)) then Result(Fault(CauseOf(t, true)), mem)
        else if !Readable(e, mem, a) then Result(Fault(CauseOf(t, false)), mem)
        else if !LeafEntry(mem[a]) then Result(Fault(CauseOf(t, true)), mem)
        else UseLeaf(e, mem, va, t, ctx, mem[a], level, a)
  {
    hide UseLeaf, FindLeaf, Canonical, SignExtended, LeafEntry, Readable, EntryAt, PageFault, AccessFault, Path;
    FindLeafIsPath(e, mem, va, Levels(e.mode) - 1, tables);
    CanonicalIsSignExtended(va, Levels(e.mode));
    CausesAreCauses(t);
  }

  /** The walk answers as the architecture does. */
  lemma WalkIsArchitecture(e: Env, mem: Mem, va: nat, t: AccessType, ctx: Ctx, tables: seq<nat>)
    requires e.mode in {8, 9, 10} && va < TWO64 && t != ShadowStack
    requires Path(e, mem, va, e.mode - 6, tables) && tables[0] == e.root * 0x1000
    ensures 0 < |tables| <= e.mode - 5
    ensures var level := e.mode - 5 - |tables|;
      Answers(e, mem, va, t, ctx, level, EntryAt(va, level, tables[|tables| - 1]), Walk(e, mem, va, t, ctx))
  {
    hide UseLeaf, Walk, SignExtended, Protection, Accessed, Settable, WellFormed, Mapped, Marked, LeafEntry;
    hide EntryAt, Path;
    var level := e.mode - 5 - |tables|;
    var a := EntryAt(va, level, tables[|tables| - 1]);
    WalkFromPath(e, mem, va, t, ctx, tables);
    if Readable(e, mem, a) {
      UseLeafIsVerdict(e, mem, va, t, ctx, mem[a], level, a);
    }
  }

  /** Steps 3 and 6 of section 4.3.2 refuse an ill-formed entry before step 7 sets A and D. This walk sets
      them first: it can fault and yet have written, exactly on such an entry. */
  lemma FaultWritesExactly(e: Env, mem: Mem, va: nat, t: AccessType, ctx: Ctx, tables: seq<nat>)
    requires e.mode in {8, 9, 10} && va < TWO64 && t != ShadowStack
    requires Path(e, mem, va, e.mode - 6, tables) && tables[0] == e.root * 0x1000
    ensures var w := Walk(e, mem, va, t, ctx);
      var level := e.mode - 5 - |tables|;
      var a := EntryAt(va, level, tables[|tables| - 1]);
      w.outcome.Fault? && w.mem != mem <==>
        Permitted(e, mem, va, t, ctx, a) && !Accessed(mem[a], t) && Settable(e, a) && !WellFormed(e, mem[a], level)
  {
    hide Walk, SignExtended, Protection, Settable, WellFormed, Mapped, LeafEntry, EntryAt, Path, Bit;
    WalkIsArchitecture(e, mem, va, t, ctx, tables);
    var w := Walk(e, mem, va, t, ctx);
    var a := EntryAt(va, e.mode - 5 - |tables|, tables[|tables| - 1]);
    if a in mem && a in w.mem && Marked(mem[a], t, w.mem[a]) {
      assert Bit(w.mem[a], 6) && (t in {Store, Amo} ==> Bit(w.mem[a], 7));
    }
  }

  /** As a 1 GB page whose frame number is not a multiple of its size. */
  lemma MisalignedIsMarked(e: Env)
    requires e.mode == 8 && e.root == 0x8_0001 && e.adue && !e.smpmp
    ensures var mem := map[0x8000_1000 := 1024 + 3];
      Walk(e, mem, 0, Load, Ctx(false, false, false)) == Result(Fault(13), mem[0x8000_1000 := 1024 + 67])
  {
    var mem: Mem := map[0x8000_1000 := 1024 + 3];
    assert FindLeaf(e, mem, 0, 2, 0x8000_1000) == Found(1024 + 3, 2, 0x8000_1000);
    assert !AlignedPpn(Ppn(1024 + 67), 2);
  }

  /** A shadow-stack access, the extension being off, always faults. */
  lemma ShadowStackFaults(e: Env, mem: Mem, va: nat, ctx: Ctx)
    requires e.mode in {8, 9, 10}
    ensures var w := Walk(e, mem, va, ShadowStack, ctx); w.outcome.Fault? && w.outcome.cause in {7, 15} && w.mem == mem
  {
    hide FindLeaf, Canonical;
  }
}
