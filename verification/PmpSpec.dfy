/** The PMP check the architecture defines (section 3.7.1 of the RISC-V Privileged Architecture 1.12), and
    for which accesses the emulator's is the same. */
module PmpSpec {
  import opened Words
  import opened Bits
  import opened BitFlags
  import opened Registers
  import opened Pmp
  import opened PmpShifts
  import opened PmpLocks
  import L = PmpLocks

  // ---- The architecture's check ------------------------------------------------------------

  /** Bit `k` of an entry's configuration: R, W and X are bits 0 to 2, A bits 3 and 4, L bit 7. */
  predicate CfgBit(csr: CsrFile, e: nat, k: nat)
    requires e < 64
  {
    Bit(csr[0x3A0 + e / 8 * 2], e % 8 * 8 + k)
  }

  /** Whether entry `e` matches the byte at `a`. A is 1 for TOR, 2 for NA4 and 3 for NAPOT. With a grain G the
      low G bits of neither pmpaddr take part in a TOR match, whatever mode the entry below is in; they read
      as zeros in NA4, and all but the top one as ones in NAPOT. */
  predicate Selects(c: PmpConfig, csr: CsrFile, e: nat, a: nat)
    requires e < 64
  {
    var addr := csr[0x3B0 + e];
    if CfgBit(csr, e, 4) then
      if CfgBit(csr, e, 3) then NapotMatches(if c.grain == 0 then addr else Ones(addr, c.grain - 1), a / 4)
      else a / 4 == Shl(Shr(addr, c.grain), c.grain)
    else
      && CfgBit(csr, e, 3)
      && (e > 0 ==> Shr(csr[0x3B0 + e - 1], c.grain) <= Shr(a / 4, c.grain))
      && Shr(a / 4, c.grain) < Shr(addr, c.grain)
  }

  /** An entry binds U and S, and if locked M-mode too; those it binds need R to load, W to store and X to
      fetch. */
  predicate Allows(csr: CsrFile, e: nat, access: Access, priv: PrivMode)
    requires e < 64
  {
    || (priv == M && !CfgBit(csr, e, 7))
    || CfgBit(csr, e, match access case Load => 0 case Store => 1 case Fetch => 2)
  }

  /** The lowest-numbered entry that matches any byte of the access decides: it must match all of
      them. With no such entry, M-mode succeeds and the others fail. */
  ghost predicate SpecFrom(c: PmpConfig, csr: CsrFile, e: nat, first: nat, last: nat, access: Access, priv: PrivMode)
    requires e <= c.count
    decreases c.count - e
  {
    if e == c.count then priv == M
    else if exists a: nat :: first <= a <= last && Selects(c, csr, e, a) then
      (forall a: nat | first <= a <= last :: Selects(c, csr, e, a)) && Allows(csr, e, access, priv)
    else SpecFrom(c, csr, e + 1, first, last, access, priv)
  }

  ghost predicate Spec(c: PmpConfig, csr: CsrFile, paddr: nat, size: nat, access: Access, priv: PrivMode)
    requires size > 0
  {
    c.count == 0 || SpecFrom(c, csr, 0, paddr, paddr + size - 1, access, priv)
  }

  // ---- The same by the fields the emulator decodes ------------------------------------------------------

  predicate Matches(c: PmpConfig, csr: CsrFile, e: nat, a: nat)
    requires e < 64
  {
    match ModeOf(CfgByte(csr, e))
    case Off => false
    case Tor => Floor(c, csr, e) <= Shr(a / 4, c.grain) < Shr(RawAddr(csr, e), c.grain)
    case Na4 => a / 4 == AddrOf(c, csr, e)
    case Napot => NapotMatches(AddrOf(c, csr, e), a / 4)
  }

  function Floor(c: PmpConfig, csr: CsrFile, e: nat): nat
    requires e < 64
  {
    if e == 0 then 0 else Shr(RawAddr(csr, e - 1), c.grain)
  }

  lemma {:induction false} BitOfByte(word: nat, i: nat, k: nat)
    requires k < 8
    ensures Bit(Byte(word, i), k) == Bit(word, i * 8 + k)
    decreases i
  {
    hide Bit, Low, Shr;
    Powers();
    if i == 0 {
      LowIsMod(word, 8);
      BitOfLow(word, 8, k);
    } else {
      ShrIsDiv(word, 8);
      BitOfShr(word, 8, (i - 1) * 8 + k);
      BitOfByte(word / 256, i - 1, k);
    }
  }

  lemma CfgBitOf(csr: CsrFile, e: nat, k: nat)
    requires e < 64 && k < 8
    ensures CfgBit(csr, e, k) == Bit(CfgByte(csr, e), k)
  {
    hide Bit, Byte;
    BitOfByte(csr[CfgCsr(e)], e % 8, k);
  }

  /** The flags and the mode of a configuration byte. */
  lemma ByteFields(cfg: nat)
    ensures Bit(cfg, 0) == Has(cfg, CFG_R) && Bit(cfg, 1) == Has(cfg, CFG_W) && Bit(cfg, 2) == Has(cfg, CFG_X)
    ensures Bit(cfg, 7) == Has(cfg, CFG_L)
    ensures cfg / 8 % 4 == (if Bit(cfg, 3) then 1 else 0) + (if Bit(cfg, 4) then 2 else 0)
  {
    hide Bit;
    ByteFlags(cfg, 0, 1);
    TwoFields(cfg / 8);
  }

  lemma TwoFields(v: nat)
    ensures v % 4 == v / 2 % 2 * 2 + v % 2
  {
  }

  lemma CfgBits(csr: CsrFile, e: nat)
    requires e < 64
    ensures var cfg := CfgByte(csr, e);
      && CfgBit(csr, e, 0) == Has(cfg, CFG_R) && CfgBit(csr, e, 1) == Has(cfg, CFG_W)
      && CfgBit(csr, e, 2) == Has(cfg, CFG_X)
      && CfgBit(csr, e, 7) == Has(cfg, CFG_L)
      && cfg / 8 % 4 == (if CfgBit(csr, e, 3) then 1 else 0) + (if CfgBit(csr, e, 4) then 2 else 0)
  {
    hide Bit, CfgByte, CfgBit, Has;
    ByteFields(CfgByte(csr, e));
    CfgBitOf(csr, e, 0);
    CfgBitOf(csr, e, 1);
    CfgBitOf(csr, e, 2);
    CfgBitOf(csr, e, 3);
    CfgBitOf(csr, e, 4);
    CfgBitOf(csr, e, 7);
  }

  lemma AlignIsShlShr(v: nat, n: nat)
    ensures AlignDown(v, Pow2(n)) == Shl(Shr(v, n), n)
  {
    LowIsMod(v, n);
    ShlIsTimes(Shr(v, n), n);
  }

  lemma {:induction false} ShlIsTimes(v: nat, n: nat)
    ensures Shl(v, n) == v * Pow2(n)
    decreases n
  {
    if n > 0 {
      ShlIsTimes(v, n - 1);
      TwiceInside(v, Pow2(n - 1));
    }
  }

  /** An entry matches what the emulator's fields say it does, and allows what they do. */
  lemma SelectsIsMatches(c: PmpConfig, csr: CsrFile, e: nat)
    requires e < 64
    ensures forall a: nat :: Selects(c, csr, e, a) == Matches(c, csr, e, a)
    ensures forall access: Access, priv: PrivMode ::
      Allows(csr, e, access, priv) == Permits(CfgByte(csr, e), access, priv)
  {
    hide Bit, CfgByte, CfgBit, NapotMatches, AlignDown, Ones, Shl, Shr, Has;
    CfgBits(csr, e);
    AlignIsShlShr(RawAddr(csr, e), c.grain);
    if c.grain > 0 && ModeOf(CfgByte(csr, e)) == Napot {
      NapotReads(c, csr, e);
    }
    if c.grain == 0 {
      NoShift(RawAddr(csr, e));
    }
  }

  lemma NoShift(v: nat)
    ensures Shl(Shr(v, 0), 0) == v
  {
  }

  // ---- What a write stores ---------------------------------------------------------------------------

  /** Bit `k` of what a write of `v`, whose bits for the entry start at `at`, makes of an unlocked one: bits 5 and
      6 read zero, W needs R, and A is OFF where NA4 is written under a grain. */
  predicate Legalised(grain: nat, v: nat, at: nat, k: nat) {
    match k
    case 1 => Bit(v, at) && Bit(v, at + 1)
    case 4 => Bit(v, at + 4) && (grain == 0 || Bit(v, at + 3))
    case 5 => false
    case 6 => false
    case _ => Bit(v, at + k)
  }

  lemma LegalByteBits(grain: nat, b: nat, k: nat)
    requires k < 8
    ensures Bit(LegalByte(grain, b), k) == Legalised(grain, b, 0, k)
  {
    hide Bit;
    var r := LegalByte(grain, b);
    ByteFields(b);
    ByteFields(r);
    ByteFlags(r, 0, 1);
    LegalFields(grain, b);
  }

  lemma LegalFields(grain: nat, b: nat)
    ensures var r := LegalByte(grain, b);
      && Has(r, CFG_L) == Has(b, CFG_L) && Has(r, CFG_X) == Has(b, CFG_X) && Has(r, CFG_R) == Has(b, CFG_R)
      && Has(r, CFG_W) == (Has(b, CFG_W) && Has(b, CFG_R)) && !Has(r, 32) && !Has(r, 64)
      && r / 8 % 4 == if grain >= 1 && b / 8 % 4 == 2 then 0 else b / 8 % 4
  {
    hide Has;
    Assembled(if Has(b, CFG_L) then 1 else 0, if grain >= 1 && b / 8 % 4 == 2 then 0 else b / 8 % 4,
              if Has(b, CFG_X) then 1 else 0, if Has(b, CFG_W) && Has(b, CFG_R) then 1 else 0,
              if Has(b, CFG_R) then 1 else 0);
  }

  /** A configuration byte of these fields. */
  lemma Assembled(l: nat, a: nat, x: nat, w: nat, r: nat)
    requires l < 2 && a < 4 && x < 2 && w < 2 && r < 2
    ensures var v := l * 128 + a * 8 + x * 4 + w * 2 + r;
      && Has(v, CFG_L) == (l == 1) && Has(v, CFG_X) == (x == 1)
      && Has(v, CFG_W) == (w == 1) && Has(v, CFG_R) == (r == 1)
      && !Has(v, 32) && !Has(v, 64) && v / 8 % 4 == a
  {
    var v := l * 128 + a * 8 + x * 4 + w * 2 + r;
    assert v / 128 == l && v / 64 == 2 * l && v / 32 == 4 * l;
    assert v / 8 == 16 * l + a && v / 4 == 32 * l + 2 * a + x && v / 2 == 64 * l + 4 * a + 2 * x + w;
  }

  /** A pmpcfg write gives each of its eight entries its own bits, legalised, unless the entry is locked or not
      there; an odd-numbered register is none. */
  lemma CfgWritten(c: PmpConfig, csr: CsrFile, csrNo: nat, value: nat, e: nat, k: nat)
    requires 0x3A0 <= csrNo <= 0x3AF && e < 64 && k < 8
    ensures CfgBit(L.Apply(c, csr, Cfg(csrNo, value)), e, k) ==
      if csrNo == 0x3A0 + e / 8 * 2 && e < c.usable && !CfgBit(csr, e, 7) then Legalised(c.grain, value, e % 8 * 8, k)
      else CfgBit(csr, e, k)
  {
    hide Bit, CfgByte, LegalByte, Byte, Legalised, WriteCfg;
    WriteCfgEntry(c, csr, csrNo, value, e);
    CfgBitOf(L.Apply(c, csr, Cfg(csrNo, value)), e, k);
    CfgBitOf(csr, e, k);
    CfgBits(csr, e);
    LegalByteBits(c.grain, Byte(value, e % 8), k);
    LegalisedByte(c.grain, value, e % 8, k);
  }

  lemma LegalisedByte(grain: nat, value: nat, i: nat, k: nat)
    requires k < 8
    ensures Legalised(grain, Byte(value, i), 0, k) == Legalised(grain, value, i * 8, k)
  {
    hide Bit, Byte;
    BitOfByte(value, i, k);
    BitOfByte(value, i, 0);
    BitOfByte(value, i, 3);
  }

  /** A pmpaddr write stores the address bits the machine has, unless the entry is not there, or is locked, or
      the next one is locked and TOR. */
  lemma AddrWritten(c: PmpConfig, csr: CsrFile, e: nat, value: nat, k: nat)
    requires e < 64
    ensures var frozen := e >= c.usable || CfgBit(csr, e, 7)
        || (e + 1 < c.usable && CfgBit(csr, e + 1, 7) && CfgBit(csr, e + 1, 3) && !CfgBit(csr, e + 1, 4));
      Bit(L.Apply(c, csr, Addr(0x3B0 + e, value))[0x3B0 + e], k) ==
        if frozen then Bit(csr[0x3B0 + e], k) else k < 54 && k < c.physaddrBits - 2 && Bit(value, k)
  {
    hide Bit, CfgByte, CfgBit, Pow2, Low;
    CfgBits(csr, e);
    if e + 1 < c.usable {
      CfgBits(csr, e + 1);
    }
    LowIsMod(value, AddrBits(c));
    BitOfLow(value, AddrBits(c), k);
  }

  // ---- What each entry matches ----------------------------------------------------------------------

  /** A NAPOT entry matches at least the block of 2^G granules its address is in. */
  lemma NapotMatchesBlock(c: PmpConfig, csr: CsrFile, e: nat, w: nat)
    requires e < 64 && c.grain > 0 && ModeOf(CfgByte(csr, e)) == Napot
    requires Shr(RawAddr(csr, e), c.grain) == Shr(w, c.grain)
    ensures NapotMatches(AddrOf(c, csr, e), w)
  {
    hide AddrOf, CfgByte;
    var n := c.grain - 1;
    NapotReads(c, csr, e);
    NapotOverOnes(RawAddr(csr, e), n, w);
    ShrOnce(RawAddr(csr, e), n);
    ShrOnce(w, n);
    NapotMatchesItself(Shr(RawAddr(csr, e), n), Shr(w, n));
  }

  /** A TOR entry's bottom as the emulator reads it, against the architecture's: the same for every
      granule that the entry below does not match. */
  lemma BottomIsFloor(c: PmpConfig, csr: CsrFile, e: nat, w: nat)
    requires 0 < e < 64 && !Matches(c, csr, e - 1, w * 4)
    ensures Below(c, csr, e) <= w <==> Floor(c, csr, e) <= Shr(w, c.grain)
  {
    hide AlignDown, CfgByte, Pow2, Ones;
    var raw := RawAddr(csr, e - 1);
    assert w * 4 / 4 == w;
    if c.grain > 0 && ModeOf(CfgByte(csr, e - 1)) == Napot {
      NapotReads(c, csr, e - 1);
      ShrOfOnes(raw, c.grain - 1);
      ShrOnce(raw, c.grain - 1);
      ShrOnce(Ones(raw, c.grain - 1), c.grain - 1);
      if Ones(raw, c.grain - 1) <= w {
        ShrMonotone(Ones(raw, c.grain - 1), w, c.grain);
      } else {
        ShrMonotone(w, Ones(raw, c.grain - 1), c.grain);
        if Shr(w, c.grain) == Shr(raw, c.grain) {
          NapotMatchesBlock(c, csr, e - 1, w);
        }
      }
    } else {
      AlignIsShr(raw, w, c.grain);
    }
  }

  lemma TopIsShr(c: PmpConfig, csr: CsrFile, e: nat, w: nat)
    requires e < 64 && ModeOf(CfgByte(csr, e)) == Tor
    ensures w < AddrOf(c, csr, e) <==> Shr(w, c.grain) < Shr(RawAddr(csr, e), c.grain)
  {
    hide AlignDown, CfgByte, Pow2;
    AlignIsShr(RawAddr(csr, e), w, c.grain);
  }

  /** A byte that the entry below does not match is in an entry's region exactly if the entry matches it. */
  lemma RegionIsMatch(c: PmpConfig, csr: CsrFile, e: nat, a: nat)
    requires e < c.count && Decodable(c, csr) && (e > 0 ==> !Matches(c, csr, e - 1, a))
    ensures var r := RegionOf(c, csr, e); Matches(c, csr, e, a) <==> r.Some? && In(r.value, a)
  {
    hide AddrOf, CfgByte, Decode, Decodable, Shr;
    assert AddrOf(c, csr, e) < MAX64 by {
      DecodableAt(c, csr, e);
    }
    DecodeIsMatch(ModeOf(CfgByte(csr, e)), Below(c, csr, e), AddrOf(c, csr, e), a);
    if ModeOf(CfgByte(csr, e)) == Tor {
      TopIsShr(c, csr, e, a / 4);
      if e > 0 {
        SameGranuleMatches(c, csr, e - 1, a);
        BottomIsFloor(c, csr, e, a / 4);
      }
    }
  }

  lemma DecodableAt(c: PmpConfig, csr: CsrFile, e: nat)
    requires Decodable(c, csr) && e < c.count
    ensures AddrOf(c, csr, e) < MAX64
  {
  }

  lemma SameGranuleMatches(c: PmpConfig, csr: CsrFile, e: nat, a: nat)
    requires e < 64
    ensures Matches(c, csr, e, a / 4 * 4) == Matches(c, csr, e, a)
  {
  }

  // ---- Accesses of two blocks ----------------------------------------------------------------------

  /** Every entry matches whole blocks of 2^n granules. */
  ghost predicate Blockwise(c: PmpConfig, csr: CsrFile, n: nat) {
    forall e: nat, a: nat, b: nat {:trigger Matches(c, csr, e, a), Matches(c, csr, e, b)} ::
      e < c.count && Shr(a / 4, n) == Shr(b / 4, n) ==> Matches(c, csr, e, a) == Matches(c, csr, e, b)
  }

  /** The bytes from `first` to `last` are in two such blocks at most. */
  predicate TwoBlocks(first: nat, last: nat, n: nat) {
    last / 4 / Pow2(n) <= first / 4 / Pow2(n) + 1
  }

  lemma TwoBlocksByShr(first: nat, last: nat, n: nat)
    ensures TwoBlocks(first, last, n) <==> Shr(last / 4, n) <= Shr(first / 4, n) + 1
  {
    ShrIsDiv(last / 4, n);
    ShrIsDiv(first / 4, n);
  }

  /** Then looking at the ends is looking at every byte. */
  lemma EndsDecide(c: PmpConfig, csr: CsrFile, e: nat, first: nat, last: nat, n: nat, a: nat)
    requires e < c.count && Blockwise(c, csr, n) && first <= a <= last && TwoBlocks(first, last, n)
    ensures Matches(c, csr, e, a) in {Matches(c, csr, e, first), Matches(c, csr, e, last)}
  {
    hide Matches, TwoBlocks;
    TwoBlocksByShr(first, last, n);
    ShrMonotone(first / 4, a / 4, n);
    ShrMonotone(a / 4, last / 4, n);
  }

  ghost predicate Missed(c: PmpConfig, csr: CsrFile, e: nat, first: nat, last: nat)
    requires e < 64
  {
    forall a: nat | first <= a <= last :: !Matches(c, csr, e, a)
  }

  ghost predicate Unmatched(c: PmpConfig, csr: CsrFile, e: nat, first: nat, last: nat)
    requires e <= 64
  {
    e > 0 ==> Missed(c, csr, e - 1, first, last)
  }

  lemma {:induction false} CheckFromIsSpec(c: PmpConfig, csr: CsrFile, e: nat, first: nat, last: nat, n: nat,
                                          access: Access, priv: PrivMode)
    requires e <= c.count && Decodable(c, csr) && Blockwise(c, csr, n) && first <= last && TwoBlocks(first, last, n)
    requires Unmatched(c, csr, e, first, last)
    ensures CheckFrom(c, csr, e, first, last, access, priv) <==> SpecFrom(c, csr, e, first, last, access, priv)
    decreases c.count - e
  {
    hide RegionOf, Matches, Permits, CfgByte, Decodable, Blockwise, Selects, Allows;
    if e < c.count {
      SelectsIsMatches(c, csr, e);
      RegionIsMatch(c, csr, e, first);
      RegionIsMatch(c, csr, e, last);
      forall a: nat | first <= a <= last
        ensures Matches(c, csr, e, a) in {Matches(c, csr, e, first), Matches(c, csr, e, last)}
      {
        EndsDecide(c, csr, e, first, last, n, a);
      }
      if !Matches(c, csr, e, first) && !Matches(c, csr, e, last) {
        CheckFromIsSpec(c, csr, e + 1, first, last, n, access, priv);
      }
    }
  }

  lemma GranulesAreBlocks(c: PmpConfig, csr: CsrFile)
    ensures Blockwise(c, csr, 0)
  {
  }

  /** The access touches at most two four-byte granules: every aligned access of up to eight bytes. */
  predicate TwoGranules(paddr: nat, size: nat) {
    size > 0 && (paddr + size - 1) / 4 - paddr / 4 <= 1
  }

  lemma AlignedTouchesTwoGranules(paddr: nat, size: nat)
    requires size in {1, 2, 4, 8} && paddr % size == 0
    ensures TwoGranules(paddr, size)
  {
  }

  /** On accesses of at most two granules the check is the architecture's, in every configuration. */
  lemma CheckIsSpec(c: PmpConfig, csr: CsrFile, paddr: nat, size: nat, access: Access, priv: PrivMode)
    requires Decodable(c, csr) && TwoGranules(paddr, size)
    ensures Check(c, csr, paddr, size, access, priv) <==> Spec(c, csr, paddr, size, access, priv)
  {
    hide Blockwise, CheckFrom, SpecFrom, TwoBlocks;
    GranulesAreBlocks(c, csr);
    TwoBlocksByShr(paddr, paddr + size - 1, 0);
    CheckFromIsSpec(c, csr, 0, paddr, paddr + size - 1, 0, access, priv);
  }

  /** The page-wide answer is the architecture's check of an access to every byte of the page, in every configuration:
      what it asks of a region it asks of both its ends. */
  lemma PageIsSpec(c: PmpConfig, csr: CsrFile, page: nat, access: Access, priv: PrivMode)
    requires Decodable(c, csr)
    ensures PagePermits(c, csr, page, access, priv) <==> Spec(c, csr, page, 0x1000, access, priv)
  {
    hide PageFrom, SpecFrom;
    PageFromIsSpec(c, csr, 0, page, access, priv);
  }

  lemma {:induction false} PageFromIsSpec(c: PmpConfig, csr: CsrFile, e: nat, page: nat, access: Access, priv: PrivMode)
    requires e <= c.count && Decodable(c, csr) && Unmatched(c, csr, e, page, page + 0xFFF)
    ensures PageFrom(c, csr, e, page, access, priv) <==> SpecFrom(c, csr, e, page, page + 0xFFF, access, priv)
    decreases c.count - e
  {
    hide RegionOf, Matches, Permits, CfgByte, Decodable, Selects, Allows;
    if e < c.count {
      SelectsIsMatches(c, csr, e);
      PageOfRegion(c, csr, e, page);
      if Missed(c, csr, e, page, page + 0xFFF) {
        PageFromIsSpec(c, csr, e + 1, page, access, priv);
      }
    }
  }

  /** A region misses the page, or covers it, exactly if the entry's bytes do. */
  lemma PageOfRegion(c: PmpConfig, csr: CsrFile, e: nat, page: nat)
    requires e < c.count && Decodable(c, csr) && Unmatched(c, csr, e, page, page + 0xFFF)
    ensures var r := RegionOf(c, csr, e);
      && (Missed(c, csr, e, page, page + 0xFFF) <==> r.None? || r.value.hi <= page || r.value.lo >= page + 0x1000)
      && ((forall a: nat | page <= a <= page + 0xFFF :: Matches(c, csr, e, a)) <==>
            r.Some? && r.value.lo <= page && r.value.hi >= page + 0x1000)
  {
    hide RegionOf, Matches, Decodable;
    var r := RegionOf(c, csr, e);
    forall a: nat | page <= a <= page + 0xFFF
      ensures Matches(c, csr, e, a) <==> r.Some? && In(r.value, a)
    {
      RegionIsMatch(c, csr, e, a);
    }
    assert Matches(c, csr, e, page) <==> r.Some? && In(r.value, page);
    assert Matches(c, csr, e, page + 0xFFF) <==> r.Some? && In(r.value, page + 0xFFF);
    if r.Some? {
      SomeBytes(c, csr, e);
      if page <= r.value.lo < page + 0x1000 {
        assert Matches(c, csr, e, r.value.lo);
      }
    }
  }

  lemma SomeBytes(c: PmpConfig, csr: CsrFile, e: nat)
    requires e < 64
    ensures var r := RegionOf(c, csr, e); r.Some? ==> r.value.lo < r.value.hi
  {
    hide AddrOf, CfgByte, AlignDown, TrailingOnes, Pow2;
  }

  // ---- The configurations writes reach ------------------------------------------------------------------

  /** What no write breaks: no address has more bits than the register, an entry past the usable ones is
      off, and with a grain none is NA4. */
  ghost predicate LegalConfig(c: PmpConfig, csr: CsrFile) {
    LegalAddrs(csr) && forall e: nat | e < 64 :: LegalMode(c, e, ModeOf(CfgByte(csr, e)))
  }

  predicate LegalMode(c: PmpConfig, e: nat, mode: Mode) {
    (e >= c.usable ==> mode == Off) && (c.grain > 0 ==> mode != Na4)
  }

  ghost predicate AtReset(csr: CsrFile) {
    forall addr: nat | IsPmpCsr(addr) :: csr[addr] == 0
  }

  /** The configurations that sequences of pmpcfg and pmpaddr writes lead to from reset. */
  ghost predicate Reachable(c: PmpConfig, csr: CsrFile) {
    exists start: CsrFile, ws: seq<PmpWrite> ::
      AtReset(start) && (forall w <- ws :: LegalWrite(w)) && csr == L.Run(c, start, ws)
  }

  lemma {:induction false} ByteOfZero(i: nat)
    ensures Byte(0, i) == 0
  {
    if i > 0 {
      ByteOfZero(i - 1);
    }
  }

  lemma ResetIsOff(csr: CsrFile, e: nat)
    requires AtReset(csr) && e < 64
    ensures CfgByte(csr, e) == 0 && ModeOf(CfgByte(csr, e)) == Off && RawAddr(csr, e) == 0
  {
    assert IsPmpCsr(CfgCsr(e)) && IsPmpCsr(PMPADDR0 + e);
    ByteOfZero(e % 8);
  }

  lemma LegalByteMode(grain: nat, b: nat)
    requires b < 256
    ensures ModeOf(LegalByte(grain, b)) == if grain >= 1 && ModeOf(b) == Na4 then Off else ModeOf(b)
  {
    hide Has;
    var a := if grain >= 1 && b / 8 % 4 == 2 then 0 else b / 8 % 4;
    var low := (if Has(b, CFG_X) then CFG_X else 0) + (if Has(b, CFG_W) && Has(b, CFG_R) then CFG_W else 0)
      + (if Has(b, CFG_R) then CFG_R else 0);
    FieldOf(if Has(b, CFG_L) then 1 else 0, a, low);
  }

  lemma FieldOf(top: nat, a: nat, low: nat)
    requires a < 4 && low < 8
    ensures (top * 128 + a * 8 + low) / 8 % 4 == a
  {
    DivModUnique(top * 128 + a * 8 + low, 8, top * 16 + a, low);
    DivModUnique(top * 16 + a, 4, top * 4, a);
  }

  lemma WriteKeepsLegal(c: PmpConfig, csr: CsrFile, w: PmpWrite)
    requires LegalWrite(w) && LegalConfig(c, csr)
    ensures LegalConfig(c, L.Apply(c, csr, w))
  {
    hide L.Apply, LegalAddrs, CfgByte, LegalByte, ModeOf;
    WritesKeepLegalAddrs(c, csr, w);
    forall e: nat | e < 64
      ensures LegalMode(c, e, ModeOf(CfgByte(L.Apply(c, csr, w), e)))
    {
      WriteByte(c, csr, w, e);
      if w.Cfg? {
        LegalByteMode(c.grain, Byte(w.value, e % 8));
      }
    }
  }

  lemma WriteByte(c: PmpConfig, csr: CsrFile, w: PmpWrite, e: nat)
    requires LegalWrite(w) && e < 64
    ensures CfgByte(L.Apply(c, csr, w), e)
         == if w.Cfg? && w.csrNo == CfgCsr(e) then NewByte(c, csr, e, Byte(w.value, e % 8)) else CfgByte(csr, e)
  {
    if w.Cfg? {
      WriteCfgEntry(c, csr, w.csrNo, w.value, e);
    }
  }

  lemma {:induction false} RunKeepsLegal(c: PmpConfig, csr: CsrFile, ws: seq<PmpWrite>)
    requires (forall w <- ws :: LegalWrite(w)) && LegalConfig(c, csr)
    ensures LegalConfig(c, L.Run(c, csr, ws))
    decreases |ws|
  {
    hide L.Apply, LegalConfig;
    if ws != [] {
      assert ws[0] in ws;
      WriteKeepsLegal(c, csr, ws[0]);
      RunKeepsLegal(c, L.Apply(c, csr, ws[0]), ws[1..]);
    }
  }

  lemma ReachableIsLegal(c: PmpConfig, csr: CsrFile)
    requires Reachable(c, csr)
    ensures LegalConfig(c, csr)
  {
    hide CfgByte, ModeOf, RawAddr, LegalAddrs, AtReset;
    var start: CsrFile, ws: seq<PmpWrite> :| AtReset(start) && (forall w <- ws :: LegalWrite(w))
      && csr == L.Run(c, start, ws);
    assert LegalAddrs(start) by {
      ResetAddrs(start);
    }
    forall e: nat | e < 64
      ensures LegalMode(c, e, ModeOf(CfgByte(start, e)))
    {
      ResetIsOff(start, e);
    }
    RunKeepsLegal(c, start, ws);
  }

  lemma ResetAddrs(csr: CsrFile)
    requires AtReset(csr)
    ensures LegalAddrs(csr)
  {
  }

  /** In such a configuration an entry matches whole blocks of 2^G granules. */
  lemma LegalIsBlockwise(c: PmpConfig, csr: CsrFile)
    requires LegalConfig(c, csr)
    ensures Blockwise(c, csr, c.grain)
  {
    hide CfgByte, AddrOf, LegalAddrs;
    forall e: nat, a: nat, b: nat | e < c.count && Shr(a / 4, c.grain) == Shr(b / 4, c.grain)
      ensures Matches(c, csr, e, a) == Matches(c, csr, e, b)
    {
      if c.grain > 0 {
        assert LegalMode(c, e, ModeOf(CfgByte(csr, e)));
        if ModeOf(CfgByte(csr, e)) == Napot {
          NapotBlockwise(c, csr, e, a / 4, b / 4);
        }
      }
    }
  }

  lemma NapotBlockwise(c: PmpConfig, csr: CsrFile, e: nat, v: nat, w: nat)
    requires e < 64 && c.grain > 0 && ModeOf(CfgByte(csr, e)) == Napot && Shr(v, c.grain) == Shr(w, c.grain)
    ensures NapotMatches(AddrOf(c, csr, e), v) == NapotMatches(AddrOf(c, csr, e), w)
  {
    hide AddrOf, CfgByte;
    var n := c.grain - 1;
    var x := Shr(RawAddr(csr, e), n);
    NapotReads(c, csr, e);
    NapotOverOnes(RawAddr(csr, e), n, v);
    NapotOverOnes(RawAddr(csr, e), n, w);
    ShrOnce(v, n);
    ShrOnce(w, n);
    NapotIgnoresLast(x, Shr(v, n), Shr(w, n));
  }

  lemma NapotIgnoresLast(x: nat, v: nat, w: nat)
    requires v / 2 == w / 2
    ensures NapotMatches(x, v) == NapotMatches(x, w)
  {
  }

  /** On accesses of at most two blocks of 2^(G+2) bytes the check is the architecture's in every
      configuration that writes reach. */
  lemma CheckIsSpecOnBlocks(c: PmpConfig, csr: CsrFile, paddr: nat, size: nat, access: Access, priv: PrivMode)
    requires Reachable(c, csr) && size > 0 && TwoBlocks(paddr, paddr + size - 1, c.grain)
    ensures Check(c, csr, paddr, size, access, priv) <==> Spec(c, csr, paddr, size, access, priv)
  {
    hide Blockwise, CheckFrom, SpecFrom, Decodable, Reachable, TwoBlocks, LegalAddrs;
    ReachableIsLegal(c, csr);
    LegalAddrsDecode(c, csr);
    LegalIsBlockwise(c, csr);
    CheckFromIsSpec(c, csr, 0, paddr, paddr + size - 1, c.grain, access, priv);
  }

  // ---- Where the check is not the architecture's --------------------------------------------

  lemma {:induction false} AllOffChecks(c: PmpConfig, csr: CsrFile, e: nat, first: nat, last: nat, access: Access,
                                        priv: PrivMode)
    requires e <= c.count && forall k: nat | e <= k < c.count :: ModeOf(CfgByte(csr, k)) == Off
    ensures CheckFrom(c, csr, e, first, last, access, priv) == (priv == M)
      == SpecFrom(c, csr, e, first, last, access, priv)
    decreases c.count - e
  {
    hide ModeOf, CfgByte, Selects, Allows;
    if e < c.count {
      SelectsIsMatches(c, csr, e);
      AllOffChecks(c, csr, e + 1, first, last, access, priv);
    }
  }

  /** The number of the block after the first that an access touches. */
  function Middle(c: PmpConfig, paddr: nat): nat {
    Shr(paddr / 4, c.grain) + 1
  }

  /** Entry 0 over that block and no other: NA4, or with a grain a NAPOT entry of one block. */
  function MiddleWrites(c: PmpConfig, paddr: nat): seq<PmpWrite> {
    [Addr(PMPADDR0, Shl(Middle(c, paddr), c.grain)), Cfg(PMPCFG0, MiddleByte(c))]
  }

  function MiddleByte(c: PmpConfig): nat {
    if c.grain == 0 then 16 else 24
  }

  function Zeros(): CsrFile {
    seq(CSRS, _ => 0)
  }

  function MiddleConfig(c: PmpConfig, paddr: nat): CsrFile {
    L.Run(c, Zeros(), MiddleWrites(c, paddr))
  }

  lemma RunTwo(c: PmpConfig, csr: CsrFile, v: PmpWrite, w: PmpWrite)
    requires LegalWrite(v) && LegalWrite(w)
    ensures L.Run(c, csr, [v, w]) == L.Apply(c, L.Apply(c, csr, v), w)
  {
    assert [v, w][1..] == [w] && [w][1..] == [];
    assert L.Run(c, L.Apply(c, csr, v), [w]) == L.Apply(c, L.Apply(c, csr, v), w);
  }

  lemma MiddleReachable(c: PmpConfig, paddr: nat)
    ensures Reachable(c, MiddleConfig(c, paddr))
  {
  }

  lemma {:induction false} SmallByte(b: nat, i: nat)
    requires b < 256
    ensures Byte(b, i) == if i == 0 then b else 0
  {
    if i > 0 {
      ByteOfZero(i - 1);
    }
  }

  /** What those writes store, if the entry is there and the address fits. */
  lemma MiddleStored(c: PmpConfig, paddr: nat)
    requires c.usable > 0 && Shl(Middle(c, paddr), c.grain) < Pow2(AddrBits(c))
    ensures var csr := MiddleConfig(c, paddr);
      RawAddr(csr, 0) == Shl(Middle(c, paddr), c.grain) && CfgByte(csr, 0) == MiddleByte(c)
    ensures forall e: nat | 0 < e < 64 :: ModeOf(CfgByte(MiddleConfig(c, paddr), e)) == Off
  {
    hide Shl, Pow2, NewWord, AddrBits, Byte;
    var v, w := Addr(PMPADDR0, Shl(Middle(c, paddr), c.grain)), Cfg(PMPCFG0, MiddleByte(c));
    var one := L.Apply(c, Zeros(), v);
    RunTwo(c, Zeros(), v, w);
    assert AtReset(Zeros());
    forall e: nat | e < 64
      ensures CfgByte(one, e) == 0
    {
      ResetIsOff(Zeros(), e);
    }
    assert one[PMPADDR0] == v.value by {
      ResetIsOff(Zeros(), 0);
      if c.usable > 1 {
        ResetIsOff(Zeros(), 1);
      }
      SmallMod(v.value, Pow2(AddrBits(c)));
    }
    forall e: nat | e < 64
      ensures CfgByte(L.Apply(c, one, w), e) == if e == 0 then MiddleByte(c) else 0
    {
      WriteByte(c, one, w, e);
      SmallByte(MiddleByte(c), e % 8);
      assert LegalByte(c.grain, 0) == 0 && LegalByte(c.grain, MiddleByte(c)) == MiddleByte(c);
    }
  }

  lemma SmallMod(v: nat, m: nat)
    requires v < m
    ensures v % m == v
  {
  }

  /** Entry 0 then matches that block exactly. */
  lemma MiddleMatches(c: PmpConfig, csr: CsrFile, m: nat, a: nat)
    requires RawAddr(csr, 0) == Shl(m, c.grain) && CfgByte(csr, 0) == MiddleByte(c)
    ensures Matches(c, csr, 0, a) <==> Shr(a / 4, c.grain) == m
  {
    hide CfgByte, RawAddr, NapotMatches, Ones, Pow2, AlignDown;
    assert ModeOf(16) == Na4 && ModeOf(24) == Napot;
    if c.grain > 0 {
      hide Shl, Shr;
      NapotReads(c, csr, 0);
      BlockMatches(RawAddr(csr, 0), m, c.grain - 1, a / 4);
    }
  }

  /** A NAPOT address of n ones over an even one names a block of 2^(n + 1) granules. */
  lemma BlockMatches(v: nat, m: nat, n: nat, w: nat)
    requires v == Shl(m, n + 1)
    ensures NapotMatches(Ones(v, n), w) <==> Shr(w, n + 1) == m
  {
    hide Shl, Shr, Ones;
    NapotOverOnes(v, n, w);
    ShlOnce(m, n);
    ShrOfShl(2 * m, n);
    ShrOnce(w, n);
  }

  lemma {:induction false} ShlOnce(v: nat, n: nat)
    ensures Shl(v, n + 1) == Shl(2 * v, n)
    decreases n
  {
    if n > 0 {
      ShlOnce(v, n - 1);
    }
  }

  /** An access of three blocks can hold a region it has neither end in: there the check lets M-mode by
      and the architecture does not. */
  lemma ThreeBlocksDisagree(c: PmpConfig, paddr: nat, size: nat)
    requires c.usable > 0 && size > 0 && !TwoBlocks(paddr, paddr + size - 1, c.grain)
      && paddr + size <= Pow2(c.physaddrBits)
    ensures var csr := MiddleConfig(c, paddr);
      Reachable(c, csr) && Check(c, csr, paddr, size, Load, M) && !Spec(c, csr, paddr, size, Load, M)
  {
    hide L.Run, CfgByte, ModeOf, Decodable, Reachable, Shr, Shl, Pow2, LegalAddrs, MiddleConfig, Selects, Allows;
    var csr, m, last := MiddleConfig(c, paddr), Middle(c, paddr), paddr + size - 1;
    TwoBlocksByShr(paddr, last, c.grain);
    ShlIsLeast(m, last / 4, c.grain);
    ShlIsLeast(m, paddr / 4, c.grain);
    AddressFits(c, last);
    MiddleReachable(c, paddr);
    MiddleStored(c, paddr);
    ReachableIsLegal(c, csr);
    LegalAddrsDecode(c, csr);
    MiddleMatches(c, csr, m, paddr);
    MiddleMatches(c, csr, m, last);
    MiddleMatches(c, csr, m, Shl(m, c.grain) * 4);
    ShrOfShl(m, c.grain);
    RegionIsMatch(c, csr, 0, paddr);
    RegionIsMatch(c, csr, 0, last);
    AllOffChecks(c, csr, 1, paddr, last, Load, M);
    SelectsIsMatches(c, csr, 0);
    assert Matches(c, csr, 0, Shl(m, c.grain) * 4);
  }

  lemma AddressFits(c: PmpConfig, last: nat)
    requires last < Pow2(c.physaddrBits)
    ensures last / 4 < Pow2(AddrBits(c))
  {
  }

  lemma NoneUsable(c: PmpConfig, csr: CsrFile, paddr: nat, size: nat, access: Access, priv: PrivMode)
    requires Reachable(c, csr) && size > 0 && c.usable == 0
    ensures Check(c, csr, paddr, size, access, priv) == Spec(c, csr, paddr, size, access, priv)
  {
    hide Reachable, CfgByte, ModeOf;
    ReachableIsLegal(c, csr);
    forall k: nat | k < c.count
      ensures ModeOf(CfgByte(csr, k)) == Off
    {
      assert LegalMode(c, k, ModeOf(CfgByte(csr, k)));
    }
    AllOffChecks(c, csr, 0, paddr, paddr + size - 1, access, priv);
  }

  /** Over every configuration that writes reach, with any grain, the check is the architecture's exactly
      for accesses of at most two blocks -- or if no entry can be used at all. */
  lemma CheckIsSpecExactly(c: PmpConfig, paddr: nat, size: nat)
    requires size > 0 && paddr + size <= Pow2(c.physaddrBits)
    ensures (forall csr: CsrFile, access: Access, priv: PrivMode | Reachable(c, csr) ::
               Check(c, csr, paddr, size, access, priv) == Spec(c, csr, paddr, size, access, priv))
       <==> c.usable == 0 || TwoBlocks(paddr, paddr + size - 1, c.grain)
  {
    hide Check, Spec, Reachable, TwoBlocks, Pow2;
    if c.usable == 0 || TwoBlocks(paddr, paddr + size - 1, c.grain) {
      forall csr: CsrFile, access: Access, priv: PrivMode | Reachable(c, csr)
        ensures Check(c, csr, paddr, size, access, priv) == Spec(c, csr, paddr, size, access, priv)
      {
        if c.usable == 0 {
          NoneUsable(c, csr, paddr, size, access, priv);
        } else {
          CheckIsSpecOnBlocks(c, csr, paddr, size, access, priv);
        }
      }
    } else {
      ThreeBlocksDisagree(c, paddr, size);
    }
  }
}
