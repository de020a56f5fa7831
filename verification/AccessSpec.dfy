/** Which fetches, loads and stores go through: those whose translation does, to memory that answers, where the
    architecture's PMP check allows it. */
module AccessSpec {
  import opened Words
  import opened Bits
  import opened BitFlags
  import opened Registers
  import opened PageTables
  import opened Translate
  import T = TranslateSpec
  import F = Fetch
  import D = DataCache
  import P = Pmp
  import PmpSpec

  ghost predicate Allowed(x: Ext, r: Regs, paddr: nat, size: nat, access: P.Access, priv: PrivMode)
    requires size > 0
  {
    x.smpmp ==> PmpSpec.Spec(x.pmp, r.csr, paddr, size, access, priv)
  }

  /** Bit `k` of the byte at `a`. Memory that holds no page table is not modelled, and reads as zero. */
  predicate MemBit(mem: Mem, a: nat, k: nat) {
    a / 8 * 8 in mem && Bit(mem[a / 8 * 8], a % 8 * 8 + k)
  }

  lemma BitOfMemByte(mem: Mem, a: nat, k: nat)
    requires k < 8
    ensures Bit(F.MemByte(mem, a), k) == MemBit(mem, a, k)
  {
    hide Bit, P.Byte;
    BitOfZero(k);
    if a / 8 * 8 in mem {
      PmpSpec.BitOfByte(mem[a / 8 * 8], a % 8, k);
    }
  }

  /** A halfword is the byte at its address, and above it the next. */
  lemma HalfBits(mem: Mem, a: nat, k: nat)
    requires k < 16
    ensures Bit(F.ReadHalf(mem, a), k) == if k < 8 then MemBit(mem, a, k) else MemBit(mem, a + 1, k - 8)
  {
    hide Bit, F.MemByte, P.Pow2, MemBit;
    Powers();
    BitOfParts(F.MemByte(mem, a + 1), F.MemByte(mem, a), 8, k);
    if k < 8 {
      BitOfMemByte(mem, a, k);
    } else {
      BitOfMemByte(mem, a + 1, k - 8);
    }
  }

  predicate Between(lo: nat, a: nat, hi: nat) {
    lo <= a < hi
  }

  /** Every byte of the access is there. */
  ghost predicate Inside(addr: nat, size: nat, lo: nat, hi: nat) {
    forall a: nat | addr <= a < addr + size :: Between(lo, a, hi)
  }

  /** What answers: RAM, from 0x8000_0000, or one window of a device, none of it past the last address. */
  lemma BackedExactly(pl: F.Platform, addr: nat, size: nat)
    requires size > 0
    ensures F.Backed(pl, addr, size) <==>
      && addr + size <= 0x1_0000_0000_0000_0000
      && (Inside(addr, size, 0x8000_0000, 0x8000_0000 + pl.ramSpan)
          || exists w <- pl.windows :: Inside(addr, size, w.lo, w.hi))
  {
    hide Inside;
    InsideIsEnds(addr, size, 0x8000_0000, 0x8000_0000 + pl.ramSpan);
    forall w | w in pl.windows
      ensures Inside(addr, size, w.lo, w.hi) <==> w.lo <= addr && addr + size <= w.hi
    {
      InsideIsEnds(addr, size, w.lo, w.hi);
    }
  }

  lemma InsideIsEnds(addr: nat, size: nat, lo: nat, hi: nat)
    requires size > 0
    ensures Inside(addr, size, lo, hi) <==> lo <= addr && addr + size <= hi
  {
    if Inside(addr, size, lo, hi) {
      assert Between(lo, addr, hi) && Between(lo, addr + size - 1, hi);
    }
  }

  /** The translations a halfword's fetch needs: its page's, and if it straddles two the next one's. */
  function FetchTranslations(x: Ext, r: Regs, mem: Mem, vaddr: nat): (Answer, Answer, Mem) {
    var (a, m1) := Translation(x, r, mem, vaddr, Fetch);
    if a.Address? && vaddr % 0x1000 == 0xFFF then
      var (b, m2) := Translation(x, r, m1, (vaddr + 1) % TWO64, Fetch);
      (a, b, m2)
    else (a, a, m1)
  }

  /** It is fetched exactly if they succeed, something answers there, and PMP allows the fetch at the hart's own
      privilege; else the trap is the first translation's that fails, or an access fault on its address. */
  lemma FetchedExactly(pl: F.Platform, x: Ext, r: Regs, mem: Mem, vaddr: nat)
    requires P.Decodable(x.pmp, r.csr)
    ensures var (f, after) := F.FullFetch16(pl, x, r, mem, vaddr);
      var (a, b, m) := FetchTranslations(x, r, mem, vaddr);
      && after == m
      && (f.Got? <==>
            a.Address? && b.Address? && F.Backed(pl, a.paddr, 2) && Allowed(x, r, a.paddr, 2, P.Fetch, r.priv))
      && (f.Trapped? ==>
            f == if a.Trap? then F.Trapped(a.cause, a.tval) else if b.Trap? then F.Trapped(b.cause, b.tval)
                 else F.Trapped(1, vaddr))
      && (f.Got? && F.InRam(pl, a.paddr, 2) ==> !f.device && f.bits == F.ReadHalf(m, a.paddr))
  {
    hide Translation, F.Backed, P.Check, PmpSpec.Spec, P.Decodable, F.ReadHalf;
    var (a, b, m) := FetchTranslations(x, r, mem, vaddr);
    if a.Address? {
      PmpSpec.CheckIsSpec(x.pmp, r.csr, a.paddr, 2, P.Fetch, r.priv);
    }
  }

  /** An instruction is one halfword, unless that one's bits 0 and 1 are both set (section 1.5 of the unprivileged
      manual): then the next halfword is fetched too, from what the first fetch left, and is bits 31 to 16. */
  lemma InstructionExactly(pl: F.Platform, x: Ext, r: Regs, mem: Mem, vaddr: nat, k: nat)
    ensures var ((f, after), (low, m1)) := (F.FullFetch(pl, x, r, mem, vaddr), F.FullFetch16(pl, x, r, mem, vaddr));
      if low.Trapped? then (f, after) == (low, m1)
      else if !Bit(low.bits, 0) || !Bit(low.bits, 1) then (f, after) == (low, m1)
      else
        var (high, m2) := F.FullFetch16(pl, x, r, m1, (vaddr + 2) % 0x1_0000_0000_0000_0000);
        && after == m2
        && (high.Trapped? ==> f == high)
        && (high.Got? ==>
              && f.Got? && f.device == (low.device || high.device)
              && Bit(f.bits, k) == if k < 16 then Bit(low.bits, k) else Bit(high.bits, k - 16))
  {
    hide F.FullFetch16, Bit, P.Pow2;
    var (low, m1) := F.FullFetch16(pl, x, r, mem, vaddr);
    if low.Got? {
      BothLowBits(low.bits);
      HalfwordFits(pl, x, r, mem, vaddr);
      var (high, _) := F.FullFetch16(pl, x, r, m1, (vaddr + 2) % TWO64);
      if high.Got? {
        Powers();
        BitOfParts(high.bits, low.bits, 16, k);
      }
    }
  }

  lemma BothLowBits(v: nat)
    ensures v % 4 == 3 <==> Bit(v, 0) && Bit(v, 1)
  {
  }

  lemma HalfwordFits(pl: F.Platform, x: Ext, r: Regs, mem: Mem, vaddr: nat)
    ensures var f := F.FullFetch16(pl, x, r, mem, vaddr).0; f.Got? ==> f.bits < 0x1_0000
  {
    hide Translation, F.Backed, P.Check, F.ReadHalf;
  }

  /** The mode PMP checks a load or store as. */
  function PmpMode(r: Regs): PrivMode {
    var mstatus := r.csr[0x300];
    if !Bit(mstatus, 17) then r.priv
    else if Bit(mstatus, 11) && Bit(mstatus, 12) then M
    else if !Bit(mstatus, 11) && !Bit(mstatus, 12) then U
    else S
  }

  lemma PmpModeIsPriv(r: Regs)
    ensures D.PmpPriv(r) == PmpMode(r)
  {
    hide Bit, Has, Mpp;
    T.StatusFlags(r.csr[0x300]);
  }

  /** A load or store in one page of at most two granules, as every aligned one is, likewise -- misaligned ones
      trapping first if the machine is to trap them. */
  lemma AccessedExactly(pl: D.Platform, x: Ext, r: Regs, mem: Mem, vaddr: nat, size: nat, t: AccessType)
    requires t in {Load, Store} && size > 0 && P.Decodable(x.pmp, r.csr)
    ensures var (f, after) := D.FullAccess(pl, x, r, mem, vaddr, size, t);
      var (a, m) := Translation(x, r, mem, vaddr, t);
      if pl.misalignedTraps && vaddr % size != 0 then (f, after) == (D.Trapped(if t == Load then 4 else 6, vaddr), mem)
      else
        && after == m
        && (a.Trap? ==> f == D.Trapped(a.cause, a.tval))
        && (a.Address? && PmpSpec.TwoGranules(a.paddr, size) ==>
              && (f.At? <==> D.Backed(pl, a.paddr, size)
                             && Allowed(x, r, a.paddr, size, if t == Load then P.Load else P.Store, PmpMode(r)))
              && (f.At? ==> f.paddr == a.paddr)
              && (f.Trapped? ==> f == D.Trapped(if t == Load then 5 else 7, vaddr)))
  {
    hide Translation, D.Backed, P.Check, PmpSpec.Spec, P.Decodable, D.Port, D.PmpPriv, PmpMode;
    PmpModeIsPriv(r);
    var (a, m) := Translation(x, r, mem, vaddr, t);
    if a.Address? && PmpSpec.TwoGranules(a.paddr, size) {
      PmpSpec.CheckIsSpec(x.pmp, r.csr, a.paddr, size, D.AccessOf(t), D.PmpPriv(r));
    }
  }

  /** The host looks at its port after a store that writes the high half of the port's doubleword: a word there, or
      a doubleword over either half. */
  lemma PortExactly(pl: D.Platform, x: Ext, r: Regs, mem: Mem, vaddr: nat, size: nat, t: AccessType)
    requires t in {Load, Store} && size in {1, 2, 4, 8} && pl.port < TWO64 - 8
    ensures var f := D.FullAccess(pl, x, r, mem, vaddr, size, t).0;
      f.At? && f.paddr < TWO64 - 8 ==>
        (f.port <==> t == Store && pl.port != 0
                     && (if size == 4 then f.paddr == pl.port + 4 else size == 8 && f.paddr in {pl.port, pl.port + 4}))
  {
    hide Translation, D.Backed, P.Check;
  }
}
