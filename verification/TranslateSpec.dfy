/** Whose an access is and where it is aimed, by the bits of the registers: mstatus.MPRV (bit 17), MPP (bits 11
    and 12), SUM (18) and MXR (19), satp, menvcfg, and the pointer-masking fields. */
module TranslateSpec {
  import opened Words
  import opened Bits
  import opened BitFlags
  import opened Registers
  import opened PageTables
  import opened Translate
  import P = Pmp
  import S = PmpShifts

  /** An M-mode load or store is one of the mode MPP names, while MPRV is set. */
  function Acting(r: Regs, t: AccessType): PrivMode {
    var mstatus := r.csr[0x300];
    if t != Fetch && r.priv == M && Bit(mstatus, 17) then
      if Bit(mstatus, 11) && Bit(mstatus, 12) then M
      else if !Bit(mstatus, 11) && !Bit(mstatus, 12) then U
      else S
    else r.priv
  }

  /** Where the acting mode's field is: senvcfg, menvcfg or mseccfg. */
  function MaskCsr(p: PrivMode): nat {
    match p
    case U => 0x10A
    case S => 0x30A
    case M => 0x747
  }

  /** How many bits of an address are not ignored: 57 where the field (bits 32 and 33) is 2, 48 where it is 3,
      and all for a fetch, without the extension, and below M while MXR is set. */
  function Width(x: Ext, r: Regs, t: AccessType): (w: nat)
    ensures w in {48, 57, 64}
  {
    var p := Acting(r, t);
    var field := r.csr[MaskCsr(p)];
    if t == Fetch || !x.ssnpm || (p != M && Bit(r.csr[0x300], 19)) || !Bit(field, 33) then 64
    else if Bit(field, 32) then 48
    else 57
  }

  /** The bits that are ignored are copies of the topmost that is not. */
  ghost predicate Aimed(vaddr: nat, width: nat, va: nat)
    requires width > 0
  {
    va < TWO64 && forall k: nat | k < 64 :: Bit(va, k) == Bit(vaddr, if k < width then k else width - 1)
  }

  /** What a walk goes by: MODE is satp's bits 60 to 63 and PPN its bits 0 to 43, ADUE is menvcfg's bit 61 and
      PBMTE its bit 62. */
  ghost predicate GoesBy(x: Ext, csr: CsrFile, e: Env) {
    && e.mode == csr[0x180] / 0x1000_0000_0000_0000 && e.root == csr[0x180] % 0x1000_0000_0000
    && e.adue == Bit(csr[0x30A], 61) && e.pbmte == (x.svpbmt && Bit(csr[0x30A], 62))
    && e.svpbmt == x.svpbmt && e.svnapot == x.svnapot && e.smpmp == x.smpmp && e.pmp == x.pmp
    && forall k: nat | 0x3A0 <= k <= 0x3EF :: e.csr[k] == csr[k]
  }

  /** The copies of a sign bit. */
  lemma ExtendedBits(va: nat, n: nat, half: nat, k: nat)
    requires (n == 57 && half == 0x100_0000_0000_0000) || (n == 48 && half == 0x8000_0000_0000)
    requires k < 64
    ensures Bit(SignExtend(va, half), k) == Bit(va, if k < n then k else n - 1)
  {
    hide Bit, Low, P.Pow2, S.Shr;
    ExtendPowers();
    LowIsMod(va, n);
    var low := Low(va, n);
    BitIsHas(low, n - 1, half);
    BitOfLow(va, n, n - 1);
    BitOfLow(va, n, k);
    if low >= half {
      BitOfParts(P.Pow2(64 - n) - 1, low, n, k);
      if k >= n {
        BitOfComplement(0, 64 - n, k - n);
        BitOfZero(k - n);
      }
    } else {
      BitOfParts(0, low, n, k);
      if k >= n {
        BitOfZero(k - n);
      }
    }
  }

  lemma ExtendPowers()
    ensures P.Pow2(57) == 0x200_0000_0000_0000 && P.Pow2(56) == 0x100_0000_0000_0000
    ensures P.Pow2(48) == 0x1_0000_0000_0000 && P.Pow2(47) == 0x8000_0000_0000
    ensures P.Pow2(16) == 0x1_0000 && P.Pow2(7) == 0x80
  {
    hide P.Pow2;
    Powers();
    Small();
    Pow2Sum(56, 1);
    Pow2Sum(47, 1);
  }

  lemma Small()
    ensures P.Pow2(1) == 2 && P.Pow2(7) == 128
  {
  }

  lemma StatusFlags(v: nat)
    ensures Bit(v, 17) == Has(v, MPRV) && Bit(v, 18) == Has(v, SUM) && Bit(v, 19) == Has(v, MXR)
    ensures Mpp(v) == (if Bit(v, 11) then 1 else 0) + (if Bit(v, 12) then 2 else 0)
  {
    hide Bit, Has, P.Pow2;
    Powers();
    ByteFlags(v, 16, 0x1_0000);
    ByteFlags(v, 8, 0x100);
    TwoBitField(v, 0x800);
  }

  lemma TwoBitField(v: nat, w: nat)
    requires w == 0x800 || w == 0x1_0000_0000
    ensures v / w % 4 == (if Has(v, w) then 1 else 0) + (if Has(v, 2 * w) then 2 else 0)
  {
    var q := v / w;
    assert v / (2 * w) == q / 2;
    assert q % 4 == q / 2 % 2 * 2 + q % 2;
  }

  lemma MaskFlags(v: nat)
    ensures v / 0x1_0000_0000 % 4 == (if Bit(v, 32) then 1 else 0) + (if Bit(v, 33) then 2 else 0)
  {
    hide Bit, Has, P.Pow2;
    Powers();
    ByteFlags(v, 32, 0x1_0000_0000);
    TwoBitField(v, 0x1_0000_0000);
  }

  lemma EnvFlags(v: nat)
    ensures Bit(v, 61) == Has(v, ADUE) && Bit(v, 62) == Has(v, PBMTE)
  {
    hide Bit, Has, P.Pow2;
    Powers();
    ByteFlags(v, 56, 0x100_0000_0000_0000);
  }

  lemma ActingIsEffPriv(r: Regs, t: AccessType)
    ensures EffPriv(r, t) == Acting(r, t)
  {
    hide Bit, Has, Mpp;
    StatusFlags(r.csr[0x300]);
  }

  lemma EnvGoesBy(x: Ext, csr: CsrFile)
    ensures GoesBy(x, csr, EnvOf(x, csr))
  {
    hide Bit, Has;
    EnvFlags(csr[0x30A]);
  }

  lemma MaskAims(x: Ext, r: Regs, vaddr: nat, t: AccessType)
    requires vaddr < TWO64
    ensures Aimed(vaddr, Width(x, r, t), PointerMask(x, r, vaddr, t))
  {
    hide Bit, Has, SignExtend;
    ActingIsEffPriv(r, t);
    StatusFlags(r.csr[0x300]);
    MaskFlags(r.csr[MaskCsr(Acting(r, t))]);
    Extends(vaddr);
    forall k: nat | k < 64
      ensures Bit(SignExtend(vaddr, 0x100_0000_0000_0000), k) == Bit(vaddr, if k < 57 then k else 56)
      ensures Bit(SignExtend(vaddr, 0x8000_0000_0000), k) == Bit(vaddr, if k < 48 then k else 47)
    {
      ExtendedBits(vaddr, 57, 0x100_0000_0000_0000, k);
      ExtendedBits(vaddr, 48, 0x8000_0000_0000, k);
    }
  }

  lemma Extends(vaddr: nat)
    ensures SignExtend(vaddr, 0x100_0000_0000_0000) < TWO64 && SignExtend(vaddr, 0x8000_0000_0000) < TWO64
  {
  }

  /** A translation is of the address it is aimed at, made as the acting mode: directly in M or with MODE 0,
      else by the walk that satp and menvcfg say, with U, SUM and MXR as they stand. */
  lemma TranslationIsArchitecture(x: Ext, r: Regs, mem: Mem, vaddr: nat, t: AccessType) returns (va: nat, e: Env)
    requires vaddr < TWO64
    ensures Aimed(vaddr, Width(x, r, t), va) && GoesBy(x, r.csr, e)
    ensures Translation(x, r, mem, vaddr, t) ==
      if Acting(r, t) == M || e.mode == 0 then (if t == ShadowStack then Trap(7, va) else Address(va), mem)
      else
        var w := Walk(e, mem, va, t, Ctx(Acting(r, t) == U, Bit(r.csr[0x300], 18), Bit(r.csr[0x300], 19)));
        (match w.outcome case Fault(cause) => Trap(cause, va) case Ok(paddr, _, _) => Address(paddr), w.mem)
  {
    hide Bit, Has, Walk, PointerMask, Aimed, Width, Acting, EnvOf, GoesBy;
    va, e := PointerMask(x, r, vaddr, t), EnvOf(x, r.csr);
    ActingIsEffPriv(r, t);
    StatusFlags(r.csr[0x300]);
    MaskAims(x, r, vaddr, t);
    EnvGoesBy(x, r.csr);
  }
}
