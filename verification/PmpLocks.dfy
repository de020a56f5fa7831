/** Writing pmpcfg and pmpaddr, and what the lock bit makes immutable. */
module PmpLocks {
  import opened Words
  import opened Registers
  import opened Pmp
  import opened PmpShifts

  /** A configuration byte as an unlocked entry stores it: the two unused bits clear, W without R
      cleared, and NA4 turned off when the grain rules it out. */
  function LegalByte(grain: nat, b: nat): (r: nat)
    ensures r < 256
  {
    var a := if grain >= 1 && b / 8 % 4 == 2 then 0 else b / 8 % 4;
    (if Has(b, CFG_L) then CFG_L else 0) + a * 8 + (if Has(b, CFG_X) then CFG_X else 0)
    + (if Has(b, CFG_W) && Has(b, CFG_R) then CFG_W else 0) + (if Has(b, CFG_R) then CFG_R else 0)
  }

  function NewByte(c: PmpConfig, csr: CsrFile, entry: nat, b: nat): (r: nat)
    requires entry < 64 && b < 256
    ensures r < 256
  {
    if entry >= c.usable || Has(CfgByte(csr, entry), CFG_L) then CfgByte(csr, entry) else LegalByte(c.grain, b)
  }

  predicate IsCfg(csrNo: nat) {
    PMPCFG0 <= csrNo <= PMPCFG0 + 15
  }

  predicate IsAddr(csrNo: nat) {
    PMPADDR0 <= csrNo <= PMPADDR0 + 63
  }

  function BaseEntry(csrNo: nat): (b: nat)
    requires IsCfg(csrNo)
    ensures b <= 56
  {
    (csrNo - PMPCFG0) / 2 * 8
  }

  /** Bytes `i` and up of the word a pmpcfg write stores. */
  function NewWord(c: PmpConfig, csr: CsrFile, csrNo: nat, value: nat, i: nat): nat
    requires IsCfg(csrNo) && i <= 8
    decreases 8 - i
  {
    if i == 8 then 0
    else NewByte(c, csr, BaseEntry(csrNo) + i, Byte(value, i)) + 256 * NewWord(c, csr, csrNo, value, i + 1)
  }

  function WriteCfg(c: PmpConfig, csr: CsrFile, csrNo: nat, value: nat): CsrFile
    requires IsCfg(csrNo)
  {
    if (csrNo - PMPCFG0) % 2 != 0 then csr else csr[csrNo := NewWord(c, csr, csrNo, value, 0)]
  }

  /** The address write is refused by the entry's own lock, and by the next one's if that is TOR. */
  predicate AddrFrozen(c: PmpConfig, csr: CsrFile, entry: nat)
    requires entry < 64
  {
    || entry >= c.usable || Locked(c, csr, entry)
    || (entry + 1 < c.usable && Locked(c, csr, entry + 1) && ModeOf(CfgByte(csr, entry + 1)) == Tor)
  }

  function AddrBits(c: PmpConfig): nat {
    Min(c.physaddrBits - 2, 54)
  }

  function WriteAddr(c: PmpConfig, csr: CsrFile, csrNo: nat, value: nat): CsrFile
    requires IsAddr(csrNo)
  {
    if AddrFrozen(c, csr, csrNo - PMPADDR0) then csr else csr[csrNo := value % Pow2(AddrBits(c))]
  }

  datatype PmpWrite = Cfg(csrNo: nat, value: nat) | Addr(csrNo: nat, value: nat)

  predicate LegalWrite(w: PmpWrite) {
    if w.Cfg? then IsCfg(w.csrNo) else IsAddr(w.csrNo)
  }

  function Apply(c: PmpConfig, csr: CsrFile, w: PmpWrite): CsrFile
    requires LegalWrite(w)
  {
    if w.Cfg? then WriteCfg(c, csr, w.csrNo, w.value) else WriteAddr(c, csr, w.csrNo, w.value)
  }

  function Run(c: PmpConfig, csr: CsrFile, ws: seq<PmpWrite>): CsrFile
    requires forall w <- ws :: LegalWrite(w)
    decreases |ws|
  {
    if ws == [] then csr else Run(c, Apply(c, csr, ws[0]), ws[1..])
  }

  // ---- What a write does to each entry -----------------------------------------------------

  lemma {:induction false} NewWordBytes(c: PmpConfig, csr: CsrFile, csrNo: nat, value: nat, i: nat, k: nat)
    requires IsCfg(csrNo) && i + k < 8
    ensures Byte(NewWord(c, csr, csrNo, value, i), k) == NewByte(c, csr, BaseEntry(csrNo) + i + k, Byte(value, i + k))
    decreases k
  {
    hide NewByte;
    var b := NewByte(c, csr, BaseEntry(csrNo) + i, Byte(value, i));
    var rest := NewWord(c, csr, csrNo, value, i + 1);
    assert (b + 256 * rest) % 256 == b && (b + 256 * rest) / 256 == rest;
    if k > 0 {
      NewWordBytes(c, csr, csrNo, value, i + 1, k - 1);
    }
  }

  /** A pmpcfg write gives each of its eight entries its own byte, and the others nothing. */
  lemma WriteCfgEntry(c: PmpConfig, csr: CsrFile, csrNo: nat, value: nat, e: nat)
    requires IsCfg(csrNo) && e < 64
    ensures CfgByte(WriteCfg(c, csr, csrNo, value), e)
         == if csrNo == CfgCsr(e) then NewByte(c, csr, e, Byte(value, e % 8)) else CfgByte(csr, e)
  {
    hide NewByte;
    if csrNo == CfgCsr(e) {
      assert BaseEntry(csrNo) + e % 8 == e;
      NewWordBytes(c, csr, csrNo, value, 0, e % 8);
    }
  }

  lemma WriteKeepsAddrs(c: PmpConfig, csr: CsrFile, w: PmpWrite, e: nat)
    requires LegalWrite(w) && e < 64 && (w.Cfg? || AddrFrozen(c, csr, e))
    ensures RawAddr(Apply(c, csr, w), e) == RawAddr(csr, e)
  {
  }

  lemma WriteKeepsLockedByte(c: PmpConfig, csr: CsrFile, w: PmpWrite, e: nat)
    requires LegalWrite(w) && e < 64 && Locked(c, csr, e)
    ensures CfgByte(Apply(c, csr, w), e) == CfgByte(csr, e)
  {
    if w.Cfg? {
      WriteCfgEntry(c, csr, w.csrNo, w.value, e);
    }
  }

  // ---- Locks ----------------------------------------------------------------------------------

  /** All that decides what a locked entry does: its byte, its address and, for TOR, its bottom. */
  datatype Rule = Rule(cfg: nat, addr: nat, below: nat)

  function RuleOf(c: PmpConfig, csr: CsrFile, e: nat): Rule
    requires e < 64
  {
    Rule(CfgByte(csr, e), AddrOf(c, csr, e), if ModeOf(CfgByte(csr, e)) == Tor then Below(c, csr, e) else 0)
  }

  lemma RuleDecidesRegion(c: PmpConfig, a: CsrFile, b: CsrFile, e: nat)
    requires e < 64 && RuleOf(c, a, e) == RuleOf(c, b, e)
    ensures RegionOf(c, a, e) == RegionOf(c, b, e)
  {
  }

  /** The one way round a lock: the bottom of a TOR entry is an address that reads differently in
      NAPOT mode and out of it, and the entry it belongs to is not locked. */
  predicate Movable(c: PmpConfig, csr: CsrFile, e: nat)
    requires e < 64
  {
    && ModeOf(CfgByte(csr, e)) == Tor && e > 0 && !Locked(c, csr, e - 1)
    && (c.grain >= 2 || (c.grain == 1 && RawAddr(csr, e - 1) % 2 == 1))
  }

  /** How an address reads depends on its own entry's mode, and only with a grain. */
  lemma ReadingNeedsMode(c: PmpConfig, a: CsrFile, b: CsrFile, e: nat)
    requires e < 64 && RawAddr(a, e) == RawAddr(b, e)
    requires CfgByte(a, e) == CfgByte(b, e) || c.grain == 0 || (c.grain == 1 && RawAddr(a, e) % 2 == 0)
    ensures AddrOf(c, a, e) == AddrOf(c, b, e)
  {
  }

  lemma LockHoldsOnce(c: PmpConfig, csr: CsrFile, w: PmpWrite, e: nat)
    requires LegalWrite(w) && e < 64 && Locked(c, csr, e) && !Movable(c, csr, e)
    ensures var next := Apply(c, csr, w);
      RuleOf(c, next, e) == RuleOf(c, csr, e) && Locked(c, next, e) && !Movable(c, next, e)
  {
    hide Apply, AddrOf, CfgByte;
    var next := Apply(c, csr, w);
    WriteKeepsLockedByte(c, csr, w, e);
    WriteKeepsAddrs(c, csr, w, e);
    ReadingNeedsMode(c, csr, next, e);
    if e > 0 && ModeOf(CfgByte(csr, e)) == Tor {
      WriteKeepsAddrs(c, csr, w, e - 1);
      if Locked(c, csr, e - 1) {
        WriteKeepsLockedByte(c, csr, w, e - 1);
      }
      ReadingNeedsMode(c, csr, next, e - 1);
    }
  }

  /** Under any sequence of pmpcfg and pmpaddr writes, a locked entry that is not movable keeps its
      permissions and its region. With grain 0 no entry is. */
  lemma {:induction false} LockHolds(c: PmpConfig, csr: CsrFile, ws: seq<PmpWrite>, e: nat)
    requires e < 64 && (forall w <- ws :: LegalWrite(w)) && Locked(c, csr, e) && !Movable(c, csr, e)
    ensures CfgByte(Run(c, csr, ws), e) == CfgByte(csr, e)
    ensures RegionOf(c, Run(c, csr, ws), e) == RegionOf(c, csr, e)
    ensures Locked(c, Run(c, csr, ws), e)
    decreases |ws|
  {
    hide Apply, AddrOf, CfgByte, Movable, RegionOf;
    if ws != [] {
      assert ws[0] in ws;
      var next := Apply(c, csr, ws[0]);
      LockHoldsOnce(c, csr, ws[0], e);
      RuleDecidesRegion(c, csr, next, e);
      LockHolds(c, next, ws[1..], e);
    }
  }

  // ---- And where it does not hold ---------------------------------------------------------------

  function Shifted(b: nat, i: nat): nat {
    if i == 0 then b else 256 * Shifted(b, i - 1)
  }

  lemma {:induction false} ByteOfShifted(b: nat, i: nat)
    requires b < 256
    ensures Byte(Shifted(b, i), i) == b
    decreases i
  {
    if i > 0 {
      assert Shifted(b, i) / 256 == Shifted(b, i - 1);
      ByteOfShifted(b, i - 1);
    }
  }

  lemma AlignEven(x: nat, n: nat)
    requires n > 0
    ensures AlignDown(x, Pow2(n)) % 2 == 0
  {
    var h := Pow2(n - 1);
    assert Pow2(n) == 2 * h;
    ModDouble(x, h);
    EvenLeft(x, x / 2 % h);
  }

  lemma EvenLeft(x: nat, r: nat)
    ensures (x - (2 * r + x % 2)) % 2 == 0
  {
  }

  /** Read as NAPOT the address is odd, read otherwise it is even. */
  lemma ReadingParity(c: PmpConfig, csr: CsrFile, e: nat)
    requires e < 64 && (c.grain >= 2 || (c.grain == 1 && RawAddr(csr, e) % 2 == 1))
    ensures AddrOf(c, csr, e) % 2 == 1 <==> ModeOf(CfgByte(csr, e)) == Napot
  {
    hide CfgByte, AlignDown, Pow2, RawAddr;
    AlignEven(RawAddr(csr, e), c.grain);
    if c.grain >= 2 {
      AlignEven(RawAddr(csr, e), c.grain - 1);
      Pow2Even(c.grain - 1);
    }
  }

  lemma Pow2Even(n: nat)
    requires n > 0
    ensures Pow2(n) % 2 == 0
  {
  }

  /** The write that moves the bottom: the previous entry into NAPOT, or out of it. */
  function MovingWrite(csr: CsrFile, e: nat): PmpWrite
    requires 0 < e < 64
  {
    Cfg(CfgCsr(e - 1), Shifted(if ModeOf(CfgByte(csr, e - 1)) == Napot then 0 else 24, (e - 1) % 8))
  }

  lemma MovableMoves(c: PmpConfig, csr: CsrFile, e: nat)
    requires e < 64 && Locked(c, csr, e) && Movable(c, csr, e)
    ensures LegalWrite(MovingWrite(csr, e))
    ensures RuleOf(c, Apply(c, csr, MovingWrite(csr, e)), e).below != RuleOf(c, csr, e).below
  {
    hide AddrOf, CfgByte, Byte, Shifted, NewWord;
    var b := if ModeOf(CfgByte(csr, e - 1)) == Napot then 0 else 24;
    var w := MovingWrite(csr, e);
    var next := Apply(c, csr, w);
    ByteOfShifted(b, (e - 1) % 8);
    WriteCfgEntry(c, csr, w.csrNo, w.value, e - 1);
    WriteKeepsLockedByte(c, csr, w, e);
    assert LegalByte(c.grain, 0) == 0 && LegalByte(c.grain, 24) == 24;
    assert ModeOf(0) == Off && ModeOf(24) == Napot;
    ReadingParity(c, csr, e - 1);
    ReadingParity(c, next, e - 1);
  }

  /** A TOR entry's region is empty or not by its bottom without the low bits, which no mode changes. */
  lemma EmptyByRaw(c: PmpConfig, csr: CsrFile, e: nat)
    requires 0 < e < 64 && ModeOf(CfgByte(csr, e)) == Tor
    ensures RegionOf(c, csr, e).None? <==> Shr(RawAddr(csr, e), c.grain) <= Shr(RawAddr(csr, e - 1), c.grain)
  {
    hide AddrOf, CfgByte, RawAddr;
    ReadsAlike(c, csr, e, AddrOf(c, csr, e - 1));
    ReadsAlike(c, csr, e - 1, 0);
  }

  /** The permissions and the region of an entry. */
  function Does(c: PmpConfig, csr: CsrFile, e: nat): (nat, Option<Region>)
    requires e < 64
  {
    (CfgByte(csr, e), RegionOf(c, csr, e))
  }

  /** A locked entry that no write can move: its bottom reads alike in every mode, or is no lower than its
      top. */
  predicate Held(c: PmpConfig, csr: CsrFile, e: nat)
    requires e < 64
  {
    Locked(c, csr, e) && (!Movable(c, csr, e) || RegionOf(c, csr, e).None?)
  }

  lemma HeldOnce(c: PmpConfig, csr: CsrFile, w: PmpWrite, e: nat)
    requires LegalWrite(w) && e < 64 && Held(c, csr, e)
    ensures Does(c, Apply(c, csr, w), e) == Does(c, csr, e) && Held(c, Apply(c, csr, w), e)
  {
    hide Apply, AddrOf, CfgByte, RegionOf;
    var next := Apply(c, csr, w);
    if !Movable(c, csr, e) {
      LockHoldsOnce(c, csr, w, e);
      RuleDecidesRegion(c, csr, next, e);
    } else {
      WriteKeepsLockedByte(c, csr, w, e);
      WriteKeepsAddrs(c, csr, w, e);
      WriteKeepsAddrs(c, csr, w, e - 1);
      EmptyByRaw(c, csr, e);
      EmptyByRaw(c, next, e);
    }
  }

  lemma {:induction false} HeldForEver(c: PmpConfig, csr: CsrFile, ws: seq<PmpWrite>, e: nat)
    requires e < 64 && (forall w <- ws :: LegalWrite(w)) && Held(c, csr, e)
    ensures Does(c, Run(c, csr, ws), e) == Does(c, csr, e)
    decreases |ws|
  {
    hide Apply, Held, Does;
    if ws != [] {
      assert ws[0] in ws;
      HeldOnce(c, csr, ws[0], e);
      HeldForEver(c, Apply(c, csr, ws[0]), ws[1..], e);
    }
  }

  /** The moving write changes the region, if there is one. */
  lemma MovableMovesRegion(c: PmpConfig, csr: CsrFile, e: nat)
    requires e < 64 && Locked(c, csr, e) && Movable(c, csr, e) && RegionOf(c, csr, e).Some?
    ensures LegalWrite(MovingWrite(csr, e))
    ensures RegionOf(c, Apply(c, csr, MovingWrite(csr, e)), e) != RegionOf(c, csr, e)
  {
    hide Apply, AddrOf, CfgByte, MovingWrite;
    MovableMoves(c, csr, e);
    WriteKeepsLockedByte(c, csr, MovingWrite(csr, e), e);
  }

  /** What a locked entry permits and where is for ever, under any sequence of writes, exactly if no write at
      once can move it: its bottom is not an address that reads differently by the mode of an unlocked entry,
      or its region is empty. */
  lemma LockHoldsExactly(c: PmpConfig, csr: CsrFile, e: nat)
    requires e < 64 && Locked(c, csr, e)
    ensures (forall ws: seq<PmpWrite> | (forall w <- ws :: LegalWrite(w)) ::
      Does(c, Run(c, csr, ws), e) == Does(c, csr, e))
       <==> !Movable(c, csr, e) || RegionOf(c, csr, e).None?
  {
    hide Apply, Does, Locked, LegalWrite, RegionOf, MovingWrite, Run, CfgByte, ModeOf;
    if Held(c, csr, e) {
      forall ws: seq<PmpWrite> | (forall w <- ws :: LegalWrite(w))
        ensures Does(c, Run(c, csr, ws), e) == Does(c, csr, e)
      {
        HeldForEver(c, csr, ws, e);
      }
    } else {
      var w := MovingWrite(csr, e);
      MovableMovesRegion(c, csr, e);
      RunOne(c, csr, w);
      DoesRegion(c, csr, Run(c, csr, [w]), e);
    }
  }

  lemma RunOne(c: PmpConfig, csr: CsrFile, w: PmpWrite)
    requires LegalWrite(w)
    ensures Run(c, csr, [w]) == Apply(c, csr, w)
  {
    assert [w][1..] == [];
  }

  lemma DoesRegion(c: PmpConfig, a: CsrFile, b: CsrFile, e: nat)
    requires e < 64 && RegionOf(c, a, e) != RegionOf(c, b, e)
    ensures Does(c, a, e) != Does(c, b, e)
  {
  }

  // ---- Addresses stay decodable ------------------------------------------------------------------

  /** No pmpaddr holds more bits than the register has. */
  predicate LegalAddrs(csr: CsrFile) {
    forall e: nat | e < 64 :: RawAddr(csr, e) < 0x40_0000_0000_0000
  }

  lemma {:induction false} Pow2Monotone(a: nat, b: nat)
    requires a <= b
    ensures Pow2(a) <= Pow2(b)
    decreases b - a
  {
    if a < b {
      Pow2Monotone(a, b - 1);
    }
  }

  lemma SmallPowers()
    ensures Pow2(51) == 0x8_0000_0000_0000 && Pow2(54) == 0x40_0000_0000_0000
  {
    assert Pow2(10) == 0x400;
    assert Pow2(20) == 0x10_0000;
    assert Pow2(30) == 0x4000_0000;
    assert Pow2(40) == 0x100_0000_0000;
    assert Pow2(50) == 0x4_0000_0000_0000;
  }

  lemma LegalAddrsDecode(c: PmpConfig, csr: CsrFile)
    requires LegalAddrs(csr)
    ensures Decodable(c, csr)
  {
    forall e: nat | e < c.count
      ensures AddrOf(c, csr, e) < MAX64
    {
      assert RawAddr(csr, e) < 0x40_0000_0000_0000;
      if c.grain >= 2 {
        Pow2Monotone(c.grain - 1, 51);
        SmallPowers();
      }
    }
  }

  lemma WritesKeepLegalAddrs(c: PmpConfig, csr: CsrFile, w: PmpWrite)
    requires LegalWrite(w) && LegalAddrs(csr)
    ensures LegalAddrs(Apply(c, csr, w))
  {
    hide NewWord, AddrFrozen;
    Pow2Monotone(AddrBits(c), 54);
    SmallPowers();
    forall e: nat | e < 64
      ensures RawAddr(Apply(c, csr, w), e) < 0x40_0000_0000_0000
    {
      assert RawAddr(csr, e) < 0x40_0000_0000_0000;
    }
  }
}
