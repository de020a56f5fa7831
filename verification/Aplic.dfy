/** One APLIC domain (chapter 4 of the RISC-V Advanced Interrupt Architecture 1.0; the register map is
    its section 4.5): which source is at the top for a hart, what a claim takes, and which register
    writes the interrupt check is told of. */
module Aplic {
  import opened Words
  import opened Bits
  import opened BitFlags
  import P = Pmp

  const NUM_SOURCES: nat := 32
  const IDC_BASE: nat := 0x4000
  const DOMAINCFG_IE: nat := 0x100
  const DOMAINCFG_DM: nat := 4

  type Row = s: seq<nat> | |s| == NUM_SOURCES witness seq(NUM_SOURCES, _ => 0)

  datatype Idc = Idc(delivery: nat, force: nat, threshold: nat)

  datatype Domain = Domain(cfg: nat, source: Row, target: Row, ip: nat, ie: nat, idc: seq<Idc>)

  predicate Direct(d: Domain) {
    !Has(d.cfg, DOMAINCFG_DM)
  }

  // ---- The top source -------------------------------------------------------------------------

  /** target's IPRIO, in which 0 stands for 1. */
  function Prio(d: Domain, n: nat): (p: nat)
    requires n < NUM_SOURCES
    ensures 0 < p < 256
  {
    if d.target[n] % 256 != 0 then d.target[n] % 256 else 1
  }

  /** Pending, enabled and active, for this hart, and above its threshold. */
  predicate Waits(d: Domain, hart: nat, n: nat) {
    && 0 < n < NUM_SOURCES && hart < |d.idc|
    && Bit(d.ip, n) && Bit(d.ie, n)
    && d.source[n] != 0 && d.target[n] / 0x4_0000 == hart
    && (d.idc[hart].threshold % 256 != 0 ==> Prio(d, n) < d.idc[hart].threshold % 256)
  }

  /** Lower priority numbers first, and lower sources first among equals. */
  function Rank(d: Domain, n: nat): nat {
    if n < NUM_SOURCES then Prio(d, n) * NUM_SOURCES + n else 0
  }

  /** `n` waits, and nothing that waits ranks before it; 0 is for nothing waiting. */
  ghost predicate IsTop(d: Domain, hart: nat, n: nat) {
    && (n == 0 <==> forall m: nat :: !Waits(d, hart, m))
    && (n != 0 ==> Waits(d, hart, n) && forall m: nat | Waits(d, hart, m) :: Rank(d, n) <= Rank(d, m))
  }

  /** The best of the sources below `n`. */
  function BestBelow(d: Domain, hart: nat, n: nat): (best: nat)
    requires n <= NUM_SOURCES
    ensures best == 0 || Waits(d, hart, best)
  {
    if n <= 1 then 0
    else
      var before := BestBelow(d, hart, n - 1);
      if Waits(d, hart, n - 1) && (before == 0 || Prio(d, n - 1) < Prio(d, before)) then n - 1 else before
  }

  function TopOf(d: Domain, hart: nat): (best: nat)
    ensures best == 0 || Waits(d, hart, best)
  {
    BestBelow(d, hart, NUM_SOURCES)
  }

  /** topi. */
  function Topi(d: Domain, hart: nat): nat {
    var best := TopOf(d, hart);
    if best == 0 then 0 else best * 0x1_0000 + Prio(d, best)
  }

  lemma {:induction false} BestRanksFirst(d: Domain, hart: nat, n: nat, m: nat)
    requires n <= NUM_SOURCES && m < n && Waits(d, hart, m)
    ensures var best := BestBelow(d, hart, n); best != 0 && best < n && Rank(d, best) <= Rank(d, m)
  {
    hide Waits, Prio;
    OnlySources(d, hart, m);
    var before := BestBelow(d, hart, n - 1);
    BestIsBelow(d, hart, n - 1);
    if m < n - 1 {
      BestRanksFirst(d, hart, n - 1, m);
    }
  }

  lemma {:induction false} BestIsBelow(d: Domain, hart: nat, n: nat)
    requires n <= NUM_SOURCES
    ensures BestBelow(d, hart, n) == 0 || BestBelow(d, hart, n) < n
  {
    hide Waits, Prio;
    if n > 1 {
      BestIsBelow(d, hart, n - 1);
    }
  }

  lemma OnlySources(d: Domain, hart: nat, n: nat)
    requires Waits(d, hart, n)
    ensures 0 < n < NUM_SOURCES
  {
  }

  lemma TopIsTop(d: Domain, hart: nat)
    ensures IsTop(d, hart, TopOf(d, hart))
  {
    hide Waits, BestBelow, Rank;
    forall m: nat | Waits(d, hart, m)
      ensures TopOf(d, hart) != 0 && Rank(d, TopOf(d, hart)) <= Rank(d, m)
    {
      OnlySources(d, hart, m);
      BestRanksFirst(d, hart, NUM_SOURCES, m);
    }
    ZeroNeverWaits(d, hart);
    if TopOf(d, hart) != 0 {
      OnlySources(d, hart, TopOf(d, hart));
    }
  }

  lemma ZeroNeverWaits(d: Domain, hart: nat)
    ensures !Waits(d, hart, 0)
  {
  }

  /** The wire to a hart. */
  predicate DirectLine(d: Domain, hart: nat) {
    && Direct(d) && Has(d.cfg, DOMAINCFG_IE)
    && hart < |d.idc| && d.idc[hart].delivery % 2 == 1
    && (Topi(d, hart) != 0 || d.idc[hart].force % 2 == 1)
  }

  /** Section 4.8 of the AIA: source `n` is signalled to hart `hart` at priority `p` while its bits of setip and setie
      are set, its sourcecfg is not inactive, its target's hart index (bits 18 and up) is `hart` and its low byte
      `p`, 0 standing for 1, unless a threshold is set that is no greater than `p`. */
  predicate Signalled(d: Domain, hart: nat, n: nat, p: nat) {
    && 1 <= n <= 31 && hart < |d.idc|
    && Bit(d.ip, n) && Bit(d.ie, n) && d.source[n] != 0 && d.target[n] / 0x4_0000 == hart
    && p == (if d.target[n] % 0x100 == 0 then 1 else d.target[n] % 0x100)
    && !(1 <= d.idc[hart].threshold % 0x100 <= p)
  }

  lemma WaitsIsSignalled(d: Domain, hart: nat, n: nat)
    ensures Waits(d, hart, n) ==> Signalled(d, hart, n, Prio(d, n))
    ensures forall p: nat | Signalled(d, hart, n, p) :: Waits(d, hart, n) && p == Prio(d, n)
  {
    hide Bit;
  }

  /** topi is source `n`'s number and priority exactly if it is signalled and none of a lower priority number is,
      nor one of the same and a lower source number. */
  lemma TopiIsLeastSignalled(d: Domain, hart: nat, n: nat, p: nat)
    requires 0 < n && p < 0x100
    ensures Topi(d, hart) == n * 0x1_0000 + p <==>
      Signalled(d, hart, n, p)
      && forall m: nat, q: nat | Signalled(d, hart, m, q) :: p < q || (p == q && n <= m)
  {
    hide Waits, Prio, Signalled, BestBelow, Rank;
    TopIsTop(d, hart);
    WaitsIsSignalled(d, hart, n);
    var best := TopOf(d, hart);
    WaitsIsSignalled(d, hart, best);
    if best != 0 {
      OnlySources(d, hart, best);
      forall m: nat, q: nat | Signalled(d, hart, m, q)
        ensures Prio(d, best) < q || (Prio(d, best) == q && best <= m)
      {
        WaitsIsSignalled(d, hart, m);
        OnlySources(d, hart, m);
        RankIsOrder(d, best, m);
      }
    }
    ZeroNeverWaits(d, hart);
  }

  lemma RankIsOrder(d: Domain, m: nat, n: nat)
    requires m < NUM_SOURCES && n < NUM_SOURCES
    ensures Rank(d, m) <= Rank(d, n) <==> Prio(d, m) < Prio(d, n) || (Prio(d, m) == Prio(d, n) && m <= n)
  {
    hide Prio;
  }

  /** The wire is up while domaincfg's IE (bit 8) is set and DM (bit 2) is not, the hart's idelivery is set, and
      topi is not 0 or iforce is set. */
  lemma LineExactly(d: Domain, hart: nat)
    ensures DirectLine(d, hart) <==>
      Bit(d.cfg, 8) && !Bit(d.cfg, 2) && hart < |d.idc| && Bit(d.idc[hart].delivery, 0)
      && (Topi(d, hart) != 0 || Bit(d.idc[hart].force, 0))
  {
    hide Bit, Has, Topi;
    Powers();
    BitIsHas(d.cfg, 8, 0x100);
    BitIsHas(d.cfg, 2, 4);
    if hart < |d.idc| {
      FirstBit(d.idc[hart].delivery);
      FirstBit(d.idc[hart].force);
    }
  }

  // ---- Claims ----------------------------------------------------------------------------------------

  /** The IDCs come into being when a hart's is first touched. */
  function Grown(d: Domain, harts: nat): Domain {
    if |d.idc| < harts then d.(idc := d.idc + seq(harts - |d.idc|, _ => Idc(0, 0, 0))) else d
  }

  /** claimi: the top source's pending bit clears; with none, the forced interrupt does. */
  function ClaimIn(d: Domain, hart: nat): Domain
    requires hart < |d.idc|
  {
    var best := TopOf(d, hart);
    if best != 0 then d.(ip := ClearBit(d.ip, best)) else d.(idc := d.idc[hart := d.idc[hart].(force := 0)])
  }

  lemma ClaimTakesTop(d: Domain, hart: nat, h: nat, n: nat)
    requires hart < |d.idc| && TopOf(d, hart) != 0
    ensures Waits(ClaimIn(d, hart), h, n) <==> Waits(d, h, n) && n != TopOf(d, hart)
    ensures n < NUM_SOURCES ==> Rank(ClaimIn(d, hart), n) == Rank(d, n)
  {
    BitOfClear(d.ip, TopOf(d, hart), n);
  }

  function Waiting(d: Domain, hart: nat): set<nat> {
    set n | n in Sources(NUM_SOURCES) && Waits(d, hart, n)
  }

  function Sources(n: nat): (s: set<nat>)
    ensures forall m: nat :: m in s <==> m < n
  {
    if n == 0 then {} else Sources(n - 1) + {n - 1}
  }

  lemma WaitingIsWaits(d: Domain, hart: nat, n: nat)
    ensures n in Waiting(d, hart) <==> Waits(d, hart, n)
  {
  }

  lemma ClaimShrinks(d: Domain, hart: nat)
    requires hart < |d.idc| && TopOf(d, hart) != 0
    ensures Waiting(ClaimIn(d, hart), hart) == Waiting(d, hart) - {TopOf(d, hart)}
    ensures |Waiting(ClaimIn(d, hart), hart)| < |Waiting(d, hart)|
  {
    hide Waits, ClaimIn;
    forall n: nat
      ensures n in Waiting(ClaimIn(d, hart), hart) <==> n in Waiting(d, hart) && n != TopOf(d, hart)
    {
      WaitingIsWaits(d, hart, n);
      WaitingIsWaits(ClaimIn(d, hart), hart, n);
      ClaimTakesTop(d, hart, hart, n);
    }
    WaitingIsWaits(d, hart, TopOf(d, hart));
    assert Waiting(d, hart) == Waiting(ClaimIn(d, hart), hart) + {TopOf(d, hart)};
  }

  /** The sources that claims take, until topi reads zero. */
  function Claimed(d: Domain, hart: nat): seq<nat>
    requires hart < |d.idc|
    decreases |Waiting(d, hart)|
  {
    if TopOf(d, hart) == 0 then [] else
      ClaimShrinks(d, hart);
      [TopOf(d, hart)] + Claimed(ClaimIn(d, hart), hart)
  }

  lemma {:induction false} ClaimedWaited(d: Domain, hart: nat, n: nat)
    requires hart < |d.idc|
    ensures n in Claimed(d, hart) <==> Waits(d, hart, n)
    decreases |Waiting(d, hart)|
  {
    hide Waits, ClaimIn, TopOf, Rank;
    TopIsTop(d, hart);
    if TopOf(d, hart) != 0 {
      ClaimShrinks(d, hart);
      SameHarts(d, hart);
      ClaimedWaited(ClaimIn(d, hart), hart, n);
      ClaimTakesTop(d, hart, hart, n);
    }
  }

  lemma {:induction false} ClaimedInOrder(d: Domain, hart: nat)
    requires hart < |d.idc|
    ensures forall i, j :: 0 <= i < j < |Claimed(d, hart)| ==>
      Rank(d, Claimed(d, hart)[i]) < Rank(d, Claimed(d, hart)[j])
    decreases |Waiting(d, hart)|
  {
    hide Waits, ClaimIn, TopOf, Rank, Waiting;
    if TopOf(d, hart) != 0 {
      var top, next := TopOf(d, hart), ClaimIn(d, hart);
      ClaimShrinks(d, hart);
      SameHarts(d, hart);
      ClaimedInOrder(next, hart);
      var rest := Claimed(next, hart);
      forall j | 0 <= j < |rest|
        ensures Rank(d, top) < Rank(d, rest[j]) && Rank(next, rest[j]) == Rank(d, rest[j])
      {
        assert rest[j] in rest;
        ClaimedWaited(next, hart, rest[j]);
        TopRanksFirst(d, hart, rest[j]);
      }
    }
  }

  /** What is left after a claim ranks after what it took. */
  lemma TopRanksFirst(d: Domain, hart: nat, n: nat)
    requires hart < |d.idc| && TopOf(d, hart) != 0 && Waits(ClaimIn(d, hart), hart, n)
    ensures Rank(d, TopOf(d, hart)) < Rank(d, n) && Rank(ClaimIn(d, hart), n) == Rank(d, n)
  {
    hide Waits, ClaimIn, TopOf, Rank;
    TopIsTop(d, hart);
    ClaimTakesTop(d, hart, hart, n);
    OnlySources(d, hart, n);
    OnlySources(d, hart, TopOf(d, hart));
    RanksDiffer(d, TopOf(d, hart), n);
  }

  /** Claiming drains exactly what waits, each source once, best rank first. */
  lemma ClaimingDrains(d: Domain, hart: nat)
    requires hart < |d.idc|
    ensures forall n: nat :: n in Claimed(d, hart) <==> Waits(d, hart, n)
    ensures forall i, j :: 0 <= i < j < |Claimed(d, hart)| ==>
      Rank(d, Claimed(d, hart)[i]) < Rank(d, Claimed(d, hart)[j])
  {
    hide Waits, Claimed, Rank;
    ClaimedInOrder(d, hart);
    forall n: nat
      ensures n in Claimed(d, hart) <==> Waits(d, hart, n)
    {
      ClaimedWaited(d, hart, n);
    }
  }

  lemma RanksDiffer(d: Domain, m: nat, n: nat)
    requires m < NUM_SOURCES && n < NUM_SOURCES && m != n
    ensures Rank(d, m) != Rank(d, n)
  {
  }

  lemma SameHarts(d: Domain, hart: nat)
    requires hart < |d.idc|
    ensures |ClaimIn(d, hart).idc| == |d.idc|
  {
  }

  /** A claim by one hart takes nothing of another's. */
  lemma ClaimsDoNotInterfere(d: Domain, hart: nat, other: nat)
    requires hart < |d.idc| && other < |d.idc| && other != hart
    ensures Waiting(ClaimIn(d, hart), other) == Waiting(d, other)
  {
    hide BestBelow, Sources;
    forall n: nat
      ensures Waits(ClaimIn(d, hart), other, n) == Waits(d, other, n)
    {
      BitOfClear(d.ip, TopOf(d, hart), n);
    }
  }

  // ---- Register writes ------------------------------------------------------------------------------------

  datatype Register =
    | DomainCfg | SourceCfg(i: nat) | Target(i: nat)
    | SetIp | SetIpNum | InClrIp | ClrIpNum | SetIe | SetIeNum | ClrIe | ClrIeNum
    | IdcReg(h: nat, r: nat) | Unmapped

  /** Which register is at `offset`. */
  function Decode(offset: nat): (r: Register)
    ensures r.SourceCfg? || r.Target? ==> 0 < r.i < NUM_SOURCES
  {
    if offset == 0 then DomainCfg
    else if 4 <= offset < 4 + 31 * 4 then SourceCfg(1 + (offset - 4) / 4)
    else if 0x3004 <= offset < 0x3004 + 31 * 4 then Target(1 + (offset - 0x3004) / 4)
    else if offset == 0x1CDC || offset == 0x2000 then SetIpNum
    else if offset >= IDC_BASE then IdcReg((offset - IDC_BASE) / 32, (offset - IDC_BASE) % 32)
    else if offset == 0x1C00 then SetIp
    else if offset == 0x1D00 then InClrIp
    else if offset == 0x1DDC then ClrIpNum
    else if offset == 0x1E00 then SetIe
    else if offset == 0x1EDC then SetIeNum
    else if offset == 0x1F00 then ClrIe
    else if offset == 0x1FDC then ClrIeNum
    else Unmapped
  }

  /** domaincfg keeps IE, DM and BE. */
  function CfgWritable(val: nat): nat {
    (if Has(val, DOMAINCFG_IE) then DOMAINCFG_IE else 0)
    + (if Has(val, DOMAINCFG_DM) then DOMAINCFG_DM else 0) + val % 2
  }

  /** target keeps everything but bit 11. */
  function TargetWritable(val: nat): nat {
    if Has(val % TWO32, 0x800) then val % TWO32 - 0x800 else val % TWO32
  }

  /** A source's interrupt, raised by a device or by setipnum, in direct mode. */
  function AssertIn(d: Domain, n: nat): Domain {
    if 0 < n < NUM_SOURCES && d.source[n] != 0 && Direct(d) then d.(ip := SetBit(d.ip, n)) else d
  }

  function IdcWrite(i: Idc, r: nat, val: nat): Idc {
    match r
    case 0 => i.(delivery := val % 2)
    case 4 => i.(force := val % 2)
    case 8 => i.(threshold := val % 256)
    case _ => i
  }

  /** write32 on a machine of `harts` harts. */
  function WriteIn(d: Domain, harts: nat, offset: nat, val: nat): Domain {
    match Decode(offset)
    case DomainCfg => d.(cfg := CfgWritable(val))
    case SourceCfg(i) => d.(source := d.source[i := val % 8])
    case Target(i) => d.(target := d.target[i := TargetWritable(val)])
    case SetIpNum => AssertIn(d, val)
    case IdcReg(h, r) =>
      if h >= harts then d
      else
        var g := Grown(d, harts);
        g.(idc := g.idc[h := IdcWrite(g.idc[h], r, val)])
    case SetIp => d.(ip := Or(d.ip, val / 2 * 2))
    case InClrIp => d.(ip := AndNot(d.ip, val))
    case ClrIpNum => if 0 < val < NUM_SOURCES then d.(ip := ClearBit(d.ip, val)) else d
    case SetIe => d.(ie := Or(d.ie, val / 2 * 2))
    case SetIeNum => if 0 < val < NUM_SOURCES then d.(ie := SetBit(d.ie, val)) else d
    case ClrIe => d.(ie := AndNot(d.ie, val))
    case ClrIeNum => if 0 < val < NUM_SOURCES then d.(ie := ClearBit(d.ie, val)) else d
    case Unmapped => d
  }

  /** What a write makes of one source's pending bit, by the address it goes to: setip, in_clrip, setipnum and its
      little-endian twin, which in direct mode (domaincfg's DM, bit 2, clear) reach an active source, and clripnum. */
  predicate PendsAfter(d: Domain, offset: nat, val: nat, n: nat)
    requires 0 < n < NUM_SOURCES
  {
    if offset == 0x1C00 then Bit(d.ip, n) || Bit(val, n)
    else if offset == 0x1D00 then Bit(d.ip, n) && !Bit(val, n)
    else if offset == 0x1CDC || offset == 0x2000 then
      Bit(d.ip, n) || (val == n && d.source[n] != 0 && !Bit(d.cfg, 2))
    else if offset == 0x1DDC then Bit(d.ip, n) && val != n
    else Bit(d.ip, n)
  }

  /** And of its enable bit: setie, setienum, clrie and clrienum. */
  predicate EnabledAfter(d: Domain, offset: nat, val: nat, n: nat) {
    if offset == 0x1E00 then Bit(d.ie, n) || Bit(val, n)
    else if offset == 0x1EDC then Bit(d.ie, n) || val == n
    else if offset == 0x1F00 then Bit(d.ie, n) && !Bit(val, n)
    else if offset == 0x1FDC then Bit(d.ie, n) && val != n
    else Bit(d.ie, n)
  }

  lemma BitsAbove(val: nat, n: nat)
    requires 0 < n
    ensures Bit(val / 2 * 2, n) == Bit(val, n) && !Bit(val / 2 * 2, 0)
  {
    assert val / 2 * 2 / 2 == val / 2;
  }

  /** A write of any value to any register sets or clears the pending and the enable bit of just the
      sources it names, and never makes source 0, which is none, pending or enabled. */
  lemma WriteBits(d: Domain, harts: nat, offset: nat, val: nat, n: nat)
    requires 0 < n < NUM_SOURCES
    ensures var e := WriteIn(d, harts, offset, val);
      && Bit(e.ip, n) == PendsAfter(d, offset, val, n) && Bit(e.ie, n) == EnabledAfter(d, offset, val, n)
      && (Bit(e.ip, 0) ==> Bit(d.ip, 0)) && (Bit(e.ie, 0) ==> Bit(d.ie, 0))
  {
    hide Bit, SetBit, ClearBit, Or, AndNot, Has;
    BitIsHas(d.cfg, 2, 4);
    BitsAbove(val, n);
    BitsWritten(d.ip, val, n);
    BitsWritten(d.ip, val, 0);
    BitsWritten(d.ie, val, n);
    BitsWritten(d.ie, val, 0);
  }

  lemma BitsWritten(w: nat, val: nat, b: nat)
    ensures Bit(Or(w, val / 2 * 2), b) == (Bit(w, b) || Bit(val / 2 * 2, b))
    ensures Bit(AndNot(w, val), b) == (Bit(w, b) && !Bit(val, b))
    ensures Bit(SetBit(w, val), b) == (b == val || Bit(w, b))
    ensures Bit(ClearBit(w, val), b) == (b != val && Bit(w, b))
  {
    BitOfOr(w, val / 2 * 2, b);
    BitOfAndNot(w, val, b);
    BitOfSet(w, val, b);
    BitOfClear(w, val, b);
  }

  /** The registers that configure, by their addresses: of domaincfg bits 8 (IE), 2 (DM) and 0 (BE) are kept, of
      sourcecfg bits 2 to 0, and of target all 32 but bit 11. */
  lemma ConfigWritten(d: Domain, harts: nat, offset: nat, val: nat, n: nat, k: nat)
    requires 0 < n < NUM_SOURCES
    ensures var e := WriteIn(d, harts, offset, val);
      && (Bit(e.cfg, k) == if offset == 0 then Bit(val, k) && k in {0, 2, 8} else Bit(d.cfg, k))
      && (Bit(e.source[n], k) == if offset / 4 == n then Bit(val, k) && k < 3 else Bit(d.source[n], k))
      && (Bit(e.target[n], k) ==
          if offset / 4 == 0xC00 + n then Bit(val, k) && k < 32 && k != 11 else Bit(d.target[n], k))
  {
    hide Bit, SetBit, ClearBit, Or, AndNot, CfgWritable, TargetWritable;
    CfgBits(val, k);
    SourceBits(val, k);
    TargetBits(val, k);
  }

  lemma CfgBits(val: nat, k: nat)
    ensures Bit(CfgWritable(val), k) == (Bit(val, k) && k in {0, 2, 8})
  {
    hide Bit, Has;
    Powers();
    BitIsHas(val, 8, 0x100);
    BitIsHas(val, 2, 4);
    FirstBit(val);
    FewBits(Has(val, 0x100), Has(val, 4), val % 2 == 1, k);
  }

  lemma FewBits(eight: bool, two: bool, zero: bool, k: nat)
    ensures Bit((if eight then 0x100 else 0) + (if two then 4 else 0) + (if zero then 1 else 0), k) ==
      ((eight && k == 8) || (two && k == 2) || (zero && k == 0))
  {
    hide Bit;
    TwoBits(two, zero, k);
    TwoBits(two, zero, 8);
    Powers();
    BitOfSum((if two then 4 else 0) + (if zero then 1 else 0), 8, k);
  }

  lemma TwoBits(two: bool, zero: bool, k: nat)
    ensures Bit((if two then 4 else 0) + (if zero then 1 else 0), k) == ((two && k == 2) || (zero && k == 0))
  {
    hide Bit;
    OneBit(zero, k);
    OneBit(zero, 2);
    assert P.Pow2(2) == 4;
    BitOfSum(if zero then 1 else 0, 2, k);
  }

  lemma OneBit(zero: bool, k: nat)
    ensures Bit(if zero then 1 else 0, k) == (zero && k == 0)
  {
    hide Bit;
    BitOfZero(k);
    BitOfZero(0);
    BitOfSum(0, 0, k);
  }

  lemma SourceBits(val: nat, k: nat)
    ensures Bit(val % 8, k) == (Bit(val, k) && k < 3)
  {
    hide Bit, Low;
    LowIsMod(val, 3);
    BitOfLow(val, 3, k);
  }

  lemma TargetBits(val: nat, k: nat)
    ensures Bit(TargetWritable(val), k) == (Bit(val, k) && k < 32 && k != 11)
  {
    hide Bit, Low, Has;
    LowIsMod(val, 32);
    BitOfLow(val, 32, k);
    Powers();
    BitOfLow(val, 32, 11);
    Pow2Sum(8, 3);
    var low := Low(val, 32);
    BitIsHas(low, 11, 0x800);
    if Has(low, 0x800) {
      WithoutBit(low, k);
    }
  }

  lemma WithoutBit(v: nat, k: nat)
    requires Bit(v, 11)
    ensures v >= 0x800 && Bit(v - 0x800, k) == (Bit(v, k) && k != 11)
  {
    hide Bit, ClearBit;
    BitOfClear(v, 11, k);
    ClearIsLess(v, 11);
    Powers();
    Pow2Sum(8, 3);
  }

  lemma {:induction false} ClearIsLess(v: nat, b: nat)
    requires Bit(v, b)
    ensures v == ClearBit(v, b) + P.Pow2(b)
    decreases b
  {
    if b > 0 {
      ClearIsLess(v / 2, b - 1);
    }
  }

  /** A hart's delivery registers, which are all 0 until the first write to any hart's. */
  function IdcOf(d: Domain, h: nat): Idc {
    if h < |d.idc| then d.idc[h] else Idc(0, 0, 0)
  }

  /** They are at 0x4000, 32 bytes a hart: idelivery, iforce and ithreshold. */
  lemma DeliveryWritten(d: Domain, harts: nat, offset: nat, val: nat, h: nat)
    requires h < harts
    ensures var was, now := IdcOf(d, h), IdcOf(WriteIn(d, harts, offset, val), h);
      && now.delivery == (if offset == 0x4000 + 32 * h then val % 2 else was.delivery)
      && now.force == (if offset == 0x4004 + 32 * h then val % 2 else was.force)
      && now.threshold == (if offset == 0x4008 + 32 * h then val % 0x100 else was.threshold)
  {
    hide SetBit, ClearBit, Or, AndNot, CfgWritable, TargetWritable;
  }

  /** Whether write32 bumps the event counter. */
  predicate Announces(d: Domain, harts: nat, offset: nat, val: nat) {
    match Decode(offset)
    case SetIpNum => 0 < val < NUM_SOURCES && d.source[val] != 0 && Direct(d)
    case IdcReg(h, _) => h < harts
    case DomainCfg => false
    case SourceCfg(_) => false
    case Target(_) => false
    case Unmapped => false
    case _ => true
  }

  /** A write to `offset`, whatever the state and the value, that moves any hart's line is announced. */
  ghost predicate AlwaysAnnounced(offset: nat) {
    forall d: Domain, harts: nat, val: nat, hart: nat ::
      !Announces(d, harts, offset, val) ==> DirectLine(WriteIn(d, harts, offset, val), hart) == DirectLine(d, hart)
  }

  /** The configuration registers, whose writes return before the bump. */
  predicate Configures(offset: nat) {
    var r := Decode(offset);
    r.DomainCfg? || r.SourceCfg? || r.Target?
  }

  /** One source, pending, enabled and active, for hart 0, which listens. */
  function OneSource(i: nat): Domain
    requires i < NUM_SOURCES
  {
    Domain(DOMAINCFG_IE, seq(NUM_SOURCES, _ => 1), seq(NUM_SOURCES, _ => 0), SetBit(0, i), SetBit(0, i), [Idc(1, 0, 0)])
  }

  lemma OneSourceLine(i: nat, d: Domain)
    requires 0 < i < NUM_SOURCES && d.ip == SetBit(0, i) && d.idc == [Idc(1, 0, 0)] && d.ie == SetBit(0, i)
    ensures DirectLine(d, 0) <==>
      Direct(d) && Has(d.cfg, DOMAINCFG_IE) && d.source[i] != 0 && d.target[i] / 0x4_0000 == 0
  {
    hide BestBelow, Prio, Direct;
    BitOfSet(0, i, i);
    assert Waits(d, 0, i) <==> d.source[i] != 0 && d.target[i] / 0x4_0000 == 0;
    forall m: nat
      ensures Waits(d, 0, m) ==> m == i
    {
      BitOfSet(0, i, m);
      BitOfZero(m);
    }
    TopIsTop(d, 0);
  }

  /** The writes that the interrupt check may miss are those of the configuration registers, and each of
      them can be missed. */
  lemma AnnouncedExactly(offset: nat)
    ensures AlwaysAnnounced(offset) <==> !Configures(offset)
  {
    hide DirectLine;
    if Configures(offset) {
      var i := if Decode(offset).DomainCfg? then 1 else Decode(offset).i;
      var d := OneSource(i);
      var val := if Decode(offset).Target? then 0x4_0000 else 0;
      assert TargetWritable(0x4_0000) == 0x4_0000;
      assert !Has(CfgWritable(0), DOMAINCFG_IE);
      OneSourceLine(i, d);
      OneSourceLine(i, WriteIn(d, 1, offset, val));
      assert !Announces(d, 1, offset, val);
      assert DirectLine(WriteIn(d, 1, offset, val), 0) != DirectLine(d, 0);
    } else {
      forall d: Domain, harts: nat, val: nat, hart: nat | !Announces(d, harts, offset, val)
        ensures DirectLine(WriteIn(d, harts, offset, val), hart) == DirectLine(d, hart)
      {
        assert WriteIn(d, harts, offset, val) == d;
      }
    }
  }
}
