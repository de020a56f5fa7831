/** Physical memory protection: the entries as the CSRs hold them, the regions they name, and the check
    the emulator makes.

    pmpaddr holds at most 54 bits, so no shift of one below can leave 64 bits. */
module Pmp {
  import opened Words
  import opened Registers

  /** -pmp=N:U, -pmp-grain=G, -physaddr-bits. */
  datatype Config = Config(count: nat, usable: nat, grain: nat, physaddrBits: nat)

  type PmpConfig = c: Config | c.count in {0, 16, 64} && c.usable <= c.count && c.grain <= 52
    && 32 <= c.physaddrBits <= 56
    witness Config(16, 16, 0, 56)

  datatype Access = Fetch | Load | Store

  datatype Mode = Off | Tor | Na4 | Napot

  const PMPCFG0: nat := 0x3A0
  const PMPADDR0: nat := 0x3B0
  const CFG_R: nat := 1
  const CFG_W: nat := 2
  const CFG_X: nat := 4
  const CFG_L: nat := 128

  function Pow2(n: nat): (p: nat)
    ensures p > 0
  {
    if n == 0 then 1 else 2 * Pow2(n - 1)
  }

  function Byte(word: nat, i: nat): (b: nat)
    ensures b < 256
  {
    if i == 0 then word % 256 else Byte(word / 256, i - 1)
  }

  /** On RV64 the pmpcfg CSRs are even-numbered and hold eight entries each. */
  function CfgCsr(entry: nat): nat
    requires entry < 64
  {
    PMPCFG0 + entry / 8 * 2
  }

  function CfgByte(csr: CsrFile, entry: nat): (b: nat)
    requires entry < 64
    ensures b < 256
  {
    Byte(csr[CfgCsr(entry)], entry % 8)
  }

  function ModeOf(cfg: nat): Mode {
    match cfg / 8 % 4
    case 0 => Off
    case 1 => Tor
    case 2 => Na4
    case _ => Napot
  }

  function AlignDown(x: nat, m: nat): (r: nat)
    requires m > 0
    ensures r <= x < r + m
  {
    assert x == x / m * m + x % m;
    x - x % m
  }

  /** pmpaddr as stored. */
  function RawAddr(csr: CsrFile, entry: nat): nat
    requires entry < 64
  {
    csr[PMPADDR0 + entry]
  }

  /** pmpaddr as it reads and as regions are matched: with a grain G, a NAPOT entry's low G-1 bits read
      as ones and any other entry's low G bits as zeros. */
  function AddrOf(c: PmpConfig, csr: CsrFile, entry: nat): nat
    requires entry < 64
  {
    var addr := RawAddr(csr, entry);
    if c.grain == 0 then addr
    else if ModeOf(CfgByte(csr, entry)) == Napot then
      if c.grain >= 2 then AlignDown(addr, Pow2(c.grain - 1)) + Pow2(c.grain - 1) - 1 else addr
    else AlignDown(addr, Pow2(c.grain))
  }

  predicate Locked(c: PmpConfig, csr: CsrFile, entry: nat)
    requires entry < 64
  {
    entry < c.usable && Has(CfgByte(csr, entry), CFG_L)
  }

  datatype Region = Region(lo: nat, hi: nat)

  function TrailingOnes(v: nat): nat {
    if v % 2 == 1 then 1 + TrailingOnes(v / 2) else 0
  }

  /** The region of an entry in mode `mode` whose address reads as `addr`, over one that reads `below`. */
  function Decode(mode: Mode, below: nat, addr: nat): Option<Region> {
    match mode
    case Off => None
    case Tor => if addr * 4 > below * 4 then Some(Region(below * 4, addr * 4)) else None
    case Na4 => Some(Region(addr * 4, addr * 4 + 4))
    case Napot =>
      if addr == MAX64 then Some(Region(0, MAX64))
      else
        var size := Pow2(TrailingOnes(addr) + 3);
        Some(Region(AlignDown(addr * 4, size), AlignDown(addr * 4, size) + size))
  }

  /** A TOR entry's bottom: the previous entry's address, or zero. */
  function Below(c: PmpConfig, csr: CsrFile, entry: nat): nat
    requires entry < 64
  {
    if entry == 0 then 0 else AddrOf(c, csr, entry - 1)
  }

  function RegionOf(c: PmpConfig, csr: CsrFile, entry: nat): Option<Region>
    requires entry < 64
  {
    Decode(ModeOf(CfgByte(csr, entry)), Below(c, csr, entry), AddrOf(c, csr, entry))
  }

  predicate Permits(cfg: nat, access: Access, priv: PrivMode) {
    if priv == M && !Has(cfg, CFG_L) then true
    else
      match access
      case Fetch => Has(cfg, CFG_X)
      case Load => Has(cfg, CFG_R)
      case Store => Has(cfg, CFG_W)
  }

  // ---- The emulator's check --------------------------------------------------------------

  predicate In(r: Region, a: nat) {
    r.lo <= a < r.hi
  }

  /** pmp::check from entry `e` on: only the first and last byte of the access are looked at. */
  predicate CheckFrom(c: PmpConfig, csr: CsrFile, e: nat, first: nat, last: nat, access: Access, priv: PrivMode)
    requires e <= c.count
    decreases c.count - e
  {
    if e == c.count then priv == M
    else
      var r := RegionOf(c, csr, e);
      if r.None? || (!In(r.value, first) && !In(r.value, last)) then CheckFrom(c, csr, e + 1, first, last, access, priv)
      else In(r.value, first) && In(r.value, last) && Permits(CfgByte(csr, e), access, priv)
  }

  predicate Check(c: PmpConfig, csr: CsrFile, paddr: nat, size: nat, access: Access, priv: PrivMode) {
    var last := paddr + if size > 0 then size - 1 else 0;
    c.count == 0 || CheckFrom(c, csr, 0, paddr, last, access, priv)
  }

  /** pmp::page_permits from entry `e` on. */
  predicate PageFrom(c: PmpConfig, csr: CsrFile, e: nat, page: nat, access: Access, priv: PrivMode)
    requires e <= c.count
    decreases c.count - e
  {
    if e == c.count then priv == M
    else
      var r := RegionOf(c, csr, e);
      if r.None? || r.value.hi <= page || r.value.lo >= page + 0x1000 then PageFrom(c, csr, e + 1, page, access, priv)
      else r.value.lo <= page && r.value.hi >= page + 0x1000 && Permits(CfgByte(csr, e), access, priv)
  }

  predicate PagePermits(c: PmpConfig, csr: CsrFile, page: nat, access: Access, priv: PrivMode) {
    c.count == 0 || PageFrom(c, csr, 0, page, access, priv)
  }

  // ---- The bytes a region is for -------------------------------------------------------------

  /** Two four-byte granules agree on every bit above pmpaddr's trailing ones and the zero after them. */
  predicate NapotMatches(addr: nat, granule: nat) {
    if addr % 2 == 1 then NapotMatches(addr / 2, granule / 2) else addr / 2 == granule / 2
  }

  predicate ModeMatches(mode: Mode, below: nat, addr: nat, a: nat) {
    match mode
    case Off => false
    case Tor => below <= a / 4 < addr
    case Na4 => a / 4 == addr
    case Napot => NapotMatches(addr, a / 4)
  }

  // ---- Decoding -----------------------------------------------------------------------------

  /** The aligned block a NAPOT pmpaddr names, in granules. */
  lemma {:induction false} NapotBlock(addr: nat, w: nat)
    ensures var s := Pow2(TrailingOnes(addr) + 1);
      NapotMatches(addr, w) <==> AlignDown(addr, s) <= w < AlignDown(addr, s) + s
    decreases addr
  {
    var s := Pow2(TrailingOnes(addr) + 1);
    if addr % 2 == 1 {
      var half := Pow2(TrailingOnes(addr / 2) + 1);
      NapotBlock(addr / 2, w / 2);
      assert s == 2 * half;
      ModDouble(addr, half);
    } else {
      assert s == 2 * Pow2(0) == 2;
    }
  }

  lemma ModDouble(v: nat, m: nat)
    requires m > 0
    ensures v % (2 * m) == 2 * (v / 2 % m) + v % 2
  {
    var q := v / 2 / m;
    var r := v / 2 % m;
    assert v / 2 == q * m + r;
    assert v == 2 * (q * m + r) + v % 2;
    assert v == q * (2 * m) + (2 * r + v % 2);
    DivModUnique(v, 2 * m, q, 2 * r + v % 2);
  }

  lemma DivModUnique(v: nat, m: nat, q: nat, r: nat)
    requires m > 0 && v == q * m + r && r < m
    ensures v / m == q && v % m == r
  {
    var d: int := v / m - q;
    var k: int := m;
    assert d * k == r - v % m;
    assert d >= 1 ==> d * k >= k;
    assert d <= -1 ==> d * k <= -k;
  }

  lemma QuarterIn(a: nat, lo: nat, hi: nat)
    ensures lo <= a / 4 < hi <==> lo * 4 <= a < hi * 4
  {
  }

  lemma AlignScale(x: nat, m: nat)
    requires m > 0
    ensures AlignDown(x * 4, m * 4) == AlignDown(x, m) * 4
  {
    var q, r := x / m, x % m;
    assert x * 4 == q * (m * 4) + r * 4 by {
      assert x == q * m + r;
    }
    DivModUnique(x * 4, m * 4, q, r * 4);
  }

  lemma NapotRegion(addr: nat)
    requires addr < MAX64
    ensures var s := Pow2(TrailingOnes(addr) + 1);
      Decode(Napot, 0, addr) == Some(Region(AlignDown(addr, s) * 4, (AlignDown(addr, s) + s) * 4))
  {
    hide AlignDown, TrailingOnes;
    var s := Pow2(TrailingOnes(addr) + 1);
    assert Pow2(TrailingOnes(addr) + 3) == s * 4;
    AlignScale(addr, s);
  }

  /** A decoded region holds exactly the bytes its entry matches, and is whole granules. */
  lemma DecodeIsMatch(mode: Mode, below: nat, addr: nat, a: nat)
    requires addr < MAX64
    ensures var r := Decode(mode, below, addr);
      && (ModeMatches(mode, below, addr, a) <==> r.Some? && In(r.value, a))
      && (r.Some? ==> r.value.lo % 4 == 0 && r.value.hi % 4 == 0)
  {
    hide AlignDown, TrailingOnes, NapotMatches, Pow2;
    if mode == Napot {
      NapotRegion(addr);
      NapotBlock(addr, a / 4);
      var s := Pow2(TrailingOnes(addr) + 1);
      QuarterIn(a, AlignDown(addr, s), AlignDown(addr, s) + s);
    } else if mode == Tor {
      QuarterIn(a, below, addr);
    }
  }

  predicate Decodable(c: PmpConfig, csr: CsrFile) {
    forall e: nat | e < c.count :: AddrOf(c, csr, e) < MAX64
  }

  // ---- Whole pages -----------------------------------------------------------------------------

  lemma {:induction false} PageFromMeansCheckFrom(c: PmpConfig, csr: CsrFile, e: nat, page: nat, first: nat, last: nat,
                                                  access: Access, priv: PrivMode)
    requires e <= c.count && page <= first <= last < page + 0x1000
    requires PageFrom(c, csr, e, page, access, priv)
    ensures CheckFrom(c, csr, e, first, last, access, priv)
    decreases c.count - e
  {
    hide RegionOf, Permits, CfgByte;
    if e < c.count {
      var r := RegionOf(c, csr, e);
      if r.None? || r.value.hi <= page || r.value.lo >= page + 0x1000 {
        PageFromMeansCheckFrom(c, csr, e + 1, page, first, last, access, priv);
      }
    }
  }

  /** A page-wide yes is a yes for every access inside the page, aligned or not. */
  lemma PagePermitsMeansCheck(c: PmpConfig, csr: CsrFile, page: nat, paddr: nat, size: nat, access: Access,
                              priv: PrivMode)
    requires PagePermits(c, csr, page, access, priv)
    requires size > 0 && page <= paddr && paddr + size <= page + 0x1000
    ensures Check(c, csr, paddr, size, access, priv)
  {
    if c.count > 0 {
      PageFromMeansCheckFrom(c, csr, 0, page, paddr, paddr + size - 1, access, priv);
    }
  }

  // ---- What the check reads -------------------------------------------------------------------

  predicate IsPmpCsr(addr: nat) {
    PMPCFG0 <= addr < PMPADDR0 + 64
  }

  ghost predicate SamePmp(a: CsrFile, b: CsrFile) {
    forall addr: nat | IsPmpCsr(addr) :: a[addr] == b[addr]
  }

  /** Decoding reads the pmpcfg and pmpaddr CSRs and nothing else. */
  lemma DecodeReadsPmpCsrs(c: PmpConfig, a: CsrFile, b: CsrFile, e: nat)
    requires e < 64 && SamePmp(a, b)
    ensures RegionOf(c, a, e) == RegionOf(c, b, e) && CfgByte(a, e) == CfgByte(b, e)
  {
    hide AlignDown, Byte, Decode;
    assert IsPmpCsr(CfgCsr(e)) && IsPmpCsr(PMPADDR0 + e);
    if e > 0 {
      assert IsPmpCsr(CfgCsr(e - 1)) && IsPmpCsr(PMPADDR0 + e - 1);
    }
  }

  lemma {:induction false} CheckReadsPmpCsrs(c: PmpConfig, a: CsrFile, b: CsrFile, e: nat, first: nat, last: nat,
                                            access: Access, priv: PrivMode)
    requires e <= c.count && SamePmp(a, b)
    ensures CheckFrom(c, a, e, first, last, access, priv) == CheckFrom(c, b, e, first, last, access, priv)
    decreases c.count - e
  {
    hide RegionOf, Permits, CfgByte, SamePmp;
    if e < c.count {
      DecodeReadsPmpCsrs(c, a, b, e);
      CheckReadsPmpCsrs(c, a, b, e + 1, first, last, access, priv);
    }
  }

  lemma {:induction false} PageReadsPmpCsrs(c: PmpConfig, a: CsrFile, b: CsrFile, e: nat, page: nat, access: Access,
                                            priv: PrivMode)
    requires e <= c.count && SamePmp(a, b)
    ensures PageFrom(c, a, e, page, access, priv) == PageFrom(c, b, e, page, access, priv)
    decreases c.count - e
  {
    hide RegionOf, Permits, CfgByte, SamePmp;
    if e < c.count {
      DecodeReadsPmpCsrs(c, a, b, e);
      PageReadsPmpCsrs(c, a, b, e + 1, page, access, priv);
    }
  }
}
