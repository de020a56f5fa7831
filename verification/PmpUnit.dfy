/** The PMP as the emulator runs it: writes that apply the lock rules, and checks answered from a cache
    of decoded regions shared by every hart. */
module PmpUnit {
  import opened Words
  import opened Registers
  import opened Pmp
  import opened PmpLocks

  datatype Decoded = Decoded(lo: nat, hi: nat, cfg: nat, on: bool)

  /** The enabled entries from `e` on, in priority order. */
  function ActiveFrom(c: PmpConfig, csr: CsrFile, e: nat): seq<nat>
    requires e <= c.count
    decreases c.count - e
  {
    if e == c.count then []
    else if RegionOf(c, csr, e).Some? then [e] + ActiveFrom(c, csr, e + 1)
    else ActiveFrom(c, csr, e + 1)
  }

  lemma ActiveStep(c: PmpConfig, csr: CsrFile, e: nat)
    requires e <= c.count
    ensures ActiveFrom(c, csr, e) == if e == c.count then []
      else if RegionOf(c, csr, e).Some? then [e] + ActiveFrom(c, csr, e + 1) else ActiveFrom(c, csr, e + 1)
  {
  }

  predicate DecodedIs(d: Decoded, c: PmpConfig, csr: CsrFile, e: nat)
    requires e < 64
  {
    var r := RegionOf(c, csr, e);
    d.on == r.Some? && d.cfg == CfgByte(csr, e) && (r.Some? ==> d.lo == r.value.lo && d.hi == r.value.hi)
  }

  lemma ThatIsDecoded(d: Decoded, c: PmpConfig, csr: CsrFile, e: nat)
    requires e < 64
    requires var r := RegionOf(c, csr, e);
      d == Decoded(if r.Some? then r.value.lo else d.lo, if r.Some? then r.value.hi else d.hi, CfgByte(csr, e), r.Some?)
    ensures DecodedIs(d, c, csr, e)
  {
  }

  lemma Append(s: seq<nat>, x: nat, rest: seq<nat>)
    ensures s + ([x] + rest) == s + [x] + rest
  {
  }

  /** The decoded regions and the list of enabled entries are those of these CSRs. */
  ghost predicate Fits(ds: seq<Decoded>, active: seq<nat>, c: PmpConfig, csr: CsrFile) {
    && |ds| == 64 && active == ActiveFrom(c, csr, 0)
    && forall e: nat | e < c.count :: DecodedIs(ds[e], c, csr, e)
  }

  predicate AllOn(c: PmpConfig, csr: CsrFile, active: seq<nat>) {
    forall i | 0 <= i < |active| :: active[i] < 64 && RegionOf(c, csr, active[i]).Some?
  }

  /** check over a list of enabled entries. */
  predicate CheckOver(c: PmpConfig, csr: CsrFile, active: seq<nat>, first: nat, last: nat, access: Access,
                      priv: PrivMode)
    requires AllOn(c, csr, active)
  {
    if active == [] then priv == M
    else
      var r := RegionOf(c, csr, active[0]).value;
      if !In(r, first) && !In(r, last) then CheckOver(c, csr, active[1..], first, last, access, priv)
      else In(r, first) && In(r, last) && Permits(CfgByte(csr, active[0]), access, priv)
  }

  predicate PageOver(c: PmpConfig, csr: CsrFile, active: seq<nat>, page: nat, access: Access, priv: PrivMode)
    requires AllOn(c, csr, active)
  {
    if active == [] then priv == M
    else
      var r := RegionOf(c, csr, active[0]).value;
      if r.hi <= page || r.lo >= page + 0x1000 then PageOver(c, csr, active[1..], page, access, priv)
      else r.lo <= page && r.hi >= page + 0x1000 && Permits(CfgByte(csr, active[0]), access, priv)
  }

  lemma {:induction false} ActiveEntries(c: PmpConfig, csr: CsrFile, e: nat)
    requires e <= c.count
    ensures AllOn(c, csr, ActiveFrom(c, csr, e))
    ensures forall i | 0 <= i < |ActiveFrom(c, csr, e)| :: e <= ActiveFrom(c, csr, e)[i] < c.count
    decreases c.count - e
  {
    hide RegionOf;
    if e < c.count {
      ActiveEntries(c, csr, e + 1);
    }
  }

  /** Skipping the entries that are off changes no answer. */
  lemma {:induction false} CheckOverActive(c: PmpConfig, csr: CsrFile, e: nat, first: nat, last: nat, access: Access,
                                           priv: PrivMode)
    requires e <= c.count
    ensures AllOn(c, csr, ActiveFrom(c, csr, e))
    ensures CheckOver(c, csr, ActiveFrom(c, csr, e), first, last, access, priv)
         == CheckFrom(c, csr, e, first, last, access, priv)
    decreases c.count - e
  {
    hide RegionOf, Permits, CfgByte;
    ActiveEntries(c, csr, e);
    if e < c.count {
      CheckOverActive(c, csr, e + 1, first, last, access, priv);
      if RegionOf(c, csr, e).Some? {
        assert ActiveFrom(c, csr, e)[1..] == ActiveFrom(c, csr, e + 1);
      }
    }
  }

  lemma {:induction false} PageOverActive(c: PmpConfig, csr: CsrFile, e: nat, page: nat, access: Access, priv: PrivMode)
    requires e <= c.count
    ensures AllOn(c, csr, ActiveFrom(c, csr, e))
    ensures PageOver(c, csr, ActiveFrom(c, csr, e), page, access, priv) == PageFrom(c, csr, e, page, access, priv)
    decreases c.count - e
  {
    hide RegionOf, Permits, CfgByte;
    ActiveEntries(c, csr, e);
    if e < c.count {
      PageOverActive(c, csr, e + 1, page, access, priv);
      if RegionOf(c, csr, e).Some? {
        assert ActiveFrom(c, csr, e)[1..] == ActiveFrom(c, csr, e + 1);
      }
    }
  }

  lemma {:induction false} ActiveReadsPmpCsrs(c: PmpConfig, a: CsrFile, b: CsrFile, e: nat)
    requires e <= c.count && SamePmp(a, b)
    ensures ActiveFrom(c, a, e) == ActiveFrom(c, b, e)
    decreases c.count - e
  {
    hide RegionOf, SamePmp;
    if e < c.count {
      DecodeReadsPmpCsrs(c, a, b, e);
      ActiveReadsPmpCsrs(c, a, b, e + 1);
    }
  }

  lemma {:induction false} ByteAbove(b: nat, rest: nat, i: nat)
    ensures Shifted(b + 256 * rest, i) == Shifted(b, i) + Shifted(rest, i + 1)
    decreases i
  {
    if i > 0 {
      ByteAbove(b, rest, i - 1);
    }
  }

  /** The word a pmpcfg write stores, a byte at a time from the lowest. */
  method ComposeWord(c: PmpConfig, csr: CsrFile, csrNo: nat, value: nat) returns (out: nat)
    requires IsCfg(csrNo)
    ensures out == NewWord(c, csr, csrNo, value, 0)
  {
    hide NewByte, Byte;
    out := 0;
    for i := 0 to 8
      invariant out + Shifted(NewWord(c, csr, csrNo, value, i), i) == NewWord(c, csr, csrNo, value, 0)
    {
      var b := NewByte(c, csr, BaseEntry(csrNo) + i, Byte(value, i));
      ByteAbove(b, NewWord(c, csr, csrNo, value, i + 1), i);
      out := out + Shifted(b, i);
    }
    ShiftedZero(8);
  }

  lemma {:induction false} ShiftedZero(i: nat)
    ensures Shifted(0, i) == 0
    decreases i
  {
    if i > 0 {
      ShiftedZero(i - 1);
    }
  }

  class Unit {
    const c: PmpConfig
    const cache: array<Decoded>
    const active: array<nat>
    var nActive: nat
    /** Bumped by every pmpcfg or pmpaddr write; the generation and the hart the cache was built for. */
    var cacheGen: nat
    var cacheBuilt: Option<nat>
    var cacheRegs: RegisterFile?

    ghost predicate CacheOk()
      reads this, cache, active, cacheRegs, if cacheRegs != null then {cacheRegs.csr} else {}
    {
      && cache.Length == active.Length == 64 && nActive <= 64
      && (cacheBuilt.Some? ==> cacheBuilt.value <= cacheGen)
      && (cacheBuilt == Some(cacheGen) && cacheRegs != null ==>
            cacheRegs.Valid() && Fits(cache[..], active[..nActive], c, cacheRegs.csr[..]))
    }

    constructor (c: PmpConfig)
      ensures CacheOk() && this.c == c && fresh(cache) && fresh(active)
    {
      this.c := c;
      cache := new Decoded[64](_ => Decoded(0, 0, 0, false));
      active := new nat[64](_ => 0);
      nActive, cacheGen, cacheBuilt, cacheRegs := 0, 0, None, null;
    }

    method RebuildCache(regs: RegisterFile)
      requires regs.Valid() && cache.Length == active.Length == 64
      modifies this`nActive, this`cacheBuilt, this`cacheRegs, cache, active
      ensures CacheOk() && cacheBuilt == Some(cacheGen) && cacheRegs == regs
    {
      hide RegionOf, CfgByte, ActiveFrom, DecodedIs;
      ghost var csr: CsrFile := regs.csr[..];
      assert regs.csr != active;
      nActive := 0;
      for i := 0 to c.count
        invariant nActive <= i && regs.csr[..] == csr
        invariant forall e: nat | e < i :: DecodedIs(cache[e], c, csr, e)
        invariant active[..nActive] + ActiveFrom(c, csr, i) == ActiveFrom(c, csr, 0)
      {
        ActiveStep(c, csr, i);
        var r := RegionOf(c, regs.csr[..], i);
        cache[i] := Decoded(if r.Some? then r.value.lo else cache[i].lo, if r.Some? then r.value.hi else cache[i].hi,
                            CfgByte(regs.csr[..], i), r.Some?);
        ThatIsDecoded(cache[i], c, csr, i);
        if cache[i].on {
          ghost var before := active[..nActive];
          active[nActive] := i;
          nActive := nActive + 1;
          assert active[..nActive] == before + [i];
          Append(before, i, ActiveFrom(c, csr, i + 1));
        }
      }
      ActiveStep(c, csr, c.count);
      assert active[..nActive] + [] == active[..nActive];
      cacheBuilt, cacheRegs := Some(cacheGen), regs;
    }

    /** The loop of check, over the enabled entries. */
    method CheckActive(ghost csr: CsrFile, first: nat, last: nat, access: Access, priv: PrivMode) returns (ok: bool)
      requires cache.Length == active.Length == 64 && nActive <= 64 && Fits(cache[..], active[..nActive], c, csr)
      ensures ok == CheckFrom(c, csr, 0, first, last, access, priv)
    {
      hide RegionOf, Permits, CfgByte, CheckFrom, ActiveFrom;
      ghost var act := active[..nActive];
      ActiveEntries(c, csr, 0);
      CheckOverActive(c, csr, 0, first, last, access, priv);
      assert act[0..] == act;
      for k := 0 to nActive
        invariant CheckOver(c, csr, act[k..], first, last, access, priv)
          == CheckFrom(c, csr, 0, first, last, access, priv)
      {
        assert act[k..][0] == act[k] == active[k] && act[k..][1..] == act[k + 1..];
        var e := cache[active[k]];
        assert DecodedIs(e, c, csr, act[k]);
        var hitFirst := e.lo <= first < e.hi;
        var hitLast := e.lo <= last < e.hi;
        if !hitFirst && !hitLast {
          continue;
        }
        if hitFirst != hitLast {
          return false;
        }
        return Permits(e.cfg, access, priv);
      }
      return priv == M;
    }

    /** The check made from the cache is the check made from the CSRs, whatever was written since the
        cache was built and whichever hart it was built for. */
    method Check(regs: RegisterFile, paddr: nat, size: nat, access: Access, priv: PrivMode) returns (ok: bool)
      requires regs.Valid() && CacheOk()
      modifies this`nActive, this`cacheBuilt, this`cacheRegs, cache, active
      ensures CacheOk()
      ensures ok == Pmp.Check(c, regs.csr[..], paddr, size, access, priv)
    {
      hide Fits, CheckFrom;
      var last := paddr + if size > 0 then size - 1 else 0;
      if c.count == 0 {
        return true;
      }
      if cacheBuilt != Some(cacheGen) || cacheRegs != regs {
        RebuildCache(regs);
      }
      ok := CheckActive(regs.csr[..], paddr, last, access, priv);
    }

    /** The loop of page_permits, likewise. */
    method PageActive(ghost csr: CsrFile, page: nat, access: Access, priv: PrivMode) returns (ok: bool)
      requires cache.Length == active.Length == 64 && nActive <= 64 && Fits(cache[..], active[..nActive], c, csr)
      ensures ok == PageFrom(c, csr, 0, page, access, priv)
    {
      hide RegionOf, Permits, CfgByte, PageFrom, ActiveFrom;
      ghost var act := active[..nActive];
      ActiveEntries(c, csr, 0);
      PageOverActive(c, csr, 0, page, access, priv);
      assert act[0..] == act;
      for k := 0 to nActive
        invariant PageOver(c, csr, act[k..], page, access, priv) == PageFrom(c, csr, 0, page, access, priv)
      {
        assert act[k..][0] == act[k] == active[k] && act[k..][1..] == act[k + 1..];
        var e := cache[active[k]];
        assert DecodedIs(e, c, csr, act[k]);
        if e.hi <= page || e.lo >= page + 0x1000 {
          continue;
        }
        if e.lo <= page && e.hi >= page + 0x1000 {
          return Permits(e.cfg, access, priv);
        }
        return false;
      }
      return priv == M;
    }

    method PagePermits(regs: RegisterFile, page: nat, access: Access, priv: PrivMode) returns (ok: bool)
      requires regs.Valid() && CacheOk()
      modifies this`nActive, this`cacheBuilt, this`cacheRegs, cache, active
      ensures CacheOk()
      ensures ok == Pmp.PagePermits(c, regs.csr[..], page, access, priv)
    {
      hide Fits, PageFrom;
      if c.count == 0 {
        return true;
      }
      if cacheBuilt != Some(cacheGen) || cacheRegs != regs {
        RebuildCache(regs);
      }
      ok := PageActive(regs.csr[..], page, access, priv);
    }

    method WriteCfg(regs: RegisterFile, csrNo: nat, value: nat)
      requires regs.Valid() && CacheOk() && IsCfg(csrNo)
      modifies this`cacheGen, regs, regs.csr, regs.events
      ensures CacheOk()
      ensures regs.csr[..] == PmpLocks.WriteCfg(c, old(regs.csr[..]), csrNo, value)
    {
      cacheGen := cacheGen + 1;
      if (csrNo - PMPCFG0) % 2 != 0 {
        return;
      }
      var out := ComposeWord(c, regs.csr[..], csrNo, value);
      regs.WriteCsr(csrNo, out);
    }

    method WriteAddr(regs: RegisterFile, csrNo: nat, value: nat)
      requires regs.Valid() && CacheOk() && IsAddr(csrNo)
      modifies this`cacheGen, regs, regs.csr, regs.events
      ensures CacheOk()
      ensures regs.csr[..] == PmpLocks.WriteAddr(c, old(regs.csr[..]), csrNo, value)
    {
      cacheGen := cacheGen + 1;
      if AddrFrozen(c, regs.csr[..], csrNo - PMPADDR0) {
        return;
      }
      regs.WriteCsr(csrNo, value % Pow2(AddrBits(c)));
    }

    /** Any other CSR write, by any hart, leaves the cache good. */
    method WriteOtherCsr(regs: RegisterFile, addr: nat, value: nat)
      requires regs.Valid() && CacheOk() && addr < CSRS && !IsPmpCsr(addr)
      requires cacheRegs != null && cacheRegs != regs ==> cacheRegs.csr != regs.csr
      modifies regs, regs.csr, regs.events
      ensures CacheOk()
      ensures regs.csr[..] == old(regs.csr[..])[addr := value]
    {
      hide RegionOf, CfgByte;
      ghost var before: CsrFile := regs.csr[..];
      regs.WriteCsr(addr, value);
      ghost var after: CsrFile := regs.csr[..];
      ActiveReadsPmpCsrs(c, before, after, 0);
      forall e: nat | e < c.count
        ensures RegionOf(c, before, e) == RegionOf(c, after, e) && CfgByte(before, e) == CfgByte(after, e)
      {
        DecodeReadsPmpCsrs(c, before, after, e);
      }
    }
  }
}
