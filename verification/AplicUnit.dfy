/** The APLIC as the object its register map and its devices reach, over the S-level IMSIC files. */
module AplicUnit {
  import opened Words
  import opened Bits
  import opened BitFlags
  import P = Pmp
  import opened Aplic
  import Imsic

  class Controller {
    const files: seq<Imsic.InterruptFile>
    var domaincfg: nat
    const sourcecfg: array<nat>
    const target: array<nat>
    var ip: nat
    var ie: nat
    var idc: seq<Idc>
    var events: nat        // this device's bumps of the event counter

    ghost predicate Shape() {
      sourcecfg.Length == NUM_SOURCES && target.Length == NUM_SOURCES && sourcecfg != target
    }

    ghost function View(): Domain
      requires Shape()
      reads this, sourcecfg, target
    {
      Domain(domaincfg, sourcecfg[..], target[..], ip, ie, idc)
    }

    /** The files are good, and no two share anything -- with each other or with the domain. */
    ghost predicate FilesValid()
      requires Shape()
      reads files, set f <- files :: f.eip, set f <- files :: f.eie
    {
      && (forall i | 0 <= i < |files| :: files[i].Valid())
      && (forall i, j | 0 <= i < j < |files| ::
            files[i] != files[j] && {files[i].eip, files[i].eie} !! {files[j].eip, files[j].eie})
      && (forall i | 0 <= i < |files| :: {files[i].eip, files[i].eie} !! {sourcecfg, target})
    }

    constructor (files: seq<Imsic.InterruptFile>)
      ensures Shape() && this.files == files && fresh(sourcecfg) && fresh(target)
      ensures View() == Domain(0, seq(NUM_SOURCES, _ => 0), seq(NUM_SOURCES, _ => 0), 0, 0, [])
    {
      this.files := files;
      sourcecfg := new nat[NUM_SOURCES](_ => 0);
      target := new nat[NUM_SOURCES](_ => 0);
      domaincfg, ip, ie, idc, events := 0, 0, 0, [], 0;
    }

    /** topi: a scan with the best so far. Ties stay with the lower source. */
    method TopiNow(hart: nat) returns (t: nat)
      requires Shape()
      ensures t == Topi(View(), hart)
    {
      hide Bit, Has;
      ghost var d := View();
      if hart >= |idc| {
        NoneForNoHart(d, hart, NUM_SOURCES);
        return 0;
      }
      var best, bestPrio := 0, 0;
      for n := 1 to NUM_SOURCES
        invariant best == BestBelow(d, hart, n) && best < NUM_SOURCES && (best != 0 ==> bestPrio == Prio(d, best))
      {
        if !Bit(ip, n) || !Bit(ie, n) || sourcecfg[n] == 0 || target[n] / 0x4_0000 != hart {
          continue;
        }
        var prio := if target[n] % 256 != 0 then target[n] % 256 else 1;
        var threshold := idc[hart].threshold % 256;
        if threshold != 0 && prio >= threshold {
          continue;
        }
        if best == 0 || prio < bestPrio {
          best, bestPrio := n, prio;
        }
      }
      return if best != 0 then best * 0x1_0000 + bestPrio else 0;
    }

    method Line(hart: nat) returns (on: bool)
      requires Shape()
      ensures on == DirectLine(View(), hart)
    {
      if Has(domaincfg, DOMAINCFG_DM) || !Has(domaincfg, DOMAINCFG_IE) || hart >= |idc| || idc[hart].delivery % 2 == 0 {
        return false;
      }
      var t := TopiNow(hart);
      return t != 0 || idc[hart].force % 2 == 1;
    }

    method Grow()
      modifies this`idc
      ensures Shape() ==> View() == Grown(old(View()), |files|)
      ensures |idc| >= |files|
    {
      if |idc| < |files| {
        idc := idc + seq(|files| - |idc|, _ => Idc(0, 0, 0));
      }
    }

    /** read32 of hart `h`'s claimi, which claims. */
    method ReadClaimi(h: nat) returns (t: nat)
      requires Shape() && h < |files|
      modifies this`ip, this`idc, this`events
      ensures t == Topi(Grown(old(View()), |files|), h)
      ensures View() == ClaimIn(Grown(old(View()), |files|), h) && events == old(events) + 1
    {
      hide Waits, BestBelow, Prio;
      Grow();
      ghost var d := View();
      t := TopiNow(h);
      TopiParts(d, h);
      if t != 0 {
        ip := ClearBit(ip, t / 0x1_0000);
      } else {
        idc := idc[h := idc[h].(force := 0)];
      }
      events := events + 1;
    }

    /** A device's interrupt, or a write of setipnum. In direct mode the source is pending until claimed;
        else its identity goes pending in its hart's file, and no other file changes. */
    method AssertSource(n: nat)
      requires Shape() && FilesValid()
      modifies this`ip, this`events, files, set f <- files :: f.eip
      ensures FilesValid() && View() == AssertIn(old(View()), n)
      ensures events == old(events)
        + if 0 < n < NUM_SOURCES && old(sourcecfg[n]) != 0 && Direct(old(View())) then 1 else 0
      ensures forall i | 0 <= i < |files| :: files[i].View() == Reached(old(View()), n, i, old(files[i].View()))
    {
      hide Has, SetBit, Imsic.SetPendingIn, Imsic.TopOf;
      if n == 0 || n >= NUM_SOURCES {
        return;
      }
      if sourcecfg[n] == 0 {
        return;
      }
      if !Has(domaincfg, DOMAINCFG_DM) {
        ip := SetBit(ip, n);
        events := events + 1;
        return;
      }
      if !Has(domaincfg, DOMAINCFG_IE) {
        return;
      }
      var hart := target[n] / 0x4_0000;
      if hart < |files| {
        var file := files[hart];
        file.SetPending(target[n] % 0x800);
      }
    }

    method Write32(offset: nat, val: nat)
      requires Shape() && FilesValid()
      modifies this, sourcecfg, target, files, set f <- files :: f.eip
      ensures FilesValid() && View() == WriteIn(old(View()), |files|, offset, val)
      ensures events == old(events) + if Announces(old(View()), |files|, offset, val) then 1 else 0
      ensures !Decode(offset).SetIpNum? ==> forall i | 0 <= i < |files| :: files[i].View() == old(files[i].View())
    {
      hide WriteIn, Announces, AssertIn, Direct, Imsic.SetPendingIn, Imsic.TopOf, Imsic.Encoded;
      if offset == 0 || 4 <= offset < 4 + (NUM_SOURCES - 1) * 4 || 0x3004 <= offset < 0x3004 + (NUM_SOURCES - 1) * 4 {
        WriteConfig(offset, val);
        return;
      }
      if offset == 0x1CDC || offset == 0x2000 {
        SetIpNumAsserts(View(), |files|, offset, val);
        AssertSource(val);
        return;
      }
      if offset >= IDC_BASE {
        WriteIdc((offset - IDC_BASE) / 32, (offset - IDC_BASE) % 32, val);
        return;
      }
      WriteBits(offset, val);
    }

    /** The configuration registers. */
    method WriteConfig(offset: nat, val: nat)
      requires Shape() && Configures(offset)
      modifies this`domaincfg, sourcecfg, target
      ensures View() == WriteIn(old(View()), |files|, offset, val) && !Announces(old(View()), |files|, offset, val)
    {
      hide CfgWritable, TargetWritable;
      if offset == 0 {
        domaincfg := CfgWritable(val);
      } else if 4 <= offset < 4 + (NUM_SOURCES - 1) * 4 {
        sourcecfg[1 + (offset - 4) / 4] := val % 8;
      } else {
        target[1 + (offset - 0x3004) / 4] := TargetWritable(val);
      }
    }

    method WriteIdc(h: nat, r: nat, val: nat)
      requires Shape() && r < 32
      modifies this`idc, this`events
      ensures View() == WriteIn(old(View()), |files|, IDC_BASE + h * 32 + r, val)
      ensures events == old(events) + if Announces(old(View()), |files|, IDC_BASE + h * 32 + r, val) then 1 else 0
    {
      assert Decode(IDC_BASE + h * 32 + r) == IdcReg(h, r);
      if h >= |files| {
        return;
      }
      Grow();
      if r == 0 {
        idc := idc[h := idc[h].(delivery := val % 2)];
      } else if r == 4 {
        idc := idc[h := idc[h].(force := val % 2)];
      } else if r == 8 {
        idc := idc[h := idc[h].(threshold := val % 256)];
      }
      events := events + 1;
    }

    /** The pending and enable bits. */
    method WriteBits(offset: nat, val: nat)
      requires Shape() && 0 < offset < IDC_BASE && !Configures(offset) && !Decode(offset).SetIpNum?
      modifies this`ip, this`ie, this`events
      ensures View() == WriteIn(old(View()), |files|, offset, val)
      ensures events == old(events) + if Announces(old(View()), |files|, offset, val) then 1 else 0
    {
      hide SetBit, ClearBit, Or, AndNot;
      var one := 0 < val < NUM_SOURCES;
      if offset == 0x1C00 {
        ip := Or(ip, val / 2 * 2);
      } else if offset == 0x1D00 {
        ip := AndNot(ip, val);
      } else if offset == 0x1DDC {
        ip := if one then ClearBit(ip, val) else ip;
      } else if offset == 0x1E00 {
        ie := Or(ie, val / 2 * 2);
      } else if offset == 0x1EDC {
        ie := if one then SetBit(ie, val) else ie;
      } else if offset == 0x1F00 {
        ie := AndNot(ie, val);
      } else if offset == 0x1FDC {
        ie := if one then ClearBit(ie, val) else ie;
      } else {
        return;
      }
      events := events + 1;
    }
  }

  /** Whether a source's interrupt goes out as a message. */
  predicate Sends(d: Domain, n: nat) {
    0 < n < NUM_SOURCES && d.source[n] != 0 && !Direct(d) && Has(d.cfg, DOMAINCFG_IE)
  }

  /** Hart `i`'s file after it. */
  function Reached(d: Domain, n: nat, i: nat, f: Imsic.File): Imsic.File {
    if Sends(d, n) && d.target[n] / 0x4_0000 == i then Imsic.SetPendingIn(f, d.target[n] % 0x800) else f
  }

  /** A source's message, sent with domaincfg's DM and IE (bits 2 and 8) set, makes one identity pending in one file:
      bits 10 to 0 of its target, at the hart of bits 18 and up. */
  lemma ReachedExactly(d: Domain, n: nat, i: nat, f: Imsic.File, id: nat)
    requires id < 2048
    ensures Bit(Reached(d, n, i, f).eip[id / 32], id % 32) <==>
      || Bit(f.eip[id / 32], id % 32)
      || (1 <= n <= 31 && d.source[n] != 0 && Bit(d.cfg, 2) && Bit(d.cfg, 8)
          && d.target[n] / 0x4_0000 == i && id == d.target[n] % 0x800 && id != 0)
    ensures Reached(d, n, i, f).eie == f.eie
  {
    hide Bit, SetBit, Has, P.Pow2;
    ModeFlags(d.cfg);
    if 0 < n < NUM_SOURCES {
      var to := d.target[n] % 0x800;
      if to / 32 == id / 32 {
        assert to == to / 32 * 32 + to % 32 && id == id / 32 * 32 + id % 32;
        BitOfSet(f.eip[to / 32], to % 32, id % 32);
      }
    }
  }

  lemma ModeFlags(cfg: nat)
    ensures Bit(cfg, 2) == Has(cfg, 4) && Bit(cfg, 8) == Has(cfg, 0x100)
  {
    hide Bit, Has;
    Powers();
    BitIsHas(cfg, 2, 4);
    BitIsHas(cfg, 8, 0x100);
  }

  lemma SetIpNumAsserts(d: Domain, harts: nat, offset: nat, n: nat)
    requires Decode(offset).SetIpNum?
    ensures WriteIn(d, harts, offset, n) == AssertIn(d, n)
    ensures Announces(d, harts, offset, n) <==> 0 < n < NUM_SOURCES && d.source[n] != 0 && Direct(d)
  {
  }

  lemma {:induction false} NoneForNoHart(d: Domain, hart: nat, n: nat)
    requires hart >= |d.idc| && n <= NUM_SOURCES
    ensures BestBelow(d, hart, n) == 0
  {
  }

  lemma TopiParts(d: Domain, hart: nat)
    ensures TopOf(d, hart) < NUM_SOURCES && Topi(d, hart) / 0x1_0000 == TopOf(d, hart)
    ensures Topi(d, hart) == 0 <==> TopOf(d, hart) == 0
  {
  }
}
