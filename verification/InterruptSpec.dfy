/** Which interrupt is taken, cause by cause: the bits of mip, the order of section 3.1.9 of the RISC-V
    Privileged Architecture 1.12 with the guest's causes below it, and the mode each interrupt is for. */
module InterruptSpec {
  import opened Words
  import opened Bits
  import opened BitFlags
  import opened Registers
  import opened Engine
  import opened EngineProofs
  import P = Pmp
  import I = Interrupts

  /** M-level external, software and timer are 11, 3 and 7; S-level 9, 1 and 5; SGEI is 12; the guest's
      10, 2 and 6. */
  const CAUSES: set<nat> := {1, 2, 3, 5, 6, 7, 9, 10, 11, 12}

  /** The causes that come before `b`. */
  function Above(b: nat): set<nat> {
    match b
    case 11 => {}
    case 3 => {11}
    case 7 => {11, 3}
    case 9 => {11, 3, 7}
    case 1 => {11, 3, 7, 9}
    case 5 => {11, 3, 7, 9, 1}
    case 12 => {11, 3, 7, 9, 1, 5}
    case 10 => {11, 3, 7, 9, 1, 5, 12}
    case 2 => {11, 3, 7, 9, 1, 5, 12, 10}
    case _ => {11, 3, 7, 9, 1, 5, 12, 10, 2}
  }

  ghost predicate ShareBit(a: nat, b: nat) {
    exists k: nat :: Bit(a, k) && Bit(b, k)
  }

  /** Bit `b` of mip, from the devices, mip's own bits (0x344), hvip (0x645), and the guest externals of hgeip
      (0xE12) -- those hgeie (0x607) enables, or the one hstatus (0x600) selects; Sstc's compare values count
      while menvcfg.STCE is set, and for the guest henvcfg.STCE too, against its own time. */
  ghost predicate Pends(i: I.Inputs, b: nat, now: nat) {
    var csr := i.regs.csr;
    match b
    case 11 => i.mFile
    case 3 => i.msip
    case 7 => i.mtimecmp <= now
    case 9 => Bit(csr[0x344], 9) || i.sFile || i.aplicLine
    case 1 => Bit(csr[0x344], 1)
    case 5 => Bit(csr[0x344], 5) || (Bit(csr[0x30A], 63) && csr[0x14D] <= now)
    case 12 => i.extH && ShareBit(csr[0xE12], csr[0x607])
    case 10 =>
      var vgein := csr[0x600] / 0x1000 % 64;
      i.extH && (Bit(csr[0x645], 10) || (vgein != 0 && Bit(csr[0xE12], vgein)))
    case 2 => i.extH && Bit(csr[0x645], 2)
    case 6 =>
      && i.extH
      && (Bit(csr[0x645], 6)
          || (Bit(csr[0x30A], 63) && Bit(csr[0x60A], 63) && csr[0x24D] <= (now + csr[0x605]) % TWO64))
    case _ => false
  }

  /** And enabled in mie. */
  ghost predicate Calls(i: I.Inputs, b: nat, now: nat) {
    Pends(i, b, now) && Bit(i.regs.csr[0x304], b)
  }

  /** The mode an interrupt is for: M, unless mideleg says HS, unless hideleg says the guest. */
  datatype Level = ForM | ForHS | ForVS

  function LevelOf(i: I.Inputs, b: nat): Level {
    if !Bit(i.regs.csr[0x303], b) then ForM
    else if i.extH && Bit(i.regs.csr[0x603], b) then ForVS
    else ForHS
  }

  /** An interrupt for M is taken below M, and in M while mstatus.MIE is set; one for HS below HS -- in U and
      by any guest -- and in HS while mstatus.SIE is; a guest's only while it runs, in VU, and in VS while
      vsstatus.SIE is set. */
  predicate MayInterrupt(i: I.Inputs, b: nat) {
    var r := i.regs;
    match LevelOf(i, b)
    case ForM => r.priv == M ==> Bit(r.csr[0x300], 3)
    case ForHS => r.priv != M && (r.priv == U || r.virt || Bit(r.csr[0x300], 1))
    case ForVS => r.virt && (r.priv == S ==> Bit(r.csr[0x200], 1))
  }

  // ---- The decision is that ----------------------------------------------------------------------

  lemma {:induction false} OverlapIsShared(a: nat, b: nat)
    ensures I.Overlap(a, b) <==> ShareBit(a, b)
  {
    if a == 0 || b == 0 {
      forall k: nat
        ensures !(Bit(a, k) && Bit(b, k))
      {
        BitOfZero(k);
      }
    } else {
      OverlapIsShared(a / 2, b / 2);
      ShareUp(a, b);
    }
  }

  lemma ShareUp(a: nat, b: nat)
    ensures ShareBit(a, b) <==> (a % 2 == 1 && b % 2 == 1) || ShareBit(a / 2, b / 2)
  {
    if ShareBit(a, b) {
      var k: nat :| Bit(a, k) && Bit(b, k);
      if k > 0 {
        var down: nat := k - 1;
        assert Bit(a / 2, down) && Bit(b / 2, down);
      }
    }
    if a % 2 == 1 && b % 2 == 1 {
      assert Bit(a, 0) && Bit(b, 0);
    } else if ShareBit(a / 2, b / 2) {
      var k: nat :| Bit(a / 2, k) && Bit(b / 2, k);
      var up := k + 1;
      assert Bit(a, up) && Bit(b, up);
    }
  }

  lemma MipFlags(v: nat)
    ensures Has(v, 0x2) == Bit(v, 1) && Has(v, 0x4) == Bit(v, 2) && Has(v, 0x8) == Bit(v, 3)
    ensures Has(v, 0x20) == Bit(v, 5) && Has(v, 0x40) == Bit(v, 6)
    ensures Has(v, 0x200) == Bit(v, 9) && Has(v, 0x400) == Bit(v, 10)
    ensures Has(v, 0x8000_0000_0000_0000) == Bit(v, 63)
  {
    hide Bit, Has, P.Pow2;
    Powers();
    assert P.Pow2(0) == 1 by {
      Pow2Zero();
    }
    ByteFlags(v, 0, 1);
    ByteFlags(v, 8, 0x100);
    ByteFlags(v, 56, 0x100_0000_0000_0000);
  }

  lemma Pow2Zero()
    ensures P.Pow2(0) == 1
  {
  }

  lemma PendsIsPending(i: I.Inputs, b: nat, now: nat)
    ensures I.Pending(i, b, now) == Pends(i, b, now)
  {
    hide Bit, Has, I.Overlap, ShareBit;
    if b in {1, 5, 9} {
      MipFlags(i.regs.csr[0x344]);
    } else if b in {2, 6, 10} {
      MipFlags(i.regs.csr[0x645]);
    }
    if b in {5, 6} {
      MipFlags(i.regs.csr[0x30A]);
      MipFlags(i.regs.csr[0x60A]);
    }
    OverlapIsShared(i.regs.csr[0xE12], i.regs.csr[0x607]);
  }

  lemma CallsIsPendingEnabled(i: I.Inputs, b: nat, now: nat)
    ensures I.PendingEnabled(i, b, now) == Calls(i, b, now)
  {
    hide Pends, I.Pending;
    PendsIsPending(i, b, now);
  }

  lemma MayIsDelivered(i: I.Inputs, b: nat)
    ensures I.Delivered(i, b) == MayInterrupt(i, b)
  {
    hide Bit, Has;
    MipFlags(i.regs.csr[0x300]);
    MipFlags(i.regs.csr[0x200]);
  }

  /** The order the code goes by. */
  lemma Order()
    ensures |I.PRIORITY| == 10
    ensures I.PRIORITY[0] == 11 && I.PRIORITY[1] == 3 && I.PRIORITY[2] == 7 && I.PRIORITY[3] == 9 && I.PRIORITY[4] == 1
    ensures I.PRIORITY[5] == 5 && I.PRIORITY[6] == 12 && I.PRIORITY[7] == 10 && I.PRIORITY[8] == 2 && I.PRIORITY[9] == 6
  {
  }

  /** Of two causes the one that stands first is above the other. */
  lemma EarlierIsAbove(p: nat, q: nat)
    requires p < 10 && q < 10
    ensures |I.PRIORITY| == 10 && I.PRIORITY[q] in CAUSES && (I.PRIORITY[p] in Above(I.PRIORITY[q]) <==> p < q)
  {
    hide I.PRIORITY;
    Order();
  }

  lemma PlaceOf(b: nat) returns (q: nat)
    requires b in CAUSES
    ensures q < 10 == |I.PRIORITY| && I.PRIORITY[q] == b
  {
    Order();
    q := if b == 11 then 0 else if b == 3 then 1 else if b == 7 then 2 else if b == 9 then 3 else if b == 1 then 4
      else if b == 5 then 5 else if b == 12 then 6 else if b == 10 then 7 else if b == 2 then 8 else 9;
  }

  lemma FirstIsUppermost(i: I.Inputs, now: nat, b: nat)
    ensures I.FirstPending(i, now, 0) == Some(b) <==>
      b in CAUSES && I.PendingEnabled(i, b, now) && forall c <- Above(b) :: !I.PendingEnabled(i, c, now)
  {
    hide I.PendingEnabled, I.FirstPending, I.PRIORITY, Above, CAUSES;
    var first := I.FirstPending(i, now, 0);
    if first == Some(b) {
      var p := I.FirstIsFirst(i, now, 0);
      Order();
      EarlierIsAbove(p, p);
      forall c | c in Above(b)
        ensures !I.PendingEnabled(i, c, now)
      {
        AboveIsCause(b, c);
        var q := PlaceOf(c);
        EarlierIsAbove(q, p);
      }
    } else if b in CAUSES && I.PendingEnabled(i, b, now) {
      var q := PlaceOf(b);
      assert first.Some?;
      var p := I.FirstIsFirst(i, now, 0);
      EarlierIsAbove(p, q);
    }
  }

  lemma AboveIsCause(b: nat, c: nat)
    requires c in Above(b)
    ensures c in CAUSES
  {
  }

  /** Interrupt `b` is to be taken: it is one of the causes, pending and enabled, the hart's mode lets it
      through, and no cause above it is pending and enabled -- let through or not. */
  ghost predicate Due(i: I.Inputs, now: nat, b: nat) {
    b in CAUSES && Calls(i, b, now) && MayInterrupt(i, b) && forall c <- Above(b) :: !Calls(i, c, now)
  }

  lemma TakenExactly(i: I.Inputs, now: nat, b: nat)
    ensures I.Taken(i, now) == Some(b) <==> Due(i, now, b)
  {
    hide I.PendingEnabled, Calls, I.Delivered, MayInterrupt, I.FirstPending;
    forall c: nat
      ensures I.PendingEnabled(i, c, now) == Calls(i, c, now)
    {
      CallsIsPendingEnabled(i, c, now);
    }
    MayIsDelivered(i, b);
    FirstIsUppermost(i, now, b);
  }

  /** A waiting hart wakes exactly if some cause is pending and enabled, let through or not. */
  lemma WakesExactly(i: I.Inputs, now: nat)
    ensures I.Wake(i, now) <==> exists b <- CAUSES :: Calls(i, b, now)
  {
    hide I.PendingEnabled, Calls, I.FirstPending, CAUSES, I.PRIORITY;
    forall c: nat
      ensures I.PendingEnabled(i, c, now) == Calls(i, c, now)
    {
      CallsIsPendingEnabled(i, c, now);
    }
    if I.Wake(i, now) {
      FirstIsUppermost(i, now, I.FirstPending(i, now, 0).value);
    } else if exists b <- CAUSES :: Calls(i, b, now) {
      var b :| b in CAUSES && Calls(i, b, now);
      var q := PlaceOf(b);
      assert I.PRIORITY[q] in I.PRIORITY[0..];
    }
  }

  /** The code looks no further than the uppermost cause that is pending and enabled: one the hart's mode would
      let through is passed over exactly if that one is not let through. */
  lemma PassedOverExactly(i: I.Inputs, now: nat)
    ensures I.Taken(i, now).None? && (exists b <- CAUSES :: Calls(i, b, now) && MayInterrupt(i, b)) <==>
      exists b, t | b in CAUSES && t in CAUSES ::
        Calls(i, b, now) && MayInterrupt(i, b) && Calls(i, t, now) && !MayInterrupt(i, t)
        && forall c <- Above(t) :: !Calls(i, c, now)
  {
    hide Calls, MayInterrupt, I.FirstPending, CAUSES, Above, I.PendingEnabled, I.Delivered;
    WakesExactly(i, now);
    forall c: nat
      ensures I.PendingEnabled(i, c, now) == Calls(i, c, now) && I.Delivered(i, c) == MayInterrupt(i, c)
    {
      CallsIsPendingEnabled(i, c, now);
      MayIsDelivered(i, c);
    }
    if I.Wake(i, now) {
      FirstIsUppermost(i, now, I.FirstPending(i, now, 0).value);
      if b, t :| b in CAUSES && t in CAUSES && Calls(i, b, now) && MayInterrupt(i, b) && Calls(i, t, now)
                 && !MayInterrupt(i, t) && forall c <- Above(t) :: !Calls(i, c, now) {
        FirstIsUppermost(i, now, t);
      }
    }
  }

  /** As in M-mode, interrupts on, with an S-level external interrupt that is delegated and a software one
      that is not: section 3.1.9 has the second taken, it alone being for M. */
  function PassedOver(): I.Inputs {
    var csr: CsrFile := seq(CSRS, k => if k == 0x300 then 8 else if k == 0x303 then 512
                                       else if k == 0x304 || k == 0x344 then 514 else 0);
    I.Inputs(Regs(csr, M, false, 0, 0), false, MAX64, false, false, false, false)
  }

  lemma PassedOverIsSo()
    ensures I.Taken(PassedOver(), 0).None? && Calls(PassedOver(), 1, 0) && MayInterrupt(PassedOver(), 1)
  {
    hide Bit, I.FirstPending;
    var i := PassedOver();
    MipFlags(514);
    MipFlags(512);
    MipFlags(8);
    BitOfZero(63);
    BitOfZero(11);
    forall b: nat
      ensures !Due(i, 0, b)
    {
      assert Calls(i, 9, 0) && !MayInterrupt(i, 9);
      BitOfZero(b);
    }
    if I.Taken(i, 0).Some? {
      TakenExactly(i, 0, I.Taken(i, 0).value);
    }
  }

  /** A step enters the trap of the interrupt that is due, and else executes; whether it looked, or went by a
      check made before. */
  lemma StepTakesExactly<E(!new)>(isa: Isa<E>, s: State<E>)
    requires EventContract(isa) && CheckIsGood(s) && !s.m.halted
    ensures forall b: nat | Due(s.m.inputs, s.m.clock.mtime, b) ::
      Step(isa, s).m == AfterExecute(s.m, TakeInterrupt(isa, BeginStep(s.m), b))
    ensures (forall b: nat :: !Due(s.m.inputs, s.m.clock.mtime, b)) ==>
      Step(isa, s).m == AfterExecute(s.m, Execute(isa, BeginStep(s.m)))
  {
    hide I.Taken, Due, AfterExecute, TakeInterrupt, Execute, Step, CheckIsGood, EventContract;
    SkipOneStep(isa, s);
    var b := I.Taken(s.m.inputs, s.m.clock.mtime);
    forall c: nat
      ensures Due(s.m.inputs, s.m.clock.mtime, c) <==> b == Some(c)
    {
      TakenExactly(s.m.inputs, s.m.clock.mtime, c);
    }
  }
}
