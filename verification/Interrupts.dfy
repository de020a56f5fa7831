/** When an interrupt is pending, which one is taken, and the deadline that lets a check be skipped:
    compute_mip, check_and_take_interrupt, wake_for_interrupt and the compare values that
    interrupt_may_be_due and wait_slot read. */
module Interrupts {
  import opened Words
  import opened Bits
  import opened Registers

  /** Everything an interrupt decision reads except mtime. */
  datatype Inputs = Inputs(
    regs: Regs,
    extH: bool,        // the H extension is enabled
    mtimecmp: nat,     // this hart's CLINT compare value
    msip: bool,        // and its software-interrupt bit
    mFile: bool,       // the M-level IMSIC file has something to deliver
    sFile: bool,       // and the S-level one
    aplicLine: bool)   // the APLIC's direct-mode wire

  const STCE: nat := 0x8000_0000_0000_0000
  const MIE_BIT: nat := 8
  const SIE_BIT: nat := 2

  function Overlap(a: nat, b: nat): bool {
    a != 0 && b != 0 && ((a % 2 == 1 && b % 2 == 1) || Overlap(a / 2, b / 2))
  }

  predicate SstcPending(i: Inputs, now: nat)
  {
    Has(i.regs.csr[0x30A], STCE) && now >= i.regs.csr[STIMECMP]
  }

  /** The guest's compare value is against mtime plus htimedelta, which wraps. */
  predicate GuestSstcPending(i: Inputs, now: nat)
  {
    && Has(i.regs.csr[0x30A], STCE) && Has(i.regs.csr[0x60A], STCE)
    && (now + i.regs.csr[0x605]) % TWO64 >= i.regs.csr[0x24D]
  }

  /** The hart's own guest external interrupt, selected by hstatus.VGEIN. */
  predicate GuestExternal(i: Inputs)
  {
    var vgein := i.regs.csr[0x600] / 0x1000 % 64;
    vgein != 0 && Bit(i.regs.csr[0xE12], vgein)
  }

  /** Bit `b` of mip. */
  predicate Pending(i: Inputs, b: nat, now: nat)
  {
    var raw := i.regs.csr[0x344];
    var hvip := i.regs.csr[0x645];
    match b
    case 1 => Has(raw, 0x2)
    case 3 => i.msip
    case 5 => Has(raw, 0x20) || SstcPending(i, now)
    case 7 => now >= i.mtimecmp
    case 9 => Has(raw, 0x200) || i.sFile || i.aplicLine
    case 11 => i.mFile
    case 2 => i.extH && Has(hvip, 0x4)
    case 6 => i.extH && (Has(hvip, 0x40) || GuestSstcPending(i, now))
    case 10 => i.extH && (Has(hvip, 0x400) || GuestExternal(i))
    case 12 => i.extH && Overlap(i.regs.csr[0xE12], i.regs.csr[0x607])
    case _ => false
  }

  predicate PendingEnabled(i: Inputs, b: nat, now: nat)
  {
    Pending(i, b, now) && Bit(i.regs.csr[0x304], b)
  }

  /** Highest first: MEI, MSI, MTI, SEI, SSI, STI, SGEI, VSEI, VSSI, VSTI. */
  const PRIORITY: seq<nat> := [11, 3, 7, 9, 1, 5, 12, 10, 2, 6]

  function FirstPending(i: Inputs, now: nat, k: nat): (b: Option<nat>)
    requires k <= |PRIORITY|
    ensures b.Some? ==> b.value in PRIORITY[k..] && PendingEnabled(i, b.value, now)
    ensures b.None? ==> forall c <- PRIORITY[k..] :: !PendingEnabled(i, c, now)
    decreases |PRIORITY| - k
  {
    if k == |PRIORITY| then None
    else if PendingEnabled(i, PRIORITY[k], now) then Some(PRIORITY[k])
    else FirstPending(i, now, k + 1)
  }

  /** Whether interrupt `b`, pending and enabled in mie, is delivered in the hart's present mode. */
  predicate Delivered(i: Inputs, b: nat)
  {
    var r := i.regs;
    var toS := Bit(r.csr[0x303], b);
    if i.extH && toS && Bit(r.csr[0x603], b) then
      r.virt && !(r.priv == S && !Has(r.csr[0x200], SIE_BIT))
    else if !toS then
      !(r.priv == M && !Has(r.csr[MSTATUS], MIE_BIT))
    else
      r.priv != M && !(!r.virt && r.priv == S && !Has(r.csr[MSTATUS], SIE_BIT))
  }

  /** The interrupt a check made at mtime `now` takes: only the highest-priority one is considered. */
  function Taken(i: Inputs, now: nat): Option<nat>
  {
    var b := FirstPending(i, now, 0);
    if b.Some? && Delivered(i, b.value) then b else None
  }

  /** A waiting hart wakes for anything pending and enabled, whatever the global enables say. */
  predicate Wake(i: Inputs, now: nat)
  {
    FirstPending(i, now, 0).Some?
  }

  function Consider(next: nat, at: nat, now: nat): nat {
    if at > now && at < next then at else next
  }

  /** The next mtime at which a check could come out differently. */
  function Deadline(i: Inputs, now: nat): (d: nat)
    ensures d <= MAX64
  {
    var a := Consider(MAX64, i.mtimecmp, now);
    var b := Consider(a, i.regs.csr[STIMECMP], now);
    if i.regs.csr[0x605] == 0 then Consider(b, i.regs.csr[0x24D], now)
    else Consider(b, (now + 1) % TWO64, now)
  }

  /** wait_slot's version of the same bound. */
  function WaitUntil(i: Inputs, now: nat): (until: nat)
    ensures until <= MAX64
  {
    var a := Consider(MAX64, i.mtimecmp, now);
    var b := Consider(a, i.regs.csr[STIMECMP], now);
    if i.regs.csr[0x605] == 0 then Consider(b, i.regs.csr[0x24D], now)
    else (now + 1) % TWO64
  }

  // ---- What the deadline promises ------------------------------------------------

  lemma PendingUntilDeadline(i: Inputs, b: nat, now: nat, t: nat)
    requires now <= t < Deadline(i, now)
    ensures Pending(i, b, t) == Pending(i, b, now)
  {
    assert t < MAX64;
    if i.regs.csr[0x605] == 0 {
      assert (now >= i.mtimecmp) == (t >= i.mtimecmp);
      assert (now >= i.regs.csr[STIMECMP]) == (t >= i.regs.csr[STIMECMP]);
      assert (now >= i.regs.csr[0x24D]) == (t >= i.regs.csr[0x24D]);
      assert t % TWO64 == t && now % TWO64 == now;
    } else {
      assert (now + 1) % TWO64 == now + 1;
      assert t == now;
    }
  }

  /** The first pending interrupt depends only on which ones are pending and enabled. */
  lemma {:induction false} FirstPendingSame(a: Inputs, s: nat, b: Inputs, t: nat, k: nat)
    requires k <= |PRIORITY|
    requires forall c <- PRIORITY :: PendingEnabled(a, c, s) == PendingEnabled(b, c, t)
    ensures FirstPending(a, s, k) == FirstPending(b, t, k)
    decreases |PRIORITY| - k
  {
    if k < |PRIORITY| {
      FirstPendingSame(a, s, b, t, k + 1);
    }
  }

  lemma BoundsUntilDeadline(i: Inputs, now: nat, t: nat)
    requires now <= t < Deadline(i, now)
    ensures Deadline(i, t) == Deadline(i, now)
    ensures WaitUntil(i, t) == WaitUntil(i, now)
  {
    if i.regs.csr[0x605] != 0 {
      assert (now + 1) % TWO64 == now + 1;
      assert t == now;
    }
  }

  lemma SameDecision(a: Inputs, s: nat, b: Inputs, t: nat)
    requires forall c: nat :: PendingEnabled(a, c, s) == PendingEnabled(b, c, t)
    requires forall c: nat :: Delivered(a, c) == Delivered(b, c)
    ensures Taken(a, s) == Taken(b, t) && Wake(a, s) == Wake(b, t)
  {
    FirstPendingSame(a, s, b, t, 0);
  }

  /** From a check at `now` until its deadline every check gives the same answer, a waiting hart sees
      the same answer, and both deadlines recompute to themselves -- with htimedelta in play too. */
  lemma SameUntilDeadline(i: Inputs, now: nat, t: nat)
    requires now <= t < Deadline(i, now)
    ensures Taken(i, t) == Taken(i, now)
    ensures Wake(i, t) == Wake(i, now)
    ensures Deadline(i, t) == Deadline(i, now)
    ensures WaitUntil(i, t) == WaitUntil(i, now)
  {
    BoundsUntilDeadline(i, now, t);
    forall c: nat
      ensures PendingEnabled(i, c, t) == PendingEnabled(i, c, now)
    {
      PendingUntilDeadline(i, c, now, t);
    }
    SameDecision(i, t, i, now);
  }

  /** The deadline is the nearest comparison that can come out differently, and no nearer: the next tick
      while htimedelta is in play, else the least compare value ahead, or the last value mtime has -- which
      is its own deadline, and stands for none. */
  lemma DeadlineIsNearest(i: Inputs, now: nat)
    requires now <= MAX64
    ensures var d, compares := Deadline(i, now), {i.mtimecmp, i.regs.csr[STIMECMP], i.regs.csr[0x24D]};
      && (now < MAX64 ==> now < d <= MAX64) && (now == MAX64 ==> d == MAX64)
      && (i.regs.csr[0x605] != 0 && now < MAX64 ==> d == now + 1)
      && (i.regs.csr[0x605] == 0 ==>
            (d == MAX64 || d in compares) && forall c <- compares :: now < c <= MAX64 ==> d <= c)
  {
  }

  /** wait_slot's bound is interrupt_may_be_due's exactly but for one case: with htimedelta in play at the
      last value of mtime, the next tick is at 0. The bound is then 0, and has been reached; the deadline,
      which takes only what is ahead, is the last value, and at 0 has not. */
  lemma WaitUntilIsDeadline(i: Inputs, now: nat)
    requires now <= MAX64
    ensures WaitUntil(i, now) == Deadline(i, now) <==> !(now == MAX64 && i.regs.csr[0x605] != 0)
    ensures now == MAX64 && i.regs.csr[0x605] != 0 ==> WaitUntil(i, now) == 0 && Deadline(i, now) == MAX64
  {
  }

  /** With no htimedelta in play, what is not pending at the last value of mtime never is. */
  lemma NeverWakesBeforeLast(i: Inputs, u: nat)
    requires i.regs.csr[0x605] == 0 && u <= MAX64 && !Wake(i, MAX64)
    ensures !Wake(i, u)
  {
    var b := FirstPending(i, u, 0);
    if b.Some? {
      StaysPending(i, b.value, u);
    }
  }

  lemma StaysPending(i: Inputs, b: nat, u: nat)
    requires i.regs.csr[0x605] == 0 && u <= MAX64 && PendingEnabled(i, b, u)
    ensures PendingEnabled(i, b, MAX64)
  {
  }

  // ---- Looking back in time ------------------------------------------------------------------

  /** Where the first pending interrupt stands in the order. */
  lemma {:induction false} FirstIsFirst(i: Inputs, now: nat, k: nat) returns (p: nat)
    requires k <= |PRIORITY| && FirstPending(i, now, k).Some?
    ensures k <= p < |PRIORITY| && FirstPending(i, now, k) == Some(PRIORITY[p])
    ensures forall j | k <= j < p :: !PendingEnabled(i, PRIORITY[j], now)
    decreases |PRIORITY| - k
  {
    hide PendingEnabled, FirstPending;
    FirstOne(i, now, k);
    if PendingEnabled(i, PRIORITY[k], now) {
      p := k;
    } else {
      p := FirstIsFirst(i, now, k + 1);
    }
  }

  lemma FirstOne(i: Inputs, now: nat, k: nat)
    requires k <= |PRIORITY|
    ensures FirstPending(i, now, k) == if k == |PRIORITY| then None
      else if PendingEnabled(i, PRIORITY[k], now) then Some(PRIORITY[k]) else FirstPending(i, now, k + 1)
  {
    hide PendingEnabled;
  }

  /** Delivered, and one this machine can have pending. */
  predicate Deliverable(i: Inputs, b: nat) {
    Delivered(i, b) && (b in {2, 6, 10, 12} ==> i.extH)
  }

  /** A pending interrupt that is enabled but not deliverable hides those after it. Timer `m` hides none
      that is deliverable. */
  predicate HidesNothing(i: Inputs, m: nat) {
    Bit(i.regs.csr[0x304], m) && !Delivered(i, m) ==>
      forall p, q | 0 <= p < q < |PRIORITY| && PRIORITY[p] == m :: !Deliverable(i, PRIORITY[q])
  }

  /** No htimedelta is in play, and neither timer hides anything. */
  predicate Ordinary(i: Inputs) {
    (i.extH ==> i.regs.csr[0x605] == 0) && HidesNothing(i, 7) && HidesNothing(i, 5)
  }

  /** What a hart has unless M-mode delegates its own timer: with the hypervisor, the delegation bits that
      are fixed; and M-mode is never virtual. */
  predicate UsualDelegation(i: Inputs) {
    && !Bit(i.regs.csr[0x303], 7) && (i.regs.priv == M ==> !i.regs.virt)
    && (i.extH ==> (forall b | b in {2, 6, 10, 12} :: Bit(i.regs.csr[0x303], b)) && !Bit(i.regs.csr[0x603], 5))
  }

  lemma UsualIsOrdinary(i: Inputs)
    requires UsualDelegation(i) && (i.extH ==> i.regs.csr[0x605] == 0)
    ensures Ordinary(i)
  {
    hide Delivered;
    UsualHidesNothing(i, 7);
    UsualHidesNothing(i, 5);
  }

  lemma UsualHidesNothing(i: Inputs, m: nat)
    requires UsualDelegation(i) && m in {7, 5}
    ensures HidesNothing(i, m)
  {
    hide Bit, Has;
    if !Delivered(i, m) {
      forall p, q | 0 <= p < q < |PRIORITY| && PRIORITY[p] == m
        ensures !Deliverable(i, PRIORITY[q])
      {
        assert m == 5 ==> PRIORITY[q] in {2, 6, 10, 12};
      }
    }
  }

  lemma SameInputsOrdinary(a: Inputs, b: Inputs)
    requires SameInputs(a, b) && Ordinary(a)
    ensures Ordinary(b)
  {
    hide Bit, Delivered;
    assert StateCsr(0x605) && StateCsr(0x304);
    forall c: nat
      ensures Delivered(a, c) == Delivered(b, c)
    {
      PendingReadsOnlyEvents(a, b, c, 0);
    }
  }

  /** Only timers come with time: what becomes pending is one of three. */
  lemma OnlyTimersCome(i: Inputs, b: nat, u: nat, t: nat)
    requires u <= t <= MAX64 && (i.extH ==> i.regs.csr[0x605] == 0)
    ensures PendingEnabled(i, b, u) ==> PendingEnabled(i, b, t)
    ensures PendingEnabled(i, b, t) && !PendingEnabled(i, b, u) ==> b in {7, 5, 6}
  {
    hide Bit, Overlap, Has;
    assert u % TWO64 == u && t % TWO64 == t;
  }

  /** Then what would not be taken at `t` would not have been at any time before. */
  lemma NotTakenBefore(i: Inputs, u: nat, t: nat)
    requires Ordinary(i) && u <= t <= MAX64 && Taken(i, t).None?
    ensures Taken(i, u).None?
  {
    hide Delivered, Bit, PendingEnabled;
    if FirstPending(i, u, 0).Some? {
      var q := FirstIsFirst(i, u, 0);
      OnlyTimersCome(i, PRIORITY[q], u, t);
      assert FirstPending(i, t, 0).Some?;
      var p := FirstIsFirst(i, t, 0);
      OnlyTimersCome(i, PRIORITY[p], u, t);
      if p < q {
        FirstEnabled(i, PRIORITY[p], t);
        FirstEnabled(i, PRIORITY[q], u);
        SixIsLast(p, q);
      }
    }
  }

  lemma FirstEnabled(i: Inputs, b: nat, now: nat)
    requires PendingEnabled(i, b, now)
    ensures Bit(i.regs.csr[0x304], b) && (b in {2, 6, 10, 12} ==> i.extH)
  {
  }

  lemma SixIsLast(p: nat, q: nat)
    requires p < q < |PRIORITY|
    ensures PRIORITY[p] != 6
  {
  }

  // ---- Inputs where it fails ---------------------------------------------------------------------

  /** A hart in M-mode that takes timer interrupts, with its compare value at mtime's last value. */
  function LastTick(): Inputs {
    var csr: CsrFile := seq(CSRS, k => if k == MSTATUS then MIE_BIT else if k == 0x304 then 128 else 0);
    Inputs(Regs(csr, M, false, 0, 0), false, MAX64, false, false, false, false)
  }

  /** A deadline of MAX64 stands for none, but it is one: at the last value of mtime this hart takes its
      timer interrupt, and a tick before it does not. A run that applies no limit for such a deadline
      must not get there. */
  lemma LastValueIsADeadline()
    ensures Deadline(LastTick(), MAX64 - 1) == MAX64
    ensures Taken(LastTick(), MAX64 - 1) == None && Taken(LastTick(), MAX64) == Some(7)
  {
    hide Bit;
    var i := LastTick();
    BitOfZero(7);
    BitSeven();
    LastTickPending(MAX64 - 1);
    LastTickPending(MAX64);
    assert FirstPending(i, MAX64, 2) == Some(7);
    assert Delivered(i, 7);
  }

  lemma BitSeven()
    ensures Bit(128, 7)
  {
    assert Bit(128, 7) == Bit(8, 3);
  }

  lemma LastTickPending(now: nat)
    ensures forall b <- PRIORITY :: Pending(LastTick(), b, now) <==> b == 7 && now >= MAX64
  {
    hide Bit;
    BitOfZero(0);
  }

  // ---- What the event counter promises ---------------------------------------------

  /** The inputs two moments agree on when the event counter has not moved between them. */
  ghost predicate SameInputs(a: Inputs, b: Inputs)
  {
    SameEvents(a.regs, b.regs) && b == a.(regs := b.regs)
  }

  lemma PendingReadsOnlyEvents(a: Inputs, b: Inputs, k: nat, now: nat)
    requires SameInputs(a, b)
    ensures PendingEnabled(a, k, now) == PendingEnabled(b, k, now)
    ensures Delivered(a, k) == Delivered(b, k)
  {
  }

  /** No CSR on the exempt list is read by any interrupt decision, nor are the running counters. */
  lemma DecisionReadsOnlyEvents(a: Inputs, b: Inputs, now: nat)
    requires SameInputs(a, b)
    ensures Taken(a, now) == Taken(b, now) && Wake(a, now) == Wake(b, now)
    ensures Deadline(a, now) == Deadline(b, now) && WaitUntil(a, now) == WaitUntil(b, now)
  {
    forall c: nat
      ensures PendingEnabled(a, c, now) == PendingEnabled(b, c, now) && Delivered(a, c) == Delivered(b, c)
    {
      PendingReadsOnlyEvents(a, b, c, now);
    }
    SameDecision(a, now, b, now);
    assert StateCsr(0x605) && StateCsr(0x24D);
    assert a.regs.csr[0x605] == b.regs.csr[0x605] && a.regs.csr[0x24D] == b.regs.csr[0x24D];
  }
}
