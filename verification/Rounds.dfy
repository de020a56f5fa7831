/** Several harts, one step each per round: run_round, its shortcut for waiting harts, and the same
    waits as run_wait runs them.

    `World` is what the guest can see. The event counter, the selected hart and what each waiting hart
    learned at its last look are the host's, and are fields of the class beside it. What a slot does
    other than wait -- a step, or the completion of a WFI -- is an opaque transition of the world. */
module Rounds {
  import opened Words
  import opened Registers
  import opened Engine
  import opened Waits
  import I = Interrupts

  datatype Hart = Hart(inputs: I.Inputs, reserved: bool, waiting: bool, kind: Kind, remaining: nat, retired: bool)

  datatype World<G> = World(harts: seq<Hart>, mtime: Time, phase: Phase, halted: bool, rest: G)

  /** The opaque parts of a slot. The event functions say how many times the step bumps the machine's
      event counter. */
  datatype Slots<!G(!new)> = Slots(
    step: (World<G>, nat) -> World<G>,
    stepEvents: (World<G>, nat) -> nat,
    finish: (World<G>, nat, nat) -> World<G>,
    finishEvents: (World<G>, nat, nat) -> nat,
    selectEvents: (World<G>, nat, nat) -> nat)

  function SetHart<G>(w: World<G>, h: nat, x: Hart): World<G>
    requires h < |w.harts|
  {
    w.(harts := w.harts[h := x])
  }

  // ---- A round, as the guest sees it ------------------------------------------------------

  function WaitOutcome<G>(w: World<G>, h: nat): Look
    requires h < |w.harts|
  {
    var x := w.harts[h];
    LookAt(x.kind, x.inputs, x.reserved, w.mtime, x.remaining)
  }

  function Slot<G(!new)>(sl: Slots<G>, w: World<G>, h: nat): World<G>
    requires h < |w.harts|
  {
    var a := SetHart(w, h, w.harts[h].(retired := false));
    if !w.harts[h].waiting then sl.step(a, h)
    else
      match WaitOutcome(a, h)
      case GoesOn =>
        var x := a.harts[h];
        SetHart(a, h, x.(remaining := x.remaining - 1))
      case Ends(trap) => sl.finish(a, h, trap)
  }

  /** Whether the hart just given its slot is still waiting with rounds to go. */
  predicate StillWaiting(x: Hart) {
    x.waiting && x.remaining > 0
  }

  datatype Pass<G> = Pass(world: World<G>, retired: bool, allWaiting: bool, stopped: bool)

  /** Harts `h` onwards have their slots, given what the earlier ones did. */
  function RoundFrom<G(!new)>(sl: Slots<G>, p: Pass<G>, h: nat, n: nat): Pass<G>
    requires h <= n
    decreases n - h
  {
    if h == n then p
    else if p.world.halted || h >= |p.world.harts| then p.(stopped := true)
    else
      var w := Slot(sl, p.world, h);
      if h >= |w.harts| then p.(world := w, stopped := true)
      else
        RoundFrom(sl, Pass(w, p.retired || w.harts[h].retired, p.allWaiting && StillWaiting(w.harts[h]), false),
                  h + 1, n)
  }

  function TickAll<G>(w: World<G>): World<G> {
    w.(harts := seq(|w.harts|, k requires 0 <= k < |w.harts| => w.harts[k].(inputs := TickHart(w.harts[k].inputs))),
       mtime := Next(w.mtime))
  }

  /** The clock: a tick every INSNS_PER_TICK rounds in which some hart completed a step, and one in
      every round in which every hart waits. */
  function EndRound<G>(p: Pass<G>): World<G> {
    if p.retired && p.world.phase + 1 == INSNS_PER_TICK then TickAll(p.world.(phase := 0))
    else
      var w := if p.retired then p.world.(phase := p.world.phase + 1) else p.world;
      if p.allWaiting then TickAll(w) else w
  }

  function WholePass<G(!new)>(sl: Slots<G>, w: World<G>): Pass<G> {
    RoundFrom(sl, Pass(w, false, true, false), 0, |w.harts|)
  }

  function Round<G(!new)>(sl: Slots<G>, w: World<G>): World<G> {
    var p := WholePass(sl, w);
    if p.stopped then p.world else EndRound(p)
  }

  function RoundsN<G(!new)>(sl: Slots<G>, w: World<G>, n: nat): World<G> {
    if n == 0 then w else Round(sl, RoundsN(sl, w, n - 1))
  }

  // ---- What the shortcut rests on -----------------------------------------------------------

  /** Between two worlds that the same event count covers, no hart's inputs and no clock moved. */
  ghost predicate Undisturbed<G>(a: World<G>, b: World<G>) {
    && |a.harts| == |b.harts| && a.mtime == b.mtime
    && forall k | 0 <= k < |a.harts| :: I.SameInputs(a.harts[k].inputs, b.harts[k].inputs)
  }

  /** A slot changes the wait of no hart but its own. */
  ghost predicate OwnWaitOnly<G>(a: World<G>, b: World<G>, h: nat) {
    && |a.harts| == |b.harts|
    && forall k | 0 <= k < |a.harts| && k != h ::
         a.harts[k].waiting == b.harts[k].waiting && a.harts[k].kind == b.harts[k].kind
         && a.harts[k].remaining == b.harts[k].remaining
  }

  ghost predicate SlotContract<G(!new)>(sl: Slots<G>) {
    && (forall w: World<G>, h: nat {:trigger sl.step(w, h)} :: h < |w.harts| ==>
          && OwnWaitOnly(w, sl.step(w, h), h)
          && (sl.stepEvents(w, h) == 0 ==> Undisturbed(w, sl.step(w, h))))
    && (forall w: World<G>, h: nat, t: nat {:trigger sl.finish(w, h, t)} :: h < |w.harts| ==>
          && OwnWaitOnly(w, sl.finish(w, h, t), h) && !sl.finish(w, h, t).harts[h].waiting
          && (sl.finishEvents(w, h, t) == 0 ==> Undisturbed(w, sl.finish(w, h, t))))
  }

  /** Nothing wakes this hart from `t` up to `until`. */
  ghost predicate Asleep(i: I.Inputs, t: nat, until: nat) {
    forall u | t <= u < until :: !I.Wake(i, u)
  }

  lemma LookedAndAsleep(i: I.Inputs, now: Time)
    requires !I.Wake(i, now)
    ensures Asleep(i, now, I.WaitUntil(i, now))
  {
    hide I.Wake, I.Deadline;
    if now < MAX64 {
      I.WaitUntilIsDeadline(i, now);
      forall u | now <= u < I.WaitUntil(i, now)
        ensures !I.Wake(i, u)
      {
        I.SameUntilDeadline(i, now, u);
      }
    }
  }

  /** A look at the last value of mtime is good after the clock has come round. */
  lemma LookedAtLast(i: I.Inputs)
    requires !I.Wake(i, MAX64)
    ensures Asleep(i, 0, I.WaitUntil(i, MAX64))
  {
    hide I.Wake;
    if i.regs.csr[0x605] == 0 {
      forall u | 0 <= u < I.WaitUntil(i, MAX64)
        ensures !I.Wake(i, u)
      {
        I.NeverWakesBeforeLast(i, u);
      }
    }
  }

  lemma AsleepWithSameInputs(i: I.Inputs, t: nat, j: I.Inputs, u: nat, until: nat)
    requires Asleep(i, t, until) && I.SameInputs(i, j) && t <= u
    ensures Asleep(j, u, until)
  {
    hide I.Wake, I.SameInputs;
    forall v | u <= v < until
      ensures !I.Wake(j, v)
    {
      I.DecisionReadsOnlyEvents(i, j, v);
    }
  }

  lemma AsleepNow(i: I.Inputs, t: nat, until: nat)
    requires Asleep(i, t, until) && t < until
    ensures !I.Wake(i, t)
  {
  }

  class Machine<G(!new)> {
    const sl: Slots<G>
    var w: World<G>
    /** EventGen, and the hart last selected. */
    var events: nat
    var cur: nat
    /** When each wait last found nothing to wake it: the event count then (none before the first look)
        and the mtime it must not reach. */
    var waitEvent: seq<Option<nat>>
    var waitUntil: seq<Time>

    ghost predicate Good()
      reads this
    {
      && |waitEvent| == |w.harts| && |waitUntil| == |w.harts|
      && forall k {:trigger waitEvent[k]} | 0 <= k < |w.harts| && waitEvent[k].Some? ::
           && waitEvent[k].value <= events
           && (waitEvent[k].value == events && w.harts[k].waiting ==> Asleep(w.harts[k].inputs, w.mtime, waitUntil[k]))
    }

    /** Of the first `h` harts those with a look that stands may also let the clock come round. */
    ghost predicate Rested(h: nat)
      requires h <= |w.harts| == |waitEvent| == |waitUntil|
      reads this
    {
      w.mtime == MAX64 ==>
        forall k {:trigger waitEvent[k]} | 0 <= k < h && waitEvent[k] == Some(events) && w.harts[k].waiting ::
          Asleep(w.harts[k].inputs, 0, waitUntil[k])
    }

    constructor (sl: Slots<G>, w: World<G>)
      ensures this.sl == sl && this.w == w && Good()
    {
      this.sl, this.w := sl, w;
      events, cur := 0, 0;
      waitEvent := seq(|w.harts|, _ => None);
      waitUntil := seq(|w.harts|, _ => 0);
    }

    /** wait_slot: one look. */
    method WaitSlot(h: nat)
      requires h < |w.harts| && w.harts[h].waiting && Good() && SlotContract(sl)
      modifies this`w, this`events, this`waitEvent, this`waitUntil
      ensures Good() && |w.harts| == |old(w.harts)| && old(events) <= events
      ensures match WaitOutcome(old(w), h)
        case GoesOn => w == SetHart(old(w), h, old(w).harts[h].(remaining := old(w).harts[h].remaining - 1))
        case Ends(trap) => w == sl.finish(old(w), h, trap)
      ensures var x := old(w).harts[h];
        if I.Wake(x.inputs, old(w).mtime) || (x.kind in {WrsSto, WrsNto} && !x.reserved) then
          w == sl.finish(old(w), h, 0)
        else if x.remaining > 0 then w == SetHart(old(w), h, x.(remaining := x.remaining - 1))
        else exists trap: nat :: RunsOutWith(x.kind, x.inputs, trap) && w == sl.finish(old(w), h, trap)
      ensures events == old(events) ==> w.mtime == old(w.mtime)
      ensures forall k | 0 <= k < |waitEvent| && k != h :: waitEvent[k] == old(waitEvent)[k]
      ensures old(Rested(h)) ==> Rested(h + 1)
    {
      hide I.Wake, I.WaitUntil, TimeoutTrap, I.SameInputs, Asleep, RunsOutWith;
      var x := w.harts[h];
      LookIsThat(x.kind, x.inputs, x.reserved, w.mtime, x.remaining, WaitOutcome(w, h));
      var look := WaitOutcome(w, h);
      if look.Ends? {
        events := events + sl.finishEvents(w, h, look.trap);
        w := sl.finish(w, h, look.trap);
        forall k | 0 <= k < |w.harts| && k != h && events == old(events) && w.harts[k].waiting
          && waitEvent[k] == Some(events)
          ensures Asleep(w.harts[k].inputs, w.mtime, waitUntil[k])
        {
          AsleepWithSameInputs(old(w).harts[k].inputs, w.mtime, w.harts[k].inputs, w.mtime, waitUntil[k]);
        }
        StillRested(h);
        return;
      }
      w := SetHart(w, h, x.(remaining := x.remaining - 1));
      waitEvent := waitEvent[h := Some(events)];
      waitUntil := waitUntil[h := I.WaitUntil(x.inputs, w.mtime)];
      LookedAndAsleep(x.inputs, w.mtime);
      if w.mtime == MAX64 {
        LookedAtLast(x.inputs);
      }
    }

    /** What hart `h` did to itself disturbs no earlier hart's rest. */
    twostate lemma StillRested(h: nat)
      requires h < |w.harts| == |old(w.harts)| == |waitEvent| == |old(waitEvent)| == |waitUntil| == |old(waitUntil)|
      requires old(Good()) && old(events) <= events && OwnWaitOnly(old(w), w, h)
      requires events == old(events) ==> Undisturbed(old(w), w)
      requires forall k | 0 <= k < |waitEvent| && k != h ::
        waitEvent[k] == old(waitEvent)[k] && waitUntil[k] == old(waitUntil)[k]
      requires !w.harts[h].waiting || waitEvent[h].None?
      ensures old(Rested(h)) ==> Rested(h + 1)
    {
      hide Asleep, I.SameInputs;
      if old(Rested(h)) && w.mtime == MAX64 {
        forall k | 0 <= k < h + 1 && waitEvent[k] == Some(events) && w.harts[k].waiting
          ensures Asleep(w.harts[k].inputs, 0, waitUntil[k])
        {
          assert k < h && old(waitEvent)[k] == Some(events) && events == old(events);
          AsleepWithSameInputs(old(w).harts[k].inputs, 0, w.harts[k].inputs, 0, waitUntil[k]);
        }
      }
    }

    /** select_hart, then the slot: a round of its wait, or a step. */
    method HartSlot(h: nat)
      requires h < |w.harts| && Good() && SlotContract(sl)
      modifies this
      ensures Good() && |w.harts| == |old(w.harts)| && old(events) <= events
      ensures w == Slot(sl, old(w), h)
      ensures events == old(events) ==> w.mtime == old(w.mtime)
      ensures forall k | 0 <= k < |waitEvent| && k != h :: waitEvent[k] == old(waitEvent)[k]
      ensures old(Rested(h)) ==> Rested(h + 1)
    {
      hide I.Wake, I.WaitUntil, TimeoutTrap, I.SameInputs, Asleep;
      events := events + sl.selectEvents(w, cur, h);
      cur := h;
      w := SetHart(w, h, w.harts[h].(retired := false));
      assert old(Rested(h)) ==> Rested(h);
      if w.harts[h].waiting {
        WaitSlot(h);
      } else {
        StepSlot(h);
      }
    }

    method StepSlot(h: nat)
      requires h < |w.harts| && !w.harts[h].waiting && Good() && SlotContract(sl)
      modifies this`w, this`events, this`waitEvent
      ensures Good() && |w.harts| == |old(w.harts)| && old(events) <= events
      ensures w == sl.step(old(w), h)
      ensures events == old(events) ==> w.mtime == old(w.mtime)
      ensures forall k | 0 <= k < |waitEvent| && k != h :: waitEvent[k] == old(waitEvent)[k]
      ensures old(Rested(h)) ==> Rested(h + 1)
    {
      hide I.Wake, I.WaitUntil, TimeoutTrap, I.SameInputs, Asleep;
      ghost var before := w;
      ghost var then_ := events;
      var bumps := sl.stepEvents(w, h);
      w := sl.step(w, h);
      events := events + bumps;
      if w.harts[h].waiting {
        // begin_wait: nothing known yet, so the first round looks.
        waitEvent := waitEvent[h := None];
      }
      forall k | 0 <= k < |w.harts| && k != h && events == then_ && w.harts[k].waiting && waitEvent[k] == Some(events)
        ensures Asleep(w.harts[k].inputs, w.mtime, waitUntil[k])
      {
        AsleepWithSameInputs(before.harts[k].inputs, w.mtime, w.harts[k].inputs, w.mtime, waitUntil[k]);
      }
      StillRested(h);
    }

    /** A tick for the whole machine. */
    method TickAllHarts()
      requires Good() && Rested(|w.harts|)
      modifies this`w
      ensures Good() && w == TickAll(old(w))
    {
      hide I.Wake, TickHart, Asleep;
      ghost var before := w;
      w := TickAll(w);
      forall k | 0 <= k < |w.harts| && waitEvent[k] == Some(events) && w.harts[k].waiting
        ensures Asleep(w.harts[k].inputs, w.mtime, waitUntil[k])
      {
        TickKeepsInputs(before.harts[k].inputs);
        AsleepWithSameInputs(before.harts[k].inputs, if before.mtime == MAX64 then 0 else before.mtime,
                             w.harts[k].inputs, w.mtime, waitUntil[k]);
      }
    }

    /** A round, with the shortcut for waiting harts (`skip`) or without: either way the same round. At the
        last value of mtime every bound has been reached, and every waiting hart looks. */
    method RunRound(skip: bool)
      requires Good() && SlotContract(sl)
      modifies this
      ensures Good() && w == Round(sl, old(w))
    {
      hide I.Wake, TimeoutTrap, I.SameInputs, TickHart, SlotContract, Slot, Asleep;
      ghost var events0 := events;
      var n := |w.harts|;
      var retired, allWaiting := false, true;
      var now := w.mtime;
      var h := 0;
      while h < n
        invariant 0 <= h <= n == |w.harts| && Good() && events0 <= events
        invariant events == events0 ==> w.mtime == now
        invariant forall k | h <= k < n && waitEvent[k].Some? :: waitEvent[k].value <= events0
        invariant Rested(h)
        invariant RoundFrom(sl, Pass(w, retired, allWaiting, false), h, n) == WholePass(sl, old(w))
      {
        if w.halted {
          return;
        }
        var x := w.harts[h];
        if skip && x.waiting && x.kind == Wfi && x.remaining > 0 && waitEvent[h] == Some(events) && now < waitUntil[h] {
          AsleepNow(x.inputs, w.mtime, waitUntil[h]);
          SkippedSlot(sl, w, h);
          w := SetHart(w, h, x.(remaining := x.remaining - 1, retired := false));
          allWaiting := allWaiting && x.remaining - 1 > 0;
          h := h + 1;
          continue;
        }
        HartSlot(h);
        retired := retired || w.harts[h].retired;
        allWaiting := allWaiting && StillWaiting(w.harts[h]);
        h := h + 1;
      }
      if retired {
        if w.phase + 1 == INSNS_PER_TICK {
          w := w.(phase := 0);
          TickAllHarts();
          return;
        }
        w := w.(phase := w.phase + 1);
      }
      if allWaiting {
        TickAllHarts();
      }
    }

    /** Any number of rounds, whichever of them take the shortcut. */
    method RunRounds(skip: seq<bool>)
      requires Good() && SlotContract(sl)
      modifies this
      ensures Good() && w == RoundsN(sl, old(w), |skip|)
    {
      hide Round, WholePass, SlotContract;
      for j := 0 to |skip|
        invariant Good() && w == RoundsN(sl, old(w), j)
      {
        RunRound(skip[j]);
      }
    }
  }

  /** A WFI with nothing to wake it spends its slot counting down. */
  lemma SkippedSlot<G(!new)>(sl: Slots<G>, w: World<G>, h: nat)
    requires h < |w.harts|
    requires var x := w.harts[h]; x.waiting && x.kind == Wfi && x.remaining > 0 && !I.Wake(x.inputs, w.mtime)
    ensures Slot(sl, w, h) == SetHart(w, h, w.harts[h].(remaining := w.harts[h].remaining - 1, retired := false))
  {
  }

  // ---- The same wait, in one step and in rounds ------------------------------------------------

  /** A hart of a wait that began with `i` at mtime `t` and has had `j` looks without ending. */
  ghost predicate WaitsAt(x: Hart, now: Time, i: I.Inputs, t: Time, j: nat)
    requires j <= MAX_WAIT_TICKS
  {
    x.waiting && x.remaining == MAX_WAIT_TICKS - j && (x.inputs, now) == WaitState(i, t, j)
  }

  /** Every hart entered its wait in the same round, before whose tick they stood at `start` and `t`. */
  ghost predicate Together<G>(w: World<G>, start: seq<I.Inputs>, t: Time, j: nat)
    requires j <= MAX_WAIT_TICKS
  {
    && |w.harts| == |start| > 0 && !w.halted
    && forall k | 0 <= k < |start| :: WaitsAt(w.harts[k], w.mtime, start[k], t, j)
  }

  function InputsOf<G>(w: World<G>): (i: seq<I.Inputs>)
    ensures |i| == |w.harts| && forall k | 0 <= k < |i| :: i[k] == w.harts[k].inputs
  {
    seq(|w.harts|, k requires 0 <= k < |w.harts| => w.harts[k].inputs)
  }

  /** A round in which every hart that had not begun one began a wait, and so all now wait. */
  ghost predicate AllBegin<G>(p: Pass<G>) {
    && !p.retired && p.allWaiting && !p.stopped && !p.world.halted && |p.world.harts| > 0
    && forall k | 0 <= k < |p.world.harts| :: p.world.harts[k].waiting && p.world.harts[k].remaining == MAX_WAIT_TICKS
  }

  /** The round in which every hart entered its wait ends in a tick, and the waits stand together. */
  lemma BeginWaitRound<G(!new)>(sl: Slots<G>, u: World<G>)
    requires AllBegin(WholePass(sl, u))
    ensures var w := WholePass(sl, u).world; var v := Round(sl, u);
      && Together(v, InputsOf(w), w.mtime, 0)
      && forall k | 0 <= k < |w.harts| ::
           v.harts[k].kind == w.harts[k].kind && v.harts[k].reserved == w.harts[k].reserved
  {
    hide TickHart, RoundFrom;
  }

  /** In a round in which no wait of harts up to `h` ends, those harts have counted down and the others
      are as they were. */
  ghost predicate HalfRound<G>(w: World<G>, p: Pass<G>, h: nat) {
    && h <= |w.harts| == |p.world.harts| && !p.retired && !p.stopped
    && p.world == w.(harts := p.world.harts)
    && (p.allWaiting <==> forall k | 0 <= k < h :: w.harts[k].remaining > 1)
    && (forall k | 0 <= k < h :: w.harts[k].remaining > 0
          && p.world.harts[k] == w.harts[k].(remaining := w.harts[k].remaining - 1, retired := false))
    && (forall k | h <= k < |w.harts| :: p.world.harts[k] == w.harts[k])
  }

  /** The pass with harts 0 to h-1 done. */
  function PassUpTo<G(!new)>(sl: Slots<G>, w: World<G>, h: nat): Pass<G> {
    RoundFrom(sl, Pass(w, false, true, false), 0, h)
  }

  lemma {:induction false} RoundFromSplits<G(!new)>(sl: Slots<G>, p: Pass<G>, a: nat, b: nat, c: nat)
    requires a <= b <= c && !RoundFrom(sl, p, a, b).stopped
    ensures RoundFrom(sl, p, a, c) == RoundFrom(sl, RoundFrom(sl, p, a, b), b, c)
    decreases b - a
  {
    hide Slot;
    if a < b && !p.world.halted && a < |p.world.harts| {
      var w := Slot(sl, p.world, a);
      if a < |w.harts| {
        RoundFromSplits(sl, Pass(w, p.retired || w.harts[a].retired, p.allWaiting && StillWaiting(w.harts[a]), false),
                        a + 1, b, c);
      }
    }
  }

  /** While no look ends a wait, a round goes through the harts counting each one down. */
  lemma {:induction false} HalfRoundHolds<G(!new)>(sl: Slots<G>, w: World<G>, h: nat)
    requires h <= |w.harts| && !w.halted
    requires forall k | 0 <= k < h :: w.harts[k].waiting && WaitOutcome(w, k).GoesOn?
    ensures HalfRound(w, PassUpTo(sl, w, h), h)
    decreases h
  {
    hide RoundFrom, HalfRound, WaitOutcome;
    if h == 0 {
      NoHartYet(sl, w);
    } else {
      HalfRoundHolds(sl, w, h - 1);
      HalfRoundGoesOn(w, PassUpTo(sl, w, h - 1), h - 1);
      RoundFromSplits(sl, Pass(w, false, true, false), 0, h - 1, h);
      CountedDown(sl, w, PassUpTo(sl, w, h - 1), h - 1);
    }
  }

  lemma NoHartYet<G(!new)>(sl: Slots<G>, w: World<G>)
    ensures HalfRound(w, PassUpTo(sl, w, 0), 0)
  {
  }

  lemma HalfRoundGoesOn<G>(w: World<G>, p: Pass<G>, h: nat)
    requires HalfRound(w, p, h)
    ensures !p.stopped
  {
  }

  lemma CountedDown<G(!new)>(sl: Slots<G>, w: World<G>, p: Pass<G>, h: nat)
    requires h < |w.harts| && !w.halted && HalfRound(w, p, h) && w.harts[h].waiting && WaitOutcome(w, h).GoesOn?
    ensures HalfRound(w, RoundFrom(sl, p, h, h + 1), h + 1)
  {
    hide LookAt;
    var x := w.harts[h];
    assert p.world.harts[h] == x;
    assert WaitOutcome(SetHart(p.world, h, x.(retired := false)), h) == WaitOutcome(w, h);
    assert x.remaining > 0 by {
      GoesOnRemains(x.kind, x.inputs, x.reserved, w.mtime, x.remaining);
    }
    var next := Slot(sl, p.world, h);
    assert next == SetHart(p.world, h, x.(remaining := x.remaining - 1, retired := false));
    assert RoundFrom(sl, p, h, h + 1) == Pass(next, false, p.allWaiting && x.remaining > 1, false);
  }

  lemma GoesOnRemains(kind: Kind, i: I.Inputs, reserved: bool, now: nat, remaining: nat)
    requires LookAt(kind, i, reserved, now, remaining).GoesOn?
    ensures remaining > 0
  {
  }

  /** The look a hart makes in its round is the look run_wait makes, at the same clock. */
  lemma SameLook<G>(w: World<G>, start: seq<I.Inputs>, t: Time, j: nat, k: nat)
    requires j <= MAX_WAIT_TICKS && Together(w, start, t, j) && k < |start|
    ensures WaitOutcome(w, k) == LookNumber(w.harts[k].kind, start[k], w.harts[k].reserved, t, j)
  {
  }

  /** A round in which no wait ends is one more turn of every hart's run_wait loop. */
  lemma TogetherRound<G(!new)>(sl: Slots<G>, w: World<G>, start: seq<I.Inputs>, t: Time, j: nat)
    requires j < MAX_WAIT_TICKS && Together(w, start, t, j)
    requires forall k | 0 <= k < |start| :: LookNumber(w.harts[k].kind, start[k], w.harts[k].reserved, t, j).GoesOn?
    ensures Together(Round(sl, w), start, t, j + 1)
    ensures forall k | 0 <= k < |start| :: Round(sl, w).harts[k].kind == w.harts[k].kind
                                        && Round(sl, w).harts[k].reserved == w.harts[k].reserved
  {
    hide LookAt, TickHart, Slot;
    var n := |start|;
    forall k | 0 <= k < n
      ensures WaitOutcome(w, k).GoesOn?
    {
      SameLook(w, start, t, j, k);
    }
    HalfRoundHolds(sl, w, n);
    var p := WholePass(sl, w);
    assert p == PassUpTo(sl, w, n) && !p.stopped;
    assert p.allWaiting <==> j + 1 < MAX_WAIT_TICKS by {
      assert w.harts[0].remaining == MAX_WAIT_TICKS - j;
    }
    forall k | 0 <= k < n
      ensures WaitsAt(Round(sl, w).harts[k], Round(sl, w).mtime, start[k], t, j + 1)
    {
      assert WaitsAt(w.harts[k], w.mtime, start[k], t, j);
    }
  }

  /** No wait outlasts its last look. */
  lemma LastLookEnds(kind: Kind, i: I.Inputs, reserved: bool, t: Time)
    ensures LookNumber(kind, i, reserved, t, MAX_WAIT_TICKS).Ends?
  {
  }

  /** Harts that enter their waits in the same round look at the same clocks as each would in a
      run_wait of its own, until the first look that ends one of them. */
  lemma {:induction false} TogetherUntilFirstEnd<G(!new)>(sl: Slots<G>, w: World<G>, start: seq<I.Inputs>, t: Time,
                                                   j: nat)
    requires j <= MAX_WAIT_TICKS && Together(w, start, t, 0)
    requires forall k, m | 0 <= k < |start| && 0 <= m < j ::
               LookNumber(w.harts[k].kind, start[k], w.harts[k].reserved, t, m).GoesOn?
    ensures Together(RoundsN(sl, w, j), start, t, j)
    ensures forall k | 0 <= k < |start| :: RoundsN(sl, w, j).harts[k].kind == w.harts[k].kind
                                        && RoundsN(sl, w, j).harts[k].reserved == w.harts[k].reserved
    decreases j
  {
    hide LookNumber, WaitsAt, Round;
    if j > 0 {
      TogetherUntilFirstEnd(sl, w, start, t, j - 1);
      var v := RoundsN(sl, w, j - 1);
      forall k | 0 <= k < |start|
        ensures LookNumber(v.harts[k].kind, start[k], v.harts[k].reserved, t, j - 1).GoesOn?
      {
        assert LookNumber(w.harts[k].kind, start[k], w.harts[k].reserved, t, j - 1).GoesOn?;
        assert v.harts[k].kind == w.harts[k].kind && v.harts[k].reserved == w.harts[k].reserved;
      }
      TogetherRound(sl, v, start, t, j - 1);
    }
  }

  /** And the first wait to end ends in the round, and with the completion or trap, that run_wait ends
      it with: hart `h`, the first in its round, `n` rounds on. */
  lemma FirstEndIsRunWaits<G(!new)>(sl: Slots<G>, w: World<G>, start: seq<I.Inputs>, t: Time, n: nat, h: nat)
    requires Together(w, start, t, 0) && h < |start| && n <= MAX_WAIT_TICKS
    requires EndsAtLook(w.harts[h].kind, start[h], w.harts[h].reserved, t, n)
    requires forall k, m | 0 <= k < |start| && 0 <= m < n ::
               LookNumber(w.harts[k].kind, start[k], w.harts[k].reserved, t, m).GoesOn?
    requires forall k | 0 <= k < h :: LookNumber(w.harts[k].kind, start[k], w.harts[k].reserved, t, n).GoesOn?
    ensures var p := PassUpTo(sl, RoundsN(sl, w, n), h);
      && !p.stopped && h < |p.world.harts| && (p.world.harts[h].inputs, p.world.mtime) == WaitState(start[h], t, n)
      && Slot(sl, p.world, h)
         == sl.finish(SetHart(p.world, h, p.world.harts[h].(retired := false)), h,
                      LookNumber(w.harts[h].kind, start[h], w.harts[h].reserved, t, n).trap)
  {
    hide LookAt, TickHart, Slot, RoundsN;
    TogetherUntilFirstEnd(sl, w, start, t, n);
    var v := RoundsN(sl, w, n);
    forall k | 0 <= k <= h
      ensures v.harts[k].waiting && WaitOutcome(v, k)
        == LookNumber(w.harts[k].kind, start[k], w.harts[k].reserved, t, n)
    {
      SameLook(v, start, t, n, k);
      assert WaitsAt(v.harts[k], v.mtime, start[k], t, n);
    }
    HalfRoundHolds(sl, v, h);
    var p := PassUpTo(sl, v, h);
    EndingSlot(sl, v, p, h);
  }

  lemma EndingSlot<G(!new)>(sl: Slots<G>, v: World<G>, p: Pass<G>, h: nat)
    requires h < |v.harts| && HalfRound(v, p, h) && v.harts[h].waiting && WaitOutcome(v, h).Ends?
    ensures Slot(sl, p.world, h)
         == sl.finish(SetHart(p.world, h, p.world.harts[h].(retired := false)), h, WaitOutcome(v, h).trap)
  {
  }

  /** The looks of a hart that entered its wait in `w`. */
  function LookOf<G>(w: World<G>, k: nat, m: nat): Look
    requires k < |w.harts| && m <= MAX_WAIT_TICKS
  {
    LookNumber(w.harts[k].kind, w.harts[k].inputs, w.harts[k].reserved, w.mtime, m)
  }

  /** Looks `m` of the first `h` harts. */
  ghost predicate GoOn<G>(w: World<G>, h: nat, m: nat)
    requires h <= |w.harts| && m <= MAX_WAIT_TICKS
  {
    forall k | 0 <= k < h :: LookOf(w, k, m).GoesOn?
  }

  /** There is a first look at which a wait ends, and a first hart whose it is. */
  lemma {:induction false} FirstEnd<G>(w: World<G>, j: nat) returns (n: nat, h: nat)
    requires j <= MAX_WAIT_TICKS && |w.harts| > 0 && forall m | 0 <= m < j :: GoOn(w, |w.harts|, m)
    ensures n <= MAX_WAIT_TICKS && h < |w.harts| && LookOf(w, h, n).Ends? && GoOn(w, h, n)
    ensures forall m | 0 <= m < n :: GoOn(w, |w.harts|, m)
    decreases MAX_WAIT_TICKS - j
  {
    hide LookNumber;
    if GoOn(w, |w.harts|, j) {
      LastLookEnds(w.harts[0].kind, w.harts[0].inputs, w.harts[0].reserved, w.mtime);
      assert LookOf(w, 0, MAX_WAIT_TICKS).Ends?;
      n, h := FirstEnd(w, j + 1);
    } else {
      n := j;
      h := FirstHart(w, j, 0);
    }
  }

  lemma {:induction false} FirstHart<G>(w: World<G>, m: nat, k: nat) returns (h: nat)
    requires m <= MAX_WAIT_TICKS && k <= |w.harts| && GoOn(w, k, m) && !GoOn(w, |w.harts|, m)
    ensures h < |w.harts| && LookOf(w, h, m).Ends? && GoOn(w, h, m)
    decreases |w.harts| - k
  {
    hide LookOf;
    if LookOf(w, k, m).Ends? {
      h := k;
    } else {
      h := FirstHart(w, m, k + 1);
    }
  }

  /** From the round in which all harts enter their waits, whatever they wait for: in at most
      MAX_WAIT_TICKS rounds a wait ends, and the first to end does so at the clock, with the counters and
      with the completion or trap with which it would have ended alone, inside its own step. */
  lemma FirstEndFromBegin<G(!new)>(sl: Slots<G>, u: World<G>) returns (n: nat, h: nat)
    requires AllBegin(WholePass(sl, u))
    ensures var w := WholePass(sl, u).world;
      && n <= MAX_WAIT_TICKS && h < |w.harts|
      && EndsAtLook(w.harts[h].kind, w.harts[h].inputs, w.harts[h].reserved, w.mtime, n)
      && var p := PassUpTo(sl, RoundsN(sl, Round(sl, u), n), h);
      && !p.stopped && h < |p.world.harts|
      && (p.world.harts[h].inputs, p.world.mtime) == WaitState(w.harts[h].inputs, w.mtime, n)
      && Slot(sl, p.world, h)
         == sl.finish(SetHart(p.world, h, p.world.harts[h].(retired := false)), h, LookOf(w, h, n).trap)
  {
    hide Round, RoundsN, WaitState, LookNumber, Slot, PassUpTo, WholePass;
    var w := WholePass(sl, u).world;
    BeginWaitRound(sl, u);
    n, h := FirstEnd(w, 0);
    forall k, m | 0 <= k < |w.harts| && 0 <= m < n
      ensures LookNumber(w.harts[k].kind, w.harts[k].inputs, w.harts[k].reserved, w.mtime, m).GoesOn?
    {
      assert GoOn(w, |w.harts|, m) && LookOf(w, k, m).GoesOn?;
    }
    forall k | 0 <= k < h
      ensures LookNumber(w.harts[k].kind, w.harts[k].inputs, w.harts[k].reserved, w.mtime, n).GoesOn?
    {
      assert LookOf(w, k, n).GoesOn?;
    }
    assert LookOf(w, h, n).Ends?;
    FirstEndIsRunWaits(sl, Round(sl, u), InputsOf(w), w.mtime, n, h);
  }
}
