/** What a round does to the clock, by what each hart's slot left: without the flags the round carries. */
module RoundSpec {
  import opened Words
  import opened Engine
  import opened Waits
  import opened Rounds
  import C = CounterLaw

  /** The world after the first `k` slots. */
  function After<G(!new)>(sl: Slots<G>, w: World<G>, k: nat): World<G> {
    if k == 0 then w
    else
      var before := After(sl, w, k - 1);
      if k - 1 < |before.harts| then Slot(sl, before, k - 1) else before
  }

  /** Hart `k` completed a step in its slot. */
  predicate Stepped<G(!new)>(sl: Slots<G>, w: World<G>, k: nat) {
    var after := After(sl, w, k + 1);
    k < |after.harts| && after.harts[k].retired
  }

  /** Hart `k` came out of its slot still waiting, with rounds to go. */
  predicate Waited<G(!new)>(sl: Slots<G>, w: World<G>, k: nat) {
    var after := After(sl, w, k + 1);
    k < |after.harts| && after.harts[k].waiting && after.harts[k].remaining > 0
  }

  /** The pass over the first `k` harts, had it not been stopped. */
  ghost predicate PassIs<G(!new)>(sl: Slots<G>, w: World<G>, k: nat, p: Pass<G>) {
    && p.world == After(sl, w, k)
    && (p.retired <==> exists j: nat | j < k :: Stepped(sl, w, j))
    && (p.allWaiting <==> forall j: nat | j < k :: Waited(sl, w, j))
  }

  lemma {:induction false} PassSays<G(!new)>(sl: Slots<G>, w: World<G>, k: nat)
    requires !PassUpTo(sl, w, k).stopped
    ensures PassIs(sl, w, k, PassUpTo(sl, w, k))
    decreases k
  {
    hide RoundFrom, Slot, After, Stepped, Waited;
    if k == 0 {
      PassOfNone(sl, w);
    } else {
      PassStops(sl, Pass(w, false, true, false), 0, k - 1, k);
      RoundFromSplits(sl, Pass(w, false, true, false), 0, k - 1, k);
      PassSays(sl, w, k - 1);
      OneMoreHart(sl, w, k - 1, PassUpTo(sl, w, k - 1));
    }
  }

  lemma PassOfNone<G(!new)>(sl: Slots<G>, w: World<G>)
    ensures PassIs(sl, w, 0, PassUpTo(sl, w, 0))
  {
  }

  /** A pass that has stopped stays so. */
  lemma {:induction false} PassStops<G(!new)>(sl: Slots<G>, p: Pass<G>, a: nat, b: nat, c: nat)
    requires a <= b <= c && !RoundFrom(sl, p, a, c).stopped && !p.stopped
    ensures !RoundFrom(sl, p, a, b).stopped
    decreases b - a
  {
    hide Slot;
    if a < b {
      var w := Slot(sl, p.world, a);
      PassStops(sl, Pass(w, p.retired || w.harts[a].retired, p.allWaiting && StillWaiting(w.harts[a]), false),
                a + 1, b, c);
    }
  }

  lemma OneMoreHart<G(!new)>(sl: Slots<G>, w: World<G>, k: nat, p: Pass<G>)
    requires PassIs(sl, w, k, p) && !p.stopped && !RoundFrom(sl, p, k, k + 1).stopped
    ensures PassIs(sl, w, k + 1, RoundFrom(sl, p, k, k + 1))
  {
    hide Slot, Stepped, Waited;
    OneHart(sl, w, k, p);
    assert (exists j: nat | j < k + 1 :: Stepped(sl, w, j)) <==> p.retired || Stepped(sl, w, k);
    assert (forall j: nat | j < k + 1 :: Waited(sl, w, j)) <==> p.allWaiting && Waited(sl, w, k);
  }

  lemma OneHart<G(!new)>(sl: Slots<G>, w: World<G>, k: nat, p: Pass<G>)
    requires p.world == After(sl, w, k) && !p.stopped && !RoundFrom(sl, p, k, k + 1).stopped
    ensures RoundFrom(sl, p, k, k + 1)
         == Pass(After(sl, w, k + 1), p.retired || Stepped(sl, w, k), p.allWaiting && Waited(sl, w, k), false)
  {
    hide Slot;
    var next := Slot(sl, p.world, k);
    assert After(sl, w, k + 1) == next;
    assert RoundFrom(sl, p, k, k + 1)
        == Pass(next, p.retired || next.harts[k].retired, p.allWaiting && StillWaiting(next.harts[k]), false);
  }

  /** A round that reaches its end ticks once if it is the second since the last such tick in which some hart completed
      a step, or if every hart came out of it waiting: mtime moves on by one, and mcycle of each hart whose mcycle
      runs. Otherwise the clock stands, and no round ticks twice. */
  lemma RoundLaw<G(!new)>(sl: Slots<G>, w: World<G>)
    requires !WholePass(sl, w).stopped
    ensures var n := |w.harts|; var u, v := After(sl, w, n), Round(sl, w);
      var stepped := exists j: nat | j < n :: Stepped(sl, w, j);
      var tick := (stepped && u.phase == 1) || forall j: nat | j < n :: Waited(sl, w, j);
      && v.mtime == (if tick then (u.mtime + 1) % 0x1_0000_0000_0000_0000 else u.mtime)
      && v.phase == (if stepped then 1 - u.phase else u.phase)
      && |v.harts| == |u.harts|
      && (forall k | 0 <= k < |u.harts| ::
            && C.Minstret(v.harts[k].inputs) == C.Minstret(u.harts[k].inputs)
            && C.Mcycle(v.harts[k].inputs) ==
               C.Plus(C.Mcycle(u.harts[k].inputs), tick && C.CycleRuns(u.harts[k].inputs))
            && v.harts[k].(inputs := u.harts[k].inputs) == u.harts[k])
      && v.halted == u.halted && v.rest == u.rest
  {
    hide RoundFrom, After, Stepped, Waited, C.Mcycle, C.Minstret, C.CycleRuns, C.Plus, TickHart;
    PassSays(sl, w, |w.harts|);
    var u := After(sl, w, |w.harts|);
    forall k | 0 <= k < |u.harts|
      ensures var i := u.harts[k].inputs;
        && C.Mcycle(TickHart(i)) == C.Plus(C.Mcycle(i), C.CycleRuns(i)) && C.Minstret(TickHart(i)) == C.Minstret(i)
        && C.Plus(C.Mcycle(i), false) == C.Mcycle(i)
    {
      HartTicks(u.harts[k].inputs);
    }
  }

  /** A wait's clock: a tick before its first look and one more before each next, but none before the last -- ten at
      most, each of which moves mtime on and, where it runs, mcycle. */
  lemma {:induction false} WaitLaw(i: C.I.Inputs, t: Time, k: nat)
    requires k <= 10
    ensures var (j, u) := WaitState(i, t, k); var ticks := Min(k + 1, 10);
      && u == (t + ticks) % 0x1_0000_0000_0000_0000
      && C.Advanced(C.Mcycle(i), C.Mcycle(j), C.CycleRuns(i), ticks) && C.Minstret(j) == C.Minstret(i)
      && C.CycleRuns(j) == C.CycleRuns(i) && C.I.SameInputs(i, j)
    decreases k
  {
    hide C.CycleRuns, C.Mcycle, C.Minstret, TickHart, C.I.SameInputs, C.Advanced, WaitState;
    if k == 0 {
      FirstTick(i, t);
      MoreTicks(i, i, 0);
    } else {
      WaitLaw(i, t, k - 1);
      NextTick(i, t, k);
      var (j, u) := WaitState(i, t, k - 1);
      C.WrapSum(t, k, 1);
      MoreTicks(i, j, k);
    }
  }

  lemma FirstTick(i: C.I.Inputs, t: Time)
    ensures WaitState(i, t, 0) == (TickHart(i), (t + 1) % TWO64)
    ensures C.Advanced(C.Mcycle(i), C.Mcycle(i), C.CycleRuns(i), 0) && C.I.SameInputs(i, i)
  {
    hide C.CycleRuns, C.Mcycle, TickHart;
  }

  lemma NextTick(i: C.I.Inputs, t: Time, k: nat)
    requires 0 < k <= 10
    ensures var (j, u) := WaitState(i, t, k - 1);
      WaitState(i, t, k) == if k == 10 then (j, u) else (TickHart(j), (u + 1) % TWO64)
  {
    hide TickHart;
  }

  lemma MoreTicks(i: C.I.Inputs, j: C.I.Inputs, n: nat)
    requires C.Advanced(C.Mcycle(i), C.Mcycle(j), C.CycleRuns(i), n) && C.CycleRuns(j) == C.CycleRuns(i)
    requires C.I.SameInputs(i, j)
    ensures C.Advanced(C.Mcycle(i), C.Mcycle(TickHart(j)), C.CycleRuns(i), n + 1)
    ensures C.Minstret(TickHart(j)) == C.Minstret(j) && C.CycleRuns(TickHart(j)) == C.CycleRuns(j)
    ensures C.I.SameInputs(i, TickHart(j))
  {
    hide C.Advanced, C.CycleRuns;
    HartTicks(j);
    TickKeepsInputs(j);
    C.CountingKeepsRuns(j, 0xB00, 1);
    C.AdvancedFrom(C.Mcycle(i), C.Mcycle(j), C.Mcycle(TickHart(j)), C.CycleRuns(i), n);
  }

  lemma HartTicks(i: C.I.Inputs)
    ensures C.Mcycle(TickHart(i)) == C.Plus(C.Mcycle(i), C.CycleRuns(i)) && C.Minstret(TickHart(i)) == C.Minstret(i)
    ensures C.Plus(C.Mcycle(i), false) == C.Mcycle(i)
  {
    hide C.CycleRuns, CountsCycle;
    C.CountsAreRuns(i);
  }
}
