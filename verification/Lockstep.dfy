/** The reference's trace and the steps it says, in the order they began.

    A trace is lines; a marker line says whose the lines after it are, so the records of several harts
    are interleaved, and a record's own lines may be split by another hart's. A record ends only where
    the hart's next one begins. The steps are defined on the trace itself; the rest is the queue the
    emulator keeps of them, as one list of slots in the order begun. */
module Lockstep {
  import opened Words

  datatype Line =
    | Marker(hart: nat)
    | Cycle(n: nat)
    | Insn(pc: nat, insn: nat)
    | Handling(interrupt: bool, cause: nat)
    | Csr(num: nat, value: nat)
    | Mem(addr: nat, value: nat)
    | Reg(file: char, num: nat, value: nat)
    | Other

  datatype Kind = Commit | Exception | Interrupt

  datatype Field = Field(file: char, num: nat, value: nat)

  datatype Rec = Rec(kind: Kind, hasInsn: bool, pc: nat, insn: nat, trapStarted: bool, cause: nat, epc: Option<nat>,
                     cycle: Option<nat>, fields: seq<Field>, trapFields: seq<Field>, stores: seq<(nat, nat)>,
                     splitTail: bool, continues: bool)

  function Fresh(cycle: Option<nat>): Rec {
    Rec(Commit, false, 0, 0, false, 0, None, cycle, [], [], [], false, false)
  }

  predicate IsEpcCsr(num: nat) {
    num == 0x341 || num == 0x141 || num == 0x241
  }

  /** Whether a line starts a record, on a hart whose record in progress is `cur`: an instruction line, an
      interrupt, or a trap that is not that record's own. */
  predicate Begins(cur: Option<Rec>, line: Line) {
    match line
    case Insn(_, _) => true
    case Handling(interrupt, _) => interrupt || cur.None? || cur.value.trapStarted
    case _ => false
  }

  /** What a line says of the record it belongs to. */
  function Grow(r: Rec, line: Line): Rec {
    match line
    case Insn(pc, insn) => r.(hasInsn := true, pc := pc, insn := insn)
    case Handling(interrupt, cause) =>
      r.(kind := if interrupt then Interrupt else Exception, trapStarted := true, cause := cause)
    case Csr(num, value) =>
      if !r.trapStarted then r.(fields := r.fields + [Field('c', num, value)])
      else r.(trapFields := r.trapFields + [Field('c', num, value)],
              epc := if IsEpcCsr(num) then Some(value) else r.epc)
    case Mem(addr, value) => if r.trapStarted then r else r.(stores := r.stores + [(addr, value)])
    case Reg(file, num, value) => if r.trapStarted then r else r.(fields := r.fields + [Field(file, num, value)])
    case _ => r
  }

  predicate IsFetchFault(cause: nat) {
    cause == 1 || cause == 12 || cause == 20
  }

  /** A fetch fault has no instruction line of its own: it is the step after the last instruction's, told
      apart by where it trapped. */
  predicate IsTwo(r: Rec) {
    r.kind == Exception && r.hasInsn && IsFetchFault(r.cause) && r.epc.Some? && r.epc.value != r.pc
  }

  function Head(r: Rec): Rec {
    r.(kind := Commit, trapFields := [], trapStarted := false, continues := true)
  }

  function Tail(r: Rec): Rec {
    r.(splitTail := true, hasInsn := false, fields := [], stores := [])
  }

  // ---- The steps of a trace --------------------------------------------------------------------

  datatype Step = Step(hart: nat, rec: Rec)

  function StepsOf(h: nat, r: Rec): seq<Step> {
    if IsTwo(r) then [Step(h, Head(r)), Step(h, Tail(r))] else [Step(h, r)]
  }

  /** A hart's record in progress, and the cycle stamp waiting for its next one. */
  datatype Progress = Progress(cur: Option<Rec>, cycle: Option<nat>)

  function Feed(p: Progress, line: Line): Progress {
    if line.Cycle? then p.(cycle := Some(line.n))
    else if Begins(p.cur, line) then Progress(Some(Grow(Fresh(p.cycle), line)), None)
    else if p.cur.None? then p
    else p.(cur := Some(Grow(p.cur.value, line)))
  }

  function MarkedAt(trace: seq<Line>, i: nat): nat
    requires i <= |trace|
  {
    if i == 0 then 0
    else if trace[i - 1].Marker? then trace[i - 1].hart
    else MarkedAt(trace, i - 1)
  }

  /** Hart `h` before line `i`. */
  function At(trace: seq<Line>, i: nat, h: nat): Progress
    requires i <= |trace|
  {
    if i == 0 then Progress(None, None)
    else if MarkedAt(trace, i - 1) == h then Feed(At(trace, i - 1, h), trace[i - 1])
    else At(trace, i - 1, h)
  }

  /** A record of hart `h` that says `r` by line `i`, at its end: the hart's next record, or the
      trace's end. */
  function Ended(trace: seq<Line>, i: nat, h: nat, r: Rec): Rec
    requires i <= |trace|
    decreases |trace| - i
  {
    if i == |trace| then r
    else if MarkedAt(trace, i) != h then Ended(trace, i + 1, h, r)
    else if Begins(Some(r), trace[i]) then r
    else Ended(trace, i + 1, h, Grow(r, trace[i]))
  }

  function StepsFrom(trace: seq<Line>, i: nat): seq<Step>
    requires i <= |trace|
    decreases |trace| - i
  {
    if i == |trace| then []
    else
      var h := MarkedAt(trace, i);
      var p := At(trace, i, h);
      if Begins(p.cur, trace[i]) then
        StepsOf(h, Ended(trace, i + 1, h, Grow(Fresh(p.cycle), trace[i]))) + StepsFrom(trace, i + 1)
      else StepsFrom(trace, i + 1)
  }

  // ---- Slots: records begun and not yet stepped --------------------------------------------------

  datatype Slot = Slot(hart: nat, rec: Rec, finished: bool)

  function HartsOf(p: seq<Slot>): seq<nat> {
    if p == [] then [] else [p[0].hart] + HartsOf(p[1..])
  }

  function Ready(p: seq<Slot>, h: nat): seq<Rec> {
    if p == [] then []
    else (if p[0].hart == h && p[0].finished then [p[0].rec] else []) + Ready(p[1..], h)
  }

  function InProgress(p: seq<Slot>, h: nat): Option<Rec> {
    if p == [] then None
    else if p[0].hart == h && !p[0].finished then Some(p[0].rec)
    else InProgress(p[1..], h)
  }

  /** A hart's record in progress is its latest. */
  predicate Tidy(p: seq<Slot>) {
    p == [] || (Tidy(p[1..]) && (p[0].finished || Absent(p[1..], p[0].hart)))
  }

  predicate Absent(p: seq<Slot>, h: nat) {
    p == [] || (p[0].hart != h && Absent(p[1..], h))
  }

  function SlotSteps(trace: seq<Line>, i: nat, s: Slot): seq<Step>
    requires i <= |trace|
  {
    if s.finished then [Step(s.hart, s.rec)] else StepsOf(s.hart, Ended(trace, i, s.hart, s.rec))
  }

  /** The steps the slots will be, once the trace past `i` has been read. */
  function Steps(trace: seq<Line>, i: nat, p: seq<Slot>): seq<Step>
    requires i <= |trace|
  {
    if p == [] then [] else SlotSteps(trace, i, p[0]) + Steps(trace, i, p[1..])
  }

  lemma {:induction false} AbsentHasNothing(p: seq<Slot>, h: nat)
    requires Absent(p, h)
    ensures Ready(p, h) == [] && InProgress(p, h) == None
  {
    if p != [] {
      AbsentHasNothing(p[1..], h);
    }
  }

  /** The queues of a slot and more slots, in terms of theirs. */
  lemma OneSlot(a: Slot, rest: seq<Slot>, h: nat)
    ensures Ready([a] + rest, h) == (if a.hart == h && a.finished then [a.rec] else []) + Ready(rest, h)
    ensures HartsOf([a] + rest) == [a.hart] + HartsOf(rest)
    ensures InProgress([a] + rest, h) == if a.hart == h && !a.finished then Some(a.rec) else InProgress(rest, h)
    ensures Tidy([a] + rest) == (Tidy(rest) && (a.finished || Absent(rest, a.hart)))
    ensures Absent([a] + rest, h) == (a.hart != h && Absent(rest, h))
  {
  }

  lemma NoSlots(h: nat)
    ensures Ready([], h) == [] && HartsOf([]) == [] && InProgress([], h) == None && Tidy([]) && Absent([], h)
  {
  }

  // ---- A record begins ------------------------------------------------------------------------------

  lemma {:induction false} AppendedSlot(p: seq<Slot>, s: Slot, h: nat)
    ensures HartsOf(p + [s]) == HartsOf(p) + [s.hart]
    ensures Ready(p + [s], h) == Ready(p, h) + if s.hart == h && s.finished then [s.rec] else []
    ensures InProgress(p + [s], h) ==
      (if InProgress(p, h).Some? then InProgress(p, h) else if s.hart == h && !s.finished then Some(s.rec) else None)
    ensures Absent(p + [s], h) == (Absent(p, h) && s.hart != h)
  {
    hide HartsOf, Ready, InProgress, Tidy, Absent;
    NoSlots(h);
    if p == [] {
      OneSlot(s, [], h);
      assert p + [s] == [s] + [];
    } else {
      AppendedSlot(p[1..], s, h);
      OneSlot(p[0], p[1..], h);
      OneSlot(p[0], p[1..] + [s], h);
      assert p == [p[0]] + p[1..] && p + [s] == [p[0]] + (p[1..] + [s]);
    }
  }

  lemma {:induction false} AppendedTidy(p: seq<Slot>, s: Slot)
    requires Tidy(p) && InProgress(p, s.hart).None?
    ensures Tidy(p + [s])
  {
    hide HartsOf, Ready;
    if p != [] {
      AppendedTidy(p[1..], s);
      assert (p + [s])[1..] == p[1..] + [s];
      AppendedSlot(p[1..], s, p[0].hart);
    }
  }

  lemma {:induction false} AppendedSteps(trace: seq<Line>, i: nat, p: seq<Slot>, s: Slot)
    requires i <= |trace|
    ensures Steps(trace, i, p + [s]) == Steps(trace, i, p) + SlotSteps(trace, i, s)
  {
    hide SlotSteps;
    if p != [] {
      assert (p + [s])[1..] == p[1..] + [s];
      AppendedSteps(trace, i, p[1..], s);
    } else {
      assert p + [s] == [s] && [s][1..] == [];
    }
  }

  // ---- A record ends, or grows -------------------------------------------------------------------------

  /** Hart `h`'s record in progress becomes `new_`. */
  function Replace(p: seq<Slot>, h: nat, new_: seq<Slot>): seq<Slot> {
    if p == [] then []
    else if p[0].hart == h && !p[0].finished then new_ + p[1..]
    else [p[0]] + Replace(p[1..], h, new_)
  }

  function Finished(h: nat, r: Rec): seq<Slot> {
    if IsTwo(r) then [Slot(h, Head(r), true), Slot(h, Tail(r), true)] else [Slot(h, r, true)]
  }

  function RecsOf(h: nat, r: Rec): seq<Rec> {
    if IsTwo(r) then [Head(r), Tail(r)] else [r]
  }

  /** The order with a second entry for `h` after its entry number `n`. */
  function InsertAfter(order: seq<nat>, h: nat, n: nat): seq<nat> {
    if order == [] then []
    else if order[0] != h then [order[0]] + InsertAfter(order[1..], h, n)
    else if n == 0 then [h, h] + order[1..]
    else [h] + InsertAfter(order[1..], h, n - 1)
  }

  lemma FinishedFront(h: nat, r: Rec, rest: seq<Slot>, k: nat)
    ensures var q := Finished(h, r) + rest;
      && Tidy(q) == Tidy(rest) && InProgress(q, k) == InProgress(rest, k)
      && Ready(q, k) == (if k == h then RecsOf(h, r) else []) + Ready(rest, k)
      && HartsOf(q) == (if IsTwo(r) then [h, h] else [h]) + HartsOf(rest)
  {
    hide IsTwo, Head, Tail, HartsOf, Absent, Ready, InProgress, Tidy;
    if IsTwo(r) {
      var a, b := Slot(h, Head(r), true), Slot(h, Tail(r), true);
      OneSlot(a, [b] + rest, k);
      OneSlot(b, rest, k);
      assert Finished(h, r) + rest == [a] + ([b] + rest);
    } else {
      OneSlot(Slot(h, r, true), rest, k);
    }
  }

  /** finish, in terms of the slots: the order, the queues and the records in progress after it. */
  lemma {:induction false} FinishedSlot(p: seq<Slot>, h: nat, r: Rec, k: nat)
    requires Tidy(p) && InProgress(p, h) == Some(r)
    ensures var q := Replace(p, h, Finished(h, r));
      && Tidy(q)
      && InProgress(q, k) == (if k == h then None else InProgress(p, k))
      && Ready(q, k) == Ready(p, k) + (if k == h then RecsOf(h, r) else [])
  {
    hide IsTwo, Head, Tail, HartsOf, Absent, Ready, InProgress, Tidy;
    NoSlots(h);
    var s, rest := p[0], p[1..];
    assert p == [s] + rest;
    OneSlot(s, rest, k);
    OneSlot(s, rest, h);
    if s.hart == h && !s.finished {
      AbsentHasNothing(rest, h);
      FinishedFront(h, r, rest, k);
    } else {
      FinishedSlot(rest, h, r, k);
      OneSlot(s, Replace(rest, h, Finished(h, r)), k);
      if Absent(rest, s.hart) {
        ReplaceKeepsAbsent(rest, h, Finished(h, r), s.hart);
      }
    }
  }

  lemma {:induction false} FinishedOrder(p: seq<Slot>, h: nat, r: Rec)
    requires Tidy(p) && InProgress(p, h) == Some(r)
    ensures HartsOf(Replace(p, h, Finished(h, r)))
         == if IsTwo(r) then InsertAfter(HartsOf(p), h, |Ready(p, h)|) else HartsOf(p)
  {
    hide IsTwo, Head, Tail, HartsOf, Absent, Ready, InProgress, Tidy;
    NoSlots(h);
    var s, rest := p[0], p[1..];
    assert p == [s] + rest;
    OneSlot(s, rest, h);
    assert HartsOf(p)[1..] == HartsOf(rest);
    if s.hart == h && !s.finished {
      AbsentHasNothing(rest, h);
      FinishedFront(h, r, rest, h);
    } else {
      FinishedOrder(rest, h, r);
      OneSlot(s, Replace(rest, h, Finished(h, r)), h);
    }
  }

  lemma {:induction false} ReplaceKeepsAbsent(p: seq<Slot>, h: nat, new_: seq<Slot>, k: nat)
    requires Absent(p, k) && forall s <- new_ :: s.hart == h
    ensures Absent(Replace(p, h, new_), k)
  {
    if p != [] {
      if p[0].hart == h && !p[0].finished {
        AbsentAfter(new_, p[1..], h, k);
      } else {
        ReplaceKeepsAbsent(p[1..], h, new_, k);
        OneSlot(p[0], Replace(p[1..], h, new_), k);
      }
    }
  }

  lemma {:induction false} AbsentAfter(p: seq<Slot>, q: seq<Slot>, h: nat, k: nat)
    requires Absent(q, k) && h != k && forall s <- p :: s.hart == h
    ensures Absent(p + q, k)
  {
    if p == [] {
      assert p + q == q;
    } else {
      AbsentAfter(p[1..], q, h, k);
      assert (p + q)[1..] == p[1..] + q;
      assert p[0] in p;
    }
  }

  lemma {:induction false} GrownSlot(p: seq<Slot>, h: nat, r: Rec, next: Rec, k: nat)
    requires Tidy(p) && InProgress(p, h) == Some(r)
    ensures var q := Replace(p, h, [Slot(h, next, false)]);
      && Tidy(q)
      && InProgress(q, k) == (if k == h then Some(next) else InProgress(p, k))
      && Ready(q, k) == Ready(p, k) && HartsOf(q) == HartsOf(p)
  {
    hide HartsOf, Absent, Ready, InProgress, Tidy;
    NoSlots(h);
    var s, rest := p[0], p[1..];
    assert p == [s] + rest;
    OneSlot(s, rest, k);
    OneSlot(s, rest, h);
    if s.hart == h && !s.finished {
      OneSlot(Slot(h, next, false), rest, k);
    } else {
      GrownSlot(rest, h, r, next, k);
      OneSlot(s, Replace(rest, h, [Slot(h, next, false)]), k);
      if Absent(rest, s.hart) {
        ReplaceKeepsAbsent(rest, h, [Slot(h, next, false)], s.hart);
      }
    }
  }

  // ---- A record is taken ----------------------------------------------------------------------------------

  /** Without hart `h`'s earliest slot. */
  function Without(p: seq<Slot>, h: nat): seq<Slot> {
    if p == [] then [] else if p[0].hart == h then p[1..] else [p[0]] + Without(p[1..], h)
  }

  function EraseFirst(order: seq<nat>, h: nat): seq<nat> {
    if order == [] then [] else if order[0] == h then order[1..] else [order[0]] + EraseFirst(order[1..], h)
  }

  /** stepped, in terms of the slots. */
  lemma {:induction false} TakenSlot(p: seq<Slot>, h: nat, k: nat)
    requires Tidy(p) && Ready(p, h) != []
    ensures var q := Without(p, h);
      && Tidy(q) && HartsOf(q) == EraseFirst(HartsOf(p), h)
      && InProgress(q, k) == InProgress(p, k)
      && Ready(q, k) == if k == h then Ready(p, h)[1..] else Ready(p, k)
  {
    hide HartsOf, Absent, Ready, InProgress, Tidy;
    NoSlots(h);
    var s, rest := p[0], p[1..];
    assert p == [s] + rest;
    OneSlot(s, rest, k);
    OneSlot(s, rest, h);
    assert HartsOf(p)[1..] == HartsOf(rest);
    if s.hart == h {
      if !s.finished {
        AbsentHasNothing(rest, h);
      }
    } else {
      TakenSlot(rest, h, k);
      OneSlot(s, Without(rest, h), k);
      if Absent(rest, s.hart) {
        WithoutKeepsAbsent(rest, h, s.hart);
      }
    }
  }

  lemma {:induction false} WithoutKeepsAbsent(p: seq<Slot>, h: nat, k: nat)
    requires Absent(p, k)
    ensures Absent(Without(p, h), k)
  {
    if p != [] {
      WithoutKeepsAbsent(p[1..], h, k);
    }
  }

  /** The count the order queue keeps: a hart has an entry for each finished record and one for the record
      in progress. */
  function Count(order: seq<nat>, h: nat): nat {
    if order == [] then 0 else (if order[0] == h then 1 else 0) + Count(order[1..], h)
  }

  lemma {:induction false} OrderCounts(p: seq<Slot>, h: nat)
    requires Tidy(p)
    ensures Count(HartsOf(p), h) == |Ready(p, h)| + if InProgress(p, h).Some? then 1 else 0
  {
    if p != [] {
      OrderCounts(p[1..], h);
      assert HartsOf(p)[1..] == HartsOf(p[1..]);
      if p[0].hart == h && !p[0].finished {
        AbsentHasNothing(p[1..], h);
      }
    }
  }

  // ---- Reading a line loses and reorders nothing --------------------------------------------------------------

  /** Slots of other harts do not read the line. */
  lemma {:induction false} UnreadLine(trace: seq<Line>, i: nat, p: seq<Slot>)
    requires i < |trace|
    requires InProgress(p, MarkedAt(trace, i)).None? || trace[i].Marker? || trace[i].Cycle? || trace[i].Other?
    ensures Steps(trace, i, p) == Steps(trace, i + 1, p)
  {
    if p != [] {
      UnreadLine(trace, i, p[1..]);
    }
  }

  /** A record that the line ends says what it ends saying. */
  lemma {:induction false} EndedByLine(trace: seq<Line>, i: nat, p: seq<Slot>, r: Rec)
    requires i < |trace| && Tidy(p) && InProgress(p, MarkedAt(trace, i)) == Some(r) && Begins(Some(r), trace[i])
    ensures Steps(trace, i + 1, Replace(p, MarkedAt(trace, i), Finished(MarkedAt(trace, i), r))) == Steps(trace, i, p)
  {
    hide IsTwo, Head, Tail;
    var h := MarkedAt(trace, i);
    var s, rest := p[0], p[1..];
    if s.hart == h && !s.finished {
      AbsentHasNothing(rest, h);
      UnreadLine(trace, i, rest);
      FinishedSteps(trace, i + 1, h, r, rest);
    } else {
      EndedByLine(trace, i, rest, r);
      assert ([s] + Replace(rest, h, Finished(h, r)))[1..] == Replace(rest, h, Finished(h, r));
    }
  }

  lemma FinishedSteps(trace: seq<Line>, i: nat, h: nat, r: Rec, rest: seq<Slot>)
    requires i <= |trace|
    ensures Steps(trace, i, Finished(h, r) + rest) == StepsOf(h, r) + Steps(trace, i, rest)
  {
  }

  lemma {:induction false} GrownByLine(trace: seq<Line>, i: nat, p: seq<Slot>, r: Rec)
    requires i < |trace| && Tidy(p) && InProgress(p, MarkedAt(trace, i)) == Some(r) && !Begins(Some(r), trace[i])
    ensures Steps(trace, i + 1, Replace(p, MarkedAt(trace, i), [Slot(MarkedAt(trace, i), Grow(r, trace[i]), false)]))
      == Steps(trace, i, p)
  {
    hide StepsOf, Grow;
    var h := MarkedAt(trace, i);
    var s, rest := p[0], p[1..];
    var grown := [Slot(h, Grow(r, trace[i]), false)];
    if s.hart == h && !s.finished {
      AbsentHasNothing(rest, h);
      UnreadLine(trace, i, rest);
      assert (grown + rest)[1..] == rest;
    } else {
      GrownByLine(trace, i, rest, r);
      assert ([s] + Replace(rest, h, grown))[1..] == Replace(rest, h, grown);
    }
  }

  /** At the end of the trace a record says what it says. */
  lemma {:induction false} EndedByTrace(trace: seq<Line>, p: seq<Slot>, h: nat, r: Rec)
    requires Tidy(p) && InProgress(p, h) == Some(r)
    ensures Steps(trace, |trace|, Replace(p, h, Finished(h, r))) == Steps(trace, |trace|, p)
  {
    hide IsTwo, Head, Tail;
    var s, rest := p[0], p[1..];
    if s.hart == h && !s.finished {
      FinishedSteps(trace, |trace|, h, r, rest);
    } else {
      EndedByTrace(trace, rest, h, r);
      assert ([s] + Replace(rest, h, Finished(h, r)))[1..] == Replace(rest, h, Finished(h, r));
    }
  }

  // ---- For the queue ---------------------------------------------------------------------------------------

  lemma {:induction false} ReplaceLast(p: seq<Slot>, h: nat, s: Slot, new_: seq<Slot>)
    requires InProgress(p, h).None? && s.hart == h && !s.finished
    ensures Replace(p + [s], h, new_) == p + new_
  {
    if p == [] {
      assert p + [s] == [s] && [s][1..] == [];
    } else {
      assert (p + [s])[1..] == p[1..] + [s];
      ReplaceLast(p[1..], h, s, new_);
    }
  }

  /** A record begun by a line is the steps it will be, after all that began before it. */
  lemma BegunSteps(trace: seq<Line>, i: nat, p: seq<Slot>, h: nat, r: Rec)
    requires i < |trace| && InProgress(p, h).None?
    ensures Steps(trace, i + 1, Replace(p + [Slot(h, r, false)], h, [Slot(h, Grow(r, trace[i]), false)]))
         == Steps(trace, i + 1, p) + StepsOf(h, Ended(trace, i + 1, h, Grow(r, trace[i])))
  {
    hide Grow, StepsOf, Ended, Steps, InProgress, Replace;
    ReplaceLast(p, h, Slot(h, r, false), [Slot(h, Grow(r, trace[i]), false)]);
    AppendedSteps(trace, i + 1, p, Slot(h, Grow(r, trace[i]), false));
  }

  function Unfinished(p: seq<Slot>): nat {
    if p == [] then 0 else (if p[0].finished then 0 else 1) + Unfinished(p[1..])
  }

  lemma {:induction false} SomeUnfinished(p: seq<Slot>, h: nat)
    requires InProgress(p, h).Some?
    ensures Unfinished(p) > 0
  {
    if p[0].finished || p[0].hart != h {
      SomeUnfinished(p[1..], h);
    }
  }

  lemma {:induction false} OneFewerUnfinished(p: seq<Slot>, h: nat, r: Rec)
    requires InProgress(p, h) == Some(r)
    ensures Unfinished(Replace(p, h, Finished(h, r))) == Unfinished(p) - 1
  {
    hide IsTwo, Head, Tail;
    var s, rest := p[0], p[1..];
    if s.hart == h && !s.finished {
      var q := Finished(h, r) + rest;
      if IsTwo(r) {
        assert q[1..][1..] == rest;
      } else {
        assert q[1..] == rest;
      }
    } else {
      OneFewerUnfinished(rest, h, r);
      assert ([s] + Replace(rest, h, Finished(h, r)))[1..] == Replace(rest, h, Finished(h, r));
    }
  }

  lemma {:induction false} NothingInProgress(p: seq<Slot>)
    requires forall h: nat :: InProgress(p, h).None?
    ensures Unfinished(p) == 0
  {
    if p != [] {
      assert InProgress(p, p[0].hart).None?;
      forall h: nat
        ensures InProgress(p[1..], h).None?
      {
        assert InProgress(p, h).None?;
      }
      NothingInProgress(p[1..]);
    }
  }

  lemma FrontIsFinished(p: seq<Slot>, h: nat)
    requires Tidy(p) && HartsOf(p) != [] && HartsOf(p)[0] == h && Ready(p, h) != []
    ensures p != [] && p[0].finished && p[0].hart == h && Ready(p, h)[0] == p[0].rec && Without(p, h) == p[1..]
  {
    if !p[0].finished {
      AbsentHasNothing(p[1..], h);
    }
  }

  lemma FrontStep(trace: seq<Line>, i: nat, p: seq<Slot>)
    requires i <= |trace| && p != [] && p[0].finished
    ensures Steps(trace, i, p) == [Step(p[0].hart, p[0].rec)] + Steps(trace, i, p[1..])
  {
  }
}
