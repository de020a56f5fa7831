/** What a reference trace says, by position and without a machine: where records begin and end, what each says
    from its own lines, and the steps that makes. */
module LockstepSpec {
  import opened Words
  import opened Lockstep

  // ---- Where records begin -------------------------------------------------------------------------

  /** Hart `h`'s lines from `i` up to `j`. */
  function Lines(trace: seq<Line>, i: nat, j: nat, h: nat): seq<Line>
    requires i <= j <= |trace|
    decreases j
  {
    if i == j then []
    else Lines(trace, i, j - 1, h) + (if MarkedAt(trace, j - 1) == h then [trace[j - 1]] else [])
  }

  predicate Trapped(ls: seq<Line>) {
    exists l <- ls :: l.Handling?
  }

  /** A record begins with an instruction line, with an interrupt, and with a trap of a hart that has no record yet or
      whose record has a trap already. */
  predicate StartsAt(trace: seq<Line>, i: nat)
    requires i < |trace|
    decreases i, 1
  {
    var h := MarkedAt(trace, i);
    var began := Since(trace, i, h);
    match trace[i]
    case Insn(_, _) => true
    case Handling(interrupt, _) => interrupt || began.None? || Trapped(Lines(trace, began.value, i, h))
    case _ => false
  }

  /** Where hart `h`'s latest record before line `i` began. */
  function Since(trace: seq<Line>, i: nat, h: nat): (s: Option<nat>)
    requires i <= |trace|
    ensures s.Some? ==> s.value < i
    decreases i, 0
  {
    if i == 0 then None
    else if MarkedAt(trace, i - 1) == h && StartsAt(trace, i - 1) then Some(i - 1)
    else Since(trace, i - 1, h)
  }

  /** Where its next one begins, from `i` on, or the trace's end. */
  function EndOf(trace: seq<Line>, i: nat, h: nat): (e: nat)
    requires i <= |trace|
    ensures i <= e <= |trace|
    decreases |trace| - i
  {
    if i == |trace| || (MarkedAt(trace, i) == h && StartsAt(trace, i)) then i else EndOf(trace, i + 1, h)
  }

  // ---- What a record's lines say -------------------------------------------------------------------

  /** Where the trap is among a record's lines, or their end. */
  function TrapAt(ls: seq<Line>): (t: nat)
    ensures t <= |ls| && (t < |ls| ==> ls[t].Handling?)
  {
    if ls == [] || ls[0].Handling? then 0 else 1 + TrapAt(ls[1..])
  }

  /** The registers written, CSRs among them, in order. */
  function Writes(ls: seq<Line>): seq<Field> {
    if ls == [] then [] else Write(ls[0]) + Writes(ls[1..])
  }

  function Write(l: Line): seq<Field> {
    match l
    case Csr(num, value) => [Field('c', num, value)]
    case Reg(file, num, value) => [Field(file, num, value)]
    case _ => []
  }

  function CsrWrites(ls: seq<Line>): seq<Field> {
    if ls == [] then []
    else (if ls[0].Csr? then [Field('c', ls[0].num, ls[0].value)] else []) + CsrWrites(ls[1..])
  }

  function StoresIn(ls: seq<Line>): seq<(nat, nat)> {
    if ls == [] then []
    else (if ls[0].Mem? then [(ls[0].addr, ls[0].value)] else []) + StoresIn(ls[1..])
  }

  /** The last value written to mepc, sepc or vsepc. */
  function LastEpc(ls: seq<Line>): Option<nat> {
    if ls == [] then None
    else
      var later := LastEpc(ls[1..]);
      if later.Some? then later
      else if ls[0].Csr? && ls[0].num in {0x341, 0x141, 0x241} then Some(ls[0].value)
      else None
  }

  /** The last cycle stamp. */
  function Stamp(ls: seq<Line>): Option<nat> {
    if ls == [] then None
    else
      var later := Stamp(ls[1..]);
      if later.Some? then later else if ls[0].Cycle? then Some(ls[0].n) else None
  }

  /** Before the trap the instruction's own writes and stores, after it the trap's CSRs. */
  function RecordOf(cycle: Option<nat>, ls: seq<Line>): Rec {
    var t := TrapAt(ls);
    var own, trap := ls[..t], if t < |ls| then ls[t + 1..] else [];
    var insn := ls != [] && ls[0].Insn?;
    Rec(if t == |ls| then Commit else if ls[t].interrupt then Interrupt else Exception,
        insn, if insn then ls[0].pc else 0, if insn then ls[0].insn else 0,
        t < |ls|, if t < |ls| then ls[t].cause else 0,
        LastEpc(trap), cycle, Writes(own), CsrWrites(trap), StoresIn(own), false, false)
  }

  /** A record that is an instruction, then a fetch fault (causes 1, 12 and 20) taken at another address, is two
      steps: the lines before the trap, and the lines from the trap on. Each keeps what it does not use of the
      other. */
  function StepsIn(h: nat, cycle: Option<nat>, ls: seq<Line>): seq<Step> {
    var r, t := RecordOf(cycle, ls), TrapAt(ls);
    if r.hasInsn && r.kind == Exception && r.cause in {1, 12, 20} && r.epc.Some? && r.epc.value != r.pc then
      [Step(h, RecordOf(cycle, ls[..t]).(cause := r.cause, epc := r.epc, continues := true)),
       Step(h, RecordOf(cycle, ls[t..]).(pc := r.pc, insn := r.insn, splitTail := true))]
    else [Step(h, r)]
  }

  /** The lines of the record that begins at `i`, and the stamp that came for it since the hart's last one began. */
  function RecordLines(trace: seq<Line>, i: nat): seq<Line>
    requires i < |trace|
  {
    var h := MarkedAt(trace, i);
    Lines(trace, i, EndOf(trace, i + 1, h), h)
  }

  function StampFor(trace: seq<Line>, i: nat, h: nat): Option<nat>
    requires i <= |trace|
  {
    var began := Since(trace, i, h);
    Stamp(Lines(trace, if began.Some? then began.value else 0, i, h))
  }

  /** The steps of the records that begin at `i` or later, in the order they begin. */
  function Said(trace: seq<Line>, i: nat): seq<Step>
    requires i <= |trace|
    decreases |trace| - i
  {
    if i == |trace| then []
    else
      var h := MarkedAt(trace, i);
      (if StartsAt(trace, i) then StepsIn(h, StampFor(trace, i, h), RecordLines(trace, i)) else [])
      + Said(trace, i + 1)
  }

  // ---- One more line ---------------------------------------------------------------------------------

  lemma {:induction false} TrapAtMore(ls: seq<Line>, l: Line)
    ensures Trapped(ls) <==> TrapAt(ls) < |ls|
    ensures TrapAt(ls + [l]) == if Trapped(ls) || l.Handling? then TrapAt(ls) else |ls| + 1
  {
    if ls == [] {
      assert [] + [l] == [l] && [l][1..] == [];
    } else {
      TrapAtMore(ls[1..], l);
      assert ls == [ls[0]] + ls[1..] && (ls + [l])[1..] == ls[1..] + [l];
    }
  }

  lemma {:induction false} MoreWrites(ls: seq<Line>, l: Line)
    ensures Writes(ls + [l]) == Writes(ls) + Writes([l])
  {
    hide Write;
    if ls == [] {
      assert [] + [l] == [l];
    } else {
      MoreWrites(ls[1..], l);
      assert (ls + [l])[1..] == ls[1..] + [l];
    }
  }

  lemma {:induction false} MoreCsrWrites(ls: seq<Line>, l: Line)
    ensures CsrWrites(ls + [l]) == CsrWrites(ls) + CsrWrites([l])
  {
    if ls == [] {
      assert [] + [l] == [l];
    } else {
      MoreCsrWrites(ls[1..], l);
      assert (ls + [l])[1..] == ls[1..] + [l];
    }
  }

  lemma {:induction false} MoreStores(ls: seq<Line>, l: Line)
    ensures StoresIn(ls + [l]) == StoresIn(ls) + StoresIn([l])
  {
    if ls == [] {
      assert [] + [l] == [l];
    } else {
      MoreStores(ls[1..], l);
      assert (ls + [l])[1..] == ls[1..] + [l];
    }
  }

  lemma {:induction false} MoreEpc(ls: seq<Line>, l: Line)
    ensures LastEpc(ls + [l]) == if LastEpc([l]).Some? then LastEpc([l]) else LastEpc(ls)
  {
    if ls == [] {
      assert [] + [l] == [l];
    } else {
      MoreEpc(ls[1..], l);
      assert (ls + [l])[1..] == ls[1..] + [l];
    }
  }

  lemma {:induction false} MoreStamp(ls: seq<Line>, l: Line)
    ensures Stamp(ls + [l]) == if Stamp([l]).Some? then Stamp([l]) else Stamp(ls)
  {
    if ls == [] {
      assert [] + [l] == [l];
    } else {
      MoreStamp(ls[1..], l);
      assert (ls + [l])[1..] == ls[1..] + [l];
    }
  }

  lemma OneLine(l: Line)
    ensures TrapAt([l]) == (if l.Handling? then 0 else 1) && Trapped([l]) == l.Handling?
    ensures Writes([l]) == Write(l)
    ensures CsrWrites([l]) == if l.Csr? then [Field('c', l.num, l.value)] else []
    ensures StoresIn([l]) == if l.Mem? then [(l.addr, l.value)] else []
    ensures LastEpc([l]) == if l.Csr? && l.num in {0x341, 0x141, 0x241} then Some(l.value) else None
    ensures Stamp([l]) == if l.Cycle? then Some(l.n) else None
  {
    assert [l][1..] == [] && l in [l];
  }

  /** A record that begins with a line says what that line says. */
  lemma FirstLine(cycle: Option<nat>, l: Line)
    requires l.Insn? || l.Handling?
    ensures RecordOf(cycle, [l]) == Grow(Fresh(cycle), l)
  {
    OneLine(l);
    assert [l][..0] == [] && [l][..1] == [l] && [l][1..] == [];
  }

  /** And another line adds what it says. */
  lemma NextLine(cycle: Option<nat>, ls: seq<Line>, l: Line)
    requires ls != [] && !l.Insn? && (l.Handling? ==> !l.interrupt && !Trapped(ls))
    ensures RecordOf(cycle, ls + [l]) == Grow(RecordOf(cycle, ls), l)
  {
    hide Trapped, TrapAt, Writes, CsrWrites, StoresIn, LastEpc;
    OneLine(l);
    TrapAtMore(ls, l);
    var t, more := TrapAt(ls), ls + [l];
    if Trapped(ls) {
      assert more[..t] == ls[..t] && more[t + 1..] == ls[t + 1..] + [l];
      MoreCsrWrites(ls[t + 1..], l);
      MoreEpc(ls[t + 1..], l);
    } else if l.Handling? {
      assert more[..t] == ls && ls[..t] == ls && more[t + 1..] == [];
    } else {
      assert more[..t + 1] == more && ls[..t] == ls;
      MoreWrites(ls, l);
      MoreStores(ls, l);
    }
  }

  // ---- The records in progress -------------------------------------------------------------------------

  /** What is in progress before line `i` is what the hart's lines since its record began say. */
  ghost predicate InStep(trace: seq<Line>, i: nat, h: nat)
    requires i <= |trace|
  {
    var p, began := At(trace, i, h), Since(trace, i, h);
    && p.cycle == StampFor(trace, i, h)
    && (began.None? ==> p.cur == None)
    && (began.Some? ==>
          && p.cur == Some(RecordOf(StampFor(trace, began.value, h), Lines(trace, began.value, i, h)))
          && Lines(trace, began.value, i, h) != [])
  }

  lemma BeginsIsStarts(trace: seq<Line>, i: nat)
    requires i < |trace| && InStep(trace, i, MarkedAt(trace, i))
    ensures Begins(At(trace, i, MarkedAt(trace, i)).cur, trace[i]) == StartsAt(trace, i)
  {
    hide Trapped, Lines, At, MarkedAt, Since, Stamp, LastEpc, Writes, CsrWrites, StoresIn, TrapAt;
    var h := MarkedAt(trace, i);
    var began := Since(trace, i, h);
    if began.Some? {
      TrapAtMore(Lines(trace, began.value, i, h), Other);
    }
  }

  lemma LinesStep(trace: seq<Line>, s: nat, i: nat, h: nat)
    requires s <= i < |trace|
    ensures Lines(trace, s, i + 1, h) ==
      if MarkedAt(trace, i) == h then Lines(trace, s, i, h) + [trace[i]] else Lines(trace, s, i, h)
    ensures Lines(trace, i, i, h) == []
  {
  }

  lemma {:induction false} AtSays(trace: seq<Line>, i: nat, h: nat)
    requires i <= |trace|
    ensures InStep(trace, i, h)
    decreases i
  {
    hide InStep;
    if i == 0 {
      InStepAtFirst(trace, h);
    } else {
      AtSays(trace, i - 1, h);
      if MarkedAt(trace, i - 1) == h {
        BeginsIsStarts(trace, i - 1);
      }
      InStepNext(trace, i - 1, h);
    }
  }

  lemma InStepAtFirst(trace: seq<Line>, h: nat)
    ensures InStep(trace, 0, h)
  {
  }

  lemma InStepNext(trace: seq<Line>, i: nat, h: nat)
    requires i < |trace| && InStep(trace, i, h)
    requires MarkedAt(trace, i) == h ==> Begins(At(trace, i, h).cur, trace[i]) == StartsAt(trace, i)
    ensures InStep(trace, i + 1, h)
  {
    hide RecordOf, Lines, Stamp, Grow, Fresh, MarkedAt, Trapped, Begins, StartsAt;
    var began, line := Since(trace, i, h), trace[i];
    var s := if began.Some? then began.value else 0;
    LinesStep(trace, s, i, h);
    LinesStep(trace, i, i, h);
    if MarkedAt(trace, i) == h {
      MoreStamp(Lines(trace, s, i, h), line);
      OneLine(line);
      StartingLine(trace, i);
      assert [] + [line] == [line];
      if StartsAt(trace, i) {
        FirstLine(StampFor(trace, i, h), line);
      } else if began.Some? {
        NextLine(StampFor(trace, s, h), Lines(trace, s, i, h), line);
        Unmoved(RecordOf(StampFor(trace, s, h), Lines(trace, s, i, h)), line);
      }
    }
  }

  lemma StartingLine(trace: seq<Line>, i: nat)
    requires i < |trace|
    ensures StartsAt(trace, i) ==> trace[i].Insn? || trace[i].Handling?
    ensures !StartsAt(trace, i) ==> !trace[i].Insn? && (trace[i].Handling? ==>
      var h := MarkedAt(trace, i);
      !trace[i].interrupt && Since(trace, i, h).Some? && !Trapped(Lines(trace, Since(trace, i, h).value, i, h)))
  {
  }

  /** A stamp is for the next record, not for this one. */
  lemma Unmoved(r: Rec, line: Line)
    ensures line.Cycle? ==> Grow(r, line) == r
  {
  }

  /** What a record says at its end is what its lines say. */
  lemma {:induction false} EndedSays(trace: seq<Line>, s: nat, i: nat, h: nat)
    requires s < i <= |trace| && Since(trace, i, h) == Some(s)
    ensures Ended(trace, i, h, RecordOf(StampFor(trace, s, h), Lines(trace, s, i, h)))
      == RecordOf(StampFor(trace, s, h), Lines(trace, s, EndOf(trace, i, h), h))
    decreases |trace| - i
  {
    hide RecordOf, Lines, Stamp, Grow, MarkedAt, Trapped, StartsAt, Begins;
    if i < |trace| {
      AtSays(trace, i, h);
      LinesStep(trace, s, i, h);
      if MarkedAt(trace, i) != h {
        EndedSays(trace, s, i + 1, h);
      } else {
        BeginsIsStarts(trace, i);
        if !StartsAt(trace, i) {
          StartingLine(trace, i);
          NextLine(StampFor(trace, s, h), Lines(trace, s, i, h), trace[i]);
          EndedSays(trace, s, i + 1, h);
        }
      }
    }
  }

  lemma BegunSays(trace: seq<Line>, i: nat)
    requires i < |trace| && StartsAt(trace, i)
    ensures var h := MarkedAt(trace, i);
      var c := StampFor(trace, i, h);
      Ended(trace, i + 1, h, Grow(Fresh(c), trace[i])) == RecordOf(c, RecordLines(trace, i))
  {
    hide RecordOf, Lines, Stamp, Grow, Fresh, MarkedAt, Trapped, StartsAt, Ended, EndOf;
    var h := MarkedAt(trace, i);
    StartingLine(trace, i);
    LinesStep(trace, i, i, h);
    assert [] + [trace[i]] == [trace[i]];
    FirstLine(StampFor(trace, i, h), trace[i]);
    EndedSays(trace, i, i + 1, h);
  }

  lemma StepsAreIn(h: nat, cycle: Option<nat>, ls: seq<Line>)
    ensures StepsOf(h, RecordOf(cycle, ls)) == StepsIn(h, cycle, ls)
  {
    hide Trapped, Writes, CsrWrites, StoresIn, LastEpc, TrapAt;
    var t := TrapAt(ls);
    TrapAtMore(ls, Other);
    Untrapped(ls);
    NothingSaid();
    if 0 < t < |ls| {
      assert ls[..t][0] == ls[0] && ls[..t][..t] == ls[..t];
      assert ls[t..][0] == ls[t] && ls[t..][..0] == [] && ls[t..][1..] == ls[t + 1..];
    }
  }

  lemma {:induction false} Untrapped(ls: seq<Line>)
    ensures TrapAt(ls[..TrapAt(ls)]) == TrapAt(ls)
    ensures TrapAt(ls) < |ls| ==> TrapAt(ls[TrapAt(ls)..]) == 0
  {
    if ls != [] && !ls[0].Handling? {
      Untrapped(ls[1..]);
      var t := TrapAt(ls);
      assert ls[..t][1..] == ls[1..][..t - 1] && ls[t..] == ls[1..][t - 1..];
    }
  }

  lemma NothingSaid()
    ensures Writes([]) == [] && CsrWrites([]) == [] && StoresIn([]) == [] && LastEpc([]) == None
  {
  }

  /** The machine's steps are the trace's: begun where a record begins by position, and each saying what its own
      lines say. */
  lemma {:induction false} StepsAreSaid(trace: seq<Line>, i: nat)
    requires i <= |trace|
    ensures StepsFrom(trace, i) == Said(trace, i)
    decreases |trace| - i
  {
    hide StepsIn, StepsOf, RecordLines, StampFor, Ended, Grow, Fresh, MarkedAt, StartsAt, Begins, At, RecordOf;
    if i < |trace| {
      var h := MarkedAt(trace, i);
      StepsAreSaid(trace, i + 1);
      AtSays(trace, i, h);
      BeginsIsStarts(trace, i);
      if StartsAt(trace, i) {
        BegunSays(trace, i);
        StepsAreIn(h, StampFor(trace, i, h), RecordLines(trace, i));
      }
    }
  }
}
