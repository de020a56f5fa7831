/** The demultiplexer as the emulator keeps it: a queue of finished records and a record in progress for
    each hart, and one order queue. What it hands out, following the order, is the trace's steps. */
module LockstepQueue {
  import opened Words
  import opened Lockstep
  import L = LockstepSpec

  datatype Stream = Stream(ready: seq<Rec>, cur: Option<Rec>, cycle: Option<nat>)

  lemma OneTaken(steps: seq<Step>, step: Step, rest: seq<Step>)
    ensures steps + ([step] + rest) == steps + [step] + rest
  {
  }

  /** One entry further on. */
  lemma InsertFrom(order: seq<nat>, i: nat, h: nat, n: nat)
    requires i <= |order|
    ensures order[..i] + InsertAfter(order[i..], h, n) ==
      if i == |order| then order
      else if order[i] == h && n == 0 then order[..i + 1] + [h] + order[i + 1..]
      else order[..i + 1] + InsertAfter(order[i + 1..], h, if order[i] == h then n - 1 else n)
  {
    if i < |order| {
      assert order[i..][1..] == order[i + 1..] && order[..i + 1] == order[..i] + [order[i]];
    }
  }

  class Demux {
    const trace: seq<Line>
    var pos: nat
    var marked: nat
    var streams: seq<Stream>
    var order: seq<nat>

    /** The records begun and not yet stepped, in the order begun. */
    ghost var slots: seq<Slot>

    /** stream(h): a hart not yet heard of has an empty one. */
    function StreamOf(h: nat): Stream
      reads this`streams
    {
      if h < |streams| then streams[h] else Stream([], None, None)
    }

    /** Each queue is its part of the slots. */
    ghost predicate Queues()
      reads this`streams, this`order, this`slots
    {
      && Tidy(slots) && order == HartsOf(slots)
      && forall h: nat :: StreamOf(h).ready == Ready(slots, h) && StreamOf(h).cur == InProgress(slots, h)
    }

    ghost predicate Valid()
      reads this
    {
      && Queues()
      && pos <= |trace| && marked == MarkedAt(trace, pos)
      && (pos < |trace| ==> forall h: nat :: Progress(StreamOf(h).cur, StreamOf(h).cycle) == At(trace, pos, h))
    }

    /** The steps still to be handed out, in order. */
    ghost function Ahead(): seq<Step>
      requires pos <= |trace|
      reads this
    {
      Steps(trace, pos, slots) + StepsFrom(trace, pos)
    }

    constructor (trace: seq<Line>)
      ensures Valid() && this.trace == trace && Ahead() == L.Said(trace, 0)
    {
      L.StepsAreSaid(trace, 0);
      this.trace := trace;
      pos, marked, streams, order, slots := 0, 0, [], [], [];
    }

    method SetStream(h: nat, st: Stream)
      modifies this`streams
      ensures forall k: nat :: StreamOf(k) == if k == h then st else old(StreamOf(k))
      ensures h < |old(streams)| ==> |streams| == |old(streams)|
    {
      while |streams| <= h
        invariant h < |old(streams)| ==> streams == old(streams)
        invariant forall k: nat :: StreamOf(k) == old(StreamOf(k))
      {
        streams := streams + [Stream([], None, None)];
      }
      streams := streams[h := st];
    }

    method Begin(h: nat)
      requires Queues() && StreamOf(h).cur.None?
      modifies this`streams, this`order, this`slots
      ensures Queues() && slots == old(slots) + [Slot(h, Fresh(old(StreamOf(h)).cycle), false)]
      ensures StreamOf(h).cycle == None && StreamOf(h).cur == Some(Fresh(old(StreamOf(h)).cycle))
      ensures forall k: nat | k != h :: StreamOf(k) == old(StreamOf(k))
    {
      hide Fresh;
      var st := StreamOf(h);
      var s := Slot(h, Fresh(st.cycle), false);
      AppendedTidy(slots, s);
      forall k: nat
        ensures Ready(slots + [s], k) == Ready(slots, k) && HartsOf(slots + [s]) == HartsOf(slots) + [h]
        ensures InProgress(slots + [s], k) == if k == h then Some(s.rec) else InProgress(slots, k)
      {
        AppendedSlot(slots, s, k);
      }
      SetStream(h, st.(cur := Some(s.rec), cycle := None));
      order := order + [h];
      slots := slots + [s];
    }

    /** The second entry of a record that is two steps, next to its first: the hart's finished records are
        older, and come first. */
    method InsertInOrder(h: nat, older: nat)
      modifies this`order
      ensures order == InsertAfter(old(order), h, older)
    {
      hide InsertAfter;
      var i, left := 0, older;
      assert order[..0] + InsertAfter(order[0..], h, left) == InsertAfter(order, h, older) by {
        assert order[0..] == order;
      }
      while i < |order|
        invariant i <= |order| && order == old(order)
        invariant InsertAfter(order, h, older) == order[..i] + InsertAfter(order[i..], h, left)
      {
        InsertFrom(order, i, h, left);
        if order[i] == h {
          if left == 0 {
            order := order[..i + 1] + [h] + order[i + 1..];
            return;
          }
          left := left - 1;
        }
        i := i + 1;
      }
      InsertFrom(order, i, h, left);
    }

    method Finish(h: nat)
      requires Queues() && StreamOf(h).cur.Some?
      modifies this`streams, this`order, this`slots
      ensures Queues() && slots == Replace(old(slots), h, Finished(h, old(StreamOf(h)).cur.value))
      ensures forall k: nat :: StreamOf(k).cycle == old(StreamOf(k)).cycle
      ensures forall k: nat :: StreamOf(k).cur == if k == h then None else old(StreamOf(k)).cur
      ensures |streams| == |old(streams)|
    {
      hide IsTwo, Head, Tail, Replace, Ready, InProgress, Tidy, HartsOf;
      var st := StreamOf(h);
      var r := st.cur.value;
      forall k: nat
        ensures Tidy(Replace(slots, h, Finished(h, r)))
        ensures InProgress(Replace(slots, h, Finished(h, r)), k) == if k == h then None else InProgress(slots, k)
        ensures Ready(Replace(slots, h, Finished(h, r)), k) == Ready(slots, k) + if k == h then RecsOf(h, r) else []
      {
        FinishedSlot(slots, h, r, k);
      }
      FinishedOrder(slots, h, r);
      if IsTwo(r) {
        InsertInOrder(h, |st.ready|);
        SetStream(h, Stream(st.ready + [Head(r), Tail(r)], None, st.cycle));
      } else {
        SetStream(h, Stream(st.ready + [r], None, st.cycle));
      }
      slots := Replace(slots, h, Finished(h, r));
    }

    /** A line adds to the record in progress. */
    method Extend(h: nat, line: Line)
      requires Queues() && StreamOf(h).cur.Some?
      modifies this`streams, this`slots
      ensures Queues() && slots == Replace(old(slots), h, [Slot(h, Grow(old(StreamOf(h)).cur.value, line), false)])
      ensures forall k: nat :: StreamOf(k).cycle == old(StreamOf(k)).cycle
      ensures StreamOf(h).cur == Some(Grow(old(StreamOf(h)).cur.value, line))
      ensures forall k: nat | k != h :: StreamOf(k).cur == old(StreamOf(k)).cur
    {
      hide Grow, Replace, Ready, InProgress, Tidy, HartsOf;
      var st := StreamOf(h);
      var next := Grow(st.cur.value, line);
      forall k: nat
        ensures var q := Replace(slots, h, [Slot(h, next, false)]);
          Tidy(q) && HartsOf(q) == HartsOf(slots) && Ready(q, k) == Ready(slots, k)
          && InProgress(q, k) == if k == h then Some(next) else InProgress(slots, k)
      {
        GrownSlot(slots, h, st.cur.value, next, k);
      }
      SetStream(h, st.(cur := Some(next)));
      slots := Replace(slots, h, [Slot(h, next, false)]);
    }

    /** A cycle stamp, for the record that begins next. */
    method Stamp(h: nat, n: nat)
      requires Queues()
      modifies this`streams
      ensures Queues()
      ensures forall k: nat :: StreamOf(k).cur == old(StreamOf(k)).cur
      ensures forall k: nat :: StreamOf(k).cycle == if k == h then Some(n) else old(StreamOf(k)).cycle
    {
      hide Ready, InProgress, Tidy, HartsOf;
      SetStream(h, StreamOf(h).(cycle := Some(n)));
    }

    /** One line of the trace; whether it finished a record. */
    method ReadLine() returns (finished: bool)
      requires Valid() && pos < |trace|
      modifies this
      ensures Valid() && pos == old(pos) + 1 && Ahead() == old(Ahead())
      ensures !finished ==> slots == old(slots) || Unfinished(slots) > 0
    {
      hide Queues, InProgress, Steps, Fresh;
      var line := trace[pos];
      if line.Marker? {
        UnreadLine(trace, pos, slots);
        marked := line.hart;
        pos := pos + 1;
        return false;
      }
      if line.Cycle? {
        UnreadLine(trace, pos, slots);
        Stamp(marked, line.n);
        pos := pos + 1;
        return false;
      }
      finished := ReadRecordLine(line);
      pos := pos + 1;
    }

    method ReadRecordLine(line: Line) returns (finished: bool)
      requires Valid() && pos < |trace| && line == trace[pos] && !line.Marker? && !line.Cycle?
      modifies this`streams, this`order, this`slots
      ensures Queues()
      ensures forall k: nat :: (Progress(StreamOf(k).cur, StreamOf(k).cycle) ==
        if k == marked then Feed(At(trace, pos, k), line) else At(trace, pos, k))
      ensures Steps(trace, pos + 1, slots) + StepsFrom(trace, pos + 1) == old(Ahead())
      ensures !finished ==> slots == old(slots) || Unfinished(slots) > 0
    {
      hide Grow, IsTwo, Replace, Ready, Tidy, HartsOf, Steps, Fresh, StepsOf, Ended, MarkedAt, At;
      var h := marked;
      var st := StreamOf(h);
      finished := false;
      if Begins(st.cur, line) {
        if st.cur.Some? {
          EndedByLine(trace, pos, slots, st.cur.value);
          Finish(h);
          finished := true;
        } else {
          UnreadLine(trace, pos, slots);
        }
        ghost var before := slots;
        Begin(h);
        Extend(h, line);
        BegunSteps(trace, pos, before, h, Fresh(st.cycle));
        SomeUnfinished(slots, h);
        return;
      }
      if st.cur.None? {
        UnreadLine(trace, pos, slots);
        return;
      }
      GrownByLine(trace, pos, slots, st.cur.value);
      Extend(h, line);
      SomeUnfinished(slots, h);
    }

    /** next_sail: lines until a record is finished; at the end of the trace, every record in progress. */
    method NextSail() returns (more: bool)
      requires Valid()
      modifies this
      ensures Valid() && Ahead() == old(Ahead()) && old(pos) <= pos
      ensures more ==> pos > old(pos) || Unfinished(slots) < old(Unfinished(slots))
      ensures !more ==> pos == |trace| && Unfinished(slots) == 0 && slots == old(slots)
    {
      hide Ready, InProgress, Tidy, HartsOf, Steps, StepsFrom;
      while pos < |trace|
        invariant Valid() && Ahead() == old(Ahead()) && old(pos) <= pos
        invariant pos == old(pos) ==> slots == old(slots)
        invariant slots == old(slots) || Unfinished(slots) > 0
      {
        var finished := ReadLine();
        if finished {
          return true;
        }
      }
      more := false;
      ghost var before := slots;
      var h := 0;
      while h < |streams|
        invariant h <= |streams|
        invariant Valid() && pos == |trace| && Ahead() == old(Ahead())
        invariant if more then Unfinished(slots) < Unfinished(before) else slots == before
        invariant forall k: nat | k < h :: StreamOf(k).cur.None?
        decreases |streams| - h
      {
        assert StreamOf(h) == streams[h];
        if streams[h].cur.Some? {
          var r := streams[h].cur.value;
          EndedByTrace(trace, slots, h, r);
          OneFewerUnfinished(slots, h, r);
          Finish(h);
          more := true;
        }
        h := h + 1;
      }
      NoneUnfinished();
    }

    lemma NoneUnfinished()
      requires Queues() && forall k: nat | k < |streams| :: StreamOf(k).cur.None?
      ensures Unfinished(slots) == 0
    {
      forall k: nat
        ensures InProgress(slots, k).None?
      {
        assert StreamOf(k).cur == InProgress(slots, k);
      }
      NothingInProgress(slots);
    }

    /** next_hart: the hart of the earliest record begun, once that record is finished. */
    method NextHart() returns (hart: Option<nat>)
      requires Valid()
      modifies this
      ensures Valid() && Ahead() == old(Ahead())
      ensures match hart
        case Some(h) => order != [] && order[0] == h && StreamOf(h).ready != []
        case None => Ahead() == []
    {
      hide Ready, InProgress, Tidy, Steps, StepsFrom, StepsOf;
      while true
        invariant Valid() && Ahead() == old(Ahead())
        decreases |trace| - pos, Unfinished(slots)
      {
        if order != [] && StreamOf(order[0]).ready != [] {
          return Some(order[0]);
        }
        var more := NextSail();
        if !more {
          NothingLeft();
          return None;
        }
      }
    }

    lemma NothingLeft()
      requires Valid() && pos == |trace| && Unfinished(slots) == 0
      requires order == [] || StreamOf(order[0]).ready == []
      ensures Ahead() == []
    {
    }

    /** stepped: a hart's earliest entry. */
    method Stepped(h: nat)
      modifies this`order
      ensures order == EraseFirst(old(order), h)
    {
      var i := 0;
      while i < |order|
        invariant i <= |order| && order == old(order)
        invariant EraseFirst(order, h) == order[..i] + EraseFirst(order[i..], h)
      {
        assert order[i..][1..] == order[i + 1..];
        if order[i] == h {
          order := order[..i] + order[i + 1..];
          return;
        }
        i := i + 1;
      }
    }

    /** next: hart `h`'s earliest step, read on for if need be. */
    method Next(h: nat) returns (r: Option<Rec>)
      requires Valid()
      modifies this
      ensures Valid()
      ensures r.None? ==> Ahead() == old(Ahead()) && StreamOf(h).ready == []
      ensures old(StreamOf(h).ready) != [] ==>
        r == Some(old(StreamOf(h)).ready[0]) && pos == old(pos) && slots == Without(old(slots), h)
    {
      hide Ready, InProgress, Tidy, Steps, StepsFrom, StepsOf, HartsOf;
      while true
        invariant Valid() && Ahead() == old(Ahead())
        invariant old(StreamOf(h).ready) != [] ==>
          StreamOf(h) == old(StreamOf(h)) && pos == old(pos) && slots == old(slots)
        decreases |trace| - pos, Unfinished(slots)
      {
        var st := StreamOf(h);
        if st.ready != [] {
          r := Some(st.ready[0]);
          Take(h);
          return;
        }
        var more := NextSail();
        if !more {
          NoMoreReady(h);
          return None;
        }
      }
    }

    lemma NoMoreReady(h: nat)
      requires Valid()
      ensures StreamOf(h).ready == Ready(slots, h)
    {
    }

    method Take(h: nat)
      requires Valid() && StreamOf(h).ready != []
      modifies this`streams, this`order, this`slots
      ensures Valid() && slots == Without(old(slots), h)
    {
      hide Ready, InProgress, Tidy, Without, HartsOf;
      forall k: nat
        ensures var q := Without(slots, h);
          Tidy(q) && HartsOf(q) == EraseFirst(HartsOf(slots), h) && InProgress(q, k) == InProgress(slots, k)
          && Ready(q, k) == if k == h then Ready(slots, h)[1..] else Ready(slots, k)
      {
        assert StreamOf(h).ready == Ready(slots, h);
        TakenSlot(slots, h, k);
      }
      var st := StreamOf(h);
      SetStream(h, st.(ready := st.ready[1..]));
      Stepped(h);
      slots := Without(slots, h);
    }

    /** push_back: the step just taken, to be taken again. */
    method PushBack(r: Rec, h: nat)
      requires Valid()
      modifies this`streams, this`order, this`slots
      ensures Valid() && Ahead() == [Step(h, r)] + old(Ahead())
    {
      hide Tidy, Ready, InProgress, HartsOf;
      var st := StreamOf(h);
      var s := Slot(h, r, true);
      forall k: nat
        ensures var q := [s] + slots;
          Tidy(q) && HartsOf(q) == [h] + HartsOf(slots) && InProgress(q, k) == InProgress(slots, k)
          && Ready(q, k) == (if k == h then [r] else []) + Ready(slots, k)
      {
        OneSlot(s, slots, k);
      }
      SetStream(h, st.(ready := [r] + st.ready));
      order := [h] + order;
      assert ([s] + slots)[1..] == slots;
      slots := [s] + slots;
    }

    /** One step, following the order. */
    method NextInOrder() returns (step: Option<Step>)
      requires Valid()
      modifies this
      ensures Valid()
      ensures match step
        case Some(s) => old(Ahead()) == [s] + Ahead()
        case None => old(Ahead()) == []
    {
      hide Ready, InProgress, Tidy, Without, StepsOf, HartsOf, Steps, StepsFrom;
      var hart := NextHart();
      if hart.None? {
        return None;
      }
      ghost var before := slots;
      ghost var ready := StreamOf(hart.value).ready;
      assert ready == Ready(slots, hart.value) && order == HartsOf(slots);
      FrontIsFinished(slots, hart.value);
      FrontStep(trace, pos, slots);
      var r := Next(hart.value);
      assert slots == before[1..];
      return Some(Step(hart.value, r.value));
    }

    /** Every step of the trace, exactly once, in the order the records began. */
    method Run() returns (steps: seq<Step>)
      requires Valid()
      modifies this
      ensures steps == old(Ahead())
    {
      hide Steps, StepsFrom, Queues, MarkedAt, At;
      steps := [];
      ghost var all := Ahead();
      while true
        invariant Valid() && steps + Ahead() == all
        decreases |Ahead()|
      {
        var step := NextInOrder();
        if step.None? {
          assert steps + [] == steps;
          return;
        }
        OneTaken(steps, step.value, Ahead());
        steps := steps + [step.value];
      }
    }
  }
}
