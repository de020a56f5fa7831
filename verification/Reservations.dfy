/** LR/SC reservations across harts: the count run_round keeps, and the stores that end another
    hart's reservation (hart_slot, stores_seen, store_by_other_hart). */
module Reservations {
  import opened Words

  const RESERVATION_SET: nat := 8

  datatype Reservation = Nothing | Held(addr: nat)

  /** Whether a stored byte lies in the aligned set holding the reserved address. */
  predicate Hits(r: Reservation, paddr: nat) {
    r.Held? && r.addr - r.addr % RESERVATION_SET <= paddr < r.addr - r.addr % RESERVATION_SET + RESERVATION_SET
  }

  /** The set is the aligned eight bytes: a store hits it exactly if it is to the same doubleword. */
  lemma HitsSameDoubleword(r: Reservation, paddr: nat)
    ensures Hits(r, paddr) <==> r.Held? && paddr / 8 == r.addr / 8
  {
  }

  predicate HitByAny(r: Reservation, stored: seq<nat>) {
    exists b <- stored :: Hits(r, b)
  }

  function Count(rs: seq<Reservation>): nat {
    if rs == [] then 0 else (if rs[0].Held? then 1 else 0) + Count(rs[1..])
  }

  /** What a hart's step does here: the reservation it leaves the hart with, and the bytes it stores. */
  datatype Outcome = Outcome(after: Reservation, stored: seq<nat>)

  lemma {:induction false} CountUpdate(rs: seq<Reservation>, h: nat, r: Reservation)
    requires h < |rs|
    ensures Count(rs[h := r]) == Count(rs) - (if rs[h].Held? then 1 else 0) + (if r.Held? then 1 else 0)
    decreases |rs|
  {
    if h == 0 {
      assert rs[h := r][1..] == rs[1..];
    } else {
      assert rs[h := r][1..] == rs[1..][h - 1 := r];
      CountUpdate(rs[1..], h - 1, r);
    }
  }

  lemma {:induction false} CountPositive(rs: seq<Reservation>, h: nat)
    requires h < |rs| && rs[h].Held?
    ensures Count(rs) > 0
    decreases |rs|
  {
    if h > 0 {
      CountPositive(rs[1..], h - 1);
    }
  }

  /** The other harts holding a reservation. */
  function Others(rs: seq<Reservation>, cur: nat): nat
    requires cur < |rs|
  {
    Count(rs[cur := Nothing])
  }

  /** The step that slips through: it acquires a reservation, and exactly one other hart holds one.
      The count still lacks the new reservation, so the other hart's looks like this hart's own. */
  predicate SlipsThrough(rs: seq<Reservation>, cur: nat, o: Outcome)
    requires cur < |rs|
  {
    rs[cur].Nothing? && o.after.Held? && Others(rs, cur) == 1
  }

  /** The reservations after hart `cur`'s slot. */
  function AfterSlot(rs: seq<Reservation>, cur: nat, o: Outcome): (after: seq<Reservation>)
    requires cur < |rs|
    ensures |after| == |rs|
  {
    seq(|rs|, k requires 0 <= k < |rs| =>
      if k == cur then o.after
      else if !SlipsThrough(rs, cur, o) && HitByAny(rs[k], o.stored) then Nothing
      else rs[k])
  }

  /** No other hart holds a reservation on a byte the slot stored. */
  ghost predicate Safe(rs: seq<Reservation>, cur: nat, stored: seq<nat>) {
    forall k | 0 <= k < |rs| && k != cur :: !HitByAny(rs[k], stored)
  }

  class Harts {
    const held: array<Reservation>
    /** How many harts hold a reservation. */
    var reserved: nat

    ghost predicate Counted()
      reads this, held
    {
      reserved == Count(held[..])
    }

    constructor (n: nat)
      ensures held.Length == n && fresh(held) && Counted()
    {
      held := new Reservation[n](_ => Nothing);
      reserved := 0;
      new;
      NoneCounted(held[..]);
    }

    method StoreByOtherHart(h: nat, paddr: nat)
      requires h < held.Length
      modifies held
      ensures held[..] == old(held[..])[h := if Hits(old(held[h]), paddr) then Nothing else old(held[h])]
    {
      if held[h].Nothing? {
        return;
      }
      var set_ := held[h].addr - held[h].addr % RESERVATION_SET;
      if paddr < set_ + RESERVATION_SET && paddr + 1 > set_ {
        held[h] := Nothing;
      }
    }

    predicate OthersReserved(cur: nat)
      requires cur < held.Length
      reads this, held
    {
      reserved > if held[cur].Held? then 1 else 0
    }

    /** One hart's reservation against every byte stored. */
    method Watch(h: nat, stored: seq<nat>)
      requires h < held.Length
      modifies held
      ensures held[..] == old(held[..])[h := if HitByAny(old(held[h]), stored) then Nothing else old(held[h])]
    {
      for i := 0 to |stored|
        invariant held[..] == old(held[..])[h := if HitByAny(old(held[h]), stored[..i]) then Nothing else old(held[h])]
      {
        assert stored[..i + 1] == stored[..i] + [stored[i]];
        StoreByOtherHart(h, stored[i]);
      }
      assert stored[..|stored|] == stored;
    }

    /** `own` is what `reserved` counts this hart as: its reservation before the step. */
    method StoresSeen(cur: nat, stored: seq<nat>, ghost own: Reservation)
      requires cur < held.Length && reserved == Count(held[..][cur := own])
      modifies this, held
      ensures reserved == Count(held[..][cur := own])
      ensures forall k | 0 <= k < held.Length :: held[k] ==
                if k != cur && old(OthersReserved(cur)) && HitByAny(old(held[k]), stored) then Nothing else old(held[k])
    {
      if !OthersReserved(cur) {
        return;
      }
      for h := 0 to held.Length
        invariant reserved == Count(held[..][cur := own])
        invariant forall k | 0 <= k < held.Length :: held[k] ==
                    if k < h && k != cur && HitByAny(old(held[k]), stored) then Nothing else old(held[k])
      {
        if h == cur || held[h].Nothing? {
          continue;
        }
        ghost var before := held[..];
        Watch(h, stored);
        CountUpdate(before[cur := own], h, held[h]);
        assert before[cur := own][h := held[h]] == held[..][cur := own];
        if held[h].Nothing? {
          CountPositive(before[cur := own], h);
          reserved := reserved - 1;
        }
      }
    }

    /** A slot of hart `cur`, whose step comes out as `o`: the count stays the count, and the stores
        that were watched end the reservations they hit. */
    method HartSlot(cur: nat, o: Outcome)
      requires cur < held.Length && Counted()
      modifies this, held
      ensures Counted()
      ensures held[..] == AfterSlot(old(held[..]), cur, o)
    {
      ghost var before := held[..];
      var had := held[cur].Held?;
      var watched := OthersReserved(cur);
      held[cur] := o.after;
      assert held[..][cur := before[cur]] == before;
      if watched {
        StoresSeen(cur, o.stored, before[cur]);
      }
      SlotResult(before, held[..], cur, o, watched);
      ghost var others := held[..][cur := before[cur]];
      CountUpdate(others, cur, o.after);
      assert others[cur := o.after] == held[..];
      var has := held[cur].Held?;
      if has != had {
        if has {
          reserved := reserved + 1;
        } else {
          CountPositive(others, cur);
          reserved := reserved - 1;
        }
      }
    }
  }

  /** What a slot leaves, from what was watched: before the step, whether any other hart held a
      reservation; after it, whether the stale count still says so. */
  lemma SlotResult(before: seq<Reservation>, after: seq<Reservation>, cur: nat, o: Outcome, watched: bool)
    requires cur < |before| == |after| && after[cur] == o.after
    requires watched <==> Count(before) > if before[cur].Held? then 1 else 0
    requires forall k | 0 <= k < |before| && k != cur :: after[k] ==
               if watched && Count(before) > (if o.after.Held? then 1 else 0) && HitByAny(before[k], o.stored)
                then Nothing
               else before[k]
    ensures after == AfterSlot(before, cur, o)
  {
    CountUpdate(before, cur, Nothing);
    if !watched {
      NoOthersToHit(before, cur, o);
    }
  }

  lemma {:induction false} NoneCounted(rs: seq<Reservation>)
    requires forall r <- rs :: r.Nothing?
    ensures Count(rs) == 0
    decreases |rs|
  {
    if rs != [] {
      assert rs[0] in rs;
      NoneCounted(rs[1..]);
    }
  }

  lemma NoOthersToHit(rs: seq<Reservation>, cur: nat, o: Outcome)
    requires cur < |rs| && Others(rs, cur) == 0
    ensures rs[cur := o.after] == AfterSlot(rs, cur, o)
  {
    forall k | 0 <= k < |rs| && k != cur
      ensures rs[k].Nothing?
    {
      if rs[k].Held? {
        CountPositive(rs[cur := Nothing], k);
      }
    }
  }

  /** Whatever a step stores, the slot leaves no other hart a reservation on it -- exactly when the
      step is not the one that slips through. */
  lemma SafeUnlessItSlipsThrough(rs: seq<Reservation>, cur: nat, after: Reservation)
    requires cur < |rs|
    ensures (forall stored: seq<nat> :: Safe(AfterSlot(rs, cur, Outcome(after, stored)), cur, stored))
       <==> !SlipsThrough(rs, cur, Outcome(after, []))
  {
    if SlipsThrough(rs, cur, Outcome(after, [])) {
      var k := OneHolder(rs[cur := Nothing], 0);
      var stored := [rs[k].addr];
      assert Hits(rs[k], stored[0]);
      assert HitByAny(AfterSlot(rs, cur, Outcome(after, stored))[k], stored);
      assert !Safe(AfterSlot(rs, cur, Outcome(after, stored)), cur, stored);
    } else {
      forall stored: seq<nat>
        ensures Safe(AfterSlot(rs, cur, Outcome(after, stored)), cur, stored)
      {
        assert SlipsThrough(rs, cur, Outcome(after, stored)) == SlipsThrough(rs, cur, Outcome(after, []));
      }
    }
  }

  lemma {:induction false} OneHolder(rs: seq<Reservation>, from_: nat) returns (k: nat)
    requires from_ <= |rs| && Count(rs[from_..]) > 0
    ensures from_ <= k < |rs| && rs[k].Held?
    decreases |rs| - from_
  {
    if rs[from_].Held? {
      k := from_;
    } else {
      assert rs[from_..][1..] == rs[from_ + 1..];
      k := OneHolder(rs, from_ + 1);
    }
  }

  datatype Turn = Turn(cur: nat, o: Outcome)

  function RunSlots(rs: seq<Reservation>, turns: seq<Turn>): (after: seq<Reservation>)
    requires forall t <- turns :: t.cur < |rs|
    ensures |after| == |rs|
    decreases |turns|
  {
    if turns == [] then rs else RunSlots(AfterSlot(rs, turns[0].cur, turns[0].o), turns[1..])
  }

  ghost predicate NoneSlips(rs: seq<Reservation>, turns: seq<Turn>)
    requires forall t <- turns :: t.cur < |rs|
    decreases |turns|
  {
    turns != [] ==>
      && !SlipsThrough(rs, turns[0].cur, turns[0].o)
      && NoneSlips(AfterSlot(rs, turns[0].cur, turns[0].o), turns[1..])
  }

  /** Some turn stored a byte of the doubleword that holds `addr`. */
  ghost predicate Written(turns: seq<Turn>, addr: nat) {
    exists t <- turns, b: nat :: b in t.o.stored && b / 8 == addr / 8
  }

  /** A reservation held before a run of other harts' slots, none of which slips through, is held after it
      exactly if none of them wrote to its doubleword: so an SC succeeds exactly when nobody else wrote there
      since the LR. */
  lemma HeldIffUnwritten(rs: seq<Reservation>, turns: seq<Turn>, k: nat)
    requires k < |rs| && (forall t <- turns :: t.cur < |rs| && t.cur != k) && NoneSlips(rs, turns) && rs[k].Held?
    ensures RunSlots(rs, turns)[k] == if Written(turns, rs[k].addr) then Nothing else rs[k]
  {
    hide Hits, RunSlots, NoneSlips;
    SurvivesIffUnhit(rs, turns, k);
    forall b: nat
      ensures Hits(rs[k], b) <==> b / 8 == rs[k].addr / 8
    {
      HitsSameDoubleword(rs[k], b);
    }
    if t :| t in turns && HitByAny(rs[k], t.o.stored) {
      var b :| b in t.o.stored && Hits(rs[k], b);
      assert t in turns && b in t.o.stored && b / 8 == rs[k].addr / 8;
    }
    if Written(turns, rs[k].addr) {
      var t, b: nat :| t in turns && b in t.o.stored && b / 8 == rs[k].addr / 8;
      assert Hits(rs[k], b) && HitByAny(rs[k], t.o.stored);
    }
  }

  /** Over any run of other harts' slots, a hart's reservation survives exactly if none of them stored
      a byte of its set. */
  lemma {:induction false} SurvivesIffUnhit(rs: seq<Reservation>, turns: seq<Turn>, k: nat)
    requires k < |rs| && (forall t <- turns :: t.cur < |rs| && t.cur != k) && NoneSlips(rs, turns)
    ensures RunSlots(rs, turns)[k] == if exists t <- turns :: HitByAny(rs[k], t.o.stored) then Nothing else rs[k]
    decreases |turns|
  {
    if turns != [] {
      var t := turns[0];
      var next := AfterSlot(rs, t.cur, t.o);
      assert t in turns;
      SurvivesIffUnhit(next, turns[1..], k);
      if HitByAny(rs[k], t.o.stored) {
        assert next[k].Nothing?;
      } else {
        assert forall u <- turns :: u == t || u in turns[1..];
      }
    }
  }
}
