/** An IMSIC interrupt file (chapter 3 of the RISC-V Advanced Interrupt Architecture 1.0): the identities
    it makes heard, and the one at the top. */
module Imsic {
  import opened Words
  import opened Bits
  import opened BitFlags

  const NUM_WORDS: nat := 64
  const IDS: nat := 2048

  const SEL_EIDELIVERY: nat := 0x70
  const SEL_EITHRESHOLD: nat := 0x72
  const SEL_EIP0: nat := 0x80
  const SEL_EIP63: nat := 0xBF
  const SEL_EIE0: nat := 0xC0
  const SEL_EIE63: nat := 0xFF

  type Row = s: seq<nat> | |s| == NUM_WORDS witness seq(NUM_WORDS, _ => 0)

  datatype File = File(delivery: bool, threshold: nat, eip: Row, eie: Row)

  /** Pending, enabled, and not masked by the threshold. Identity 0 is none. */
  predicate Heard(f: File, id: nat) {
    && 0 < id < IDS
    && Bit(f.eip[id / 32], id % 32) && Bit(f.eie[id / 32], id % 32)
    && (f.threshold == 0 || id < f.threshold)
  }

  /** The identities from `id` on that are heard, in increasing order. */
  function HeardFrom(f: File, id: nat): seq<nat>
    decreases IDS - id
  {
    if id >= IDS then [] else (if Heard(f, id) then [id] else []) + HeardFrom(f, id + 1)
  }

  /** What the file delivers, in order. */
  function Audible(f: File): seq<nat> {
    if f.delivery then HeardFrom(f, 0) else []
  }

  function TopOf(f: File): nat {
    if Audible(f) == [] then 0 else Audible(f)[0]
  }

  /** mtopei and stopei: the identity, twice. */
  function Encoded(id: nat): nat {
    id * 0x1_0000 + id
  }

  function SetPendingIn(f: File, id: nat): File {
    if id == 0 || id >= IDS then f else f.(eip := f.eip[id / 32 := SetBit(f.eip[id / 32], id % 32)])
  }

  function ClaimIn(f: File): File {
    var id := TopOf(f);
    if id == 0 || id >= IDS then f else f.(eip := f.eip[id / 32 := ClearBit(f.eip[id / 32], id % 32)])
  }

  function WriteIn(f: File, iselect: nat, value: nat): File {
    if iselect == SEL_EIDELIVERY then f.(delivery := value % 2 == 1)
    else if iselect == SEL_EITHRESHOLD then f.(threshold := value % TWO32)
    else if SEL_EIP0 <= iselect <= SEL_EIP63 then f.(eip := f.eip[iselect - SEL_EIP0 := value % TWO32])
    else if SEL_EIE0 <= iselect <= SEL_EIE63 then f.(eie := f.eie[iselect - SEL_EIE0 := value % TWO32])
    else f
  }

  // ---- The order of identities ----------------------------------------------------------------

  lemma {:induction false} HeardFromIsHeard(f: File, from_: nat, id: nat)
    ensures id in HeardFrom(f, from_) <==> from_ <= id && Heard(f, id)
    decreases IDS - from_
  {
    hide Heard;
    if from_ < IDS {
      HeardFromIsHeard(f, from_ + 1, id);
    } else {
      NoneBeyond(f, id);
    }
  }

  lemma NoneBeyond(f: File, id: nat)
    ensures Heard(f, id) ==> id < IDS
  {
  }

  lemma {:induction false} HeardInOrder(f: File, from_: nat)
    ensures forall i, j :: 0 <= i < j < |HeardFrom(f, from_)| ==> HeardFrom(f, from_)[i] < HeardFrom(f, from_)[j]
    decreases IDS - from_
  {
    hide Heard;
    if from_ < IDS {
      HeardInOrder(f, from_ + 1);
      var rest := HeardFrom(f, from_ + 1);
      forall id | id in rest
        ensures from_ < id
      {
        HeardFromIsHeard(f, from_ + 1, id);
      }
      assert forall j | 0 <= j < |rest| :: rest[j] in rest;
    }
  }

  /** The top is the least identity heard; 0 says that none is, or that delivery is off. */
  lemma TopIsLeast(f: File)
    ensures TopOf(f) == 0 <==> !f.delivery || forall id: nat :: !Heard(f, id)
    ensures TopOf(f) != 0 ==> Heard(f, TopOf(f)) && forall id: nat | Heard(f, id) :: TopOf(f) <= id
  {
    hide HeardFrom, Heard;
    if f.delivery {
      forall id: nat
        ensures Heard(f, id) <==> id in HeardFrom(f, 0)
      {
        HeardFromIsHeard(f, 0, id);
      }
      HeardInOrder(f, 0);
      ZeroUnheard(f);
      if HeardFrom(f, 0) != [] {
        assert HeardFrom(f, 0)[0] in HeardFrom(f, 0);
      }
    }
  }

  /** Sections 3.5 and 3.8 of the AIA: identity `id` of 1 to 2047 is signalled while its bit of eip and its bit of
      eie, one of 32 in the register of its 32, are set, and no threshold of 1 to `id` masks it. */
  predicate Signalled(f: File, id: nat) {
    && 1 <= id <= 2047
    && Bit(f.eip[id / 32], id % 32) && Bit(f.eie[id / 32], id % 32)
    && !(1 <= f.threshold <= id)
  }

  lemma HeardIsSignalled(f: File, id: nat)
    ensures Heard(f, id) == Signalled(f, id)
  {
    hide Bit;
  }

  /** The top is an identity exactly if delivery is on, it is signalled and no lesser one is. */
  lemma TopIsLeastSignalled(f: File, id: nat)
    requires id != 0
    ensures TopOf(f) == id <==>
      f.delivery && Signalled(f, id) && forall lesser: nat | lesser < id :: !Signalled(f, lesser)
  {
    hide TopOf, Heard, Signalled;
    TopIsLeast(f);
    forall k: nat
      ensures Heard(f, k) == Signalled(f, k)
    {
      HeardIsSignalled(f, k);
    }
  }

  /** An indirect write, by the numbers of section 3.8: 0x70 is eidelivery, of which bit 0 is kept, 0x72
      eithreshold, and 0x80 and 0xC0 the first of the 64 registers of pending and of enable bits. Of a number's
      bits each register takes the low 32. */
  lemma WrittenByRegister(f: File, iselect: nat, value: nat, id: nat)
    requires id < 2048
    ensures var g := WriteIn(f, iselect, value);
      && g.delivery == (if iselect == 0x70 then Bit(value, 0) else f.delivery)
      && g.threshold == (if iselect == 0x72 then value % 0x1_0000_0000 else f.threshold)
      && Bit(g.eip[id / 32], id % 32)
         == Bit(if iselect == 0x80 + id / 32 then value else f.eip[id / 32], id % 32)
      && Bit(g.eie[id / 32], id % 32)
         == Bit(if iselect == 0xC0 + id / 32 then value else f.eie[id / 32], id % 32)
  {
    hide Bit;
    FirstBit(value);
    BitOfLowWord(value, id % 32);
  }

  lemma ZeroUnheard(f: File)
    ensures !Heard(f, 0)
  {
  }

  // ---- Claiming drains ---------------------------------------------------------------------------

  lemma ClaimHears(f: File, id: nat)
    ensures Heard(ClaimIn(f), id) <==> Heard(f, id) && id != TopOf(f)
  {
    hide TopOf;
    ClearHears(f, TopOf(f), id);
  }

  lemma ClearHears(f: File, top: nat, id: nat)
    ensures Heard(if top == 0 || top >= IDS then f
                  else f.(eip := f.eip[top / 32 := ClearBit(f.eip[top / 32], top % 32)]), id)
       <==> Heard(f, id) && id != top
  {
    hide Bit, ClearBit;
    if 0 < id < IDS && 0 < top < IDS {
      assert id / 32 == top / 32 && id % 32 == top % 32 ==> id == top;
      if id / 32 == top / 32 {
        BitOfClear(f.eip[top / 32], top % 32, id % 32);
      }
    }
  }

  lemma {:induction false} SameHeard(f: File, g: File, from_: nat)
    requires forall id: nat | from_ <= id :: Heard(f, id) == Heard(g, id)
    ensures HeardFrom(f, from_) == HeardFrom(g, from_)
    decreases IDS - from_
  {
    hide Heard;
    if from_ < IDS {
      SameHeard(f, g, from_ + 1);
    }
  }

  lemma {:induction false} WithoutFirst(f: File, g: File, from_: nat)
    requires HeardFrom(f, from_) != []
    requires forall id: nat :: Heard(g, id) <==> Heard(f, id) && id != HeardFrom(f, from_)[0]
    ensures HeardFrom(g, from_) == HeardFrom(f, from_)[1..]
    decreases IDS - from_
  {
    hide Heard;
    if Heard(f, from_) {
      SameHeard(f, g, from_ + 1);
    } else {
      WithoutFirst(f, g, from_ + 1);
    }
  }

  /** A claim takes the first and leaves the rest. */
  lemma ClaimTakesFirst(f: File)
    ensures Audible(ClaimIn(f)) == if Audible(f) == [] then [] else Audible(f)[1..]
  {
    hide HeardFrom, Heard;
    if Audible(f) != [] {
      forall id: nat
        ensures Heard(ClaimIn(f), id) <==> Heard(f, id) && id != TopOf(f)
      {
        ClaimHears(f, id);
      }
      WithoutFirst(f, ClaimIn(f), 0);
    } else {
      TopIsLeast(f);
    }
  }

  /** Making an identity pending makes it heard if it is enabled and unmasked, and changes nothing else. */
  lemma SetPendingHears(f: File, id: nat, other: nat)
    ensures Heard(SetPendingIn(f, id), other) <==>
      || Heard(f, other)
      || (other == id && 0 < id < IDS && Bit(f.eie[id / 32], id % 32) && (f.threshold == 0 || id < f.threshold))
  {
    if 0 < id < IDS && other < IDS && id / 32 == other / 32 {
      BitOfSet(f.eip[id / 32], id % 32, other % 32);
    }
  }

  // ---- The object ---------------------------------------------------------------------------------

  class InterruptFile {
    var eidelivery: bool
    var eithreshold: nat
    const eip: array<nat>
    const eie: array<nat>
    var top: nat
    var gen: nat

    ghost predicate Shape() {
      eip.Length == NUM_WORDS && eie.Length == NUM_WORDS && eip != eie
    }

    ghost function View(): File
      requires Shape()
      reads this, eip, eie
    {
      File(eidelivery, eithreshold, eip[..], eie[..])
    }

    /** The cached top is the least identity audible. */
    ghost predicate Valid()
      reads this, eip, eie
    {
      Shape() && top == Encoded(TopOf(View()))
    }

    constructor ()
      ensures Valid() && View() == File(false, 0, seq(NUM_WORDS, _ => 0), seq(NUM_WORDS, _ => 0))
      ensures fresh(eip) && fresh(eie)
    {
      eip := new nat[NUM_WORDS](_ => 0);
      eie := new nat[NUM_WORDS](_ => 0);
      eidelivery, eithreshold, top, gen := false, 0, 0, 0;
    }

    method HeardNow(id: nat) returns (heard: bool)
      requires Shape()
      ensures heard == Heard(View(), id)
    {
      if id == 0 || id >= NUM_WORDS * 32 {
        return false;
      }
      var word, bit := id / 32, id % 32;
      if !Bit(eip[word], bit) || !Bit(eie[word], bit) {
        return false;
      }
      return eithreshold == 0 || id < eithreshold;
    }

    /** The scan: a word at a time, with words that have nothing in common skipped whole. */
    method Refresh()
      requires Shape()
      modifies this`top, this`gen
      ensures Valid() && gen == old(gen) + 1
    {
      hide Heard, Bit, And, HeardFrom, Audible;
      gen := gen + 1;
      top := 0;
      ghost var f := View();
      Quiet(f);
      if !eidelivery {
        return;
      }
      for w := 0 to NUM_WORDS
        invariant HeardFrom(f, 0) == HeardFrom(f, w * 32) && f == View() && top == 0 && gen == old(gen) + 1
      {
        if And(eip[w], eie[w]) == 0 {
          NothingInWord(f, w, 0);
          continue;
        }
        for b := 0 to 32
          invariant HeardFrom(f, 0) == HeardFrom(f, w * 32 + b) && f == View() && top == 0 && gen == old(gen) + 1
        {
          var id := w * 32 + b;
          var heard := HeardNow(id);
          AudibleStep(f, id);
          if heard {
            top := Encoded(id);
            return;
          }
        }
      }
    }

    method Claim()
      requires Valid()
      modifies this`top, this`gen, eip
      ensures Valid() && View() == ClaimIn(old(View()))
      ensures gen == old(gen) ==> View() == old(View())
    {
      hide HeardFrom, Audible, TopOf, ClearBit, Encoded;
      TopInRange(View());
      Decoded(TopOf(View()));
      if top == 0 {
        return;
      }
      var id := top % 0x1_0000;
      eip[id / 32] := ClearBit(eip[id / 32], id % 32);
      Refresh();
    }

    method SetPending(id: nat)
      requires Valid()
      modifies this`top, this`gen, eip
      ensures Valid() && View() == SetPendingIn(old(View()), id)
      ensures gen == old(gen) ==> View() == old(View())
    {
      if id == 0 || id >= NUM_WORDS * 32 {
        return;
      }
      eip[id / 32] := SetBit(eip[id / 32], id % 32);
      Refresh();
    }

    method WriteIndirect(iselect: nat, value: nat)
      requires Valid()
      modifies this`top, this`gen, this`eidelivery, this`eithreshold, eip, eie
      ensures Valid() && View() == WriteIn(old(View()), iselect, value) && gen == old(gen) + 1
    {
      if iselect == SEL_EIDELIVERY {
        eidelivery := value % 2 == 1;
      } else if iselect == SEL_EITHRESHOLD {
        eithreshold := value % TWO32;
      } else if SEL_EIP0 <= iselect <= SEL_EIP63 {
        eip[iselect - SEL_EIP0] := value % TWO32;
      } else if SEL_EIE0 <= iselect <= SEL_EIE63 {
        eie[iselect - SEL_EIE0] := value % TWO32;
      }
      Refresh();
    }
  }

  lemma OneClaim(f: File)
    requires Audible(f) != []
    ensures Audible(f) == [TopOf(f)] + Audible(ClaimIn(f))
  {
    hide HeardFrom, Heard, ClaimIn;
    ClaimTakesFirst(f);
  }

  /** What reading topei and claiming gives, until topei reads zero. */
  function Claimed(f: File): seq<nat>
    decreases |Audible(f)|
  {
    if TopOf(f) == 0 || Audible(f) == [] then [] else
      OneClaim(f);
      [TopOf(f)] + Claimed(ClaimIn(f))
  }

  /** Every audible identity, once, in strictly increasing order, and then none. */
  lemma {:induction false} ClaimingDrains(f: File)
    ensures Claimed(f) == Audible(f)
    ensures forall i, j :: 0 <= i < j < |Claimed(f)| ==> Claimed(f)[i] < Claimed(f)[j]
    decreases |Audible(f)|
  {
    hide Audible, TopOf, ClaimIn;
    AudibleInOrder(f);
    TopInRange(f);
    if Audible(f) != [] {
      OneClaim(f);
      ClaimingDrains(ClaimIn(f));
    }
  }

  lemma Decoded(id: nat)
    requires id < IDS
    ensures Encoded(id) % 0x1_0000 == id && (Encoded(id) == 0 <==> id == 0)
  {
  }

  lemma Quiet(f: File)
    ensures !f.delivery ==> Audible(f) == []
    ensures f.delivery ==> Audible(f) == HeardFrom(f, 0) && HeardFrom(f, IDS) == []
  {
  }

  lemma AudibleStep(f: File, id: nat)
    requires id < IDS
    ensures if Heard(f, id) then HeardFrom(f, id) != [] && HeardFrom(f, id)[0] == id
      else HeardFrom(f, id) == HeardFrom(f, id + 1)
  {
  }

  lemma AudibleInOrder(f: File)
    ensures forall i, j :: 0 <= i < j < |Audible(f)| ==> Audible(f)[i] < Audible(f)[j]
  {
    hide HeardFrom;
    HeardInOrder(f, 0);
  }

  lemma TopInRange(f: File)
    ensures TopOf(f) < IDS && (TopOf(f) == 0 <==> Audible(f) == [])
  {
    hide HeardFrom, Heard;
    TopIsLeast(f);
    NoneBeyond(f, TopOf(f));
    ZeroUnheard(f);
    HeardFromIsHeard(f, 0, TopOf(f));
  }

  lemma {:induction false} NothingInWord(f: File, w: nat, b: nat)
    requires w < NUM_WORDS && b <= 32 && And(f.eip[w], f.eie[w]) == 0
    ensures HeardFrom(f, w * 32 + b) == HeardFrom(f, w * 32 + 32)
    decreases 32 - b
  {
    hide And, Bit;
    if b < 32 {
      BitOfAnd(f.eip[w], f.eie[w], b);
      BitOfZero(b);
      assert (w * 32 + b) / 32 == w && (w * 32 + b) % 32 == b;
      NothingInWord(f, w, b + 1);
    }
  }
}
