/** Single bits of a word, and the bitwise operations the interrupt controllers use, by recursion on the
    word. */
module Bits {

  predicate Bit(w: nat, b: nat) {
    if b == 0 then w % 2 == 1 else Bit(w / 2, b - 1)
  }

  function SetBit(w: nat, b: nat): nat {
    if b == 0 then w / 2 * 2 + 1 else SetBit(w / 2, b - 1) * 2 + w % 2
  }

  function ClearBit(w: nat, b: nat): nat {
    if b == 0 then w / 2 * 2 else ClearBit(w / 2, b - 1) * 2 + w % 2
  }

  function And(v: nat, w: nat): nat {
    if v == 0 || w == 0 then 0 else And(v / 2, w / 2) * 2 + (if v % 2 == 1 && w % 2 == 1 then 1 else 0)
  }

  function Or(v: nat, w: nat): nat {
    if v == 0 then w else if w == 0 then v else Or(v / 2, w / 2) * 2 + (if v % 2 == 1 || w % 2 == 1 then 1 else 0)
  }

  /** v & ~w. */
  function AndNot(v: nat, w: nat): nat {
    if v == 0 then 0 else AndNot(v / 2, w / 2) * 2 + (if v % 2 == 1 && w % 2 == 0 then 1 else 0)
  }

  lemma {:induction false} BitOfSet(w: nat, b: nat, c: nat)
    ensures Bit(SetBit(w, b), c) == (c == b || Bit(w, c))
  {
    if b > 0 && c > 0 {
      assert SetBit(w, b) / 2 == SetBit(w / 2, b - 1);
      BitOfSet(w / 2, b - 1, c - 1);
    } else if b == 0 && c > 0 {
      assert SetBit(w, b) / 2 == w / 2;
    }
  }

  lemma {:induction false} BitOfClear(w: nat, b: nat, c: nat)
    ensures Bit(ClearBit(w, b), c) == (c != b && Bit(w, c))
  {
    if b > 0 && c > 0 {
      assert ClearBit(w, b) / 2 == ClearBit(w / 2, b - 1);
      BitOfClear(w / 2, b - 1, c - 1);
    } else if b == 0 && c > 0 {
      assert ClearBit(w, b) / 2 == w / 2;
    }
  }

  lemma {:induction false} BitOfZero(b: nat)
    ensures !Bit(0, b)
  {
    if b > 0 {
      BitOfZero(b - 1);
    }
  }

  lemma {:induction false} BitOfAnd(v: nat, w: nat, b: nat)
    ensures Bit(And(v, w), b) == (Bit(v, b) && Bit(w, b))
  {
    if v == 0 || w == 0 {
      BitOfZero(b);
    } else if b > 0 {
      assert And(v, w) / 2 == And(v / 2, w / 2);
      BitOfAnd(v / 2, w / 2, b - 1);
    }
  }

  lemma {:induction false} BitOfOr(v: nat, w: nat, b: nat)
    ensures Bit(Or(v, w), b) == (Bit(v, b) || Bit(w, b))
  {
    if v == 0 || w == 0 {
      BitOfZero(b);
    } else {
      var rest := Or(v / 2, w / 2);
      assert Or(v, w) / 2 == rest;
      if b > 0 {
        BitOfOr(v / 2, w / 2, b - 1);
      }
    }
  }

  lemma {:induction false} BitOfAndNot(v: nat, w: nat, b: nat)
    ensures Bit(AndNot(v, w), b) == (Bit(v, b) && !Bit(w, b))
  {
    if v == 0 {
      BitOfZero(b);
    } else if b > 0 {
      assert AndNot(v, w) / 2 == AndNot(v / 2, w / 2);
      BitOfAndNot(v / 2, w / 2, b - 1);
    }
  }
}
