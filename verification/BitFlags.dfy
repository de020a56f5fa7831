/** The same flag by its number and by its weight: manuals number a register's bits, and the code tests
    masks. */
module BitFlags {
  import opened Words
  import opened Bits
  import opened Pmp
  import opened PmpShifts

  lemma {:induction false} BitIsShr(v: nat, k: nat)
    ensures Bit(v, k) == (Shr(v, k) % 2 == 1)
    decreases k
  {
    if k > 0 {
      BitIsShr(v / 2, k - 1);
    }
  }

  lemma BitIsHas(v: nat, k: nat, weight: nat)
    requires weight == Pow2(k)
    ensures Bit(v, k) == Has(v, weight)
  {
    BitIsShr(v, k);
    ShrIsDiv(v, k);
  }

  lemma {:induction false} Pow2Sum(a: nat, b: nat)
    ensures Pow2(a + b) == Pow2(a) * Pow2(b)
  {
    if a > 0 {
      Pow2Sum(a - 1, b);
    }
  }

  lemma Powers()
    ensures Pow2(8) == 0x100 && Pow2(16) == 0x1_0000 && Pow2(32) == 0x1_0000_0000
    ensures Pow2(48) == 0x1_0000_0000_0000 && Pow2(56) == 0x100_0000_0000_0000
  {
    assert Pow2(4) == 16;
    Pow2Sum(4, 4);
    Pow2Sum(8, 8);
    Pow2Sum(16, 16);
    Pow2Sum(32, 16);
    Pow2Sum(48, 8);
  }

  /** The flags of a byte of a register, from bit `k` on. */
  lemma ByteFlags(v: nat, k: nat, w: nat)
    requires w == Pow2(k)
    ensures Bit(v, k) == Has(v, w) && Bit(v, k + 1) == Has(v, 2 * w)
    ensures Bit(v, k + 2) == Has(v, 4 * w) && Bit(v, k + 3) == Has(v, 8 * w)
    ensures Bit(v, k + 4) == Has(v, 16 * w) && Bit(v, k + 5) == Has(v, 32 * w)
    ensures Bit(v, k + 6) == Has(v, 64 * w) && Bit(v, k + 7) == Has(v, 128 * w)
  {
    hide Bit, Has;
    BitIsHas(v, k, w);
    BitIsHas(v, k + 1, 2 * w);
    BitIsHas(v, k + 2, 4 * w);
    BitIsHas(v, k + 3, 8 * w);
    BitIsHas(v, k + 4, 16 * w);
    BitIsHas(v, k + 5, 32 * w);
    BitIsHas(v, k + 6, 64 * w);
    BitIsHas(v, k + 7, 128 * w);
  }

  lemma FirstBit(v: nat)
    ensures Bit(v, 0) == (v % 2 == 1)
  {
  }

  lemma BitOfLowWord(value: nat, k: nat)
    requires k < 32
    ensures Bit(value % 0x1_0000_0000, k) == Bit(value, k)
  {
    hide Bit, Low, Pow2;
    Powers();
    LowIsMod(value, 32);
    BitOfLow(value, 32, k);
  }

  // ---- Bits of numbers --------------------------------------------------------------------------

  lemma {:induction false} SameBits(a: nat, b: nat)
    requires forall k: nat :: Bit(a, k) == Bit(b, k)
    ensures a == b
    decreases a + b
  {
    assert Bit(a, 0) == Bit(b, 0);
    if a + b > 0 {
      forall k: nat
        ensures Bit(a / 2, k) == Bit(b / 2, k)
      {
        assert Bit(a, k + 1) == Bit(b, k + 1);
      }
      SameBits(a / 2, b / 2);
    }
  }

  /** A number in two parts. */
  lemma {:induction false} BitOfParts(high: nat, low: nat, n: nat, k: nat)
    requires low < Pow2(n)
    ensures Bit(high * Pow2(n) + low, k) == if k < n then Bit(low, k) else Bit(high, k - n)
    decreases n
  {
    if n > 0 {
      var p := Pow2(n - 1);
      var v := high * Pow2(n) + low;
      assert high * Pow2(n) == 2 * (high * p);
      assert v / 2 == high * p + low / 2 && v % 2 == low % 2;
      if k > 0 {
        BitOfParts(high, low / 2, n - 1, k - 1);
      }
    }
  }

  /** The low `n` bits. */
  function Low(v: nat, n: nat): nat {
    if n == 0 then 0 else Low(v / 2, n - 1) * 2 + v % 2
  }

  lemma {:induction false} LowIsMod(v: nat, n: nat)
    ensures Low(v, n) < Pow2(n) && v == Shr(v, n) * Pow2(n) + Low(v, n) && Low(v, n) == v % Pow2(n)
    decreases n
  {
    if n > 0 {
      LowIsMod(v / 2, n - 1);
      TwiceInside(Shr(v, n), Pow2(n - 1));
      DivModUnique(v, Pow2(n), Shr(v, n), Low(v, n));
    }
  }

  lemma {:induction false} BitOfLow(v: nat, n: nat, k: nat)
    ensures Bit(Low(v, n), k) == (k < n && Bit(v, k))
    decreases n
  {
    if n == 0 {
      BitOfZero(k);
    } else if k > 0 {
      assert Low(v, n) / 2 == Low(v / 2, n - 1);
      BitOfLow(v / 2, n - 1, k - 1);
    }
  }

  lemma {:induction false} BitOfShr(v: nat, n: nat, k: nat)
    ensures Bit(Shr(v, n), k) == Bit(v, n + k)
    decreases n
  {
    if n > 0 {
      BitOfShr(v / 2, n - 1, k);
    }
  }

  /** No bit of a field is set. */
  ghost predicate Clear(v: nat, low: nat, width: nat) {
    forall k: nat | low <= k < low + width :: !Bit(v, k)
  }

  /** A field is zero exactly if its bits are. */
  lemma FieldIsZero(v: nat, low: nat, width: nat)
    ensures Low(Shr(v, low), width) == 0 <==> Clear(v, low, width)
  {
    hide Bit, Low, Shr;
    forall k: nat
      ensures Bit(Low(Shr(v, low), width), k) == (k < width && Bit(v, low + k)) && !Bit(0, k)
    {
      BitOfLow(Shr(v, low), width, k);
      BitOfShr(v, low, k);
      BitOfZero(k);
    }
    if Low(Shr(v, low), width) == 0 {
      forall k: nat | low <= k < low + width
        ensures !Bit(v, k)
      {
        ZeroField(v, low, width, k);
      }
    } else if Clear(v, low, width) {
      SameBits(Low(Shr(v, low), width), 0);
    }
  }

  lemma ZeroField(v: nat, low: nat, width: nat, k: nat)
    requires Low(Shr(v, low), width) == 0 && low <= k < low + width
    ensures !Bit(v, k)
  {
    hide Bit, Low, Shr;
    BitOfLow(Shr(v, low), width, k - low);
    BitOfShr(v, low, k - low);
    BitOfZero(k - low);
    assert low + (k - low) == k;
  }

  lemma {:induction false} ShrShr(v: nat, a: nat, b: nat)
    ensures Shr(Shr(v, a), b) == Shr(v, a + b)
    decreases a
  {
    if a > 0 {
      ShrShr(v / 2, a - 1, b);
    }
  }

  /** Adding the weight of a clear bit sets it. */
  lemma {:induction false} BitOfSum(v: nat, b: nat, k: nat)
    requires !Bit(v, b)
    ensures Bit(v + Pow2(b), k) == (Bit(v, k) || k == b)
    decreases b
  {
    if b > 0 {
      assert (v + Pow2(b)) / 2 == v / 2 + Pow2(b - 1);
      if k > 0 {
        BitOfSum(v / 2, b - 1, k - 1);
      }
    } else if k > 0 {
      assert (v + 1) / 2 == v / 2;
    }
  }

  lemma {:induction false} LowLow(v: nat, a: nat, b: nat)
    requires b <= a
    ensures Low(Low(v, a), b) == Low(v, b)
    decreases b
  {
    if b > 0 {
      assert Low(v, a) / 2 == Low(v / 2, a - 1);
      LowLow(v / 2, a - 1, b - 1);
    }
  }

  /** The low bits in two parts. */
  lemma {:induction false} LowSplit(v: nat, a: nat, b: nat)
    ensures Low(v, a + b) == Low(Shr(v, a), b) * Pow2(a) + Low(v, a)
    decreases a
  {
    if a > 0 {
      LowSplit(v / 2, a - 1, b);
      TwiceInside(Low(Shr(v, a), b), Pow2(a - 1));
    }
  }

  lemma TwiceInside(x: nat, p: nat)
    ensures x * (2 * p) == 2 * (x * p)
  {
  }

  lemma {:induction false} BitOfComplement(v: nat, n: nat, k: nat)
    requires v < Pow2(n) && k < n
    ensures Bit(Pow2(n) - 1 - v, k) == !Bit(v, k)
    decreases n
  {
    assert (Pow2(n) - 1 - v) / 2 == Pow2(n - 1) - 1 - v / 2;
    if k > 0 {
      BitOfComplement(v / 2, n - 1, k - 1);
    }
  }
}
