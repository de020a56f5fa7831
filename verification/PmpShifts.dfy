/** Addresses without their low bits: how alignment, NAPOT's trailing ones and the readings of a pmpaddr look
    once the bits below the grain are gone. */
module PmpShifts {
  import opened Words
  import opened Registers
  import opened Pmp

  /** Without the low `n` bits. */
  function Shr(v: nat, n: nat): nat
    decreases n
  {
    if n == 0 then v else Shr(v / 2, n - 1)
  }

  lemma {:induction false} ShrIsDiv(v: nat, n: nat)
    ensures Shr(v, n) == v / Pow2(n)
    decreases n
  {
    if n > 0 {
      var p := Pow2(n - 1);
      ShrIsDiv(v / 2, n - 1);
      DivDouble(v, p);
    }
  }

  lemma DivDouble(v: nat, p: nat)
    requires p > 0
    ensures v / 2 / p == v / (2 * p)
  {
    var q, r := v / 2 / p, v / 2 % p;
    var t := q * p;
    assert v / 2 == t + r;
    assert q * (2 * p) == 2 * t;
    DivModUnique(v, 2 * p, q, 2 * r + v % 2);
  }

  lemma {:induction false} ShrMonotone(v: nat, w: nat, n: nat)
    requires v <= w
    ensures Shr(v, n) <= Shr(w, n)
    decreases n
  {
    if n > 0 {
      ShrMonotone(v / 2, w / 2, n - 1);
    }
  }

  lemma {:induction false} ShrOnce(v: nat, n: nat)
    ensures Shr(v, n + 1) == Shr(v, n) / 2
    decreases n
  {
    if n > 0 {
      ShrOnce(v / 2, n - 1);
    }
  }

  function Shl(v: nat, n: nat): nat
    decreases n
  {
    if n == 0 then v else 2 * Shl(v, n - 1)
  }

  lemma {:induction false} ShrOfShl(v: nat, n: nat)
    ensures Shr(Shl(v, n), n) == v
    decreases n
  {
    if n > 0 {
      assert Shl(v, n) / 2 == Shl(v, n - 1);
      ShrOfShl(v, n - 1);
    }
  }

  /** The least value that is at least `v` without its low bits. */
  lemma {:induction false} ShlIsLeast(v: nat, w: nat, n: nat)
    ensures Shl(v, n) <= w <==> v <= Shr(w, n)
    decreases n
  {
    if n > 0 {
      ShlIsLeast(v, w / 2, n - 1);
    }
  }

  lemma AlignHalf(v: nat, n: nat)
    requires n > 0
    ensures AlignDown(v, Pow2(n)) == 2 * AlignDown(v / 2, Pow2(n - 1))
  {
    ModDouble(v, Pow2(n - 1));
  }

  /** Alignment is the comparison without low bits. */
  lemma {:induction false} AlignIsShr(v: nat, w: nat, n: nat)
    ensures AlignDown(v, Pow2(n)) <= w <==> Shr(v, n) <= Shr(w, n)
    decreases n
  {
    hide AlignDown;
    if n == 0 {
      assert AlignDown(v, 1) == v by {
        WholeAlign(v);
      }
    } else {
      AlignHalf(v, n);
      AlignIsShr(v / 2, w / 2, n - 1);
    }
  }

  lemma WholeAlign(v: nat)
    ensures AlignDown(v, 1) == v
  {
  }

  /** The low `n` bits set. */
  function Ones(v: nat, n: nat): nat
    decreases n
  {
    if n == 0 then v else 2 * Ones(v / 2, n - 1) + 1
  }

  lemma {:induction false} AlignedOnes(v: nat, n: nat)
    ensures AlignDown(v, Pow2(n)) + Pow2(n) - 1 == Ones(v, n)
    decreases n
  {
    hide AlignDown;
    if n == 0 {
      WholeAlign(v);
    } else {
      AlignHalf(v, n);
      AlignedOnes(v / 2, n - 1);
    }
  }

  lemma {:induction false} ShrOfOnes(v: nat, n: nat)
    ensures Shr(Ones(v, n), n) == Shr(v, n)
    decreases n
  {
    if n > 0 {
      assert Ones(v, n) / 2 == Ones(v / 2, n - 1);
      ShrOfOnes(v / 2, n - 1);
    }
  }

  /** Set low bits take no part in a NAPOT match. */
  lemma {:induction false} NapotOverOnes(v: nat, n: nat, w: nat)
    ensures NapotMatches(Ones(v, n), w) == NapotMatches(Shr(v, n), Shr(w, n))
    decreases n
  {
    if n > 0 {
      assert Ones(v, n) % 2 == 1 && Ones(v, n) / 2 == Ones(v / 2, n - 1);
      NapotOverOnes(v / 2, n - 1, w / 2);
    }
  }

  lemma {:induction false} NapotMatchesItself(v: nat, w: nat)
    requires v / 2 == w / 2
    ensures NapotMatches(v, w)
    decreases v
  {
    if v % 2 == 1 {
      assert v / 2 / 2 == w / 2 / 2;
      NapotMatchesItself(v / 2, w / 2);
    }
  }

  /** How a NAPOT entry's address reads with a grain. */
  lemma NapotReads(c: PmpConfig, csr: CsrFile, e: nat)
    requires e < 64 && c.grain > 0 && ModeOf(CfgByte(csr, e)) == Napot
    ensures AddrOf(c, csr, e) == Ones(RawAddr(csr, e), c.grain - 1)
  {
    hide AlignDown, Pow2, CfgByte;
    AlignedOnes(RawAddr(csr, e), c.grain - 1);
  }

  /** Whatever mode its entry is in, an address reads the same without its low G bits. */
  lemma ReadsAlike(c: PmpConfig, csr: CsrFile, e: nat, x: nat)
    requires e < 64
    ensures Shr(AddrOf(c, csr, e), c.grain) == Shr(RawAddr(csr, e), c.grain)
    ensures ModeOf(CfgByte(csr, e)) != Napot ==>
      (AddrOf(c, csr, e) <= x <==> Shr(RawAddr(csr, e), c.grain) <= Shr(x, c.grain))
  {
    hide AlignDown, Pow2, CfgByte, Ones;
    var raw := RawAddr(csr, e);
    if c.grain > 0 && ModeOf(CfgByte(csr, e)) == Napot {
      NapotReads(c, csr, e);
      ShrOfOnes(raw, c.grain - 1);
      ShrOnce(raw, c.grain - 1);
      ShrOnce(Ones(raw, c.grain - 1), c.grain - 1);
    } else {
      AlignIsShr(raw, x, c.grain);
      AlignIsShr(raw, raw, c.grain);
      AlignIsShr(raw, AlignDown(raw, Pow2(c.grain)), c.grain);
      AlignBelow(raw, c.grain);
    }
  }

  lemma AlignBelow(v: nat, n: nat)
    ensures Shr(AlignDown(v, Pow2(n)), n) <= Shr(v, n)
  {
    ShrMonotone(AlignDown(v, Pow2(n)), v, n);
  }
}
