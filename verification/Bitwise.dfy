/** Bitwise OR and XOR of naturals, with the laws the decoders and the CRC need. */
module Bitwise {
  function Or(a: nat, b: nat): nat
    decreases a + b
  {
    if a == 0 then b
    else if b == 0 then a
    else 2 * Or(a / 2, b / 2) + (if a % 2 == 1 || b % 2 == 1 then 1 else 0)
  }

  function Xor(a: nat, b: nat): nat
    decreases a + b
  {
    if a == 0 then b
    else if b == 0 then a
    else 2 * Xor(a / 2, b / 2) + (if a % 2 != b % 2 then 1 else 0)
  }

  /** `a` shifted left by `k` places. */
  function Shl(a: nat, k: nat): nat
    decreases k
  {
    if k == 0 then a else 2 * Shl(a, k - 1)
  }

  // ---- Halving: every law below is an induction on these four equations ----

  lemma OrHalves(a: nat, b: nat)
    ensures Or(a, b) / 2 == Or(a / 2, b / 2)
    ensures Or(a, b) % 2 == (if a % 2 == 1 || b % 2 == 1 then 1 else 0)
  {
  }

  lemma XorHalves(a: nat, b: nat)
    ensures Xor(a, b) / 2 == Xor(a / 2, b / 2)
    ensures Xor(a, b) % 2 == (if a % 2 != b % 2 then 1 else 0)
  {
  }

  lemma {:induction false} OrIdempotent(a: nat, b: nat)
    ensures Or(Or(a, b), b) == Or(a, b)
    decreases a + b
  {
    if a != 0 && b != 0 {
      OrIdempotent(a / 2, b / 2);
      OrHalves(a, b);
      OrHalves(Or(a, b), b);
    } else if b != 0 {
      OrSelf(b);
    }
  }

  lemma {:induction false} OrSelf(a: nat)
    ensures Or(a, a) == a
  {
    if a != 0 {
      OrSelf(a / 2);
    }
  }

  /** OR of fields that do not overlap is their sum. */
  lemma {:induction false} OrDisjoint(high: nat, low: nat, k: nat)
    requires low < Shl(1, k)
    ensures Or(Shl(high, k), low) == Shl(high, k) + low
    decreases k
  {
    if k > 0 {
      OrDisjoint(high, low / 2, k - 1);
      OrHalves(Shl(high, k), low);
    }
  }

  lemma {:induction false} XorSelf(a: nat)
    ensures Xor(a, a) == 0
  {
    if a != 0 {
      XorSelf(a / 2);
    }
  }

  lemma {:induction false} XorCommutes(a: nat, b: nat)
    ensures Xor(a, b) == Xor(b, a)
    decreases a + b
  {
    if a != 0 && b != 0 {
      XorCommutes(a / 2, b / 2);
    }
  }

  lemma {:induction false} XorAssociates(a: nat, b: nat, c: nat)
    ensures Xor(Xor(a, b), c) == Xor(a, Xor(b, c))
    decreases a + b + c
  {
    if a != 0 && b != 0 && c != 0 {
      XorAssociates(a / 2, b / 2, c / 2);
      XorHalves(a, b);
      XorHalves(b, c);
      XorHalves(Xor(a, b), c);
      XorHalves(a, Xor(b, c));
    }
  }

  /** XOR cancels. */
  lemma XorCancels(a: nat, b: nat, c: nat)
    requires Xor(a, c) == Xor(b, c)
    ensures a == b
  {
    XorAssociates(a, c, c);
    XorAssociates(b, c, c);
    XorSelf(c);
  }

  /** The four-term rearrangement. */
  lemma XorInterchange(a: nat, b: nat, c: nat, d: nat)
    ensures Xor(Xor(a, b), Xor(c, d)) == Xor(Xor(a, c), Xor(b, d))
  {
    XorAssociates(a, b, Xor(c, d));
    XorAssociates(b, c, d);
    XorCommutes(b, c);
    XorAssociates(c, b, d);
    XorAssociates(a, c, Xor(b, d));
  }

  /** XOR works on the bits above and below position `k` separately. */
  lemma {:induction false} XorParts(ah: nat, al: nat, bh: nat, bl: nat, k: nat)
    requires al < Shl(1, k) && bl < Shl(1, k)
    ensures Xor(Shl(ah, k) + al, Shl(bh, k) + bl) == Shl(Xor(ah, bh), k) + Xor(al, bl)
    ensures Xor(al, bl) < Shl(1, k)
    decreases k
  {
    if k > 0 {
      XorParts(ah, al / 2, bh, bl / 2, k - 1);
      hide Xor;
      var a, b := Shl(ah, k) + al, Shl(bh, k) + bl;
      assert a / 2 == Shl(ah, k - 1) + al / 2 && a % 2 == al % 2;
      assert b / 2 == Shl(bh, k - 1) + bl / 2 && b % 2 == bl % 2;
      XorHalves(al, bl);
      XorHalves(a, b);
    }
  }

  // ---- Shifts ----

  lemma {:induction false} ShlZero(k: nat)
    ensures Shl(0, k) == 0
  {
    if k > 0 {
      ShlZero(k - 1);
    }
  }

  lemma ShlEven(v: nat, k: nat)
    requires k > 0
    ensures Shl(v, k) % 2 == 0
  {
    assert Shl(v, k) == 2 * Shl(v, k - 1);
    hide Shl;
  }

  lemma {:induction false} ShlPlus(a: nat, b: nat, k: nat)
    ensures Shl(a + b, k) == Shl(a, k) + Shl(b, k)
  {
    if k > 0 {
      ShlPlus(a, b, k - 1);
    }
  }

  lemma {:induction false} ShlAdds(a: nat, k: nat, n: nat)
    requires k <= n
    ensures Shl(Shl(a, n - k), k) == Shl(a, n)
    decreases k
  {
    if k > 0 {
      ShlAdds(a, k - 1, n - 1);
    }
  }

  lemma {:induction false} ShlFirst(a: nat, n: nat)
    requires n > 0
    ensures Shl(a, n) == Shl(2 * a, n - 1)
  {
    if n > 1 {
      ShlFirst(a, n - 1);
    }
  }

  lemma {:induction false} ShlGrows(a: nat, n: nat)
    ensures a <= Shl(a, n)
  {
    if n > 0 {
      ShlGrows(a, n - 1);
    }
  }

  lemma ShlTimes(a: nat)
    ensures Shl(a, 5) == a * 0x20 && Shl(a, 7) == a * 0x80 && Shl(a, 8) == a * 0x100
  {
    assert Shl(a, 4) == a * 0x10;
  }

  lemma {:induction false} OrShl(a: nat, b: nat, k: nat)
    ensures Or(Shl(a, k), Shl(b, k)) == Shl(Or(a, b), k)
    decreases k
  {
    if k > 0 {
      OrShl(a, b, k - 1);
      OrHalves(Shl(a, k), Shl(b, k));
    }
  }

  // ---- Single bits ----

  /** Bit `k` of `a`; bit 0 is the least significant. */
  predicate BitAt(a: nat, k: nat)
    decreases k
  {
    if k == 0 then a % 2 == 1 else BitAt(a / 2, k - 1)
  }

  lemma {:induction false} XorBit(a: nat, b: nat, k: nat)
    ensures BitAt(Xor(a, b), k) == (BitAt(a, k) != BitAt(b, k))
    decreases k
  {
    XorHalves(a, b);
    if k > 0 {
      XorBit(a / 2, b / 2, k - 1);
    }
  }

  lemma {:induction false} TopBit(a: nat, k: nat)
    requires a < Shl(1, k + 1)
    ensures BitAt(a, k) == (a >= Shl(1, k))
    decreases k
  {
    if k > 0 {
      TopBit(a / 2, k - 1);
    }
  }

  /** Bits below `n` do not see anything added at `n` or above. */
  lemma {:induction false} LowBit(high: nat, a: nat, n: nat, k: nat)
    requires k < n
    ensures BitAt(Shl(high, n) + a, k) == BitAt(a, k)
    decreases k
  {
    if k > 0 {
      assert (Shl(high, n) + a) / 2 == Shl(high, n - 1) + a / 2;
      LowBit(high, a / 2, n - 1, k - 1);
    }
  }
}
