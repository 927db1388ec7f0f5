/** What the division gives: the remainder itself, linearity, and the bursts that never collide. */
module CrcProperties {
  import opened Words
  import opened Bitwise
  import opened Crc16

  // ---- Polynomials over GF(2), as coefficients from the highest power down ----

  function Add(p: seq<bool>, q: seq<bool>): (r: seq<bool>)
    requires |p| == |q|
    ensures |r| == |p|
  {
    seq(|p|, i requires 0 <= i < |p| => p[i] != q[i])
  }

  function None(n: nat): seq<bool> {
    seq(n, _ => false)
  }

  /** x^16 + x^12 + x^5 + 1 */
  const DIVISOR: seq<bool> := [
    true, false, false, false, true, false, false, false, false, false, false, true,
    false, false, false, false, true]

  /** The product of `q` with the divisor. */
  function Times(q: seq<bool>): (r: seq<bool>)
    ensures |r| == |q| + 16
  {
    if q == [] then None(16)
    else Add(Times(q[..|q| - 1]) + [false], None(|q| - 1) + Multiple(q[|q| - 1]))
  }

  /** The divisor times one coefficient. */
  function Multiple(c: bool): (r: seq<bool>)
    ensures |r| == 17
  {
    if c then DIVISOR else None(17)
  }

  /** A register as a polynomial of degree below 16. */
  function Poly(reg: u16): seq<bool> {
    BitsOf(reg, 16)
  }

  lemma DividerBit(j: nat)
    requires 1 <= j <= 16
    ensures BitAt(POLY, 16 - j) == DIVISOR[j]
  {
    assert BitAt(POLY, 0) && BitAt(POLY, 5) && BitAt(POLY, 12);
    assert !BitAt(POLY, 1) && !BitAt(POLY, 2) && !BitAt(POLY, 3) && !BitAt(POLY, 4) && !BitAt(POLY, 6);
    assert !BitAt(POLY, 7) && !BitAt(POLY, 8) && !BitAt(POLY, 9) && !BitAt(POLY, 10) && !BitAt(POLY, 11);
    assert !BitAt(POLY, 13) && !BitAt(POLY, 14) && !BitAt(POLY, 15);
  }

  lemma DoubledBit(reg: u16, k: nat)
    requires k < 16
    ensures BitAt(Wrap16(2 * reg), k) == (k > 0 && BitAt(reg, k - 1))
  {
    Powers();
    ShlZero(16);
    var w := Wrap16(2 * reg);
    assert 2 * reg == w || 2 * reg == Shl(1, 16) + w;
    LowBit(1, w, 16, k);
    assert (2 * reg) / 2 == reg;
  }

  lemma TopOf(reg: u16)
    ensures BitAt(reg, 15) == (reg >= 0x8000)
  {
    Powers();
    TopBit(reg, 15);
  }

  /** One division step, coefficient by coefficient. */
  lemma DivideBitPoly(reg: u16, bit: bool, j: nat)
    requires 1 <= j <= 16
    ensures BitAt(DivideBit(reg, bit), 16 - j)
         == ((j < 16 && BitAt(reg, 15 - j)) != (((reg >= 0x8000) != bit) && DIVISOR[j]))
  {
    var w := Wrap16(2 * reg);
    DoubledBit(reg, 16 - j);
    DividerBit(j);
    hide Xor, BitAt, DIVISOR, Wrap16;
    XorBit(w, POLY, 16 - j);
  }

  function Quotient(m: seq<bool>): (q: seq<bool>)
    ensures |q| == |m|
  {
    if m == [] then []
    else Quotient(m[..|m| - 1]) + [(Divide(0, m[..|m| - 1]) >= 0x8000) != m[|m| - 1]]
  }

  /** `q` and `r` are quotient and remainder of m(x) * x^16 by the divisor. */
  ghost predicate Division(m: seq<bool>, q: seq<bool>, r: seq<bool>)
    requires |q| == |m| && |r| == 16
  {
    m + None(16) == Add(Times(q), None(|m|) + r)
  }

  /** The same identity, coefficient by coefficient. */
  ghost predicate CoefficientAgrees(m: seq<bool>, q: seq<bool>, r: seq<bool>, k: nat)
    requires |q| == |m| && |r| == 16 && k < |m| + 16
  {
    (k < |m| && m[k]) == (Times(q)[k] != (k >= |m| && r[k - |m|]))
  }

  lemma DivisionByCoefficient(m: seq<bool>, q: seq<bool>, r: seq<bool>)
    requires |q| == |m| && |r| == 16
    ensures Division(m, q, r) <==> forall k | 0 <= k < |m| + 16 :: CoefficientAgrees(m, q, r, k)
  {
    var lhs, rhs := m + None(16), Add(Times(q), None(|m|) + r);
    assert forall k | 0 <= k < |m| + 16 :: lhs[k] == rhs[k] <==> CoefficientAgrees(m, q, r, k);
    assert |lhs| == |rhs|;
    if forall k | 0 <= k < |m| + 16 :: CoefficientAgrees(m, q, r, k) {
      assert forall k | 0 <= k < |m| + 16 :: lhs[k] == rhs[k];
    }
  }

  lemma {:induction false} DivideIsDivision(m: seq<bool>)
    ensures Division(m, Quotient(m), Poly(Divide(0, m)))
    decreases |m|
  {
    if m == [] {
      PolyZero();
    } else {
      var n := |m| - 1;
      var m', b := m[..n], m[n];
      var reg := Divide(0, m');
      assert m == m' + [b];
      DivideConcat(0, m', [b]);
      assert Divide(0, m) == DivideBit(reg, b);
      DivideIsDivision(m');
      DivisionStep(m', b, Quotient(m'), reg);
    }
  }

  /** Bringing down one more bit keeps the division identity. */
  lemma DivisionStep(m: seq<bool>, b: bool, q: seq<bool>, reg: u16)
    requires |q| == |m|
    requires Division(m, q, Poly(reg))
    ensures Division(m + [b], q + [(reg >= 0x8000) != b], Poly(DivideBit(reg, b)))
  {
    var t := (reg >= 0x8000) != b;
    hide Division, DivideBit;
    DivisionByCoefficient(m, q, Poly(reg));
    forall k | 0 <= k < |m| + 17
      ensures CoefficientAgrees(m + [b], q + [t], Poly(DivideBit(reg, b)), k)
    {
      StepCoefficient(m, b, q, reg, k);
    }
    DivisionByCoefficient(m + [b], q + [t], Poly(DivideBit(reg, b)));
  }

  lemma StepCoefficient(m: seq<bool>, b: bool, q: seq<bool>, reg: u16, k: nat)
    requires |q| == |m| && k < |m| + 17
    requires k < |m| + 16 ==> CoefficientAgrees(m, q, Poly(reg), k)
    ensures CoefficientAgrees(m + [b], q + [(reg >= 0x8000) != b], Poly(DivideBit(reg, b)), k)
  {
    hide BitAt, DivideBit, Times;
    TimesAppendAt(q, (reg >= 0x8000) != b, k);
    TopOf(reg);
    if k > |m| {
      DivideBitPoly(reg, b, k - |m|);
    }
  }

  lemma TimesAppendAt(q: seq<bool>, t: bool, k: nat)
    requires k < |q| + 17
    ensures Times(q + [t])[k]
         == ((k < |q| + 16 && Times(q)[k]) != (k >= |q| && Multiple(t)[k - |q|]))
  {
    assert (q + [t])[..|q|] == q;
  }

  lemma PolyZero()
    ensures Poly(0) == None(16)
  {
    forall k: nat
      ensures !BitAt(0, k)
    {
      ZeroBit(k);
    }
  }

  lemma {:induction false} ZeroBit(k: nat)
    ensures !BitAt(0, k)
  {
    if k > 0 {
      ZeroBit(k - 1);
    }
  }

  /** Leading coefficients survive multiplication by the divisor, which is monic. */
  lemma {:induction false} LeadingCoefficient(q: seq<bool>, k: nat)
    requires k < |q|
    requires forall i | 0 <= i < k :: !q[i]
    ensures Times(q)[k] == q[k]
    decreases |q|
  {
    var q' := q[..|q| - 1];
    if k < |q| - 1 {
      LeadingCoefficient(q', k);
    } else {
      assert q' == None(k);
      TimesNone(k);
    }
  }

  lemma {:induction false} TimesNone(n: nat)
    ensures Times(None(n)) == None(n + 16)
  {
    if n > 0 {
      assert None(n)[..n - 1] == None(n - 1);
      TimesNone(n - 1);
    }
  }

  lemma {:induction false} TimesAdd(p: seq<bool>, q: seq<bool>, k: nat)
    requires |p| == |q| && k < |p| + 16
    ensures Times(Add(p, q))[k] == (Times(p)[k] != Times(q)[k])
    decreases |p|
  {
    if p != [] {
      var n := |p| - 1;
      var p', q' := p[..n], q[..n];
      assert Add(p, q) == Add(p', q') + [p[n] != q[n]];
      assert p == p' + [p[n]] && q == q' + [q[n]];
      TimesAppendAt(p', p[n], k);
      TimesAppendAt(q', q[n], k);
      TimesAppendAt(Add(p', q'), p[n] != q[n], k);
      if k < n + 16 {
        TimesAdd(p', q', k);
      }
    }
  }

  lemma {:induction false} NoMultipleBelowDegree(q: seq<bool>, k: nat)
    requires k <= |q|
    requires forall i | 0 <= i < |q| :: !Times(q)[i]
    ensures forall i | 0 <= i < k :: !q[i]
    decreases k
  {
    if k > 0 {
      NoMultipleBelowDegree(q, k - 1);
      LeadingCoefficient(q, k - 1);
    }
  }

  /** Quotient and remainder are unique. */
  lemma DivisionUnique(m: seq<bool>, q1: seq<bool>, r1: seq<bool>, q2: seq<bool>, r2: seq<bool>)
    requires |q1| == |q2| == |m| && |r1| == |r2| == 16
    requires Division(m, q1, r1) && Division(m, q2, r2)
    ensures q1 == q2 && r1 == r2
  {
    hide Division, Times;
    var n := |m|;
    DivisionByCoefficient(m, q1, r1);
    DivisionByCoefficient(m, q2, r2);
    forall k | 0 <= k < n
      ensures !Times(Add(q1, q2))[k]
    {
      TimesAdd(q1, q2, k);
      assert CoefficientAgrees(m, q1, r1, k) && CoefficientAgrees(m, q2, r2, k);
    }
    NoMultipleBelowDegree(Add(q1, q2), n);
    assert forall i | 0 <= i < n :: Add(q1, q2)[i] == (q1[i] != q2[i]);
    assert q1 == q2;
    forall i | 0 <= i < 16
      ensures r1[i] == r2[i]
    {
      assert CoefficientAgrees(m, q1, r1, n + i) && CoefficientAgrees(m, q2, r2, n + i);
    }
  }

  /** The CRC is the one remainder of data(x) * x^16 divided by x^16 + x^12 + x^5 + 1. */
  lemma CrcIsTheRemainder(data: seq<byte>, q: seq<bool>, r: seq<bool>)
    requires |q| == |Bits(data)| && |r| == 16
    ensures Division(Bits(data), q, r) <==> q == Quotient(Bits(data)) && r == Poly(Crc(data))
  {
    FoldDivides(0, data);
    DivideIsDivision(Bits(data));
    if Division(Bits(data), q, r) {
      DivisionUnique(Bits(data), q, r, Quotient(Bits(data)), Poly(Crc(data)));
    }
  }

  // ---- Linearity, and the map on states ----

  function XorBytes(a: seq<byte>, b: seq<byte>): (c: seq<byte>)
    requires |a| == |b|
    ensures |c| == |a|
  {
    seq(|a|, i requires 0 <= i < |a| => Xor8(a[i], b[i]))
  }

  lemma BitsOfXor(a: byte, b: byte)
    ensures BitsOfByte(Xor8(a, b)) == Add(BitsOfByte(a), BitsOfByte(b))
  {
    forall k: nat
      ensures BitAt(Xor(a, b), k) == (BitAt(a, k) != BitAt(b, k))
    {
      XorBit(a, b, k);
    }
  }

  lemma {:induction false} DivideLinear(r1: u16, r2: u16, a: seq<bool>, b: seq<bool>)
    requires |a| == |b|
    ensures Divide(Xor16(r1, r2), Add(a, b)) == Xor16(Divide(r1, a), Divide(r2, b))
    decreases |a|
  {
    if a != [] {
      DivideBitXor(r1, r2, a[0], b[0]);
      DivideLinear(DivideBit(r1, a[0]), DivideBit(r2, b[0]), a[1..], b[1..]);
      assert Add(a, b)[1..] == Add(a[1..], b[1..]);
    }
  }

  lemma {:induction false} FoldLinear(r1: u16, r2: u16, a: seq<byte>, b: seq<byte>)
    requires |a| == |b|
    ensures Fold(Xor16(r1, r2), XorBytes(a, b)) == Xor16(Fold(r1, a), Fold(r2, b))
    decreases |a|
  {
    if a != [] {
      UpdateLinear(r1, r2, a[0], b[0]);
      FoldLinear(Update(r1, a[0]), Update(r2, b[0]), a[1..], b[1..]);
      assert XorBytes(a, b)[1..] == XorBytes(a[1..], b[1..]);
    }
  }

  lemma UpdateLinear(r1: u16, r2: u16, a: byte, b: byte)
    ensures Update(Xor16(r1, r2), Xor8(a, b)) == Xor16(Update(r1, a), Update(r2, b))
  {
    hide Update, Divide, Xor16, Xor8, BitsOfByte;
    UpdateDivides(r1, a);
    UpdateDivides(r2, b);
    UpdateDivides(Xor16(r1, r2), Xor8(a, b));
    BitsOfXor(a, b);
    BitsOfByteLength(a);
    BitsOfByteLength(b);
    DivideLinear(r1, r2, BitsOfByte(a), BitsOfByte(b));
  }

  lemma BitsOfByteLength(a: byte)
    ensures |BitsOfByte(a)| == 8
  {
  }

  /** Equal-length strings: the CRC of the XOR is the XOR of the CRCs. */
  lemma CrcLinear(a: seq<byte>, b: seq<byte>)
    requires |a| == |b|
    ensures Crc(XorBytes(a, b)) == Xor16(Crc(a), Crc(b))
  {
    FoldLinear(0, 0, a, b);
  }

  /** The divisor's constant term marks the steps that subtracted it. */
  lemma DivideBitParity(reg: u16, bit: bool)
    ensures DivideBit(reg, bit) % 2 == 1 <==> (reg >= 0x8000) != bit
  {
    var w := Wrap16(2 * reg);
    assert w % 2 == 0;
    XorHalves(w, POLY);
    hide Xor;
  }

  lemma DivideBitInjective(r1: u16, r2: u16, bit: bool)
    requires DivideBit(r1, bit) == DivideBit(r2, bit)
    ensures r1 == r2
  {
    DivideBitParity(r1, bit);
    DivideBitParity(r2, bit);
    hide Xor;
    DoubleWraps(r1);
    DoubleWraps(r2);
    if (r1 >= 0x8000) != bit {
      XorCancels(2 * Low(r1), 2 * Low(r2), POLY);
    }
  }

  lemma {:induction false} DivideInjective(r1: u16, r2: u16, bits: seq<bool>)
    requires Divide(r1, bits) == Divide(r2, bits)
    ensures r1 == r2
    decreases |bits|
  {
    if bits != [] {
      DivideInjective(DivideBit(r1, bits[0]), DivideBit(r2, bits[0]), bits[1..]);
      DivideBitInjective(r1, r2, bits[0]);
    }
  }

  /** The register before the step that produced `reg`. */
  function UndoBit(reg: u16, bit: bool): u16 {
    var w := if reg % 2 == 1 then Xor16(reg, POLY) else reg;
    w / 2 + if (reg % 2 == 1) != bit then 0x8000 else 0
  }

  lemma UndoneBit(reg: u16, bit: bool)
    ensures DivideBit(UndoBit(reg, bit), bit) == reg
  {
    var odd := reg % 2 == 1;
    XorHalves(reg, POLY);
    hide Xor;
    Shifted(if odd then Xor16(reg, POLY) else reg, odd != bit);
    XorAssociates(reg, POLY, POLY);
    XorSelf(POLY);
    ZeroXor(reg);
  }

  lemma Shifted(w: u16, top: bool)
    requires w % 2 == 0
    ensures var r := w / 2 + if top then 0x8000 else 0;
      0 <= r < U16 && (r >= 0x8000) == top && Wrap16(2 * r) == w
  {
  }

  function Undo(reg: u16, bits: seq<bool>): u16
    decreases |bits|
  {
    if bits == [] then reg else UndoBit(Undo(reg, bits[1..]), bits[0])
  }

  lemma {:induction false} Undone(reg: u16, bits: seq<bool>)
    ensures Divide(Undo(reg, bits), bits) == reg
    decreases |bits|
  {
    if bits != [] {
      UndoneBit(Undo(reg, bits[1..]), bits[0]);
      Undone(reg, bits[1..]);
    }
  }

  /** For a fixed data byte `Update` is a bijection on the sixteen-bit state. */
  lemma UpdateIsBijection(reg: u16, crc: u16, d: byte)
    ensures Update(crc, d) == reg <==> crc == Undo(reg, BitsOfByte(d))
  {
    hide Update, Divide, Undo, BitsOfByte;
    var back := Undo(reg, BitsOfByte(d));
    UpdateDivides(crc, d);
    UpdateDivides(back, d);
    Undone(reg, BitsOfByte(d));
    if Update(crc, d) == reg {
      DivideInjective(crc, back, BitsOfByte(d));
    }
  }

  // ---- Bursts ----

  lemma HalvesAgree(b1: bool, b2: bool, a1: u16, a2: u16)
    requires a1 % 2 == a2 % 2 == 0
    requires (if b1 then 0x8000 else 0) + a1 / 2 == (if b2 then 0x8000 else 0) + a2 / 2
    ensures b1 == b2 && a1 == a2
  {
  }

  lemma {:induction false} AlignInjective(v1: seq<bool>, v2: seq<bool>)
    requires |v1| == |v2| <= 16
    requires Align(v1) == Align(v2)
    ensures v1 == v2
    decreases |v1|
  {
    if v1 != [] {
      AlignEven(v1[1..]);
      AlignEven(v2[1..]);
      HalvesAgree(v1[0], v2[0], Align(v1[1..]), Align(v2[1..]));
      hide Align;
      AlignInjective(v1[1..], v2[1..]);
      assert v1 == [v1[0]] + v1[1..] && v2 == [v2[0]] + v2[1..];
    }
  }

  lemma {:induction false} ZerosInjective(r1: u16, r2: u16, n: nat)
    requires Zeros(r1, n) == Zeros(r2, n)
    ensures r1 == r2
    decreases n
  {
    if n > 0 {
      ZerosInjective(DivideBit(r1, false), DivideBit(r2, false), n - 1);
      DivideBitInjective(r1, r2, false);
    }
  }

  /** From one register, different strings of at most sixteen bits lead to different registers. */
  lemma ShortStringsDiffer(reg: u16, v1: seq<bool>, v2: seq<bool>)
    requires |v1| == |v2| <= 16
    requires Divide(reg, v1) == Divide(reg, v2)
    ensures v1 == v2
  {
    hide Divide, Zeros, Xor, Align;
    DivideAligned(reg, v1);
    DivideAligned(reg, v2);
    ZerosInjective(Xor16(reg, Align(v1)), Xor16(reg, Align(v2)), |v1|);
    XorCommutes(reg, Align(v1));
    XorCommutes(reg, Align(v2));
    XorCancels(Align(v1), Align(v2), reg);
    AlignInjective(v1, v2);
  }

  lemma ConcatSplits(x: seq<bool>, t: seq<bool>, y: seq<bool>, u: seq<bool>)
    requires |x| == |y| && x + t == y + u
    ensures x == y && t == u
  {
    assert x == (x + t)[..|x|] && t == (x + t)[|x|..];
    assert y == (y + u)[..|y|] && u == (y + u)[|y|..];
  }

  lemma {:induction false} BitsInjective(a: seq<byte>, b: seq<byte>)
    requires |a| == |b|
    requires Bits(a) == Bits(b)
    ensures a == b
  {
    if a != [] {
      BitsOfByteLength(a[0]);
      BitsOfByteLength(b[0]);
      AlignByte(a[0]);
      AlignByte(b[0]);
      hide BitsOfByte, Align;
      ConcatSplits(BitsOfByte(a[0]), Bits(a[1..]), BitsOfByte(b[0]), Bits(b[1..]));
      BitsInjective(a[1..], b[1..]);
      assert a == [a[0]] + a[1..] && b == [b[0]] + b[1..];
    }
  }

  /** `x` and `y` agree everywhere but in the sixteen positions from `p`. */
  ghost predicate BurstAt(x: seq<bool>, y: seq<bool>, p: nat) {
    |x| == |y| && forall i | 0 <= i < |x| && !(p <= i < p + 16) :: x[i] == y[i]
  }

  lemma MiddlesAgree(pre: seq<bool>, v1: seq<bool>, v2: seq<bool>, post: seq<bool>)
    requires |v1| == |v2| <= 16
    requires Divide(0, pre + v1 + post) == Divide(0, pre + v2 + post)
    ensures v1 == v2
  {
    hide Divide;
    var reg := Divide(0, pre);
    DivideConcat(0, pre + v1, post);
    DivideConcat(0, pre, v1);
    DivideConcat(0, pre + v2, post);
    DivideConcat(0, pre, v2);
    DivideInjective(Divide(reg, v1), Divide(reg, v2), post);
    ShortStringsDiffer(reg, v1, v2);
  }

  lemma BurstsDivideDifferently(x: seq<bool>, y: seq<bool>, p: nat)
    requires BurstAt(x, y, p)
    requires Divide(0, x) == Divide(0, y)
    ensures x == y
  {
    hide Divide;
    var lo := if p <= |x| then p else |x|;
    var hi := if p + 16 <= |x| then p + 16 else |x|;
    assert x == x[..lo] + x[lo..hi] + x[hi..];
    assert y[..lo] == x[..lo] && y[hi..] == x[hi..];
    assert y == y[..lo] + y[lo..hi] + y[hi..];
    MiddlesAgree(x[..lo], x[lo..hi], y[lo..hi], x[hi..]);
  }

  /** Equal-length strings that differ only within a burst of sixteen bits never share a CRC. */
  lemma BurstsNeverCollide(a: seq<byte>, b: seq<byte>, p: nat)
    requires |a| == |b| && BurstAt(Bits(a), Bits(b), p)
    ensures Crc(a) == Crc(b) <==> a == b
  {
    if Crc(a) == Crc(b) {
      FoldDivides(0, a);
      FoldDivides(0, b);
      hide Divide, Bits, Fold, BurstAt;
      BurstsDivideDifferently(Bits(a), Bits(b), p);
      BitsInjective(a, b);
    }
  }

  lemma {:induction false} BitsConcat(a: seq<byte>, b: seq<byte>)
    ensures Bits(a + b) == Bits(a) + Bits(b)
    decreases |a|
  {
    if a == [] {
      assert a + b == b;
    } else {
      assert (a + b)[1..] == a[1..] + b;
      BitsConcat(a[1..], b);
    }
  }

  /** Hostnames that differ in one character, or in two adjacent ones, never share a query id. */
  lemma AdjacentCharactersNeverCollide(prefix: seq<byte>, x: seq<byte>, y: seq<byte>, suffix: seq<byte>)
    requires |x| == |y| <= 2
    ensures Crc(prefix + x + suffix) == Crc(prefix + y + suffix) <==> x == y
  {
    var a, b := prefix + x + suffix, prefix + y + suffix;
    BitsConcat(prefix + x, suffix);
    BitsConcat(prefix, x);
    BitsConcat(prefix + y, suffix);
    BitsConcat(prefix, y);
    BitsLength(x);
    BitsLength(y);
    BurstsNeverCollide(a, b, |Bits(prefix)|);
    if a == b {
      assert x == a[|prefix|..|prefix| + |x|] == y;
    }
  }

  lemma {:induction false} BitsLength(a: seq<byte>)
    ensures |Bits(a)| == 8 * |a|
  {
    if a != [] {
      BitsLength(a[1..]);
    }
  }

  /** A message followed by its CRC, high byte first, divides evenly. */
  lemma AppendedCrcIsZero(data: seq<byte>)
    ensures Crc(data + [Hi(Crc(data)), Lo(Crc(data))]) == 0
  {
    var c := Crc(data);
    hide Fold, Update;
    FoldConcat(0, data, [Hi(c), Lo(c)]);
    FoldTwo(c, Hi(c), Lo(c));
    OwnHighByte(c);
    OwnHighByte(Lo(c) * 0x100);
  }

  lemma FoldTwo(c: u16, x: byte, y: byte)
    ensures Fold(c, [x, y]) == Update(Update(c, x), y)
  {
    hide Update;
    assert [x, y][1..] == [y];
    assert Fold(Update(c, x), [y]) == Fold(Update(Update(c, x), y), []);
  }

  lemma OwnHighByte(c: u16)
    ensures Update(c, Hi(c)) == Lo(c) * 0x100
  {
    XorSelf(Hi(c));
    TableZero();
    ZerosOfZero(BYTE);
    ZeroXor(Lo(c) * 0x100);
    hide Xor, Table, Zeros;
  }

  lemma CrcOfOneByte(d: byte)
    ensures Crc([d]) == Table(d)
  {
    hide Table;
    UpdateParts(0, 0, d);
    ZeroXor(d);
    ZeroXor(Table(d));
    hide Update;
    assert Fold(0, [d]) == Fold(Update(0, d), []);
  }

  lemma TableStart()
    ensures Table(0) == 0 && Table(1) == POLY
  {
    TableZero();
    ZerosOfZero(BYTE);
    TableDivides(1);
    ZerosOfOne();
    hide Table, Zeros;
  }

  /** Seventeen bits are too many: the divisor itself is a burst that goes unseen. */
  lemma BurstOfSeventeenCollides()
    ensures Crc([0x01] + [0x10, 0x21]) == Crc([0x00] + [0x00, 0x00])
  {
    hide Crc, Table;
    CrcOfOneByte(0);
    CrcOfOneByte(1);
    TableStart();
    AppendedCrcIsZero([0x01]);
    AppendedCrcIsZero([0x00]);
  }
}
