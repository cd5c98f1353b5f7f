/** Division of temporary reals (kernel/math/div.c). */
module Div {
  import opened Words
  import opened TempReals
  import opened Quads
  import opened Fpu
  import Mul

  // ----- div64: one quotient bit per step -----

  /** Before step i the mask pointer has reached word k of the quotient, with this mask. */
  ghost predicate MaskAt(i: nat, k: int, mask: u32) {
    if i == 0 then k == 4 && mask == 0
    else if i <= 32 then k == 3 && mask == Pow2(32 - i)
    else i <= 64 && k == 2 && mask == Pow2(64 - i)
  }

  lemma MaskStep(i: nat, k: int, mask: u32)
    requires i < 64 && MaskAt(i, k, mask)
    ensures if mask / 2 == 0 then MaskAt(i + 1, k - 1, 0x8000_0000) else MaskAt(i + 1, k, mask / 2)
  {
    Pow2Values();
    if 0 < i < 32 {
      assert Pow2(32 - i) == 2 * Pow2(31 - i);
    } else if i > 32 {
      assert Pow2(64 - i) == 2 * Pow2(63 - i);
    }
  }

  /** c |= mask, for a bit that is clear along with everything below it. */
  function OrBit(w: u32, mask: u32, ghost j: nat, ghost h: nat): (r: u32)
    requires j < 32 && mask == Pow2(j) && w == h * (2 * mask)
    ensures r == w + mask
  {
    ClearBit(w, mask, j, h);
    if (w / mask) % 2 == 1 then w else w + mask
  }

  lemma ClearBit(w: u32, mask: u32, j: nat, h: nat)
    requires j < 32 && mask == Pow2(j) && w == h * (2 * mask)
    ensures (w / mask) % 2 == 0 && w + mask < 0x1_0000_0000
  {
    Pow2Add(31 - j, j);
    Pow2Values();
    BelowTop(w, mask, Pow2(31 - j), h);
  }

  lemma BelowTop(w: nat, mask: nat, n: nat, h: nat)
    requires mask > 0 && n * mask == 0x8000_0000 && w == h * (2 * mask) < 0x1_0000_0000
    ensures (w / mask) % 2 == 0 && w + mask < 0x1_0000_0000
  {
    MulAssoc(h, 2, mask);
    MulDivCancel(h * 2, mask);
    if h >= n {
      MulMono(n, h, 2 * mask);
    }
    MulMono(h + 1, n, 2 * mask);
    Distribute(h, 1, 2 * mask);
  }

  /** The quotient so far is a multiple of the unit above the mask, so the mask's word is a
      multiple of twice the mask. */
  lemma WordMultiple(lo: u32, hi: u32, i: nat, q: nat) returns (h: nat)
    requires i < 64 && Join(lo, hi) == q * Pow2(64 - i)
    ensures i < 32 ==> hi == h * (2 * Pow2(31 - i))
    ensures i >= 32 ==> lo == h * (2 * Pow2(63 - i))
  {
    Pow2Values();
    if i < 32 {
      h := q;
      Pow2Add(32 - i, 32);
      MulAssoc(q, Pow2(32 - i), Pow2(32));
      HighOnly(lo, hi, q * Pow2(32 - i));
    } else {
      Pow2Add(i - 32, 64 - i);
      h := LowMultiple(lo, hi, Pow2(i - 32), Pow2(64 - i), q);
    }
  }

  lemma LowMultiple(lo: u32, hi: u32, n: int, m: int, q: nat) returns (h: nat)
    requires m > 0 && n * m == 0x1_0000_0000 && Join(lo, hi) == q * m
    ensures lo == h * m
  {
    MulAssoc(hi, n, m);
    Distribute(q - hi * n, hi * n, m);
    if q - hi * n < 0 {
      MulMono(q - hi * n, -1, m);
    }
    h := q - hi * n;
  }

  lemma HighOnly(lo: u32, hi: u32, n: int)
    requires Join(lo, hi) == n * 0x1_0000_0000
    ensures hi == n
  {}

  /** Setting the mask's bit adds that bit's weight to the 64-bit quotient. */
  lemma WeightOf(i: nat, lo: u32, hi: u32, q: nat)
    requires i < 64 && Join(lo, hi) == q * Pow2(64 - i)
    ensures i < 32 ==> lo + 0x1_0000_0000 * (hi + Pow2(31 - i)) == (2 * q + 1) * Pow2(63 - i)
    ensures i >= 32 ==> (lo + Pow2(63 - i)) + 0x1_0000_0000 * hi == (2 * q + 1) * Pow2(63 - i)
  {
    hide Pow2;
    NoBit(i, q);
    Distribute(2 * q, 1, Pow2(63 - i));
    if i < 32 {
      Pow2Add(32, 31 - i);
      Pow2Values();
    }
  }

  lemma NoBit(i: nat, q: nat)
    requires i < 64
    ensures q * Pow2(64 - i) == (2 * q) * Pow2(63 - i)
  {
    MulAssoc(q, 2, Pow2(63 - i));
  }

  /** After i steps: the divisor shifted, and n = q * 2b + r with r below 2b. */
  ghost predicate RemainderAt(n: nat, d: nat, i: nat, q: nat, b: nat, r: nat) {
    i <= 64 && b == d * Pow2(64 - i) && n == q * (2 * b) + r && r < 2 * b
  }

  /** After i steps: the 64-bit quotient word pair holds q's bits at the top. */
  ghost predicate QuotientAt(i: nat, q: nat, lo: u32, hi: u32) {
    i <= 64 && Join(lo, hi) == q * Pow2(64 - i)
  }

  lemma RemainderStep(n: nat, d: nat, i: nat, q: nat, b: nat, r: nat)
    requires i < 64 && RemainderAt(n, d, i, q, b, r)
    ensures r >= b ==> RemainderAt(n, d, i + 1, 2 * q + 1, b / 2, r - b)
    ensures r < b ==> RemainderAt(n, d, i + 1, 2 * q, b / 2, r)
  {
    MulAssoc(d, 2, Pow2(63 - i));
    assert d * Pow2(64 - i) == 2 * (d * Pow2(63 - i));
    hide Pow2;
    HalfStep(n, q, d * Pow2(63 - i), r);
  }

  lemma HalfStep(n: nat, q: nat, h: nat, r: nat)
    requires n == q * (2 * (2 * h)) + r
    ensures n == (2 * q) * (2 * h) + r && n == (2 * q + 1) * (2 * h) + (r - 2 * h)
  {
    MulAssoc(q, 2, 2 * h);
    Distribute(2 * q, 1, 2 * h);
  }

  lemma QuotientStep(i: nat, q: nat, lo: u32, hi: u32)
    requires i < 64 && QuotientAt(i, q, lo, hi)
    ensures QuotientAt(i + 1, 2 * q, lo, hi)
  {
    NoBit(i, q);
  }

  lemma StartRemainder(n: nat, d: nat, b: nat)
    requires b == d * 0x1_0000_0000_0000_0000 && n < 2 * b
    ensures RemainderAt(n, d, 0, 0, b, n)
  {
    Pow2Values();
  }

  lemma StartQuotient()
    ensures MaskAt(0, 4, 0) && QuotientAt(0, 0, 0, 0)
  {}

  lemma Finish(n: nat, d: nat, q: nat, b: nat, r: nat, lo: u32, hi: u32)
    requires RemainderAt(n, d, 64, q, b, r) && QuotientAt(64, q, lo, hi)
    ensures n == Join(lo, hi) * (2 * d) + r && r < 2 * d
  {
    assert Pow2(0) == 1;
  }

  /** The step's bit goes into word k of the quotient. */
  method SetBit(c: array<u32>, k: nat, mask: u32, ghost i: nat, ghost q: nat)
    requires c.Length == 4 && i < 64 && MaskAt(i + 1, k, mask)
    requires QuotientAt(i, q, c[2], c[3])
    modifies c
    ensures c[0] == old(c[0]) && c[1] == old(c[1])
    ensures QuotientAt(i + 1, 2 * q + 1, c[2], c[3])
  {
    hide Pow2;
    WeightOf(i, c[2], c[3], q);
    ghost var h := WordMultiple(c[2], c[3], i, q);
    c[k] := OrBit(c[k], mask, if i < 32 then 31 - i else 63 - i, h);
  }

  /** One trial subtraction on a copy of a, kept when it succeeds. */
  method Subtract(a: array<u32>, b: array<u32>) returns (ok: bool)
    requires a.Length == 4 && b.Length == 4 && a != b
    modifies a
    ensures ok <==> old(Val4(a[..])) >= Val4(b[..])
    ensures Val4(a[..]) == if ok then old(Val4(a[..])) - Val4(b[..]) else old(Val4(a[..]))
  {
    hide Val4;
    var tmp := new u32[4];
    tmp[0], tmp[1], tmp[2], tmp[3] := a[0], a[1], a[2], a[3];
    assert tmp[..] == a[..];
    ok := TrySub(b, tmp);
    if ok {
      a[0], a[1], a[2], a[3] := tmp[0], tmp[1], tmp[2], tmp[3];
      assert a[..] == tmp[..];
    }
  }

  method Div64(a: array<u32>, b: array<u32>, c: array<u32>)
    requires a.Length == 4 && b.Length == 4 && c.Length == 4 && a != b && b != c && c != a
    requires b[0] == 0 && b[1] == 0 && Val4(a[..]) < 2 * Val4(b[..])
    requires c[2] == 0 && c[3] == 0
    modifies a, b, c
    ensures c[0] == old(c[0]) && c[1] == old(c[1])
    ensures old(Val4(a[..])) == Join(c[2], c[3]) * (2 * old(Join(b[2], b[3]))) + Val4(a[..])
    ensures Val4(a[..]) < 2 * old(Join(b[2], b[3]))
  {
    hide Val4, MaskAt, RemainderAt, QuotientAt, Pow2;
    ghost var n, d, q := Val4(a[..]), Join(b[2], b[3]), 0;
    Val4High(b[..]);
    StartRemainder(n, d, Val4(b[..]));
    StartQuotient();
    var mask: u32 := 0;
    var k := 4;
    for i := 0 to 64
      invariant c[0] == old(c[0]) && c[1] == old(c[1])
      invariant MaskAt(i, k, mask)
      invariant q >= 0 && RemainderAt(n, d, i, q, Val4(b[..]), Val4(a[..])) && QuotientAt(i, q, c[2], c[3])
    {
      MaskStep(i, k, mask);
      RemainderStep(n, d, i, q, Val4(b[..]), Val4(a[..]));
      QuotientStep(i, q, c[2], c[3]);
      mask := mask / 2;
      if mask == 0 {
        k := k - 1;
        mask := 0x8000_0000;
      }
      MaskWord(i + 1, k, mask);
      var ok := Subtract(a, b);
      if ok {
        SetBit(c, k, mask, i, q);
        q := 2 * q + 1;
      } else {
        q := 2 * q;
      }
      ShiftRight(b);
    }
    Finish(n, d, q, Val4(b[..]), Val4(a[..]), c[2], c[3]);
  }

  lemma MaskWord(i: nat, k: int, mask: u32)
    requires i > 0 && MaskAt(i, k, mask)
    ensures 0 <= k
  {}

  // ----- fdiv -----

  /** The exponent before the divisor is normalised. */
  function StartExp(s: Temp, t: Temp): int {
    s.Exp() - t.Exp() + 16383
  }

  /** The exponent before the final normalisation. */
  function QuotientExp(s: Temp, t: Temp): int
    requires t.mant > 0
  {
    StartExp(s, t) + Lead(t.mant)
  }

  /** The 64-bit quotient of the mantissas, with the divisor normalised. */
  function Bits(s: Temp, t: Temp): (q: u64)
    requires t.mant > 0
  {
    BitsFit(s.mant, Raised(t.mant));
    (s.mant * 0x8000_0000_0000_0000) / Raised(t.mant)
  }

  lemma BitsFit(m: u64, d: u64)
    requires d >= 0x8000_0000_0000_0000
    ensures 0 <= (m * 0x8000_0000_0000_0000) / d <= m
  {
    DivMod(m * 0x8000_0000_0000_0000, d);
    DivMono(0, m * 0x8000_0000_0000_0000, d);
    var q := (m * 0x8000_0000_0000_0000) / d;
    MulMono(0x8000_0000_0000_0000, d, q);
  }

  /** Exponent and mantissa after the final normalisation. */
  function Settled(s: Temp, t: Temp): (nat, u64)
    requires t.mant > 0 && StartExp(s, t) >= 0
  {
    if Bits(s, t) == 0 then (0, 0) else Denorm(QuotientExp(s, t), Bits(s, t))
  }

  /** What the routine stores and which flag it raises, path by path. */
  ghost predicate Stored(s: Temp, t: Temp, before: Temp, after: Temp, swd: bv16, swd': bv16) {
    if t.mant == 0 then
      after == before && swd' == swd | ZE
    else if StartExp(s, t) < 0 then
      after == Temp(Mul.SignOf(s, t), 0) && swd' == swd | UE
    else
      var (i, m) := Settled(s, t);
      if i > 0x7fff then
        after == before && swd' == swd | OE
      else
        && after == Temp(i + Mul.SignOf(s, t), m)
        && swd' == if 0 < m < 0x8000_0000_0000_0000 then swd | DE else swd
  }

  /** while (b[3] >= 0) { i++; shift_left(b); } */
  method NormaliseDivisor(b: array<u32>, i0: nat) returns (i: nat)
    requires b.Length == 4 && b[0] == 0 && b[1] == 0 && Join(b[2], b[3]) > 0
    modifies b
    ensures b[0] == 0 && b[1] == 0
    ensures Join(b[2], b[3]) == Raised(old(Join(b[2], b[3])))
    ensures i == i0 + Lead(old(Join(b[2], b[3])))
  {
    i := i0;
    while !Negative(b[3])
      invariant b[0] == 0 && b[1] == 0 && Join(b[2], b[3]) > 0
      invariant Raised(Join(b[2], b[3])) == Raised(old(Join(b[2], b[3])))
      invariant i + Lead(Join(b[2], b[3])) == i0 + Lead(old(Join(b[2], b[3])))
      decreases Lead(Join(b[2], b[3]))
    {
      ghost var m := Join(b[2], b[3]);
      i := i + 1;
      Val4High(b[..]);
      ShiftLeft(b);
      HalvesZero(b[..], m);
    }
  }

  lemma HalvesZero(b: seq<u32>, m: u64)
    requires |b| == 4 && m < 0x8000_0000_0000_0000 && Val4(b) == 2 * (m * 0x1_0000_0000_0000_0000)
    ensures b[0] == 0 && b[1] == 0 && Join(b[2], b[3]) == 2 * m
  {}

  lemma BitsUnique(m: u64, d: u64, q: nat, r: nat)
    requires d >= 0x8000_0000_0000_0000
    requires m * 0x1_0000_0000_0000_0000 == q * (2 * d) + r && r < 2 * d
    ensures q == (m * 0x8000_0000_0000_0000) / d
  {
    MulAssoc(q, 2, d);
    DivUnique(m * 0x8000_0000_0000_0000, d, q, r / 2);
  }

  /** The mantissa quotient, in the top words of tmp. */
  method DivideMantissas(src1: TempReal, src2: TempReal, i0: nat) returns (i: nat, tmp: array<u32>)
    requires i0 == StartExp(src1.Val(), src2.Val()) && src2.Val().mant > 0
    ensures fresh(tmp) && tmp.Length == 4 && tmp[0] == 0 && tmp[1] == 0
    ensures i == QuotientExp(src1.Val(), src2.Val()) && Join(tmp[2], tmp[3]) == Bits(src1.Val(), src2.Val())
  {
    hide Lead, Raised;
    var a, b := new u32[4](_ => 0), new u32[4](_ => 0);
    tmp := new u32[4](_ => 0);
    a[2], a[3] := src1.a, src1.b;
    b[2], b[3] := src2.a, src2.b;
    Val4High(a[..]);
    i := NormaliseDivisor(b, i0);
    Val4High(b[..]);
    ghost var d := Join(b[2], b[3]);
    Div64(a, b, tmp);
    BitsUnique(Join(src1.a, src1.b), d, Join(tmp[2], tmp[3]), Val4(a[..]));
  }

  /** Normalise the quotient and store it. */
  method StoreQuotient(fpu: I387, i0: nat, tmp: array<u32>, sign: u16, result: TempReal, ghost s: Temp, ghost t: Temp)
    requires tmp.Length == 4 && tmp[0] == 0 && tmp[1] == 0
    requires t.mant > 0 && StartExp(s, t) >= 0 && sign == Mul.SignOf(s, t)
    requires i0 == QuotientExp(s, t) && Join(tmp[2], tmp[3]) == Bits(s, t)
    modifies fpu`swd, result, tmp
    ensures Stored(s, t, old(result.Val()), result.Val(), old(fpu.swd), fpu.swd)
  {
    hide Scale, Denorm, Lead, Bits, Val4, Wide;
    var i := i0;
    Val4Zero(tmp[..]);
    Val4High(tmp[..]);
    if tmp[0] != 0 || tmp[1] != 0 || tmp[2] != 0 || tmp[3] != 0 {
      ScaleHigh(i, Join(tmp[2], tmp[3]));
      i := Quads.ScaleUp(i, tmp);
      WideParts(tmp[..], Settled(s, t).1);
      if !Negative(tmp[3]) {
        DenormPositive(i0, Bits(s, t));
        fpu.SetFlags(DE);
      }
    } else {
      i := 0;
    }
    if i > 0x7fff {
      if Settled(s, t).1 != 0 {
        DenormPositive(i0, Bits(s, t));
      }
      fpu.SetFlags(OE);
      return;
    }
    if tmp[0] != 0 || tmp[1] != 0 {
      // set_PE() stands here, and is never reached: the low words are always zero.
      assert false;
    }
    result.exponent := i + sign;
    result.a := tmp[2];
    result.b := tmp[3];
  }

  lemma WideParts(c: seq<u32>, m: u64)
    requires |c| == 4 && Val4(c) == Wide(0, m)
    ensures c[0] == 0 && c[1] == 0 && Join(c[2], c[3]) == m
  {}

  /** For operands s and t whose quotient is cut at 2^(i-16446): a quotient below that unit is a
      signed zero, one of 2^16385 or more is refused with OE, and any other is truncated towards
      zero, not normalised only if it is too small for that, and then with DE. All is said of the
      operands' magnitudes, scaled, so that s / t stands as n / d. */
  ghost predicate Quotient(s: Temp, t: Temp, i: nat, before: Temp, after: Temp, swd: bv16, swd': bv16) {
    var n, d := (s.mant * Pow2(s.Exp())) * Pow2(16446), t.mant * Pow2(t.Exp());
    var r := after.mant * Pow2(after.Exp());
    if n < Pow2(i) * d then
      after.mant == 0 && after.Exp() == 0 && after.Neg() == (s.Neg() != t.Neg()) && swd' == swd
    else if i > 32831 || n >= Pow2(32831) * d then
      after == before && swd' == swd | OE
    else
      && after.Neg() == (s.Neg() != t.Neg())
      && r * d <= n < (r + Pow2(i)) * d
      && if n < Pow2(63) * d then after.Exp() == 0 && swd' == swd | DE else after.Normal() && swd' == swd
  }

  /** fdiv once it is known that there is something to divide by and no underflow. */
  method DivideInRange(fpu: I387, src1: TempReal, src2: TempReal, i0: nat, sign: u16, result: TempReal)
    requires src2.Val().mant > 0 && i0 == StartExp(src1.Val(), src2.Val())
    requires sign == Mul.SignOf(src1.Val(), src2.Val())
    modifies fpu`swd, result
    ensures forall k: nat :: 0x8000_0000_0000_0000 <= old(src2.Val()).mant * Pow2(k) < 0x1_0000_0000_0000_0000 ==>
              Quotient(old(src1.Val()), old(src2.Val()), i0 + k, old(result.Val()), result.Val(), old(fpu.swd), fpu.swd)
  {
    hide Settled, Lead, Bits, Stored, Quotient, Pow2, Join;
    ghost var s, t, before, swd := src1.Val(), src2.Val(), result.Val(), fpu.swd;
    var i, tmp := DivideMantissas(src1, src2, i0);
    StoreQuotient(fpu, i, tmp, sign, result, s, t);
    FromOperands(s, t, before, result.Val(), swd, fpu.swd);
  }

  /** fdiv(src1, src2, result); result may be one of the operands. The unit at which the quotient is
      cut has the exponent of the operands' difference, the divisor taken as normalised. */
  method Fdiv(fpu: I387, src1: TempReal, src2: TempReal, result: TempReal)
    modifies fpu`swd, result
    ensures var s, t, r := old(src1.Val()), old(src2.Val()), result.Val();
            && (t.mant == 0 ==> r == old(result.Val()) && fpu.swd == old(fpu.swd) | ZE)
            && (t.mant > 0 && s.Exp() + 16383 < t.Exp() ==>
                  r.mant == 0 && r.Exp() == 0 && r.Neg() == (s.Neg() != t.Neg()) && fpu.swd == old(fpu.swd) | UE)
            && (t.mant > 0 && s.Exp() + 16383 >= t.Exp() ==>
                  forall k: nat :: 0x8000_0000_0000_0000 <= t.mant * Pow2(k) < 0x1_0000_0000_0000_0000 ==>
                    Quotient(s, t, s.Exp() + 16383 - t.Exp() + k, old(result.Val()), r, old(fpu.swd), fpu.swd))
  {
    hide Quotient, Pow2, Join;
    Mul.NoBits(src2.a, src2.b);
    Mul.NoBits(0, 0);
    var sign := if (src1.exponent >= 0x8000) != (src2.exponent >= 0x8000) then 0x8000 else 0;
    if !(src2.a != 0 || src2.b != 0) {
      fpu.SetFlags(ZE);
      return;
    }
    var i := Magnitude(src1.exponent) - Magnitude(src2.exponent) + 16383;
    if i < 0 {
      fpu.SetFlags(UE);
      result.exponent := sign;
      result.a, result.b := 0, 0;
      return;
    }
    DivideInRange(fpu, src1, src2, i, sign, result);
  }

  // ----- What that means -----

  /** The mantissa quotient bounds the quotient of the operands, to one unit. */
  lemma BitsBound(s: Temp, t: Temp)
    requires t.mant > 0 && StartExp(s, t) >= 0
    ensures var q := Bits(s, t) * Pow2(QuotientExp(s, t));
            && q * (t.mant * Pow2(t.Exp())) <= (s.mant * Pow2(s.Exp())) * Pow2(16446)
            && (s.mant * Pow2(s.Exp())) * Pow2(16446) < (q + Pow2(QuotientExp(s, t))) * (t.mant * Pow2(t.Exp()))
  {
    hide Pow2, Lead, Raised;
    var i, q, n := QuotientExp(s, t), Bits(s, t), Lead(t.mant);
    RaisedIs(t.mant);
    DivMod(s.mant * 0x8000_0000_0000_0000, Raised(t.mant));
    Distribute(q, 1, Raised(t.mant));
    CrossMultiply(q, t.mant, i, t.Exp(), n, s.Exp() + 16383);
    CrossMultiply(q + 1, t.mant, i, t.Exp(), n, s.Exp() + 16383);
    Distribute(q, 1, Pow2(i));
    Dividend(s.mant, s.Exp());
    var x := Pow2(s.Exp() + 16383);
    MulMono(q * Raised(t.mant), s.mant * 0x8000_0000_0000_0000, x);
    MulLess(s.mant * 0x8000_0000_0000_0000, (q + 1) * Raised(t.mant), x);
  }

  /** Off the exception paths fdiv returns exactly the quotient, truncated to a multiple of
      2^(i-16446) where i is the exponent before the final normalisation. Cross-multiplied:
      r * t <= s < (r + 2^i) * t, all scaled. */
  lemma QuotientTruncates(s: Temp, t: Temp)
    requires t.mant > 0 && StartExp(s, t) >= 0 && Settled(s, t).0 <= 0x7fff
    ensures var (k, m) := Settled(s, t);
            var i := QuotientExp(s, t);
            && m * Pow2(k) == Bits(s, t) * Pow2(i)
            && (m * Pow2(k)) * (t.mant * Pow2(t.Exp())) <= (s.mant * Pow2(s.Exp())) * Pow2(16446)
            && (s.mant * Pow2(s.Exp())) * Pow2(16446) < (m * Pow2(k) + Pow2(i)) * (t.mant * Pow2(t.Exp()))
  {
    hide Pow2, Lead, Denorm, Bits;
    DenormExact(QuotientExp(s, t), Bits(s, t));
    BitsBound(s, t);
  }

  lemma LeadUnique(m: u64, k: nat)
    requires m > 0 && 0x8000_0000_0000_0000 <= m * Pow2(k) < 0x1_0000_0000_0000_0000
    ensures k == Lead(m)
  {
    hide Pow2, Lead, Raised;
    RaisedIs(m);
    if k < Lead(m) {
      TwiceAsLarge(m, k, Lead(m));
    } else if k > Lead(m) {
      TwiceAsLarge(m, Lead(m), k);
    }
  }

  lemma TwiceAsLarge(m: nat, j: nat, k: nat)
    requires j < k
    ensures 2 * (m * Pow2(j)) <= m * Pow2(k)
  {
    Pow2Mono(j + 1, k);
    MulMono(2 * Pow2(j), Pow2(k), m);
    MulAssoc(m, Pow2(j), 2);
  }

  /** A multiple of 2^i is below 2^e, or at least 2^e, together with everything up to the next. */
  lemma Threshold(q: nat, i: nat, e: nat, n: nat, d: nat)
    requires i <= e && q * Pow2(i) * d <= n < (q * Pow2(i) + Pow2(i)) * d
    ensures q * Pow2(i) < Pow2(e) <==> n < Pow2(e) * d
  {
    hide Pow2;
    Pow2Add(i, e - i);
    var u, w := Pow2(i), Pow2(e - i);
    if q < w {
      MulMono(q + 1, w, u);
      Distribute(q, 1, u);
      MulMono(q * u + u, u * w, d);
    } else {
      MulMono(w, q, u);
      MulMono(u * w, q * u, d);
    }
  }

  lemma MulLess(a: int, b: int, c: int)
    requires a < b && c > 0
    ensures a * c < b * c
  {}

  lemma CrossMultiply(q: nat, m: nat, i: nat, e: nat, n: nat, x: nat)
    requires i + e == x + n
    ensures (q * Pow2(i)) * (m * Pow2(e)) == (q * (m * Pow2(n))) * Pow2(x)
  {
    hide Pow2;
    Mul.ScaledProduct(q, m, i, e);
    Pow2Add(n, x);
    MulAssoc(q, m, Pow2(n));
    MulAssoc(q * m, Pow2(n), Pow2(x));
  }

  lemma Dividend(m: nat, e: nat)
    ensures (m * Pow2(e)) * Pow2(16446) == (m * 0x8000_0000_0000_0000) * Pow2(e + 16383)
  {
    hide Pow2;
    ShiftValue(m, e, 16446);
    Pow2Values();
    ShiftValue(m, 63, e + 16383);
  }

  /** What is stored, told from the operands. */
  lemma FromOperands(s: Temp, t: Temp, before: Temp, after: Temp, swd: bv16, swd': bv16)
    requires t.mant > 0 && StartExp(s, t) >= 0 && Stored(s, t, before, after, swd, swd')
    ensures forall k: nat :: 0x8000_0000_0000_0000 <= t.mant * Pow2(k) < 0x1_0000_0000_0000_0000 ==>
              Quotient(s, t, StartExp(s, t) + k, before, after, swd, swd')
  {
    hide Quotient, Stored, Pow2;
    StoredIsQuotient(s, t, before, after, swd, swd');
    forall k: nat | 0x8000_0000_0000_0000 <= t.mant * Pow2(k) < 0x1_0000_0000_0000_0000
      ensures k == Lead(t.mant)
    {
      LeadUnique(t.mant, k);
    }
  }

  /** m * 2^k with its top bit set, or with k = 0. */
  lemma SettledSize(k: nat, m: u64)
    requires k == 0 || m >= 0x8000_0000_0000_0000
    ensures k > 0x7fff <==> m * Pow2(k) >= Pow2(32831)
    ensures m < 0x8000_0000_0000_0000 <==> m * Pow2(k) < Pow2(63)
  {
    hide Pow2;
    Pow2Values();
    Pow2Add(63, k);
    Pow2Add(64, k);
    if m >= 0x8000_0000_0000_0000 {
      MulMono(Pow2(63), m, Pow2(k));
      Pow2Mono(63, 63 + k);
    }
    MulLess(m, Pow2(64), Pow2(k));
    if k > 0x7fff {
      Pow2Mono(32831, 63 + k);
    } else {
      Pow2Mono(64 + k, 32831);
    }
  }

  /** Whether the quotient n / d reaches 2^e is told by its truncation q * 2^i. */
  lemma Reaches(q: nat, i: nat, e: nat, n: nat, d: nat)
    requires q > 0 && d > 0 && q * Pow2(i) * d <= n < (q * Pow2(i) + Pow2(i)) * d
    ensures q * Pow2(i) >= Pow2(e) <==> i > e || n >= Pow2(e) * d
    ensures n >= Pow2(i) * d
  {
    hide Pow2;
    MulMono(1, q, Pow2(i));
    MulMono(Pow2(i), q * Pow2(i), d);
    if i <= e {
      Threshold(q, i, e, n, d);
    } else {
      Pow2Mono(e, i);
      MulMono(Pow2(e), Pow2(i), d);
    }
  }

  /** The bounds of the quotient n / d where its truncation v is not zero. */
  lemma SettledBounds(s: Temp, t: Temp)
    requires t.mant > 0 && StartExp(s, t) >= 0 && Bits(s, t) > 0
    ensures var n, d := (s.mant * Pow2(s.Exp())) * Pow2(16446), t.mant * Pow2(t.Exp());
            var i, (k, m) := QuotientExp(s, t), Settled(s, t);
            && n >= Pow2(i) * d
            && (k > 0x7fff <==> i > 32831 || n >= Pow2(32831) * d)
            && (k <= 0x7fff ==> (m < 0x8000_0000_0000_0000 <==> n < Pow2(63) * d))
            && m > 0 && (k == 0 || m >= 0x8000_0000_0000_0000)
            && m * Pow2(k) == Bits(s, t) * Pow2(i)
  {
    hide Pow2, Lead, Denorm, Bits;
    var i, q := QuotientExp(s, t), Bits(s, t);
    var n, d := (s.mant * Pow2(s.Exp())) * Pow2(16446), t.mant * Pow2(t.Exp());
    BitsBound(s, t);
    MulMono(1, t.mant, Pow2(t.Exp()));
    var (k, m) := Denorm(i, q);
    DenormExact(i, q);
    DenormPositive(i, q);
    SettledSize(k, m);
    Reaches(q, i, 32831, n, d);
    Reaches(q, i, 63, n, d);
    if i > 63 {
      Pow2Mono(63, i);
      MulMono(Pow2(63), Pow2(i), d);
    }
  }

  lemma StoredIsQuotient(s: Temp, t: Temp, before: Temp, after: Temp, swd: bv16, swd': bv16)
    requires t.mant > 0 && StartExp(s, t) >= 0 && Stored(s, t, before, after, swd, swd')
    ensures Quotient(s, t, QuotientExp(s, t), before, after, swd, swd')
  {
    hide Pow2, Lead, Denorm, Bits;
    BitsBound(s, t);
    if Bits(s, t) == 0 {
      assert Settled(s, t) == (0, 0);
    } else {
      SettledBounds(s, t);
      hide Settled;
      var (k, m) := Settled(s, t);
      assert after.Exp() == k || k > 0x7fff;
    }
  }
}
