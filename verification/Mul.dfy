/** Multiplication of temporary reals (kernel/math/mul.c). */
module Mul {
  import opened Words
  import opened TempReals
  import opened Quads
  import opened Fpu

  /** mull: the two words of a 64-bit product. */
  function MulWords(x: u32, y: u32): (r: (u32, u32))
    ensures Join(r.0, r.1) == x * y
  {
    MulMono(0, x, y);
    MulMono(x, 0xffff_ffff, y);
    var p: u64 := x * y;
    (Low(p), High(p))
  }

  /** addl lo,4(c) ; adcl hi,8(c) ; adcl $0,12(c): with room in the top word, nothing is lost. */
  method AddMiddle(c: array<u32>, lo: u32, hi: u32)
    requires c.Length == 4
    requires Val4(c[..]) + 0x1_0000_0000 * Join(lo, hi) < 0x1_0000_0000_0000_0000_0000_0000_0000_0000
    modifies c
    ensures Val4(c[..]) == old(Val4(c[..])) + 0x1_0000_0000 * Join(lo, hi)
  {
    var (s1, k1) := AddCarry(c[1], lo, 0);
    c[1] := s1;
    var (s2, k2) := AddCarry(c[2], hi, k1);
    c[2] := s2;
    var (s3, k3) := AddCarry(c[3], 0, k2);
    c[3] := s3;
  }

  lemma CrossProducts(a0: u32, a1: u32, b0: u32, b1: u32)
    ensures Join(a0, a1) * Join(b0, b1)
         == a0 * b0 + 0x1_0000_0000 * (a0 * b1) + 0x1_0000_0000 * (a1 * b0) + 0x1_0000_0000_0000_0000 * (a1 * b1)
    ensures 0 <= a0 * b1 && 0 <= a1 * b0
    ensures Join(a0, a1) * Join(b0, b1) < 0x1_0000_0000_0000_0000_0000_0000_0000_0000
  {
    MulMono(0, a0, b1);
    MulMono(0, a1, b0);
    ProductBound(Join(a0, a1), Join(b0, b1));
    Distribute(a0, 0x1_0000_0000 * a1, Join(b0, b1));
    MulAssoc(0x1_0000_0000, a1, Join(b0, b1));
    assert a0 * Join(b0, b1) == a0 * b0 + 0x1_0000_0000 * (a0 * b1);
    assert a1 * Join(b0, b1) == a1 * b0 + 0x1_0000_0000 * (a1 * b1);
  }

  lemma ProductBound(x: u64, y: u64)
    ensures 0 <= x * y < 0x1_0000_0000_0000_0000_0000_0000_0000_0000
  {
    MulMono(0, x, y);
    MulMono(x, 0xffff_ffff_ffff_ffff, y);
  }

  /** mul64: the exact 128-bit product, every carry kept. */
  method Mul64(a: TempReal, b: TempReal, c: array<u32>)
    requires c.Length == 4
    modifies c
    ensures Val4(c[..]) == a.Val().mant * b.Val().mant
  {
    CrossProducts(a.a, a.b, b.a, b.b);
    var (l0, h0) := MulWords(a.a, b.a);
    c[0], c[1] := l0, h0;
    var (l3, h3) := MulWords(a.b, b.b);
    c[2], c[3] := l3, h3;
    var (l1, h1) := MulWords(a.a, b.b);
    AddMiddle(c, l1, h1);
    var (l2, h2) := MulWords(a.b, b.a);
    AddMiddle(c, l2, h2);
  }

  // ----- fmul -----

  function SignOf(s: Temp, t: Temp): (sign: u16)
    ensures sign == 0 || sign == 0x8000
  {
    if s.Neg() != t.Neg() then 0x8000 else 0
  }

  /** The exponent before normalising. */
  function StartExp(s: Temp, t: Temp): int {
    s.Exp() + t.Exp() - 16383 + 1
  }

  /** The result in range: the product, scaled, cut to its top 64 bits. */
  function Product(s: Temp, t: Temp): Temp
    requires 0 <= StartExp(s, t) <= 0x7fff
  {
    ProductBound(s.mant, t.mant);
    var p := s.mant * t.mant;
    if p == 0 then
      Temp(SignOf(s, t), 0)
    else
      var (i, q) := Scale(StartExp(s, t), p);
      Temp(i + SignOf(s, t), TopHalf(q))
  }

  /** fmul once the exponent is known to be in range. */
  method MulInRange(src1: TempReal, src2: TempReal, i0: nat, sign: u16, result: TempReal)
    requires i0 == StartExp(src1.Val(), src2.Val()) <= 0x7fff && sign == SignOf(src1.Val(), src2.Val())
    modifies result
    ensures result.Val() == Product(old(src1.Val()), old(src2.Val()))
  {
    hide Scale, TopHalf, Wide;
    var i := i0;
    var tmp := new u32[4](_ => 0);
    Mul64(src1, src2, tmp);
    Val4Zero(tmp[..]);
    if tmp[0] != 0 || tmp[1] != 0 || tmp[2] != 0 || tmp[3] != 0 {
      i := Quads.ScaleUp(i, tmp);
    } else {
      i := 0;
    }
    TopHalfIs(tmp[..]);
    result.exponent := i + sign;
    result.a := tmp[2];
    result.b := tmp[3];
  }

  /** r is s times t with its sign, truncated towards zero in its last place, and normalised or
      without exponent; a zero factor gives a signed zero. */
  ghost predicate IsProduct(s: Temp, t: Temp, r: Temp) {
    var exact := (s.mant * Pow2(s.Exp())) * (t.mant * Pow2(t.Exp()));
    && r.Neg() == (s.Neg() != t.Neg())
    && (r.mant * Pow2(r.Exp())) * Pow2(16446) <= exact
    && exact < (r.mant * Pow2(r.Exp()) + Pow2(r.Exp())) * Pow2(16446)
    && (r.Normal() || r.Exp() == 0)
    && (s.mant == 0 || t.mant == 0 ==> r.mant == 0 && r.Exp() == 0)
  }

  /** fmul(src1, src2, result); result may be one of the operands. */
  method Fmul(fpu: I387, src1: TempReal, src2: TempReal, result: TempReal)
    modifies fpu`swd, result
    ensures var s, t, r := old(src1.Val()), old(src2.Val()), result.Val();
            var e := s.Exp() + t.Exp();
            && (e < 16382 ==> r.mant == 0 && r.Exp() == 0 && r.Neg() == (s.Neg() != t.Neg()))
            && (16382 <= e <= 49149 ==> IsProduct(s, t, r))
            && (e > 49149 ==> r == old(result.Val()))
            && fpu.swd == if e > 49149 then old(fpu.swd) | OE else old(fpu.swd)
  {
    hide Product, IsProduct, Join;
    NoBits(0, 0);
    ghost var s, t := src1.Val(), src2.Val();
    var sign := if (src1.exponent >= 0x8000) != (src2.exponent >= 0x8000) then 0x8000 else 0;
    var i := Magnitude(src1.exponent) + Magnitude(src2.exponent) - 16383 + 1;
    if i < 0 {
      result.exponent := sign;
      result.a, result.b := 0, 0;
      return;
    }
    if i > 0x7fff {
      fpu.SetFlags(OE);
      return;
    }
    MulInRange(src1, src2, i, sign, result);
    ProductIs(s, t);
  }

  lemma NoBits(a: u32, b: u32)
    ensures Join(a, b) == 0 <==> a == 0 && b == 0
  {}

  // ----- What that means -----

  /** In range, fmul returns the exact product truncated towards zero to a multiple of the
      result's last place. Scaled() of an operand or result carries a factor 2^16446, so the
      product of two operands carries it twice. */
  lemma ProductTruncates(s: Temp, t: Temp)
    requires 0 <= StartExp(s, t) <= 0x7fff
    ensures var r := Product(s, t);
            var exact := (s.mant * Pow2(s.Exp())) * (t.mant * Pow2(t.Exp()));
            && r.Neg() == (s.Neg() != t.Neg())
            && (r.mant * Pow2(r.Exp())) * Pow2(16446) <= exact
            && exact < (r.mant * Pow2(r.Exp()) + Pow2(r.Exp())) * Pow2(16446)
  {
    hide Pow2, Shr, Scale;
    var p, i := s.mant * t.mant, StartExp(s, t);
    ProductBound(s.mant, t.mant);
    ScaledProduct(s.mant, t.mant, s.Exp(), t.Exp());
    if p == 0 {
      ZeroTimes(s, t);
    } else {
      var (k, q) := Scale(i, p);
      ScaleExact(i, p);
      TopHalfShift(q);
      TruncateUnit(q, k, 64);
      Pow2Add(k, 64);
      Widen(Shr(q, 64), Pow2(k), Pow2(64), p * Pow2(i), 16382);
      Pow2Add(i, 16382);
      MulAssoc(p, Pow2(i), Pow2(16382));
    }
  }

  lemma TopHalfShift(q: u128)
    ensures TopHalf(q) == Shr(q, 64)
  {
    ShrIsDiv(q, 64);
    Pow2Values();
  }

  lemma ScaledProduct(m: nat, n: nat, d: nat, e: nat)
    ensures (m * Pow2(d)) * (n * Pow2(e)) == (m * n) * Pow2(d + e)
  {
    Pow2Add(d, e);
    Regroup(m, Pow2(d), n, Pow2(e));
  }

  lemma Regroup(m: int, x: int, n: int, y: int)
    ensures (m * x) * (n * y) == (m * n) * (x * y)
  {
    MulAssoc(m * x, n, y);
    MulAssoc(m, x, n);
    MulAssoc(m, n, x);
    MulAssoc(m * n, x, y);
  }

  lemma ZeroTimes(s: Temp, t: Temp)
    requires s.mant * t.mant == 0
    ensures (s.mant * Pow2(s.Exp())) * (t.mant * Pow2(t.Exp())) == 0
    ensures (0 * Pow2(0) + Pow2(0)) * Pow2(16446) > 0
  {
    hide Pow2;
    ScaledProduct(s.mant, t.mant, s.Exp(), t.Exp());
    MulMono(1, Pow2(0), Pow2(16446));
  }

  /** Bounds at a 2^64 finer scale, carried to the common scale. */
  lemma Widen(m: nat, u: nat, w: nat, v: nat, f: nat)
    requires w == Pow2(64)
    requires m * (u * w) <= v < m * (u * w) + u * w
    ensures (m * u) * Pow2(64 + f) <= v * Pow2(f)
    ensures v * Pow2(f) < (m * u + u) * Pow2(64 + f)
  {
    hide Pow2;
    Pow2Add(64, f);
    MulAssoc(m, u, w);
    MulAssoc(m * u, w, Pow2(f));
    MulAssoc(m * u + u, w, Pow2(f));
    Distribute(m * u, u, w);
    MulMono((m * u) * w, v, Pow2(f));
    MulMono(v + 1, (m * u + u) * w, Pow2(f));
    Distribute(v, 1, Pow2(f));
  }

  /** For normalised operands the result is normalised unless the exponent ran out at zero. */
  lemma ProductNormal(s: Temp, t: Temp)
    requires 0 <= StartExp(s, t) <= 0x7fff && s.mant > 0 && t.mant > 0
    ensures Product(s, t).Normal() || Product(s, t).Exp() == 0
  {
    ProductBound(s.mant, t.mant);
    MulMono(1, s.mant, t.mant);
    ScaleTop(StartExp(s, t), s.mant * t.mant);
  }

  lemma ProductIs(s: Temp, t: Temp)
    requires 0 <= StartExp(s, t) <= 0x7fff
    ensures IsProduct(s, t, Product(s, t))
  {
    hide Pow2, Scale;
    ProductTruncates(s, t);
    if s.mant > 0 && t.mant > 0 {
      ProductNormal(s, t);
    }
  }
}
