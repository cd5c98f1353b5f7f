/** Addition of temporary reals (kernel/math/add.c). */
module Add {
  import opened Words
  import opened TempReals

  // ----- What the routines compute, on values -----

  /** Room for the carry and the sign: exponent up by two, mantissa in two's complement. */
  function Signified(t: Temp): Temp {
    var e, m := Wrap16(t.expo + 2), Shr(t.mant, 2);
    Temp(Magnitude(e), Wrap64(if e >= 0x8000 then 0 - m else m))
  }

  function Unsignified(t: Temp): Temp {
    if t.mant == 0 then
      Temp(0, 0)
    else
      var neg := t.mant >= 0x8000_0000_0000_0000;
      var m: u64 := if neg then 0x1_0000_0000_0000_0000 - t.mant else t.mant;
      LeadBound(m);
      Temp(Wrap16(t.Exp() + (if neg then 0x8000 else 0) - Lead(m)), Raised(m))
  }

  function Shifted(t: Temp, d: nat): Temp {
    Temp(t.expo, Shr(t.mant, d))
  }

  function Sum(s: Temp, t: Temp): Temp {
    if s.Exp() > t.Exp() then SumOrdered(s, t) else SumOrdered(t, s)
  }

  /** The sum when a is the operand with the larger exponent. */
  function SumOrdered(a: Temp, b: Temp): Temp
    requires b.Exp() <= a.Exp()
  {
    var d := a.Exp() - b.Exp();
    if d >= 64 then
      a
    else
      var x, y := Signified(a), Signified(Shifted(b, d));
      Unsignified(Temp(x.expo, Wrap64(x.mant + y.mant)))
  }

  // ----- The routines -----

  method Signify(a: TempReal)
    modifies a
    ensures a.Val() == Signified(old(a.Val()))
  {
    a.exponent := Wrap16(a.exponent + 2);
    a.a, a.b := Shr64(a.a, a.b, 2);
    if a.exponent >= 0x8000 {
      a.a, a.b := Neg64(a.a, a.b);
    }
    a.exponent := Magnitude(a.exponent);
  }

  method Unsignify(a: TempReal)
    modifies a
    ensures a.Val() == Unsignified(old(a.Val()))
  {
    if !(a.a != 0 || a.b != 0) {
      a.exponent := 0;
      return;
    }
    a.exponent := Magnitude(a.exponent);
    if Negative(a.b) {
      a.a, a.b := Neg64(a.a, a.b);
      a.exponent := a.exponent + 0x8000;
    }
    RaiseMantissa(a);
  }

  /** The right shift by 0..63 that lines up the smaller operand: a word move, then shrdl / shrl. */
  method Align(b: TempReal, shift: nat)
    requires shift < 64
    modifies b
    ensures b.Val() == Shifted(old(b.Val()), shift)
  {
    var k := shift;
    if k >= 32 {
      JoinShift(b.a, b.b, k - 32);
      b.a := b.b;
      b.b := 0;
      k := k - 32;
    }
    b.a, b.b := Shr64(b.a, b.b, k);
  }

  /** fadd(src1, src2, result); result may be one of the operands. */
  method Fadd(src1: TempReal, src2: TempReal, result: TempReal)
    modifies result
    ensures result.Val() == Sum(old(src1.Val()), old(src2.Val()))
    ensures var s, t := old(src1.Val()), old(src2.Val());
            Addable(s, t) ==>
              CloseTo(result.Val().Scaled(), s.Scaled() + t.Scaled(), Unit(s, t), s.Neg() != t.Neg())
  {
    hide Unsignified, Signified, Wrap64, Join, Addable, CloseTo, Unit, Temp.Scaled;
    if Addable(src1.Val(), src2.Val()) {
      SumError(src1.Val(), src2.Val());
    }
    ghost var s, t := src1.Val(), src2.Val();
    var a := new TempReal(src1.a, src1.b, src1.exponent);
    var b := new TempReal(src2.a, src2.b, src2.exponent);
    var x1 := Magnitude(src1.exponent);
    var x2 := Magnitude(src2.exponent);
    var shift;
    if x1 > x2 {
      shift := x1 - x2;
    } else {
      a, b := b, a;
      shift := x2 - x1;
    }
    assert Sum(s, t) == SumOrdered(a.Val(), b.Val());
    if shift >= 64 {
      result.Assign(a);
      return;
    }
    Align(b, shift);
    Signify(a);
    Signify(b);
    a.a, a.b := Add64(a.a, a.b, b.a, b.b);
    Unsignify(a);
    result.Assign(a);
  }

  // ----- What that means -----

  lemma Commutes(s: Temp, t: Temp)
    ensures Sum(s, t) == Sum(t, s)
  {
    hide Unsignified;
    if s.Exp() == t.Exp() {
      assert Shifted(s, 0) == s && Shifted(t, 0) == t;
      assert Signified(s).expo == Signified(t).expo;
    }
  }

  /** An operand 64 or more exponents below the other is not noticed. */
  lemma Absorbs(s: Temp, t: Temp)
    requires s.Exp() >= t.Exp() + 64
    ensures Sum(s, t) == s && Sum(t, s) == s
  {
    hide Unsignified, Signified;
  }

  /** The larger exponent is far enough from both ends of its range, or both operands are zero; the
      mantissas may be any. */
  ghost predicate Addable(s: Temp, t: Temp) {
    (s.Zero() && t.Zero()) || 61 <= Top(s, t) <= 0x7ffd
  }

  /** Operands as the emulator produces them: normalised or zero. */
  ghost predicate Summable(s: Temp, t: Temp) {
    (s.Normal() || s.Zero()) && (t.Normal() || t.Zero()) && Addable(s, t)
  }

  lemma Milder(s: Temp, t: Temp)
    requires Summable(s, t)
    ensures Addable(s, t)
  {}

  ghost function Top(s: Temp, t: Temp): nat {
    if s.Exp() > t.Exp() then s.Exp() else t.Exp()
  }

  /** The unit of the larger operand after its mantissa has been shifted right by two. */
  ghost function Unit(s: Temp, t: Temp): int {
    Pow2(Top(s, t) + 2)
  }

  /** A mantissa shifted right j places, with its sign. */
  ghost function Part(t: Temp, j: nat): int {
    if t.Neg() then 0 - Shr(t.mant, j) else Shr(t.mant, j)
  }

  /** The sum fadd forms, as a mathematical integer counting units. */
  ghost function Total(a: Temp, b: Temp): int
    requires b.Exp() <= a.Exp()
  {
    Part(a, 2) + Part(b, a.Exp() - b.Exp() + 2)
  }

  lemma PartBound(t: Temp, j: nat)
    requires j >= 2
    ensures -0x4000_0000_0000_0000 < Part(t, j) < 0x4000_0000_0000_0000
  {
    ShrAdd(t.mant, 2, j - 2);
    assert Shr(t.mant, 2) == Shr(t.mant / 2, 1) == t.mant / 2 / 2;
  }

  lemma SignifiedIs(t: Temp)
    requires t.Exp() <= 0x7ffd
    ensures -0x4000_0000_0000_0000 < Part(t, 2) < 0x4000_0000_0000_0000
    ensures Signified(t) == Temp(t.Exp() + 2, Wrap64(Part(t, 2)))
  {
    PartBound(t, 2);
  }

  lemma WrapSum(p: int, q: int)
    requires -0x4000_0000_0000_0000 < p < 0x4000_0000_0000_0000
    requires -0x4000_0000_0000_0000 < q < 0x4000_0000_0000_0000
    ensures -0x8000_0000_0000_0000 < p + q < 0x8000_0000_0000_0000
    ensures Wrap64(Wrap64(p) + Wrap64(q)) == Wrap64(p + q)
  {}

  /** The signed 64-bit sum never overflows: it is the two's complement of Total. */
  lemma TotalFits(a: Temp, b: Temp)
    requires b.Exp() <= a.Exp() <= 0x7ffd && a.Exp() - b.Exp() < 64
    ensures -0x8000_0000_0000_0000 < Total(a, b) < 0x8000_0000_0000_0000
    ensures SumOrdered(a, b) == Unsignified(Temp(a.Exp() + 2, Wrap64(Total(a, b))))
  {
    hide Unsignified, Signified, Wrap64;
    var d := a.Exp() - b.Exp();
    SignifiedIs(a);
    SignifiedIs(Shifted(b, d));
    ShrAdd(b.mant, d, 2);
    WrapSum(Part(a, 2), Part(b, d + 2));
  }

  /** Normalising returns exactly the number the two's complement mantissa stood for. */
  lemma UnsignifiedExact(e: nat, n: int)
    requires 63 <= e <= 0x7fff || (n == 0 && e < 0x8000)
    requires -0x8000_0000_0000_0000 < n < 0x8000_0000_0000_0000
    ensures var r := Unsignified(Temp(e, Wrap64(n)));
            && r.Scaled() == n * Pow2(e)
            && (n > 0 ==> r.Normal() && !r.Neg()) && (n < 0 ==> r.Normal() && r.Neg()) && (n == 0 ==> r == Temp(0, 0))
  {
    hide Pow2, Lead, Raised;
    if n != 0 {
      var m: u64 := if n < 0 then -n else n;
      LeadBound(m);
      RaisedIs(m);
      ShiftValue(m, Lead(m), e - Lead(m));
      NegateProduct(m, Pow2(e));
    }
  }

  lemma NegateProduct(m: int, u: int)
    ensures (-m) * u == -(m * u)
  {}

  /** Off the early return, fadd delivers the truncated total exactly, and normalised. */
  lemma SumIsTotal(a: Temp, b: Temp)
    requires Addable(a, b) && b.Exp() <= a.Exp() && a.Exp() - b.Exp() < 64
    ensures SumOrdered(a, b).Scaled() == Total(a, b) * Pow2(a.Exp() + 2)
    ensures Total(a, b) == 0 ==> SumOrdered(a, b) == Temp(0, 0)
    ensures Total(a, b) != 0 ==> SumOrdered(a, b).Normal() && SumOrdered(a, b).Neg() == (Total(a, b) < 0)
  {
    hide Unsignified, SumOrdered, Wrap64, Pow2;
    TotalFits(a, b);
    if b.Zero() && a.Zero() {
      ShrZero(2);
      ShrZero(a.Exp() - b.Exp() + 2);
    }
    UnsignifiedExact(a.Exp() + 2, Total(a, b));
  }

  lemma {:induction false} ShrZero(d: nat)
    ensures Shr(0, d) == 0
  {}

  /** A truncated part is its operand, rounded towards zero by less than one unit. */
  lemma PartError(t: Temp, x: nat)
    requires x >= t.Exp()
    ensures var q := Part(t, x - t.Exp() + 2) * Pow2(x + 2);
            if t.Neg() then q - Pow2(x + 2) < t.Scaled() <= q else q <= t.Scaled() < q + Pow2(x + 2)
  {
    hide Pow2, Shr;
    var j := x - t.Exp() + 2;
    TruncateUnit(t.mant, t.Exp(), j);
    NegateProduct(Shr(t.mant, j), Pow2(x + 2));
  }

  ghost predicate CloseTo(r: int, exact: int, u: int, signsDiffer: bool) {
    && -2 * u < r - exact < 2 * u
    && (signsDiffer ==> -u < r - exact < u)
  }

  lemma NearError(x: int, y: int, p: int, q: int, u: int, xneg: bool, yneg: bool)
    requires if xneg then p - u < x <= p else p <= x < p + u
    requires if yneg then q - u < y <= q else q <= y < q + u
    ensures CloseTo(p + q, x + y, u, xneg != yneg)
  {}

  /** An operand 64 or more exponents below the other is under a quarter of a unit. */
  lemma FarOperand(a: Temp, b: Temp)
    requires a.Exp() - b.Exp() >= 64
    ensures 4 * (b.mant * Pow2(b.Exp())) < Pow2(a.Exp() + 2)
  {
    Pow2Values();
    MulMono(b.mant + 1, Pow2(64), Pow2(b.Exp()));
    Distribute(b.mant, 1, Pow2(b.Exp()));
    Pow2Add(64, b.Exp());
    Pow2Mono(b.Exp() + 64, a.Exp());
  }

  lemma NearOperands(a: Temp, b: Temp)
    requires Addable(a, b) && b.Exp() <= a.Exp() && a.Exp() - b.Exp() < 64
    ensures CloseTo(SumOrdered(a, b).Scaled(), a.Scaled() + b.Scaled(), Pow2(a.Exp() + 2), a.Neg() != b.Neg())
  {
    hide SumOrdered, Pow2, Part, CloseTo, Temp.Scaled, Addable;
    var d, u := a.Exp() - b.Exp(), Pow2(a.Exp() + 2);
    SumIsTotal(a, b);
    PartError(a, a.Exp());
    PartError(b, a.Exp());
    Distribute(Part(a, 2), Part(b, d + 2), u);
    NearError(a.Scaled(), b.Scaled(), Part(a, 2) * u, Part(b, d + 2) * u, u, a.Neg(), b.Neg());
  }

  lemma OrderedError(a: Temp, b: Temp)
    requires Addable(a, b) && b.Exp() <= a.Exp()
    ensures CloseTo(SumOrdered(a, b).Scaled(), a.Scaled() + b.Scaled(), Pow2(a.Exp() + 2), a.Neg() != b.Neg())
  {
    hide Unsignified, Signified, Pow2;
    if a.Exp() - b.Exp() < 64 {
      NearOperands(a, b);
    } else {
      FarOperand(a, b);
    }
  }

  /** The error of an addition is below two units of 2^(x+2), below one when the signs differ. */
  lemma SumError(s: Temp, t: Temp)
    requires Addable(s, t)
    ensures CloseTo(Sum(s, t).Scaled(), s.Scaled() + t.Scaled(), Unit(s, t), s.Neg() != t.Neg())
  {
    hide SumOrdered, Pow2;
    if s.Exp() > t.Exp() {
      OrderedError(s, t);
    } else {
      OrderedError(t, s);
    }
  }

  lemma SumNormal(s: Temp, t: Temp)
    requires Summable(s, t)
    ensures Sum(s, t).Normal() || Sum(s, t) == Temp(0, 0)
  {
    hide Unsignified, Signified, Shr, Pow2, Part;
    var a, b := if s.Exp() > t.Exp() then s else t, if s.Exp() > t.Exp() then t else s;
    if a.Exp() - b.Exp() < 64 {
      SumIsTotal(a, b);
    }
  }
}
