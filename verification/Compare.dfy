/** Comparison by truncating subtraction (kernel/math/compare.c). */
module Compare {
  import opened Words
  import opened TempReals
  import opened Fpu
  import Add

  // ----- What the routines compute, on values -----

  function NormalizeValue(t: Temp): Temp {
    if t.mant == 0 then
      Temp(0, 0)
    else
      var (i, m) := Denorm(t.Exp(), t.mant);
      Temp(i + (if t.Neg() then 0x8000 else 0), m)
  }

  function TestFlags(swd: bv16, t: Temp): bv16 {
    var n := NormalizeValue(t);
    SignFlags(swd & 0xbaff, n.mant == 0 && n.expo == 0, n.Neg())
  }

  function SignFlags(swd: bv16, zero: bool, neg: bool): bv16 {
    if zero then swd | C3 else if neg then swd | C0 else swd
  }

  function CompareFlags(swd: bv16, s: Temp, t: Temp): bv16 {
    TestFlags(swd, Add.Sum(s.Negated(), t))
  }

  /** C0 means below zero and C3 means zero. */
  ghost predicate TellsSign(swd: bv16, n: int) {
    (Has(swd, C0) <==> n < 0) && (Has(swd, C3) <==> n == 0)
  }

  // ----- The routines -----

  method Normalize(a: TempReal)
    modifies a
    ensures a.Val() == NormalizeValue(old(a.Val()))
  {
    var i := Magnitude(a.exponent);
    var sign := if a.exponent >= 0x8000 then 0x8000 else 0;
    if !(a.a != 0 || a.b != 0) {
      a.exponent := 0;
      return;
    }
    ghost var e, m := i, Join(a.a, a.b);
    while i != 0 && !Negative(a.b)
      invariant i <= e
      invariant Denorm(i, Join(a.a, a.b)) == Denorm(e, m)
    {
      i := i - 1;
      a.a, a.b := Add64(a.a, a.b, a.a, a.b);
    }
    a.exponent := i + sign;
  }

  /** The flags that ftst sets from a normalised operand. */
  method SetSign(fpu: I387, b: TempReal)
    modifies fpu`swd
    ensures fpu.swd == SignFlags(old(fpu.swd), b.Val().mant == 0 && b.Val().expo == 0, b.Val().Neg())
  {
    if b.a != 0 || b.b != 0 || b.exponent != 0 {
      if b.exponent >= 0x8000 {
        fpu.SetFlags(C0);
      }
    } else {
      fpu.SetFlags(C3);
    }
  }

  method Ftst(fpu: I387, a: TempReal)
    modifies fpu`swd
    ensures fpu.swd == TestFlags(old(fpu.swd), a.Val())
    ensures TellsSign(fpu.swd, a.Val().Scaled())
    ensures OthersKept(old(fpu.swd), fpu.swd)
  {
    OtherFlags(fpu.swd, a.Val());
    hide NormalizeValue, SignFlags, TellsSign, Temp.Scaled, OthersKept;
    TestReadsSign(fpu.swd, a.Val());
    fpu.swd := fpu.swd & 0xbaff;
    var b := new TempReal(a.a, a.b, a.exponent);
    Normalize(b);
    SetSign(fpu, b);
  }

  /** C2 is cleared, and no flag but C0, C2 and C3 is touched. */
  ghost predicate OthersKept(swd: bv16, swd': bv16) {
    swd' & 0x0400 == 0 && swd' & 0xbaff == swd & 0xbaff
  }

  lemma OtherFlags(swd: bv16, t: Temp)
    ensures OthersKept(swd, TestFlags(swd, t))
  {
    hide NormalizeValue, OthersKept, SignFlags;
    var n := NormalizeValue(t);
    OtherBits(swd, n.mant == 0 && n.expo == 0, n.Neg());
  }

  lemma OtherBits(swd: bv16, zero: bool, neg: bool)
    ensures OthersKept(swd, SignFlags(swd & 0xbaff, zero, neg))
  {}

  method Fcom(fpu: I387, src1: TempReal, src2: TempReal)
    modifies fpu`swd
    ensures fpu.swd == CompareFlags(old(fpu.swd), src1.Val(), src2.Val())
    ensures OthersKept(old(fpu.swd), fpu.swd)
    ensures Add.Summable(src1.Val(), src2.Val()) ==> Sound(fpu.swd, src1.Val(), src2.Val())
  {
    hide Join, Add.Sum, TestFlags, OthersKept, CompareFlags, Sound, Add.Summable;
    ghost var swd, s, t := fpu.swd, src1.Val(), src2.Val();
    FlagsOf(swd, s, t);
    if Add.Summable(s, t) {
      CompareSound(swd, s, t);
    }
    var a := new TempReal(src1.a, src1.b, src1.exponent);
    a.exponent := if a.exponent >= 0x8000 then a.exponent - 0x8000 else a.exponent + 0x8000;
    Add.Fadd(a, src2, a);
    Ftst(fpu, a);
  }

  // ----- What that means -----

  /** The sign of a truncated sum is never wrong, and a zero means less than one unit. */
  ghost predicate SignAgrees(r: Temp, exact: int, u: int) {
    && (r.Normal() || r == Temp(0, 0))
    && (r.Normal() && r.Neg() ==> exact < 0)
    && (r.Normal() && !r.Neg() ==> exact > 0)
    && (r == Temp(0, 0) ==> -u < exact < u)
  }

  lemma SignOfParts(n: int, x: int, y: int, p: int, q: int, u: int, xneg: bool, yneg: bool)
    requires u > 0 && n * u == p + q
    requires if xneg then p - u < x <= p else p <= x < p + u
    requires if yneg then q - u < y <= q else q <= y < q + u
    requires xneg == yneg && n == 0 ==> p == 0 && q == 0 && x == 0 && y == 0
    ensures n < 0 && (xneg == yneg ==> xneg) ==> x + y < 0
    ensures n > 0 && (xneg == yneg ==> !xneg) ==> x + y > 0
    ensures n == 0 ==> -u < x + y < u
  {
    if n < 0 {
      MulMono(n, -1, u);
    } else if n > 0 {
      MulMono(1, n, u);
    }
  }

  /** Operands of one sign: their parts share it, and only two zeros can sum to nothing. */
  lemma SameSignTotal(a: Temp, b: Temp)
    requires Add.Summable(a, b) && b.Exp() <= a.Exp() && a.Neg() == b.Neg()
    ensures if a.Neg() then Add.Total(a, b) <= 0 else Add.Total(a, b) >= 0
    ensures Add.Total(a, b) == 0 ==> a.mant == 0 && b.mant == 0
  {
    hide Pow2;
    if a.Normal() {
      assert Shr(a.mant, 2) == Shr(a.mant / 2, 1) == a.mant / 2 / 2;
    }
  }

  lemma NearSign(a: Temp, b: Temp)
    requires Add.Summable(a, b) && b.Exp() <= a.Exp() && a.Exp() - b.Exp() < 64
    ensures SignAgrees(Add.SumOrdered(a, b), a.Scaled() + b.Scaled(), Pow2(a.Exp() + 2))
  {
    hide Add.SumOrdered, Add.Total, Add.Summable, Pow2, Temp.Scaled, SignAgrees;
    Add.Milder(a, b);
    Add.SumIsTotal(a, b);
    NearParts(a, b);
    SignOfTotal(Add.SumOrdered(a, b), Add.Total(a, b), a.Scaled() + b.Scaled(), Pow2(a.Exp() + 2));
  }

  lemma SignOfTotal(r: Temp, n: int, exact: int, u: int)
    requires n == 0 ==> r == Temp(0, 0)
    requires n != 0 ==> r.Normal() && r.Neg() == (n < 0)
    requires (n < 0 ==> exact < 0) && (n > 0 ==> exact > 0) && (n == 0 ==> -u < exact < u)
    ensures SignAgrees(r, exact, u)
  {}

  lemma ZeroParts(t: Temp, j: nat)
    requires t.mant == 0
    ensures Add.Part(t, j) == 0 && t.Scaled() == 0
  {
    Add.ShrZero(j);
  }

  lemma NearParts(a: Temp, b: Temp)
    requires Add.Summable(a, b) && b.Exp() <= a.Exp() && a.Exp() - b.Exp() < 64
    ensures Add.Total(a, b) < 0 ==> a.Scaled() + b.Scaled() < 0
    ensures Add.Total(a, b) > 0 ==> a.Scaled() + b.Scaled() > 0
    ensures Add.Total(a, b) == 0 ==> -Pow2(a.Exp() + 2) < a.Scaled() + b.Scaled() < Pow2(a.Exp() + 2)
  {
    hide Pow2, Shr, Add.Part, Temp.Scaled, Add.Summable;
    var d, u := a.Exp() - b.Exp(), Pow2(a.Exp() + 2);
    var p, q := Add.Part(a, 2), Add.Part(b, d + 2);
    Add.PartError(a, a.Exp());
    Add.PartError(b, a.Exp());
    Distribute(p, q, u);
    if a.Neg() == b.Neg() {
      SameSignTotal(a, b);
      if p + q == 0 {
        ZeroParts(a, 2);
        ZeroParts(b, d + 2);
      }
    }
    SignOfParts(p + q, a.Scaled(), b.Scaled(), p * u, q * u, u, a.Neg(), b.Neg());
  }

  lemma FarSign(a: Temp, b: Temp)
    requires Add.Summable(a, b) && a.Exp() - b.Exp() >= 64
    ensures SignAgrees(Add.SumOrdered(a, b), a.Scaled() + b.Scaled(), Pow2(a.Exp() + 2))
  {
    hide Pow2;
    Add.FarOperand(a, b);
    Pow2Add(2, a.Exp());
    Pow2Values();
    MulMono(4, a.mant, Pow2(a.Exp()));
  }

  lemma SumSign(s: Temp, t: Temp)
    requires Add.Summable(s, t)
    ensures SignAgrees(Add.Sum(s, t), s.Scaled() + t.Scaled(), Add.Unit(s, t))
  {
    hide Add.SumOrdered, Pow2, SignAgrees;
    var a, b := if s.Exp() > t.Exp() then s else t, if s.Exp() > t.Exp() then t else s;
    if a.Exp() - b.Exp() < 64 {
      NearSign(a, b);
    } else {
      FarSign(a, b);
    }
  }

  lemma NegatedScaled(s: Temp)
    ensures s.Negated().Exp() == s.Exp() && s.Negated().Neg() == !s.Neg()
    ensures s.Negated().Scaled() == -s.Scaled()
  {}

  /** The flags tell the sign of every operand, normalised or not. */
  lemma TestReadsSign(swd: bv16, r: Temp)
    ensures TellsSign(TestFlags(swd, r), r.Scaled())
  {
    hide Temp.Scaled;
    ScaledSign(r);
    if r.mant > 0 {
      DenormPositive(r.Exp(), r.mant);
    }
  }

  /** The flags report no strict order that does not hold, do not split equal values, and report
      equality only within one unit of the larger operand. */
  ghost predicate Sound(swd: bv16, s: Temp, t: Temp) {
    && !(Has(swd, C0) && Has(swd, C3))
    && (Has(swd, C0) ==> t.Scaled() < s.Scaled())
    && (!Has(swd, C0) && !Has(swd, C3) ==> t.Scaled() > s.Scaled())
    && (s.Scaled() == t.Scaled() ==> Has(swd, C3))
    && (Has(swd, C3) ==> -Add.Unit(s, t) < t.Scaled() - s.Scaled() < Add.Unit(s, t))
  }

  lemma FlagsOf(swd: bv16, s: Temp, t: Temp)
    ensures CompareFlags(swd, s, t) == TestFlags(swd, Add.Sum(s.Negated(), t))
  {}

  lemma CompareSound(swd: bv16, s: Temp, t: Temp)
    requires Add.Summable(s, t)
    ensures Sound(CompareFlags(swd, s, t), s, t)
  {
    hide Add.Sum, Pow2, TestFlags;
    NegatedScaled(s);
    SumSign(s.Negated(), t);
    TestReadsSign(swd, Add.Sum(s.Negated(), t));
    ScaledSign(Add.Sum(s.Negated(), t));
  }
}
