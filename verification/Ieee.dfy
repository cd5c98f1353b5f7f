/** The IEEE single and double conversions of kernel/math/convert.c. */
module Ieee {
  import opened Words
  import opened TempReals
  import opened Fpu

  // A double is two words, read here as one 64-bit pattern: sign, 11 exponent bits, 52 fraction bits.

  class LongReal {
    var a: u32
    var b: u32

    constructor (a: u32, b: u32)
      ensures this.a == a && this.b == b
    {
      this.a, this.b := a, b;
    }

    function Bits(): u64
      reads this
    {
      Join(a, b)
    }
  }

  function SignBit(d: u64): (s: int)
    ensures s == 0 || s == 1
  {
    d / 0x8000_0000_0000_0000
  }

  function ExpField(d: u64): (e: int)
    ensures 0 <= e < 2048
  {
    (d / 0x10_0000_0000_0000) % 2048
  }

  function FracField(d: u64): (f: int)
    ensures 0 <= f < 0x10_0000_0000_0000
  {
    d % 0x10_0000_0000_0000
  }

  function Pattern(s: int, e: int, f: int): (d: u64)
    requires 0 <= s <= 1 && 0 <= e < 2048 && 0 <= f < 0x10_0000_0000_0000
  {
    0x8000_0000_0000_0000 * s + 0x10_0000_0000_0000 * e + f
  }

  lemma FieldsOf(s: int, e: int, f: int)
    requires 0 <= s <= 1 && 0 <= e < 2048 && 0 <= f < 0x10_0000_0000_0000
    ensures SignBit(Pattern(s, e, f)) == s && ExpField(Pattern(s, e, f)) == e && FracField(Pattern(s, e, f)) == f
  {
    var d := Pattern(s, e, f);
    DivUnique(d, 0x10_0000_0000_0000, 2048 * s + e, f);
    DivUnique(2048 * s + e, 2048, s, e);
    DivUnique(d, 0x8000_0000_0000_0000, s, 0x10_0000_0000_0000 * e + f);
  }

  lemma PatternOf(d: u64)
    ensures d == Pattern(SignBit(d), ExpField(d), FracField(d))
  {}

  // ----- long_to_temp -----

  function LongToTempValue(d: u64): Temp {
    if ExpField(d) == 0 && FracField(d) == 0 then
      Temp(0x8000 * SignBit(d), 0)
    else
      Temp(ExpField(d) - 1023 + 16383 + 0x8000 * SignBit(d), 0x8000_0000_0000_0000 + 0x800 * FracField(d))
  }

  /** The words of a pattern, cut where the code cuts them. */
  lemma WordFields(a: u32, b: u32)
    ensures var d := Join(a, b);
            && SignBit(d) == b / 0x8000_0000 && ExpField(d) == (b / 0x10_0000) % 2048
            && FracField(d) == a + 0x1_0000_0000 * (b % 0x10_0000)
  {
    var s, e, f := b / 0x8000_0000, (b / 0x10_0000) % 2048, a + 0x1_0000_0000 * (b % 0x10_0000);
    assert b == 0x8000_0000 * s + 0x10_0000 * e + b % 0x10_0000;
    FieldsOf(s, e, f);
  }

  /** The high mantissa word: hidden bit, 20 fraction bits, and 11 more from the low word. */
  function HighMantissa(a: u32, b: u32): (w: u32) {
    0x8000_0000 + (b * 0x800) % 0x8000_0000 + a / 0x20_0000
  }

  /** The value of a pattern, from its words. */
  lemma LongToTempWords(a: u32, b: u32)
    ensures var t := LongToTempValue(Join(a, b));
            if a == 0 && b % 0x8000_0000 == 0 then t == Temp(if b != 0 then 0x8000 else 0, 0)
            else && t.expo == (b / 0x10_0000) % 2048 - 1023 + 16383 + (if Negative(b) then 0x8000 else 0)
                 && t.mant == Join((a * 0x800) % 0x1_0000_0000, HighMantissa(a, b))
  {
    hide SignBit, ExpField, FracField;
    WordFields(a, b);
    FractionWords(a, b);
    WordSplit(b);
  }

  lemma WordSplit(b: u32)
    ensures b == 0x8000_0000 * (b / 0x8000_0000) + 0x10_0000 * ((b / 0x10_0000) % 2048) + b % 0x10_0000
    ensures b % 0x8000_0000 == 0x10_0000 * ((b / 0x10_0000) % 2048) + b % 0x10_0000
  {
    DivMod(b, 0x10_0000);
    DivMod(b / 0x10_0000, 2048);
    DivUnique(b, 0x8000_0000, (b / 0x10_0000) / 2048, 0x10_0000 * ((b / 0x10_0000) % 2048) + b % 0x10_0000);
  }

  lemma FractionWords(a: u32, b: u32)
    ensures (a * 0x800) % 0x1_0000_0000 + 0x1_0000_0000 * ((b * 0x800) % 0x8000_0000 + a / 0x20_0000)
         == 0x800 * (a + 0x1_0000_0000 * (b % 0x10_0000))
  {
    DivUnique(a * 0x800, 0x1_0000_0000, a / 0x20_0000, (a % 0x20_0000) * 0x800);
    DivUnique(b * 0x800, 0x8000_0000, b / 0x10_0000, (b % 0x10_0000) * 0x800);
  }

  method LongToTemp(a: LongReal, b: TempReal)
    modifies b
    ensures b.Val() == LongToTempValue(a.Bits())
  {
    hide LongToTempValue;
    LongToTempWords(a.a, a.b);
    if a.a == 0 && a.b % 0x8000_0000 == 0 {
      b.a, b.b := 0, 0;
      b.exponent := if a.b != 0 then 0x8000 else 0;
      return;
    }
    b.exponent := (a.b / 0x10_0000) % 2048 - 1023 + 16383;
    if Negative(a.b) {
      b.exponent := b.exponent + 0x8000;
    }
    b.b := HighMantissa(a.a, a.b);
    b.a := (a.a * 0x800) % 0x1_0000_0000;
  }

  // ----- temp_to_long -----

  /** The pattern before rounding: the exponent field wraps, the fraction is cut. */
  function Cut(t: Temp): u64 {
    Pattern(if t.Neg() then 1 else 0, (t.Exp() - 16383 + 1023) % 2048, (t.mant / 0x800) % 0x10_0000_0000_0000)
  }

  /** Whether the routine adds one; the directed modes look at bits 32 to 39 of the mantissa. */
  predicate Bumps(t: Temp, mode: Rounding) {
    match mode
    case Nearest => t.mant % 0x800 > 0x400
    case Down => t.Neg() && (t.mant / 0x1_0000_0000) % 0x100 != 0
    case Up => !t.Neg() && (t.mant / 0x1_0000_0000) % 0x100 != 0
    case Chop => false
  }

  function TempToLongValue(t: Temp, mode: Rounding): u64 {
    if t.Exp() == 0 then
      if t.expo != 0 then 0x8000_0000_0000_0000 else 0
    else
      Wrap64(Cut(t) + (if Bumps(t, mode) then 1 else 0))
  }

  lemma CutWords(lo: u32, hi: u32, s: int, e: int)
    requires 0 <= s <= 1 && 0 <= e < 2048
    ensures var a := (hi * 0x20_0000) % 0x1_0000_0000 + lo / 0x800;
            var b := 0x10_0000 * e + 0x8000_0000 * s + (hi / 0x800) % 0x10_0000;
            && 0 <= a < 0x1_0000_0000 && 0 <= b < 0x1_0000_0000
            && a + 0x1_0000_0000 * b == Pattern(s, e, (Join(lo, hi) / 0x800) % 0x10_0000_0000_0000)
  {
    var h := hi / 0x800;
    DivUnique(hi * 0x20_0000, 0x1_0000_0000, h, (hi % 0x800) * 0x20_0000);
    DivUnique(Join(lo, hi), 0x800, lo / 0x800 + 0x20_0000 * hi, lo % 0x800);
    assert h == 0x10_0000 * (h / 0x10_0000) + h % 0x10_0000;
    DivUnique(lo / 0x800 + 0x20_0000 * hi, 0x10_0000_0000_0000, h / 0x10_0000,
              lo / 0x800 + 0x20_0000 * (hi % 0x800) + 0x1_0000_0000 * (h % 0x10_0000));
  }

  lemma BumpWords(lo: u32, hi: u32)
    ensures Join(lo, hi) % 0x800 == lo % 0x800 && Join(lo, hi) / 0x1_0000_0000 == hi
  {
    DivUnique(Join(lo, hi), 0x1_0000_0000, hi, lo);
    DivUnique(Join(lo, hi), 0x800, lo / 0x800 + 0x20_0000 * hi, lo % 0x800);
  }

  method TempToLong(fpu: I387, a: TempReal, b: LongReal)
    modifies b
    ensures b.Bits() == TempToLongValue(a.Val(), fpu.Mode())
  {
    hide Pattern;
    if Magnitude(a.exponent) == 0 {
      b.a := 0;
      b.b := if a.exponent != 0 then 0x8000_0000 else 0;
      return;
    }
    var e := (Magnitude(a.exponent) - 16383 + 1023) % 2048;
    CutWords(a.a, a.b, if a.exponent >= 0x8000 then 1 else 0, e);
    BumpWords(a.a, a.b);
    b.b := 0x10_0000 * e + (if a.exponent >= 0x8000 then 0x8000_0000 else 0) + (a.b / 0x800) % 0x10_0000;
    b.a := (a.b * 0x20_0000) % 0x1_0000_0000 + a.a / 0x800;
    assert b.Bits() == Cut(a.Val());
    var up := match fpu.Mode()
      case Nearest => a.a % 0x800 > 0x400
      case Down => a.exponent >= 0x8000 && a.b % 0x100 != 0
      case Up => !(a.exponent >= 0x8000) && a.b % 0x100 != 0
      case Chop => false;
    if up {
      b.a, b.b := Add64(b.a, b.b, 1, 0);
    }
  }

  // ----- What that means -----

  /** The magnitude a pattern denotes, scaled by 2^16446; exponent field 2047 with a zero
      fraction, which a carry out of 2046 produces, counts as 2^1024. */
  ghost function Magnitude64(d: u64): int {
    (0x10_0000_0000_0000 + FracField(d)) * (0x800 * Pow2(ExpField(d) + 15360))
  }

  /** The patterns whose first rounding decision in a directed mode is misled by stray bits. */
  predicate Spoiled(d: u64, mode: Rounding) {
    && (ExpField(d) != 0 || FracField(d) != 0)
    && (FracField(d) / 0x20_0000) % 0x100 != 0
    && ((mode == Down && SignBit(d) == 1) || (mode == Up && SignBit(d) == 0))
  }

  lemma BackAgain(d: u64)
    requires ExpField(d) != 0 || FracField(d) != 0
    ensures var t := LongToTempValue(d);
            && t.Exp() == ExpField(d) + 15360 && t.Neg() == (SignBit(d) == 1)
            && Cut(t) == d && t.mant % 0x800 == 0
            && (t.mant / 0x1_0000_0000) % 0x100 == (FracField(d) / 0x20_0000) % 0x100
  {
    var t, f := LongToTempValue(d), FracField(d);
    PatternOf(d);
    hide SignBit, ExpField, FracField;
    DivUnique(t.mant, 0x800, 0x10_0000_0000_0000 + f, 0);
    DivUnique(0x10_0000_0000_0000 + f, 0x10_0000_0000_0000, 1, f);
    assert f == 0x20_0000 * (f / 0x20_0000) + f % 0x20_0000;
    DivUnique(t.mant, 0x1_0000_0000, 0x8000_0000 + f / 0x20_0000, 0x800 * (f % 0x20_0000));
    DivMod(f / 0x20_0000, 0x100);
    DivUnique(0x8000_0000 + f / 0x20_0000, 0x100, 0x80_0000 + (f / 0x20_0000) / 0x100, (f / 0x20_0000) % 0x100);
  }

  /** long_to_temp then temp_to_long is the identity on every 64-bit pattern in nearest and
      chop modes; in the directed modes it is so exactly off the spoiled patterns. */
  lemma LongRoundTrip(d: u64, mode: Rounding)
    ensures TempToLongValue(LongToTempValue(d), mode) == d <==> !Spoiled(d, mode)
  {
    hide Cut, SignBit, ExpField, FracField, LongToTempValue;
    if ExpField(d) != 0 || FracField(d) != 0 {
      BackAgain(d);
    } else {
      ZeroBack(d);
    }
  }

  lemma ZeroBack(d: u64)
    requires ExpField(d) == 0 && FracField(d) == 0
    ensures LongToTempValue(d) == Temp(0x8000 * SignBit(d), 0) && d == 0x8000_0000_0000_0000 * SignBit(d)
  {
    hide SignBit, ExpField, FracField;
    PatternOf(d);
  }

  /** A normalised mantissa read as a 53-bit significand and what is cut off. */
  lemma CutFields(t: Temp)
    requires t.Normal() && 1 <= t.Exp() - 15360 <= 2046
    ensures var f := t.mant / 0x800 - 0x10_0000_0000_0000;
            && 0 <= f < 0x10_0000_0000_0000
            && Cut(t) == Pattern(if t.Neg() then 1 else 0, t.Exp() - 15360, f)
  {
    var f := t.mant / 0x800 - 0x10_0000_0000_0000;
    DivUnique(t.mant / 0x800, 0x10_0000_0000_0000, 1, f);
  }

  /** Adding one to a pattern gives the next significand, also when the carry runs into the
      exponent field. */
  lemma NextPattern(s: int, e: int, f: int, up: bool)
    requires 0 <= s <= 1 && 1 <= e <= 2046 && 0 <= f < 0x10_0000_0000_0000
    ensures var d := Wrap64(Pattern(s, e, f) + (if up then 1 else 0));
            && SignBit(d) == s
            && Magnitude64(d) == (0x10_0000_0000_0000 + f + (if up then 1 else 0)) * (0x800 * Pow2(e + 15360))
  {
    if up && f == 0xf_ffff_ffff_ffff {
      FieldsOf(s, e + 1, 0);
      hide SignBit, ExpField, FracField;
      assert Pow2(e + 1 + 15360) == 2 * Pow2(e + 15360);
      MulAssoc(0x10_0000_0000_0000, 2, 0x800 * Pow2(e + 15360));
    } else {
      FieldsOf(s, e, f + (if up then 1 else 0));
    }
  }

  /** The 53-bit significand temp_to_long settles on. */
  function Significand(t: Temp, mode: Rounding): int {
    t.mant / 0x800 + (if Bumps(t, mode) then 1 else 0)
  }

  lemma LongValue(t: Temp, mode: Rounding)
    requires t.Normal() && 1 <= t.Exp() - 15360 <= 2046
    ensures var d := TempToLongValue(t, mode);
            && SignBit(d) == (if t.Neg() then 1 else 0)
            && Magnitude64(d) == Significand(t, mode) * (0x800 * Pow2(t.Exp()))
  {
    hide Pow2, Magnitude64, Pattern, SignBit;
    CutFields(t);
    NextPattern(if t.Neg() then 1 else 0, t.Exp() - 15360, t.mant / 0x800 - 0x10_0000_0000_0000, Bumps(t, mode));
  }

  /** In nearest mode the double is within half a unit in its last place. */
  lemma LongNearestError(t: Temp)
    requires t.Normal() && 1 <= t.Exp() - 15360 <= 2046
    ensures var e := Magnitude64(TempToLongValue(t, Nearest)) - t.mant * Pow2(t.Exp());
            -(0x400 * Pow2(t.Exp())) <= e <= 0x400 * Pow2(t.Exp())
  {
    hide Pow2, Magnitude64, TempToLongValue;
    LongValue(t, Nearest);
    var n, u := Significand(t, Nearest), Pow2(t.Exp());
    MulAssoc(n, 0x800, u);
    MulMono(n * 0x800, t.mant + 0x400, u);
    MulMono(t.mant - 0x400, n * 0x800, u);
    Distribute(t.mant, 0x400, u);
    Distribute(t.mant, -0x400, u);
  }

  /** It is round-to-nearest-even except exactly on ties above an odd significand, which it
      truncates; chop mode always truncates correctly. */
  lemma LongNearestEven(t: Temp)
    ensures NearestEven(Significand(t, Nearest), t.mant, 0x800)
            <==> !(t.mant % 0x800 == 0x400 && (t.mant / 0x800) % 2 == 1)
    ensures TowardsZero(Significand(t, Chop), t.mant, 0x800)
  {
    DivMod(t.mant, 0x800);
  }

  /** In the directed modes it looks at bits 32 to 39, so for numbers on the side that should be
      rounded away from zero it is right exactly when those bits are zero just when the eleven
      dropped bits are. */
  lemma LongDirected(t: Temp)
    ensures var told := (t.mant / 0x1_0000_0000) % 0x100 != 0;
            var dropped := t.mant % 0x800 != 0;
            && (Correct(Significand(t, Up), t.mant, 0x800, t.Neg(), Up) <==> t.Neg() || told == dropped)
            && (Correct(Significand(t, Down), t.mant, 0x800, t.Neg(), Down) <==> !t.Neg() || told == dropped)
  {
    DivMod(t.mant, 0x800);
  }

  /** The IEEE 754 magnitude of a pattern with exponent field below 2047, scaled by 2^16446. */
  ghost function Denoted64(d: u64): int {
    if ExpField(d) == 0 then FracField(d) * (0x800 * Pow2(1 + 15360)) else Magnitude64(d)
  }

  /** long_to_temp is exact on every finite double but the denormals, which it reads as if they
      had a hidden bit. */
  lemma LongToTempExact(d: u64)
    requires ExpField(d) < 2047
    ensures LongToTempValue(d).Scaled() == (if SignBit(d) == 1 then -1 else 1) * Denoted64(d)
            <==> ExpField(d) != 0 || FracField(d) == 0
    ensures ExpField(d) != 0 ==> LongToTempValue(d).Normal()
  {
    hide SignBit, ExpField, FracField, Pow2;
    var f, u := FracField(d), Pow2(ExpField(d) + 15360);
    MulAssoc(0x10_0000_0000_0000 + f, 0x800, u);
    if ExpField(d) == 0 {
      assert Pow2(15361) == 2 * Pow2(15360) by { Pow2Next(15360); }
      DenormalDiffers(f, 0x10_0000_0000_0000, 0x800, u);
    }
  }

  /** The least double above zero is not the number it should be. */
  lemma LongDenormalGoesWrong(d: u64)
    requires d == 1
    ensures LongToTempValue(d).Scaled() != Denoted64(d)
  {
    hide LongToTempValue, Denoted64, Temp.Scaled, SignBit, ExpField, FracField;
    FieldsOf(0, 0, 1);
    assert Pattern(0, 0, d) == d;
    LongToTempExact(d);
  }

  lemma Pow2Next(n: nat)
    ensures Pow2(n + 1) == 2 * Pow2(n)
  {}

  /** A hidden bit that is not there always shows. */
  lemma DenormalDiffers(f: nat, hidden: nat, unit: nat, u: nat)
    requires f < hidden && unit > 0 && u > 0
    ensures 2 * (f * (unit * u)) < (hidden + f) * (unit * u)
    ensures f * (unit * (2 * u)) == 2 * (f * (unit * u))
  {
    MulMono(1, unit, u);
    MulMono(2 * f + 1, hidden + f, unit * u);
    Distribute(2 * f, 1, unit * u);
    MulAssoc(2, f, unit * u);
    MulAssoc(unit, 2, u);
    MulAssoc(2, unit, u);
    MulAssoc(f, 2, unit * u);
    MulAssoc(2, f, unit * u);
  }

  // ----- Singles: sign, 8 exponent bits, 23 fraction bits -----

  function ShortSign(w: u32): (s: int)
    ensures s == 0 || s == 1
  {
    w / 0x8000_0000
  }

  function ShortExp(w: u32): (e: int)
    ensures 0 <= e < 256
  {
    (w / 0x80_0000) % 256
  }

  function ShortFrac(w: u32): (f: int)
    ensures 0 <= f < 0x80_0000
  {
    w % 0x80_0000
  }

  function ShortPattern(s: int, e: int, f: int): (w: u32)
    requires 0 <= s <= 1 && 0 <= e < 256 && 0 <= f < 0x80_0000
  {
    0x8000_0000 * s + 0x80_0000 * e + f
  }

  lemma ShortFieldsOf(s: int, e: int, f: int)
    requires 0 <= s <= 1 && 0 <= e < 256 && 0 <= f < 0x80_0000
    ensures var w := ShortPattern(s, e, f);
            ShortSign(w) == s && ShortExp(w) == e && ShortFrac(w) == f
  {
    var w := ShortPattern(s, e, f);
    DivUnique(w, 0x80_0000, 256 * s + e, f);
    DivUnique(256 * s + e, 256, s, e);
    DivUnique(w, 0x8000_0000, s, 0x80_0000 * e + f);
  }

  lemma ShortPatternOf(w: u32)
    ensures w == ShortPattern(ShortSign(w), ShortExp(w), ShortFrac(w))
  {
    DivMod(w, 0x80_0000);
    DivMod(w / 0x80_0000, 256);
    DivUnique(w, 0x8000_0000, (w / 0x80_0000) / 256, 0x80_0000 * ((w / 0x80_0000) % 256) + w % 0x80_0000);
  }

  /** What short_to_temp makes of the three fields. */
  function ShortToTempValue(w: u32): Temp {
    if ShortExp(w) == 0 && ShortFrac(w) == 0 then
      Temp(0x8000 * ShortSign(w), 0)
    else
      Temp(ShortExp(w) - 127 + 16383 + 0x8000 * ShortSign(w),
           0x8000_0000_0000_0000 + 0x100_0000_0000 * ShortFrac(w))
  }

  /** The same by the shifts of the code. */
  lemma ShortToTempWords(w: u32)
    ensures var t := ShortToTempValue(w);
            if w % 0x8000_0000 == 0 then t == Temp(if w != 0 then 0x8000 else 0, 0)
            else && t.expo == (w / 0x80_0000) % 256 - 127 + 16383 + (if Negative(w) then 0x8000 else 0)
                 && t.mant == Join(0, 0x8000_0000 + (w * 0x100) % 0x8000_0000)
  {
    hide ShortSign, ShortExp, ShortFrac;
    ShortWordFields(w);
  }

  lemma ShortWordFields(w: u32)
    ensures var s, e, f := ShortSign(w), ShortExp(w), ShortFrac(w);
            && w == 0x8000_0000 * s + 0x80_0000 * e + f && w % 0x8000_0000 == 0x80_0000 * e + f
            && e == (w / 0x80_0000) % 256 && (w * 0x100) % 0x8000_0000 == f * 0x100
  {
    ShortPatternOf(w);
    var s, e, f := ShortSign(w), ShortExp(w), ShortFrac(w);
    DivMod(w, 0x80_0000);
    DivUnique(w, 0x8000_0000, s, 0x80_0000 * e + f);
    DivUnique(w * 0x100, 0x8000_0000, w / 0x80_0000, f * 0x100);
  }

  method ShortToTemp(a: u32, b: TempReal)
    modifies b
    ensures b.Val() == ShortToTempValue(a)
  {
    hide ShortToTempValue;
    ShortToTempWords(a);
    if a % 0x8000_0000 == 0 {
      b.a, b.b := 0, 0;
      b.exponent := if a != 0 then 0x8000 else 0;
      return;
    }
    b.exponent := (a / 0x80_0000) % 0x100 - 127 + 16383;
    if Negative(a) {
      b.exponent := b.exponent + 0x8000;
    }
    b.b := 0x8000_0000 + (a * 0x100) % 0x8000_0000;
    b.a := 0;
  }

  /** The magnitude a pattern denotes, scaled by 2^16446; exponent field 255 with a zero fraction,
      which a carry out of 254 produces, counts as 2^128. */
  ghost function Magnitude32(w: u32): int {
    (0x80_0000 + ShortFrac(w)) * (0x100_0000_0000 * Pow2(ShortExp(w) + 16256))
  }

  /** The IEEE 754 magnitude of a pattern with exponent field below 255, scaled by 2^16446. */
  ghost function Denoted32(w: u32): int {
    if ShortExp(w) == 0 then ShortFrac(w) * (0x100_0000_0000 * Pow2(1 + 16256)) else Magnitude32(w)
  }

  /** short_to_temp is exact on every finite single but the denormals. */
  lemma ShortToTempExact(w: u32)
    requires ShortExp(w) < 255
    ensures ShortToTempValue(w).Scaled() == (if ShortSign(w) == 1 then -1 else 1) * Denoted32(w)
            <==> ShortExp(w) != 0 || ShortFrac(w) == 0
    ensures ShortExp(w) != 0 ==> ShortToTempValue(w).Normal()
  {
    hide ShortSign, ShortExp, ShortFrac, Pow2;
    var f, u := ShortFrac(w), Pow2(ShortExp(w) + 16256);
    MulAssoc(0x80_0000 + f, 0x100_0000_0000, u);
    if ShortExp(w) == 0 {
      assert Pow2(16257) == 2 * Pow2(16256) by { Pow2Next(16256); }
      DenormalDiffers(f, 0x80_0000, 0x100_0000_0000, u);
    }
  }

  /** The least single above zero is not the number it should be. */
  lemma ShortDenormalGoesWrong(w: u32)
    requires w == 1
    ensures ShortToTempValue(w).Scaled() != Denoted32(w)
  {
    hide ShortToTempValue, Denoted32, Temp.Scaled, ShortSign, ShortExp, ShortFrac;
    ShortFieldsOf(0, 0, 1);
    assert ShortPattern(0, 0, w) == w;
    ShortToTempExact(w);
  }

  // ----- temp_to_short -----

  /** The pattern before rounding: the exponent field wraps, the fraction is cut. */
  function ShortCut(t: Temp): u32 {
    ShortPattern(if t.Neg() then 1 else 0, (t.Exp() - 16383 + 127) % 256, (t.mant / 0x100_0000_0000) % 0x80_0000)
  }

  /** Whether the routine adds one: it looks at bits 32 to 39, never at the low word. */
  predicate ShortBumps(t: Temp, mode: Rounding) {
    var tail := (t.mant / 0x1_0000_0000) % 0x100;
    match mode
    case Nearest => tail > 0x80
    case Down => t.Neg() && tail != 0
    case Up => !t.Neg() && tail != 0
    case Chop => false
  }

  function TempToShortValue(t: Temp, mode: Rounding): u32 {
    if t.Exp() == 0 then
      if t.expo != 0 then 0x8000_0000 else 0
    else
      Next32(ShortCut(t), ShortBumps(t, mode))
  }

  /** A word, or the next one, wrapping. */
  function Next32(w: u32, up: bool): u32 {
    if !up then w else if w == 0xffff_ffff then 0 else w + 1
  }

  lemma ShortCutWords(lo: u32, hi: u32, s: int, e: int)
    requires 0 <= s <= 1 && 0 <= e < 256
    ensures e * 0x80_0000 + 0x8000_0000 * s + (hi / 0x100) % 0x80_0000
            == ShortPattern(s, e, (Join(lo, hi) / 0x100_0000_0000) % 0x80_0000)
    ensures (Join(lo, hi) / 0x1_0000_0000) % 0x100 == hi % 0x100
  {
    DivMod(hi, 0x100);
    DivUnique(Join(lo, hi), 0x100_0000_0000, hi / 0x100, lo + 0x1_0000_0000 * (hi % 0x100));
    DivUnique(Join(lo, hi), 0x1_0000_0000, hi, lo);
  }

  method TempToShort(fpu: I387, a: TempReal) returns (b: u32)
    ensures b == TempToShortValue(a.Val(), fpu.Mode())
  {
    hide ShortPattern;
    if Magnitude(a.exponent) == 0 {
      return if a.exponent != 0 then 0x8000_0000 else 0;
    }
    var e := (Magnitude(a.exponent) - 16383 + 127) % 256;
    ShortCutWords(a.a, a.b, if a.exponent >= 0x8000 then 1 else 0, e);
    b := e * 0x80_0000 + (if a.exponent >= 0x8000 then 0x8000_0000 else 0) + (a.b / 0x100) % 0x80_0000;
    assert b == ShortCut(a.Val());
    var up := match fpu.Mode()
      case Nearest => a.b % 0x100 > 0x80
      case Down => a.exponent >= 0x8000 && a.b % 0x100 != 0
      case Up => !(a.exponent >= 0x8000) && a.b % 0x100 != 0
      case Chop => false;
    if up {
      b := if b == 0xffff_ffff then 0 else b + 1;
    }
  }

  // ----- What that means -----

  /** short_to_temp then temp_to_short is the identity on all 32-bit patterns in all modes. */
  lemma ShortRoundTrip(w: u32, mode: Rounding)
    ensures TempToShortValue(ShortToTempValue(w), mode) == w
  {
    hide ShortSign, ShortExp, ShortFrac, ShortCut, ShortToTempValue;
    if ShortExp(w) != 0 || ShortFrac(w) != 0 {
      ShortBackAgain(w);
    } else {
      ShortZeroBack(w);
    }
  }

  lemma ShortZeroBack(w: u32)
    requires ShortExp(w) == 0 && ShortFrac(w) == 0
    ensures ShortToTempValue(w) == Temp(0x8000 * ShortSign(w), 0) && w == 0x8000_0000 * ShortSign(w)
  {
    hide ShortSign, ShortExp, ShortFrac;
    ShortPatternOf(w);
  }

  lemma ShortBackAgain(w: u32)
    requires ShortExp(w) != 0 || ShortFrac(w) != 0
    ensures var t := ShortToTempValue(w);
            && t.Exp() != 0 && ShortCut(t) == w && (t.mant / 0x1_0000_0000) % 0x100 == 0
  {
    var t, f := ShortToTempValue(w), ShortFrac(w);
    ShortPatternOf(w);
    hide ShortSign, ShortExp, ShortFrac;
    DivUnique(t.mant, 0x100_0000_0000, 0x80_0000 + f, 0);
    DivUnique(0x80_0000 + f, 0x80_0000, 1, f);
    DivUnique(t.mant, 0x1_0000_0000, 0x100 * (0x80_0000 + f), 0);
    DivUnique(0x100 * (0x80_0000 + f), 0x100, 0x80_0000 + f, 0);
  }

  lemma ShortCutFields(t: Temp)
    requires t.Normal() && 1 <= t.Exp() - 16256 <= 254
    ensures var f := t.mant / 0x100_0000_0000 - 0x80_0000;
            && 0 <= f < 0x80_0000
            && ShortCut(t) == ShortPattern(if t.Neg() then 1 else 0, t.Exp() - 16256, f)
  {
    var f := t.mant / 0x100_0000_0000 - 0x80_0000;
    DivUnique(t.mant / 0x100_0000_0000, 0x80_0000, 1, f);
  }

  /** Adding one to a pattern gives the next significand, also when the carry runs into the
      exponent field. */
  lemma NextShort(s: int, e: int, f: int, up: bool)
    requires 0 <= s <= 1 && 1 <= e <= 254 && 0 <= f < 0x80_0000
    ensures var w := Next32(ShortPattern(s, e, f), up);
            && ShortSign(w) == s
            && Magnitude32(w) == (0x80_0000 + f + (if up then 1 else 0)) * (0x100_0000_0000 * Pow2(e + 16256))
  {
    if up && f == 0x7f_ffff {
      ShortFieldsOf(s, e + 1, 0);
      hide ShortSign, ShortExp, ShortFrac;
      assert Pow2(e + 1 + 16256) == 2 * Pow2(e + 16256);
      MulAssoc(0x80_0000, 2, 0x100_0000_0000 * Pow2(e + 16256));
    } else {
      ShortFieldsOf(s, e, f + (if up then 1 else 0));
    }
  }

  /** The 24-bit significand temp_to_short settles on. */
  function ShortSignificand(t: Temp, mode: Rounding): int {
    t.mant / 0x100_0000_0000 + (if ShortBumps(t, mode) then 1 else 0)
  }

  /** Over single's normal range the stored word denotes exactly that significand. */
  lemma ShortValue(t: Temp, mode: Rounding)
    requires t.Normal() && 1 <= t.Exp() - 16256 <= 254
    ensures var w := TempToShortValue(t, mode);
            && ShortSign(w) == (if t.Neg() then 1 else 0)
            && Magnitude32(w) == ShortSignificand(t, mode) * (0x100_0000_0000 * Pow2(t.Exp()))
  {
    hide Pow2, Magnitude32, ShortPattern, ShortSign;
    ShortCutFields(t);
    NextShort(if t.Neg() then 1 else 0, t.Exp() - 16256, t.mant / 0x100_0000_0000 - 0x80_0000, ShortBumps(t, mode));
  }

  /** How a mantissa splits at the bits temp_to_short looks at. */
  lemma ShortSplit(m: u64)
    ensures m == 0x100_0000_0000 * (m / 0x100_0000_0000)
                 + 0x1_0000_0000 * ((m / 0x1_0000_0000) % 0x100) + m % 0x1_0000_0000
    ensures m % 0x100_0000_0000 == 0x1_0000_0000 * ((m / 0x1_0000_0000) % 0x100) + m % 0x1_0000_0000
  {
    var n := m / 0x1_0000_0000;
    DivMod(m, 0x1_0000_0000);
    DivMod(n, 0x100);
    DivUnique(m, 0x100_0000_0000, n / 0x100, 0x1_0000_0000 * (n % 0x100) + m % 0x1_0000_0000);
  }

  /** It is round-to-nearest-even except exactly where bits 32 to 39 read one half and either the
      low word says more or the significand is odd; chop mode always truncates correctly. */
  lemma ShortNearestEven(t: Temp)
    ensures NearestEven(ShortSignificand(t, Nearest), t.mant, 0x100_0000_0000)
            <==> !((t.mant / 0x1_0000_0000) % 0x100 == 0x80
                   && (t.mant % 0x1_0000_0000 != 0 || (t.mant / 0x100_0000_0000) % 2 == 1))
    ensures TowardsZero(ShortSignificand(t, Chop), t.mant, 0x100_0000_0000)
  {
    ShortSplit(t.mant);
  }

  /** In the directed modes it is right, on the side that should be rounded away from zero,
      exactly when the low word is not all that was dropped. */
  lemma ShortDirected(t: Temp)
    ensures var missed := (t.mant / 0x1_0000_0000) % 0x100 == 0 && t.mant % 0x1_0000_0000 != 0;
            && (Correct(ShortSignificand(t, Up), t.mant, 0x100_0000_0000, t.Neg(), Up) <==> t.Neg() || !missed)
            && (Correct(ShortSignificand(t, Down), t.mant, 0x100_0000_0000, t.Neg(), Down) <==> !t.Neg() || !missed)
  {
    ShortSplit(t.mant);
  }

  /** In nearest mode the single is within 1/2 + 2^-8 units in its last place. */
  lemma ShortNearestError(t: Temp)
    requires t.Normal() && 1 <= t.Exp() - 16256 <= 254
    ensures var e := Magnitude32(TempToShortValue(t, Nearest)) - t.mant * Pow2(t.Exp());
            -(0x81_0000_0000 * Pow2(t.Exp())) <= e <= 0x81_0000_0000 * Pow2(t.Exp())
  {
    hide Pow2, Magnitude32, TempToShortValue;
    ShortValue(t, Nearest);
    ShortSplit(t.mant);
    var n, u := ShortSignificand(t, Nearest), Pow2(t.Exp());
    MulAssoc(n, 0x100_0000_0000, u);
    MulMono(n * 0x100_0000_0000, t.mant + 0x81_0000_0000, u);
    MulMono(t.mant - 0x81_0000_0000, n * 0x100_0000_0000, u);
    Distribute(t.mant, 0x81_0000_0000, u);
    Distribute(t.mant, -0x81_0000_0000, u);
  }

  // ----- Inputs that go wrong -----

  /** Just over a half, and it is dropped: the single stored is 1, though the next one is nearer. */
  lemma ShortDropsLowWord()
    ensures var t := Temp(16383, 0x8000_0080_0000_0001);
            && TempToShortValue(t, Nearest) == 0x3f80_0000
            && !NearestEven(ShortSignificand(t, Nearest), t.mant, 0x100_0000_0000)
            && NearestEven(ShortSignificand(t, Nearest) + 1, t.mant, 0x100_0000_0000)
  {
    var t := Temp(16383, 0x8000_0080_0000_0001);
    ShortNearestEven(t);
  }

  /** An exact tie above an odd significand is truncated. */
  lemma LongTruncatesTie()
    ensures var t := Temp(16383, 0x8000_0000_0000_0c00);
            && TempToLongValue(t, Nearest) == 0x3ff0_0000_0000_0001
            && !NearestEven(Significand(t, Nearest), t.mant, 0x800)
            && NearestEven(Significand(t, Nearest) + 1, t.mant, 0x800)
  {
    var t := Temp(16383, 0x8000_0000_0000_0c00);
    LongNearestEven(t);
  }

  /** A spoiled pattern comes back as the next one. */
  lemma SpoiledGainsOne(d: u64, mode: Rounding)
    requires Spoiled(d, mode)
    ensures TempToLongValue(LongToTempValue(d), mode) == Wrap64(d + 1)
  {
    hide Cut, SignBit, ExpField, FracField, LongToTempValue;
    BackAgain(d);
  }

  lemma LongGainsOne()
    ensures TempToLongValue(LongToTempValue(0x3ff0_0000_0020_0000), Up) == 0x3ff0_0000_0020_0001
  {
    hide SignBit, ExpField, FracField, LongToTempValue, TempToLongValue;
    FieldsOf(0, 0x3ff, 0x20_0000);
    SpoiledGainsOne(Pattern(0, 0x3ff, 0x20_0000), Up);
  }

  // ----- Every operand -----

  lemma NoFields(s: int, e: int, f: int)
    requires 0 <= s <= 1 && e == 0 && f == 0
    ensures Pattern(s, e, f) == 0x8000_0000_0000_0000 * s && ShortPattern(s, e, f) == 0x8000_0000 * s
  {}

  lemma SmallWrap(d: u64)
    ensures Wrap64(d) == d
  {}

  lemma LongChopped(t: Temp, s: int, e: int, f: int)
    requires s == if t.Neg() then 1 else 0
    requires e == if t.Exp() == 0 then 0 else (t.Exp() - 15360) % 2048
    requires f == if t.Exp() == 0 then 0 else (t.mant / 0x800) % 0x10_0000_0000_0000
    ensures TempToLongValue(t, Chop) == Pattern(s, e, f)
  {
    hide Pattern, Wrap64;
    if t.Exp() == 0 {
      NoFields(s, e, f);
    } else {
      SmallWrap(Cut(t));
    }
  }

  lemma LongOrNext(t: Temp, mode: Rounding)
    ensures var c, d := TempToLongValue(t, Chop), TempToLongValue(t, mode);
            d == c || d == Wrap64(c + 1)
  {
    hide Cut, Wrap64;
    SmallWrap(Cut(t));
  }

  /** For every operand, in range or not, chop mode stores its sign, its exponent modulo the width of
      the field, and its top fraction bits; without an exponent it stores a signed zero; and the other
      modes store that pattern or the next. */
  lemma LongFields(t: Temp, mode: Rounding)
    ensures var d := TempToLongValue(t, Chop);
            && SignBit(d) == (if t.Neg() then 1 else 0)
            && ExpField(d) == (if t.Exp() == 0 then 0 else (t.Exp() - 15360) % 2048)
            && FracField(d) == (if t.Exp() == 0 then 0 else (t.mant / 0x800) % 0x10_0000_0000_0000)
    ensures var c, d := TempToLongValue(t, Chop), TempToLongValue(t, mode);
            d == c || d == Wrap64(c + 1)
  {
    hide Pattern, SignBit, ExpField, FracField, Wrap64, TempToLongValue;
    var s, e := if t.Neg() then 1 else 0, if t.Exp() == 0 then 0 else (t.Exp() - 15360) % 2048;
    var f := if t.Exp() == 0 then 0 else (t.mant / 0x800) % 0x10_0000_0000_0000;
    LongChopped(t, s, e, f);
    LongOrNext(t, mode);
    FieldsOf(s, e, f);
  }

  lemma ShortChopped(t: Temp, s: int, e: int, f: int)
    requires s == if t.Neg() then 1 else 0
    requires e == if t.Exp() == 0 then 0 else (t.Exp() - 16256) % 256
    requires f == if t.Exp() == 0 then 0 else (t.mant / 0x100_0000_0000) % 0x80_0000
    ensures TempToShortValue(t, Chop) == ShortPattern(s, e, f)
  {
    hide ShortPattern;
    if t.Exp() == 0 {
      NoFields(s, e, f);
    }
  }

  lemma ShortOrNext(t: Temp, mode: Rounding)
    ensures var c, w := TempToShortValue(t, Chop), TempToShortValue(t, mode);
            w == c || w == Next32(c, true)
  {
    hide ShortCut;
  }

  /** The same for singles. */
  lemma ShortFields(t: Temp, mode: Rounding)
    ensures var w := TempToShortValue(t, Chop);
            && ShortSign(w) == (if t.Neg() then 1 else 0)
            && ShortExp(w) == (if t.Exp() == 0 then 0 else (t.Exp() - 16256) % 256)
            && ShortFrac(w) == (if t.Exp() == 0 then 0 else (t.mant / 0x100_0000_0000) % 0x80_0000)
    ensures var c, w := TempToShortValue(t, Chop), TempToShortValue(t, mode);
            w == c || w == Next32(c, true)
  {
    hide ShortPattern, ShortSign, ShortExp, ShortFrac, TempToShortValue, Next32;
    var s, e := if t.Neg() then 1 else 0, if t.Exp() == 0 then 0 else (t.Exp() - 16256) % 256;
    var f := if t.Exp() == 0 then 0 else (t.mant / 0x100_0000_0000) % 0x80_0000;
    ShortChopped(t, s, e, f);
    ShortOrNext(t, mode);
    ShortFieldsOf(s, e, f);
  }
}
