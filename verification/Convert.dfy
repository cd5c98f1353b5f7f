/** Conversions between temporary reals, integers and IEEE reals (kernel/math/convert.c). */
module Convert {
  import opened Words
  import opened TempReals
  import opened Fpu

  /** temp_int: a 64-bit magnitude and a sign, non-zero when negative. */
  class TempInt {
    var a: u32
    var b: u32
    var sign: int

    constructor (a: u32, b: u32, sign: int)
      ensures this.a == a && this.b == b && this.sign == sign
    {
      this.a, this.b, this.sign := a, b, sign;
    }

    function Mag(): u64
      reads this
    {
      Join(a, b)
    }
  }

  // ----- real_to_int -----

  /** Binary places of the mantissa below the integer's last bit. */
  function Places(t: Temp): int {
    16383 + 63 - t.Exp()
  }

  /** The magnitude as a fixed-point number with 32 fraction bits; later bits are lost. */
  function Fixed(t: Temp): nat
    requires Places(t) >= 0
  {
    Shr(t.mant * 0x1_0000_0000, Places(t))
  }

  /** The status word after a conversion: OE when the integer part does not fit. */
  function Overflowed(swd: bv16, t: Temp): bv16 {
    if Places(t) < 0 then swd | OE else swd
  }

  /** Whether the rounding step adds one, from the integer's low bit and the fraction word. */
  predicate RoundsUp(low: int, frac: int, neg: bool, mode: Rounding) {
    match mode
    case Nearest => frac + 0x7fff_ffff + low % 2 >= 0x1_0000_0000
    case Up => !neg && frac != 0
    case Down => neg && frac != 0
    case Chop => false
  }

  /** The rounding step on a fixed-point number. */
  function RoundFixed(w: nat, neg: bool, mode: Rounding): nat {
    var whole := w / 0x1_0000_0000;
    if RoundsUp(whole, w % 0x1_0000_0000, neg, mode) then whole + 1 else whole
  }

  /** The magnitude real_to_int stores. */
  function ToInt(t: Temp, mode: Rounding): nat {
    if Places(t) < 0 then 0 else RoundFixed(Fixed(t), t.Neg(), mode)
  }

  /** shrdl mid into lo, hi into mid, shrl hi: three words shifted right together. */
  method Shr96(lo: u32, mid: u32, hi: u32, k: nat) returns (lo': u32, mid': u32, hi': u32)
    requires k < 32
    ensures lo' + 0x1_0000_0000 * Join(mid', hi') == Shr(lo + 0x1_0000_0000 * Join(mid, hi), k)
  {
    hide Pow2, Shr;
    lo' := Shrd(lo, mid, k);
    mid', hi' := Shr64(mid, hi, k);
    LowWordShift(lo, mid, hi, k);
  }

  lemma LowWordShift(lo: u32, mid: u32, hi: u32, k: nat)
    requires k < 32
    ensures Shrd(lo, mid, k) + 0x1_0000_0000 * Shr(Join(mid, hi), k) == Shr(lo + 0x1_0000_0000 * Join(mid, hi), k)
  {
    hide Pow2, Shr;
    Pow2Add(k, 32 - k);
    Pow2Values();
    ShrIsDiv(Join(mid, hi), k);
    ShrIsDiv(lo + 0x1_0000_0000 * Join(mid, hi), k);
    Funnel(lo, Join(mid, hi), Pow2(k), Pow2(32 - k), 0x1_0000_0000);
    Funnel(lo, mid, Pow2(k), Pow2(32 - k), 0x1_0000_0000);
    ModMultiple(mid, hi, Pow2(k), Pow2(32 - k));
  }

  lemma ModMultiple(mid: nat, hi: nat, p: nat, q: nat)
    requires p > 0 && p * q == 0x1_0000_0000
    ensures (mid + 0x1_0000_0000 * hi) % p == mid % p
  {
    DivMod(mid, p);
    MulAssoc(hi, q, p);
    Distribute(mid / p, hi * q, p);
    DivUnique(mid + 0x1_0000_0000 * hi, p, mid / p + hi * q, mid % p);
  }

  lemma ShrBelow(m: nat, d: nat, k: nat)
    requires m < Pow2(d) * Pow2(k)
    ensures Shr(m, d) < Pow2(k)
  {
    ShrIsDiv(m, d);
    DivMod(m, Pow2(d));
    if m / Pow2(d) >= Pow2(k) {
      MulMono(Pow2(k), m / Pow2(d), Pow2(d));
    }
  }

  /** Ninety-six or more places leave nothing, and one or more leave room to round up. */
  lemma FixedBounds(t: Temp)
    requires Places(t) >= 0
    ensures Places(t) >= 96 ==> Fixed(t) == 0
    ensures Places(t) >= 1 ==> Fixed(t) < 0x8000_0000_0000_0000_0000_0000
    ensures Places(t) == 0 ==> Fixed(t) == t.mant * 0x1_0000_0000
  {
    hide Shr;
    var n := Places(t);
    Pow2Values();
    if n >= 96 {
      Pow2Add(64, 32);
      Pow2Mono(96, n);
      assert Pow2(0) == 1;
      ShrBelow(t.mant * 0x1_0000_0000, n, 0);
    } else if n >= 1 {
      Pow2Add(63, 32);
      assert Pow2(1) == 2;
      Pow2Mono(1, n);
      MulMono(2, Pow2(n), Pow2(95));
      ShrBelow(t.mant * 0x1_0000_0000, n, 95);
    } else {
      ShrNone(t.mant * 0x1_0000_0000);
    }
  }

  lemma ShrNone(m: nat)
    ensures Shr(m, 0) == m
  {}

  /** The word moves that start the shift: how far is left, and the three words so far. */
  lemma Loaded(lo: u32, hi: u32, n: nat)
    requires n < 96
    ensures var m := Join(lo, hi) * 0x1_0000_0000;
            && (n < 32 ==> Shr(0x1_0000_0000 * Join(lo, hi), n) == Shr(m, n))
            && (32 <= n < 64 ==> Shr(lo + 0x1_0000_0000 * Join(hi, 0), n - 32) == Shr(m, n))
            && (64 <= n ==> Shr(hi + 0x1_0000_0000 * Join(0, 0), n - 64) == Shr(m, n))
  {
    hide Pow2, Shr;
    if n >= 32 {
      Pow2Values();
      var m := Join(lo, hi) * 0x1_0000_0000;
      ShrIsDiv(m, 32);
      MulDivCancel(Join(lo, hi), 0x1_0000_0000);
      ShrAdd(m, 32, n - 32);
      if n >= 64 {
        JoinShift(lo, hi, n - 64);
      }
    }
  }

  /** One step of the rounding: add one to the two-word result. */
  method Increment(b: TempInt)
    requires Join(b.a, b.b) < 0xffff_ffff_ffff_ffff
    modifies b`a, b`b
    ensures Join(b.a, b.b) == old(Join(b.a, b.b)) + 1
  {
    b.a, b.b := Add64(b.a, b.b, 1, 0);
  }

  method RoundWords(fpu: I387, b: TempInt, underflow: u32)
    requires Join(b.a, b.b) < 0x8000_0000_0000_0000 || underflow == 0
    modifies b`a, b`b
    ensures Join(b.a, b.b) == RoundFixed(underflow + 0x1_0000_0000 * old(Join(b.a, b.b)), b.sign != 0, fpu.Mode())
  {
    hide I387.Mode, RoundFixed;
    SplitFixed(underflow, b.a, b.b, b.sign != 0, fpu.Mode());
    var up := match fpu.Mode()
      case Nearest => AddCarry(underflow, 0x7fff_ffff + b.a % 2, 0).1 == 1
      case Up => b.sign == 0 && underflow != 0
      case Down => b.sign != 0 && underflow != 0
      case Chop => false;
    if up {
      Increment(b);
    }
  }

  lemma SplitFixed(frac: u32, lo: u32, hi: u32, neg: bool, mode: Rounding)
    ensures RoundFixed(frac + 0x1_0000_0000 * Join(lo, hi), neg, mode)
         == if RoundsUp(lo % 2, frac, neg, mode) then Join(lo, hi) + 1 else Join(lo, hi)
  {
    DivUnique(frac + 0x1_0000_0000 * Join(lo, hi), 0x1_0000_0000, Join(lo, hi), frac);
  }

  /** The three words of the mantissa shifted right n places, the lowest being the fraction. */
  method LoadShifted(a: TempReal, n: nat) returns (underflow: u32, lo: u32, hi: u32)
    requires n < 96
    ensures underflow + 0x1_0000_0000 * Join(lo, hi) == Shr(a.Val().mant * 0x1_0000_0000, n)
  {
    hide Shr;
    Loaded(a.a, a.b, n);
    var shift := n;
    underflow, lo, hi := 0, 0, 0;
    if shift < 32 {
      hi := a.b;
      lo := a.a;
    } else if shift < 64 {
      lo := a.b;
      underflow := a.a;
      shift := shift - 32;
    } else {
      underflow := a.b;
      shift := shift - 64;
    }
    underflow, lo, hi := Shr96(underflow, lo, hi, shift);
  }

  /** real_to_int(a, b) */
  method RealToInt(fpu: I387, a: TempReal, b: TempInt)
    modifies fpu`swd, b
    ensures b.Mag() == ToInt(a.Val(), fpu.Mode())
    ensures b.sign == if a.Val().Neg() then 1 else 0
    ensures fpu.swd == Overflowed(old(fpu.swd), a.Val())
  {
    hide Shr, RoundFixed, ToInt;
    var shift := 16383 + 63 - Magnitude(a.exponent);
    b.a, b.b := 0, 0;
    b.sign := if a.exponent >= 0x8000 then 1 else 0;
    OutOfReach(a.Val(), fpu.Mode());
    if shift < 0 {
      fpu.SetFlags(OE);
      return;
    }
    if shift >= 96 {
      return;
    }
    var underflow;
    underflow, b.a, b.b := LoadShifted(a, shift);
    WithinReach(underflow, Join(b.a, b.b), a.Val(), fpu.Mode());
    RoundWords(fpu, b, underflow);
  }

  lemma OutOfReach(t: Temp, mode: Rounding)
    ensures Places(t) < 0 || Places(t) >= 96 ==> ToInt(t, mode) == 0
  {
    if Places(t) >= 96 {
      FixedBounds(t);
    }
  }

  lemma WithinReach(frac: u32, whole: u64, t: Temp, mode: Rounding)
    requires Places(t) >= 0 && frac + 0x1_0000_0000 * whole == Fixed(t)
    ensures whole < 0x8000_0000_0000_0000 || frac == 0
    ensures ToInt(t, mode) == RoundFixed(frac + 0x1_0000_0000 * whole, t.Neg(), mode)
  {
    FixedBounds(t);
  }

  // ----- When the rounding is correct -----

  /** Some of the bits below the 32 kept fraction bits were set. */
  ghost predicate LostBits(t: Temp)
    requires Places(t) >= 0
  {
    (t.mant * 0x1_0000_0000) % Pow2(Places(t)) != 0
  }

  /** The one way rounding goes wrong: the kept fraction reads exactly zero or exactly one
      half while lost bits say more, and the mode would then have rounded up. */
  ghost predicate Misjudged(t: Temp, mode: Rounding)
    requires Places(t) >= 0
  {
    var whole, frac := Fixed(t) / 0x1_0000_0000, Fixed(t) % 0x1_0000_0000;
    LostBits(t) && match mode
      case Nearest => frac == 0x8000_0000 && whole % 2 == 0
      case Up => !t.Neg() && frac == 0
      case Down => t.Neg() && frac == 0
      case Chop => false
  }

  /** How the exact magnitude m / p splits around the kept fixed-point number. */
  lemma SplitExact(m: nat, p: nat, w: nat, l: nat) returns (r: int)
    requires p > 0 && m * 0x1_0000_0000 == w * p + l && l < p
    ensures var whole, frac := w / 0x1_0000_0000, w % 0x1_0000_0000;
            && r == m - whole * p && 0 <= r < p
            && r * 0x1_0000_0000 == frac * p + l
  {
    var whole, frac := w / 0x1_0000_0000, w % 0x1_0000_0000;
    r := m - whole * p;
    Distribute(0x1_0000_0000 * whole, frac, p);
    MulAssoc(0x1_0000_0000, whole, p);
    MulMono(0, frac, p);
    MulMono(frac + 1, 0x1_0000_0000, p);
    Distribute(frac, 1, p);
  }

  lemma FracMultiple(frac: u32, p: nat, l: nat)
    requires l < p
    ensures frac < 0x8000_0000 ==> frac * p + l < 0x8000_0000 * p
    ensures frac == 0x8000_0000 ==> frac * p + l == 0x8000_0000 * p + l
    ensures frac > 0x8000_0000 ==> frac * p + l >= 0x8000_0000 * p + p
    ensures (frac == 0 && l == 0) <==> frac * p + l == 0
  {
    if frac < 0x8000_0000 {
      MulMono(frac + 1, 0x8000_0000, p);
      Distribute(frac, 1, p);
    } else if frac > 0x8000_0000 {
      MulMono(0x8000_0001, frac, p);
    }
    if frac > 0 {
      MulMono(1, frac, p);
    }
  }

  /** Rounding whole + r/p, where r/p = (frac + l/p) / 2^32. */
  lemma RoundingDecision(m: nat, p: nat, whole: nat, frac: u32, l: nat, r: int, neg: bool, mode: Rounding)
    requires p > 0 && l < p && r == m - whole * p && 0 <= r < p
    requires r * 0x1_0000_0000 == frac * p + l
    ensures var w := frac + 0x1_0000_0000 * whole;
            Correct(RoundFixed(w, neg, mode), m, p, neg, mode)
            <==> !(l != 0 && match mode
                             case Nearest => frac == 0x8000_0000 && whole % 2 == 0
                             case Up => !neg && frac == 0
                             case Down => neg && frac == 0
                             case Chop => false)
  {
    FracMultiple(frac, p, l);
    Distribute(whole, 1, p);
    var w := frac + 0x1_0000_0000 * whole;
    DivUnique(w, 0x1_0000_0000, whole, frac);
  }

  /** real_to_int rounds correctly in every mode, except exactly when lost bits are misjudged. */
  lemma ToIntCorrect(t: Temp, mode: Rounding)
    requires Places(t) >= 0
    ensures Correct(ToInt(t, mode), t.mant, Pow2(Places(t)), t.Neg(), mode) <==> !Misjudged(t, mode)
  {
    hide Pow2, Shr, Correct, RoundFixed;
    var p, w := Pow2(Places(t)), Fixed(t);
    ShrIsDiv(t.mant * 0x1_0000_0000, Places(t));
    DivMod(t.mant * 0x1_0000_0000, p);
    var l := (t.mant * 0x1_0000_0000) % p;
    var r := SplitExact(t.mant, p, w, l);
    RoundingDecision(t.mant, p, w / 0x1_0000_0000, w % 0x1_0000_0000, l, r, t.Neg(), mode);
  }

  /** n is the magnitude of t rounded in this mode, exactly unless lost bits are misjudged; with
      an exponent beyond 64 bits it is zero, with OE. */
  ghost predicate Delivered(t: Temp, mode: Rounding, n: nat, swd: bv16, swd': bv16) {
    if t.Exp() > 16446 then
      n == 0 && swd' == swd | OE
    else
      swd' == swd && (Correct(n, t.mant, Pow2(16446 - t.Exp()), t.Neg(), mode) <==> !Misjudged(t, mode))
  }

  lemma ToIntDelivered(t: Temp, mode: Rounding, swd: bv16)
    ensures Delivered(t, mode, ToInt(t, mode), swd, Overflowed(swd, t))
  {
    hide Correct, ToInt, Misjudged;
    if t.Exp() <= 16446 {
      ToIntCorrect(t, mode);
    } else {
      OutOfReach(t, mode);
    }
  }

  /** With at most 32 fraction bits nothing is lost, so the result is always correct. */
  lemma ToIntExactFraction(t: Temp, mode: Rounding)
    requires 0 <= Places(t) <= 32
    ensures Correct(ToInt(t, mode), t.mant, Pow2(Places(t)), t.Neg(), mode)
  {
    hide Pow2, Correct;
    var n := Places(t);
    Pow2Add(32 - n, n);
    Pow2Values();
    MulAssoc(t.mant, Pow2(32 - n), Pow2(n));
    MulDivCancel(t.mant * Pow2(32 - n), Pow2(n));
    ToIntCorrect(t, mode);
  }

  /** In nearest mode the error never exceeds 1/2 + 2^-32, whatever was lost. */
  lemma ToIntNearestError(t: Temp)
    requires Places(t) >= 0
    ensures var p := Pow2(Places(t));
            var e := (ToInt(t, Nearest) * p - t.mant) * 0x1_0000_0000;
            -0x8000_0001 * p <= e <= 0x8000_0001 * p
  {
    hide Pow2, Shr, RoundFixed;
    var p, w := Pow2(Places(t)), Fixed(t);
    ShrIsDiv(t.mant * 0x1_0000_0000, Places(t));
    DivMod(t.mant * 0x1_0000_0000, p);
    var l := (t.mant * 0x1_0000_0000) % p;
    var r := SplitExact(t.mant, p, w, l);
    NearestError(t.mant, p, w / 0x1_0000_0000, w % 0x1_0000_0000, l, r, t.Neg());
  }

  lemma NearestError(m: nat, p: nat, whole: nat, frac: u32, l: nat, r: int, neg: bool)
    requires p > 0 && l < p && r == m - whole * p && 0 <= r < p
    requires r * 0x1_0000_0000 == frac * p + l
    ensures var n := RoundFixed(frac + 0x1_0000_0000 * whole, neg, Nearest);
            -0x8000_0001 * p <= (n * p - m) * 0x1_0000_0000 <= 0x8000_0001 * p
  {
    FracMultiple(frac, p, l);
    Distribute(whole, 1, p);
    var w := frac + 0x1_0000_0000 * whole;
    DivUnique(w, 0x1_0000_0000, whole, frac);
  }

  /** Just over eight million and a half is taken down, because the last bit is not looked at. */
  lemma ToIntGoesWrong()
    ensures var t := Temp(16406, 0x8000_0080_0000_0001);
            && ToInt(t, Nearest) == 0x80_0000
            && !Correct(ToInt(t, Nearest), t.mant, Pow2(Places(t)), t.Neg(), Nearest)
  {
    hide Shr, Correct;
    var t := Temp(16406, 0x8000_0080_0000_0001);
    Pow2Add(8, 32);
    Pow2Values();
    ShrIsDiv(t.mant * 0x1_0000_0000, 40);
    DivUnique(t.mant * 0x1_0000_0000, 0x100_0000_0000, 0x80_0000_8000_0000, 0x1_0000_0000);
    assert Fixed(t) == 0x80_0000_8000_0000;
    ToIntCorrect(t, Nearest);
  }

  // ----- int_to_real -----

  function FromInt(neg: bool, m: u64): Temp {
    if m == 0 then
      Temp(0, 0)
    else
      LeadBound(m);
      Temp(Wrap16(16383 + 63 + (if neg then 0x8000 else 0) - Lead(m)), Raised(m))
  }

  method IntToReal(a: TempInt, b: TempReal)
    modifies b
    ensures b.Val() == FromInt(a.sign != 0, a.Mag())
  {
    b.a := a.a;
    b.b := a.b;
    if b.a != 0 || b.b != 0 {
      b.exponent := 16383 + 63 + (if a.sign != 0 then 0x8000 else 0);
    } else {
      b.exponent := 0;
      return;
    }
    RaiseMantissa(b);
  }

  /** Every 64-bit magnitude converts exactly, normalised. */
  lemma FromIntExact(neg: bool, m: u64)
    ensures FromInt(neg, m).Scaled() == (if neg then -1 else 1) * (m * Pow2(16446))
    ensures FromInt(neg, m).Normal() || FromInt(neg, m) == Temp(0, 0)
  {
    hide Pow2, Lead, Raised;
    if m > 0 {
      LeadBound(m);
      RaisedIs(m);
      ShiftValue(m, Lead(m), 16446 - Lead(m));
    }
  }

  /** An integer comes back unchanged in every rounding mode, with its sign unless it is zero. */
  lemma IntRoundTrip(neg: bool, m: u64, mode: Rounding)
    ensures Places(FromInt(neg, m)) >= 0
    ensures ToInt(FromInt(neg, m), mode) == m
    ensures FromInt(neg, m).Neg() == (neg && m > 0)
  {
    hide Pow2, Lead, Raised, Shr;
    if m == 0 {
      FixedBounds(Temp(0, 0));
    } else {
      var k := Lead(m);
      LeadBound(m);
      RaisedIs(m);
      ShrIsDiv(Raised(m) * 0x1_0000_0000, k);
      MulAssoc(0x1_0000_0000, m, Pow2(k));
      MulDivCancel(0x1_0000_0000 * m, Pow2(k));
    }
  }
}
