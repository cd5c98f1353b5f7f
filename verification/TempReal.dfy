/** The 80-bit temporary real of include/linux/math_emu.h and the number it denotes. */
module TempReals {
  import opened Words

  /** The contents of a temp_real: a sign-and-exponent word and a 64-bit mantissa. */
  datatype Temp = Temp(expo: u16, mant: u64) {
    predicate Neg() {
      expo >= 0x8000
    }

    function Exp(): (e: nat) {
      Magnitude(expo)
    }

    predicate Normal() {
      mant >= 0x8000_0000_0000_0000
    }

    predicate Zero() {
      mant == 0 && Exp() == 0
    }

    /** The denoted number is (-1)^sign * mant * 2^(exponent - 16446); scaled by
        2^16446 it is this integer, so comparisons and errors stay exact. */
    ghost function Scaled(): int {
      (if Neg() then -1 else 1) * (mant * Pow2(Exp()))
    }

    function Negated(): Temp {
      Temp(if Neg() then expo - 0x8000 else expo + 0x8000, mant)
    }
  }

  /** The denoted number has the sign of the sign bit, unless it is zero. */
  lemma ScaledSign(t: Temp)
    ensures t.Scaled() < 0 <==> t.mant > 0 && t.Neg()
    ensures t.Scaled() == 0 <==> t.mant == 0
  {
    if t.mant > 0 {
      MulMono(1, t.mant, Pow2(t.Exp()));
    }
  }

  /** exponent & 0x7fff */
  function Magnitude(expo: u16): (e: nat) {
    if expo >= 0x8000 then expo - 0x8000 else expo
  }

  /** How many doublings bring a non-zero mantissa to its normalised form. */
  function Lead(m: u64): (k: nat)
    requires m > 0
    decreases 0x1_0000_0000_0000_0000 - m
  {
    if m >= 0x8000_0000_0000_0000 then 0 else 1 + Lead(2 * m)
  }

  /** The mantissa those doublings end with. */
  function Raised(m: u64): (n: u64)
    requires m > 0
    ensures n >= 0x8000_0000_0000_0000
    decreases 0x1_0000_0000_0000_0000 - m
  {
    if m >= 0x8000_0000_0000_0000 then m else Raised(2 * m)
  }

  lemma {:induction false} RaisedIs(m: u64)
    requires m > 0
    ensures Raised(m) == m * Pow2(Lead(m))
    decreases 0x1_0000_0000_0000_0000 - m
  {
    if m < 0x8000_0000_0000_0000 {
      RaisedIs(2 * m);
      MulAssoc(m, 2, Pow2(Lead(2 * m)));
    }
  }

  lemma LeadBound(m: u64)
    requires m > 0
    ensures Lead(m) <= 63
  {
    RaisedIs(m);
    if Lead(m) > 63 {
      Pow2Mono(64, Lead(m));
      Pow2Values();
      MulMono(1, m, Pow2(Lead(m)));
    }
  }

  /** Doubling until the top bit is set or the exponent field runs out. */
  function Denorm(i: nat, m: u64): (r: (nat, u64))
    ensures r.0 <= i
    decreases i
  {
    if i > 0 && m < 0x8000_0000_0000_0000 then Denorm(i - 1, 2 * m) else (i, m)
  }

  lemma {:induction false} DenormExact(i: nat, m: u64)
    ensures Denorm(i, m).1 * Pow2(Denorm(i, m).0) == m * Pow2(i)
    decreases i
  {
    if i > 0 && m < 0x8000_0000_0000_0000 {
      DenormExact(i - 1, 2 * m);
      MulAssoc(m, 2, Pow2(i - 1));
    }
  }

  /** A non-zero mantissa stays non-zero, and is left unnormalised only at exponent zero. */
  lemma {:induction false} DenormPositive(i: nat, m: u64)
    requires m > 0
    ensures Denorm(i, m).1 > 0
    ensures Denorm(i, m).0 == 0 || Denorm(i, m).1 >= 0x8000_0000_0000_0000
    decreases i
  {
    if i > 0 && m < 0x8000_0000_0000_0000 {
      DenormPositive(i - 1, 2 * m);
    }
  }

  class TempReal {
    var a: u32
    var b: u32
    var exponent: u16

    constructor (a: u32, b: u32, exponent: u16)
      ensures this.a == a && this.b == b && this.exponent == exponent
    {
      this.a, this.b, this.exponent := a, b, exponent;
    }

    function Val(): Temp
      reads this
    {
      Temp(exponent, Join(a, b))
    }

    /** *this = *src */
    method Assign(src: TempReal)
      modifies this
      ensures a == old(src.a) && b == old(src.b) && exponent == old(src.exponent)
    {
      a, b, exponent := src.a, src.b, src.exponent;
    }
  }

  /** The loop of unsignify (kernel/math/add.c) and int_to_real (kernel/math/convert.c):
      double the mantissa, taking one from the exponent word, until its top bit is set. */
  method RaiseMantissa(r: TempReal)
    requires Join(r.a, r.b) > 0
    modifies r
    ensures Lead(old(Join(r.a, r.b))) <= 63
    ensures r.Val() == Temp(Wrap16(old(r.exponent) - Lead(old(Join(r.a, r.b)))), Raised(old(Join(r.a, r.b))))
  {
    ghost var e, m := r.exponent, Join(r.a, r.b);
    LeadBound(m);
    while !Negative(r.b)
      invariant Join(r.a, r.b) > 0
      invariant Raised(Join(r.a, r.b)) == Raised(m)
      invariant Lead(Join(r.a, r.b)) <= Lead(m)
      invariant r.exponent == Wrap16(e - Lead(m) + Lead(Join(r.a, r.b)))
      decreases Lead(Join(r.a, r.b))
    {
      r.exponent := Wrap16(r.exponent - 1);
      r.a, r.b := Add64(r.a, r.b, r.a, r.b);
    }
  }

  /** Doubling moves one unit from the exponent to the mantissa. */
  lemma ShiftValue(m: nat, k: nat, e: nat)
    ensures (m * Pow2(k)) * Pow2(e) == m * Pow2(e + k)
  {
    Pow2Add(k, e);
    MulAssoc(m, Pow2(k), Pow2(e));
  }

  /** Dropping the low j bits of a mantissa truncates towards zero by less than one unit. */
  lemma TruncateUnit(m: nat, e: nat, j: nat)
    ensures Shr(m, j) * Pow2(e + j) <= m * Pow2(e)
    ensures m * Pow2(e) < Shr(m, j) * Pow2(e + j) + Pow2(e + j)
    ensures m % Pow2(j) == 0 ==> m * Pow2(e) == Shr(m, j) * Pow2(e + j)
  {
    ShrIsDiv(m, j);
    Pow2Add(j, e);
    Truncate(m, Pow2(e), Pow2(j));
  }

  lemma Truncate(m: nat, u: nat, p: nat)
    requires u > 0 && p > 0
    ensures (m / p) * (p * u) <= m * u < (m / p) * (p * u) + p * u
    ensures m % p == 0 ==> m * u == (m / p) * (p * u)
  {
    DivMod(m, p);
    MulAssoc(m / p, p, u);
    Distribute((m / p) * p, m % p, u);
    MulMono(0, m % p, u);
    MulMono(m % p + 1, p, u);
    Distribute(m % p, 1, u);
  }
}
