/** Powers of two, 32-bit machine words, and the multi-word operations that the
    emulator's inline assembly performs on them, with their carries written out. */
module Words {

  type u16 = x: int | 0 <= x < 0x1_0000
  type u32 = x: int | 0 <= x < 0x1_0000_0000
  type u64 = x: int | 0 <= x < 0x1_0000_0000_0000_0000

  type u128 = x: int | 0 <= x < 0x1_0000_0000_0000_0000_0000_0000_0000_0000

  function Pow2(n: nat): (p: int)
    ensures p > 0
  {
    if n == 0 then 1 else 2 * Pow2(n - 1)
  }

  lemma {:induction false} Pow2Add(m: nat, n: nat)
    ensures Pow2(m + n) == Pow2(m) * Pow2(n)
  {
    if m > 0 {
      Pow2Add(m - 1, n);
      assert Pow2(m + n) == 2 * Pow2((m - 1) + n);
      MulAssoc(2, Pow2(m - 1), Pow2(n));
    }
  }

  lemma {:induction false} Pow2Mono(m: nat, n: nat)
    requires m <= n
    ensures Pow2(m) <= Pow2(n)
    decreases n - m
  {
    if m < n {
      Pow2Mono(m, n - 1);
    }
  }

  lemma Pow2Values()
    ensures Pow2(2) == 4 && Pow2(8) == 0x100 && Pow2(11) == 0x800 && Pow2(16) == 0x1_0000
    ensures Pow2(31) == 0x8000_0000 && Pow2(32) == 0x1_0000_0000
    ensures Pow2(63) == 0x8000_0000_0000_0000 && Pow2(64) == 0x1_0000_0000_0000_0000
  {
    hide Pow2;
    SmallPowers();
    Pow2Add(4, 4);
    Pow2Add(8, 3);
    Pow2Add(8, 8);
    Pow2Add(16, 16);
    Pow2Add(1, 31);
    Pow2Add(32, 32);
    Pow2Add(1, 63);
  }

  lemma SmallPowers()
    ensures Pow2(1) == 2 && Pow2(2) == 4 && Pow2(3) == 8 && Pow2(4) == 16
  {}

  /** m shifted right d places. */
  function Shr(m: nat, d: nat): (q: nat)
    ensures q <= m
  {
    if d == 0 then m else Shr(m / 2, d - 1)
  }

  lemma {:induction false} ShrIsDiv(m: nat, d: nat)
    ensures Shr(m, d) == m / Pow2(d)
  {
    if d > 0 {
      ShrIsDiv(m / 2, d - 1);
      DivDiv(m, 2, Pow2(d - 1));
    }
  }

  lemma {:induction false} ShrAdd(m: nat, d: nat, k: nat)
    ensures Shr(Shr(m, d), k) == Shr(m, d + k)
  {
    if d > 0 {
      ShrAdd(m / 2, d - 1, k);
    }
  }

  // Arithmetic facts stated once, so that the proofs below stay linear.

  lemma MulAssoc(a: int, b: int, c: int)
    ensures a * (b * c) == (a * b) * c
  {}

  lemma Distribute(p: int, q: int, u: int)
    ensures (p + q) * u == p * u + q * u
  {}

  lemma MulMono(a: int, b: int, c: int)
    requires a <= b && c >= 0
    ensures a * c <= b * c
  {}

  lemma DivMod(x: int, d: int)
    requires d > 0
    ensures x == (x / d) * d + x % d && 0 <= x % d < d
  {}

  lemma DivUnique(x: int, d: int, q: int, r: int)
    requires d > 0 && x == q * d + r && 0 <= r < d
    ensures x / d == q && x % d == r
  {
    DivMod(x, d);
    var e := x / d - q;
    assert e * d == (x / d) * d - q * d;
    assert e * d == r - x % d;
    if e >= 1 {
      MulMono(1, e, d);
    } else if e <= -1 {
      MulMono(e, -1, d);
    }
  }

  lemma DivDiv(x: int, a: int, b: int)
    requires x >= 0 && a > 0 && b > 0
    ensures a * b > 0
    ensures (x / a) / b == x / (a * b)
  {
    MulMono(1, a, b);
    DivMod(x, a);
    DivMod(x / a, b);
    var q, r := (x / a) / b, (x / a) % b;
    assert x == (q * b + r) * a + x % a;
    assert (q * b + r) * a == q * (a * b) + r * a;
    MulMono(r + 1, b, a);
    assert (r + 1) * a == r * a + a && b * a == a * b;
    MulMono(0, r, a);
    DivUnique(x, a * b, q, r * a + x % a);
  }

  lemma DivMono(x: int, y: int, d: int)
    requires x <= y && d > 0
    ensures x / d <= y / d
  {
    DivMod(x, d);
    DivMod(y, d);
    if x / d > y / d {
      MulMono(y / d + 1, x / d, d);
    }
  }

  lemma MulDivCancel(x: int, d: int)
    requires d > 0
    ensures (x * d) / d == x && (x * d) % d == 0
  {
    DivUnique(x * d, d, x, 0);
  }

  // Registers that wrap, for results at most one register width out of range.

  function Wrap16(n: int): (w: u16)
    requires -0x1_0000 <= n < 0x2_0000
  {
    if n < 0 then n + 0x1_0000 else if n >= 0x1_0000 then n - 0x1_0000 else n
  }

  function Wrap64(n: int): (w: u64)
    requires -0x1_0000_0000_0000_0000 <= n < 0x2_0000_0000_0000_0000
  {
    if n < 0 then n + 0x1_0000_0000_0000_0000
    else if n >= 0x1_0000_0000_0000_0000 then n - 0x1_0000_0000_0000_0000
    else n
  }

  // Two 32-bit words read as one 64-bit number.

  function Join(lo: u32, hi: u32): (m: u64) {
    lo + 0x1_0000_0000 * hi
  }

  function Low(m: u64): (lo: u32) {
    m % 0x1_0000_0000
  }

  function High(m: u64): (hi: u32) {
    m / 0x1_0000_0000
  }

  lemma JoinZero()
    ensures Join(0, 0) == 0
  {}

  lemma JoinShift(lo: u32, hi: u32, k: nat)
    ensures Shr(Join(lo, hi), 32 + k) == Shr(hi, k)
  {
    ShrAdd(Join(lo, hi), 32, k);
    ShrIsDiv(Join(lo, hi), 32);
    Pow2Values();
    DivUnique(Join(lo, hi), 0x1_0000_0000, hi, lo);
  }

  /** A word with its sign bit set is negative when the source reads it as a long. */
  predicate Negative(w: u32) {
    w >= 0x8000_0000
  }

  /** addl / adcl: the sum word and the carry flag. */
  function AddCarry(x: u32, y: u32, c: int): (r: (u32, int))
    requires 0 <= c <= 1
    ensures 0 <= r.1 <= 1 && r.0 + 0x1_0000_0000 * r.1 == x + y + c
  {
    var s := x + y + c;
    if s >= 0x1_0000_0000 then (s - 0x1_0000_0000, 1) else (s, 0)
  }

  /** subl / sbbl: the difference word and the borrow flag. */
  function SubBorrow(x: u32, y: u32, c: int): (r: (u32, int))
    requires 0 <= c <= 1
    ensures 0 <= r.1 <= 1 && r.0 - 0x1_0000_0000 * r.1 == x - y - c
  {
    var s := x - y - c;
    if s < 0 then (s + 0x1_0000_0000, 1) else (s, 0)
  }

  /** notl */
  function Not(x: u32): u32 {
    0xffff_ffff - x
  }

  /** addl lo2,lo ; adcl hi2,hi */
  method Add64(lo: u32, hi: u32, lo2: u32, hi2: u32) returns (lo': u32, hi': u32)
    ensures Join(lo', hi') == Wrap64(Join(lo, hi) + Join(lo2, hi2))
  {
    var (s, c) := AddCarry(lo, lo2, 0);
    var (t, d) := AddCarry(hi, hi2, c);
    lo', hi' := s, t;
  }

  /** notl lo ; notl hi ; addl $1,lo ; adcl $0,hi */
  method Neg64(lo: u32, hi: u32) returns (lo': u32, hi': u32)
    ensures Join(lo', hi') == Wrap64(0 - Join(lo, hi))
  {
    lo', hi' := Add64(Not(lo), Not(hi), 1, 0);
  }

  /** shrdl k,hi,lo: the low k bits of hi enter lo from the top. */
  function Shrd(lo: u32, hi: u32, k: nat): (w: u32)
    requires k < 32
    ensures w + 0x1_0000_0000 * (hi / Pow2(k)) == Join(lo, hi) / Pow2(k)
  {
    ShrdFacts(lo, hi, k);
    lo / Pow2(k) + (hi % Pow2(k)) * Pow2(32 - k)
  }

  lemma ShrdFacts(lo: u32, hi: u32, k: nat)
    requires k < 32
    ensures 0 <= lo / Pow2(k) + (hi % Pow2(k)) * Pow2(32 - k) < 0x1_0000_0000
    ensures lo / Pow2(k) + (hi % Pow2(k)) * Pow2(32 - k) + 0x1_0000_0000 * (hi / Pow2(k)) == Join(lo, hi) / Pow2(k)
  {
    Pow2Add(k, 32 - k);
    Pow2Values();
    Funnel(lo, hi, Pow2(k), Pow2(32 - k), 0x1_0000_0000);
  }

  lemma Funnel(lo: int, hi: int, p: int, q: int, w: int)
    requires p > 0 && q > 0 && w == p * q && 0 <= lo < w && 0 <= hi
    ensures 0 <= lo / p + (hi % p) * q < w
    ensures lo / p + (hi % p) * q + w * (hi / p) == (lo + w * hi) / p
  {
    DivMod(lo, p);
    DivMod(hi, p);
    FunnelBound(lo, hi, p, q);
    FunnelSum(lo / p, lo % p, hi / p, hi % p, p, q);
    DivUnique(lo + w * hi, p, lo / p + (hi % p) * q + w * (hi / p), lo % p);
  }

  lemma Cancel(a: int, b: int, c: int)
    requires c > 0 && a * c < b * c
    ensures a < b
  {
    if a >= b {
      MulMono(b, a, c);
    }
  }

  lemma FunnelBound(lo: int, hi: int, p: int, q: int)
    requires p > 0 && q > 0 && 0 <= lo < p * q && 0 <= hi
    ensures 0 <= lo / p + (hi % p) * q < p * q
  {
    DivMod(lo, p);
    DivMod(hi, p);
    DivMono(0, lo, p);
    Cancel(lo / p, q, p);
    MulMono(0, hi % p, q);
    MulMono(hi % p, p - 1, q);
    Distribute(p, -1, q);
  }

  lemma FunnelSum(l: int, l': int, h: int, r: int, p: int, q: int)
    ensures (l * p + l') + (p * q) * (h * p + r) == (l + r * q + (p * q) * h) * p + l'
  {
    var w := p * q;
    Distribute(l + r * q, w * h, p);
    Distribute(l, r * q, p);
    MulAssoc(w, h, p);
    Distribute(h * p, r, w);
    MulAssoc(r, q, p);
    MulAssoc(r, p, q);
  }

  /** shrdl k,hi,lo ; shrl k,hi */
  method Shr64(lo: u32, hi: u32, k: nat) returns (lo': u32, hi': u32)
    requires k < 32
    ensures Join(lo', hi') == Shr(Join(lo, hi), k)
  {
    ShrIsDiv(Join(lo, hi), k);
    DivMod(hi, Pow2(k));
    DivMono(0, hi, Pow2(k));
    if hi / Pow2(k) > hi {
      MulMono(hi + 1, hi / Pow2(k), Pow2(k));
      MulMono(1, Pow2(k), hi + 1);
      assert false;
    }
    lo', hi' := Shrd(lo, hi, k), hi / Pow2(k);
  }
}
