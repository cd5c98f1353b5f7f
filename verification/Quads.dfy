/** The four-word (128-bit) registers that multiplication and division work on. */
module Quads {
  import opened Words
  import opened TempReals

  function Val4(c: seq<u32>): (v: u128)
    requires |c| == 4
  {
    Wide(Join(c[0], c[1]), Join(c[2], c[3]))
  }

  function Wide(lo: u64, hi: u64): (v: u128) {
    lo + 0x1_0000_0000_0000_0000 * hi
  }

  function TopHalf(v: u128): (m: u64) {
    v / 0x1_0000_0000_0000_0000
  }

  lemma TopHalfIs(c: seq<u32>)
    requires |c| == 4
    ensures TopHalf(Val4(c)) == Join(c[2], c[3])
  {
    DivUnique(Val4(c), 0x1_0000_0000_0000_0000, Join(c[2], c[3]), Join(c[0], c[1]));
  }

  lemma Val4Zero(c: seq<u32>)
    requires |c| == 4
    ensures Val4(c) == 0 <==> c[0] == 0 && c[1] == 0 && c[2] == 0 && c[3] == 0
  {}

  lemma Val4High(c: seq<u32>)
    requires |c| == 4 && c[0] == 0 && c[1] == 0
    ensures Val4(c) == Wide(0, Join(c[2], c[3])) == Join(c[2], c[3]) * 0x1_0000_0000_0000_0000
  {}

  /** Add every word to itself, passing the carries up (shift in mul.c, shift_left in div.c). */
  method ShiftLeft(c: array<u32>)
    requires c.Length == 4 && !Negative(c[3])
    modifies c
    ensures Val4(c[..]) == 2 * old(Val4(c[..]))
  {
    var (s0, k0) := AddCarry(c[0], c[0], 0);
    c[0] := s0;
    var (s1, k1) := AddCarry(c[1], c[1], k0);
    c[1] := s1;
    var (s2, k2) := AddCarry(c[2], c[2], k1);
    c[2] := s2;
    var (s3, k3) := AddCarry(c[3], c[3], k2);
    c[3] := s3;
  }

  /** Doubling a 128-bit number, one exponent step each, until its top bit is set or
      the exponent is used up. */
  function Scale(i: nat, p: u128): (r: (nat, u128))
    ensures r.0 <= i
    decreases i
  {
    if i > 0 && p < 0x8000_0000_0000_0000_0000_0000_0000_0000 then Scale(i - 1, 2 * p) else (i, p)
  }

  lemma {:induction false} ScaleTop(i: nat, p: u128)
    ensures Scale(i, p).0 == 0 || Scale(i, p).1 >= 0x8000_0000_0000_0000_0000_0000_0000_0000
    decreases i
  {
    if i > 0 && p < 0x8000_0000_0000_0000_0000_0000_0000_0000 {
      ScaleTop(i - 1, 2 * p);
    }
  }

  /** shrl $1,12(c) ; rcrl $1 down the other words. */
  method ShiftRight(c: array<u32>)
    requires c.Length == 4
    modifies c
    ensures Val4(c[..]) == old(Val4(c[..])) / 2
  {
    var k3, k2, k1 := c[3] % 2, c[2] % 2, c[1] % 2;
    c[3] := c[3] / 2;
    c[2] := c[2] / 2 + 0x8000_0000 * k3;
    c[1] := c[1] / 2 + 0x8000_0000 * k2;
    c[0] := c[0] / 2 + 0x8000_0000 * k1;
  }

  /** try_sub: b -= a across the four words; ok when nothing had to be borrowed. */
  method TrySub(a: array<u32>, b: array<u32>) returns (ok: bool)
    requires a.Length == 4 && b.Length == 4 && a != b
    modifies b
    ensures ok <==> old(Val4(b[..])) >= Val4(a[..])
    ensures ok ==> Val4(b[..]) == old(Val4(b[..])) - Val4(a[..])
  {
    var (s0, k0) := SubBorrow(b[0], a[0], 0);
    b[0] := s0;
    var (s1, k1) := SubBorrow(b[1], a[1], k0);
    b[1] := s1;
    var (s2, k2) := SubBorrow(b[2], a[2], k1);
    b[2] := s2;
    var (s3, k3) := SubBorrow(b[3], a[3], k2);
    b[3] := s3;
    ok := k3 == 0;
  }

  /** Every doubling is matched by its exponent step. */
  lemma {:induction false} ScaleExact(i: nat, p: u128)
    ensures Scale(i, p).1 * Pow2(Scale(i, p).0) == p * Pow2(i)
    decreases i
  {
    if i > 0 && p < 0x8000_0000_0000_0000_0000_0000_0000_0000 {
      ScaleExact(i - 1, 2 * p);
      MulAssoc(p, 2, Pow2(i - 1));
    }
  }

  /** With nothing in the low half, the top half is doubled on its own. */
  lemma {:induction false} ScaleHigh(i: nat, m: u64)
    ensures Scale(i, Wide(0, m)) == (Denorm(i, m).0, Wide(0, Denorm(i, m).1))
    decreases i
  {
    if i > 0 && m < 0x8000_0000_0000_0000 {
      ScaleHigh(i - 1, 2 * m);
    }
  }

  /** The loop that runs Scale on an array. */
  method ScaleUp(i0: nat, c: array<u32>) returns (i: nat)
    requires c.Length == 4
    modifies c
    ensures (i, Val4(c[..])) == Scale(i0, old(Val4(c[..])))
  {
    i := i0;
    while i != 0 && !Negative(c[3])
      invariant Scale(i, Val4(c[..])) == Scale(i0, old(Val4(c[..])))
    {
      i := i - 1;
      ShiftLeft(c);
    }
  }
}
