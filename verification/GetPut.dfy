/** Integers and packed BCD to and from user memory (kernel/math/get_put.c). */
module GetPut {
  import opened Words
  import opened TempReals
  import opened Fpu
  import opened Convert

  type u8 = x: int | 0 <= x < 0x100

  // ----- Two's complement integers -----

  /** Sign and magnitude of a width-n two's complement word, 2^n given as modulus. */
  function SplitSign(w: nat, modulus: nat): (bool, nat)
    requires w < modulus
  {
    if 2 * w >= modulus then (true, modulus - w) else (false, w)
  }

  function GetInt(w: nat, modulus: nat): Temp
    requires w < modulus <= 0x1_0000_0000_0000_0000 && modulus > 0
  {
    FromInt(SplitSign(w, modulus).0, SplitSign(w, modulus).1)
  }

  /** A signed magnitude reduced to a register. */
  function Residue(m: nat, neg: bool, modulus: nat): nat
    requires modulus > 0
  {
    (if neg then 0 - m else m) % modulus
  }

  /** The low bits of the signed integer real_to_int delivers. */
  function PutInt(t: Temp, modulus: nat, mode: Rounding): nat
    requires modulus > 0
  {
    Residue(ToInt(t, mode), t.Neg(), modulus)
  }

  /** A two's complement word of any of the widths is loaded as the number it stands for. */
  lemma GetIntValue(w: nat, modulus: nat)
    requires w < modulus <= 0x1_0000_0000_0000_0000
    ensures GetInt(w, modulus).Scaled() == (if 2 * w >= modulus then w - modulus else w) * Pow2(16446)
  {
    hide Pow2, FromInt, Temp.Scaled;
    FromIntExact(SplitSign(w, modulus).0, SplitSign(w, modulus).1);
    assert (-1) * ((modulus - w) * Pow2(16446)) == (w - modulus) * Pow2(16446);
  }

  method GetShortInt(w: u16, tmp: TempReal)
    modifies tmp
    ensures tmp.Val() == GetInt(w, 0x1_0000)
  {
    var ti := new TempInt(if w >= 0x8000 then w + 0xffff_0000 else w, 0, 0);
    ti.sign := if Negative(ti.a) then 1 else 0;
    if ti.sign != 0 {
      ti.a := 0x1_0000_0000 - ti.a;
    }
    IntToReal(ti, tmp);
  }

  method GetLongInt(w: u32, tmp: TempReal)
    modifies tmp
    ensures tmp.Val() == GetInt(w, 0x1_0000_0000)
  {
    var ti := new TempInt(w, 0, 0);
    ti.sign := if Negative(ti.a) then 1 else 0;
    if ti.sign != 0 {
      ti.a := 0x1_0000_0000 - ti.a;
    }
    IntToReal(ti, tmp);
  }

  method GetLongLongInt(lo: u32, hi: u32, tmp: TempReal)
    modifies tmp
    ensures tmp.Val() == GetInt(Join(lo, hi), 0x1_0000_0000_0000_0000)
  {
    var ti := new TempInt(lo, hi, 0);
    ti.sign := if Negative(ti.b) then 1 else 0;
    if ti.sign != 0 {
      ti.a, ti.b := Neg64(ti.a, ti.b);
    }
    IntToReal(ti, tmp);
  }

  /** The word left in ti.a, negated when the sign says so. */
  method SignedLow(ti: TempInt) returns (w: u32)
    ensures w == Residue(ti.a, ti.sign != 0, 0x1_0000_0000)
  {
    w := if ti.sign != 0 then (if ti.a == 0 then 0 else 0x1_0000_0000 - ti.a) else ti.a;
  }

  lemma ModShift(x: int, h: int, d: int)
    requires d > 0
    ensures (x + h * d) % d == x % d
  {
    DivMod(x, d);
    Distribute(x / d, h, d);
    DivUnique(x + h * d, d, x / d + h, x % d);
  }

  /** Dropping whole multiples of the modulus before or after the sign is all the same. */
  lemma ResidueLow(lo: nat, h: nat, neg: bool, modulus: nat)
    requires modulus > 0
    ensures Residue(lo + h * modulus, neg, modulus) == Residue(lo, neg, modulus)
  {
    if neg {
      ModShift(0 - lo, 0 - h, modulus);
      assert (0 - h) * modulus == 0 - h * modulus;
    } else {
      ModShift(lo, h, modulus);
    }
  }

  lemma ResidueTwice(lo: nat, neg: bool)
    ensures Residue(lo, neg, 0x1_0000_0000) % 0x1_0000 == Residue(lo, neg, 0x1_0000)
  {
    var x := if neg then 0 - lo else lo;
    DivMod(x, 0x1_0000_0000);
    ModShift(x % 0x1_0000_0000, (x / 0x1_0000_0000) * 0x1_0000, 0x1_0000);
  }

  /** The bits stored are those of the signed result, modulo the width. */
  lemma PutIntIs(t: Temp, modulus: nat, mode: Rounding) returns (k: int)
    requires modulus > 0
    ensures PutInt(t, modulus, mode) < modulus
    ensures PutInt(t, modulus, mode) + k * modulus == (if t.Neg() then -1 else 1) * ToInt(t, mode)
  {
    hide ToInt;
    var n: int := (if t.Neg() then -1 else 1) * ToInt(t, mode);
    DivMod(n, modulus);
    k := n / modulus;
  }

  method PutShortInt(fpu: I387, tmp: TempReal) returns (w: u16)
    modifies fpu`swd
    ensures w == PutInt(tmp.Val(), 0x1_0000, fpu.Mode())
    ensures fpu.swd == Overflowed(old(fpu.swd), tmp.Val())
  {
    hide Overflowed;
    var ti := new TempInt(0, 0, 0);
    RealToInt(fpu, tmp, ti);
    ResidueLow(ti.a, ti.b * 0x1_0000, ti.sign != 0, 0x1_0000);
    ResidueTwice(ti.a, ti.sign != 0);
    var v := SignedLow(ti);
    w := v % 0x1_0000;
  }

  method PutLongInt(fpu: I387, tmp: TempReal) returns (w: u32)
    modifies fpu`swd
    ensures w == PutInt(tmp.Val(), 0x1_0000_0000, fpu.Mode())
    ensures fpu.swd == Overflowed(old(fpu.swd), tmp.Val())
  {
    hide Overflowed;
    var ti := new TempInt(0, 0, 0);
    RealToInt(fpu, tmp, ti);
    ResidueLow(ti.a, ti.b, ti.sign != 0, 0x1_0000_0000);
    w := SignedLow(ti);
  }

  /** A 64-bit register holds the whole residue. */
  lemma WholeResidue(m: u64)
    ensures Residue(m, true, 0x1_0000_0000_0000_0000) == Wrap64(0 - m)
    ensures Residue(m, false, 0x1_0000_0000_0000_0000) == m
  {
    DivUnique(m, 0x1_0000_0000_0000_0000, 0, m);
    DivUnique(0 - m, 0x1_0000_0000_0000_0000, if m == 0 then 0 else -1, Wrap64(0 - m));
  }

  method PutLongLongInt(fpu: I387, tmp: TempReal) returns (lo: u32, hi: u32)
    modifies fpu`swd
    ensures Join(lo, hi) == PutInt(tmp.Val(), 0x1_0000_0000_0000_0000, fpu.Mode())
    ensures fpu.swd == Overflowed(old(fpu.swd), tmp.Val())
  {
    hide ToInt, Join, Overflowed, Wrap64, Residue;
    var ti := new TempInt(0, 0, 0);
    RealToInt(fpu, tmp, ti);
    lo, hi := ti.a, ti.b;
    if ti.sign != 0 {
      lo, hi := Neg64(lo, hi);
    }
    WholeResidue(ti.Mag());
  }

  /** Every 16-, 32- and 64-bit integer, the most negative one included, survives the trip
      through the temporary real in every rounding mode. */
  lemma IntegerRoundTrip(w: nat, modulus: nat, mode: Rounding)
    requires modulus in {0x1_0000, 0x1_0000_0000, 0x1_0000_0000_0000_0000} && w < modulus
    ensures PutInt(GetInt(w, modulus), modulus, mode) == w
  {
    hide ToInt, FromInt, Residue;
    var (neg, m) := SplitSign(w, modulus);
    IntRoundTrip(neg, m, mode);
    ResidueBack(w, modulus);
  }

  /** Magnitude and sign put together again. */
  lemma ResidueBack(w: nat, modulus: nat)
    requires w < modulus
    ensures Residue(modulus - w, true, modulus) == w && Residue(w, false, modulus) == w
  {
    DivUnique(0 - (modulus - w), modulus, -1, w);
    DivUnique(w, modulus, 0, w);
  }

  // ----- Packed BCD -----

  function HighNibble(c: u8): nat {
    c / 16
  }

  function LowNibble(c: u8): nat {
    c % 16
  }

  /** The number a packed digit pair stands for (also when a nibble is no digit). */
  function Pair(c: u8): (v: nat)
    ensures v <= 165
  {
    10 * HighNibble(c) + LowNibble(c)
  }

  /** The number held in the bytes from k upwards, least significant first. */
  function Number(bytes: seq<u8>, k: nat): (v: nat)
    requires k <= 9 <= |bytes|
    decreases 9 - k
  {
    if k == 9 then 0 else Pair(bytes[k]) + 100 * Number(bytes, k + 1)
  }

  function Power100(n: nat): nat {
    if n == 0 then 1 else 100 * Power100(n - 1)
  }

  lemma {:induction false} NumberBound(bytes: seq<u8>, k: nat)
    requires k <= 9 <= |bytes|
    ensures 99 * Number(bytes, k) <= 165 * (Power100(9 - k) - 1)
    decreases 9 - k
  {
    if k < 9 {
      NumberBound(bytes, k + 1);
    }
  }

  /** Even with invalid nibbles the digits never overflow 64 bits. */
  lemma NumberFits(bytes: seq<u8>, k: nat)
    requires k <= 9 <= |bytes|
    ensures 100 * Number(bytes, k) + 165 < 0x1_0000_0000_0000_0000 || k == 0
    ensures Number(bytes, k) < 0x1_0000_0000_0000_0000
    ensures k == 9 ==> Number(bytes, k) == 0
  {
    hide Power100;
    NumberBound(bytes, k);
    Power100Values();
    if k > 0 {
      PowerMono(9 - k, 8);
    } else {
      PowerMono(9 - k, 9);
    }
  }

  lemma Power100Values()
    ensures Power100(8) == 1_0000_0000_0000_0000 && Power100(9) == 100_0000_0000_0000_0000
  {
    assert Power100(4) == 100 * Power100(3) == 10000 * Power100(2) == 1_0000_0000;
    assert Power100(6) == 100 * Power100(5) == 10000 * Power100(4);
    assert Power100(8) == 100 * Power100(7) == 10000 * Power100(6);
  }

  lemma NumberStep(bytes: seq<u8>, k: nat)
    requires k < 9 <= |bytes|
    ensures Number(bytes, k) == 100 * Number(bytes, k + 1) + Pair(bytes[k])
    ensures 100 * Number(bytes, k + 1) + 165 < 0x1_0000_0000_0000_0000
  {
    NumberFits(bytes, k + 1);
  }

  lemma PowerMono(m: nat, n: nat)
    requires m <= n
    ensures Power100(m) <= Power100(n)
  {}

  function GetBCDValue(bytes: seq<u8>): Temp
    requires |bytes| >= 10
  {
    NumberFits(bytes, 0);
    FromInt(bytes[9] >= 0x80, Number(bytes, 0))
  }

  lemma PairIs(c: u8)
    requires ValidPair(c)
    ensures Pair(c) == 10 * (c / 16) + c % 16 < 100
  {}

  /** The digits of 100^k and 10 * 100^k. */
  function PairOf(v: nat, k: nat): nat {
    PowerMono(0, k);
    (v / Power100(k)) % 100
  }

  lemma FirstPair(n: nat, pair: nat)
    requires pair < 100
    ensures PairOf(100 * n + pair, 0) == pair
  {
    DivUnique(100 * n + pair, 1, 100 * n + pair, 0);
    DivUnique(100 * n + pair, 100, n, pair);
  }

  lemma NextPair(n: nat, pair: nat, k: nat)
    requires pair < 100
    ensures PairOf(100 * n + pair, k + 1) == PairOf(n, k)
  {
    PowerMono(0, k);
    assert Power100(k + 1) == 100 * Power100(k);
    DivUnique(100 * n + pair, 100, n, pair);
    hide Power100;
    DivTwice(100 * n + pair, 100, Power100(k));
  }

  lemma {:induction false} PairAt(bytes: seq<u8>, k: nat, i: nat)
    requires k <= i < 9 <= |bytes| && forall j :: k <= j < 9 ==> ValidPair(bytes[j])
    ensures PairOf(Number(bytes, k), i - k) == 10 * (bytes[i] / 16) + bytes[i] % 16
    decreases i - k
  {
    hide Number, Pair, ValidPair, PairOf;
    var n, pair := Number(bytes, k + 1), Pair(bytes[k]);
    NumberStep(bytes, k);
    PairIs(bytes[k]);
    FirstPair(n, pair);
    if k < i {
      PairAt(bytes, k + 1, i);
      NextPair(n, pair, i - k - 1);
    }
  }

  /** A packed image is loaded as the number whose decimal digits, from the right, are the low and
      high halves of its bytes in turn, negative under a sign byte of 0x80. */
  lemma GetBCDDigits(bytes: seq<u8>, i: nat) returns (v: nat)
    requires |bytes| == 10 && ValidBCD(bytes) && i < 9
    ensures GetBCDValue(bytes).Scaled() == (if bytes[9] == 0x80 then -1 else 1) * (v * Pow2(16446))
    ensures v < Power100(9) && Power100(i) > 0
    ensures (v / Power100(i)) % 100 == 10 * (bytes[i] / 16) + bytes[i] % 16
  {
    hide Pow2, FromInt, Temp.Scaled, Number, Power100;
    v := Number(bytes, 0);
    NumberFits(bytes, 0);
    FromIntExact(bytes[9] >= 0x80, v);
    PairAt(bytes, 0, i);
    PowerMono(0, i);
    PowerZero();
    Below(bytes, 0);
  }

  lemma PowerZero()
    ensures Power100(0) == 1
  {}

  lemma {:induction false} Below(bytes: seq<u8>, k: nat)
    requires k <= 9 <= |bytes| && forall j :: k <= j < 9 ==> ValidPair(bytes[j])
    ensures Number(bytes, k) < Power100(9 - k)
    decreases 9 - k
  {
    if k < 9 {
      Below(bytes, k + 1);
    }
  }

  lemma DivTwice(a: nat, b: nat, c: nat)
    requires b > 0 && c > 0
    ensures b * c > 0 && a / (b * c) == (a / b) / c
  {
    var q, s := a / b, (a / b) / c;
    DivMod(a, b);
    DivMod(q, c);
    MulMono(1, c, b);
    MulAssoc(s, c, b);
    Distribute(s * c, q % c, b);
    MulMono(q % c + 1, c, b);
    Distribute(q % c, 1, b);
    DivUnique(a, b * c, s, (q % c) * b + a % b);
  }

  /** MUL10: doubled, saved, doubled twice more, the saved value added back. */
  method Mul10(lo: u32, hi: u32) returns (lo': u32, hi': u32)
    requires 10 * Join(lo, hi) < 0x1_0000_0000_0000_0000
    ensures Join(lo', hi') == 10 * Join(lo, hi)
  {
    lo', hi' := Add64(lo, hi, lo, hi);
    var ecx, ebx := lo', hi';
    lo', hi' := Add64(lo', hi', lo', hi');
    lo', hi' := Add64(lo', hi', lo', hi');
    lo', hi' := Add64(lo', hi', ecx, ebx);
  }

  /** Append one packed digit pair to the number. */
  method AppendPair(i: TempInt, c: u8)
    requires 100 * i.Mag() + 165 < 0x1_0000_0000_0000_0000
    modifies i`a, i`b
    ensures i.Mag() == 100 * old(i.Mag()) + Pair(c)
  {
    i.a, i.b := Mul10(i.a, i.b);
    i.a, i.b := Add64(i.a, i.b, HighNibble(c), 0);
    i.a, i.b := Mul10(i.a, i.b);
    i.a, i.b := Add64(i.a, i.b, LowNibble(c), 0);
  }

  method GetBCD(mem: array<u8>, base: nat, tmp: TempReal)
    requires base + 10 <= mem.Length
    modifies tmp
    ensures tmp.Val() == GetBCDValue(mem[base..base + 10])
  {
    hide FromInt, Pair, Number, Join;
    JoinZero();
    ghost var bytes := mem[base..base + 10];
    var addr := base + 9;
    var sign := if mem[addr] >= 0x80 then 0x80 else 0;
    var i := new TempInt(0, 0, sign);
    addr := addr - 1;
    NumberFits(bytes, 9);
    for k := 0 to 9
      invariant addr == base + 8 - k && i.sign == sign
      invariant i.Mag() == Number(bytes, 9 - k)
    {
      var c := mem[addr];
      assert c == bytes[8 - k];
      addr := addr - 1;
      NumberStep(bytes, 8 - k);
      AppendPair(i, c);
    }
    IntToReal(i, tmp);
  }

  /** divl by ten, twice: quotient words and remainder. */
  method Div10(lo: u32, hi: u32) returns (lo': u32, hi': u32, rem: nat)
    ensures Join(lo', hi') == Join(lo, hi) / 10 && rem == Join(lo, hi) % 10
  {
    var edx := hi % 10;
    hi' := hi / 10;
    rem := Join(lo, edx) % 10;
    lo' := Join(lo, edx) / 10;
    DivUnique(Join(lo, hi), 10, Join(lo', hi'), rem);
  }

  /** The packed byte for the two lowest decimal digits. */
  function PackedByte(v: nat): u8 {
    v % 10 + 16 * ((v / 10) % 10)
  }

  function PackedBytes(v: nat, n: nat): (bytes: seq<u8>)
    ensures |bytes| == n
  {
    if n == 0 then [] else [PackedByte(v)] + PackedBytes(v / 100, n - 1)
  }

  function PutBCDValue(t: Temp, mode: Rounding): (bytes: seq<u8>)
    ensures |bytes| == 10
  {
    PackedBytes(ToInt(t, mode), 9) + [if t.Neg() then 0x80 else 0]
  }

  function Reduced(v: nat, k: nat): nat {
    if k == 0 then v else Reduced(v, k - 1) / 100
  }

  lemma {:induction false} PackedAt(v: nat, n: nat, k: nat)
    requires k < n
    ensures PackedBytes(v, n)[k] == PackedByte(Reduced(v, k))
  {
    if k > 0 {
      PackedAt(v / 100, n - 1, k - 1);
      ReducedShift(v, k - 1);
    }
  }

  lemma {:induction false} ReducedShift(v: nat, k: nat)
    ensures Reduced(v / 100, k) == Reduced(v, k + 1)
  {
    if k > 0 {
      ReducedShift(v, k - 1);
    }
  }

  /** Take the two lowest decimal digits off the number, packed. */
  method TakePair(i: TempInt) returns (c: u8)
    modifies i`a, i`b
    ensures c == PackedByte(old(i.Mag())) && i.Mag() == old(i.Mag()) / 100
  {
    var rem;
    i.a, i.b, rem := Div10(i.a, i.b);
    c := rem;
    i.a, i.b, rem := Div10(i.a, i.b);
    c := c + 16 * rem;
  }

  method PutBCD(fpu: I387, tmp: TempReal, mem: array<u8>, base: nat)
    requires base + 10 <= mem.Length
    modifies fpu`swd, mem
    ensures mem[base..base + 10] == PutBCDValue(tmp.Val(), fpu.Mode())
    ensures fpu.swd == Overflowed(old(fpu.swd), tmp.Val())
    ensures mem[..base] == old(mem[..base]) && mem[base + 10..] == old(mem[base + 10..])
  {
    hide ToInt, PackedByte, Join, Overflowed;
    var i := new TempInt(0, 0, 0);
    RealToInt(fpu, tmp, i);
    ghost var v, swd := i.Mag(), fpu.swd;
    mem[base + 9] := if i.sign != 0 then 0x80 else 0;
    var addr := base;
    for k := 0 to 9
      invariant addr == base + k && i.Mag() == Reduced(v, k) && fpu.swd == swd
      invariant mem[base + 9] == if tmp.Val().Neg() then 0x80 else 0
      invariant forall j :: 0 <= j < k ==> mem[base + j] == PackedByte(Reduced(v, j))
      invariant forall j :: 0 <= j < mem.Length && !(base <= j < base + 10) ==> mem[j] == old(mem[j])
    {
      var c := TakePair(i);
      mem[addr] := c;
      addr := addr + 1;
    }
    ghost var bytes := PutBCDValue(tmp.Val(), fpu.Mode());
    forall j | 0 <= j < 10 ensures mem[base..base + 10][j] == bytes[j] {
      if j < 9 {
        PackedAt(v, 9, j);
        assert mem[base + j] == PackedByte(Reduced(v, j));
      } else {
        assert mem[base + 9] == bytes[9];
      }
    }
    assert mem[base..base + 10] == bytes;
  }

  // ----- The BCD round trip -----

  predicate ValidPair(c: u8) {
    HighNibble(c) <= 9 && LowNibble(c) <= 9
  }

  /** Eighteen decimal digits under a sign byte of 0x00 or 0x80. */
  predicate ValidBCD(bytes: seq<u8>)
    requires |bytes| == 10
  {
    (forall k :: 0 <= k < 9 ==> ValidPair(bytes[k])) && (bytes[9] == 0 || bytes[9] == 0x80)
  }

  predicate NegativeZero(bytes: seq<u8>)
    requires |bytes| == 10
  {
    Number(bytes, 0) == 0 && bytes[9] == 0x80
  }

  lemma PackedPair(c: u8, rest: nat)
    requires ValidPair(c)
    ensures PackedByte(Pair(c) + 100 * rest) == c && (Pair(c) + 100 * rest) / 100 == rest
  {
    hide PackedByte;
    DivMod(c, 16);
    PackedDigits(c / 16, c % 16, rest);
  }

  lemma PackedDigits(tens: nat, ones: nat, rest: nat)
    requires tens <= 9 && ones <= 9
    ensures PackedByte(10 * tens + ones + 100 * rest) == 16 * tens + ones
    ensures (10 * tens + ones + 100 * rest) / 100 == rest
  {
    var v := 10 * tens + ones + 100 * rest;
    DivUnique(v, 10, 10 * rest + tens, ones);
    DivUnique(10 * rest + tens, 10, rest, tens);
    DivUnique(v, 100, rest, 10 * tens + ones);
  }

  lemma {:induction false} RepacksFrom(bytes: seq<u8>, k: nat)
    requires k <= 9 <= |bytes| && forall j :: k <= j < 9 ==> ValidPair(bytes[j])
    ensures PackedBytes(Number(bytes, k), 9 - k) == bytes[k..9]
    decreases 9 - k
  {
    if k < 9 {
      RepacksFrom(bytes, k + 1);
      PackedPair(bytes[k], Number(bytes, k + 1));
      assert bytes[k..9] == [bytes[k]] + bytes[k + 1..9];
    }
  }

  lemma {:induction false} PackedValid(v: nat, n: nat, k: nat)
    requires k < n
    ensures ValidPair(PackedBytes(v, n)[k])
  {
    PackedAt(v, n, k);
  }

  /** Ten bytes survive get_BCD then put_BCD unchanged exactly when they are valid packed BCD
      and not negative zero, in each of the four rounding modes. */
  lemma BCDRoundTrip(bytes: seq<u8>, mode: Rounding)
    requires |bytes| == 10
    ensures PutBCDValue(GetBCDValue(bytes), mode) == bytes <==> ValidBCD(bytes) && !NegativeZero(bytes)
  {
    hide ToInt, FromInt, Number;
    NumberFits(bytes, 0);
    var v := Number(bytes, 0);
    IntRoundTrip(bytes[9] >= 0x80, v, mode);
    var out := PutBCDValue(GetBCDValue(bytes), mode);
    assert out[..9] == PackedBytes(v, 9) && out[9] == if bytes[9] >= 0x80 && v > 0 then 0x80 else 0;
    if ValidBCD(bytes) {
      RepacksFrom(bytes, 0);
      assert bytes == bytes[0..9] + [bytes[9]];
    }
    if out == bytes {
      forall k | 0 <= k < 9 ensures ValidPair(bytes[k]) {
        PackedValid(v, 9, k);
        assert bytes[k] == out[..9][k];
      }
    }
  }

  lemma {:induction false} NoNumber(bytes: seq<u8>, k: nat)
    requires k <= 9 <= |bytes| && forall j :: k <= j < 9 ==> bytes[j] == 0
    ensures Number(bytes, k) == 0
    decreases 9 - k
  {
    if k < 9 {
      NoNumber(bytes, k + 1);
    }
  }

  /** Nine zero bytes and a sign do not survive: they come back as plus zero. */
  lemma NegativeZeroLost(image: seq<u8>, mode: Rounding)
    requires image == [0, 0, 0, 0, 0, 0, 0, 0, 0, 0x80]
    ensures PutBCDValue(GetBCDValue(image), mode) != image
  {
    hide PutBCDValue, GetBCDValue, Number, ValidBCD;
    NoNumber(image, 0);
    BCDRoundTrip(image, mode);
  }

  /** What put_BCD stores: byte i holds the digits of 10^(2i) and 10^(2i+1), the higher one above, and
      the last byte the sign, for every operand and in every mode. */
  lemma PutBCDDigits(t: Temp, mode: Rounding, i: nat)
    requires i < 9
    ensures var v, bytes := ToInt(t, mode), PutBCDValue(t, mode);
            && Power100(i) > 0
            && bytes[i] % 16 == (v / Power100(i)) % 10
            && bytes[i] / 16 == (v / Power100(i) / 10) % 10
            && bytes[9] == if t.Neg() then 0x80 else 0
  {
    hide ToInt, PackedBytes, PackedByte, Power100;
    var v := ToInt(t, mode);
    PackedAt(v, 9, i);
    ReducedIs(v, i);
    var w := Reduced(v, i);
    assert PutBCDValue(t, mode)[i] == PackedBytes(v, 9)[i];
    PackedIs(w);
  }

  lemma PackedIs(w: nat)
    ensures PackedByte(w) % 16 == w % 10 && PackedByte(w) / 16 == (w / 10) % 10
  {}

  lemma {:induction false} ReducedIs(v: nat, k: nat)
    ensures Power100(k) > 0 && Reduced(v, k) == v / Power100(k)
  {
    if k > 0 {
      ReducedIs(v, k - 1);
      DivSteps(v, Power100(k - 1), 100);
    } else {
      DivUnique(v, 1, v, 0);
    }
  }

  lemma DivSteps(a: nat, b: nat, c: nat)
    requires b > 0 && c > 0
    ensures c * b > 0 && (a / b) / c == a / (c * b)
  {
    assert c * b == b * c;
    DivTwice(a, b, c);
  }
}
