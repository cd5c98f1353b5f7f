/** The emulator's control and status words (include/linux/math_emu.h). */
module Fpu {

  datatype Rounding = Nearest | Down | Up | Chop

  /** cwd is the control word, swd the status word. */
  class I387 {
    var cwd: bv16
    var swd: bv16

    function Mode(): Rounding
      reads this
    {
      match (cwd >> 10) & 3
      case 0 => Nearest
      case 1 => Down
      case 2 => Up
      case _ => Chop
    }

    /** The mode is in bits 10 and 11 of the control word. */
    lemma ModeBits()
      ensures Mode() == Nearest <==> cwd & 0x0c00 == 0
      ensures Mode() == Down <==> cwd & 0x0c00 == 0x0400
      ensures Mode() == Up <==> cwd & 0x0c00 == 0x0800
      ensures Mode() == Chop <==> cwd & 0x0c00 == 0x0c00
    {}

    method SetFlags(mask: bv16)
      modifies this`swd
      ensures swd == old(swd) | mask
    {
      swd := swd | mask;
    }
  }

  const DE: bv16 := 0x0002
  const ZE: bv16 := 0x0004
  const OE: bv16 := 0x0008
  const UE: bv16 := 0x0010
  const PE: bv16 := 0x0020
  const C0: bv16 := 0x0100
  const C3: bv16 := 0x4000

  predicate Has(swd: bv16, flag: bv16) {
    swd & flag != 0
  }

  /** n is m / p rounded as IEEE 754 sections 4.1 and 4.2 ask, for a magnitude with a sign. */
  ghost predicate Correct(n: int, m: nat, p: int, neg: bool, mode: Rounding) {
    match mode
    case Nearest => NearestEven(n, m, p)
    case Up => if neg then TowardsZero(n, m, p) else AwayFromZero(n, m, p)
    case Down => if neg then AwayFromZero(n, m, p) else TowardsZero(n, m, p)
    case Chop => TowardsZero(n, m, p)
  }

  ghost predicate NearestEven(n: int, m: nat, p: int) {
    && -p <= 2 * (n * p - m) <= p
    && (2 * (n * p - m) == p || 2 * (n * p - m) == -p ==> n % 2 == 0)
  }

  ghost predicate TowardsZero(n: int, m: nat, p: int) {
    n * p <= m < n * p + p
  }

  ghost predicate AwayFromZero(n: int, m: nat, p: int) {
    n * p - p < m <= n * p
  }
}
