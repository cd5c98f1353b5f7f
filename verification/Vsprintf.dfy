/** Number formatting (kernel/vsprintf.c). */
module Vsprintf {
  import opened Words

  datatype Flags = Flags(zeropad: bool, sign: bool, plus: bool, space: bool, left: bool, special: bool, small: bool)

  datatype Option<T> = None | Some(value: T)

  type i32 = x: int | -0x8000_0000 <= x < 0x8000_0000

  function Max(a: int, b: int): int {
    if a >= b then a else b
  }

  /** digits[d]: 0-9, then A-Z, or a-z for SMALL. */
  function DigitChar(d: nat, f: Flags): char
    requires d < 36
  {
    if d < 10 then '0' + d as char else (if f.small then 'a' else 'A') + (d - 10) as char
  }

  // ----- What number writes -----

  /** The sign character, if any. */
  function SignText(num: i32, f: Flags): string {
    if f.sign && num < 0 then "-" else if f.plus then "+" else if f.space then " " else ""
  }

  /** The value divided out by do_div, which reads num as unsigned. */
  function Magnitude(num: i32, f: Flags): (m: nat)
    ensures m < 0x1_0000_0000
  {
    if num >= 0 then num else if f.sign then 0 - num else num + 0x1_0000_0000
  }

  function PrefixText(base: nat, f: Flags): string {
    if f.special && base == 8 then "0"
    else if f.special && base == 16 then ['0', DigitChar(33, f)]
    else ""
  }

  /** do_div: the quotient and the remainder, a digit of the base. */
  function DoDiv(n: nat, base: nat): (r: (nat, nat))
    requires 2 <= base <= 36
    ensures n == r.0 * base + r.1 && r.1 < base
    ensures 2 * r.0 <= n && (n > 0 ==> r.0 < n)
  {
    DivMod(n, base);
    MulMono(2, base, n / base);
    (n / base, n % base)
  }

  /** Digits of n, least significant first; none for zero. */
  function LowFirst(n: nat, base: nat, f: Flags): (ds: string)
    requires 2 <= base <= 36
  {
    if n == 0 then "" else
      var (q, d) := DoDiv(n, base);
      [DigitChar(d, f)] + LowFirst(q, base, f)
  }

  function Reverse(s: string): (r: string)
    ensures |r| == |s|
  {
    if s == "" then "" else Reverse(s[1..]) + [s[0]]
  }

  function DigitText(n: nat, base: nat, f: Flags): (ds: string)
    requires 2 <= base <= 36
  {
    if n == 0 then "0" else Reverse(LowFirst(n, base, f))
  }

  function Repeat(c: char, n: int): (s: string)
    ensures |s| == Max(n, 0)
  {
    if n <= 0 then "" else [c] + Repeat(c, n - 1)
  }

  /** Precision zeros and digits. */
  function Body(num: i32, base: nat, precision: int, f: Flags): string
    requires 2 <= base <= 36
  {
    var ds := DigitText(Magnitude(num, f), base, f);
    Repeat('0', precision - |ds|) + ds
  }

  /** What is left of the field width for padding. */
  function Room(num: i32, base: nat, size: int, precision: int, f: Flags): int
    requires 2 <= base <= 36
  {
    size - |SignText(num, f)| - |PrefixText(base, f)| - Max(precision, |DigitText(Magnitude(num, f), base, f)|)
  }

  /** Everything before the digits: padding on the left of the sign or after it, or none. */
  function Lead(sign: string, prefix: string, room: int, f: Flags): string {
    if f.left then sign + prefix
    else if f.zeropad then sign + prefix + Repeat('0', room)
    else Repeat(' ', room) + sign + prefix
  }

  function Image(num: i32, base: nat, size: int, precision: int, f: Flags): string
    requires 2 <= base <= 36
  {
    var room := Room(num, base, size, precision, f);
    Lead(SignText(num, f), PrefixText(base, f), room, f)
    + Body(num, base, precision, f)
    + (if f.left then Repeat(' ', room) else "")
  }

  // ----- The routine -----

  lemma {:induction false} RepeatMore(c: char, n: nat)
    ensures Repeat(c, n) + [c] == Repeat(c, n + 1)
  {
    if n > 0 {
      RepeatMore(c, n - 1);
    }
  }

  /** Nothing at or past the end of the output has changed. */
  ghost predicate Untouched(before: string, after: string, end: nat) {
    |before| == |after| && forall j :: end <= j < |before| ==> before[j] == after[j]
  }

  /** while (size-- > 0) *str++ = c; */
  method Fill(buf: array<char>, str: nat, size: int, c: char) returns (str': nat, size': int)
    requires str + Max(size, 0) <= buf.Length
    modifies buf
    ensures str' == str + Max(size, 0) && size' == (if size > 0 then 0 else size) - 1
    ensures buf[..str'] == old(buf[..str]) + Repeat(c, size) && Untouched(old(buf[..]), buf[..], str')
  {
    str', size' := str, size;
    while size' > 0
      invariant if size > 0 then 0 <= size' <= size else size' == size
      invariant str' == str + size - size' <= buf.Length
      invariant buf[..str'] == old(buf[..str]) + Repeat(c, size - size') && Untouched(old(buf[..]), buf[..], str')
    {
      RepeatMore(c, size - size');
      buf[str'] := c;
      str', size' := str' + 1, size' - 1;
    }
    size' := size' - 1;
  }

  /** *str++ = s[0]; *str++ = s[1]; ... for the one or two characters of a sign or prefix. */
  method Put(buf: array<char>, str: nat, s: string) returns (str': nat)
    requires str + |s| <= buf.Length
    modifies buf
    ensures str' == str + |s| && buf[..str'] == old(buf[..str]) + s && Untouched(old(buf[..]), buf[..], str')
  {
    str' := str;
    for k := 0 to |s|
      invariant str' == str + k && buf[..str'] == old(buf[..str]) + s[..k] && Untouched(old(buf[..]), buf[..], str')
    {
      buf[str'] := s[k];
      str' := str' + 1;
    }
  }

  /** At most n digits below 2^n, in every base. */
  lemma {:induction false} FewDigits(m: nat, base: nat, f: Flags, n: nat)
    requires 2 <= base <= 36 && m < Pow2(n)
    ensures |LowFirst(m, base, f)| <= n
  {
    if m > 0 {
      hide DoDiv;
      FewDigits(DoDiv(m, base).0, base, f, n - 1);
    }
  }

  lemma NoDigits(base: nat, f: Flags)
    requires 2 <= base <= 36
    ensures LowFirst(0, base, f) == ""
  {}

  lemma FirstDigit(n: nat, base: nat, f: Flags)
    requires 2 <= base <= 36 && n > 0
    ensures var (q, d) := DoDiv(n, base);
            LowFirst(n, base, f) == [DigitChar(d, f)] + LowFirst(q, base, f)
  {}

  lemma ReverseOne(c: char)
    ensures Reverse([c]) == [c]
  {}

  /** The conversion loop into tmp, least significant digit first. */
  method Convert(num: nat, base: nat, f: Flags) returns (tmp: array<char>, i: nat)
    requires 2 <= base <= 36 && num < 0x1_0000_0000
    ensures fresh(tmp) && 1 <= i <= tmp.Length && Reverse(tmp[..i]) == DigitText(num, base, f)
  {
    hide DoDiv, DigitChar, LowFirst, Reverse, Pow2;
    NoDigits(base, f);
    tmp := new char[36](_ => ' ');
    i := 0;
    if num == 0 {
      tmp[0] := '0';
      i := 1;
      assert tmp[..1] == ['0'];
      ReverseOne('0');
      return;
    }
    Pow2Values();
    FewDigits(num, base, f, 32);
    var n := num;
    while n != 0
      invariant i + |LowFirst(n, base, f)| <= 32
      invariant tmp[..i] + LowFirst(n, base, f) == LowFirst(num, base, f)
    {
      ghost var before := tmp[..i];
      FirstDigit(n, base, f);
      var (q, d) := DoDiv(n, base);
      tmp[i] := DigitChar(d, f);
      assert tmp[..i + 1] == before + [DigitChar(d, f)];
      n := q;
      i := i + 1;
    }
    FirstDigit(num, base, f);
    assert tmp[..i] == LowFirst(num, base, f);
  }

  /** while (i-- > 0) *str++ = tmp[i]; */
  method PutReversed(buf: array<char>, str: nat, tmp: array<char>, i: nat) returns (str': nat)
    requires buf != tmp && i <= tmp.Length && str + i <= buf.Length
    modifies buf
    ensures str' == str + i && buf[..str'] == old(buf[..str]) + Reverse(tmp[..i])
    ensures Untouched(old(buf[..]), buf[..], str')
  {
    str' := str;
    var k := i;
    while k > 0
      invariant 0 <= k <= i && str' == str + i - k && Untouched(old(buf[..]), buf[..], str')
      invariant buf[..str'] + Reverse(tmp[..k]) == old(buf[..str]) + Reverse(tmp[..i])
    {
      k := k - 1;
      ReverseLast(tmp[..k + 1]);
      assert tmp[..k + 1][..k] == tmp[..k];
      buf[str'] := tmp[k];
      str' := str' + 1;
      assert buf[..str'] == buf[..str' - 1] + [tmp[k]];
    }
  }

  lemma {:induction false} ReverseLast(s: string)
    requires s != ""
    ensures Reverse(s) == [s[|s| - 1]] + Reverse(s[..|s| - 1])
  {
    if |s| > 1 {
      ReverseLast(s[1..]);
      assert s[1..][..|s| - 2] == s[..|s| - 1][1..];
    }
  }

  /** The part of number that writes padding, sign and prefix. */
  method PutLead(buf: array<char>, str: nat, sign: string, prefix: string, room: int, f: Flags)
    returns (str': nat, size: int)
    requires str + |Lead(sign, prefix, room, f)| <= buf.Length
    modifies buf
    ensures str' == str + |Lead(sign, prefix, room, f)|
    ensures buf[..str'] == old(buf[..str]) + Lead(sign, prefix, room, f) && Untouched(old(buf[..]), buf[..], str')
    ensures if f.left then size == room else size < 0
  {
    hide Untouched, Repeat, Lead;
    ghost var b0 := buf[..];
    LeadParts(sign, prefix, room, f);
    str', size := PadLeft(buf, str, room, f);
    ghost var b1, s1 := buf[..], str';
    str' := PutTwo(buf, str', sign, prefix);
    ghost var b2, s2 := buf[..], str';
    UntouchedTrans(b0, b1, b2, s1, s2);
    assert b2[..s2] == b0[..str] + (PadText(room, f) + sign + prefix);
    if !f.left {
      str', size := Fill(buf, str', size, if f.zeropad then '0' else ' ');
      UntouchedTrans(b0, b2, buf[..], s2, str');
    }
  }

  /** The spaces before the sign. */
  function PadText(room: int, f: Flags): string {
    if f.zeropad || f.left then "" else Repeat(' ', room)
  }

  /** What follows the prefix. */
  function ZeroText(room: int, f: Flags): string {
    if f.zeropad && !f.left then Repeat('0', room) else ""
  }

  lemma LeadParts(sign: string, prefix: string, room: int, f: Flags)
    ensures Lead(sign, prefix, room, f) == PadText(room, f) + sign + prefix + ZeroText(room, f)
    ensures forall size: int :: size < 0 ==> Repeat(' ', size) == ""
  {
    assert "" + sign + prefix == sign + prefix;
    assert Repeat(' ', room) + sign + prefix + "" == Repeat(' ', room) + sign + prefix;
  }

  method PadLeft(buf: array<char>, str: nat, room: int, f: Flags) returns (str': nat, size: int)
    requires str + |PadText(room, f)| <= buf.Length
    modifies buf
    ensures str' == str + |PadText(room, f)| && buf[..str'] == old(buf[..str]) + PadText(room, f)
    ensures Untouched(old(buf[..]), buf[..], str')
    ensures if f.zeropad || f.left then size == room else size < 0
  {
    hide Untouched, Repeat;
    UntouchedAll(buf[..], str);
    str', size := str, room;
    if !f.zeropad && !f.left {
      str', size := Fill(buf, str', size, ' ');
    }
  }

  method PutTwo(buf: array<char>, str: nat, sign: string, prefix: string) returns (str': nat)
    requires str + |sign| + |prefix| <= buf.Length
    modifies buf
    ensures str' == str + |sign| + |prefix| && buf[..str'] == old(buf[..str]) + (sign + prefix)
    ensures Untouched(old(buf[..]), buf[..], str')
  {
    str' := Put(buf, str, sign);
    str' := Put(buf, str', prefix);
  }

  lemma UntouchedAll(b: string, end: nat)
    ensures Untouched(b, b, end)
  {}

  lemma UntouchedTrans(a: string, b: string, c: string, e: nat, end: nat)
    requires Untouched(a, b, e) && Untouched(b, c, end) && e <= end
    ensures Untouched(a, c, end)
  {}

  /** The part that writes precision zeros, the digits in tmp, and the padding on the right. */
  method PutTail(buf: array<char>, str: nat, zeros: int, tmp: array<char>, i: nat, size: int) returns (str': nat)
    requires buf != tmp && i <= tmp.Length && str + Max(zeros, 0) + i + Max(size, 0) <= buf.Length
    modifies buf
    ensures str' == str + Max(zeros, 0) + i + Max(size, 0)
    ensures buf[..str'] == old(buf[..str]) + ((Repeat('0', zeros) + Reverse(tmp[..i])) + Repeat(' ', size))
    ensures Untouched(old(buf[..]), buf[..], str')
  {
    var rest;
    str', rest := Fill(buf, str, zeros, '0');
    str' := PutReversed(buf, str', tmp, i);
    str', rest := Fill(buf, str', size, ' ');
  }

  /** number(str, num, base, size, precision, type): None is the null pointer for a bad base,
      otherwise the end of what was written at str. */
  method Number(buf: array<char>, str: nat, num: i32, base: int, size: int, precision: int, f: Flags)
    returns (end: Option<nat>)
    requires 2 <= base <= 36 ==> str + |Image(num, base, size, precision, f)| <= buf.Length
    modifies buf
    ensures end.None? <==> base < 2 || base > 36
    ensures end.None? ==> buf[..] == old(buf[..])
    ensures end.Some? ==> end.value == str + |Image(num, base, size, precision, f)|
    ensures end.Some? ==> buf[..end.value] == old(buf[..str]) + Image(num, base, size, precision, f)
    ensures end.Some? ==> Untouched(old(buf[..]), buf[..], end.value)
  {
    if base < 2 || base > 36 {
      return None;
    }
    hide DigitText, LowFirst, Reverse, SignText, PrefixText, Magnitude, Lead, Image, Repeat;
    var sign, prefix := SignText(num, f), PrefixText(base, f);
    var left := size - |sign| - |prefix|;
    var tmp, i := Convert(Magnitude(num, f), base, f);
    assert |Reverse(tmp[..i])| == i;
    var digits := if i > precision then i else precision;
    left := left - digits;
    ghost var before, lead := buf[..str], Lead(sign, prefix, left, f);
    ImageParts(num, base, size, precision, f, i, left);
    var p;
    p, left := PutLead(buf, str, sign, prefix, left, f);
    ghost var tail := Repeat('0', digits - i) + Reverse(tmp[..i]) + Repeat(' ', left);
    p := PutTail(buf, p, digits - i, tmp, i, left);
    Associate(before, lead, tail);
    end := Some(p);
  }

  lemma Associate(a: string, b: string, c: string)
    ensures (a + b) + c == a + (b + c)
  {}

  lemma ImageParts(num: i32, base: nat, size: int, precision: int, f: Flags, i: nat, room: int)
    requires 2 <= base <= 36 && i == |DigitText(Magnitude(num, f), base, f)|
    requires room == size - |SignText(num, f)| - |PrefixText(base, f)| - Max(i, precision)
    ensures forall left: int :: (if f.left then left == room else left < 0) ==>
              Image(num, base, size, precision, f) == Lead(SignText(num, f), PrefixText(base, f), room, f)
                + (Repeat('0', Max(i, precision) - i) + DigitText(Magnitude(num, f), base, f) + Repeat(' ', left))
  {
    hide DigitText, LowFirst, Reverse, SignText, PrefixText, Magnitude, Lead;
    assert Repeat('0', Max(i, precision) - i) == Repeat('0', precision - i);
    forall left: int | if f.left then left == room else left < 0
      ensures Repeat(' ', left) == if f.left then Repeat(' ', room) else ""
    {}
    var lead, right := Lead(SignText(num, f), PrefixText(base, f), room, f), if f.left then Repeat(' ', room) else "";
    Associate(lead, Body(num, base, precision, f), right);
  }

  // ----- What that means -----

  /** The width law: the field width, or more if sign, prefix, digits and precision need it. */
  lemma Width(num: i32, base: nat, size: int, precision: int, f: Flags)
    requires 2 <= base <= 36
    ensures |Image(num, base, size, precision, f)|
         == Max(size, |SignText(num, f)| + |PrefixText(base, f)|
                      + Max(|DigitText(Magnitude(num, f), base, f)|, precision))
  {
    hide DigitText, SignText, PrefixText, Magnitude;
  }

  // An independent reader of formatted numbers.

  /** The value of a digit character, 36 for any other character. */
  function DigitValue(c: char): nat {
    if '0' <= c <= '9' then (c - '0') as nat
    else if 'A' <= c <= 'Z' then (c - 'A') as nat + 10
    else if 'a' <= c <= 'z' then (c - 'a') as nat + 10
    else 36
  }

  /** Reads digits of the base up to the first other character. */
  function ReadDigits(s: string, base: nat, acc: nat): nat {
    if s == "" || DigitValue(s[0]) >= base then acc else ReadDigits(s[1..], base, acc * base + DigitValue(s[0]))
  }

  function SkipSpaces(s: string): string {
    if s != "" && s[0] == ' ' then SkipSpaces(s[1..]) else s
  }

  /** Leading spaces, an optional sign, the 0x of a special base-16 number, digits. */
  function Parse(s: string, base: nat, special: bool): int {
    var t := SkipSpaces(s);
    var signed := t != "" && (t[0] == '-' || t[0] == '+');
    var u := if signed then t[1..] else t;
    var v := if special && base == 16 && |u| >= 2 then u[2..] else u;
    var n := ReadDigits(v, base, 0);
    if signed && t[0] == '-' then 0 - n else n
  }

  lemma DigitReads(d: nat, f: Flags)
    requires d < 36
    ensures DigitValue(DigitChar(d, f)) == d
  {}

  /** Digits followed by something else read back as their number. */
  lemma {:induction false} DigitsRead(n: nat, base: nat, f: Flags, rest: string)
    requires 2 <= base <= 36
    ensures ReadDigits(Reverse(LowFirst(n, base, f)) + rest, base, 0) == ReadDigits(rest, base, n)
    decreases n
  {
    if n == 0 {
      assert Reverse(LowFirst(n, base, f)) + rest == rest;
    } else {
      var (q, d) := DoDiv(n, base);
      var c, low := DigitChar(d, f), LowFirst(q, base, f);
      DigitReads(d, f);
      hide DigitChar, DigitValue;
      assert LowFirst(n, base, f)[1..] == low;
      DigitsRead(q, base, f, [c] + rest);
      assert Reverse(LowFirst(n, base, f)) + rest == Reverse(low) + ([c] + rest);
      assert ([c] + rest)[1..] == rest;
    }
  }

  lemma {:induction false} ZerosRead(k: int, base: nat, rest: string)
    requires 2 <= base
    ensures ReadDigits(Repeat('0', k) + rest, base, 0) == ReadDigits(rest, base, 0)
  {
    if k <= 0 {
      assert Repeat('0', k) + rest == rest;
    } else {
      ZerosRead(k - 1, base, rest);
      assert (Repeat('0', k) + rest)[1..] == Repeat('0', k - 1) + rest;
    }
  }

  lemma {:induction false} SpacesSkipped(k: int, rest: string)
    ensures SkipSpaces(Repeat(' ', k) + rest) == SkipSpaces(rest)
  {
    if k <= 0 {
      assert Repeat(' ', k) + rest == rest;
    } else {
      SpacesSkipped(k - 1, rest);
      assert (Repeat(' ', k) + rest)[1..] == Repeat(' ', k - 1) + rest;
    }
  }

  // ----- number, then the reader -----

  /** From the first digit on: prefix and precision zeros, digits, trailing padding. */
  function DigitsOn(k1: int, k2: int, ds: string, k3: int): string {
    Repeat('0', k1) + (Repeat('0', k2) + (ds + Repeat(' ', k3)))
  }

  lemma DigitsOnReads(m: nat, base: nat, f: Flags, k1: int, k2: int, k3: int, rest: string)
    requires 2 <= base <= 36 && (rest == "" || DigitValue(rest[0]) >= base)
    ensures ReadDigits(DigitsOn(k1, k2, DigitText(m, base, f), k3) + rest, base, 0) == m
  {
    hide DigitText, LowFirst, Reverse;
    var ds, pad := DigitText(m, base, f), Repeat(' ', k3) + rest;
    assert DigitsOn(k1, k2, ds, k3) + rest == Repeat('0', k1) + (Repeat('0', k2) + (ds + pad));
    ZerosRead(k1, base, Repeat('0', k2) + (ds + pad));
    ZerosRead(k2, base, ds + pad);
    assert pad == "" || DigitValue(pad[0]) >= base;
    TextReads(m, base, f, pad);
  }

  lemma TextReads(m: nat, base: nat, f: Flags, rest: string)
    requires 2 <= base <= 36 && (rest == "" || DigitValue(rest[0]) >= base)
    ensures ReadDigits(DigitText(m, base, f) + rest, base, 0) == m
  {
    if m == 0 {
      assert (['0'] + rest)[1..] == rest;
    } else {
      DigitsRead(m, base, f, rest);
    }
  }

  lemma {:induction false} AllDigits(n: nat, base: nat, f: Flags)
    requires 2 <= base <= 36
    ensures forall c :: c in LowFirst(n, base, f) ==> DigitValue(c) < 36
  {
    if n > 0 {
      var (q, d) := DoDiv(n, base);
      AllDigits(q, base, f);
      DigitReads(d, f);
    }
  }

  lemma {:induction false} ReverseHas(s: string)
    ensures forall c :: c in Reverse(s) ==> c in s
  {
    if s != "" {
      ReverseHas(s[1..]);
    }
  }

  lemma StartsWithDigit(m: nat, base: nat, f: Flags, k1: int, k2: int, k3: int)
    requires 2 <= base <= 36
    ensures var t := DigitsOn(k1, k2, DigitText(m, base, f), k3);
            t != "" && DigitValue(t[0]) < 36
  {
    AllDigits(m, base, f);
    ReverseHas(LowFirst(m, base, f));
    var ds := DigitText(m, base, f);
    assert ds != "" && ds[0] in ds && DigitValue(ds[0]) < 36;
    assert k1 > 0 ==> DigitsOn(k1, k2, ds, k3)[0] == '0';
    assert k1 <= 0 && k2 > 0 ==> DigitsOn(k1, k2, ds, k3)[0] == '0';
  }

  /** The layout of the output, piece by piece. */
  lemma Layout(num: i32, base: nat, size: int, precision: int, f: Flags)
    requires 2 <= base <= 36
    ensures var room, ds := Room(num, base, size, precision, f), DigitText(Magnitude(num, f), base, f);
            Image(num, base, size, precision, f)
            == Repeat(' ', if f.left || f.zeropad then 0 else room)
               + (SignText(num, f) + (PrefixText(base, f)
               + DigitsOn(if f.zeropad && !f.left then room else 0, precision - |ds|, ds, if f.left then room else 0)))
  {
    hide DigitText, SignText, PrefixText, Magnitude, Room;
  }

  /** What the reader sees once the spaces are gone. */
  lemma ParseSigned(sign: string, prefix: string, rest: string, base: nat, special: bool)
    requires sign == "" || sign == " " || sign == "+" || sign == "-"
    requires rest != "" && DigitValue(rest[0]) < 36
    requires prefix == "" || (|prefix| == 1 && prefix[0] == '0') || (|prefix| == 2 && prefix[0] == '0')
    requires (special && base == 16) <==> |prefix| == 2
    ensures Parse(sign + (prefix + rest), base, special)
         == (if sign == "-" then 0 - ReadDigits(if |prefix| == 1 then prefix + rest else rest, base, 0)
             else ReadDigits(if |prefix| == 1 then prefix + rest else rest, base, 0))
  {
    var u := prefix + rest;
    assert u != "" && DigitValue(u[0]) < 36;
    assert sign != "" ==> (sign + u)[1..] == u;
    assert sign == "" ==> sign + u == u;
    assert SkipSpaces(u) == u;
    if |prefix| == 2 {
      assert u[2..] == rest;
    } else if prefix == "" {
      assert u == rest;
    }
  }

  lemma ParseSkips(k: int, t: string, base: nat, special: bool)
    ensures Parse(Repeat(' ', k) + t, base, special) == Parse(t, base, special)
  {
    SpacesSkipped(k, t);
  }

  /** For every flag set, base, width and precision, reading the output back gives the argument:
      the signed value under SIGN, the most negative one included, and otherwise the value of
      the 32 bits read as unsigned. */
  lemma RoundTrip(num: i32, base: nat, size: int, precision: int, f: Flags)
    requires 2 <= base <= 36
    ensures Parse(Image(num, base, size, precision, f), base, f.special) == if f.sign then num else Magnitude(num, f)
  {
    hide DigitText, Image, Parse, ReadDigits, DigitsOn, Repeat, Room, DigitValue;
    Layout(num, base, size, precision, f);
    var room, m := Room(num, base, size, precision, f), Magnitude(num, f);
    var ds := DigitText(m, base, f);
    var k0, k1 := if f.left || f.zeropad then 0 else room, if f.zeropad && !f.left then room else 0;
    var k2, k3 := precision - |ds|, if f.left then room else 0;
    var sign, prefix, rest := SignText(num, f), PrefixText(base, f), DigitsOn(k1, k2, ds, k3);
    ParseSkips(k0, sign + (prefix + rest), base, f.special);
    StartsWithDigit(m, base, f, k1, k2, k3);
    ParseSigned(sign, prefix, rest, base, f.special);
    DigitsOnReads(m, base, f, k1, k2, k3, "");
    assert rest + "" == rest;
    OctalPrefix(rest, base);
  }

  /** The leading 0 of a special base-8 number is itself read as a digit. */
  lemma OctalPrefix(rest: string, base: nat)
    requires base >= 2
    ensures ReadDigits("0" + rest, base, 0) == ReadDigits(rest, base, 0)
  {
    assert ("0" + rest)[1..] == rest;
  }

  // ----- The output, character by character -----

  lemma {:induction false} RepeatAll(c: char, n: int)
    ensures forall i :: 0 <= i < |Repeat(c, n)| ==> Repeat(c, n)[i] == c
  {
    if n > 0 {
      RepeatAll(c, n - 1);
    }
  }

  /** A digit, its letter in the case that SMALL asks for. */
  predicate Cased(c: char, f: Flags) {
    '0' <= c <= '9' || if f.small then 'a' <= c <= 'z' else 'A' <= c <= 'Z'
  }

  lemma {:induction false} DigitsCased(n: nat, base: nat, f: Flags)
    requires 2 <= base <= 36
    ensures forall c :: c in LowFirst(n, base, f) ==> DigitValue(c) < base && Cased(c, f)
    ensures var s := LowFirst(n, base, f);
            n > 0 ==> s != "" && s[|s| - 1] != '0'
  {
    if n > 0 {
      var (q, d) := DoDiv(n, base);
      DigitsCased(q, base, f);
      DigitReads(d, f);
      assert q == 0 ==> d == n;
    }
  }

  /** The digits: of the base, in the right case, no more than it takes, and they read as n. */
  lemma TextIs(n: nat, base: nat, f: Flags)
    requires 2 <= base <= 36
    ensures var s := DigitText(n, base, f);
            && s != "" && (|s| > 1 ==> s[0] != '0') && ReadDigits(s, base, 0) == n
            && forall i :: 0 <= i < |s| ==> DigitValue(s[i]) < base && Cased(s[i], f)
  {
    var low, s := LowFirst(n, base, f), DigitText(n, base, f);
    DigitsCased(n, base, f);
    ReverseHas(low);
    if n > 0 {
      ReverseLast(low);
    }
    TextReads(n, base, f, "");
    assert s + "" == s;
    forall i | 0 <= i < |s| ensures DigitValue(s[i]) < base && Cased(s[i], f) {
      assert s[i] in s;
    }
  }

  /** Where the pieces of the output are: from 0 spaces, from a the sign, from b the prefix, from c
      zeros, from d the digits, from e spaces. */
  datatype Places = Places(a: nat, b: nat, c: nat, d: nat, e: nat)

  /** How s is laid out for these arguments: see Signed, Numbered and Justified. */
  ghost predicate LaidOut(s: string, p: Places, num: i32, base: nat, size: int, precision: int, f: Flags) {
    p.a <= p.b <= p.c <= p.d < p.e <= |s|
    && Signed(s, p, num, base, f) && Numbered(s, p, num, base, f) && Justified(|s|, p, size, precision, f)
  }

  /** The sign is a minus under SIGN for a negative number, else a plus under PLUS, else a space
      under SPACE, else there is none; the prefix is 0x or 0X, 0, or none. */
  ghost predicate Signed(s: string, p: Places, num: i32, base: nat, f: Flags)
    requires p.a <= p.b <= p.c <= |s|
  {
    var neg, hex, octal := f.sign && num < 0, f.special && base == 16, f.special && base == 8;
    && p.b == p.a + (if neg || f.plus || f.space then 1 else 0)
    && (p.a < p.b ==> s[p.a] == if neg then '-' else if f.plus then '+' else ' ')
    && p.c == p.b + (if hex then 2 else if octal then 1 else 0)
    && (p.b < p.c ==> s[p.b] == '0')
    && (hex ==> s[p.b + 1] == if f.small then 'x' else 'X')
  }

  /** The number's own digits between zeros and spaces. */
  ghost predicate Numbered(s: string, p: Places, num: i32, base: nat, f: Flags)
    requires p.a <= p.c <= p.d < p.e <= |s|
  {
    && (forall i :: 0 <= i < p.a ==> s[i] == ' ')
    && (forall i :: p.c <= i < p.d ==> s[i] == '0')
    && (forall i :: p.d <= i < p.e ==> DigitValue(s[i]) < base && Cased(s[i], f))
    && (forall i :: p.e <= i < |s| ==> s[i] == ' ')
    && (p.e - p.d > 1 ==> s[p.d] != '0')
    && ReadDigits(s[p.d..p.e], base, 0)
       == if num >= 0 then num else if f.sign then 0 - num else num + 0x1_0000_0000
  }

  /** The field width is filled on the right under LEFT, else with zeros in front of the digits
      under ZEROPAD, else on the left; the precision is filled with zeros. */
  predicate Justified(length: nat, p: Places, size: int, precision: int, f: Flags) {
    var digits := Max(precision, p.e - p.d);
    var room := Max(size - (p.c - p.a) - digits, 0);
    && p.a == (if f.left || f.zeropad then 0 else room)
    && p.e - p.c == digits + (if f.zeropad && !f.left then room else 0)
    && length == p.e + if f.left then room else 0
  }

  /** For all arguments, every character number writes. */
  lemma EveryCharacter(num: i32, base: nat, size: int, precision: int, f: Flags) returns (p: Places)
    requires 2 <= base <= 36
    ensures LaidOut(Image(num, base, size, precision, f), p, num, base, size, precision, f)
  {
    hide DigitText, Image, ReadDigits, DigitValue, Cased, Repeat, Signed, Numbered, Pieces, Justified, Room;
    hide SignText, PrefixText;
    Layout(num, base, size, precision, f);
    var s, m := Image(num, base, size, precision, f), Magnitude(num, f);
    var ds, room := DigitText(m, base, f), Room(num, base, size, precision, f);
    TextIs(m, base, f);
    var k0, k1 := if f.left || f.zeropad then 0 else room, if f.zeropad && !f.left then room else 0;
    var k2, k3 := precision - |ds|, if f.left then room else 0;
    var pad, zeros, more, after := Repeat(' ', k0), Repeat('0', k1), Repeat('0', k2), Repeat(' ', k3);
    p := InPlace(s, pad, SignText(num, f), PrefixText(base, f), zeros, more, ds, after);
    RepeatAll(' ', k0);
    RepeatAll('0', k1);
    RepeatAll('0', k2);
    RepeatAll(' ', k3);
    JustifiedIs(num, base, size, precision, f, p, |s|);
    SignedIs(s, p, pad, zeros + more, ds, after, num, base, f);
    NumberedIs(s, p, pad, SignText(num, f), PrefixText(base, f), zeros + more, ds, after, num, base, f);
  }

  lemma JustifiedIs(num: i32, base: nat, size: int, precision: int, f: Flags, p: Places, length: nat)
    requires 2 <= base <= 36
    requires var ds, room := DigitText(Magnitude(num, f), base, f), Room(num, base, size, precision, f);
             && p.a == Max(if f.left || f.zeropad then 0 else room, 0)
             && p.b == p.a + |SignText(num, f)| && p.c == p.b + |PrefixText(base, f)|
             && p.d == p.c + Max(if f.zeropad && !f.left then room else 0, 0) + Max(precision - |ds|, 0)
             && p.e == p.d + |ds| && length == p.e + Max(if f.left then room else 0, 0)
    ensures Justified(length, p, size, precision, f)
  {
    hide DigitText, SignText, PrefixText;
  }

  /** The six pieces, one after the other. */
  ghost predicate Pieces(s: string, p: Places, pad: string, sign: string, prefix: string, zeros: string,
                         ds: string, after: string) {
    && p.a == |pad| && p.b == p.a + |sign| && p.c == p.b + |prefix| && p.d == p.c + |zeros| && p.e == p.d + |ds|
    && |s| == p.e + |after|
    && s[..p.a] == pad && s[p.a..p.b] == sign && s[p.b..p.c] == prefix && s[p.c..p.d] == zeros
    && s[p.d..p.e] == ds && s[p.e..] == after
  }

  lemma InPlace(s: string, pad: string, sign: string, prefix: string, zeros: string, more: string, ds: string,
                after: string) returns (p: Places)
    requires s == pad + (sign + (prefix + (zeros + (more + (ds + after)))))
    ensures Pieces(s, p, pad, sign, prefix, zeros + more, ds, after)
    ensures p.a == |pad| && p.b == p.a + |sign| && p.c == p.b + |prefix|
    ensures p.d == p.c + |zeros| + |more| && p.e == p.d + |ds| && |s| == p.e + |after|
  {
    var a, b, c := |pad|, |pad| + |sign|, |pad| + |sign| + |prefix|;
    var d := c + |zeros| + |more|;
    p := Places(a, b, c, d, d + |ds|);
  }

  lemma SignedIs(s: string, p: Places, pad: string, zeros: string, ds: string, after: string,
                 num: i32, base: nat, f: Flags)
    requires Pieces(s, p, pad, SignText(num, f), PrefixText(base, f), zeros, ds, after)
    ensures Signed(s, p, num, base, f)
  {
    assert p.a < p.b ==> s[p.a] == s[p.a..p.b][0];
    assert p.b < p.c ==> s[p.b] == s[p.b..p.c][0];
    assert p.b + 1 < p.c ==> s[p.b + 1] == s[p.b..p.c][1];
  }

  lemma NumberedIs(s: string, p: Places, pad: string, sign: string, prefix: string, zeros: string, ds: string,
                   after: string, num: i32, base: nat, f: Flags)
    requires 2 <= base <= 36 && Pieces(s, p, pad, sign, prefix, zeros, ds, after)
    requires ds == DigitText(Magnitude(num, f), base, f)
    requires forall i :: 0 <= i < |pad| ==> pad[i] == ' '
    requires forall i :: 0 <= i < |zeros| ==> zeros[i] == '0'
    requires forall i :: 0 <= i < |after| ==> after[i] == ' '
    ensures p.d < p.e && Numbered(s, p, num, base, f)
  {
    hide DigitText, ReadDigits, DigitValue, Cased;
    TextIs(Magnitude(num, f), base, f);
    forall i | p.d <= i < p.e ensures s[i] == ds[i - p.d] {}
    forall i | p.c <= i < p.d ensures s[i] == '0' { assert s[i] == zeros[i - p.c]; }
    forall i | p.e <= i < |s| ensures s[i] == ' ' { assert s[i] == after[i - p.e]; }
    forall i | 0 <= i < p.a ensures s[i] == ' ' { assert s[i] == pad[i]; }
  }

  // ----- skip_atoi -----

  predicate IsDigit(c: char) {
    '0' <= c <= '9'
  }

  /** An int result, wrapping. */
  function Wrap32(n: int): i32 {
    var m := n % 0x1_0000_0000;
    if m >= 0x8000_0000 then m - 0x1_0000_0000 else m
  }

  lemma {:induction false} ReadGrows(s: string, acc: nat)
    ensures ReadDigits(s, 10, acc) >= acc
    decreases |s|
  {
    if s != "" && DigitValue(s[0]) < 10 {
      ReadGrows(s[1..], acc * 10 + DigitValue(s[0]));
    }
  }

  lemma OneMoreDigit(s: string, pos: nat, acc: nat)
    requires pos < |s| && IsDigit(s[pos])
    ensures var more := acc * 10 + DigitValue(s[pos]);
            && DigitValue(s[pos]) == s[pos] as int - '0' as int < 10 && acc <= more
            && ReadDigits(s[pos..], 10, acc) == ReadDigits(s[pos + 1..], 10, more) >= more
  {
    assert s[pos..][1..] == s[pos + 1..];
    ReadGrows(s[pos + 1..], acc * 10 + DigitValue(s[pos]));
  }

  lemma ReadStops(s: string, pos: nat, acc: nat)
    requires pos < |s| && !IsDigit(s[pos])
    ensures ReadDigits(s[pos..], 10, acc) == acc
  {}

  /** skip_atoi(&s): reads digits from pos of a string that ends with some non-digit. */
  method SkipAtoi(s: string, pos: nat) returns (i: i32, pos': nat)
    requires pos < |s| && !IsDigit(s[|s| - 1])
    ensures ReadDigits(s[pos..], 10, 0) < 0x8000_0000 ==> i == ReadDigits(s[pos..], 10, 0)
    ensures pos <= pos' < |s| && !IsDigit(s[pos']) && forall j :: pos <= j < pos' ==> IsDigit(s[j])
  {
    hide ReadDigits, DigitValue;
    i, pos' := 0, pos;
    ghost var acc := 0;
    while IsDigit(s[pos'])
      invariant pos <= pos' < |s| && acc >= 0
      invariant ReadDigits(s[pos..], 10, 0) == ReadDigits(s[pos'..], 10, acc)
      invariant ReadDigits(s[pos..], 10, 0) < 0x8000_0000 ==> i == acc
      invariant forall j :: pos <= j < pos' ==> IsDigit(s[j])
      decreases |s| - pos'
    {
      OneMoreDigit(s, pos', acc);
      acc := acc * 10 + DigitValue(s[pos']);
      i := Wrap32(i * 10 + (s[pos'] as int - '0' as int));
      pos' := pos' + 1;
    }
    ReadStops(s, pos', acc);
  }

  /** Plain base-10 output with no padding on its left is read back by skip_atoi's reading. */
  lemma AtoiReadsNumber(num: i32, size: int, precision: int, f: Flags, rest: string)
    requires !f.plus && !f.space && !f.special && (num >= 0 || !f.sign)
    requires f.left || f.zeropad || Room(num, 10, size, precision, f) <= 0
    requires rest == "" || !IsDigit(rest[0])
    ensures ReadDigits(Image(num, 10, size, precision, f) + rest, 10, 0) == Magnitude(num, f)
  {
    hide DigitText, Image, Room;
    Layout(num, 10, size, precision, f);
    var room, m := Room(num, 10, size, precision, f), Magnitude(num, f);
    var ds := DigitText(m, 10, f);
    var k1, k2, k3 := if f.zeropad && !f.left then room else 0, precision - |ds|, if f.left then room else 0;
    DigitsOnReads(m, 10, f, k1, k2, k3, rest);
    assert Image(num, 10, size, precision, f) == DigitsOn(k1, k2, ds, k3);
  }
}
