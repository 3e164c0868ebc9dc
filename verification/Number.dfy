/** Decimal text of 64-bit integers: counting digits, printing and parsing. */
module Number {
  import opened Bytes
  import opened Bits

  const ZERO: Byte := 48
  const PLUS: Byte := 43
  const MINUS: Byte := 45

  const UINT64_MAX: nat := 0xFFFF_FFFF_FFFF_FFFF

  function Pow10(k: nat): (p: nat)
    ensures p > 0
  {
    if k == 0 then 1 else 10 * Pow10(k - 1)
  }

  /** The canonical decimal text: no leading zero, except for 0 itself. */
  function Decimal(n: nat): (s: seq<Byte>)
    ensures |s| > 0
  {
    if n < 10 then [ZERO + n] else Decimal(n / 10) + [ZERO + n % 10]
  }

  function SignedDecimal(v: int): seq<Byte> {
    if v < 0 then [MINUS] + Decimal(-v) else Decimal(v)
  }

  predicate IsDigit(b: Byte) {
    48 <= b <= 57
  }

  predicate AllDigits(s: seq<Byte>) {
    forall i :: 0 <= i < |s| ==> IsDigit(s[i])
  }

  /** The number a string of digits denotes. */
  function DigitsValue(s: seq<Byte>): int {
    if s == [] then 0 else DigitsValue(s[..|s| - 1]) * 10 + (s[|s| - 1] as int - 48)
  }

  // ------------------------------------------------------- counting digits

  /** 64 minus the number of leading zero bits: the length in binary. */
  function BitCount(v: nat): nat {
    if v == 0 then 0 else 1 + BitCount(v / 2)
  }

  function ByteCount(v: nat): nat {
    (BitCount(v) + 7) / 8
  }

  lemma {:induction false} BitCountBounds(v: nat)
    ensures v < Pow2(BitCount(v)) && (v > 0 ==> Pow2(BitCount(v) - 1) <= v)
  {
    if v > 1 { BitCountBounds(v / 2); }
  }

  lemma {:induction false} BitCountBelow(v: nat, k: nat)
    requires v < Pow2(k)
    ensures BitCount(v) <= k
  {
    if v > 0 && k > 0 { BitCountBelow(v / 2, k - 1); }
  }

  /** The estimate of get_digit_count, floor(bits * 308 / 1024), corrected by one comparison. */
  function DigitCount(v: nat): nat {
    if v == 0 then 1 else
      var approximate := BitCount(v) * 308 / 1024;
      approximate + (if v >= Pow10(approximate) then 1 else 0)
  }

  lemma {:induction false} Pow2Monotone(a: nat, b: nat)
    requires a <= b
    ensures Pow2(a) <= Pow2(b)
  {
    if a < b { Pow2Monotone(a, b - 1); }
  }

  lemma Between(lo: nat, b: nat, hi: nat, a: nat)
    requires 1 <= lo <= b <= hi && Pow2(hi) <= Pow10(a + 1) && (a > 0 ==> Pow10(a - 1) <= Pow2(lo - 1))
    ensures Pow2(b) <= Pow10(a + 1) && (a > 0 ==> Pow10(a - 1) <= Pow2(b - 1))
  {
    Pow2Monotone(b, hi);
    Pow2Monotone(lo - 1, b - 1);
  }

  /** The powers of two lie between the powers of ten that the estimate needs. */
  ghost predicate Bracketed(b: nat)
    requires b > 0
  {
    var a := b * 308 / 1024;
    Pow2(b) <= Pow10(a + 1) && (a > 0 ==> Pow10(a - 1) <= Pow2(b - 1))
  }

  lemma Pow2By3(k: nat)
    ensures Pow2(k + 3) == 8 * Pow2(k) && Pow2(k + 4) == 16 * Pow2(k)
  {
    assert Pow2(k + 4) == 2 * Pow2(k + 3) && Pow2(k + 3) == 2 * Pow2(k + 2);
    assert Pow2(k + 2) == 2 * Pow2(k + 1) && Pow2(k + 1) == 2 * Pow2(k);
  }

  lemma Pow2Next(k: nat)
    ensures Pow2(k + 1) == 2 * Pow2(k)
  {
  }

  lemma LowPowers()
    ensures Pow2(0) == 1
    ensures Pow2(3) == 8
    ensures Pow2(6) == 64
    ensures Pow2(9) == 512
    ensures Pow2(13) == 8192
    ensures Pow2(16) == 65536
    ensures Pow10(0) == 1
    ensures Pow10(1) == 10
    ensures Pow10(2) == 100
    ensures Pow10(3) == 1000
    ensures Pow10(4) == 10000
    ensures Pow10(5) == 100000
  {
  }

  lemma LowBrackets(b: nat)
    requires 1 <= b <= 16
    ensures Bracketed(b)
  {
    hide Pow2, Pow10;
    LowPowers();
    if b <= 3 {
      Between(1, b, 3, 0);
    } else if b <= 6 {
      Between(4, b, 6, 1);
    } else if b <= 9 {
      Between(7, b, 9, 2);
    } else if b <= 13 {
      Between(10, b, 13, 3);
    } else if b <= 16 {
      Between(14, b, 16, 4);
    }
  }

  lemma MiddlePowers()
    ensures Pow2(16) == 65536
    ensures Pow2(19) == 524288
    ensures Pow2(23) == 8388608
    ensures Pow2(26) == 67108864
    ensures Pow2(29) == 536870912
    ensures Pow2(33) == 8589934592
    ensures Pow10(4) == 10000
    ensures Pow10(5) == 100000
    ensures Pow10(6) == 1000000
    ensures Pow10(7) == 10000000
    ensures Pow10(8) == 100000000
    ensures Pow10(9) == 1000000000
    ensures Pow10(10) == 10000000000
  {
    hide Pow2;
    LowPowers();
    Pow2By3(16);
    Pow2By3(19);
    Pow2By3(23);
    Pow2By3(26);
    Pow2By3(29);
  }

  lemma MiddleBrackets(b: nat)
    requires 17 <= b <= 33
    ensures Bracketed(b)
  {
    hide Pow2, Pow10;
    MiddlePowers();
    if b <= 19 {
      Between(17, b, 19, 5);
    } else if b <= 23 {
      Between(20, b, 23, 6);
    } else if b <= 26 {
      Between(24, b, 26, 7);
    } else if b <= 29 {
      Between(27, b, 29, 8);
    } else if b <= 33 {
      Between(30, b, 33, 9);
    }
  }

  lemma HighPowers()
    ensures Pow2(33) == 8589934592
    ensures Pow2(36) == 68719476736
    ensures Pow2(39) == 549755813888
    ensures Pow2(43) == 8796093022208
    ensures Pow2(46) == 70368744177664
    ensures Pow2(49) == 562949953421312
    ensures Pow10(9) == 1000000000
    ensures Pow10(10) == 10000000000
    ensures Pow10(11) == 100000000000
    ensures Pow10(12) == 1000000000000
    ensures Pow10(13) == 10000000000000
    ensures Pow10(14) == 100000000000000
    ensures Pow10(15) == 1000000000000000
  {
    hide Pow2;
    MiddlePowers();
    Pow2By3(33);
    Pow2By3(36);
    Pow2By3(39);
    Pow2By3(43);
    Pow2By3(46);
  }

  lemma HighBrackets(b: nat)
    requires 34 <= b <= 49
    ensures Bracketed(b)
  {
    hide Pow2, Pow10;
    HighPowers();
    if b <= 36 {
      Between(34, b, 36, 10);
    } else if b <= 39 {
      Between(37, b, 39, 11);
    } else if b <= 43 {
      Between(40, b, 43, 12);
    } else if b <= 46 {
      Between(44, b, 46, 13);
    } else if b <= 49 {
      Between(47, b, 49, 14);
    }
  }

  lemma TopPowers()
    ensures Pow2(49) == 562949953421312
    ensures Pow2(53) == 9007199254740992
    ensures Pow2(56) == 72057594037927936
    ensures Pow2(59) == 576460752303423488
    ensures Pow2(63) == 9223372036854775808
    ensures Pow2(64) == 18446744073709551616
    ensures Pow10(14) == 100000000000000
    ensures Pow10(15) == 1000000000000000
    ensures Pow10(16) == 10000000000000000
    ensures Pow10(17) == 100000000000000000
    ensures Pow10(18) == 1000000000000000000
    ensures Pow10(19) == 10000000000000000000
    ensures Pow10(20) == 100000000000000000000
  {
    hide Pow2;
    HighPowers();
    Pow2By3(49);
    Pow2By3(53);
    Pow2By3(56);
    Pow2By3(59);
    assert Pow2(64) == 2 * Pow2(63) by { Pow2Next(63); }
  }

  lemma TopBrackets(b: nat)
    requires 50 <= b <= 64
    ensures Bracketed(b)
  {
    hide Pow2, Pow10;
    TopPowers();
    if b <= 53 {
      Between(50, b, 53, 15);
    } else if b <= 56 {
      Between(54, b, 56, 16);
    } else if b <= 59 {
      Between(57, b, 59, 17);
    } else if b <= 63 {
      Between(60, b, 63, 18);
    } else if b <= 64 {
      Between(64, b, 64, 19);
    }
  }

  lemma EstimateBrackets(b: nat)
    requires 1 <= b <= 64
    ensures Bracketed(b)
  {
    hide Bracketed;
    if b <= 16 { LowBrackets(b); }
    else if b <= 33 { MiddleBrackets(b); }
    else if b <= 49 { HighBrackets(b); }
    else { TopBrackets(b); }
  }

  lemma {:induction false} DecimalLength(n: nat, d: nat)
    requires d > 0 && n < Pow10(d) && (d > 1 ==> Pow10(d - 1) <= n)
    ensures |Decimal(n)| == d
  {
    if d > 1 { DecimalLength(n / 10, d - 1); }
  }

  /** The digit count is exact for every 64-bit value. */
  lemma DigitCountExact(v: nat)
    requires v <= UINT64_MAX
    ensures DigitCount(v) == |Decimal(v)|
  {
    if v > 0 {
      hide Pow2, Pow10, Decimal;
      BitCountBounds(v);
      assert BitCount(v) <= 64 by {
        TopPowers();
        BitCountBelow(v, 64);
      }
      EstimateBrackets(BitCount(v));
      DecimalLength(v, DigitCount(v));
    }
  }

  // ------------------------------------------------------------- printing

  /** Entry r of the table of the pairs "00" to "99". */
  function TwoDigits(r: nat): (p: seq<Byte>)
    requires r < 100
    ensures |p| == 2
  {
    [ZERO + r / 10, ZERO + r % 10]
  }

  lemma DecimalByHundred(n: nat)
    requires n >= 100
    ensures Decimal(n) == Decimal(n / 100) + TwoDigits(n % 100)
  {
    assert (n / 10) / 10 == n / 100 && (n / 10) % 10 == (n % 100) / 10 && n % 10 == (n % 100) % 10;
    assert Decimal(n / 10) == Decimal(n / 100) + [ZERO + (n / 10) % 10];
    assert Decimal(n) == Decimal(n / 100) + [ZERO + (n / 10) % 10] + [ZERO + n % 10];
  }

  lemma DecimalBelowHundred(n: nat)
    requires n < 100
    ensures Decimal(n) == if n >= 10 then TwoDigits(n) else [ZERO + n]
  {
  }

  /** The buffer holds `before`, `gap` bytes that do not matter, and `after`. */
  ghost predicate Framed(s: seq<Byte>, before: seq<Byte>, gap: nat, after: seq<Byte>) {
    |s| == |before| + gap + |after| && s[..|before|] == before && s[|before| + gap..] == after
  }

  /** Writes p just before the end of the gap, which narrows it. */
  method PutLeft(dst: array<Byte>, ghost before: seq<Byte>, at: nat, p: seq<Byte>, ghost after: seq<Byte>)
    requires 1 <= |p| <= 2 && |before| <= at && Framed(dst[..], before, at + |p| - |before|, after)
    modifies dst
    ensures Framed(dst[..], before, at - |before|, p + after)
  {
    ghost var s := dst[..];
    dst[at] := p[0];
    if |p| == 2 { dst[at + 1] := p[1]; }
    assert dst[..at] == s[..at];
    assert dst[..at][..|before|] == dst[..|before|];
    assert s[..at][..|before|] == s[..|before|];
    assert dst[at..] == p + s[at + |p|..];
  }

  /** Writes the text of `value` at dst[off..], two digits at a time from the right, and a
      terminating NUL; the smallest 64-bit value is outside the domain. */
  method Ltoa(value: int, dst: array<Byte>, off: nat) returns (length: nat)
    requires -0x8000_0000_0000_0000 < value < 0x8000_0000_0000_0000
    requires off + |SignedDecimal(value)| < dst.Length
    modifies dst
    ensures length == |SignedDecimal(value)|
    ensures dst[..] == old(dst[..off]) + SignedDecimal(value) + [0] + old(dst[off + length + 1..])
  {
    hide Decimal, DigitCount, TwoDigits, Framed;
    var neg := if value < 0 then 1 else 0;
    var uval := if value < 0 then -(value + 1) + 1 else value;
    DigitCountExact(uval);
    length := DigitCount(uval) + neg;
    ghost var before, rest := dst[..off], dst[off + length + 1..];
    PrintDigits(uval, dst, off, length, neg, before, rest);
    ghost var text := Decimal(uval) + [0] + rest;
    if neg == 1 {
      PutLeft(dst, before, off, [MINUS], text);
      text := [MINUS] + text;
    }
    NoGap(dst[..], before, text);
    assert dst[..] == before + SignedDecimal(value) + [0] + rest;
  }

  lemma NoGap(s: seq<Byte>, before: seq<Byte>, after: seq<Byte>)
    requires Framed(s, before, 0, after)
    ensures s == before + after
  {
    assert s == s[..|before|] + s[|before|..];
  }

  /** The digit loop of the printer, from the terminating NUL leftwards to the sign. */
  method PrintDigits(n: nat, dst: array<Byte>, off: nat, length: nat, neg: nat, ghost before: seq<Byte>, ghost rest: seq<Byte>)
    requires length == |Decimal(n)| + neg && off + length < dst.Length
    requires before == dst[..off] && rest == dst[off + length + 1..]
    modifies dst
    ensures Framed(dst[..], before, neg, Decimal(n) + [0] + rest)
  {
    hide Decimal, TwoDigits, Framed;
    var uval, pos := n, length;
    OpenGap(dst[..], before, length, rest);
    PutLeft(dst, before, off + length, [0], rest);
    ghost var tail: seq<Byte> := [];
    assert Decimal(uval) + tail == Decimal(n);
    assert tail + [0] + rest == [0] + rest;
    while uval >= 100
      invariant pos - neg == |Decimal(uval)| && Decimal(n) == Decimal(uval) + tail
      invariant Framed(dst[..], before, pos, tail + [0] + rest)
    {
      ghost var pair := TwoDigits(uval % 100);
      DecimalByHundred(uval);
      pos := pos - 2;
      PutLeft(dst, before, off + pos, TwoDigits(uval % 100), tail + [0] + rest);
      assert pair + (tail + [0] + rest) == pair + tail + [0] + rest;
      tail := pair + tail;
      uval := uval / 100;
    }
    DecimalBelowHundred(uval);
    if uval >= 10 {
      PutLeft(dst, before, off + pos - 2, TwoDigits(uval), tail + [0] + rest);
    } else {
      PutLeft(dst, before, off + pos - 1, [ZERO + uval], tail + [0] + rest);
    }
    assert Decimal(uval) + (tail + [0] + rest) == Decimal(uval) + tail + [0] + rest;
  }

  lemma OpenGap(s: seq<Byte>, before: seq<Byte>, length: nat, rest: seq<Byte>)
    requires |before| + length < |s| && before == s[..|before|] && rest == s[|before| + length + 1..]
    ensures Framed(s, before, length + 1, rest)
  {
  }

  // -------------------------------------------------------------- parsing

  datatype Parsed = Number(value: nat) | Invalid | OutOfRange

  /** What the parser accepts: an optional '+' and then only digits, at least one,
      denoting a number that fits in 64 bits. */
  function Unsigned(s: seq<Byte>): Option<nat> {
    var body := if s != [] && s[0] == PLUS then s[1..] else s;
    if body != [] && AllDigits(body) && 0 <= DigitsValue(body) <= UINT64_MAX then Some(DigitsValue(body)) else None
  }

  lemma {:induction false} DigitsValueGrows(s: seq<Byte>, n: nat)
    requires AllDigits(s) && n <= |s|
    ensures 0 <= DigitsValue(s[..n]) <= DigitsValue(s)
  {
    if n < |s| {
      DigitsValueGrows(s[..|s| - 1], n);
      assert s[..|s| - 1][..n] == s[..n];
    } else {
      assert s[..n] == s;
      if s != [] { DigitsValueGrows(s[..|s| - 1], |s| - 1); }
    }
  }

  lemma {:induction false} LeadingZeros(s: seq<Byte>, n: nat)
    requires n <= |s| && forall i :: 0 <= i < n ==> s[i] == ZERO
    ensures DigitsValue(s) == DigitsValue(s[n..]) && (AllDigits(s) <==> AllDigits(s[n..]))
  {
    if n < |s| {
      LeadingZeros(s[..|s| - 1], n);
      assert s[..|s| - 1][n..] == s[n..][..|s| - n - 1];
      assert s[n..][|s| - n - 1] == s[|s| - 1];
      ZerosAreDigits(s, n);
    } else if n > 0 {
      LeadingZeros(s[..n - 1], n - 1);
      assert s[..n - 1][n - 1..] == [] && s[n..] == [];
    }
  }

  lemma ZerosAreDigits(s: seq<Byte>, n: nat)
    requires n <= |s| && forall i :: 0 <= i < n ==> s[i] == ZERO
    ensures AllDigits(s) <==> AllDigits(s[n..])
  {
    if AllDigits(s[n..]) {
      forall i | 0 <= i < |s| ensures IsDigit(s[i]) {
        if i >= n { assert s[n..][i - n] == s[i]; }
      }
    }
  }

  lemma {:induction false} LongIsLarge(s: seq<Byte>)
    requires |s| > 0 && AllDigits(s) && s[0] != ZERO
    ensures DigitsValue(s) >= Pow10(|s| - 1)
  {
    if |s| > 1 {
      LongIsLarge(s[..|s| - 1]);
    } else {
      assert s[..0] == [];
    }
  }

  lemma DigitsValueSnoc(s: seq<Byte>, n: nat)
    requires n < |s|
    ensures DigitsValue(s[..n + 1]) == DigitsValue(s[..n]) * 10 + (s[n] as int - 48)
  {
    assert s[..n + 1][..n] == s[..n];
  }

  /** Accepts exactly the texts that `Unsigned` accepts, with their value; a string of
      digits that is refused is out of range. The empty string is not passed in. */
  method Atoull(s: seq<Byte>) returns (r: Parsed)
    requires |s| > 0
    ensures r.Number? <==> Unsigned(s).Some?
    ensures r.Number? ==> r.value == Unsigned(s).value
    ensures var body := if s[0] == PLUS then s[1..] else s;
      body != [] && AllDigits(body) && !r.Number? ==> r == OutOfRange && DigitsValue(body) > UINT64_MAX
  {
    hide DigitsValue;
    if s[0] == MINUS { assert !IsDigit(s[0]); return Invalid; }
    ghost var body := if s[0] == PLUS then s[1..] else s;
    var value := if s[0] == PLUS then s[1..] else s;
    if value == [] { return Invalid; }
    var zeros := 0;
    while zeros < |value| && value[zeros] == ZERO
      invariant zeros <= |value| && forall i :: 0 <= i < zeros ==> value[i] == ZERO
    {
      zeros := zeros + 1;
    }
    LeadingZeros(body, zeros);
    var rest := value[zeros..];
    if |rest| == 0 {
      assert DigitsValue([]) == 0 by { EmptyValue(); }
      return Number(0);
    }
    if |rest| > 20 {
      if AllDigits(rest) { LongIsLarge(rest); TwentyDigits(|rest| - 1); }
      return OutOfRange;
    }
    r := ParseDigits(rest);
  }

  lemma EmptyValue()
    ensures DigitsValue([]) == 0
  {
  }

  lemma TwentyDigits(k: nat)
    requires k >= 20
    ensures Pow10(k) > UINT64_MAX
  {
    if k > 20 { TwentyDigits(k - 1); } else { assert Pow10(20) == 10 * Pow10(19); TopPowers(); }
  }

  /** The accumulating loop, which checks before each step that it cannot overflow. */
  method ParseDigits(rest: seq<Byte>) returns (r: Parsed)
    ensures r.Number? <==> AllDigits(rest) && DigitsValue(rest) <= UINT64_MAX
    ensures r.Number? ==> r.value == DigitsValue(rest)
    ensures r == OutOfRange && AllDigits(rest) ==> DigitsValue(rest) > UINT64_MAX
    ensures AllDigits(rest) ==> r != Invalid
  {
    hide DigitsValue;
    var result: nat := 0;
    var i := 0;
    EmptyValue();
    assert rest[..0] == [];
    while i < |rest|
      invariant 0 <= i <= |rest| && AllDigits(rest[..i])
      invariant result == DigitsValue(rest[..i]) <= UINT64_MAX
    {
      var c := rest[i];
      if !(48 <= c <= 57) { assert !IsDigit(rest[i]); return Invalid; }
      var digit := c - 48;
      DigitsValueSnoc(rest, i);
      if result > UINT64_MAX / 10 || (result == UINT64_MAX / 10 && digit > UINT64_MAX % 10) {
        if AllDigits(rest) { DigitsValueGrows(rest, i + 1); }
        return OutOfRange;
      }
      result := result * 10 + digit;
      i := i + 1;
    }
    assert rest[..|rest|] == rest;
    r := Number(result);
  }

  /** Parsing undoes printing: the canonical text of a number is a string of digits
      denoting it. */
  lemma {:induction false} DecimalParses(n: nat)
    ensures AllDigits(Decimal(n)) && DigitsValue(Decimal(n)) == n
    ensures n > 0 ==> Decimal(n)[0] != ZERO
  {
    var s := Decimal(n);
    if n >= 10 {
      DecimalParses(n / 10);
      assert s[..|s| - 1] == Decimal(n / 10);
    } else {
      assert s[..0] == [];
    }
  }

  /** The parser inverts the printer on every non-negative 64-bit value. */
  lemma UnsignedInvertsDecimal(n: nat)
    requires n <= UINT64_MAX
    ensures Unsigned(Decimal(n)) == Some(n)
  {
    DecimalParses(n);
    assert IsDigit(Decimal(n)[0]);
  }
}
