/** Bitwise operators on naturals, as the C expressions use them: masking with
    capacity - 1, the power-of-two test, and OR-ing disjoint bit fields. */
module Bits {

  function Pow2(k: nat): (p: nat)
    ensures p > 0
  {
    if k == 0 then 1 else 2 * Pow2(k - 1)
  }

  ghost predicate IsPow2(c: nat) {
    exists k: nat :: c == Pow2(k)
  }

  function BitAnd(a: nat, b: nat): (r: nat)
    ensures r <= b
  {
    if a == 0 || b == 0 then 0 else (if a % 2 == 1 && b % 2 == 1 then 1 else 0) + 2 * BitAnd(a / 2, b / 2)
  }

  function BitOr(a: nat, b: nat): nat
    decreases a + b
  {
    if a == 0 then b else if b == 0 then a else
      (if a % 2 == 1 || b % 2 == 1 then 1 else 0) + 2 * BitOr(a / 2, b / 2)
  }

  lemma DivModUnique(a: int, m: int, q: int, r: int)
    requires 0 <= r < m && a == q * m + r
    ensures a / m == q && a % m == r
  {
    var d := q - a / m;
    assert d * m == a % m - r;
    if d > 0 {
      MulAtLeast(d, m);
    } else if d < 0 {
      MulAtLeast(-d, m);
    }
  }

  lemma MulAtLeast(x: int, m: int)
    requires x >= 1 && m >= 0
    ensures x * m >= m
  {
    assert x * m == (x - 1) * m + m;
  }

  /** Splitting off the lowest bit splits the remainder by an even modulus. */
  lemma ModSplit(a: nat, h: nat)
    requires h > 0
    ensures a % (2 * h) == a % 2 + 2 * ((a / 2) % h)
  {
    var q, r := (a / 2) / h, (a / 2) % h;
    assert a / 2 == q * h + r;
    assert q * (2 * h) == 2 * (q * h);
    DivModUnique(a, 2 * h, q, 2 * r + a % 2);
  }

  lemma AndSplit(a: nat, h: nat)
    requires h > 0
    ensures BitAnd(a, 2 * h - 1) == a % 2 + 2 * BitAnd(a / 2, h - 1)
  {
    assert (2 * h - 1) / 2 == h - 1 && (2 * h - 1) % 2 == 1;
  }

  /** Masking with 2^k - 1 is the remainder by 2^k. */
  lemma {:induction false} AndMask(a: nat, k: nat)
    ensures BitAnd(a, Pow2(k) - 1) == a % Pow2(k)
  {
    if k > 0 {
      var h := Pow2(k - 1);
      calc {
        BitAnd(a, Pow2(k) - 1);
        { AndSplit(a, h); }
        a % 2 + 2 * BitAnd(a / 2, h - 1);
        { AndMask(a / 2, k - 1); }
        a % 2 + 2 * ((a / 2) % h);
        { ModSplit(a, h); }
        a % Pow2(k);
      }
    }
  }

  lemma {:induction false} AndSelf(a: nat)
    ensures BitAnd(a, a) == a
  {
    if a != 0 { AndSelf(a / 2); }
  }

  /** The test `(c & (c - 1)) == 0` accepts exactly the powers of two. */
  lemma {:induction false} PowerOfTwoTest(c: nat)
    requires c > 0
    ensures BitAnd(c, c - 1) == 0 <==> IsPow2(c)
  {
    if c == 1 {
      assert c == Pow2(0);
    } else if c % 2 == 0 {
      var d := c / 2;
      PowerOfTwoTest(d);
      assert (c - 1) / 2 == d - 1;
      if IsPow2(d) {
        var k: nat :| d == Pow2(k);
        assert c == Pow2(k + 1);
      }
      if IsPow2(c) {
        var k: nat :| c == Pow2(k);
        assert d == Pow2(k - 1);
      }
    } else {
      AndSelf(c / 2);
      assert (c - 1) / 2 == c / 2;
      forall k: nat ensures Pow2(k) != c {
        if k > 0 { assert Pow2(k) == 2 * Pow2(k - 1); }
      }
    }
  }

  /** OR-ing a number below 2^k into a multiple of 2^k adds it. */
  lemma {:induction false} OrDisjoint(a: nat, b: nat, k: nat)
    requires b < Pow2(k)
    ensures BitOr(a * Pow2(k), b) == a * Pow2(k) + b
  {
    if k > 0 && b > 0 && a > 0 {
      var h := Pow2(k - 1);
      assert a * Pow2(k) == 2 * (a * h);
      OrDisjoint(a, b / 2, k - 1);
      assert (2 * (a * h)) / 2 == a * h;
      assert a * h > 0 by { MulAtLeast(a, h); }
    }
  }
}
