/**
 Powers of two and the few facts about integer division that the divider relies on.
 Every operand in the generator is a non-negative Python integer, so Dafny's `/` and `%`
 coincide with Python's `//` and `%` (and with `divmod`) throughout.
 */
module Arith {

  /** 2^n, the value of Python's `2**n` for a non-negative exponent. */
  function Pow2(n: nat): (p: nat)
    ensures p >= 1
  {
    if n == 0 then 1 else 2 * Pow2(n - 1)
  }

  lemma {:induction false} Pow2Add(a: nat, b: nat)
    ensures Pow2(a + b) == Pow2(a) * Pow2(b)
  {
    if a > 0 {
      Pow2Add(a - 1, b);
      assert Pow2(a + b) == 2 * Pow2(a - 1 + b);
    }
  }

  lemma {:induction false} Pow2Increasing(a: nat, b: nat)
    requires a < b
    ensures Pow2(a) < Pow2(b)
  {
    if a < b - 1 {
      Pow2Increasing(a, b - 1);
    }
  }

  lemma Pow2Monotone(a: nat, b: nat)
    requires a <= b
    ensures Pow2(a) <= Pow2(b)
  {
    if a < b {
      Pow2Increasing(a, b);
    }
  }

  /** Quotient and remainder are the only pair that reassembles `x`. */
  lemma DivModUnique(x: int, d: int, q: int, r: int)
    requires d > 0 && 0 <= r < d && x == d * q + r
    ensures x / d == q && x % d == r
  {
    var q', r' := x / d, x % d;
    assert d * q' + r' == d * q + r;
    if q' > q {
      MulAtLeast(d, q' - q);
    } else if q' < q {
      MulAtLeast(d, q - q');
    }
  }

  lemma MulAtLeast(d: int, k: int)
    requires d > 0 && k >= 1
    ensures d * k >= d
  {
    var j := k - 1;
    assert d * k == d + d * j;
  }

  /** A number below the modulus is its own remainder. */
  lemma ModBelow(x: nat, m: nat)
    requires x < m
    ensures x % m == x && x / m == 0
  {
    DivModUnique(x, m, 0, x);
  }

  lemma MulMonotone(a: int, b: int, k: nat)
    requires a <= b
    ensures a * k <= b * k
  {
    var j := b - a;
    assert b * k == a * k + j * k;
  }

  /** A bound below `a * b` stays a bound when `b` grows. */
  lemma BelowWiderProduct(x: nat, a: nat, b: nat, b': nat)
    requires x < a * b && b <= b'
    ensures x < a * b'
  {
    var j := b' - b;
    assert a * b' == a * b + a * j;
  }

  /** Adding a multiple of `d` shifts the quotient and leaves the remainder alone. */
  lemma DivModAddMultiple(x: int, d: int, a: int, b: int)
    requires d > 0 && b >= 0 && x == d * a + b
    ensures x / d == a + b / d && x % d == b % d
  {
    assert x == d * (a + b / d) + b % d;
    DivModUnique(x, d, a + b / d, b % d);
  }

  /** The sign of a product of naturals, stated apart so that a caller with many
      products in scope need not search for it. */
  lemma ProductNonNegative(a: nat, b: nat)
    ensures 0 <= a * b
  {
  }

  /** A number below `d * m` has a quotient by `d` in `[0, m)`. */
  lemma QuotientBelow(x: nat, d: nat, m: nat)
    requires d > 0 && x < d * m
    ensures 0 <= x / d < m
  {
  }

  /** `a * bb + b` with `b < bb` splits back into `a` and `b`. */
  lemma PackUnpack(a: nat, b: nat, bb: nat)
    requires b < bb
    ensures (a * bb + b) / bb == a && (a * bb + b) % bb == b
  {
    DivModUnique(a * bb + b, bb, a, b);
  }

  /** A value packed from `a < A` above `b < B` lies in `[0, A * B)`. */
  lemma PackBound(a: nat, b: nat, aa: nat, bb: nat)
    requires a < aa && b < bb
    ensures 0 <= a * bb + b < aa * bb
  {
    assert a * bb <= (aa - 1) * bb;
  }

  /** Shifting `a` up past one more digit of width `rr` and then past `p`. */
  lemma ShiftDistributes(a: int, rr: int, t: int, p: int)
    ensures (a * rr + t) * p == a * (p * rr) + t * p
  {
  }

  /** Scaling the division identity `x == d * (x / d) + x % d` by `p`. */
  lemma ScaledDivision(x: nat, d: nat, p: nat)
    requires d > 0
    ensures x * p == d * ((x / d) * p) + (x % d) * p
  {
    var q, m := x / d, x % d;
    assert x == d * q + m;
    assert x * p == (d * q + m) * p;
  }

  /** Remainder by a product, taken in two stages. */
  lemma ModProduct(v: nat, aa: nat, bb: nat)
    requires aa > 0 && bb > 0
    ensures v % (aa * bb) == aa * ((v / aa) % bb) + v % aa
  {
    var q1, r1 := v / aa, v % aa;
    var q2, r2 := q1 / bb, q1 % bb;
    assert v == aa * q1 + r1;
    assert q1 == bb * q2 + r2;
    assert v == (aa * bb) * q2 + (aa * r2 + r1);
    PackBound(r2, r1, bb, aa);
    assert r2 * aa + r1 < bb * aa;
    DivModUnique(v, aa * bb, q2, aa * r2 + r1);
  }
}
