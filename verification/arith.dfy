/** Powers of two and the division/remainder facts the byte codecs rely on.
    Every quantity here is a natural number; Dafny's `/` and `%` agree with
    the arbitrary-precision `BigInt` operators on non-negative operands. */
module Arith {

  /** 2^k. */
  function Pow2(k: nat): (r: nat)
    ensures r > 0
  {
    if k == 0 then 1 else 2 * Pow2(k - 1)
  }

  /** Ceiling of a / b, as `Math.ceil(a / b)` computes it for exact quotients. */
  function CeilDiv(a: nat, b: nat): (r: nat)
    requires b > 0
    ensures r * b >= a
    ensures r == 0 || (r - 1) * b < a
  {
    (a + b - 1) / b
  }

  lemma {:induction false} Pow2Add(a: nat, b: nat)
    ensures Pow2(a + b) == Pow2(a) * Pow2(b)
  {
    if a > 0 {
      calc {
        Pow2(a + b);
        2 * Pow2(a - 1 + b);
        { Pow2Add(a - 1, b); }
        2 * (Pow2(a - 1) * Pow2(b));
        (2 * Pow2(a - 1)) * Pow2(b);
      }
    }
  }

  /** Four more bits multiply by 16. */
  lemma Pow2Plus4(k: nat)
    ensures Pow2(k + 4) == 16 * Pow2(k)
  {
    assert Pow2(k + 4) == 2 * Pow2(k + 3);
    assert Pow2(k + 3) == 2 * Pow2(k + 2);
    assert Pow2(k + 2) == 2 * Pow2(k + 1);
  }

  /** Eight more bits multiply by 256. */
  lemma Pow2Plus8(k: nat)
    ensures Pow2(k + 8) == 256 * Pow2(k)
  {
    Pow2Plus4(k);
    Pow2Plus4(k + 4);
    assert k + 8 == (k + 4) + 4;
  }

  /** One more byte multiplies by 256. */
  lemma Pow2Byte(n: nat)
    requires n > 0
    ensures Pow2(8 * n) == 256 * Pow2(8 * (n - 1))
  {
    Pow2Plus8(8 * (n - 1));
    assert 8 * (n - 1) + 8 == 8 * n;
  }

  lemma {:induction false} Pow2Le(a: nat, b: nat)
    requires a <= b
    ensures Pow2(a) <= Pow2(b)
  {
    if a < b {
      Pow2Le(a, b - 1);
    }
  }

  lemma MulDistrib(k: nat, x: nat, p: nat, y: nat)
    ensures k * (x + p * y) == k * x + (k * p) * y
  {
  }

  /** A number below d has no multiple of d in it beyond 0. */
  lemma SmallHigh(lo: nat, d: nat, hi: nat)
    requires lo + d * hi < d
    ensures hi == 0
  {
    if hi > 0 {
      MulLe(d, 1, hi);
    }
  }

  /** If lo + d*hi stays below d*c then hi stays below c. */
  lemma SmallQuotient(lo: nat, d: nat, hi: nat, c: nat)
    requires lo + d * hi < d * c
    ensures hi < c
  {
    if hi >= c {
      MulLe(d, c, hi);
    }
  }

  /** Writing into a window: if x has digit v = a + b at place p and nothing
      above it, and x0 is x with that digit set to a, then x is x0 plus b at
      place p. (The parameters name every intermediate term so that each
      requires is a plain equation the caller already has.) */
  lemma WindowAdd(x: nat, lo: nat, p: nat, y: nat, v: nat, q: nat, t: nat, x0: nat, a: nat, b: nat)
    requires x == lo + p * y && y == v + q * t && t == 0
    requires x0 == lo + p * a && v == a + b
    ensures x == x0 + p * b
  {
  }

  /** A factor of 16 moved from the power onto the multiplicand. */
  lemma ScaleShift(big: nat, p: nat, m: nat)
    requires big == p * 16
    ensures big * m == p * (16 * m)
  {
  }

  lemma MulZero(a: nat, b: nat)
    requires b == 0
    ensures a * b == 0
  {
  }

  lemma MulLe(d: nat, a: nat, b: nat)
    requires a <= b
    ensures d * a <= d * b
  {
  }

  /** x written in the mixed radix (a, b): x == (a*b) * (x/a/b) + (a * ((x/a) % b) + x % a). */
  lemma MixedRadix(x: nat, a: nat, b: nat)
    requires a > 0 && b > 0
    ensures x == (a * b) * (x / a / b) + (a * ((x / a) % b) + x % a)
    ensures 0 <= a * ((x / a) % b) + x % a < a * b
  {
    var q1, r1 := x / a, x % a;
    var q2, r2 := q1 / b, q1 % b;
    assert a * q1 == a * (b * q2 + r2);
    assert a * (b * q2 + r2) == (a * b) * q2 + a * r2;
    MulLe(a, r2, b - 1);
    MulLe(a, 0, r2);
    assert a * (b - 1) == a * b - a;
  }

  /** The quotient and remainder of x by d are the only q, r with x == d*q + r, 0 <= r < d. */
  lemma DivModUnique(x: int, d: int, q: int, r: int)
    requires 0 <= r < d && x == d * q + r
    ensures x / d == q && x % d == r
  {
    var q', r' := x / d, x % d;
    assert x == d * q' + r';
    assert q' < q ==> d * (q' + 1) <= d * q;
    assert q < q' ==> d * (q + 1) <= d * q';
  }

  /** Dividing by a and then by b is dividing by a*b, and the remainder by a*b
      is assembled from the two partial remainders. */
  lemma DivDivMod(x: nat, a: nat, b: nat)
    requires a > 0 && b > 0
    ensures x / a / b == x / (a * b)
    ensures x % (a * b) == x % a + a * ((x / a) % b)
  {
    MixedRadix(x, a, b);
    DivModUnique(x, a * b, x / a / b, a * ((x / a) % b) + x % a);
  }

  /** Dividing by a and then by b is dividing by big == a*b. */
  lemma DivDiv(x: nat, a: nat, b: nat, big: nat)
    requires a > 0 && b > 0 && big == a * b
    ensures x / a / b == x / big
  {
    DivDivMod(x, a, b);
  }

  /** Bits a-and-up of x modulo big == a*b are bits a-and-up of x modulo b. */
  lemma ModDiv(x: nat, a: nat, b: nat, big: nat)
    requires a > 0 && b > 0 && big == a * b
    ensures (x % big) / a == (x / a) % b
  {
    DivDivMod(x, a, b);
    DivModUnique(x % big, a, (x / a) % b, x % a);
  }

  /** Reducing modulo big == a*b and then modulo a is reducing modulo a. */
  lemma ModMod(x: nat, a: nat, b: nat, big: nat)
    requires a > 0 && b > 0 && big == a * b
    ensures (x % big) % a == x % a
  {
    DivDivMod(x, a, b);
    DivModUnique(x % big, a, (x / a) % b, x % a);
  }

  lemma DivNat(x: nat, d: nat)
    requires d > 0
    ensures x / d >= 0
  {
  }

  lemma ModSmall(x: nat, d: nat)
    requires x < d
    ensures x % d == x
  {
    DivModUnique(x, d, 0, x);
  }

  /** Dividing x == lo + d * y (lo < d) by d * p is dividing y by p. */
  lemma DivStep(x: nat, lo: nat, d: nat, y: nat, big: nat, p: nat)
    requires lo < d && p > 0 && x == lo + d * y && big == d * p
    ensures x / big == y / p
  {
    DivDivMod(x, d, p);
    DivModSplit(lo, d, y);
  }

  /** Reading a window: the digit of x at place p, modulo q, is w when x is
      lo + p * (w + q * t) with lo < p and w < q. (Every intermediate term is a
      parameter, so each requires is a plain equation the caller already has.) */
  lemma DigitSplit(x: nat, lo: nat, p: nat, y: nat, w: nat, q: nat, t: nat)
    requires x == lo + p * y && y == w + q * t
    requires lo < p && w < q
    ensures (x / p) % q == w
  {
    DivModSplit(lo, p, y);
    DivModSplit(w, q, t);
  }

  /** (lo + d * hi) splits back into hi and lo when lo < d. */
  lemma DivModSplit(lo: nat, d: nat, hi: nat)
    requires lo < d
    ensures (lo + d * hi) / d == hi && (lo + d * hi) % d == lo
  {
    DivModUnique(lo + d * hi, d, hi, lo);
  }
}
