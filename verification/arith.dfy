/** Powers of two and the division/modulus facts that the bit-field codec,
    the blocked array's index geometry and the byte framing rest on.
    All divisors here are positive, so Dafny's Euclidean `/` and `%` agree
    with C's unsigned division and with an arithmetic right shift. */
module Arith {

  /** 2^n, the value of `1ULL << n` and of `pow(2, n)` computed exactly. */
  function Pow2(n: nat): (r: nat)
    ensures r >= 1
  {
    if n == 0 then 1 else 2 * Pow2(n - 1)
  }

  lemma {:induction false} Pow2Add(a: nat, b: nat)
    ensures Pow2(a + b) == Pow2(a) * Pow2(b)
  {
    if a > 0 {
      Pow2Add(a - 1, b);
      calc {
        Pow2(a + b);
        2 * Pow2(a - 1 + b);
        2 * (Pow2(a - 1) * Pow2(b));
        (2 * Pow2(a - 1)) * Pow2(b);
      }
    }
  }

  lemma Pow2Monotone(a: nat, b: nat)
    requires a <= b
    ensures Pow2(a) <= Pow2(b)
  {
    Pow2Add(a, b - a);
    MulAtLeastOne(Pow2(a), Pow2(b - a));
  }

  lemma MulAtLeastOne(x: nat, y: nat)
    requires y >= 1
    ensures x <= x * y
  {
    assert x * y == x + x * (y - 1);
  }

  /** Quotient and remainder are determined by `x == q * m + r, 0 <= r < m`. */
  lemma DivModUnique(x: int, m: int, q: int, r: int)
    requires 0 < m && 0 <= r < m && x == q * m + r
    ensures x / m == q && x % m == r
  {
    var q', r' := x / m, x % m;
    assert x == q' * m + r';
    assert (q - q') * m == r' - r;
    if q > q' {
      MulAtLeastOne(m, q - q');
    } else if q < q' {
      MulAtLeastOne(m, q' - q);
    }
  }

  /** The quotient of a natural number is natural and its remainder is a digit. */
  lemma DivModRange(x: nat, m: int)
    requires m > 0
    ensures 0 <= x / m && 0 <= x % m < m
  {
  }

  /** Dividing by a positive m moves x toward zero without crossing it. */
  lemma DivTowardZeroBound(x: int, m: int)
    requires m > 0
    ensures x >= 0 ==> 0 <= x / m <= x
    ensures x < 0 ==> x <= x / m < 0
  {
    var q, r := x / m, x % m;
    assert x == q * m + r && 0 <= r < m;
    if x >= 0 {
      DivModRange(x, m);
      MulAtLeastOne(q, m);
    } else {
      if q < x {
        MulMonotone(q + 1, x, m);
        MulAtLeastOne(-x, m);
      }
    }
  }

  /** Reducing modulo m changes x by a multiple of m, and not at all when x
      is already in [0, m). */
  lemma ModReduce(x: int, m: int)
    requires m > 0
    ensures 0 <= x % m < m
    ensures 0 <= x < m ==> x % m == x
    ensures (x % m - x) % m == 0
  {
    var q, r := x / m, x % m;
    assert x == q * m + r && 0 <= r < m;
    if 0 <= x < m {
      DivModUnique(x, m, 0, x);
    }
    assert (r - x) % m == 0 by {
      assert r - x == (-q) * m + 0;
      DivModUnique(r - x, m, -q, 0);
    }
  }

  /** Dividing twice is dividing by the product. */
  lemma DivDiv(x: nat, a: nat, b: nat)
    requires a > 0 && b > 0
    ensures x / a / b == x / (a * b)
  {
    var q1, r1 := x / a, x % a;
    var q2, r2 := q1 / b, q1 % b;
    assert 0 <= r1 < a && 0 <= q1 && 0 <= r2 < b by {
      DivModRange(x, a);
      DivModRange(q1, b);
    }
    assert x == q2 * (a * b) + (r2 * a + r1) by {
      assert x == q1 * a + r1;
      assert q1 == q2 * b + r2;
      MulDistrib(q2 * b, r2, a);
      assert q2 * b * a == q2 * (a * b);
    }
    assert r2 * a + r1 < a * b by {
      MulMonotone(r2, b - 1, a);
    }
    DivModUnique(x, a * b, q2, r2 * a + r1);
  }

  lemma MulDistrib(x: int, y: int, m: int)
    ensures (x + y) * m == x * m + y * m
  {
  }

  lemma DivPow2Add(x: nat, a: nat, b: nat)
    ensures x / Pow2(a) / Pow2(b) == x / Pow2(a + b)
  {
    Pow2Add(a, b);
    DivDiv(x, Pow2(a), Pow2(b));
  }

  lemma MulNonneg(x: nat, y: nat)
    ensures x * y >= 0
  {
  }

  /** Adding a multiple of m does not change the remainder modulo m. */
  lemma ModAddMultiple(k: int, m: int, y: int)
    requires m > 0
    ensures (k * m + y) % m == y % m
  {
    DivModUnique(k * m + y, m, k + y / m, y % m);
  }

  /** x < a * b gives x / a < b. */
  lemma DivBelow(x: nat, a: nat, b: nat)
    requires a > 0 && x < a * b
    ensures x / a < b
  {
    var q := x / a;
    assert q * a <= x;
    if q >= b {
      MulMonotone(b, q, a);
    }
  }

  lemma MulMonotone(x: int, y: int, m: nat)
    requires x <= y
    ensures x * m <= y * m
  {
    assert y * m == x * m + (y - x) * m;
  }

  /** Reducing modulo a * b and then modulo a is reducing modulo a. */
  lemma ModMod(x: int, a: nat, b: nat)
    requires a > 0 && b > 0
    ensures (x % (a * b)) % a == x % a
  {
    var q, rr := x / (a * b), x % (a * b);
    var q', r' := rr / a, rr % a;
    assert x == q * (a * b) + rr;
    assert rr == q' * a + r';
    assert q * (a * b) == (q * b) * a;
    assert x == (q * b + q') * a + r';
    DivModUnique(x, a, q * b + q', r');
  }

  /** A remainder modulo 2^n, read modulo a smaller power 2^k, is the remainder modulo 2^k. */
  lemma ModPow2Mod(x: int, k: nat, n: nat)
    requires k <= n
    ensures (x % Pow2(n)) % Pow2(k) == x % Pow2(k)
  {
    Pow2Add(k, n - k);
    ModMod(x, Pow2(k), Pow2(n - k));
  }

  /** x split at p and then at q: high part, middle digit, low part. */
  lemma Split3(x: nat, p: nat, q: nat)
    requires p > 0 && q > 0
    ensures x == (x / p / q) * (p * q) + ((x / p) % q) * p + x % p
  {
    var y := x / p;
    assert x == y * p + x % p;
    assert y == (y / q) * q + y % q;
    assert y * p == ((y / q) * q + y % q) * p;
    assert ((y / q) * q + y % q) * p == (y / q) * (p * q) + (y % q) * p;
  }

  /** A value built from a high part, a digit below q and a low part below p
      splits back into those parts. */
  lemma Compose3(hi: int, f: int, lo: int, p: nat, q: nat)
    requires 0 <= f < q && 0 <= lo < p
    ensures var x := hi * (p * q) + f * p + lo;
      && x / p == hi * q + f && x % p == lo
      && (x / p) % q == f && (x / p) / q == hi
  {
    var x := hi * (p * q) + f * p + lo;
    assert x == (hi * q + f) * p + lo;
    DivModUnique(x, p, hi * q + f, lo);
    DivModUnique(hi * q + f, q, hi, f);
  }

  /** Bounds of a value built from parts that are each in range. */
  lemma Bound3(hi: nat, f: nat, lo: nat, p: nat, q: nat, t: nat)
    requires hi < t && f < q && lo < p
    ensures 0 <= hi * (p * q) + f * p + lo < t * (p * q)
  {
    MulNonneg(hi, p * q);
    MulNonneg(f, p);
    MulMonotone(f, q - 1, p);
    assert f * p + lo < q * p;
    MulMonotone(hi + 1, t, p * q);
  }

  /** Split3 with the two divisions merged into one by p * q. */
  lemma SplitAt(x: nat, p: nat, q: nat)
    requires p > 0 && q > 0
    ensures x == (x / (p * q)) * (p * q) + ((x / p) % q) * p + x % p
  {
    Split3(x, p, q);
    DivDiv(x, p, q);
  }

  /** Compose3 for a non-negative high part, with the high part read back by
      one division by p * q. */
  lemma ComposeAt(hi: nat, f: nat, lo: nat, p: nat, q: nat)
    requires f < q && lo < p
    ensures var x := hi * (p * q) + f * p + lo;
      && x >= 0 && x / (p * q) == hi && (x / p) % q == f && x % p == lo
  {
    var x := hi * (p * q) + f * p + lo;
    Compose3(hi, f, lo, p, q);
    Bound3(hi, f, lo, p, q, hi + 1);
    DivDiv(x, p, q);
  }

  /** Putting a digit v < q between the part of x above p * q and the part
      below p keeps a value below (p * q) * t in [0, (p * q) * t). */
  lemma SpliceBound(x: nat, v: nat, p: nat, q: nat, t: nat)
    requires p > 0 && q > 0 && x < (p * q) * t && v < q
    ensures 0 <= (x / (p * q)) * (p * q) + v * p + x % p < (p * q) * t
  {
    var pq := p * q;
    var hi := x / pq;
    assert 0 <= hi;
    DivBelow(x, pq, t);
    Bound3(hi, v, x % p, p, q, t);
  }

  /** When x has no part below p * q, splicing v in adds v * p. */
  lemma SpliceIntoClear(x: nat, v: nat, p: nat, q: nat)
    requires p > 0 && q > 0 && x % (p * q) == 0
    ensures (x / (p * q)) * (p * q) + v * p + x % p == x + v * p
  {
    var pq := p * q;
    assert x == (x / pq) * pq + x % pq;
    assert x % p == 0 by {
      ModMod(x, p, q);
      DivModUnique(0, p, 0, 0);
    }
  }

  /** Multiplying by c and reducing modulo (p * q) * c drops the part of x
      above p * q and keeps its digit and its low part, each scaled by c. */
  lemma ShiftOut(x: nat, p: nat, q: nat, c: nat)
    requires p > 0 && q > 0 && c > 0
    ensures (x % p) * c < p * c
    ensures (x * c) % ((p * q) * c) == ((x / p) % q) * (p * c) + (x % p) * c
  {
    var hi, f, lo := x / (p * q), (x / p) % q, x % p;
    ScaleSplit(x, p, q, c);
    DigitsBelow(f, lo, p, q, c);
    DivModUnique(x * c, (p * q) * c, hi, f * (p * c) + lo * c);
  }

  /** x * c split as in SplitAt, each part scaled by c. */
  lemma ScaleSplit(x: nat, p: nat, q: nat, c: nat)
    requires p > 0 && q > 0
    ensures x * c == (x / (p * q)) * ((p * q) * c) + (((x / p) % q) * (p * c) + (x % p) * c)
  {
    var hi, f, lo := x / (p * q), (x / p) % q, x % p;
    SplitAt(x, p, q);
    assert x == hi * (p * q) + f * p + lo;
    MulDistrib(hi * (p * q) + f * p, lo, c);
    MulDistrib(hi * (p * q), f * p, c);
  }

  /** A digit f < q at p * c with a part below p scaled by c stays below q * (p * c). */
  lemma DigitsBelow(f: int, lo: int, p: nat, q: nat, c: nat)
    requires 0 <= f < q && 0 <= lo < p && c > 0
    ensures lo * c < p * c
    ensures 0 <= f * (p * c) + lo * c < (p * q) * c
  {
    MulMonotone(lo + 1, p, c);
    MulMonotone(f, q - 1, p * c);
    MulNonneg(f, p * c);
    MulNonneg(lo, c);
  }

  /** A value whose quotient by m is below t is below m * t. */
  lemma BelowFromQuotient(x: nat, m: nat, t: nat)
    requires m > 0 && x / m < t
    ensures x < m * t
  {
    var q := x / m;
    assert x == q * m + x % m;
    MulMonotone(q + 1, t, m);
  }

  /** Two values that agree modulo m and lie in the same window of m
      consecutive integers are equal. */
  lemma ModEqualInWindow(a: int, b: int, lo: int, m: nat)
    requires m > 0 && lo <= a < lo + m && lo <= b < lo + m
    requires a % m == b % m
    ensures a == b
  {
    var qa, qb := a / m, b / m;
    assert a == qa * m + a % m;
    assert b == qb * m + b % m;
    assert (qa - qb) * m == a - b;
    if qa > qb {
      MulAtLeastOne(m, qa - qb);
    } else if qa < qb {
      MulAtLeastOne(m, qb - qa);
    }
  }

  /** A field f at the top of a word of w = 2 * hm values (hm = h * m), read
      as two's complement and divided by m, is f sign-extended. */
  lemma TopFieldSigned(s: int, f: int, e: int, h: nat, m: nat, hm: int, w: int)
    requires h >= 1 && m >= 1 && 0 <= f < 2 * h && 0 <= e < m
    requires s == f * m + e && hm == h * m && w == 2 * hm
    ensures (if s < hm then s else s - w) / m == (if f < h then f else f - 2 * h)
  {
    if f < h {
      MulMonotone(f + 1, h, m);
      DivModUnique(s, m, f, e);
    } else {
      MulMonotone(h, f, m);
      assert s - w == (f - 2 * h) * m + e;
      DivModUnique(s - w, m, f - 2 * h, e);
    }
  }

  /** Two digits below p make one number below p * p, and give themselves
      back as its remainder and quotient by p. */
  lemma DigitPair(x: int, y: int, p: int)
    requires 0 <= x < p && 0 <= y < p
    ensures 0 <= p * y + x < p * p
    ensures (p * y + x) % p == x && (p * y + x) / p == y
  {
    MulMonotone(y, p - 1, p);
    MulNonneg(y, p);
    DivModUnique(p * y + x, p, y, x);
  }

  /** Every natural number is its quotient times p plus its remainder. */
  lemma QuotientRemainder(x: nat, p: int)
    requires p > 0
    ensures x == (x / p) * p + x % p && 0 <= x % p < p && 0 <= x / p
  {
    DivModRange(x, p);
  }

  /** A value below n lies in one of the ceil(n / p) groups of p. */
  lemma BelowCeilDiv(x: nat, n: nat, p: int)
    requires p > 0 && x < n
    ensures x / p < (n + p - 1) / p
  {
    var q := x / p;
    QuotientRemainder(x, p);
    assert (q + 1) * p <= n + p - 1;
    DivModUnique(n + p - 1, p, (n + p - 1) / p, (n + p - 1) % p);
    if (n + p - 1) / p <= q {
      MulMonotone((n + p - 1) / p + 1, q + 1, p);
    }
  }
}
