/** Remainders, by hand: the solver is slow on division by a variable. */
module Modular {
  lemma {:induction false} Multiple(n: int, d: int)
    requires d > 0
    ensures n >= 1 ==> n * d >= d
  {
  }

  lemma {:induction false} Difference(q: int, p: int, d: int, r: int, s: int)
    requires 0 <= r < d && 0 <= s < d && q * d + r == p * d + s
    ensures q == p
  {
    Multiple(q - p, d);
    Multiple(p - q, d);
  }

  lemma {:induction false} Quotient(a: nat, d: nat, q: nat, r: nat)
    requires d > 0 && a == q * d + r && r < d
    ensures a % d == r && a / d == q
  {
    var q', r' := a / d, a % d;
    assert a == q' * d + r';
    Difference(q, q', d, r, r');
  }

  lemma {:induction false} Small(k: nat, d: nat)
    requires k < d
    ensures k % d == k && k / d == 0
  {
    Quotient(k, d, 0, k);
  }

  lemma {:induction false} Wrap(a: nat, d: nat)
    requires d > 0
    ensures (a + d) % d == a % d && (a + d) / d == a / d + 1
  {
    var q, r := a / d, a % d;
    assert a == q * d + r;
    assert a + d == (q + 1) * d + r;
    Quotient(a + d, d, q + 1, r);
  }

  /** One turn around a ring. */
  lemma {:induction false} Turn(a: nat, d: nat)
    requires a < 2 * d
    ensures a % d == if a < d then a else a - d
  {
    if a < d {
      Small(a, d);
    } else {
      Wrap(a - d, d);
      Small(a - d, d);
    }
  }

  lemma {:induction false} Successor(n: nat, d: nat)
    ensures (n + 1) * d == n * d + d
  {
  }

  lemma {:induction false} Product(a: nat, b: nat, d: nat)
    requires a <= b
    ensures a * d <= b * d
  {
  }

  /** Block number and offset in the block: where a number of bytes ends up when blocks are counted from `first`. */
  lemma {:induction false} BlockAddress(n: nat, d: nat, first: nat, limit: nat)
    requires d > 0 && first <= limit && n < (limit - first) * d
    ensures (first + n / d) * d + n % d == first * d + n && (first + n / d) * d + d <= limit * d && n % d < d
  {
    var q, r := n / d, n % d;
    assert n == q * d + r;
    if q >= limit - first {
      Product(limit - first, q, d);
    }
    Product(first + q + 1, limit, d);
    assert (first + q + 1) * d == (first + q) * d + d == first * d + q * d + d;
  }

  /** In blocks of a multiple of four bytes, multiples of four stay so. */
  lemma {:induction false} WordAligned(c: nat, d: nat)
    requires d > 0 && d % 4 == 0
    ensures 4 * c % d / 4 * 4 == 4 * c % d && 4 * c % d + 4 <= d
  {
    var w := d / 4;
    var q, r := c / w, c % w;
    assert c == q * w + r;
    assert 4 * c == q * d + 4 * r by { assert 4 * (q * w) == q * (4 * w); }
    Quotient(4 * c, d, q, 4 * r);
  }

  /** Words in blocks of a multiple of four bytes: which block, and where in it. */
  lemma {:induction false} WordBlock(c: nat, d: nat)
    requires d > 0 && d % 4 == 0
    ensures 4 * c / d == c / (d / 4) && 4 * c % d == 4 * (c % (d / 4)) && 4 * (c % (d / 4)) + 4 <= d
  {
    var w := d / 4;
    var q, r := c / w, c % w;
    assert c == q * w + r;
    assert 4 * c == q * d + 4 * r by { assert 4 * (q * w) == q * (4 * w); }
    Quotient(4 * c, d, q, 4 * r);
  }

  /** A number that begins no block lies in the block of the number before it. */
  lemma {:induction false} SameBlock(i: nat, w: nat)
    requires w > 0 && i % w != 0
    ensures i > 0 && (i - 1) / w == i / w
  {
    if i > 0 {
      Quotient(i - 1, w, i / w, i % w - 1);
    }
  }

  lemma {:induction false} BlockNumber(i: nat, w: nat)
    requires w > 0
    ensures i < w ==> i / w == 0 && i % w == i
    ensures i >= w ==> i / w >= 1
  {
    if i < w {
      Small(i, w);
    } else {
      Multiple(i / w, w);
    }
  }
}
