/**
  Facts about integer division and remainder by positive divisors, proved
  once from the uniqueness of quotient and remainder.
 */
module Arith {

  lemma DivHalf(x: nat, p: nat)
    requires p >= 1
    ensures x / 2 / p == x / (2 * p)
    ensures x % (2 * p) == 2 * ((x / 2) % p) + x % 2
  {
    var q := x / (2 * p);
    var r := x % (2 * p);
    assert x == q * (2 * p) + r;
    var h := r / 2;
    assert r == 2 * h + r % 2;
    assert x % 2 == r % 2 by {
      assert x == 2 * (q * p + h) + r % 2;
    }
    assert x / 2 == q * p + h by {
      assert x == 2 * (q * p + h) + r % 2;
    }
    assert h < p;
    assert (q * p + h) / p == q && (q * p + h) % p == h by {
      DivModUnique(q * p + h, p, q, h);
    }
  }

  lemma DivModUnique(x: int, p: int, q: int, r: int)
    requires p >= 1 && 0 <= r < p && x == q * p + r
    ensures x / p == q && x % p == r
  {
    var q' := x / p;
    var r' := x % p;
    assert x == q' * p + r';
    var d := q - q';
    assert d * p == r' - r;
    if d >= 1 {
      MulAtLeast(d, p);
    } else if d <= -1 {
      MulAtLeast(-d, p);
    }
  }

  lemma MulAtLeast(d: int, p: int)
    requires d >= 1 && p >= 1
    ensures d * p >= p
  {
    assert d * p == (d - 1) * p + p;
    assert (d - 1) * p >= 0;
  }

  lemma MulMonotone(a: nat, b: nat, x: nat, y: nat)
    requires a <= x && b <= y
    ensures a * b <= x * y
  {
    assert a * b <= x * b;
    assert x * b <= x * y;
  }

  lemma DivBounds(x: nat, d: nat)
    requires d >= 1
    ensures 0 <= x / d <= x
    ensures x % d <= x
  {
    var q := x / d;
    assert x == q * d + x % d;
    if q >= 1 {
      MulAtLeast(q, d);
      MulAtLeast(d, q);
    }
  }

  lemma DivLess(r: nat, a: nat, b: nat)
    requires a >= 1 && b >= 1 && r < a * b
    ensures r / a < b
  {
    if r / a >= b {
      MulAtLeast(r / a - b + 1, a);
    }
  }

  /** Dropping the factor b from the modulus before dividing by a. */
  lemma ModDiv(x: nat, a: nat, b: nat)
    requires a >= 1 && b >= 1
    ensures (x % (a * b)) / a == (x / a) % b
    ensures (x % (a * b)) % a == x % a
  {
    var q := x / (a * b);
    var r := x % (a * b);
    assert x == q * (a * b) + r;
    DivLess(r, a, b);
    assert r == (r / a) * a + r % a;
    assert x == (q * b + r / a) * a + r % a;
    DivModUnique(x, a, q * b + r / a, r % a);
    DivModUnique(q * b + r / a, b, q, r / a);
  }

  /** Remainder by a*b splits into the remainder by a and the next digit in base b. */
  lemma ModSplit(x: nat, a: nat, b: nat)
    requires a >= 1 && b >= 1
    ensures x % (a * b) == x % a + ((x / a) % b) * a
  {
    ModDiv(x, a, b);
    var r := x % (a * b);
    assert r == (r / a) * a + r % a;
  }

  /** A factor common to dividend and divisor cancels. */
  lemma DivCancel(v: nat, c: nat, d: nat)
    requires c >= 1 && d >= 1
    ensures (v * c) / (c * d) == v / d
  {
    var q := v / d;
    var s := v % d;
    assert v == q * d + s;
    assert v * c == q * (c * d) + s * c;
    assert s * c < c * d by {
      assert (d - s) * c >= 1 * c by {
        MulAtLeast(d - s, c);
      }
    }
    DivModUnique(v * c, c * d, q, s * c);
  }

  /** Remainders by a divisor of the modulus are preserved. */
  lemma ModMod(x: nat, a: nat, b: nat)
    requires a >= 1 && b >= 1
    ensures (x % (a * b)) % a == x % a
  {
    ModDiv(x, a, b);
  }
}
