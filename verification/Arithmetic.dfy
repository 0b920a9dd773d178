/** Powers, and the few facts about / and % that the integer models need. */
module Arithmetic {

  function Pow(b: nat, e: nat): (r: nat)
    ensures b > 0 ==> r > 0
  {
    if e == 0 then 1 else b * Pow(b, e - 1)
  }

  lemma {:induction false} PowAdd(b: nat, i: nat, j: nat)
    ensures Pow(b, i + j) == Pow(b, i) * Pow(b, j)
  {
    if i > 0 {
      PowAdd(b, i - 1, j);
      calc {
        Pow(b, i + j);
        b * (Pow(b, i - 1) * Pow(b, j));
        (b * Pow(b, i - 1)) * Pow(b, j);
      }
    }
  }

  lemma {:induction false} PowMonotone(b: nat, i: nat, j: nat)
    requires b > 0 && i <= j
    ensures Pow(b, i) <= Pow(b, j)
  {
    hide Pow;
    PowAdd(b, i, j - i);
    MulMonotone(Pow(b, i), 1, Pow(b, j - i));
  }

  lemma {:induction false} PowPow(b: nat, i: nat, j: nat)
    ensures 0 <= i * j && Pow(Pow(b, i), j) == Pow(b, i * j)
  {
    if j > 0 {
      PowPow(b, i, j - 1);
      assert i * j == i + i * (j - 1);
      PowAdd(b, i, i * (j - 1));
    }
  }

  /** Squaring the base halves the exponent. */
  lemma {:induction false} PowSquare(b: nat, k: nat)
    ensures Pow(b * b, k) == Pow(b, 2 * k)
  {
    PowPow(b, 2, k);
    assert Pow(b, 2) == b * Pow(b, 1) == b * b;
  }

  lemma MulMonotone(a: nat, x: int, y: int)
    requires x <= y
    ensures a * x <= a * y
  {
  }

  lemma MulDistributes(x: int, y: int, w: int)
    ensures (x + y) * w == x * w + y * w
    ensures (x - y) * w == x * w - y * w
  {
  }

  lemma MulAssociative(x: int, y: int, z: int)
    ensures (x * y) * z == x * (y * z)
  {
  }

  lemma MulCommute3(x: int, y: int, z: int)
    ensures x * (y * z) == y * (x * z)
  {
  }

  lemma MulStrict(x: nat, y: nat, wx: nat, wy: nat)
    requires x < wx && y < wy
    ensures x * y < wx * wy
  {
    MulMonotone(x, y, wy - 1);
    MulMonotone(wy - 1, x, wx - 1);
    assert (wy - 1) * (wx - 1) == wx * wy - wx - wy + 1;
  }

  /** The schoolbook column: two digits multiplied, plus a digit and a carry, fit two digits. */
  lemma DigitProduct(x: nat, y: nat, c: nat, d: nat, b: nat)
    requires x < b && y < b && c < b && d < b
    ensures x * y + c + d < b * b && (x * y + c + d) / b < b
  {
    MulMonotone(x, y, b - 1);
    MulMonotone(b - 1, x, b - 1);
    var s := x * y + c + d;
    assert (b - 1) * (b - 1) == b * b - 2 * b + 1;
    assert s == b * (s / b) + s % b;
    if s / b >= b { MulMonotone(b, b, s / b); }
  }

  /** Quotient and remainder are unique. */
  lemma DivModUnique(a: int, d: int, q: int, r: int)
    requires d > 0 && 0 <= r < d && a == q * d + r
    ensures a / d == q && a % d == r
  {
    var q', r' := a / d, a % d;
    assert a == q' * d + r';
    assert (q - q') * d == r' - r;
    if q > q' {
      MulMonotone(d, 1, q - q');
    } else if q < q' {
      MulMonotone(d, q - q', -1);
    }
  }

  lemma ModMultiple(a: int, k: int, m: int)
    requires m > 0
    ensures (a + k * m) % m == a % m
  {
    var q, r := a / m, a % m;
    assert a + k * m == (q + k) * m + r;
    DivModUnique(a + k * m, m, q + k, r);
  }

  /** A factor may be reduced before multiplying. */
  lemma ModMul(x: nat, y: nat, m: nat)
    requires m > 0
    ensures ((x % m) * y) % m == (x * y) % m
  {
    var q, r := x / m, x % m;
    assert x * y == r * y + (q * y) * m by { assert x == q * m + r; }
    ModMultiple(r * y, q * y, m);
  }

  lemma DivDiv(a: nat, b: nat, c: nat)
    requires b > 0 && c > 0
    ensures b * c > 0 && a / b / c == a / (b * c)
  {
    assert b * c > 0;
    var q, r := a / b, a % b;
    var q', r' := q / c, q % c;
    assert a == q' * (b * c) + (r' * b + r) by {
      assert a == b * q + r && q == c * q' + r';
      assert b * (c * q' + r') == q' * (b * c) + r' * b;
    }
    assert r' * b + r < b * c by { MulMonotone(b, r', c - 1); }
    DivModUnique(a, b * c, q', r' * b + r);
  }

  /** Dividing a sum when the divisor divides one term. */
  lemma DivAddMultiple(a: nat, k: nat, d: nat)
    requires d > 0
    ensures (a + k * d) / d == a / d + k
  {
    assert a + k * d == (a / d + k) * d + a % d;
    DivModUnique(a + k * d, d, a / d + k, a % d);
  }
}
