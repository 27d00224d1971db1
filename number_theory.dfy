/**
 * Integer helpers the gates and Shor's post-processing rely on: Python's
 * `a ** e`, `math.gcd`, and the modular inverse `pow(a, -1, N)`.
 */
module NumberTheory {
  import opened Bits

  /** `b ** e` on naturals (`0 ** 0` is 1, as in Python). */
  function Pow(b: nat, e: nat): nat {
    if e == 0 then 1 else b * Pow(b, e - 1)
  }

  lemma {:induction false} PowAdd(b: nat, e1: nat, e2: nat)
    ensures Pow(b, e1 + e2) == Pow(b, e1) * Pow(b, e2)
  {
    if e1 > 0 {
      PowAdd(b, e1 - 1, e2);
      var p, q := Pow(b, e1 - 1), Pow(b, e2);
      assert Pow(b, e1 + e2) == b * (p * q);
      assert b * (p * q) == (b * p) * q;
    }
  }

  /** Squaring the base doubles the exponent. */
  lemma {:induction false} PowSquare(b: nat, e: nat)
    ensures Pow(b * b, e) == Pow(b, 2 * e)
  {
    if e > 0 {
      var bb := b * b;
      PowSquare(b, e - 1);
      var rest := Pow(b, 2 * (e - 1));
      assert Pow(bb, e) == bb * rest;
      PowAdd(b, 2, 2 * (e - 1));
      assert Pow(b, 1) == b;
      assert Pow(b, 2) == bb;
      assert 2 + 2 * (e - 1) == 2 * e;
    }
  }

  /** Raising to the power 2^i is squaring i times. */
  lemma PowPow2Step(b: nat, i: nat)
    ensures Pow(b, Pow2(i + 1)) == Pow(b, Pow2(i)) * Pow(b, Pow2(i))
  {
    PowAdd(b, Pow2(i), Pow2(i));
  }

  // ---------------------------------------------------------------------------
  // Modular arithmetic

  lemma ModAdd(x: int, y: int, m: int)
    requires m >= 1
    ensures (x + y) % m == (x % m + y % m) % m
  {
    DivMod(x, m);
    DivMod(y, m);
    var qx, rx, qy, ry := x / m, x % m, y / m, y % m;
    DivMod(rx + ry, m);
    var q, r := (rx + ry) / m, (rx + ry) % m;
    assert x + y == m * (qx + qy + q) + r;
    DivModUnique(x + y, m, qx + qy + q, r);
  }

  lemma ModMul(x: int, y: int, m: int)
    requires m >= 1
    ensures (x * y) % m == ((x % m) * (y % m)) % m
  {
    DivMod(x, m);
    DivMod(y, m);
    var qx, rx, qy, ry := x / m, x % m, y / m, y % m;
    var k := m * qx * qy + qx * ry + rx * qy;
    assert x * y == m * k + rx * ry by {
      assert x == m * qx + rx && y == m * qy + ry;
      ExpandProduct(m, qx, rx, qy, ry);
    }
    ModMultiple(rx * ry, k, m);
  }

  lemma ExpandProduct(m: int, qx: int, rx: int, qy: int, ry: int)
    ensures (m * qx + rx) * (m * qy + ry) == m * (m * qx * qy + qx * ry + rx * qy) + rx * ry
  {
  }

  lemma MulRotate(x: int, y: int, z: int)
    ensures x * (y * z) == z * (y * x)
  {
  }

  /** Adding a multiple of m does not change a residue. */
  lemma ModMultiple(x: int, k: int, m: int)
    requires m >= 1
    ensures (x + m * k) % m == x % m
  {
    DivMod(x, m);
    var q, r := x / m, x % m;
    assert x + m * k == m * (q + k) + r;
    DivModUnique(x + m * k, m, q + k, r);
  }

  lemma ModOfMod(x: int, m: int)
    requires m >= 1
    ensures (x % m) % m == x % m
  {
    DivMod(x, m);
    DivModUnique(x % m, m, 0, x % m);
  }

  /** Reducing the base first does not change a power's residue. */
  lemma {:induction false} PowMod(b: nat, e: nat, m: nat)
    requires m >= 1
    ensures Pow(b % m, e) % m == Pow(b, e) % m
  {
    if e > 0 {
      PowMod(b, e - 1, m);
      var p, q := Pow(b % m, e - 1), Pow(b, e - 1);
      ModMul(b % m, p, m);
      ModMul(b, q, m);
      ModOfMod(b, m);
      assert Pow(b % m, e) % m == ((b % m) * (p % m)) % m;
      assert Pow(b, e) % m == ((b % m) * (q % m)) % m;
    }
  }

  // ---------------------------------------------------------------------------
  // Greatest common divisor

  /** `math.gcd(a, b)` by Euclid's algorithm. */
  function Gcd(a: nat, b: nat): nat
    decreases b
  {
    if b == 0 then a else Gcd(b, a % b)
  }

  /** Bezout coefficients: `a * x + b * y == Gcd(a, b)`. */
  function Bezout(a: nat, b: nat): (r: (int, int))
    decreases b
    ensures a * r.0 + b * r.1 == Gcd(a, b)
  {
    if b == 0 then (1, 0)
    else
      var (x, y) := Bezout(b, a % b);
      BezoutStep(a, b, x, y);
      (y, x - (a / b) * y)
  }

  lemma BezoutStep(a: nat, b: nat, x: int, y: int)
    requires b > 0
    ensures a * y + b * (x - (a / b) * y) == b * x + (a % b) * y
  {
    DivMod(a, b);
    var q, r := a / b, a % b;
    assert a * y == b * q * y + r * y;
    assert b * (x - q * y) == b * x - b * q * y;
  }

  /** The gcd divides both arguments, and it is 0 only for gcd(0, 0). */
  lemma {:induction false} GcdDivides(a: nat, b: nat)
    ensures Gcd(a, b) == 0 <==> a == 0 && b == 0
    ensures Gcd(a, b) > 0 ==> a % Gcd(a, b) == 0 && b % Gcd(a, b) == 0
    decreases b
  {
    if b > 0 {
      var r := a % b;
      GcdDivides(b, r);
      var g := Gcd(b, r);
      DivMod(a, b);
      DivMod(b, g);
      DivMod(r, g);
      var q, s, t := a / b, b / g, r / g;
      assert a == b * q + r;
      assert a == g * (s * q + t) by {
        assert b * q == g * s * q;
      }
      DivModUnique(a, g, s * q + t, 0);
    }
  }

  /** Every common divisor of a and b divides their gcd. */
  lemma CommonDivisorDividesGcd(a: nat, b: nat, d: nat)
    requires d > 0 && a % d == 0 && b % d == 0
    ensures Gcd(a, b) % d == 0
  {
    var (x, y) := Bezout(a, b);
    DivMod(a, d);
    DivMod(b, d);
    var s, t := a / d, b / d;
    assert a == d * s && b == d * t;
    var g := Gcd(a, b);
    assert g == (d * s) * x + (d * t) * y;
    FactorOut(d, s, x, t, y);
    DivModUnique(g, d, s * x + t * y, 0);
  }

  lemma FactorOut(d: int, s: int, x: int, t: int, y: int)
    ensures (d * s) * x + (d * t) * y == d * (s * x + t * y)
  {
  }

  /** `pow(a, -1, N)`: the inverse of a modulo N, in [0, N). */
  function ModInverse(a: nat, n: nat): (r: nat)
    requires n >= 1 && Gcd(a, n) == 1
    ensures r < n && (a * r) % n == 1 % n
  {
    var (x, y) := Bezout(a, n);
    InverseFromBezout(a, n, x, y);
    x % n
  }

  lemma InverseFromBezout(a: nat, n: nat, x: int, y: int)
    requires n >= 1 && a * x + n * y == 1
    ensures (a * (x % n)) % n == 1 % n
  {
    ModMultiple(a * x, y, n);
    ModMul(a, x, n);
    ModMul(a, x % n, n);
    ModOfMod(x, n);
  }

  /** The inverse is unique: any b with a * b == 1 (mod n) is congruent to it. */
  lemma ModInverseUnique(a: nat, n: nat, b: nat)
    requires n >= 1 && Gcd(a, n) == 1 && (a * b) % n == 1 % n
    ensures b % n == ModInverse(a, n)
  {
    var r := ModInverse(a, n);
    var ar, ab := a * r, a * b;
    // b == b * (a * r) == r * (a * b) == r  (mod n)
    assert (b * ar) % n == b % n by {
      ModMul(b, ar, n);
      ModMul(b, 1, n);
    }
    assert (r * ab) % n == r % n by {
      ModMul(r, ab, n);
      ModMul(r, 1, n);
    }
    MulRotate(b, a, r);
    DivModUnique(r, n, 0, r);
  }
}
