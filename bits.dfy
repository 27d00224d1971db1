/**
 * Bit arithmetic on unbounded naturals, as Python does it on non-negative ints.
 * Bit i of a basis index stands for the value 2^i.
 */
module Bits {

  function Pow2(n: nat): (p: nat)
    ensures p >= 1
  {
    if n == 0 then 1 else 2 * Pow2(n - 1)
  }

  /** Bit i of x (bit 0 is the least significant). */
  predicate Bit(x: nat, i: nat) {
    if i == 0 then x % 2 == 1 else Bit(x / 2, i - 1)
  }

  /** Python's `a ^ b` on non-negative ints. */
  function Xor(a: nat, b: nat): nat
    decreases a + b
  {
    if a == 0 && b == 0 then 0 else 2 * Xor(a / 2, b / 2) + (a % 2 + b % 2) % 2
  }

  /** Python's `a | b` on non-negative ints. */
  function Or(a: nat, b: nat): nat
    decreases a + b
  {
    if a == 0 && b == 0 then 0
    else 2 * Or(a / 2, b / 2) + (if a % 2 == 1 || b % 2 == 1 then 1 else 0)
  }

  /** Python's `a & b` on non-negative ints. */
  function And(a: nat, b: nat): nat
    decreases a + b
  {
    if a == 0 && b == 0 then 0
    else 2 * And(a / 2, b / 2) + (if a % 2 == 1 && b % 2 == 1 then 1 else 0)
  }

  /** Python's `y << d`. */
  function ShiftLeft(y: nat, d: nat): nat {
    y * Pow2(d)
  }

  /** The index whose low d bits hold `low` and whose higher bits hold `high`. */
  function Pack(high: nat, low: nat, d: nat): nat {
    high * Pow2(d) + low
  }

  /** Python's `a >> d` on a non-negative int. */
  function ShiftRight(a: nat, d: nat): nat {
    DivMod(a, Pow2(d));
    a / Pow2(d)
  }

  // ---------------------------------------------------------------------------
  // Powers of two

  lemma {:induction false} Pow2Add(a: nat, b: nat)
    ensures Pow2(a + b) == Pow2(a) * Pow2(b)
  {
    if a > 0 {
      Pow2Add(a - 1, b);
    }
  }

  lemma {:induction false} Pow2Monotone(a: nat, b: nat)
    requires a <= b
    ensures Pow2(a) <= Pow2(b)
  {
    if a < b {
      Pow2Monotone(a, b - 1);
    }
  }

  // ---------------------------------------------------------------------------
  // Individual bits

  lemma {:induction false} BitHalf(x: nat, i: nat)
    ensures Bit(x / 2, i) == Bit(x, i + 1)
  {
  }

  lemma {:induction false} BitZero(i: nat)
    ensures !Bit(0, i)
  {
    if i > 0 {
      BitZero(i - 1);
    }
  }

  lemma {:induction false} BitPow2(d: nat, i: nat)
    ensures Bit(Pow2(d), i) <==> i == d
  {
    if d == 0 {
      if i > 0 {
        BitZero(i - 1);
      }
    } else if i > 0 {
      assert Pow2(d) / 2 == Pow2(d - 1);
      BitPow2(d - 1, i - 1);
    }
  }

  /** A value below 2^n has no bit at position n or above. */
  lemma {:induction false} BitAboveWidth(x: nat, n: nat, i: nat)
    requires x < Pow2(n) && n <= i
    ensures !Bit(x, i)
  {
    if n == 0 {
      BitZero(i);
    } else {
      BitAboveWidth(x / 2, n - 1, i - 1);
    }
  }

  /** Two naturals with the same bits are equal. */
  lemma {:induction false} BitsDetermine(a: nat, b: nat)
    requires forall i: nat :: Bit(a, i) == Bit(b, i)
    ensures a == b
    decreases a + b
  {
    if a != 0 || b != 0 {
      assert Bit(a, 0) == Bit(b, 0);
      forall i: nat
        ensures Bit(a / 2, i) == Bit(b / 2, i)
      {
        assert Bit(a, i + 1) == Bit(b, i + 1);
      }
      BitsDetermine(a / 2, b / 2);
    }
  }

  /** Bit i of x is the last binary digit of x / 2^i. */
  lemma {:induction false} BitIsDigit(x: nat, i: nat)
    ensures Bit(x, i) <==> (x / Pow2(i)) % 2 == 1
  {
    if i > 0 {
      BitIsDigit(x / 2, i - 1);
      DivDiv(x, 2, Pow2(i - 1));
    }
  }

  /** The low i + 1 bits of x are its low i bits plus bit i. */
  lemma LowBitsStep(x: nat, i: nat)
    ensures x % Pow2(i + 1) == x % Pow2(i) + (if Bit(x, i) then Pow2(i) else 0)
  {
    var p := Pow2(i);
    BitIsDigit(x, i);
    DivMod(x, p);
    var q := x / p;
    DivMod(q, 2);
    var h, digit, low := q / 2, q % 2, x % p;
    Regroup(p, h, digit, low);
    MulMonotone(p, digit, 1);
    DivModUnique(x, 2 * p, h, p * digit + low);
  }

  lemma Regroup(p: int, h: int, d: int, low: int)
    ensures p * (2 * h + d) + low == (2 * p) * h + (p * d + low)
  {
  }

  /** Dividing by p and then by q is dividing by p * q. */
  lemma DivDiv(x: nat, p: nat, q: nat)
    requires p > 0 && q > 0
    ensures (x / p) / q == x / (p * q)
  {
    DivMod(x, p);
    var a := x / p;
    DivMod(a, q);
    var b, s := a / q, a % q;
    MulMonotone(p, s, q - 1);
    assert x == p * (q * b + s) + x % p;
    assert x == (p * q) * b + (p * s + x % p);
    DivModUnique(x, p * q, b, p * s + x % p);
  }

  // ---------------------------------------------------------------------------
  // Exclusive or

  lemma {:induction false} XorBit(a: nat, b: nat, i: nat)
    ensures Bit(Xor(a, b), i) == (Bit(a, i) != Bit(b, i))
    decreases i
  {
    if a == 0 && b == 0 {
      BitZero(i);
    } else if i > 0 {
      XorBit(a / 2, b / 2, i - 1);
    }
  }

  lemma XorSelf(a: nat)
    ensures Xor(a, a) == 0
  {
    forall i: nat
      ensures Bit(Xor(a, a), i) == Bit(0, i)
    {
      XorBit(a, a, i);
      BitZero(i);
    }
    BitsDetermine(Xor(a, a), 0);
  }

  lemma XorZero(a: nat)
    ensures Xor(a, 0) == a && Xor(0, a) == a
  {
    forall i: nat
      ensures Bit(Xor(a, 0), i) == Bit(a, i) && Bit(Xor(0, a), i) == Bit(a, i)
    {
      XorBit(a, 0, i);
      XorBit(0, a, i);
      BitZero(i);
    }
    BitsDetermine(Xor(a, 0), a);
    BitsDetermine(Xor(0, a), a);
  }

  lemma XorCommutes(a: nat, b: nat)
    ensures Xor(a, b) == Xor(b, a)
  {
    forall i: nat
      ensures Bit(Xor(a, b), i) == Bit(Xor(b, a), i)
    {
      XorBit(a, b, i);
      XorBit(b, a, i);
    }
    BitsDetermine(Xor(a, b), Xor(b, a));
  }

  lemma XorAssociates(a: nat, b: nat, c: nat)
    ensures Xor(Xor(a, b), c) == Xor(a, Xor(b, c))
  {
    forall i: nat
      ensures Bit(Xor(Xor(a, b), c), i) == Bit(Xor(a, Xor(b, c)), i)
    {
      XorBit(Xor(a, b), c, i);
      XorBit(a, b, i);
      XorBit(a, Xor(b, c), i);
      XorBit(b, c, i);
    }
    BitsDetermine(Xor(Xor(a, b), c), Xor(a, Xor(b, c)));
  }

  /** Xor with the same value twice is the identity. */
  lemma XorCancel(a: nat, b: nat)
    ensures Xor(Xor(a, b), b) == a
  {
    XorAssociates(a, b, b);
    XorSelf(b);
    XorZero(a);
  }

  /** Xor by a value is injective. */
  lemma XorInjective(a: nat, b: nat, c: nat)
    requires Xor(a, c) == Xor(b, c)
    ensures a == b
  {
    XorCancel(a, c);
    XorCancel(b, c);
  }

  lemma {:induction false} XorBound(a: nat, b: nat, n: nat)
    requires a < Pow2(n) && b < Pow2(n)
    ensures Xor(a, b) < Pow2(n)
  {
    if n > 0 && (a != 0 || b != 0) {
      XorBound(a / 2, b / 2, n - 1);
    }
  }

  // ---------------------------------------------------------------------------
  // Or, and, shifts

  /** `y << d | x` is `y * 2^d + x` when x has fewer than d bits. */
  lemma {:induction false} OrShiftIsAdd(y: nat, x: nat, d: nat)
    requires x < Pow2(d)
    ensures Or(ShiftLeft(y, d), x) == y * Pow2(d) + x
  {
    if d == 0 {
      OrZero(y);
    } else {
      var h := y * Pow2(d - 1);
      var a := y * Pow2(d);
      assert a == 2 * h;
      if a != 0 || x != 0 {
        DivModUnique(a, 2, h, 0);
        DivMod(x, 2);
        OrShiftIsAdd(y, x / 2, d - 1);
        assert Or(h, x / 2) == h + x / 2;
        assert Or(a, x) == 2 * Or(h, x / 2) + x % 2;
      }
    }
  }

  lemma {:induction false} OrZero(a: nat)
    ensures Or(a, 0) == a
    decreases a
  {
    if a != 0 {
      OrZero(a / 2);
    }
  }

  lemma {:induction false} AndZero(a: nat)
    ensures And(a, 0) == 0
    decreases a
  {
    if a != 0 {
      AndZero(a / 2);
    }
  }

  /** `a & (2^d - 1)` is `a mod 2^d`. */
  lemma {:induction false} AndMaskIsMod(a: nat, d: nat)
    ensures And(a, Pow2(d) - 1) == a % Pow2(d)
  {
    if d == 0 {
      AndZero(a);
    } else {
      var h := Pow2(d - 1);
      var m := Pow2(d) - 1;
      assert m == 2 * (h - 1) + 1;
      DivModUnique(m, 2, h - 1, 1);
      AndMaskIsMod(a / 2, d - 1);
      assert And(a, m) == 2 * And(a / 2, h - 1) + a % 2;
      ModOfDouble(a, h);
    }
  }

  lemma ModOfDouble(a: nat, m: nat)
    requires m >= 1
    ensures a % (2 * m) == 2 * ((a / 2) % m) + a % 2
  {
    var q := (a / 2) / m;
    var r := (a / 2) % m;
    assert a / 2 == q * m + r;
    assert a == (2 * m) * q + (2 * r + a % 2);
    assert 0 <= 2 * r + a % 2 < 2 * m;
    DivModUnique(a, 2 * m, q, 2 * r + a % 2);
  }

  /** Euclidean division: a == m * (a / m) + a % m with the remainder below m. */
  lemma DivMod(a: int, m: int)
    requires m > 0
    ensures a == m * (a / m) + a % m && 0 <= a % m < m
    ensures a >= 0 ==> 0 <= a / m <= a
  {
    if a >= 0 {
      if a / m < 0 {
        MulMonotone(m, a / m, -1);
      }
      if a / m > a {
        MulMonotone(a / m, 1, m);
      }
    }
  }

  /** The quotient and remainder of a division are unique. */
  lemma DivModUnique(a: int, m: int, q: int, r: int)
    requires m > 0 && 0 <= r < m && a == m * q + r
    ensures a / m == q && a % m == r
  {
    var q0, r0 := a / m, a % m;
    assert a == m * q0 + r0;
    if q0 < q {
      MulMonotone(m, q0 + 1, q);
    } else if q0 > q {
      MulMonotone(m, q + 1, q0);
    }
  }

  /** A packed index with a d-bit low part and an e-bit high part lies below 2^(d + e). */
  lemma PackBound(high: nat, low: nat, d: nat, e: nat)
    requires low < Pow2(d) && high < Pow2(e)
    ensures Pack(high, low, d) < Pow2(d + e)
  {
    var p, q := Pow2(d), Pow2(e);
    Pow2Add(d, e);
    MulMonotone(p, high + 1, q);
    assert high * p + low < p * (high + 1);
  }

  /** A quotient of a value below p * q by p lies below q. */
  lemma DivBound(a: nat, p: nat, q: nat)
    requires p > 0 && a < p * q
    ensures a / p < q
  {
    DivMod(a, p);
    var y := a / p;
    assert p * y <= a;
    if y >= q {
      MulMonotone(p, q, y);
    }
  }

  lemma MulMonotone(m: int, x: int, y: int)
    requires m >= 0 && x <= y
    ensures m * x <= m * y
  {
    assert m * y - m * x == m * (y - x);
  }
}
