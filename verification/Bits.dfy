/** Bitwise operators on natural numbers of any width, bit by bit, and the
    arithmetic they amount to where the operands make it so. */
module Bits {

  function Pow2(k: nat): (r: nat)
    ensures r > 0
  {
    if k == 0 then 1 else 2 * Pow2(k - 1)
  }

  lemma Pow2Step(k: nat)
    ensures Pow2(k + 8) == 256 * Pow2(k)
  {
    Pow2Nibble(k);
    Pow2Nibble(k + 4);
  }

  lemma Pow2Nibble(k: nat)
    ensures Pow2(k + 4) == 16 * Pow2(k)
  {
    assert Pow2(k + 4) == 2 * Pow2(k + 3) == 4 * Pow2(k + 2) == 8 * Pow2(k + 1) == 16 * Pow2(k);
  }

  function Or(a: nat, b: nat): nat {
    if a == 0 && b == 0 then 0
    else 2 * Or(a / 2, b / 2) + if a % 2 == 1 || b % 2 == 1 then 1 else 0
  }

  /** `a & ~b` */
  function AndNot(a: nat, b: nat): nat {
    if a == 0 then 0
    else 2 * AndNot(a / 2, b / 2) + if a % 2 == 1 && b % 2 == 0 then 1 else 0
  }

  function And(a: nat, b: nat): nat {
    if a == 0 then 0
    else 2 * And(a / 2, b / 2) + if a % 2 == 1 && b % 2 == 1 then 1 else 0
  }

  /** `~b` in an unsigned type of v bits. */
  function Not(b: nat, v: nat): nat
    requires b < Pow2(v)
  {
    Pow2(v) - 1 - b
  }

  /** `a << k` */
  function Shl(a: nat, k: nat): nat {
    a * Pow2(k)
  }

  /** `a >> k`, arithmetic for a negative operand. */
  function Shr(a: int, k: nat): int {
    a / Pow2(k)
  }

  predicate Bit(a: nat, i: nat) {
    if i == 0 then a % 2 == 1 else Bit(a / 2, i - 1)
  }

  lemma {:induction false} OrBits(a: nat, b: nat, i: nat)
    ensures Bit(Or(a, b), i) <==> Bit(a, i) || Bit(b, i)
    decreases i
  {
    assert Or(a, b) / 2 == Or(a / 2, b / 2);
    if i > 0 {
      OrBits(a / 2, b / 2, i - 1);
    }
  }

  lemma {:induction false} AndNotBits(a: nat, b: nat, i: nat)
    ensures Bit(AndNot(a, b), i) <==> Bit(a, i) && !Bit(b, i)
    decreases i
  {
    assert AndNot(a, b) / 2 == AndNot(a / 2, b / 2);
    if i > 0 {
      AndNotBits(a / 2, b / 2, i - 1);
    }
  }

  lemma {:induction false} AndBits(a: nat, b: nat, i: nat)
    ensures Bit(And(a, b), i) <==> Bit(a, i) && Bit(b, i)
    decreases i
  {
    assert And(a, b) / 2 == And(a / 2, b / 2);
    if i > 0 {
      AndBits(a / 2, b / 2, i - 1);
    }
  }

  /** The complement has the opposite bit at each of its v places and no others. */
  lemma {:induction false} NotBits(b: nat, v: nat, i: nat)
    requires b < Pow2(v)
    ensures Bit(Not(b, v), i) <==> i < v && !Bit(b, i)
    decreases i
  {
    if v == 0 {
      NoBits(i);
    } else {
      assert Not(b, v) / 2 == Not(b / 2, v - 1);
      if i > 0 {
        NotBits(b / 2, v - 1, i - 1);
      }
    }
  }

  lemma {:induction false} NoBits(i: nat)
    ensures !Bit(0, i)
    decreases i
  {
    if i > 0 {
      NoBits(i - 1);
    }
  }

  /** A complement in v bits, extended with zeros, also clears everything from bit v up. */
  lemma {:induction false} AndNotWidth(a: nat, b: nat, v: nat)
    requires b < Pow2(v)
    ensures And(a, Not(b, v)) == AndNot(a % Pow2(v), b)
    decreases v
  {
    if v == 0 {
      AndZero(a);
    } else {
      var m := Pow2(v - 1);
      assert Not(b, v) / 2 == Not(b / 2, v - 1);
      AndNotWidth(a / 2, b / 2, v - 1);
      HalfMod(a, m);
    }
  }

  lemma {:induction false} AndZero(a: nat)
    ensures And(a, 0) == 0
    decreases a
  {
    if a > 0 {
      AndZero(a / 2);
    }
  }

  lemma HalfMod(a: nat, m: nat)
    requires m > 0
    ensures (a % (2 * m)) / 2 == (a / 2) % m && (a % (2 * m)) % 2 == a % 2
  {
    DivMod(a / 2, m);
    var q, r := (a / 2) / m, (a / 2) % m;
    Regroup(2, m, q, r);
    QuotientUnique(a, 2 * m, q, 2 * r + a % 2);
  }

  lemma MulOrder(d: int, p: int, q: int)
    requires d > 0
    ensures p < q ==> d * p + d <= d * q
  {
    if p < q {
      assert d * q == d * p + d * (q - p);
      MulPositive(d, q - p);
    }
  }

  lemma MulPositive(d: int, n: int)
    requires d > 0 && n > 0
    ensures d <= d * n
  {
  }

  lemma QuotientUnique(x: int, d: int, q: int, r: int)
    requires d > 0 && x == d * q + r && 0 <= r < d
    ensures x / d == q && x % d == r
  {
    DivMod(x, d);
    MulOrder(d, q, x / d);
    MulOrder(d, x / d, q);
  }

  lemma DivMod(x: int, d: int)
    requires d > 0
    ensures x == d * (x / d) + x % d && 0 <= x % d < d
  {
  }

  lemma DivMul(x: int, m: int, n: int)
    requires m > 0 && n > 0
    ensures m * n > 0 && x / (m * n) == (x / m) / n
  {
    MulPositive(m, n);
    DivMod(x, m);
    DivMod(x / m, n);
    var q, r1, r2 := (x / m) / n, x % m, (x / m) % n;
    Regroup(m, n, q, r2);
    MulOrder(m, r2, n);
    MulNonneg(m, r2);
    QuotientUnique(x, m * n, q, m * r2 + r1);
  }

  lemma Regroup(m: int, n: int, q: int, r: int)
    ensures m * (n * q + r) == (m * n) * q + m * r
  {
  }

  lemma MulNonneg(d: int, n: int)
    requires d >= 0 && n >= 0
    ensures d * n >= 0
  {
  }

  /** Or of numbers that share no bit position is their sum. */
  lemma {:induction false} OrDisjoint(hi: nat, lo: nat, k: nat)
    requires lo < Pow2(k)
    ensures Or(hi * Pow2(k), lo) == hi * Pow2(k) + lo
    decreases k
  {
    if k == 0 {
      OrZero(hi);
    } else {
      var h := hi * Pow2(k - 1);
      assert hi * Pow2(k) == 2 * h;
      OrDisjoint(hi, lo / 2, k - 1);
      assert Or(2 * h, lo) == 2 * Or(h, lo / 2) + lo % 2;
    }
  }

  lemma {:induction false} OrZero(a: nat)
    ensures Or(a, 0) == a
    decreases a
  {
    if a > 0 {
      OrZero(a / 2);
    }
  }

  /** Clearing the low k bits. */
  lemma AndNotMask(x: nat, k: nat)
    ensures AndNot(x, Pow2(k) - 1) == (x / Pow2(k)) * Pow2(k)
  {
    AndNotMaskOf(x, k, Pow2(k));
  }

  lemma {:induction false} AndNotMaskOf(x: nat, k: nat, a: nat)
    requires a == Pow2(k)
    ensures AndNot(x, a - 1) == (x / a) * a
    decreases k
  {
    if k == 0 {
      AndNotZero(x);
    } else {
      var m := Pow2(k - 1);
      AndNotOddMask(x, m);
      AndNotMaskOf(x / 2, k - 1, m);
      ClearTwice(x, m);
    }
  }

  lemma ClearTwice(x: nat, m: nat)
    requires m > 0
    ensures 2 * (((x / 2) / m) * m) == (x / (2 * m)) * (2 * m)
  {
    DivMul(x, 2, m);
  }

  lemma AndNotOddMask(x: nat, m: nat)
    requires m > 0
    ensures AndNot(x, 2 * m - 1) == 2 * AndNot(x / 2, m - 1)
  {
    assert 2 * m - 1 == 2 * (m - 1) + 1;
    assert (2 * m - 1) / 2 == m - 1;
  }

  lemma {:induction false} AndNotZero(a: nat)
    ensures AndNot(a, 0) == a
    decreases a
  {
    if a > 0 {
      AndNotZero(a / 2);
    }
  }

  lemma {:induction false} AndNotSelf(a: nat)
    ensures AndNot(a, a) == 0
    decreases a
  {
    if a > 0 {
      AndNotSelf(a / 2);
    }
  }
}
