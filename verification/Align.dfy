/** `MPP_ALIGN`: rounding up by masking. */
module Align {
  import opened Bits

  /** `(x + a - 1) & ~(a - 1)`, absent overflow. */
  function MppAlign(x: nat, a: nat): nat
    requires a > 0
  {
    AndNot(x + a - 1, a - 1)
  }

  /** The same where the sum has w unsigned bits and the alignment v of them: the
      mask is complemented in v bits and extended with zeros. */
  function MppAlignWrapped(x: nat, a: nat, w: nat, v: nat): nat
    requires 0 < a <= Pow2(v)
  {
    And((x + a - 1) % Pow2(w), Not(a - 1, v))
  }

  /** r is the least multiple of a that is not below x. */
  ghost predicate IsRoundedUp(r: nat, x: nat, a: nat)
    requires a > 0
  {
    r % a == 0 && x <= r && forall n: nat :: n % a == 0 && x <= n ==> r <= n
  }

  ghost predicate IsPow2(a: nat) {
    exists k: nat :: a == Pow2(k)
  }

  lemma NextMultiple(x: nat, a: nat)
    requires a > 0
    ensures IsRoundedUp(((x + a - 1) / a) * a, x, a)
  {
    var q := (x + a - 1) / a;
    var r := q * a;
    DivMod(x + a - 1, a);
    QuotientUnique(r, a, q, 0);
    forall n: nat | n % a == 0 && x <= n ensures r <= n {
      DivMod(n, a);
      MulOrder(a, n / a, q);
    }
  }

  lemma RoundedUpOne(n: nat, a: nat)
    requires a > 0 && IsRoundedUp(n, 1, a)
    ensures n == a
  {
    QuotientUnique(a, a, 1, 0);
    DivMod(n, a);
    MulOrder(a, 0, n / a);
  }

  /** For an alignment 2^k the mask form is rounding up. */
  lemma AlignRoundsUp(x: nat, k: nat)
    ensures IsRoundedUp(MppAlign(x, Pow2(k)), x, Pow2(k))
  {
    AndNotMask(x + Pow2(k) - 1, k);
    NextMultiple(x, Pow2(k));
  }

  /** The mask form rounds every x up if and only if the alignment is a power of two. */
  lemma AlignRoundsUpIffPow2(a: nat)
    requires a > 0
    ensures (forall x: nat :: IsRoundedUp(MppAlign(x, a), x, a)) <==> IsPow2(a)
  {
    if IsPow2(a) {
      var k: nat :| a == Pow2(k);
      forall x: nat ensures IsRoundedUp(MppAlign(x, a), x, a) {
        AlignRoundsUp(x, k);
      }
    } else {
      LowestBit(a);
      if IsRoundedUp(MppAlign(1, a), 1, a) {
        RoundedUpOne(MppAlign(1, a), a);
        assert false;
      }
    }
  }

  /** a & ~(a - 1) is a itself only if a is a power of two. */
  lemma {:induction false} LowestBit(a: nat)
    requires a > 0
    ensures AndNot(a, a - 1) == a ==> IsPow2(a)
    decreases a
  {
    if a % 2 == 1 {
      AndNotSelf(a / 2);
      assert Pow2(0) == 1;
    } else {
      var b := a / 2;
      assert (a - 1) / 2 == b - 1;
      LowestBit(b);
      if AndNot(b, b - 1) == b {
        var k: nat :| b == Pow2(k);
        assert a == Pow2(k + 1);
      }
    }
  }

  /** The mask leaves only the low v bits of the sum. */
  lemma LowBitsOnly(x: nat, a: nat, w: nat, v: nat)
    requires 0 < a <= Pow2(v) && v <= w
    ensures MppAlignWrapped(x, a, w, v) == AndNot((x + a - 1) % Pow2(v), a - 1)
  {
    AndNotWidth((x + a - 1) % Pow2(w), a - 1, v);
    ModMod(x + a - 1, v, w);
  }

  lemma ModMod(n: nat, v: nat, w: nat)
    requires v <= w
    ensures (n % Pow2(w)) % Pow2(v) == n % Pow2(v)
  {
    var q := Pow2Quotient(v, w);
    ModOfMultiple(n, Pow2(v), q);
  }

  lemma ModOfMultiple(n: nat, m: nat, q: nat)
    requires m > 0 && q > 0
    ensures m * q > 0 && (n % (m * q)) % m == n % m
  {
    MulPositive(m, q);
    var r := n % (m * q);
    DivMod(n, m * q);
    DivMod(r, m);
    Regroup(m, q, n / (m * q), r / m);
    QuotientUnique(n, m, q * (n / (m * q)) + r / m, r % m);
  }

  lemma {:induction false} Pow2Quotient(v: nat, w: nat) returns (q: nat)
    requires v <= w
    ensures q > 0 && Pow2(w) == Pow2(v) * q
    decreases w
  {
    if v == w {
      q := 1;
    } else {
      var half := Pow2Quotient(v, w - 1);
      q := 2 * half;
      assert 2 * (Pow2(v) * half) == Pow2(v) * q;
    }
  }

  lemma DoesNotWrap(x: nat, k: nat, w: nat, v: nat)
    requires k < v <= w && x + Pow2(k) - 1 < Pow2(v)
    ensures Pow2(k) <= Pow2(v) && MppAlignWrapped(x, Pow2(k), w, v) == MppAlign(x, Pow2(k))
  {
    Pow2Monotone(k, v);
    LowBitsOnly(x, Pow2(k), w, v);
    QuotientUnique(x + Pow2(k) - 1, Pow2(v), 0, x + Pow2(k) - 1);
  }

  /** When the sum needs more than v bits the result is below 2^v, and rounding up is not. */
  lemma FallsShort(x: nat, k: nat, w: nat, v: nat)
    requires k < v <= w && x + Pow2(k) - 1 >= Pow2(v)
    ensures Pow2(k) <= Pow2(v) && MppAlignWrapped(x, Pow2(k), w, v) < Pow2(v) <= MppAlign(x, Pow2(k))
  {
    StaysBelow(x, k, w, v);
    KeepsHigh(x, k, v);
  }

  lemma StaysBelow(x: nat, k: nat, w: nat, v: nat)
    requires k < v <= w
    ensures Pow2(k) <= Pow2(v) && MppAlignWrapped(x, Pow2(k), w, v) < Pow2(v)
  {
    Pow2Monotone(k, v);
    LowBitsOnly(x, Pow2(k), w, v);
    var low := (x + Pow2(k) - 1) % Pow2(v);
    AndNotMask(low, k);
    RoundedDown(low, Pow2(k));
  }

  lemma KeepsHigh(x: nat, k: nat, v: nat)
    requires k <= v && x + Pow2(k) - 1 >= Pow2(v)
    ensures MppAlign(x, Pow2(k)) >= Pow2(v)
  {
    var sum := x + Pow2(k) - 1;
    AndNotMask(sum, k);
    var q := Pow2Quotient(k, v);
    RoundedDownAtLeast(sum, Pow2(k), q);
  }

  lemma RoundedDown(n: nat, a: nat)
    requires a > 0
    ensures (n / a) * a <= n
  {
    DivMod(n, a);
  }

  lemma RoundedDownAtLeast(n: nat, a: nat, q: nat)
    requires a > 0 && a * q <= n
    ensures a * q <= (n / a) * a
  {
    DivMod(n, a);
    MulOrder(a, n / a, q);
  }

  /** With a sum of w bits and an alignment of v of them the macro rounds up if and
      only if the sum fits v bits; with v == w, one that wraps gives 0. */
  lemma AlignWrappedIff(x: nat, k: nat, w: nat, v: nat)
    requires k < v <= w && x < Pow2(w)
    ensures Pow2(k) <= Pow2(v)
    ensures IsRoundedUp(MppAlignWrapped(x, Pow2(k), w, v), x, Pow2(k)) <==> x + Pow2(k) - 1 < Pow2(v)
    ensures v == w && x + Pow2(k) - 1 >= Pow2(v) ==> MppAlignWrapped(x, Pow2(k), w, v) == 0
  {
    Pow2Monotone(k, v);
    AlignRoundsUp(x, k);
    if x + Pow2(k) - 1 < Pow2(v) {
      DoesNotWrap(x, k, w, v);
    } else {
      FallsShort(x, k, w, v);
      if v == w {
        WrapsToZero(x, k, w);
      }
    }
  }

  lemma WrapsToZero(x: nat, k: nat, w: nat)
    requires k < w && x < Pow2(w) && x + Pow2(k) - 1 >= Pow2(w)
    ensures Pow2(k) <= Pow2(w) && MppAlignWrapped(x, Pow2(k), w, w) == 0
  {
    var r := x + Pow2(k) - 1 - Pow2(w);
    Pow2Monotone(k, w);
    LowBitsOnly(x, Pow2(k), w, w);
    QuotientUnique(x + Pow2(k) - 1, Pow2(w), 1, r);
    AndNotMask(r, k);
    QuotientUnique(r, Pow2(k), 0, r);
  }

  lemma {:induction false} Pow2Monotone(j: nat, k: nat)
    requires j <= k
    ensures Pow2(j) <= Pow2(k)
    decreases k
  {
    if j < k {
      Pow2Monotone(j, k - 1);
    }
  }

  lemma {:induction false} Pow2Divides(j: nat, k: nat, n: nat)
    requires j <= k && n % Pow2(k) == 0
    ensures n % Pow2(j) == 0
    decreases k
  {
    if j < k {
      var m := Pow2(k - 1);
      var q := n / Pow2(k);
      assert n == Pow2(k) * q == m * (2 * q);
      QuotientUnique(n, m, 2 * q, 0);
      Pow2Divides(j, k - 1, n);
    }
  }

  lemma AlignMonotone(x: nat, y: nat, k: nat)
    requires x <= y
    ensures MppAlign(x, Pow2(k)) <= MppAlign(y, Pow2(k))
  {
    AlignRoundsUp(x, k);
    AlignRoundsUp(y, k);
  }

  /** Aligning to 2^j and then to 2^k is aligning to the larger; with j == k,
      aligning again changes nothing. */
  lemma AlignTwice(x: nat, j: nat, k: nat)
    ensures MppAlign(MppAlign(x, Pow2(j)), Pow2(k)) == MppAlign(x, Pow2(if j <= k then k else j))
  {
    var r := MppAlign(x, Pow2(j));
    AlignRoundsUp(x, j);
    AlignRoundsUp(r, k);
    if j <= k {
      AlignRoundsUp(x, k);
      Pow2Divides(j, k, MppAlign(x, Pow2(k)));
    } else {
      Pow2Divides(k, j, r);
    }
  }
}
