/** Bitwise operators of the source, defined bit by bit on naturals, and what they are in terms of division. */
module Bits {

  function Pow2(k: nat): (p: nat)
    ensures p > 0
  {
    if k == 0 then 1 else 2 * Pow2(k - 1)
  }

  /** Exclusive or of the low k bits. */
  function XorBits(k: nat, a: nat, b: nat): nat {
    if k == 0 then 0 else 2 * XorBits(k - 1, a / 2, b / 2) + (if a % 2 == b % 2 then 0 else 1)
  }

  /** The low k bits of a that are set in b too. */
  function AndBits(k: nat, a: nat, b: nat): nat {
    if k == 0 then 0 else 2 * AndBits(k - 1, a / 2, b / 2) + (if a % 2 == 1 && b % 2 == 1 then 1 else 0)
  }

  /** The low k bits of a that are clear in b. */
  function AndNotBits(k: nat, a: nat, b: nat): nat {
    if k == 0 then 0 else 2 * AndNotBits(k - 1, a / 2, b / 2) + (if a % 2 == 1 && b % 2 == 0 then 1 else 0)
  }

  /** The low k bits that are set in a or in b. */
  function OrBits(k: nat, a: nat, b: nat): nat {
    if k == 0 then 0 else 2 * OrBits(k - 1, a / 2, b / 2) + (if a % 2 == 1 || b % 2 == 1 then 1 else 0)
  }

  lemma {:induction false} XorBound(k: nat, a: nat, b: nat)
    ensures XorBits(k, a, b) < Pow2(k)
  {
    if k > 0 {
      XorBound(k - 1, a / 2, b / 2);
    }
  }

  lemma {:induction false} XorTwice(k: nat, a: nat, b: nat)
    requires a < Pow2(k)
    ensures XorBits(k, XorBits(k, a, b), b) == a
  {
    if k > 0 {
      XorTwice(k - 1, a / 2, b / 2);
      var x := XorBits(k, a, b);
      assert x / 2 == XorBits(k - 1, a / 2, b / 2);
    }
  }

  lemma {:induction false} AndNotNothing(k: nat, a: nat)
    requires a < Pow2(k)
    ensures AndNotBits(k, a, 0) == a && OrBits(k, a, 0) == a
  {
    if k > 0 {
      AndNotNothing(k - 1, a / 2);
    }
  }

  lemma {:induction false} AndNothing(k: nat, a: nat)
    ensures AndBits(k, a, 0) == 0
  {
    if k > 0 {
      AndNothing(k - 1, a / 2);
    }
  }

  lemma MultipleIsLarge(d: nat, x: nat)
    requires x > 0
    ensures d * x >= d
  {
  }

  lemma RemainderIsUnique(d: nat, x: int, r: nat, r': nat)
    requires r < d && r' < d && d * x == r' - r
    ensures r == r'
  {
    if x > 0 {
      MultipleIsLarge(d, x);
    } else if x < 0 {
      assert d * (-x) == r - r';
      MultipleIsLarge(d, -x);
    }
  }

  /** The remainder by an even number keeps the last bit. */
  lemma RemainderOfHalf(e: nat, p: nat)
    requires p > 0
    ensures e % (2 * p) == 2 * (e / 2 % p) + e % 2
  {
    var h := e / 2;
    var q, r := h / p, 2 * (h % p) + e % 2;
    var q', r' := e / (2 * p), e % (2 * p);
    assert e == 2 * h + e % 2 && h == p * q + h % p;
    assert e == (2 * p) * q' + r';
    assert (2 * p) * (q - q') == r' - r by {
      assert (2 * p) * q == 2 * (p * q);
      assert (2 * p) * (q - q') == (2 * p) * q - (2 * p) * q';
    }
    RemainderIsUnique(2 * p, q - q', r, r');
  }

  /** Masking with j ones keeps the remainder by 2^j. */
  lemma {:induction false} LowBits(k: nat, j: nat, a: nat)
    requires j <= k
    ensures AndBits(k, a, Pow2(j) - 1) == a % Pow2(j)
  {
    if j == 0 {
      AndNothing(k, a);
    } else {
      LowBits(k - 1, j - 1, a / 2);
      RemainderOfHalf(a, Pow2(j - 1));
    }
  }

  lemma AndNotStep(k: nat, a: nat, b: nat)
    requires k > 0
    ensures AndNotBits(k, a, 2 * b + 1) == 2 * AndNotBits(k - 1, a / 2, b)
  {
    assert (2 * b + 1) / 2 == b;
  }

  lemma OrStep(k: nat, a: nat, b: nat)
    requires k > 0
    ensures OrBits(k, 2 * a, b) == 2 * OrBits(k - 1, a, b / 2) + b % 2
  {
    assert 2 * a / 2 == a;
  }

  /** Clearing the low j bits of e and putting t there is e rounded down to a multiple of 2^j, plus t. */
  lemma {:induction false} ReplaceLowBits(k: nat, j: nat, e: nat, t: nat)
    requires j <= k && e < Pow2(k) && t < Pow2(j)
    ensures OrBits(k, AndNotBits(k, e, Pow2(j) - 1), t) == e - e % Pow2(j) + t
  {
    hide AndNotBits, OrBits;
    if j == 0 {
      AndNotNothing(k, e);
      OnlyRemainder(e);
    } else {
      var p := Pow2(j - 1);
      ReplaceLowBits(k - 1, j - 1, e / 2, t / 2);
      AndNotStep(k, e, p - 1);
      OrStep(k, AndNotBits(k - 1, e / 2, p - 1), t);
      RemainderOfHalf(e, p);
    }
  }

  lemma OnlyRemainder(e: nat)
    ensures e % Pow2(0) == 0
  {
  }
}
