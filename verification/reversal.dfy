/**
 Bit reversal on natural numbers: Reversed(k, x) is the k-bit number x read backwards.
 A table of 2^k buckets cuts the reversed words into 2^k stretches of equal width.
 */
module Reversal {

  function Pow2(k: nat): (p: nat)
    ensures p > 0
  {
    if k == 0 then 1 else 2 * Pow2(k - 1)
  }

  function Reversed(k: nat, x: nat): nat {
    if k == 0 then 0 else x % 2 * Pow2(k - 1) + Reversed(k - 1, x / 2)
  }

  lemma {:induction false} PowAdd(a: nat, b: nat)
    ensures Pow2(a + b) == Pow2(a) * Pow2(b)
  {
    if a > 0 {
      PowAdd(a - 1, b);
      Assoc(2, Pow2(a - 1), Pow2(b));
    }
  }

  lemma Assoc(a: nat, b: nat, c: nat)
    ensures a * b * c == a * (b * c)
  {
  }

  lemma Distribute(a: nat, b: nat, c: nat)
    ensures (a + b) * c == a * c + b * c
  {
  }

  lemma {:induction false} ReversedBound(k: nat, x: nat)
    ensures Reversed(k, x) < Pow2(k)
  {
    if k > 0 {
      ReversedBound(k - 1, x / 2);
      BitTimes(x % 2, Pow2(k - 1));
    }
  }

  lemma BitTimes(b: nat, p: nat)
    requires b <= 1
    ensures b * p <= p && (b == 0 ==> b * p == 0) && (b == 1 ==> b * p == p)
  {
  }

  lemma {:induction false} ReversedZero(k: nat)
    ensures Reversed(k, 0) == 0
  {
    if k > 0 {
      ReversedZero(k - 1);
    }
  }

  lemma {:induction false} ReversedOnes(k: nat)
    ensures Reversed(k, Pow2(k) - 1) == Pow2(k) - 1
  {
    if k > 0 {
      ReversedOnes(k - 1);
      assert (Pow2(k) - 1) / 2 == Pow2(k - 1) - 1;
    }
  }

  /** Reversing two parts side by side: the parts change places. */
  lemma {:induction false} ReversedSplit(a: nat, b: nat, x: nat, y: nat)
    requires x < Pow2(a)
    ensures Reversed(a + b, x + Pow2(a) * y) == Reversed(a, x) * Pow2(b) + Reversed(b, y)
  {
    if a > 0 {
      var half := x / 2 + Pow2(a - 1) * y;
      Assoc(2, Pow2(a - 1), y);
      assert x + Pow2(a) * y == 2 * half + x % 2;
      assert (x + Pow2(a) * y) % 2 == x % 2 && (x + Pow2(a) * y) / 2 == half;
      ReversedSplit(a - 1, b, x / 2, y);
      PowAdd(a - 1, b);
      Assoc(x % 2, Pow2(a - 1), Pow2(b));
      Distribute(x % 2 * Pow2(a - 1), Reversed(a - 1, x / 2), Pow2(b));
    } else {
      assert Pow2(0) * y == y;
    }
  }

  /** Reversing twice gives the number back. */
  lemma {:induction false} ReversedTwice(k: nat, x: nat)
    requires x < Pow2(k)
    ensures Reversed(k, Reversed(k, x)) == x
  {
    if k > 0 {
      ReversedTwice(k - 1, x / 2);
      TwiceStep(k, x);
    }
  }

  lemma TwiceStep(k: nat, x: nat)
    requires k > 0 && Reversed(k - 1, Reversed(k - 1, x / 2)) == x / 2
    ensures Reversed(k, Reversed(k, x)) == x
  {
    hide Reversed, Pow2;
    var low := Reversed(k - 1, x / 2);
    ReversedTop(k, x);
    ReversedBound(k - 1, x / 2);
    ReversedSplit(k - 1, 1, low, x % 2);
    ReversedBit(x % 2);
  }

  lemma ReversedTop(k: nat, x: nat)
    requires k > 0
    ensures Reversed(k, x) == Reversed(k - 1, x / 2) + Pow2(k - 1) * (x % 2)
  {
  }

  lemma ReversedBit(b: nat)
    requires b <= 1
    ensures Reversed(1, b) == b && Pow2(1) == 2
  {
    assert Reversed(1, b) == b % 2 * Pow2(0) + Reversed(0, b / 2);
  }

  lemma QuotientBelow(x: nat, p: nat, n: nat)
    requires 0 < p && x < p * n
    ensures Div(x, p) < n
  {
    assert x == x / p * p + x % p;
    MultipleBound(p, x / p - n);
  }

  function Div(x: nat, p: nat): nat
    requires p > 0
  {
    x / p
  }

  lemma RemainderIs(x: nat, p: nat, q: nat, r: nat)
    requires p > 0 && r < p && x == p * q + r
    ensures x % p == r && Div(x, p) == q
  {
    var d := x / p - q;
    assert x == p * (x / p) + x % p;
    assert p * d == r - x % p by { assert p * (x / p) - p * q == p * d; }
    MultipleBound(p, d);
  }

  lemma MultipleBound(p: int, d: int)
    requires p > 0
    ensures d > 0 ==> p * d >= p
    ensures d < 0 ==> p * d <= -p
  {
  }

  // ----------------------------------- 64-bit numbers in a table of 2^k buckets

  /** The bucket of a number, counted in the order of the reversed numbers. */
  function Group(k: nat, x: nat): nat {
    Reversed(k, x % Pow2(k))
  }

  /** The place of the reversed number within the stretch of its bucket. */
  function Offset(k: nat, x: nat): nat
    requires k <= 64
  {
    Reversed(64 - k, Div(x, Pow2(k)))
  }

  lemma GroupAndOffset(k: nat, x: nat)
    requires k <= 64
    ensures Reversed(64, x) == Group(k, x) * Pow2(64 - k) + Offset(k, x)
    ensures Group(k, x) < Pow2(k) && Offset(k, x) < Pow2(64 - k)
  {
    hide Reversed, Pow2;
    var p := Pow2(k);
    assert x == x % p + p * (x / p);
    ReversedSplit(k, 64 - k, x % p, Div(x, p));
    ReversedBound(k, x % p);
    ReversedBound(64 - k, Div(x, p));
  }

  lemma SameGroup(k: nat, x: nat, y: nat)
    ensures Group(k, x) == Group(k, y) <==> x % Pow2(k) == y % Pow2(k)
  {
    hide Reversed, Pow2;
    ReversedTwice(k, x % Pow2(k));
    ReversedTwice(k, y % Pow2(k));
  }

  /** The number with all bits above the bucket set comes last in the stretch. */
  lemma LastOfGroup(k: nat, x: nat, y: nat)
    requires k <= 64 && y == x % Pow2(k) + Pow2(k) * (Pow2(64 - k) - 1)
    ensures Reversed(64, y) == (Group(k, x) + 1) * Pow2(64 - k) - 1
  {
    hide Reversed, Pow2;
    var g := Pow2(64 - k);
    RemainderIs(y, Pow2(k), g - 1, x % Pow2(k));
    GroupAndOffset(k, y);
    ReversedOnes(64 - k);
    Distribute(Group(k, x), 1, g);
  }
}
