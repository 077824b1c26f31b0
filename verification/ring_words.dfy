/**
 Bitwise facts about ring cursors on natural numbers, and the rounding that the ring's
 own initialisation uses.
 */
module RingWords {
  import opened Reversal
  import opened Bits

  /** Bitwise and. */
  function And(a: nat, b: nat): nat
    decreases a
  {
    if a == 0 then 0 else a % 2 * (b % 2) + 2 * And(a / 2, b / 2)
  }

  /** As many one bits as a number has digits. */
  function Ones(x: nat): nat {
    if x == 0 then 0 else 1 + 2 * Ones(x / 2)
  }

  // ------------------------------------------------------------- bitwise and

  lemma {:induction false} AndBound(a: nat, b: nat)
    ensures And(a, b) <= b
    decreases a
  {
    if a != 0 {
      AndBound(a / 2, b / 2);
    }
  }

  /** Masking with a power of two less one is the remainder. */
  lemma {:induction false} AndIsRemainder(a: nat, k: nat)
    ensures And(a, Pow2(k) - 1) == a % Pow2(k)
    decreases k
  {
    if k == 0 {
      AndBound(a, 0);
    } else if a == 0 {
      RemainderIs(0, Pow2(k), 0, 0);
    } else {
      AndIsRemainder(a / 2, k - 1);
      assert (Pow2(k) - 1) / 2 == Pow2(k - 1) - 1 && (Pow2(k) - 1) % 2 == 1;
      DoubleRemainder(a / 2, a % 2, Pow2(k - 1));
      assert 2 * (a / 2) + a % 2 == a;
    }
  }

  /** The machine's `&` is this function. */
  lemma {:induction false} AndOfWords(a: bv64, b: bv64, c: bv64, k: nat)
    requires IsAnd(a, b, c) && Nat(a) < Pow2(k)
    ensures Nat(c) == And(Nat(a), Nat(b))
    decreases k
  {
    hide Nat, Half, Bit, IsAnd;
    if k == 0 {
      NoneAnd(a, b, c);
    } else {
      Halve(a);
      Halve(b);
      Halve(c);
      HalfBound(a, k);
      IsAndHalf(a, b, c);
      IsAndBit(a, b, c);
      AndOfWords(Half(a), Half(b), Half(c), k - 1);
      AndUnfold(Nat(a), Nat(b), Nat(Half(a)), Bit(a), Nat(Half(b)), Bit(b));
    }
  }

  lemma NoneAnd(a: bv64, b: bv64, c: bv64)
    requires IsAnd(a, b, c) && Nat(a) == 0
    ensures Nat(c) == And(Nat(a), Nat(b))
  {
    NatZero(a);
    assert c == 0;
  }

  lemma AndUnfold(a: nat, b: nat, a': nat, x: nat, b': nat, y: nat)
    requires a == 2 * a' + x && b == 2 * b' + y && x <= 1 && y <= 1
    ensures And(a, b) == x * y + 2 * And(a', b')
  {
    assert a / 2 == a' && b / 2 == b' && a % 2 == x && b % 2 == y;
  }

  // ---------------------------------------------------------------- rounding

  /** The bits of a 32-bit word smeared to the right. */
  function Smear(x: bv64): bv64 {
    var x1 := x | (x >> 1);
    var x2 := x1 | (x1 >> 2);
    var x3 := x2 | (x2 >> 4);
    var x4 := x3 | (x3 >> 8);
    x4 | (x4 >> 16)
  }

  /** A 32-bit word. */
  predicate Narrow(x: bv64) {
    x & 0xFFFF_FFFF == x
  }

  /** gp_align32pow2 gives a word of ones: a power of two less one, and not the power. */
  method Align32Pow2(x0: bv64) returns (x: bv64)
    requires Narrow(x0) && x0 != 0
    ensures Nat(x) == Ones(Nat(x0) - 1)
  {
    hide Nat;
    Decrement(x0, x0 - 1);
    x := x0 - 1;
    ghost var y := x;
    x := x | (x >> 1);
    x := x | (x >> 2);
    x := x | (x >> 4);
    x := x | (x >> 8);
    x := x | (x >> 16);
    Smeared(x0, y, x);
  }

  lemma Smeared(x0: bv64, y: bv64, x: bv64)
    requires Narrow(x0) && x0 != 0 && y == x0 - 1 && x == Smear(y)
    ensures Nat(x) == Ones(Nat(y))
  {
    hide Nat, Smear;
    WordPower();
    NatBound(y);
    SmearIsOnes(y, 64);
  }

  lemma Decrement(x: bv64, y: bv64)
    requires x != 0 && y == x - 1
    ensures Nat(x) > 0 && Nat(y) == Nat(x) - 1
  {
    hide Nat;
    Before(x, y);
    WordPower();
    NatBound(y);
    Increment(y, x, 64);
  }

  lemma Before(x: bv64, y: bv64)
    requires x != 0 && y == x - 1
    ensures x == y + 1 && y != ONES
  {
  }

  lemma {:induction false} SmearIsOnes(x: bv64, k: nat)
    requires Nat(x) < Pow2(k) && Narrow(x)
    ensures Nat(Smear(x)) == Ones(Nat(x))
    decreases k
  {
    hide Nat, Half, Bit, Smear, Narrow;
    if Nat(x) == 0 {
      NatZero(x);
      SmearZero(x);
    } else {
      NotZero(x);
      Halve(x);
      Halve(Smear(x));
      HalfBound(x, k);
      SmearHalf(x);
      NarrowHalf(x);
      SmearIsOnes(Half(x), k - 1);
      SmearBit(x);
      assert Nat(x) / 2 == Nat(Half(x));
    }
  }

  lemma NotZero(x: bv64)
    requires Nat(x) != 0
    ensures x != 0
  {
  }

  lemma NarrowHalf(x: bv64)
    requires Narrow(x)
    ensures Narrow(Half(x))
  {
  }

  lemma SmearZero(x: bv64)
    requires x == 0
    ensures Nat(Smear(x)) == Ones(Nat(x))
  {
  }

  lemma SmearHalf(x: bv64)
    ensures Half(Smear(x)) == Smear(Half(x))
  {
  }

  lemma SmearBit(x: bv64)
    requires x != 0 && Narrow(x)
    ensures Bit(Smear(x)) == 1
  {
  }

  lemma {:induction false} OnesFacts(x: nat)
    ensures Ones(x) >= x
    ensures x > 0 ==> Ones(x) % 2 == 1
    ensures Ones(x) <= 2 * x
  {
    if x > 0 {
      OnesFacts(x / 2);
    }
  }

  /** Ones(x) is the least number 2^k - 1 from x up. */
  lemma {:induction false} OnesIsLeast(x: nat) returns (k: nat)
    ensures Ones(x) == Pow2(k) - 1 && x <= Ones(x)
    ensures forall j: nat | x <= Pow2(j) - 1 :: Ones(x) <= Pow2(j) - 1
  {
    k := 0;
    if x > 0 {
      k := OnesIsLeast(x / 2);
      k := k + 1;
      forall j: nat | x <= Pow2(j) - 1 ensures Ones(x) <= Pow2(j) - 1 {
        assert j > 0 && x / 2 <= Pow2(j - 1) - 1;
      }
    }
  }

  /** Ones are a power of two only when they are a single one. */
  lemma OnesNotPower(x: nat, k: nat)
    requires Ones(x) == Pow2(k)
    ensures x == 1
  {
    OnesFacts(x);
    if k > 0 {
      PowEven(k);
    }
  }

  lemma PowEven(k: nat)
    requires k > 0
    ensures Pow2(k) % 2 == 0
  {
  }
}
