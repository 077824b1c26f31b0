/**
 Word-level arithmetic of the hash table: size masks, bit reversal and the
 reverse-binary cursor.  An `unsigned long` is a `bv64`, so `&`, `|`, `~`, `>>`,
 `<<` and `++` are the operators of the program itself.
 */
module Bits {
  import opened Reversal

  // ---------------------------------------------------------------- reversal

  /** One swap of the reversal: neighbouring groups of `s` bits change places. */
  function Swap(v: bv64, s: bv8, mask: bv64): bv64
    requires s <= 64
  {
    ((v >> s) & mask) | ((v << s) & !mask)
  }

  // The word once groups of 32, 16, 8, 4 and 2 bits have been swapped.
  function After32(v: bv64): bv64 { Swap(v, 32, 0x0000_0000_FFFF_FFFF) }
  function After16(v: bv64): bv64 { Swap(After32(v), 16, 0x0000_FFFF_0000_FFFF) }
  function After8(v: bv64): bv64 { Swap(After16(v), 8, 0x00FF_00FF_00FF_00FF) }
  function After4(v: bv64): bv64 { Swap(After8(v), 4, 0x0F0F_0F0F_0F0F_0F0F) }
  function After2(v: bv64): bv64 { Swap(After4(v), 2, 0x3333_3333_3333_3333) }

  /** The word `v` with its 64 bits in the opposite order. */
  function Rev(v: bv64): bv64 { Swap(After2(v), 1, 0x5555_5555_5555_5555) }

  /** Bit `i` of the reversed word is bit 63 - i of the word. */
  lemma RevBit(v: bv64, i: bv8)
    requires i < 64
    ensures (Rev(v) >> i) & 1 == (v >> (63 - i)) & 1
  {
  }

  /** The next alternating mask of the reversal: groups of `s` ones and zeros. */
  function NextMask(mask: bv64, s: bv8): bv64
    requires s <= 64
  {
    mask ^ (mask << s)
  }

  /** The loop of `rev`: six swaps with halving distance, the alternating mask being
      rebuilt on the way. */
  method ReverseBits(v0: bv64) returns (v: bv64)
    ensures v == Rev(v0)
  {
    hide Rev, Reversing, Swap, NextMask;
    v := v0;
    var s: bv8 := 64;
    var mask: bv64 := !0;
    s := s >> 1;
    ReversingFirst(v0);
    while s > 0
      invariant Reversing(v0, s, mask, v)
      decreases s
    {
      ReverseStep(v0, s, mask, v);
      mask := NextMask(mask, s);
      v := Swap(v, s, mask);
      s := s >> 1;
    }
    ReversingLast(v0, mask, v);
  }

  /** The state of that loop before a swap of groups of `s` bits. */
  ghost predicate Reversing(v0: bv64, s: bv8, mask: bv64, v: bv64) {
    || (s == 32 && mask == !0 && v == v0)
    || (s == 16 && mask == 0x0000_0000_FFFF_FFFF && v == After32(v0))
    || (s == 8 && mask == 0x0000_FFFF_0000_FFFF && v == After16(v0))
    || (s == 4 && mask == 0x00FF_00FF_00FF_00FF && v == After8(v0))
    || (s == 2 && mask == 0x0F0F_0F0F_0F0F_0F0F && v == After4(v0))
    || (s == 1 && mask == 0x3333_3333_3333_3333 && v == After2(v0))
    || (s == 0 && v == Rev(v0))
  }

  lemma ReversingFirst(v0: bv64)
    ensures Reversing(v0, 32, !0, v0)
  {
  }

  lemma ReversingLast(v0: bv64, mask: bv64, v: bv64)
    requires Reversing(v0, 0, mask, v)
    ensures v == Rev(v0)
  {
  }

  lemma Masks()
    ensures NextMask(!0, 32) == 0x0000_0000_FFFF_FFFF
    ensures NextMask(0x0000_0000_FFFF_FFFF, 16) == 0x0000_FFFF_0000_FFFF
    ensures NextMask(0x0000_FFFF_0000_FFFF, 8) == 0x00FF_00FF_00FF_00FF
    ensures NextMask(0x00FF_00FF_00FF_00FF, 4) == 0x0F0F_0F0F_0F0F_0F0F
    ensures NextMask(0x0F0F_0F0F_0F0F_0F0F, 2) == 0x3333_3333_3333_3333
    ensures NextMask(0x3333_3333_3333_3333, 1) == 0x5555_5555_5555_5555
  {
  }

  lemma ReverseStep(v0: bv64, s: bv8, mask: bv64, v: bv64)
    requires Reversing(v0, s, mask, v) && s > 0
    ensures s <= 32 && s >> 1 < s
    ensures Reversing(v0, s >> 1, NextMask(mask, s), Swap(v, s, NextMask(mask, s)))
  {
    hide Swap, NextMask;
    Masks();
  }

  // ------------------------------------------------------------------ cursor

  /** The cursor after one increment of the masked bits, counted from the high end:
      set the unmasked bits, reverse, add one, reverse back. */
  function NextCursor(v: bv64, m: bv64): bv64 {
    Rev(Rev(v | !m) + 1)
  }

  /** The bucket of `v` in a table with size mask `m`. */
  function Index(v: bv64, m: bv64): nat {
    Nat(v & m)
  }

  /** The masks select different parts of `v`: what the inner loop of the scan tests. */
  predicate Differ(v: bv64, m0: bv64, m1: bv64) {
    v & (m0 ^ m1) != 0
  }

  lemma RevRev(x: bv64, y: bv64)
    requires y == Rev(x)
    ensures Rev(y) == x
  {
  }

  // ------------------------------------------------- words as natural numbers

  const ONES: bv64 := 0xFFFF_FFFF_FFFF_FFFF

  function Nat(v: bv64): nat {
    v as nat
  }

  lemma NatInjective(a: bv64, b: bv64)
    requires Nat(a) == Nat(b)
    ensures a == b
  {
    assert (a as nat) as bv64 == a;
  }

  lemma NatBound(a: bv64)
    ensures Nat(a) < 0x1_0000_0000_0000_0000
    ensures Nat(ONES) == 0xFFFF_FFFF_FFFF_FFFF
  {
  }

  lemma Double(a: bv64)
    requires a < 0x8000_0000_0000_0000
    ensures Nat(a << 1) == 2 * Nat(a)
    ensures Nat((a << 1) | 1) == 2 * Nat(a) + 1
  {
  }

  lemma HalveEven(a: bv64, b: bv64)
    requires b < 0x8000_0000_0000_0000 && a == b << 1
    ensures Nat(a) == 2 * Nat(b)
  {
    Double(b);
  }

  lemma HalveOdd(a: bv64, b: bv64)
    requires b < 0x8000_0000_0000_0000 && a == (b << 1) | 1
    ensures Nat(a) == 2 * Nat(b) + 1
  {
    Double(b);
  }

  function Half(a: bv64): bv64 {
    a >> 1
  }

  function Bit(a: bv64): nat {
    if a & 1 == 0 then 0 else 1
  }

  lemma LowBit(a: bv64)
    ensures Half(a) < 0x8000_0000_0000_0000
    ensures Bit(a) == 0 ==> a == Half(a) << 1
    ensures Bit(a) == 1 ==> a == (Half(a) << 1) | 1
  {
  }

  lemma Halve(a: bv64)
    ensures Nat(a) == 2 * Nat(Half(a)) + Bit(a)
    ensures Bit(a) <= 1
  {
    hide Nat, Half;
    LowBit(a);
    if a & 1 == 0 { HalveEven(a, Half(a)); } else { HalveOdd(a, Half(a)); }
  }

  lemma HalfBound(a: bv64, k: nat)
    requires Nat(a) < Pow2(k) && k > 0
    ensures Nat(Half(a)) < Pow2(k - 1)
  {
    hide Nat, Half, Bit;
    Halve(a);
  }

  lemma NatZero(a: bv64)
    requires Nat(a) == 0
    ensures a == 0
  {
    NatInjective(a, 0);
  }

  // --- words without a common bit add up

  predicate DisjointOr(a: bv64, b: bv64, c: bv64) {
    a & b == 0 && c == a | b
  }

  lemma DisjointOrHalf(a: bv64, b: bv64, c: bv64)
    requires DisjointOr(a, b, c)
    ensures DisjointOr(Half(a), Half(b), Half(c))
  {
    hide Half;
    HalfAnd(a, b, a & b);
    HalfOr(a, b, c);
    HalfZero();
  }

  lemma HalfAnd(a: bv64, b: bv64, c: bv64)
    requires c == a & b
    ensures Half(c) == Half(a) & Half(b)
  {
  }

  lemma HalfOr(a: bv64, b: bv64, c: bv64)
    requires c == a | b
    ensures Half(c) == Half(a) | Half(b)
  {
  }

  lemma HalfZero()
    ensures Half(0) == 0
  {
  }

  lemma DisjointOrBit(a: bv64, b: bv64, c: bv64)
    requires DisjointOr(a, b, c)
    ensures Bit(c) == Bit(a) + Bit(b)
  {
  }

  lemma DisjointOrZero(a: bv64, b: bv64, c: bv64)
    requires DisjointOr(a, b, c) && Nat(a) == 0 && Nat(b) == 0
    ensures Nat(c) == 0
  {
    NatInjective(a, 0);
    NatInjective(b, 0);
  }

  lemma {:induction false} Sum(a: bv64, b: bv64, c: bv64, k: nat)
    requires DisjointOr(a, b, c) && Nat(a) < Pow2(k) && Nat(b) < Pow2(k)
    ensures Nat(c) == Nat(a) + Nat(b)
    decreases k
  {
    hide Nat, Half, Bit, DisjointOr;
    if k == 0 {
      DisjointOrZero(a, b, c);
    } else {
      HalfBound(a, k);
      HalfBound(b, k);
      DisjointOrHalf(a, b, c);
      DisjointOrBit(a, b, c);
      Sum(Half(a), Half(b), Half(c), k - 1);
      Halve(a);
      Halve(b);
      Halve(c);
    }
  }

  lemma Complement(m: bv64, c: bv64)
    requires c == !m
    ensures Nat(c) == Nat(ONES) - Nat(m)
  {
    hide Nat, DisjointOr;
    ComplementDisjoint(m, c);
    NatBound(m);
    NatBound(c);
    WordPower();
    Sum(m, c, ONES, 64);
  }

  lemma ComplementDisjoint(m: bv64, c: bv64)
    requires c == !m
    ensures DisjointOr(m, c, ONES)
  {
  }

  lemma WordPower()
    ensures Pow2(64) == 0x1_0000_0000_0000_0000
    ensures Pow2(63) == 0x8000_0000_0000_0000
  {
    assert Pow2(4) == 16;
    PowAdd(4, 4);
    PowAdd(8, 8);
    PowAdd(16, 16);
    PowAdd(32, 32);
  }

  lemma TopAndRest(a: bv64, top: bv64, rest: bv64)
    requires top == a & 0x8000_0000_0000_0000 && rest == a & 0x7FFF_FFFF_FFFF_FFFF
    ensures DisjointOr(top, rest, a)
  {
  }

  lemma TopValues(a: bv64, top: bv64)
    requires top == a & 0x8000_0000_0000_0000
    ensures top == 0 || top == 0x8000_0000_0000_0000
  {
  }

  lemma TopClear(a: bv64, top: bv64)
    requires top == a & 0x8000_0000_0000_0000 && top == 0
    ensures a < 0x8000_0000_0000_0000
  {
  }

  /** A word that stands for a small number has its top bit clear. */
  lemma SmallWord(a: bv64)
    requires Nat(a) < 0x8000_0000_0000_0000
    ensures a < 0x8000_0000_0000_0000
  {
    hide Nat, DisjointOr;
    var top, rest := a & 0x8000_0000_0000_0000, a & 0x7FFF_FFFF_FFFF_FFFF;
    TopAndRest(a, top, rest);
    TopValues(a, top);
    TopBit(top);
    NatBound(rest);
    WordPower();
    Sum(top, rest, a, 64);
    TopClear(a, top);
  }

  // --- the low bits under a mask are a remainder

  predicate IsAnd(a: bv64, m: bv64, c: bv64) {
    c == a & m
  }

  lemma IsAndHalf(a: bv64, m: bv64, c: bv64)
    requires IsAnd(a, m, c)
    ensures IsAnd(Half(a), Half(m), Half(c))
  {
  }

  lemma IsAndBit(a: bv64, m: bv64, c: bv64)
    requires IsAnd(a, m, c)
    ensures Bit(c) == Bit(a) * Bit(m)
  {
  }

  lemma IsAndZero(a: bv64, m: bv64, c: bv64)
    requires IsAnd(a, m, c) && Nat(m) == 0
    ensures Nat(c) == 0
  {
    NatInjective(m, 0);
  }

  lemma HalfMask(m: bv64, k: nat)
    requires Nat(m) == Pow2(k) - 1 && k > 0
    ensures Nat(Half(m)) == Pow2(k - 1) - 1 && Bit(m) == 1
  {
    hide Nat, Half, Bit;
    Halve(m);
  }

  lemma {:induction false} AndMask(a: bv64, m: bv64, c: bv64, k: nat)
    requires IsAnd(a, m, c) && Nat(m) == Pow2(k) - 1
    ensures Nat(c) == Nat(a) % Pow2(k)
    decreases k
  {
    hide Nat, Half, Bit, IsAnd;
    if k == 0 {
      IsAndZero(a, m, c);
    } else {
      HalfMask(m, k);
      IsAndHalf(a, m, c);
      IsAndBit(a, m, c);
      AndMask(Half(a), Half(m), Half(c), k - 1);
      Halve(a);
      Halve(c);
      DoubleRemainder(Nat(Half(a)), Bit(a), Pow2(k - 1));
    }
  }

  lemma DoubleRemainder(x: nat, b: nat, p: nat)
    requires p > 0 && b <= 1
    ensures (2 * x + b) % (2 * p) == 2 * (x % p) + b
  {
    var q := x / p;
    assert 2 * x + b == 2 * p * q + (2 * (x % p) + b);
    RemainderIs(2 * x + b, 2 * p, q, 2 * (x % p) + b);
  }

  // --- incrementing

  lemma IncrementEven(a: bv64, b: bv64)
    requires Bit(a) == 0 && b == a + 1
    ensures Half(b) == Half(a) && Bit(b) == 1
  {
  }

  lemma IncrementOdd(a: bv64, b: bv64)
    requires Bit(a) == 1 && b == a + 1 && a != ONES
    ensures Half(b) == Half(a) + 1 && Bit(b) == 0
  {
  }

  lemma HalfNotOnes(a: bv64)
    ensures Half(a) != ONES
  {
  }

  lemma {:induction false} Increment(a: bv64, b: bv64, k: nat)
    requires b == a + 1 && a != ONES && Nat(a) < Pow2(k)
    ensures Nat(b) == Nat(a) + 1
    decreases k
  {
    hide Nat, Half, Bit;
    Halve(a);
    Halve(b);
    if Bit(a) == 0 {
      IncrementEven(a, b);
    } else if k > 0 {
      IncrementOdd(a, b);
      HalfBound(a, k);
      HalfNotOnes(a);
      Increment(Half(a), Half(b), k - 1);
    }
  }

  lemma IncrementLast(a: bv64, b: bv64)
    requires b == a + 1 && a == ONES
    ensures Nat(b) == 0
  {
  }

  // --- reversal

  lemma RevBits(x: bv64)
    ensures DisjointOr(if Bit(x) == 0 then 0 else 0x8000_0000_0000_0000, Half(Rev(Half(x))), Rev(x))
  {
    hide Rev;
    RevOfHalf(x);
    RevTop(x);
    TopAndShifted(Rev(x));
  }

  lemma RevOfHalf(x: bv64)
    ensures Rev(Half(x)) == Rev(x) << 1
  {
  }

  lemma RevTop(x: bv64)
    ensures Rev(x) & 0x8000_0000_0000_0000 == if Bit(x) == 0 then 0 else 0x8000_0000_0000_0000
  {
  }

  lemma TopAndShifted(r: bv64)
    ensures DisjointOr(r & 0x8000_0000_0000_0000, Half(r << 1), r)
  {
  }

  lemma RevHalfEven(x: bv64)
    ensures Bit(Rev(Half(x))) == 0
  {
  }

  lemma RevZero(x: bv64)
    requires Nat(x) < Pow2(0)
    ensures Nat(Rev(x)) == 0
  {
    NatInjective(x, 0);
  }

  lemma TopBit(b: bv64)
    requires b == 0 || b == 0x8000_0000_0000_0000
    ensures Nat(b) == if b == 0 then 0 else 0x8000_0000_0000_0000
  {
  }

  /** The reversed word stands for the reversed number. */
  lemma {:induction false} RevNat(x: bv64, k: nat)
    requires k <= 64 && Nat(x) < Pow2(k)
    ensures Nat(Rev(x)) == Reversed(k, Nat(x)) * Pow2(64 - k)
    decreases k
  {
    hide Nat, Half, Bit, Rev, DisjointOr, Pow2;
    WordPower();
    if k == 0 {
      RevZero(x);
    } else {
      HalfBound(x, k);
      RevNat(Half(x), k - 1);
      RevHalfEven(x);
      Halve(x);
      Halve(Rev(Half(x)));
      RevBits(x);
      var top: bv64 := if Bit(x) == 0 then 0 else 0x8000_0000_0000_0000;
      TopBit(top);
      WordPower();
      NatBound(Half(Rev(Half(x))));
      Sum(top, Half(Rev(Half(x))), Rev(x), 64);
      ReversedStep(k, Bit(x), Nat(Half(x)), Nat(Half(Rev(Half(x)))));
    }
  }

  /** One more bit at the low end of a number is one more at the high end reversed. */
  lemma ReversedStep(k: nat, b: nat, h: nat, half: nat)
    requires 0 < k <= 64 && b <= 1
    requires 2 * half == Reversed(k - 1, h) * Pow2(64 - (k - 1))
    ensures (if b == 0 then 0 else 0x8000_0000_0000_0000) + half == Reversed(k, 2 * h + b) * Pow2(64 - k)
  {
    var r, p, q := Reversed(k - 1, h), Pow2(64 - k), Pow2(k - 1);
    assert Reversed(k, 2 * h + b) == b * q + r;
    assert Pow2(64 - (k - 1)) == 2 * p;
    PowAdd(k - 1, 64 - k);
    WordPower();
    Combine(b, q, r, p, half);
  }

  lemma Combine(b: nat, q: nat, r: nat, p: nat, half: nat)
    requires b <= 1 && q * p == 0x8000_0000_0000_0000 && 2 * half == r * (2 * p)
    ensures (if b == 0 then 0 else 0x8000_0000_0000_0000) + half == (b * q + r) * p
  {
    assert r * (2 * p) == 2 * (r * p);
    Distribute(b * q, r, p);
  }
}
