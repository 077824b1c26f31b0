/**
 The cursor arithmetic of dictScan on 64-bit words: `v & mask` picks the bucket, the next
 cursor comes from incrementing the reversed word above the mask, and the place of a word
 is the number that its reversal stands for.  These operations obey the laws that the
 correctness of the scan rests on, whatever the sizes of the tables.
 */
module ScanWords {
  import opened DictSpec
  import opened DictRefinement
  import opened ScanTheory
  import ScanStatic
  import opened Bits
  import opened Reversal

  /** The size mask of a table of `n` buckets. */
  function Mask(n: nat): bv64 {
    if IsSize(n) then WordOf(n - 1) else 0
  }

  function WordOf(n: nat): bv64
    requires n < WORDS
  {
    n as bv64
  }

  function Place(v: bv64): nat {
    Nat(Rev(v))
  }

  function BucketOf(v: bv64, n: nat): nat {
    Index(v, Mask(n))
  }

  function NextWord(v: bv64, n: nat): bv64 {
    NextCursor(v, Mask(n))
  }

  /** The test of the inner loop: bits between the two masks are left. */
  predicate MoreBuckets(v: bv64, n0: nat, n1: nat) {
    Differ(v, Mask(n0), Mask(n1))
  }

  const WORD_CURSOR := Cursor(Place, BucketOf, NextWord, MoreBuckets)

  // --------------------------------------------------------------- sizes

  lemma {:induction false} SizeIsPower(n: nat) returns (k: nat)
    requires IsDoubling(n)
    ensures n == Pow2(k) && k >= 2
  {
    if n == INITIAL_SIZE {
      k := 2;
      assert Pow2(2) == 4;
    } else {
      k := SizeIsPower(n / 2);
      k := k + 1;
    }
  }

  lemma {:induction false} PowMonotone(a: nat, b: nat)
    requires a < b
    ensures Pow2(a) < Pow2(b)
  {
    if b > a + 1 {
      PowMonotone(a, b - 1);
    }
  }

  /** A table size is a power of two with an exponent below 64. */
  lemma Exponent(n: nat) returns (k: nat)
    requires IsSize(n)
    ensures 2 <= k <= 63 && n == Pow2(k) && n * Pow2(64 - k) == WORDS
  {
    k := SizeIsPower(n);
    WordPower();
    if k > 63 {
      PowMonotone(63, k);
      assert false;
    }
    PowAdd(k, 64 - k);
  }

  lemma {:induction false} MaskWord(n: nat) returns (m: bv64)
    requires IsSize(n)
    ensures Nat(m) == n - 1
  {
    if n == INITIAL_SIZE {
      m := 3;
    } else {
      var h := MaskWord(n / 2);
      SmallWord(h);
      Double(h);
      m := (h << 1) | 1;
    }
  }

  lemma MaskNat(n: nat)
    requires IsSize(n)
    ensures Nat(Mask(n)) == n - 1
  {
    hide Nat, Mask, IsSize;
    var m := MaskWord(n);
    MaskOf(n, m);
  }

  /** The mask of a size is the word that stands for the size less one. */
  lemma MaskOf(n: nat, m: bv64)
    requires IsSize(n) && Nat(m) == n - 1
    ensures Mask(n) == m
  {
    hide IsDoubling, Nat, WordOf;
    WordOfNat(m);
  }

  lemma WordOfNat(m: bv64)
    ensures Nat(m) < WORDS && WordOf(Nat(m)) == m
  {
  }

  // ------------------------------------------------- places, bucket by bucket

  lemma PlaceNat(v: bv64)
    ensures Place(v) == Reversed(64, Nat(v))
  {
    hide Nat, Rev, Reversed;
    WordPower();
    NatBound(v);
    RevNat(v, 64);
    assert Pow2(64 - 64) == 1;
  }

  lemma PlaceSplit(v: bv64, k: nat)
    requires k <= 64
    ensures Place(v) == Group(k, Nat(v)) * Pow2(64 - k) + Offset(k, Nat(v))
    ensures Group(k, Nat(v)) < Pow2(k) && Offset(k, Nat(v)) < Pow2(64 - k)
  {
    hide *;
    PlaceNat(v);
    GroupAndOffset(k, Nat(v));
  }

  lemma BucketNat(v: bv64, n: nat, k: nat)
    requires IsSize(n) && n == Pow2(k)
    ensures BucketOf(v, n) == Nat(v) % n
  {
    hide Nat, Mask, IsSize, Pow2;
    MaskNat(n);
    AndMask(v, Mask(n), v & Mask(n), k);
  }

  lemma SameBucket(v: bv64, h: bv64, n: nat, k: nat)
    requires IsSize(n) && n == Pow2(k)
    ensures BucketOf(h, n) == BucketOf(v, n) <==> Group(k, Nat(h)) == Group(k, Nat(v))
  {
    hide *;
    BucketNat(v, n, k);
    BucketNat(h, n, k);
    SameGroup(k, Nat(v), Nat(h));
  }

  lemma UnmaskedSum(v: bv64, m: bv64, low: bv64, high: bv64, u: bv64, k: nat)
    requires IsAnd(v, m, low) && DisjointOr(low, high, u)
    requires Nat(m) == Pow2(k) - 1 && Nat(high) == Nat(ONES) - Nat(m)
    ensures Nat(u) == Nat(v) % Pow2(k) + (WORDS - Pow2(k))
  {
    hide Nat, IsAnd, DisjointOr, Pow2;
    AndMask(v, m, low, k);
    NatBound(high);
    NatBound(low);
    WordPower();
    Sum(low, high, u, 64);
  }

  lemma UnmaskedParts(v: bv64, m: bv64, high: bv64, k: nat)
    requires high == !m && Nat(m) == Pow2(k) - 1 && Nat(high) == Nat(ONES) - Nat(m)
    ensures Nat(v | high) == Nat(v) % Pow2(k) + (WORDS - Pow2(k))
  {
    hide Nat, DisjointOr, IsAnd, Pow2;
    AndItself(v, m);
    Unmasked(v, m);
    UnmaskedSum(v, m, v & m, high, v | high, k);
  }

  lemma AndItself(v: bv64, m: bv64)
    ensures IsAnd(v, m, v & m)
  {
  }

  lemma Unmasked(v: bv64, m: bv64)
    ensures DisjointOr(v & m, !m, v | !m)
  {
    hide DisjointOr;
    Apart(v, m);
    Rejoined(v, m);
    Joined(v & m, !m, v | !m);
  }

  lemma Apart(v: bv64, m: bv64)
    ensures (v & m) & !m == 0
  {
  }

  lemma Rejoined(v: bv64, m: bv64)
    ensures v | !m == (v & m) | !m
  {
  }

  lemma Joined(a: bv64, b: bv64, c: bv64)
    requires a & b == 0 && c == a | b
    ensures DisjointOr(a, b, c)
  {
  }

  /** Setting the bits above the mask keeps the low bits and fills the rest. */
  lemma UnmaskedNat(v: bv64, n: nat, k: nat)
    requires IsSize(n) && n == Pow2(k)
    ensures Nat(v | !Mask(n)) == Nat(v) % n + (WORDS - n)
  {
    hide Nat, Mask, IsSize, DisjointOr, IsAnd, Pow2;
    MaskNat(n);
    var m := Mask(n);
    var high := !m;
    Complement(m, high);
    UnmaskedParts(v, m, high, k);
  }

  /** ... and so moves the word to the last place of its bucket. */
  lemma LastPlace(v: bv64, n: nat, k: nat)
    requires IsSize(n) && n == Pow2(k) && k <= 64 && n * Pow2(64 - k) == WORDS
    ensures Place(v | !Mask(n)) == (Group(k, Nat(v)) + 1) * Pow2(64 - k) - 1
  {
    hide *;
    UnmaskedNat(v, n, k);
    PlaceNat(v | !Mask(n));
    assert n * (Pow2(64 - k) - 1) == n * Pow2(64 - k) - n;
    LastOfGroup(k, Nat(v), Nat(v | !Mask(n)));
  }


  lemma PlaceZero(v: bv64)
    ensures Place(v) == 0 <==> v == 0
  {
    hide Nat, Rev;
    RevRev(v, Rev(v));
    RevOfZero();
    if Place(v) == 0 {
      NatZero(Rev(v));
    }
  }

  lemma RevOfZero()
    ensures Rev(0) == 0 && Nat(Rev(0)) == 0
  {
  }

  /** The next cursor stands at the end of the bucket's stretch. */
  lemma NextEnd(v: bv64, n: nat, k: nat)
    requires IsSize(n) && n == Pow2(k) && k <= 64 && n * Pow2(64 - k) == WORDS
    ensures (if NextWord(v, n) == 0 then WORDS else Place(NextWord(v, n))) == (Group(k, Nat(v)) + 1) * Pow2(64 - k)
    ensures NextWord(v, n) == 0 ==> Place(NextWord(v, n)) == 0
  {
    hide Nat, Mask, IsSize, Rev, NextCursor, Group;
    var u := Rev(v | !Mask(n));
    var w := NextWord(v, n);
    LastPlace(v, n, k);
    NextIs(v, Mask(n), u, w);
    PlaceZero(w);
    NatBound(u);
    if u == ONES {
      IncrementLast(u, u + 1);
    } else {
      WordPower();
      Increment(u, u + 1, 64);
    }
  }

  lemma NextIs(v: bv64, m: bv64, u: bv64, w: bv64)
    requires u == Rev(v | !m) && w == NextCursor(v, m)
    ensures Rev(w) == u + 1
  {
    hide Rev;
    RevRev(u + 1, w);
  }

  lemma PlaceInjective(v: bv64, w: bv64)
    requires Place(v) == Place(w)
    ensures v == w
  {
    hide Nat, Rev;
    NatInjective(Rev(v), Rev(w));
    RevRev(v, Rev(v));
    RevRev(w, Rev(w));
  }

  // ------------------------------------------------------ stretches of numbers

  /** A*g + a lies in the stretch of A and in no other. */
  lemma InStretch(A: nat, a: nat, g: nat, B: nat)
    requires a < g
    ensures A * g + a < (A + 1) * g
    ensures B * g <= A * g + a < (B + 1) * g ==> A == B
    ensures A * g + a < B * g ==> A + 1 <= B
  {
    Distribute(A, 1, g);
    Distribute(B, 1, g);
    if A < B { Product(A + 1, B, g); }
    if B < A { Product(B + 1, A, g); }
  }

  lemma Product(a: nat, b: nat, g: nat)
    requires a <= b
    ensures a * g <= b * g
  {
  }

  // ------------------------------------------------------------------- laws

  lemma WordsIndex(v: bv64, n: nat)
    requires n > 0
    ensures BucketOf(v, n) < n
  {
    hide Nat, IsSize, Pow2;
    if IsSize(n) {
      var k := Exponent(n);
      BucketNat(v, n, k);
    } else {
      ZeroMask(v, n);
    }
  }

  lemma ZeroMask(v: bv64, n: nat)
    requires !IsSize(n)
    ensures BucketOf(v, n) == 0
  {
  }

  lemma WordsPlace(v: bv64)
    ensures Place(0) == 0 && Place(v) < WORDS
  {
    hide Nat, Rev;
    PlaceZero(0);
    NatBound(Rev(v));
  }

  /** Between a cursor and the next one, and only there, words share its bucket. */
  lemma WordsBucket(v: bv64, h: bv64, n: nat)
    requires IsSize(n)
    ensures Place(v) < End(WORD_CURSOR, NextWord(v, n))
    ensures Place(v) <= Place(h) < End(WORD_CURSOR, NextWord(v, n)) ==> BucketOf(h, n) == BucketOf(v, n)
    ensures BucketOf(h, n) == BucketOf(v, n) ==>
      Place(h) < End(WORD_CURSOR, NextWord(v, n)) && NextWord(h, n) == NextWord(v, n)
  {
    hide Place, BucketOf, NextWord, Pow2, IsSize, Group, Offset;
    var k := Exponent(n);
    var g := Pow2(64 - k);
    PlaceSplit(v, k);
    PlaceSplit(h, k);
    NextEnd(v, n, k);
    NextEnd(h, n, k);
    SameBucket(v, h, n, k);
    InStretch(Group(k, Nat(v)), Offset(k, Nat(v)), g, Group(k, Nat(h)));
    InStretch(Group(k, Nat(h)), Offset(k, Nat(h)), g, Group(k, Nat(v)));
    WordsPlace(NextWord(v, n));
    WordsPlace(NextWord(h, n));
    if BucketOf(h, n) == BucketOf(v, n) {
      PlaceInjective(NextWord(v, n), NextWord(h, n));
    }
  }

  lemma StretchStart(A: nat, a: nat, g: nat, B: nat)
    requires a < g && A * g + a == B * g
    ensures A == B && a == 0
  {
    Distribute(B, 1, g);
    InStretch(A, a, g, B);
  }

  lemma WordsNextStarts(v: bv64, n: nat)
    requires IsSize(n)
    ensures Starts(WORD_CURSOR, NextWord(v, n), n)
  {
    hide Place, BucketOf, NextWord, Pow2, IsSize, Group, Offset;
    var k := Exponent(n);
    var g := Pow2(64 - k);
    var w := NextWord(v, n);
    NextEnd(v, n, k);
    PlaceSplit(w, k);
    if w != 0 {
      StretchStart(Group(k, Nat(w)), Offset(k, Nat(w)), g, Group(k, Nat(v)) + 1);
    }
    forall h | BucketOf(h, n) == BucketOf(w, n) ensures Place(w) <= Place(h) {
      SameBucket(w, h, n, k);
      PlaceSplit(h, k);
    }
  }

  lemma BucketWord(v: bv64, h: bv64, n: nat)
    requires h == v & Mask(n)
    ensures Nat(h) == BucketOf(v, n)
  {
    hide Nat, Mask;
  }

  lemma FirstOfBucket(v: bv64, h: bv64, n: nat, k: nat)
    requires IsSize(n) && n == Pow2(k) && k <= 64 && h == v & Mask(n)
    ensures BucketOf(h, n) == BucketOf(v, n)
    ensures Offset(k, Nat(h)) == 0
  {
    hide Nat, Mask, IsSize, Pow2, Reversed, BucketOf;
    BucketWord(v, h, n);
    BucketNat(v, n, k);
    BucketNat(h, n, k);
    RemainderIs(Nat(h), n, 0, Nat(v) % n);
    ReversedZero(64 - k);
  }

  /** A cursor at the start of its bucket has the whole stretch ahead of it. */
  lemma WordsWidth(v: bv64, n: nat)
    requires IsSize(n) && Starts(WORD_CURSOR, v, n)
    ensures End(WORD_CURSOR, NextWord(v, n)) == Place(v) + WORDS / n
  {
    hide Place, BucketOf, NextWord, Pow2, IsSize, Group, Offset;
    var k := Exponent(n);
    var g := Pow2(64 - k);
    var h := v & Mask(n);
    FirstOfBucket(v, h, n, k);
    SameBucket(v, h, n, k);
    PlaceSplit(v, k);
    PlaceSplit(h, k);
    assert Place(v) <= Place(h);
    NextEnd(v, n, k);
    Distribute(Group(k, Nat(v)), 1, g);
    RemainderIs(WORDS, n, g, 0);
  }

  // --- two tables

  lemma {:induction false} PowDivides(a: nat, b: nat) returns (q: nat)
    requires Pow2(a) <= Pow2(b)
    ensures a <= b && q == Pow2(b - a) && Pow2(b) == Pow2(a) * q
  {
    if b < a {
      PowMonotone(b, a);
    }
    q := Pow2(b - a);
    PowAdd(a, b - a);
  }

  lemma RemainderOfRemainder(x: nat, p: nat, q: nat)
    requires p > 0 && q > 0
    ensures p * q > 0 && x % (p * q) % p == x % p
  {
    var n := p * q;
    Positive(p, q);
    var r := x % n;
    assert x == n * (x / n) + r;
    Assoc(p, q, x / n);
    assert x == p * (q * (x / n) + r / p) + r % p by {
      assert r == p * (r / p) + r % p;
      assert p * (q * (x / n) + r / p) == p * (q * (x / n)) + p * (r / p);
    }
    RemainderIs(x, p, q * (x / n) + r / p, r % p);
  }

  lemma Positive(p: nat, q: nat)
    requires p > 0 && q > 0
    ensures p * q > 0
  {
  }

  lemma WordsRefine(v: bv64, h: bv64, n0: nat, n1: nat)
    requires IsSize(n0) && IsSize(n1) && n0 <= n1 && BucketOf(h, n1) == BucketOf(v, n1)
    ensures BucketOf(h, n0) == BucketOf(v, n0)
  {
    hide Nat, BucketOf, Pow2, IsSize;
    var k0 := Exponent(n0);
    var k1 := Exponent(n1);
    var q := PowDivides(k0, k1);
    BucketNat(v, n0, k0);
    BucketNat(v, n1, k1);
    BucketNat(h, n0, k0);
    BucketNat(h, n1, k1);
    RemainderOfRemainder(Nat(v), n0, q);
    RemainderOfRemainder(Nat(h), n0, q);
  }

  lemma EqualParts(v: bv64, m0: bv64, m1: bv64, a: bv64)
    requires IsAnd(v, m0, a) && IsAnd(v, m1, a)
    ensures !Differ(v, m0, m1)
  {
  }

  lemma NoDifference(v: bv64, m0: bv64, m1: bv64, a: bv64, b: bv64)
    requires IsAnd(v, m0, a) && IsAnd(v, m1, b) && !Differ(v, m0, m1)
    ensures a == b
  {
  }

  lemma DifferParts(v: bv64, m0: bv64, m1: bv64, a: bv64, b: bv64)
    requires IsAnd(v, m0, a) && IsAnd(v, m1, b)
    ensures Differ(v, m0, m1) <==> Nat(a) != Nat(b)
  {
    hide Differ, IsAnd, Nat;
    if Nat(a) == Nat(b) {
      NatInjective(a, b);
      EqualParts(v, m0, m1, a);
    }
    if !Differ(v, m0, m1) {
      NoDifference(v, m0, m1, a, b);
    }
  }

  lemma IndexWord(v: bv64, m: bv64) returns (a: bv64)
    ensures IsAnd(v, m, a) && Index(v, m) == Nat(a)
  {
    hide Nat;
    a := v & m;
  }

  lemma DifferMeans(v: bv64, m0: bv64, m1: bv64)
    ensures Differ(v, m0, m1) <==> Index(v, m0) != Index(v, m1)
  {
    hide *;
    var a := IndexWord(v, m0);
    var b := IndexWord(v, m1);
    DifferParts(v, m0, m1, a, b);
  }

  /** The test of the inner loop compares the buckets in the two tables. */
  lemma MoreMeans(v: bv64, n0: nat, n1: nat)
    ensures MoreBuckets(v, n0, n1) <==> BucketOf(v, n0) != BucketOf(v, n1)
  {
    hide Index, Differ, Mask, IsSize;
    DifferMeans(v, Mask(n0), Mask(n1));
  }

  /** Words at the start of a large bucket: first in the small bucket too, or with bits
      between the masks left. */
  lemma AlignedMore(v: bv64, n0: nat, k0: nat, n1: nat, k1: nat)
    requires IsSize(n0) && IsSize(n1) && n0 == Pow2(k0) && n1 == Pow2(k1) && k0 <= k1 <= 64 && n0 <= n1
    requires Offset(k1, Nat(v)) == 0
    ensures MoreBuckets(v, n0, n1) <==> Offset(k0, Nat(v)) != 0
  {
    hide Nat, Pow2, IsSize, MoreBuckets, BucketOf, Offset;
    MoreMeans(v, n0, n1);
    BucketNat(v, n0, k0);
    BucketNat(v, n1, k1);
    NatBound(v);
    WordPower();
    OffsetZero(k0, Nat(v));
    OffsetZero(k1, Nat(v));
    if Nat(v) < n1 {
      RemainderIs(Nat(v), n1, 0, Nat(v));
    }
    if Nat(v) < n0 {
      RemainderIs(Nat(v), n0, 0, Nat(v));
    }
  }

  lemma OffsetZero(k: nat, x: nat)
    requires k <= 64 && x < Pow2(64)
    ensures Offset(k, x) == 0 <==> x < Pow2(k)
  {
    hide Pow2, Reversed;
    var p := Pow2(k);
    PowAdd(k, 64 - k);
    QuotientBelow(x, p, Pow2(64 - k));
    ReversedTwice(64 - k, Div(x, p));
    ReversedZero(64 - k);
    assert x == p * (x / p) + x % p;
    if x < p { RemainderIs(x, p, 0, x); }
  }

  /** G1 divides G0: the next multiple of G1 after a place is at most its next multiple of
      G0. */
  lemma NextMultiples(A0: nat, a0: nat, g0: nat, A1: nat, a1: nat, g1: nat, q: nat)
    requires a0 < g0 && a1 < g1 && g0 == g1 * q && A0 * g0 + a0 == A1 * g1 + a1
    ensures A0 * g0 < (A1 + 1) * g1 <= (A0 + 1) * g0
  {
    InStretch(A0, a0, g0, A0);
    Distribute(A1, 1, g1);
    assert (A0 + 1) * g0 == (A0 + 1) * q * g1;
    InStretch(A1, a1, g1, (A0 + 1) * q);
    Product(A1 + 1, (A0 + 1) * q, g1);
  }

  /** Both tables seen from one cursor: places are counted in stretches of g1, and q of
      these make one of g0. */
  lemma TwoSizes(n0: nat, n1: nat) returns (k0: nat, k1: nat, q: nat)
    requires IsSize(n0) && IsSize(n1) && n0 <= n1
    ensures n0 == Pow2(k0) && n1 == Pow2(k1) && k0 <= k1 <= 63
    ensures n0 * Pow2(64 - k0) == WORDS && n1 * Pow2(64 - k1) == WORDS
    ensures Pow2(64 - k0) == Pow2(64 - k1) * q
  {
    hide IsSize, Pow2;
    k0 := Exponent(n0);
    k1 := Exponent(n1);
    q := PowDivides(k0, k1);
    PowAdd(64 - k1, k1 - k0);
  }

  /** One turn of the inner loop stays in the small bucket while bits between the masks
      are left, and ends exactly where the small bucket ends. */
  lemma WordsInner(v: bv64, n0: nat, n1: nat)
    requires IsSize(n0) && IsSize(n1) && n0 <= n1
    ensures var w := NextWord(v, n1);
      if MoreBuckets(w, n0, n1) then w != 0 && BucketOf(w, n0) == BucketOf(v, n0)
      else w == NextWord(v, n0)
  {
    hide Nat, IsSize, Pow2, MoreBuckets, BucketOf, Offset, Group, Place, NextWord;
    var k0, k1, q := TwoSizes(n0, n1);
    var g0, g1 := Pow2(64 - k0), Pow2(64 - k1);
    var w := NextWord(v, n1);
    var A0, A1 := Group(k0, Nat(v)), Group(k1, Nat(v));
    PlaceSplit(v, k0);
    PlaceSplit(v, k1);
    PlaceSplit(w, k0);
    PlaceSplit(w, k1);
    NextEnd(v, n0, k0);
    NextEnd(v, n1, k1);
    NextMultiples(A0, Offset(k0, Nat(v)), g0, A1, Offset(k1, Nat(v)), g1, q);
    if w == 0 {
      WordsWrap(v, n0, n1);
    } else {
      StretchStart(Group(k1, Nat(w)), Offset(k1, Nat(w)), g1, A1 + 1);
      AlignedMore(w, n0, k0, n1, k1);
      if MoreBuckets(w, n0, n1) {
        SmallBucketGoesOn(A0, g0, Group(k0, Nat(w)), Offset(k0, Nat(w)));
        SameBucket(v, w, n0, k0);
      } else {
        SmallBucketEnds(A0, g0, Group(k0, Nat(w)));
        WordsPlace(w);
        PlaceInjective(w, NextWord(v, n0));
      }
    }
  }

  lemma SmallBucketGoesOn(A: nat, g: nat, B: nat, b: nat)
    requires 0 < b < g && A * g < B * g + b <= (A + 1) * g
    ensures A == B
  {
    if B * g + b == (A + 1) * g {
      StretchStart(B, b, g, A + 1);
      assert false;
    }
    InStretch(B, b, g, A);
  }

  lemma SmallBucketEnds(A: nat, g: nat, B: nat)
    requires 0 < g && A * g < B * g <= (A + 1) * g
    ensures B == A + 1
  {
    if B <= A { Product(B, A, g); }
    if A + 1 < B { Below(A + 1, B, g); }
  }

  lemma Below(a: nat, b: nat, g: nat)
    requires a < b && 0 < g
    ensures a * g < b * g
  {
  }

  /** The bucket of the cursor in a table ends at this place. */
  function EndOf(v: bv64, n: nat): nat {
    var w := NextWord(v, n);
    if w == 0 then WORDS else Place(w)
  }

  /** The bucket in the larger table ends inside the one in the smaller table. */
  lemma EndsInside(v: bv64, n0: nat, n1: nat)
    requires IsSize(n0) && IsSize(n1) && n0 <= n1
    ensures EndOf(v, n1) <= EndOf(v, n0)
  {
    hide Nat, IsSize, Pow2, BucketOf, Offset, Group, Place, NextWord;
    var k0, k1, q := TwoSizes(n0, n1);
    PlaceSplit(v, k0);
    PlaceSplit(v, k1);
    NextEnd(v, n0, k0);
    NextEnd(v, n1, k1);
    NextMultiples(Group(k0, Nat(v)), Offset(k0, Nat(v)), Pow2(64 - k0),
                  Group(k1, Nat(v)), Offset(k1, Nat(v)), Pow2(64 - k1), q);
  }

  /** When the large cursor wraps around, so does the small one. */
  lemma WordsWrap(v: bv64, n0: nat, n1: nat)
    requires IsSize(n0) && IsSize(n1) && n0 <= n1 && NextWord(v, n1) == 0
    ensures !MoreBuckets(0, n0, n1) && NextWord(v, n0) == 0
  {
    hide Nat, IsSize, Place, NextWord, MoreBuckets;
    EndsInside(v, n0, n1);
    WordsPlace(NextWord(v, n0));
    NoDifference0(n0, n1);
  }

  lemma NoDifference0(n0: nat, n1: nat)
    ensures !MoreBuckets(0, n0, n1)
  {
    hide Mask;
  }

  /** The word arithmetic of dictScan obeys all the laws. */
  lemma WordCursorLawful()
    ensures Lawful(WORD_CURSOR)
  {
    hide IndexLaw, PlaceLaw, AdvanceLaw, CoverLaw, BucketLaw, RefineLaw, WidthLaw;
    WordPlaceLaws();
    WordCoverLaw();
    WordBucketLaw();
    WordRefineLaw();
    WordWidthLaw();
  }

  lemma WordPlaceLaws()
    ensures IndexLaw(WORD_CURSOR) && PlaceLaw(WORD_CURSOR) && AdvanceLaw(WORD_CURSOR)
  {
    hide Place, BucketOf, NextWord, IsSize;
    var w := WORD_CURSOR;
    forall v, n: nat | n > 0 ensures w.index(v, n) < n { WordsIndex(v, n); }
    forall v ensures w.pos(0) == 0 && w.pos(v) < WORDS { WordsPlace(v); }
    forall v, n | IsSize(n) ensures w.pos(v) < End(w, w.next(v, n)) { WordsBucket(v, v, n); }
  }

  lemma WordCoverLaw()
    ensures CoverLaw(WORD_CURSOR)
  {
    hide Place, BucketOf, NextWord, IsSize;
    var w := WORD_CURSOR;
    forall v, n, h | IsSize(n) && w.pos(v) <= w.pos(h) < End(w, w.next(v, n))
      ensures w.index(h, n) == w.index(v, n)
    { WordsBucket(v, h, n); }
  }

  lemma WordBucketLaw()
    ensures BucketLaw(WORD_CURSOR)
  {
    hide Place, BucketOf, NextWord, IsSize, Starts;
    var w := WORD_CURSOR;
    forall v, n, h | IsSize(n) && w.index(h, n) == w.index(v, n)
      ensures w.pos(h) < End(w, w.next(v, n)) && w.next(h, n) == w.next(v, n)
    { WordsBucket(v, h, n); }
    forall v, n | IsSize(n) ensures Starts(w, w.next(v, n), n) { WordsNextStarts(v, n); }
  }

  lemma WordWidthLaw()
    ensures WidthLaw(WORD_CURSOR)
  {
    hide Place, BucketOf, NextWord, Starts;
    var w := WORD_CURSOR;
    forall v, n | IsSize(n) && Starts(w, v, n) ensures End(w, w.next(v, n)) == w.pos(v) + WORDS / n {
      WordsWidth(v, n);
    }
  }

  lemma WordRefineLaw()
    ensures RefineLaw(WORD_CURSOR)
  {
    hide Place, BucketOf, NextWord, MoreBuckets, IsSize;
    var w := WORD_CURSOR;
    forall v, h, n0, n1 | IsSize(n0) && IsSize(n1) && n0 <= n1 && w.index(h, n1) == w.index(v, n1)
      ensures w.index(h, n0) == w.index(v, n0)
    { WordsRefine(v, h, n0, n1); }
    forall v, n0, n1 | IsSize(n0) && IsSize(n1) && n0 <= n1
      ensures var v' := w.next(v, n1);
        if w.more(v', n0, n1) then v' != 0 && w.index(v', n0) == w.index(v, n0)
        else v' == w.next(v, n0)
    { WordsInner(v, n0, n1); }
  }

  // ---------------------------------------------------------- the guarantees

  /** The dictionary after each stretch of operations; `ms[0]` is where the scan starts. */
  ghost predicate Session(slot: Slots, ms: seq<Machine>, between: seq<seq<Op>>)
    requires InRange(slot)
  {
    && |ms| == |between| + 1
    && Valid(slot, ms[0].d)
    && (forall i | 0 <= i < |between| :: Reaches(slot, ms[i], between[i], ms[i + 1]))
  }

  ghost predicate Reaches(slot: Slots, m: Machine, ops: seq<Op>, m': Machine)
    requires InRange(slot)
  {
    Valid(slot, m.d) && StaysSmall(slot, m, ops) && m' == Run(slot, m, ops).0
  }

  lemma SessionValid(slot: Slots, ms: seq<Machine>, between: seq<seq<Op>>, i: nat)
    requires InRange(slot) && Session(slot, ms, between) && i < |ms|
    ensures Valid(slot, ms[i].d)
  {
    if i > 0 {
      assert Reaches(slot, ms[i - 1], between[i - 1], ms[i]);
    }
  }

  /** `v'` is what dictScan returns on `d` with cursor `v`. */
  ghost predicate Call(hash: Hash, d: Dict, v: bv64, v': bv64)
    requires Lawful(WORD_CURSOR)
  {
    Valid(SlotsOf(WORD_CURSOR, hash), d) ==> v' == Scan(WORD_CURSOR, hash, d, v).1
  }

  /** A call on `d` with cursor `v` hands an entry with key `k` to the callback. */
  ghost predicate CallEmits(hash: Hash, d: Dict, v: bv64, k: Key)
    requires Lawful(WORD_CURSOR)
  {
    Valid(SlotsOf(WORD_CURSOR, hash), d) && Emits(WORD_CURSOR, hash, d, v, k)
  }

  /** Starting at cursor 0 and feeding back every returned cursor until 0 comes back, the
      scan emits every key that was there at each call, whatever additions, removals,
      expansions, shrinks and migration steps took place between the calls. */
  lemma DictScanComplete(hash: Hash, ms: seq<Machine>, between: seq<seq<Op>>, vs: seq<bv64>, k: Key)
    requires Lawful(WORD_CURSOR) && InRange(SlotsOf(WORD_CURSOR, hash))
    requires Session(SlotsOf(WORD_CURSOR, hash), ms, between)
    requires |vs| == |ms| + 1 && vs[0] == 0 && vs[|ms|] == 0
    requires forall i | 0 <= i < |ms| :: Call(hash, ms[i].d, vs[i], vs[i + 1])
    requires forall i | 0 <= i < |ms| :: k in Contents(ms[i].d)
    ensures exists i | 0 <= i < |ms| :: CallEmits(hash, ms[i].d, vs[i], k)
  {
    hide Lawful, Valid, Contents, Scan, InRange, Emits, Reaches;
    var ds := seq(|ms|, i requires 0 <= i < |ms| => ms[i].d);
    forall i | 0 <= i < |ds|
      ensures Valid(SlotsOf(WORD_CURSOR, hash), ds[i]) && vs[i + 1] == Scan(WORD_CURSOR, hash, ds[i], vs[i]).1
    {
      SessionValid(SlotsOf(WORD_CURSOR, hash), ms, between, i);
      assert Call(hash, ms[i].d, vs[i], vs[i + 1]);
    }
    ScanComplete(WORD_CURSOR, hash, ds, vs, k);
    var i :| 0 <= i < |ds| && Emits(WORD_CURSOR, hash, ds[i], vs[i], k);
    assert CallEmits(hash, ms[i].d, vs[i], k);
  }

  /** On a dictionary at rest the scan takes one call per bucket of the smaller live table
      and emits every entry exactly once. */
  lemma DictScanStatic(hash: Hash, d: Dict)
    requires Valid(SlotsOf(WORD_CURSOR, hash), d) && d.ht0.used + d.ht1.used != 0
    ensures Lawful(WORD_CURSOR)
    ensures var (es, calls) := ScanStatic.ScanRest(WORD_CURSOR, hash, d, 0);
      multiset(es) == Entries(d) && calls == Smaller(d)
  {
    hide Lawful, Valid, Scan, ScanStatic.ScanRest;
    WordCursorLawful();
    ScanStatic.StaticScan(WORD_CURSOR, hash, d);
  }
}
