/**
 Exact sizes and exact work: how large a new table is, when a table grows, how many buckets
 a migration moves at a time, and where a new entry goes.
 */
module DictExact {
  import opened Reversal
  import opened Bags
  import opened DictSpec
  import opened DictRefinement
  import opened DictLoad
  import ScanWords

  // ------------------------------------------------------------------- sizes

  lemma {:induction false} PowerDoubles(k: nat)
    requires k >= 2
    ensures IsDoubling(Pow2(k))
  {
    if k == 2 {
      assert Pow2(0) == 1 && Pow2(1) == 2 && Pow2(2) == 4;
    } else {
      PowerDoubles(k - 1);
      Doubles(Pow2(k - 1));
    }
  }

  /** The sizes are the powers of two from 2^2 to 2^63. */
  lemma SizesArePowers(n: nat)
    ensures IsSize(n) <==> exists k: nat :: 2 <= k <= 63 && n == Pow2(k)
  {
    hide Pow2, IsDoubling;
    if IsSize(n) {
      var k := ScanWords.Exponent(n);
    }
    if exists k: nat :: 2 <= k <= 63 && n == Pow2(k) {
      var k: nat :| 2 <= k <= 63 && n == Pow2(k);
      PowerDoubles(k);
      PowerBound(k);
    }
  }

  lemma PowerBound(k: nat)
    requires k <= 63
    ensures Pow2(k) <= LONG_MAX + 1
  {
    hide Pow2, IsDoubling;
    LargestIsSize();
    var j := ScanWords.Exponent(LONG_MAX + 1);
    PowerOne();
    if j < 63 { ScanWords.PowMonotone(1, 64 - j); }
    if k < 63 { ScanWords.PowMonotone(k, 63); }
  }

  lemma PowerOne()
    ensures Pow2(1) == 2
  {
  }

  /** `n` is the least size that holds `size` entries, or the largest size if none does. */
  ghost predicate LeastSize(n: nat, size: nat) {
    && IsSize(n)
    && (size <= n || n == LONG_MAX + 1)
    && forall m: nat | IsSize(m) && size <= m :: n <= m
  }

  lemma {:induction false} NextPowerFromLeast(i: nat, size: nat, m: nat)
    requires IsSize(i) && size < LONG_MAX && IsSize(m) && size <= m && i <= m
    ensures NextPowerFrom(i, size) <= m
    decreases size - i
  {
    hide IsDoubling;
    if i < size {
      LargestIsSize();
      DoublingGap(i, m);
      DoublingGap(i, LONG_MAX + 1);
      Doubles(i);
      NextPowerFromLeast(2 * i, size, m);
    }
  }

  lemma {:induction false} SmallestSize(m: nat)
    requires IsDoubling(m)
    ensures m >= INITIAL_SIZE
  {
  }

  /** A table is made for a request with the least size that holds it. */
  lemma NextPowerIsLeast(size: nat)
    ensures LeastSize(NextPower(size), size)
  {
    hide NextPowerFrom, IsDoubling;
    NextPowerIsSize(size);
    InitialIsSize();
    forall m: nat | IsSize(m) && size <= m ensures NextPower(size) <= m {
      SmallestSize(m);
      if size < LONG_MAX {
        NextPowerFromLeast(INITIAL_SIZE, size, m);
      } else if m < LONG_MAX + 1 {
        LargestIsSize();
        DoublingGap(m, LONG_MAX + 1);
      }
    }
  }

  lemma InitialIsSize()
    ensures IsSize(INITIAL_SIZE)
  {
  }

  lemma LeastIsOne(n: nat, m: nat, size: nat)
    requires LeastSize(n, size) && LeastSize(m, size)
    ensures n == m
  {
    hide IsDoubling;
  }

  /** A table of `n` buckets, all empty. */
  predicate EmptyTable(t: Table, n: nat) {
    |t.buckets| == n && t.used == 0 && forall i :: 0 <= i < n ==> t.buckets[i] == []
  }

  /** dictExpand makes a table if and only if no migration goes on, the entries fit the
      request and the least size for it is another one; the table is empty and has exactly
      that size, and if there was one before, the migration begins at its first bucket. */
  lemma ExpandExact(d: Dict, size: nat, n: nat)
    requires LeastSize(n, size)
    ensures var (d', ok) := Expand(d, size);
      && (ok <==> !d.Rehashing() && d.ht0.used <= size && n != |d.ht0.buckets|)
      && (!ok ==> d' == d)
      && (ok && d.ht0.buckets == [] ==> EmptyTable(d'.ht0, n) && d' == d.(ht0 := d'.ht0))
      && (ok && d.ht0.buckets != [] ==> EmptyTable(d'.ht1, n) && d' == d.(ht1 := d'.ht1, rehashidx := 0))
  {
    hide NextPower, IsSize, LeastSize;
    NextPowerIsLeast(size);
    LeastIsOne(n, NextPower(size), size);
  }

  /** Growth is due in a full table: with as many entries as buckets while resizing is
      allowed, and with six times as many in any case. */
  lemma DueExactly(d: Dict, canResize: bool)
    ensures var n := |d.ht0.buckets|;
      GrowthDue(d, canResize) <==> n > 0 && (d.ht0.used >= 6 * n || (canResize && d.ht0.used >= n))
  {
    var n := |d.ht0.buckets|;
    if n > 0 {
      SixTimes(d.ht0.used, n);
    }
  }

  lemma SixTimes(u: nat, n: nat)
    requires n > 0
    ensures u / n > 5 <==> u >= 6 * n
  {
    assert u == n * (u / n) + u % n;
    if u / n > 5 {
      Product(n, 6, u / n);
    } else {
      Product(n, u / n + 1, 6);
      assert n * (u / n + 1) == n * (u / n) + n;
    }
  }

  lemma Product(n: nat, a: nat, b: nat)
    requires a <= b
    ensures n * a <= n * b
  {
  }

  /** A table that has as many entries as buckets is doubled, exactly, when it may grow. */
  lemma GrowthDoubles(slot: Slots, d: Dict, canResize: bool)
    requires Valid(slot, d) && !d.Rehashing() && d.ht0.buckets != [] && d.ht0.used == |d.ht0.buckets| <= LONG_MAX
    ensures var (d', ok) := ExpandIfNeeded(d, canResize);
      && ok
      && (canResize ==> EmptyTable(d'.ht1, 2 * |d.ht0.buckets|) && d' == d.(ht1 := d'.ht1, rehashidx := 0))
      && (!canResize ==> d' == d)
  {
    hide IsDoubling, Bag, UniqueKeys, Placed, NextPower, Expand;
    var n := |d.ht0.buckets|;
    DueExactly(d, canResize);
    if canResize {
      Doubles(n);
      LargestIsSize();
      DoublingGap(n, LONG_MAX + 1);
      DoubleIsLeast(n);
      ExpandExact(d, 2 * n, 2 * n);
    }
  }

  lemma DoubleIsLeast(n: nat)
    requires IsSize(2 * n)
    ensures LeastSize(2 * n, 2 * n)
  {
  }

  /** The first entry makes a table of four buckets. */
  lemma FirstTable(d: Dict, canResize: bool)
    requires d.ht0 == NO_TABLE && !d.Rehashing()
    ensures var (d', ok) := ExpandIfNeeded(d, canResize); ok && EmptyTable(d'.ht0, 4) && d' == d.(ht0 := d'.ht0)
  {
    hide Expand, NextPower;
    InitialIsSize();
    DoubleIsLeast(2);
    ExpandExact(d, INITIAL_SIZE, INITIAL_SIZE);
  }

  /** Growth that is due makes the least table for twice the entries. */
  lemma GrowthExact(d: Dict, canResize: bool, n: nat)
    requires !d.Rehashing() && GrowthDue(d, canResize) && LeastSize(n, 2 * d.ht0.used) && d.ht0.used <= LONG_MAX
    ensures var (d', ok) := ExpandIfNeeded(d, canResize);
      && (ok <==> n != |d.ht0.buckets|)
      && (ok ==> EmptyTable(d'.ht1, n) && d' == d.(ht1 := d'.ht1, rehashidx := 0))
      && (!ok ==> d' == d)
  {
    hide Expand, IsSize;
    ExpandExact(d, 2 * d.ht0.used, n);
  }

  // --------------------------------------------------------------- migration

  /** How many of some buckets hold entries. */
  function Filled(b: seq<Chain>): nat {
    if b == [] then 0 else (if b[0] == [] then 0 else 1) + Filled(b[1..])
  }

  lemma {:induction false} FilledAppend(a: seq<Chain>, b: seq<Chain>)
    ensures Filled(a + b) == Filled(a) + Filled(b)
  {
    if a == [] {
      assert a + b == b;
    } else {
      FilledAppend(a[1..], b);
      assert (a + b)[1..] == a[1..] + b;
    }
  }

  lemma {:induction false} NoneFilled(b: seq<Chain>)
    requires forall i :: 0 <= i < |b| ==> b[i] == []
    ensures Filled(b) == 0
  {
    if b != [] {
      NoneFilled(b[1..]);
    }
  }

  lemma {:induction false} SkipVisits(b: seq<Chain>, idx: nat, visits: nat)
    requires visits > 0
    requires exists i :: idx <= i < |b| && b[i] != []
    ensures var (i, left, gaveUp) := Skip(b, idx, visits); i - idx + left == visits
    decreases |b| - idx
  {
    if b[idx] == [] && visits != 1 {
      SkipVisits(b, idx + 1, visits - 1);
    }
  }

  /** What a migration did between two places of the old table: with `n` moves and `visits`
      empty buckets allowed, it did all the moves or gave up. */
  predicate Migrated(was: Dict, now: Dict, n: nat, visits: nat) {
    var r, r' := was.rehashidx, now.rehashidx;
    && 0 <= r <= r' <= |was.ht0.buckets| == |now.ht0.buckets|
    && now.ht0.buckets[r'..] == was.ht0.buckets[r'..]
    && var filled := Filled(was.ht0.buckets[r..r']); var empty := r' - r - filled;
       && 0 <= empty
       && ((filled == n && (empty < visits || empty == 0)) || (filled < n && empty == visits))
  }

  lemma {:induction false} RehashLoopWork(slot: Slots, d: Dict, n: nat, visits: nat)
    requires InRange(slot) && Sound(slot, d) && d.Rehashing()
    requires n > 0 ==> visits > 0
    ensures var (d', more) := RehashLoop(slot, d, n, visits);
      && (more ==> Migrated(d, d', n, visits))
      && (!more ==> 0 <= d.rehashidx <= |d.ht0.buckets| && Filled(d.ht0.buckets[d.rehashidx..]) <= n)
    decreases n
  {
    hide Sound, InRange, Skip, MoveBucket, Migrated, RehashLoop, Filled;
    var b := d.ht0.buckets;
    LoopTurn(slot, d, n, visits);
    HasTarget(slot, d);
    if d.ht0.used == 0 {
      AllEmpty(slot, d);
      NoneFilled(b[d.rehashidx..]);
    } else if n == 0 {
      NothingMigrated(slot, d, visits);
    } else {
      UsedMeansAhead(slot, d);
      SkipVisits(b, d.rehashidx, visits);
      var (idx, left, gaveUp) := Skip(b, d.rehashidx, visits);
      if gaveUp {
        GaveUp(d, idx, n, visits);
      } else {
        MoveBucketKeeps(slot, d, idx);
        RehashLoopWork(slot, MoveBucket(slot, d, idx), n - 1, left);
        OneMoved(slot, d, idx, n, visits, left, RehashLoop(slot, d, n, visits).0);
      }
    }
  }

  lemma LoopTurn(slot: Slots, d: Dict, n: nat, visits: nat)
    requires InRange(slot) && Sound(slot, d) && d.Rehashing() && (n > 0 ==> visits > 0)
    ensures var r := RehashLoop(slot, d, n, visits);
      if d.ht0.used == 0 then !r.1
      else if n == 0 then r == (d, true)
      else (
        UsedMeansAhead(slot, d);
        var (idx, left, gaveUp) := Skip(d.ht0.buckets, d.rehashidx, visits);
        if gaveUp then r == (d.(rehashidx := idx), true)
        else (
          MoveBucketKeeps(slot, d, idx);
          r == RehashLoop(slot, MoveBucket(slot, d, idx), n - 1, left)))
  {
    hide Sound, InRange, Skip, MoveBucket;
  }

  lemma NothingMigrated(slot: Slots, d: Dict, visits: nat)
    requires Sound(slot, d) && d.Rehashing()
    ensures Migrated(d, d, 0, visits)
  {
    assert d.ht0.buckets[d.rehashidx..d.rehashidx] == [];
  }

  lemma GaveUp(d: Dict, idx: nat, n: nat, visits: nat)
    requires d.rehashidx >= 0 && idx == d.rehashidx + visits <= |d.ht0.buckets| && n > 0
    requires forall i | d.rehashidx <= i < idx :: d.ht0.buckets[i] == []
    ensures Migrated(d, d.(rehashidx := idx), n, visits)
  {
    NoneFilled(d.ht0.buckets[d.rehashidx..idx]);
  }

  lemma AllEmpty(slot: Slots, d: Dict)
    requires Sound(slot, d) && d.Rehashing() && d.ht0.used == 0
    ensures forall i :: 0 <= i < |d.ht0.buckets| ==> d.ht0.buckets[i] == []
    ensures 0 <= d.rehashidx <= |d.ht0.buckets|
  {
    forall i | 0 <= i < |d.ht0.buckets| ensures d.ht0.buckets[i] == [] {
      ChainInBag(d.ht0.buckets, i);
    }
  }

  /** A bucket moved in front of the rest of the work. */
  lemma OneMoved(slot: Slots, d: Dict, idx: nat, n: nat, visits: nat, left: nat, d': Dict)
    requires InRange(slot) && d.ht1.buckets != [] && 0 <= d.rehashidx <= idx < |d.ht0.buckets|
    requires forall i | d.rehashidx <= i < idx :: d.ht0.buckets[i] == []
    requires d.ht0.buckets[idx] != [] && idx - d.rehashidx + left == visits && n > 0 && left > 0
    requires |d.ht0.buckets[idx]| <= d.ht0.used
    ensures var d1, b := MoveBucket(slot, d, idx), d.ht0.buckets;
      && d1.rehashidx == idx + 1 && |d1.ht0.buckets| == |b|
      && (Migrated(d1, d', n - 1, left) ==> Migrated(d, d', n, visits))
      && Filled(b[d.rehashidx..]) == 1 + Filled(d1.ht0.buckets[idx + 1..])
  {
    hide Filled;
    var b, r := d.ht0.buckets, d.rehashidx;
    var d1 := MoveBucket(slot, d, idx);
    assert d1.ht0.buckets[idx + 1..] == b[idx + 1..];
    OneFilled(b, r, idx, |b|);
    assert b[r..] == b[r..|b|] && b[idx + 1..] == b[idx + 1..|b|];
    if Migrated(d1, d', n - 1, left) {
      var r' := d'.rehashidx;
      OneFilled(b, r, idx, r');
      assert d1.ht0.buckets[idx + 1..r'] == b[idx + 1..r'];
      assert d1.ht0.buckets[r'..] == b[r'..];
    }
  }

  lemma HasTarget(slot: Slots, d: Dict)
    requires Sound(slot, d) && d.Rehashing()
    ensures d.ht1.buckets != [] && 0 <= d.rehashidx
  {
  }

  lemma OneFilled(b: seq<Chain>, r: nat, idx: nat, r': nat)
    requires r <= idx < r' <= |b| && b[idx] != [] && forall i | r <= i < idx :: b[i] == []
    ensures Filled(b[r..r']) == 1 + Filled(b[idx + 1..r'])
  {
    assert b[r..r'] == b[r..idx] + b[idx..r'];
    FilledAppend(b[r..idx], b[idx..r']);
    NoneFilled(b[r..idx]);
    assert b[idx..r'][1..] == b[idx + 1..r'];
  }

  /** dictRehash(n) moves exactly n buckets that hold entries, unless it passes over 10 * n
      empty ones first or comes to the end of the old table. */
  lemma RehashWork(slot: Slots, d: Dict, n: nat)
    requires InRange(slot) && Valid(slot, d) && d.Rehashing()
    ensures var (d', more) := Rehash(slot, d, n);
      && (more ==> Migrated(d, d', n, 10 * n))
      && (!more ==> Filled(d.ht0.buckets[d.rehashidx..]) <= n)
  {
    hide RehashLoop, UniqueKeys, Bag, Entries, Placed, IsSize, InRange;
    RehashLoopWork(slot, d, n, n * 10);
  }

  /** The operations that take a step of the migration along. */
  predicate Stepping(op: Op) {
    op.Add? || op.Put? || op.Get? || op.Remove?
  }

  /** An ordinary operation during a migration moves at most one bucket that holds entries,
      among at most ten that it passes, and none while an iterator is live; if it does not
      complete the migration it moves on. */
  lemma OperationMigrates(slot: Slots, m: Machine, op: Op)
    requires InRange(slot) && Valid(slot, m.d) && m.d.Rehashing() && Size(m.d) > 0 && Stepping(op)
    ensures var d, d', s := m.d, Apply(slot, m, op).0.d, Step(slot, m.d);
      && (d.iterators > 0 ==> s == d)
      && (d.iterators == 0 && s.Rehashing() ==>
          d.rehashidx < s.rehashidx <= d.rehashidx + 10 && Migrated(d, s, 1, 10))
      && (d.iterators == 0 && !s.Rehashing() ==> Filled(d.ht0.buckets[d.rehashidx..]) <= 1)
      && (s.Rehashing() ==>
          && d'.rehashidx == s.rehashidx
          && |d'.ht0.buckets| == |s.ht0.buckets| && |d'.ht1.buckets| == |s.ht1.buckets|)
  {
    hide Rehash, UniqueKeys, Bag, Entries, Placed, IsSize, InRange, RemoveAt, InsertAt, SetAt, FindAt;
    var d := m.d;
    StepKeeps(slot, d);
    if d.iterators == 0 {
      RehashWork(slot, d, 1);
      RehashAdvances(slot, d, 1);
    }
  }

  // -------------------------------------------------------------- new entries

  /** The table that takes new entries. */
  function NewestTable(d: Dict): Table {
    if d.Rehashing() then d.ht1 else d.ht0
  }

  /** A new entry goes to the head of the chain that its key selects in the newest table, and
      nothing else changes behind the migration step and the growth. */
  lemma AddsAtHead(slot: Slots, d: Dict, k: Key, v: Value, canResize: bool)
    requires InRange(slot) && Valid(slot, d) && AddRaw(slot, d, k, v, canResize).1.Added?
    ensures var d0, d' := ExpandIfNeeded(Step(slot, d), canResize).0, AddRaw(slot, d, k, v, canResize).0;
      var t, t' := NewestTable(d0), NewestTable(d');
      var h := slot(k, |t.buckets|);
      && d'.rehashidx == d0.rehashidx && d'.iterators == d.iterators
      && (if d0.Rehashing() then d'.ht0 == d0.ht0 else d'.ht1 == d0.ht1)
      && t'.used == t.used + 1 && |t'.buckets| == |t.buckets| && h < |t.buckets|
      && t'.buckets[h] == [Entry(k, v)] + t.buckets[h]
      && forall i :: 0 <= i < |t.buckets| && i != h ==> t'.buckets[i] == t.buckets[i]
  {
    hide UniqueKeys, Bag, Entries, Placed, IsSize, Search, Rehash;
    StepKeeps(slot, d);
    if d.Rehashing() { RehashAdvances(slot, d, 1); }
    ExpandIfNeededKeeps(slot, Step(slot, d), canResize);
  }
}
