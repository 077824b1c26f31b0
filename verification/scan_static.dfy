/**
 The scan of a dictionary that nobody changes: every entry comes out exactly once, in as
 many calls as the smaller live table has buckets.
 */
module ScanStatic {
  import opened Bags
  import opened DictSpec
  import opened DictRefinement
  import opened ScanTheory

  /** How often `e` occurs in `m`, counted only if its hash lies in [lo, hi). */
  ghost function Between(w: Cursor, hash: Hash, m: multiset<Entry>, lo: nat, hi: nat, e: Entry): nat {
    if lo <= w.pos(hash(e.key)) < hi then m[e] else 0
  }

  /** A bucket holds exactly the entries that select it. */
  lemma BucketCount(slot: Slots, t: Table, i: nat, e: Entry)
    requires InRange(slot) && TableOk(slot, t) && i < |t.buckets|
    ensures multiset(t.buckets[i])[e] == if slot(e.key, |t.buckets|) == i then Bag(t.buckets)[e] else 0
  {
    var without := t.buckets[i := []];
    BagUpdate(t.buckets, i, []);
    assert (Bag(without) + multiset(t.buckets[i]))[e] == (Bag(t.buckets) + multiset{})[e];
    if slot(e.key, |t.buckets|) == i {
      if e in Bag(without) {
        BagMember(without, e);
        assert false;
      }
    } else {
      assert e !in t.buckets[i];
    }
  }

  /** For a cursor at the start of its bucket, sharing the bucket is lying before the end. */
  lemma BucketIsStretch(w: Cursor, v: bv64, n: nat, h: bv64)
    requires Lawful(w) && IsSize(n) && Starts(w, v, n)
    ensures w.index(h, n) == w.index(v, n) <==> w.pos(v) <= w.pos(h) < End(w, w.next(v, n))
  {
    hide Lawful;
    if w.index(h, n) == w.index(v, n) {
      BucketEnds(w, v, n, h);
    } else if w.pos(v) <= w.pos(h) < End(w, w.next(v, n)) {
      Covers(w, v, n, h);
    }
  }

  lemma StartsRefined(w: Cursor, v: bv64, n0: nat, n1: nat)
    requires Lawful(w) && IsSize(n0) && IsSize(n1) && n0 <= n1 && Starts(w, v, n0)
    ensures Starts(w, v, n1)
  {
    hide Lawful;
    forall h | w.index(h, n1) == w.index(v, n1) ensures w.pos(v) <= w.pos(h) {
      Refines(w, v, h, n0, n1);
    }
  }

  lemma NextStarts(w: Cursor, v: bv64, n: nat)
    requires Lawful(w) && IsSize(n)
    ensures Starts(w, w.next(v, n), n) && Starts(w, 0, n)
  {
    hide AdvanceLaw, CoverLaw, RefineLaw, WidthLaw;
  }

  lemma StretchWidth(w: Cursor, v: bv64, n: nat)
    requires Lawful(w) && IsSize(n) && Starts(w, v, n)
    ensures End(w, w.next(v, n)) == w.pos(v) + WORDS / n
  {
    hide AdvanceLaw, CoverLaw, RefineLaw, BucketLaw;
  }

  lemma {:induction false} ScanLargeCounts(w: Cursor, hash: Hash, t: Table, n0: nat, v: bv64, e: Entry)
    requires Lawful(w) && TableOk(SlotsOf(w, hash), t)
    requires IsSize(n0) && IsSize(|t.buckets|) && n0 <= |t.buckets| && Starts(w, v, |t.buckets|)
    ensures multiset(ScanLarge(w, t.buckets, n0, v).0)[e]
         == Between(w, hash, Bag(t.buckets), w.pos(v), End(w, w.next(v, n0)), e)
    decreases WORDS - w.pos(v)
  {
    hide Lawful, TableOk, Starts;
    var n1 := |t.buckets|;
    Indexes(w, v, n1);
    SlotsInRange(w, hash);
    BucketCount(SlotsOf(w, hash), t, w.index(v, n1), e);
    BucketIsStretch(w, v, n1, hash(e.key));
    InnerStep(w, v, n0, n1);
    var v' := w.next(v, n1);
    if w.more(v', n0, n1) {
      NextStarts(w, v, n1);
      Advances(w, v', n0);
      ScanLargeCounts(w, hash, t, n0, v', e);
    }
  }

  /** One call emits exactly the entries between the two cursors, each once per occurrence. */
  lemma ScanCounts(w: Cursor, hash: Hash, d: Dict, v: bv64, e: Entry)
    requires Lawful(w) && Valid(SlotsOf(w, hash), d) && d.ht0.used + d.ht1.used != 0
    requires Starts(w, v, Smaller(d))
    ensures multiset(Scan(w, hash, d, v).0)[e]
         == Between(w, hash, Entries(d), w.pos(v), End(w, Scan(w, hash, d, v).1), e)
  {
    hide Lawful, Valid, IsSize, Starts;
    var slot := SlotsOf(w, hash);
    SlotsInRange(w, hash);
    ValidTables(slot, d);
    NonEmptySizes(w, hash, d);
    ScanNext(w, hash, d, v);
    var small, large :=
      if d.Rehashing() && |d.ht0.buckets| > |d.ht1.buckets| then d.ht1 else d.ht0,
      if d.Rehashing() && |d.ht0.buckets| > |d.ht1.buckets| then d.ht0 else d.ht1;
    Indexes(w, v, |small.buckets|);
    BucketCount(slot, small, w.index(v, |small.buckets|), e);
    BucketIsStretch(w, v, |small.buckets|, hash(e.key));
    if d.Rehashing() {
      StartsRefined(w, v, |small.buckets|, |large.buckets|);
      ScanLargeCounts(w, hash, large, |small.buckets|, v, e);
    } else {
      SecondTableEmpty(slot, d);
    }
  }

  lemma SecondTableEmpty(slot: Slots, d: Dict)
    requires Valid(slot, d) && !d.Rehashing()
    ensures Bag(d.ht1.buckets) == multiset{}
  {
  }

  /** All calls from cursor `v` on until one returns 0: what they emit and how many. */
  function ScanRest(w: Cursor, hash: Hash, d: Dict, v: bv64): (Chain, nat)
    requires Lawful(w) && Valid(SlotsOf(w, hash), d) && d.ht0.used + d.ht1.used != 0
    decreases WORDS - w.pos(v)
  {
    hide Lawful, Valid, IsSize, Scan;
    ScanNext(w, hash, d, v);
    Places(w, v);
    var (es, v') := Scan(w, hash, d, v);
    if v' == 0 then (es, 1)
    else
      Places(w, v');
      var (rest, calls) := ScanRest(w, hash, d, v');
      (es + rest, calls + 1)
  }

  /** What is emitted from cursor `v` on: everything from its place to the end, once. */
  lemma {:induction false} ScanRestCounts(w: Cursor, hash: Hash, d: Dict, v: bv64, e: Entry)
    requires Lawful(w) && Valid(SlotsOf(w, hash), d) && d.ht0.used + d.ht1.used != 0
    requires Starts(w, v, Smaller(d))
    ensures multiset(ScanRest(w, hash, d, v).0)[e] == Between(w, hash, Entries(d), w.pos(v), WORDS, e)
    decreases WORDS - w.pos(v)
  {
    hide Lawful, Valid, IsSize, Scan, Starts;
    ScanNext(w, hash, d, v);
    Places(w, v);
    ScanCounts(w, hash, d, v, e);
    NextStarts(w, v, Smaller(d));
    var (es, v') := Scan(w, hash, d, v);
    Places(w, v');
    Places(w, hash(e.key));
    if v' != 0 {
      ScanRestCounts(w, hash, d, v', e);
      var rest := ScanRest(w, hash, d, v').0;
      assert multiset(es + rest)[e] == multiset(es)[e] + multiset(rest)[e];
    }
  }

  /** Each call takes one small bucket's share of the places that are left. */
  lemma {:induction false} ScanRestCalls(w: Cursor, hash: Hash, d: Dict, v: bv64)
    requires Lawful(w) && Valid(SlotsOf(w, hash), d) && d.ht0.used + d.ht1.used != 0
    requires Starts(w, v, Smaller(d)) && Smaller(d) > 0
    ensures w.pos(v) + ScanRest(w, hash, d, v).1 * (WORDS / Smaller(d)) == WORDS
    decreases WORDS - w.pos(v)
  {
    hide Lawful, Valid, IsSize, Scan, Starts, Smaller;
    ScanNext(w, hash, d, v);
    Places(w, v);
    var n := Smaller(d);
    NextStarts(w, v, n);
    StretchWidth(w, v, n);
    var v' := Scan(w, hash, d, v).1;
    Places(w, v');
    if v' != 0 {
      ScanRestCalls(w, hash, d, v');
      var calls := ScanRest(w, hash, d, v').1;
      assert (calls + 1) * (WORDS / n) == calls * (WORDS / n) + WORDS / n;
    }
  }

  lemma {:induction false} Quotient(a: nat, b: nat) returns (q: nat)
    requires IsDoubling(a) && IsDoubling(b) && a <= b
    ensures b == a * q
    decreases b
  {
    if a > INITIAL_SIZE {
      q := Quotient(a / 2, b / 2);
    } else if b == INITIAL_SIZE {
      q := 1;
    } else {
      q := Quotient(a, b / 2);
      q := 2 * q;
    }
  }

  lemma SizeDivides(n: nat)
    requires IsSize(n)
    ensures n * (WORDS / n) == WORDS
  {
    LargestIsSize();
    assert IsDoubling(WORDS);
    var q := Quotient(n, WORDS);
    assert WORDS / n == q;
  }

  lemma Factor(a: nat, b: nat, c: nat)
    requires a * c == b * c && c > 0
    ensures a == b
  {
  }

  /** A full scan of an unchanging non-empty dictionary is a permutation of its entries. */
  lemma StaticScan(w: Cursor, hash: Hash, d: Dict)
    requires Lawful(w) && Valid(SlotsOf(w, hash), d) && d.ht0.used + d.ht1.used != 0
    ensures multiset(ScanRest(w, hash, d, 0).0) == Entries(d)
    ensures ScanRest(w, hash, d, 0).1 == Smaller(d)
  {
    hide Lawful, Valid, IsSize, ScanRest, Starts;
    ScanNext(w, hash, d, 0);
    var n := Smaller(d);
    NextStarts(w, 0, n);
    Places(w, 0);
    forall e ensures multiset(ScanRest(w, hash, d, 0).0)[e] == Entries(d)[e] {
      ScanRestCounts(w, hash, d, 0, e);
      Places(w, hash(e.key));
    }
    NonEmptySizes(w, hash, d);
    SizeDivides(n);
    ScanRestCalls(w, hash, d, 0);
    Factor(ScanRest(w, hash, d, 0).1, n, WORDS / n);
  }
}
