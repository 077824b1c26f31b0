/**
 The stateless scan.  A cursor is a word; `pos` is the place of a word in the order in
 which the scan visits words, and one call visits everything between the place of the
 cursor it is given and the place of the cursor it returns, whatever the tables are.
 Everything here follows from a few laws of the cursor arithmetic; that the word
 arithmetic of the program obeys them is shown in module `ScanWords`.
 */
module ScanTheory {
  import opened Bags
  import opened DictSpec
  import opened DictRefinement

  /** The cursor arithmetic: place of a word, bucket of a word among n, the word after the
      bucket of a word, and whether buckets of the larger of two tables are left over. */
  datatype Cursor = Cursor(
    pos: bv64 -> nat,
    index: (bv64, nat) -> nat,
    next: (bv64, nat) -> bv64,
    more: (bv64, nat, nat) -> bool)

  type Hash = Key -> bv64

  /** The bucket of a key is the bucket of its hash. */
  function SlotsOf(w: Cursor, hash: Hash): Slots {
    (k, n) => w.index(hash(k), n)
  }

  /** The place where the stretch of the bucket of `v` ends. */
  function End(w: Cursor, v: bv64): nat {
    if v == 0 then WORDS else w.pos(v)
  }

  ghost predicate IndexLaw(w: Cursor) {
    forall v, n: nat | n > 0 :: w.index(v, n) < n
  }

  ghost predicate PlaceLaw(w: Cursor) {
    && w.pos(0) == 0
    && (forall v :: w.pos(v) < WORDS)
  }

  /** A call makes progress. */
  ghost predicate AdvanceLaw(w: Cursor) {
    forall v, n {:trigger w.next(v, n)} | IsSize(n) :: w.pos(v) < End(w, w.next(v, n))
  }

  /** What lies between two cursors shares the bucket of the first. */
  ghost predicate CoverLaw(w: Cursor) {
    forall v, n, h {:trigger w.index(h, n), w.next(v, n)} | IsSize(n) && w.pos(v) <= w.pos(h) < End(w, w.next(v, n)) ::
      w.index(h, n) == w.index(v, n)
  }

  /** Nothing of the bucket lies behind the next cursor, which starts a bucket itself and
      depends on the bucket only. */
  ghost predicate BucketLaw(w: Cursor) {
    && (forall v, n, h {:trigger w.next(v, n), w.next(h, n)} | IsSize(n) && w.index(h, n) == w.index(v, n) ::
          w.pos(h) < End(w, w.next(v, n)) && w.next(h, n) == w.next(v, n))
    && (forall v, n | IsSize(n) :: Starts(w, w.next(v, n), n))
  }

  /** `v` comes first in its bucket. */
  ghost predicate Starts(w: Cursor, v: bv64, n: nat) {
    forall h | w.index(h, n) == w.index(v, n) :: w.pos(v) <= w.pos(h)
  }

  /** The buckets of a larger table refine those of a smaller one, and the inner loop of
      the scan stops exactly at the end of the small bucket. */
  ghost predicate RefineLaw(w: Cursor) {
    && (forall v, h, n0, n1 | IsSize(n0) && IsSize(n1) && n0 <= n1 && w.index(h, n1) == w.index(v, n1) ::
          w.index(h, n0) == w.index(v, n0))
    && (forall v, n0, n1 | IsSize(n0) && IsSize(n1) && n0 <= n1 ::
          var v' := w.next(v, n1);
          if w.more(v', n0, n1) then v' != 0 && w.index(v', n0) == w.index(v, n0)
          else v' == w.next(v, n0))
  }

  /** A bucket of a table of n takes an n-th of all places. */
  ghost predicate WidthLaw(w: Cursor) {
    forall v, n {:trigger w.next(v, n)} | IsSize(n) && Starts(w, v, n) :: End(w, w.next(v, n)) == w.pos(v) + WORDS / n
  }

  ghost predicate Lawful(w: Cursor) {
    && IndexLaw(w) && PlaceLaw(w) && AdvanceLaw(w) && CoverLaw(w)
    && BucketLaw(w) && RefineLaw(w) && WidthLaw(w)
  }

  // The laws, one instance at a time.

  lemma Indexes(w: Cursor, v: bv64, n: nat)
    requires Lawful(w) && n > 0
    ensures w.index(v, n) < n
  {
  }

  lemma SlotsInRange(w: Cursor, hash: Hash)
    requires Lawful(w)
    ensures InRange(SlotsOf(w, hash))
  {
    hide AdvanceLaw, CoverLaw, BucketLaw, RefineLaw, WidthLaw;
    forall k, n: nat | n > 0 ensures SlotsOf(w, hash)(k, n) < n {
      Indexes(w, hash(k), n);
    }
  }

  lemma Places(w: Cursor, v: bv64)
    requires Lawful(w)
    ensures w.pos(0) == 0 && w.pos(v) < WORDS
  {
    hide AdvanceLaw, CoverLaw, BucketLaw, RefineLaw, WidthLaw;
  }

  lemma Advances(w: Cursor, v: bv64, n: nat)
    requires Lawful(w) && IsSize(n)
    ensures w.pos(v) < End(w, w.next(v, n)) <= WORDS
  {
    hide CoverLaw, BucketLaw, RefineLaw, WidthLaw;
  }

  lemma Covers(w: Cursor, v: bv64, n: nat, h: bv64)
    requires Lawful(w) && IsSize(n) && w.pos(v) <= w.pos(h) < End(w, w.next(v, n))
    ensures w.index(h, n) == w.index(v, n)
  {
    hide AdvanceLaw, BucketLaw, RefineLaw, WidthLaw;
  }

  lemma BucketEnds(w: Cursor, v: bv64, n: nat, h: bv64)
    requires Lawful(w) && IsSize(n) && w.index(h, n) == w.index(v, n)
    ensures w.pos(h) < End(w, w.next(v, n)) && w.next(h, n) == w.next(v, n)
  {
    hide AdvanceLaw, CoverLaw, RefineLaw, WidthLaw;
  }

  lemma Refines(w: Cursor, v: bv64, h: bv64, n0: nat, n1: nat)
    requires Lawful(w) && IsSize(n0) && IsSize(n1) && n0 <= n1 && w.index(h, n1) == w.index(v, n1)
    ensures w.index(h, n0) == w.index(v, n0)
  {
    hide AdvanceLaw, CoverLaw, BucketLaw, WidthLaw;
  }

  /** One turn of the inner loop: still in the small bucket, or exactly at its end. */
  lemma InnerStep(w: Cursor, v: bv64, n0: nat, n1: nat)
    requires Lawful(w) && IsSize(n0) && IsSize(n1) && n0 <= n1
    ensures var v' := w.next(v, n1);
      if w.more(v', n0, n1) then
        v' != 0 && w.pos(v) < w.pos(v') < WORDS && w.next(v', n0) == w.next(v, n0)
      else
        v' == w.next(v, n0)
  {
    hide Lawful;
    Advances(w, v, n1);
    if w.more(w.next(v, n1), n0, n1) {
      InnerIndex(w, v, n0, n1);
      BucketEnds(w, v, n0, w.next(v, n1));
    } else {
      InnerIndex(w, v, n0, n1);
    }
  }

  lemma InnerIndex(w: Cursor, v: bv64, n0: nat, n1: nat)
    requires Lawful(w) && IsSize(n0) && IsSize(n1) && n0 <= n1
    ensures var v' := w.next(v, n1);
      && w.pos(v') < WORDS
      && if w.more(v', n0, n1) then v' != 0 && w.index(v', n0) == w.index(v, n0)
         else v' == w.next(v, n0)
  {
    hide AdvanceLaw, CoverLaw, BucketLaw, WidthLaw;
  }

  // --------------------------------------------------------------- the scan

  /** The buckets of the larger table that expand the bucket of `v` in a smaller one. */
  function ScanLarge(w: Cursor, b: seq<Chain>, n0: nat, v: bv64): (Chain, bv64)
    requires Lawful(w) && IsSize(n0) && IsSize(|b|) && n0 <= |b|
    decreases WORDS - w.pos(v)
  {
    hide Lawful, IsSize;
    assert |b| > 0;
    Indexes(w, v, |b|);
    InnerStep(w, v, n0, |b|);
    var c := b[w.index(v, |b|)];
    var v' := w.next(v, |b|);
    if w.more(v', n0, |b|) then
      var r := ScanLarge(w, b, n0, v');
      (c + r.0, r.1)
    else (c, v')
  }

  /** One call: the entries handed to the callback, in order, and the next cursor. */
  function Scan(w: Cursor, hash: Hash, d: Dict, v: bv64): (Chain, bv64)
    requires Lawful(w) && Valid(SlotsOf(w, hash), d)
  {
    hide Lawful, IsSize, Valid;
    if d.ht0.used + d.ht1.used == 0 then ([], 0)
    else
      NonEmptySizes(w, hash, d);
      if !d.Rehashing() then
        Indexes(w, v, |d.ht0.buckets|);
        (d.ht0.buckets[w.index(v, |d.ht0.buckets|)], w.next(v, |d.ht0.buckets|))
      else
        var (small, large) :=
          if |d.ht0.buckets| > |d.ht1.buckets| then (d.ht1.buckets, d.ht0.buckets)
          else (d.ht0.buckets, d.ht1.buckets);
        Indexes(w, v, |small|);
        var (rest, v') := ScanLarge(w, large, |small|, v);
        (small[w.index(v, |small|)] + rest, v')
  }

  lemma NonEmptySizes(w: Cursor, hash: Hash, d: Dict)
    requires Valid(SlotsOf(w, hash), d) && d.ht0.used + d.ht1.used != 0
    ensures IsSize(|d.ht0.buckets|) && |d.ht0.buckets| > 0
    ensures d.Rehashing() ==> IsSize(|d.ht1.buckets|) && |d.ht1.buckets| > 0
  {
    hide UniqueKeys, Entries, Placed;
    assert d.ht0.buckets == [] ==> d.ht0.used == 0 by { assert Bag<Entry>([]) == multiset{}; }
  }

  /** The size of the smaller live table. */
  function Smaller(d: Dict): nat {
    if d.Rehashing() && |d.ht1.buckets| < |d.ht0.buckets| then |d.ht1.buckets| else |d.ht0.buckets|
  }

  lemma {:induction false} ScanLargeNext(w: Cursor, b: seq<Chain>, n0: nat, v: bv64)
    requires Lawful(w) && IsSize(n0) && IsSize(|b|) && n0 <= |b|
    ensures ScanLarge(w, b, n0, v).1 == w.next(v, n0)
    decreases WORDS - w.pos(v)
  {
    hide Lawful, IsSize;
    InnerStep(w, v, n0, |b|);
    if w.more(w.next(v, |b|), n0, |b|) {
      ScanLargeNext(w, b, n0, w.next(v, |b|));
    }
  }

  /** Whatever the tables, a call returns the cursor past the bucket of the smaller one. */
  lemma ScanNext(w: Cursor, hash: Hash, d: Dict, v: bv64)
    requires Lawful(w) && Valid(SlotsOf(w, hash), d) && d.ht0.used + d.ht1.used != 0
    ensures IsSize(Smaller(d)) && Scan(w, hash, d, v).1 == w.next(v, Smaller(d))
    ensures w.pos(v) < End(w, Scan(w, hash, d, v).1)
  {
    hide Lawful, Valid, IsSize;
    NonEmptySizes(w, hash, d);
    Advances(w, v, Smaller(d));
    if d.Rehashing() {
      if |d.ht0.buckets| > |d.ht1.buckets| {
        ScanLargeNext(w, d.ht0.buckets, |d.ht1.buckets|, v);
      } else {
        ScanLargeNext(w, d.ht1.buckets, |d.ht0.buckets|, v);
      }
    }
  }

  // ------------------------------------------------------------ completeness

  /** An entry of a table is in the bucket of every cursor that shares its bucket. */
  lemma InItsBucket(slot: Slots, t: Table, e: Entry)
    requires InRange(slot) && TableOk(slot, t) && e in Bag(t.buckets)
    ensures t.buckets != [] && e in t.buckets[slot(e.key, |t.buckets|)]
  {
    BagMember(t.buckets, e);
  }

  lemma {:induction false} ScanLargeCovers(w: Cursor, hash: Hash, t: Table, n0: nat, v: bv64, e: Entry)
    requires Lawful(w) && TableOk(SlotsOf(w, hash), t) && e in Bag(t.buckets)
    requires IsSize(n0) && IsSize(|t.buckets|) && n0 <= |t.buckets|
    requires w.pos(v) <= w.pos(hash(e.key)) < End(w, w.next(v, n0))
    ensures e in ScanLarge(w, t.buckets, n0, v).0
    decreases WORDS - w.pos(v)
  {
    hide Lawful, TableOk, IsSize;
    SlotsInRange(w, hash);
    InItsBucket(SlotsOf(w, hash), t, e);
    InnerStep(w, v, n0, |t.buckets|);
    var v' := w.next(v, |t.buckets|);
    if w.pos(hash(e.key)) < End(w, v') {
      Covers(w, v, |t.buckets|, hash(e.key));
    } else {
      ScanLargeCovers(w, hash, t, n0, v', e);
    }
  }

  /** One call emits every entry whose hash lies between the cursors, in either table. */
  lemma ScanCovers(w: Cursor, hash: Hash, d: Dict, v: bv64, e: Entry)
    requires Lawful(w) && Valid(SlotsOf(w, hash), d) && e in Entries(d)
    requires w.pos(v) <= w.pos(hash(e.key)) < End(w, Scan(w, hash, d, v).1)
    ensures e in Scan(w, hash, d, v).0
  {
    hide Lawful, Valid, IsSize, Bag;
    var slot := SlotsOf(w, hash);
    SlotsInRange(w, hash);
    ValidFacts(slot, d);
    ValidTables(slot, d);
    assert d.ht0.used + d.ht1.used > 0;
    ScanNext(w, hash, d, v);
    NonEmptySizes(w, hash, d);
    Covers(w, v, Smaller(d), hash(e.key));
    if e in Bag(d.ht0.buckets) {
      InItsBucket(slot, d.ht0, e);
      if d.Rehashing() && |d.ht0.buckets| > |d.ht1.buckets| {
        ScanLargeCovers(w, hash, d.ht0, |d.ht1.buckets|, v, e);
      }
    } else {
      NotInMissingTable(slot, d, e);
      InItsBucket(slot, d.ht1, e);
      if |d.ht0.buckets| <= |d.ht1.buckets| {
        ScanLargeCovers(w, hash, d.ht1, |d.ht0.buckets|, v, e);
      }
    }
  }

  lemma NotInMissingTable(slot: Slots, d: Dict, e: Entry)
    requires Valid(slot, d) && e in Bag(d.ht1.buckets)
    ensures d.Rehashing()
  {
  }

  /** A full scan: cursor 0, one call per state, each call fed the cursor of the one
      before, until a call returns 0. */
  ghost predicate FullScan(w: Cursor, hash: Hash, ds: seq<Dict>, vs: seq<bv64>)
    requires Lawful(w)
  {
    && |vs| == |ds| + 1 && ds != []
    && vs[0] == 0 && vs[|ds|] == 0
    && (forall i | 0 <= i < |ds| :: Valid(SlotsOf(w, hash), ds[i]) && vs[i + 1] == Scan(w, hash, ds[i], vs[i]).1)
  }

  ghost predicate Emits(w: Cursor, hash: Hash, d: Dict, v: bv64, k: Key)
    requires Lawful(w) && Valid(SlotsOf(w, hash), d)
  {
    exists e :: e in Scan(w, hash, d, v).0 && e.key == k
  }

  lemma EmitsBetween(w: Cursor, hash: Hash, d: Dict, v: bv64, k: Key)
    requires Lawful(w) && Valid(SlotsOf(w, hash), d) && k in Contents(d)
    requires w.pos(v) <= w.pos(hash(k)) < End(w, Scan(w, hash, d, v).1)
    ensures Emits(w, hash, d, v, k)
  {
    var e :| e in Entries(d) && e.key == k;
    ScanCovers(w, hash, d, v, e);
  }

  /** A key that is in the dictionary at every call is emitted by some call, whatever the
      dictionaries have gone through between the calls. */
  lemma ScanComplete(w: Cursor, hash: Hash, ds: seq<Dict>, vs: seq<bv64>, k: Key)
    requires Lawful(w) && FullScan(w, hash, ds, vs)
    requires forall i | 0 <= i < |ds| :: k in Contents(ds[i])
    ensures exists i :: 0 <= i < |ds| && Emits(w, hash, ds[i], vs[i], k)
  {
    hide Scan, Valid, Contents, Lawful;
    Places(w, hash(k));
    var i := 0;
    while w.pos(hash(k)) >= End(w, vs[i + 1])
      invariant 0 <= i < |ds|
      invariant w.pos(vs[i]) <= w.pos(hash(k))
      decreases |ds| - i
    {
      i := i + 1;
    }
    EmitsBetween(w, hash, ds[i], vs[i], k);
  }

}
