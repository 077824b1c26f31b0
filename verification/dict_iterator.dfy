/**
 The safe iterator: a walk over all chains of both tables that tolerates lookups,
 insertions (even ones that start an expansion) and the removal of the entry it returned
 last.  An entry is identified by its key.
 */
module DictIterator {
  import opened Options
  import opened Bags
  import opened DictSpec
  import opened DictRefinement

  /** `entry` is the entry returned last, `next` the one after it when it was returned. */
  datatype Iter = Iter(table: nat, index: int, entry: Option<Key>, next: Option<Key>)

  const FRESH := Iter(0, -1, None, None)

  function TableAt(d: Dict, t: nat): seq<Chain> {
    if t == 0 then d.ht0.buckets else d.ht1.buckets
  }

  function First(c: Chain): Option<Key> {
    if c == [] then None else Some(c[0].key)
  }

  /** The key after the entry with key `k`. */
  function After(c: Chain, k: Key): Option<Key> {
    if c == [] then None
    else if c[0].key == k then First(c[1..])
    else After(c[1..], k)
  }

  predicate HasIn(c: Chain, k: Key) {
    FindIn(c, k).Some?
  }

  function BucketsLeft(d: Dict, it: Iter): nat {
    var size := |TableAt(d, it.table)|;
    (if it.index < size then size - it.index else 0) + (if it.table == 0 then |d.ht1.buckets| + 1 else 0)
  }

  /** The bucket under the iterator. */
  function Here(d: Dict, it: Iter): Chain {
    if 0 <= it.index < |TableAt(d, it.table)| then TableAt(d, it.table)[it.index] else []
  }

  /** Return the entry with key `k`, remembering the one after it. */
  function Return(d: Dict, it: Iter, k: Key): (Iter, Option<Key>) {
    (it.(entry := Some(k), next := After(Here(d, it), k)), Some(k))
  }

  /** The loop of dictNext: the iterator afterwards and the key of the entry returned. */
  function Walk(d: Dict, it: Iter): (Iter, Option<Key>)
    requires it.index >= -1 && it.table <= 1 && (d.Rehashing() ==> d.ht1.buckets != [])
    decreases BucketsLeft(d, it), it.entry.Some?
  {
    if it.entry.Some? then
      if it.next.Some? then Return(d, it, it.next.value) else Walk(d, it.(entry := None))
    else
      var it1 := it.(index := it.index + 1);
      if it1.index < |TableAt(d, it.table)| then Enter(d, it1)
      else if d.Rehashing() && it.table == 0 then Enter(d, it.(table := 1, index := 0))
      else (it1, None)
  }

  /** At the head of a chain. */
  function Enter(d: Dict, it: Iter): (Iter, Option<Key>)
    requires it.table <= 1 && 0 <= it.index < |TableAt(d, it.table)| && it.entry.None?
    requires d.Rehashing() ==> d.ht1.buckets != []
    decreases BucketsLeft(d, it), true
  {
    var c := TableAt(d, it.table)[it.index];
    if c == [] then Walk(d, it) else Return(d, it, c[0].key)
  }

  /** dictNext: a safe iterator registers itself on its first call. */
  function Next(d: Dict, it: Iter): (Dict, Iter, Option<Key>)
    requires it.index >= -1 && it.table <= 1 && (d.Rehashing() ==> d.ht1.buckets != [])
  {
    var d' := if it.entry.None? && it.index == -1 && it.table == 0 then d.(iterators := d.iterators + 1) else d;
    var (it', k) := Walk(d', it);
    (d', it', k)
  }

  // --------------------------------------------------------- what was visited

  /** `k` is in the chain at or after the entry with key `n`. */
  function InTail(c: Chain, n: Option<Key>, k: Key): bool {
    if c == [] || n.None? then false
    else if c[0].key == n.value then HasIn(c, k)
    else InTail(c[1..], n, k)
  }

  /** The table and bucket of a key that is in the dictionary. */
  ghost function TableOf(slot: Slots, d: Dict, k: Key): nat
    requires InRange(slot)
  {
    if FindAt(slot, d.ht0, k).Some? then 0 else 1
  }

  ghost function BucketAt(slot: Slots, d: Dict, k: Key): nat
    requires InRange(slot) && Search(slot, d, k).Some?
  {
    slot(k, |TableAt(d, TableOf(slot, d, k))|)
  }

  /** The iterator is past `k`: in an earlier table, an earlier bucket, or earlier in the
      chain it is walking. */
  ghost predicate Visited(slot: Slots, d: Dict, it: Iter, k: Key)
    requires InRange(slot) && Search(slot, d, k).Some?
  {
    var t, b := TableOf(slot, d, k), BucketAt(slot, d, k);
    || t < it.table
    || (t == it.table && b < it.index)
    || (t == it.table && b == it.index && !InTail(Here(d, it), it.next, k))
  }

  /** The iterator between calls: inside a live table, the entry to come still linked. */
  ghost predicate Walking(d: Dict, it: Iter) {
    && d.iterators > 0
    && it.table <= (if d.Rehashing() then 1 else 0)
    && -1 <= it.index < |TableAt(d, it.table)|
    && (d.Rehashing() ==> d.ht1.buckets != [])
    && (it.next.Some? ==> it.entry.Some? && it.entry != it.next && HasIn(Here(d, it), it.next.value))
  }

  // ------------------------------------------------------------- one call

  ghost predicate DistinctKeys(c: Chain) {
    forall i, j | 0 <= i < j < |c| :: c[i].key != c[j].key
  }

  lemma {:induction false} HasInMeans(c: Chain, k: Key)
    ensures HasIn(c, k) <==> exists i :: 0 <= i < |c| && c[i].key == k
  {
    if c != [] && c[0].key != k {
      HasInMeans(c[1..], k);
      if i :| 0 <= i < |c| && c[i].key == k {
        assert c[1..][i - 1].key == k;
      }
    }
  }

  /** After the entry returned come exactly the others of its tail. */
  lemma {:induction false} TailAfter(c: Chain, n: Key, k: Key)
    requires DistinctKeys(c) && HasIn(c, n)
    ensures InTail(c, After(c, n), k) <==> InTail(c, Some(n), k) && k != n
    ensures After(c, n).Some? ==> After(c, n).value != n && HasIn(c, After(c, n).value)
  {
    if c[0].key == n {
      var rest := c[1..];
      HasInMeans(rest, n);
      assert !HasIn(rest, n);
      assert HasIn(c, k) <==> k == n || HasIn(rest, k);
      if rest != [] {
        assert InTail(c, First(rest), k) == InTail(rest, First(rest), k) == HasIn(rest, k);
      }
    } else {
      TailAfter(c[1..], n, k);
      HasInMeans(c[1..], c[0].key);
    }
  }

  lemma TailFromHead(c: Chain, k: Key)
    ensures InTail(c, First(c), k) <==> HasIn(c, k)
  {
  }

  lemma WalkingChain(slot: Slots, d: Dict, t: nat, b: nat)
    requires InRange(slot) && Valid(slot, d) && t <= 1 && b < |TableAt(d, t)|
    ensures DistinctKeys(TableAt(d, t)[b])
  {
    var c := TableAt(d, t)[b];
    ChainInBag(TableAt(d, t), b);
    forall i, j | 0 <= i < j < |c| ensures c[i].key != c[j].key {
      assert c[i] in multiset(c) && c[j] in multiset(c);
      assert multiset(c)[c[i]] <= Bag(TableAt(d, t))[c[i]] <= Entries(d)[c[i]];
      assert c[i] in Entries(d) && c[j] in Entries(d);
      if c[i] == c[j] {
        TwiceInChain(c, i, j);
      }
    }
  }

  lemma TwiceInChain(c: Chain, i: nat, j: nat)
    requires i < j < |c| && c[i] == c[j]
    ensures multiset(c)[c[i]] >= 2
  {
    assert c == c[..j] + c[j..];
    assert c[..j][i] in multiset(c[..j]) && c[j..][0] in multiset(c[j..]);
  }

  /** The bucket of a key that is present holds it. */
  lemma InBucket(slot: Slots, d: Dict, k: Key)
    requires InRange(slot) && Valid(slot, d) && Search(slot, d, k).Some?
    ensures var t, b := TableOf(slot, d, k), BucketAt(slot, d, k);
      && t <= (if d.Rehashing() then 1 else 0)
      && b < |TableAt(d, t)| && HasIn(TableAt(d, t)[b], k)
  {
  }

  /** A key sits in one chain only. */
  lemma OnlyBucket(slot: Slots, d: Dict, k: Key, t: nat, b: nat)
    requires InRange(slot) && Valid(slot, d) && Search(slot, d, k).Some?
    requires t <= 1 && b < |TableAt(d, t)| && HasIn(TableAt(d, t)[b], k)
    ensures t == TableOf(slot, d, k) && b == BucketAt(slot, d, k)
  {
    var c := TableAt(d, t)[b];
    FindInFinds(c, k);
    var e := Entry(k, FindIn(c, k).value);
    assert slot(k, |TableAt(d, t)|) == b;
    BagMember(TableAt(d, t), e);
    FindAtFinds(slot, d.ht0, k);
    if t == 1 {
      assert e in Entries(d) && Entries(d)[e] == Bag(d.ht0.buckets)[e] + Bag(d.ht1.buckets)[e];
      if FindAt(slot, d.ht0, k).Some? {
        assert false;
      }
    }
  }

  /** Every bucket before the place of the iterator, and no other, is behind it. */
  ghost predicate Before(slot: Slots, d: Dict, it: Iter, k: Key)
    requires InRange(slot) && Search(slot, d, k).Some?
  {
    var t, b := TableOf(slot, d, k), BucketAt(slot, d, k);
    t < it.table || (t == it.table && b < it.index)
  }

  /** What one call has to achieve: afterwards exactly the key it returns is visited in
      addition, and when it returns nothing, everything had been visited. */
  ghost predicate MovesPast(slot: Slots, d: Dict, was: bool, it': Iter, r: Option<Key>, k: Key)
    requires InRange(slot) && Search(slot, d, k).Some?
  {
    && (r.Some? ==> Walking(d, it') && it'.entry == r && it'.index >= 0)
    && (r == Some(k) ==> !was)
    && (r.Some? ==> (Visited(slot, d, it', k) <==> was || r == Some(k)))
    && (r.None? ==> was)
  }

  lemma ReturnVisits(slot: Slots, d: Dict, it: Iter, n: Key, k: Key)
    requires InRange(slot) && Valid(slot, d) && Search(slot, d, k).Some?
    requires d.iterators > 0 && it.table <= (if d.Rehashing() then 1 else 0)
    requires 0 <= it.index < |TableAt(d, it.table)| && HasIn(Here(d, it), n)
    ensures var (it', r) := Return(d, it, n);
      MovesPast(slot, d, Visited(slot, d, it.(next := Some(n)), k), it', r, k)
  {
    hide FindAt, FindIn, InRange, BucketAt, TableOf, Search, Valid, HasIn, InTail, After, DistinctKeys, Walking;
    var c := Here(d, it);
    WalkingChain(slot, d, it.table, it.index);
    ReturnWalks(slot, d, it, n);
    TailAfter(c, n, k);
    InBucket(slot, d, k);
    if k == n {
      OnlyBucket(slot, d, n, it.table, it.index);
      TailAtItself(c, n);
    }
  }

  lemma ReturnWalks(slot: Slots, d: Dict, it: Iter, n: Key)
    requires InRange(slot) && Valid(slot, d)
    requires d.iterators > 0 && it.table <= (if d.Rehashing() then 1 else 0)
    requires 0 <= it.index < |TableAt(d, it.table)| && HasIn(Here(d, it), n)
    ensures var (it', r) := Return(d, it, n); Walking(d, it')
  {
    hide InRange, Valid, HasIn, InTail, After, DistinctKeys;
    ValidTables(slot, d);
    WalkingChain(slot, d, it.table, it.index);
    TailAfter(Here(d, it), n, n);
  }

  lemma {:induction false} TailAtItself(c: Chain, n: Key)
    requires HasIn(c, n)
    ensures InTail(c, Some(n), n)
  {
    if c[0].key != n {
      TailAtItself(c[1..], n);
    }
  }

  lemma {:induction false} WalkVisits(slot: Slots, d: Dict, it: Iter, k: Key)
    requires InRange(slot) && Valid(slot, d) && Walking(d, it) && Search(slot, d, k).Some?
    ensures var (it', r) := Walk(d, it); MovesPast(slot, d, Visited(slot, d, it, k), it', r, k)
    decreases BucketsLeft(d, it), it.entry.Some?
  {
    hide FindAt, FindIn, InRange, BucketAt, TableOf, MovesPast, Valid, HasIn;
    InBucket(slot, d, k);
    if it.entry.Some? {
      if it.next.Some? {
        WalkingInside(slot, d, it);
        ReturnVisits(slot, d, it, it.next.value, k);
      } else {
        WalkVisits(slot, d, it.(entry := None), k);
      }
    } else {
      var it1 := it.(index := it.index + 1);
      if it1.index < |TableAt(d, it.table)| {
        EnterVisits(slot, d, it1, k);
      } else if d.Rehashing() && it.table == 0 {
        EnterVisits(slot, d, it.(table := 1, index := 0), k);
      } else {
        NothingLeft(slot, d, it, k);
      }
    }
  }

  lemma WalkingInside(slot: Slots, d: Dict, it: Iter)
    requires Walking(d, it) && it.next.Some?
    ensures 0 <= it.index
  {
  }

  lemma NothingLeft(slot: Slots, d: Dict, it: Iter, k: Key)
    requires InRange(slot) && Valid(slot, d) && Walking(d, it) && Search(slot, d, k).Some? && it.entry.None?
    requires it.index + 1 >= |TableAt(d, it.table)| && !(d.Rehashing() && it.table == 0)
    ensures MovesPast(slot, d, Visited(slot, d, it, k), it.(index := it.index + 1), None, k)
  {
    hide FindAt, FindIn, InRange, BucketAt, TableOf, Valid, HasIn;
    InBucket(slot, d, k);
  }

  /** Entering the next bucket, all before it being visited. */
  lemma {:induction false} EnterVisits(slot: Slots, d: Dict, it: Iter, k: Key)
    requires InRange(slot) && Valid(slot, d) && Search(slot, d, k).Some?
    requires d.iterators > 0 && it.table <= (if d.Rehashing() then 1 else 0)
    requires 0 <= it.index < |TableAt(d, it.table)| && it.entry.None? && it.next.None?
    requires d.Rehashing() ==> d.ht1.buckets != []
    ensures var (it', r) := Enter(d, it); MovesPast(slot, d, Before(slot, d, it, k), it', r, k)
    decreases BucketsLeft(d, it), true
  {
    hide FindAt, InRange, BucketAt, TableOf, MovesPast, Valid;
    InBucket(slot, d, k);
    var c := Here(d, it);
    TailFromHead(c, k);
    if c == [] {
      WalkVisits(slot, d, it, k);
    } else {
      ReturnVisits(slot, d, it, c[0].key, k);
      if HasIn(c, k) {
        OnlyBucket(slot, d, k, it.table, it.index);
      }
    }
  }

  // ------------------------------------------------ changes while walking

  /** A chain before and after a change, as seen by an iterator that goes on at `n` and by
      the key `k`. */
  ghost predicate Alike(c: Chain, c': Chain, n: Option<Key>, k: Key) {
    && HasIn(c', k) == HasIn(c, k)
    && InTail(c', n, k) == InTail(c, n, k)
    && (n.Some? && HasIn(c, n.value) ==> HasIn(c', n.value))
  }

  ghost predicate AlikeAll(b: seq<Chain>, b': seq<Chain>, n: Option<Key>, k: Key) {
    |b'| == |b| && forall i | 0 <= i < |b| :: Alike(b[i], b'[i], n, k)
  }

  /** A change that leaves the walk and the key `k` where they are. */
  ghost predicate Quiet(d: Dict, d': Dict, n: Option<Key>, k: Key) {
    && d'.iterators == d.iterators
    && AlikeAll(d.ht0.buckets, d'.ht0.buckets, n, k)
    && (d.Rehashing() ==> d'.Rehashing() && AlikeAll(d.ht1.buckets, d'.ht1.buckets, n, k))
    && (d'.Rehashing() ==> d'.ht1.buckets != [])
  }

  lemma QuietKeepsPlace(slot: Slots, d: Dict, d': Dict, it: Iter, k: Key)
    requires InRange(slot) && Walking(d, it) && it.index >= 0 && Quiet(d, d', it.next, k)
    requires Search(slot, d, k).Some? && Search(slot, d', k).Some?
    ensures Walking(d', it)
    ensures Visited(slot, d', it, k) <==> Visited(slot, d, it, k)
  {
    hide FindIn, InTail;
    assert d.ht0.buckets != [] ==> HasIn(d.ht0.buckets[slot(k, |d.ht0.buckets|)], k) == FindAt(slot, d.ht0, k).Some?;
    assert Alike(Here(d, it), Here(d', it), it.next, k);
    assert TableOf(slot, d', k) == TableOf(slot, d, k);
  }

  lemma AlikePush(c: Chain, e: Entry, n: Option<Key>, k: Key)
    requires e.key != k && n != Some(e.key)
    ensures Alike(c, [e] + c, n, k)
  {
    assert ([e] + c)[1..] == c;
  }

  lemma {:induction false} AlikeRemove(c: Chain, x: Key, n: Option<Key>, k: Key)
    requires x != k && n != Some(x)
    ensures Alike(c, RemoveIn(c, x), n, k)
  {
    if c != [] && c[0].key != x {
      AlikeRemove(c[1..], x, n, k);
      assert RemoveIn(c, x)[1..] == RemoveIn(c[1..], x);
    }
  }

  lemma {:induction false} AlikeSet(c: Chain, x: Key, v: Value, n: Option<Key>, k: Key)
    ensures Alike(c, SetIn(c, x, v), n, k)
  {
    if c != [] {
      AlikeSet(c[1..], x, v, n, k);
      if c[0].key == x {
        assert SetIn(c, x, v)[1..] == c[1..];
      } else {
        assert SetIn(c, x, v)[1..] == SetIn(c[1..], x, v);
      }
    }
  }

  lemma QuietTransitive(d: Dict, e: Dict, f: Dict, n: Option<Key>, k: Key)
    requires Quiet(d, e, n, k) && Quiet(e, f, n, k)
    ensures Quiet(d, f, n, k)
  {
    hide FindIn, InTail;
  }

  lemma QuietSame(d: Dict, n: Option<Key>, k: Key)
    requires d.Rehashing() ==> d.ht1.buckets != []
    ensures Quiet(d, d, n, k)
  {
    hide FindIn, InTail;
  }

  /** Changing one chain quietly is quiet. */
  lemma QuietBucket(d: Dict, d': Dict, t: nat, h: nat, c: Chain, n: Option<Key>, k: Key)
    requires t <= 1 && h < |TableAt(d, t)| && (t == 1 ==> d.Rehashing())
    requires Alike(TableAt(d, t)[h], c, n, k)
    requires d.Rehashing() ==> d.ht1.buckets != []
    requires d'.iterators == d.iterators && d'.rehashidx == d.rehashidx
    requires TableAt(d', t) == TableAt(d, t)[h := c] && TableAt(d', 1 - t) == TableAt(d, 1 - t)
    ensures Quiet(d, d', n, k)
  {
    hide FindIn, InTail;
  }

  /** The entry to come is found in its table. */
  lemma ToComeFound(slot: Slots, d: Dict, it: Iter)
    requires InRange(slot) && Valid(slot, d) && Walking(d, it) && it.next.Some?
    ensures Search(slot, d, it.next.value).Some?
  {
    var k := it.next.value;
    var c := Here(d, it);
    FindInFinds(c, k);
    assert slot(k, |TableAt(d, it.table)|) == it.index;
  }

  lemma IteratorsStopMigration(slot: Slots, d: Dict)
    requires InRange(slot) && Valid(slot, d) && d.iterators > 0
    ensures Step(slot, d) == d
  {
  }

  lemma QuietExpand(slot: Slots, d: Dict, canResize: bool, n: Option<Key>, k: Key)
    requires Valid(slot, d) && d.ht0.buckets != []
    ensures Quiet(d, ExpandIfNeeded(d, canResize).0, n, k)
  {
    hide FindIn, InTail, IsSize, Bag, UniqueKeys, Placed;
    NextPowerIsSize(d.ht0.used * 2 % WORDS);
    NotEmptySize(d.ht0.used * 2 % WORDS);
  }

  lemma NotEmptySize(size: nat)
    ensures NextPower(size) > 0
  {
    NextPowerIsSize(size);
  }

  lemma QuietAdd(slot: Slots, d: Dict, it: Iter, x: Key, v: Value, canResize: bool, k: Key)
    requires InRange(slot) && Valid(slot, d) && Walking(d, it) && it.index >= 0
    requires Search(slot, d, k).Some?
    ensures Quiet(d, AddRaw(slot, d, x, v, canResize).0, it.next, k)
  {
    hide FindIn, InTail, Alike, Valid, FindAt, InRange, ExpandIfNeeded, Quiet;
    IteratorsStopMigration(slot, d);
    SearchCorrect(slot, d, k);
    LiveTable(slot, d, it);
    var (d', ok) := ExpandIfNeeded(d, canResize);
    QuietExpand(slot, d, canResize, it.next, k);
    ExpandIfNeededKeeps(slot, d, canResize);
    ValidTables(slot, d');
    SearchCorrect(slot, d', k);
    SearchCorrect(slot, d', x);
    if it.next.Some? {
      ToComeFound(slot, d, it);
      SearchCorrect(slot, d, it.next.value);
      SearchCorrect(slot, d', it.next.value);
    }
    if ok && Search(slot, d', x).None? {
      QuietInsert(slot, d', Entry(x, v), it.next, k);
      QuietTransitive(d, d', AddRaw(slot, d, x, v, canResize).0, it.next, k);
    }
  }

  lemma LiveTable(slot: Slots, d: Dict, it: Iter)
    requires Valid(slot, d) && Walking(d, it) && it.index >= 0
    ensures d.ht0.buckets != []
  {
  }

  lemma QuietInsert(slot: Slots, d: Dict, e: Entry, n: Option<Key>, k: Key)
    requires InRange(slot) && d.ht0.buckets != [] && (d.Rehashing() ==> d.ht1.buckets != [])
    requires e.key != k && n != Some(e.key)
    ensures var d' :=
        if d.Rehashing() then d.(ht1 := InsertAt(slot, d.ht1, e)) else d.(ht0 := InsertAt(slot, d.ht0, e));
      Quiet(d, d', n, k)
  {
    hide Alike, Quiet, FindIn, InTail;
    var t := if d.Rehashing() then 1 else 0;
    var h := slot(e.key, |TableAt(d, t)|);
    var c := TableAt(d, t)[h];
    AlikePush(c, e, n, k);
    QuietBucket(d, if d.Rehashing() then d.(ht1 := InsertAt(slot, d.ht1, e)) else d.(ht0 := InsertAt(slot, d.ht0, e)),
                t, h, [e] + c, n, k);
  }

  lemma QuietReplace(slot: Slots, d: Dict, it: Iter, x: Key, v: Value, canResize: bool, k: Key)
    requires InRange(slot) && Valid(slot, d) && Walking(d, it) && it.index >= 0
    requires Search(slot, d, k).Some?
    ensures Quiet(d, Replace(slot, d, x, v, canResize).0, it.next, k)
  {
    hide FindIn, InTail, Alike, Valid, InRange, Quiet, AddRaw, SetIn, SetAt;
    var (d', r) := AddRaw(slot, d, x, v, canResize);
    QuietAdd(slot, d, it, x, v, canResize, k);
    if r.Present? {
      PresentFound(slot, d, x, v, canResize);
      QuietSet(slot, d', x, v, it.next, k);
      QuietTransitive(d, d', Replace(slot, d, x, v, canResize).0, it.next, k);
    }
  }

  lemma PresentFound(slot: Slots, d: Dict, x: Key, v: Value, canResize: bool)
    requires InRange(slot) && Valid(slot, d) && AddRaw(slot, d, x, v, canResize).1.Present?
    ensures var d' := AddRaw(slot, d, x, v, canResize).0;
      Search(slot, d', x).Some? && (d'.Rehashing() ==> d'.ht1.buckets != [])
  {
    hide FindAt, InRange, Bag, UniqueKeys, Placed, IsSize, TableOk;
    StepKeeps(slot, d);
    ExpandIfNeededKeeps(slot, Step(slot, d), canResize);
  }

  lemma QuietSet(slot: Slots, d: Dict, x: Key, v: Value, n: Option<Key>, k: Key)
    requires InRange(slot) && Search(slot, d, x).Some? && (d.Rehashing() ==> d.ht1.buckets != [])
    ensures Quiet(d, if FindAt(slot, d.ht0, x).Some? then d.(ht0 := SetAt(slot, d.ht0, x, v))
                     else d.(ht1 := SetAt(slot, d.ht1, x, v)), n, k)
  {
    hide Alike, Quiet, FindIn, InTail, SetIn;
    var t := if FindAt(slot, d.ht0, x).Some? then 0 else 1;
    var h := slot(x, |TableAt(d, t)|);
    var c := TableAt(d, t)[h];
    AlikeSet(c, x, v, n, k);
    QuietBucket(d, if t == 0 then d.(ht0 := SetAt(slot, d.ht0, x, v)) else d.(ht1 := SetAt(slot, d.ht1, x, v)),
                t, h, SetIn(c, x, v), n, k);
  }

  lemma QuietDelete(slot: Slots, d: Dict, it: Iter, x: Key, k: Key)
    requires InRange(slot) && Valid(slot, d) && Walking(d, it) && it.next != Some(x) && x != k
    ensures Quiet(d, Delete(slot, d, x).0, it.next, k)
  {
    hide Alike, Quiet, FindIn, InTail, RemoveIn, Valid;
    IteratorsStopMigration(slot, d);
    ValidTables(slot, d);
    QuietSame(d, it.next, k);
    FindAtFinds(slot, d.ht0, x);
    FindAtFinds(slot, d.ht1, x);
    var d' := Delete(slot, d, x).0;
    if d' != d {
      var t := if FindAt(slot, d.ht0, x).Some? then 0 else 1;
      var h := slot(x, |TableAt(d, t)|);
      var c := TableAt(d, t)[h];
      AlikeRemove(c, x, it.next, k);
      QuietBucket(d, d', t, h, RemoveIn(c, x), it.next, k);
    }
  }

  // ------------------------------------------------------------------- runs

  /** What may happen while a safe iterator is live. */
  datatype Event =
    | Fetch
    | Lookup(key: Key)
    | Insert(key: Key, val: Value)
    | Overwrite(key: Key, val: Value)
    | RemoveReturned

  datatype State = State(d: Dict, it: Iter, canResize: bool)

  /** One event; the result is the key returned, if the event is a call of dictNext. */
  function Do(slot: Slots, s: State, e: Event): (State, Option<Key>)
    requires InRange(slot) && Valid(slot, s.d) && s.it.index >= -1 && s.it.table <= 1
  {
    match e
    case Fetch =>
      var (d, it, k) := Next(s.d, s.it);
      (s.(d := d, it := it), k)
    case Lookup(k) => (s.(d := Find(slot, s.d, k).0), None)
    case Insert(k, v) => (s.(d := AddRaw(slot, s.d, k, v, s.canResize).0), None)
    case Overwrite(k, v) => (s.(d := Replace(slot, s.d, k, v, s.canResize).0), None)
    case RemoveReturned =>
      (if s.it.entry.Some? then s.(d := Delete(slot, s.d, s.it.entry.value).0) else s, None)
  }

  /** The state while the walk is under way. */
  ghost predicate UnderWay(slot: Slots, s: State) {
    && Valid(slot, s.d) && Walking(s.d, s.it)
    && s.it.index >= 0 && s.it.entry.Some?
  }

  /** Between two calls of dictNext nothing that stays is passed over or revisited. */
  lemma EventIsQuiet(slot: Slots, s: State, e: Event, k: Key)
    requires InRange(slot) && UnderWay(slot, s) && !e.Fetch? && |Entries(s.d)| < WORDS
    requires k in Contents(s.d) && k in Contents(Do(slot, s, e).0.d)
    ensures var s' := Do(slot, s, e).0;
      && UnderWay(slot, s') && s'.it == s.it && |Entries(s'.d)| <= |Entries(s.d)| + 1
      && Search(slot, s.d, k).Some? && Search(slot, s'.d, k).Some?
      && (Visited(slot, s'.d, s'.it, k) <==> Visited(slot, s.d, s.it, k))
  {
    hide Valid, Contents, Quiet, Walking, Visited, AddRaw, Replace, Delete, InRange, FindAt;
    var d := s.d;
    SearchCorrect(slot, d, k);
    WalkingFacts(d, s.it);
    match e {
      case Lookup(x) =>
        FindCorrect(slot, d, x);
        IteratorsStopMigration(slot, d);
        QuietSame(d, s.it.next, k);
      case Insert(x, v) =>
        AddRawCorrect(slot, d, x, v, s.canResize);
        QuietAdd(slot, d, s.it, x, v, s.canResize, k);
      case Overwrite(x, v) =>
        ReplaceCorrect(slot, d, x, v, s.canResize);
        QuietReplace(slot, d, s.it, x, v, s.canResize, k);
      case RemoveReturned =>
        DeleteCorrect(slot, d, s.it.entry.value);
        QuietDelete(slot, d, s.it, s.it.entry.value, k);
    }
    var d' := Do(slot, s, e).0.d;
    SearchCorrect(slot, d', k);
    QuietKeepsPlace(slot, d, d', s.it, k);
  }

  lemma WalkingFacts(d: Dict, it: Iter)
    requires Walking(d, it)
    ensures d.iterators > 0 && it.table <= 1 && (d.Rehashing() ==> d.ht1.buckets != [])
    ensures it.next.Some? ==> it.next != it.entry
  {
  }

  lemma FetchMovesPast(slot: Slots, s: State, k: Key)
    requires InRange(slot) && Valid(slot, s.d) && s.it.index >= -1 && s.it.table <= 1 && k in Contents(s.d)
    requires s.it == FRESH || UnderWay(slot, s)
    ensures Valid(slot, Do(slot, s, Fetch).0.d) && Entries(Do(slot, s, Fetch).0.d) == Entries(s.d)
    ensures Search(slot, Do(slot, s, Fetch).0.d, k).Some?
    ensures Search(slot, s.d, k).Some?
    ensures var (s', r) := Do(slot, s, Fetch);
      MovesPast(slot, s'.d, s.it != FRESH && Visited(slot, s.d, s.it, k), s'.it, r, k)
  {
    hide Contents, InRange, FindAt, MovesPast, Bag, UniqueKeys, Placed;
    SearchCorrect(slot, s.d, k);
    var d' := if s.it == FRESH then s.d.(iterators := s.d.iterators + 1) else s.d;
    assert Valid(slot, d');
    WalkVisits(slot, d', s.it, k);
    if s.it == FRESH {
      FreshHasVisitedNothing(slot, d', k);
    }
  }

  lemma FreshHasVisitedNothing(slot: Slots, d: Dict, k: Key)
    requires InRange(slot) && Search(slot, d, k).Some?
    ensures !Visited(slot, d, FRESH, k)
  {
    hide FindAt;
  }

  /** A run of events from `s` on in which `k` is there before and after every event. */
  ghost predicate Stays(slot: Slots, s: State, es: seq<Event>, k: Key)
    requires InRange(slot)
    decreases |es|
  {
    && Valid(slot, s.d) && s.it.index >= -1 && s.it.table <= 1
    && k in Contents(s.d)
    && (es != [] ==> Stays(slot, Do(slot, s, es[0]).0, es[1..], k))
  }

  /** The run ends with the first call of dictNext that returns nothing. */
  ghost predicate Finishes(slot: Slots, s: State, es: seq<Event>)
    requires InRange(slot)
    decreases |es|
  {
    && Valid(slot, s.d) && s.it.index >= -1 && s.it.table <= 1 && es != []
    && (if |es| == 1 then es[0].Fetch? && Do(slot, s, es[0]).1.None?
        else
          && (es[0].Fetch? ==> Do(slot, s, es[0]).1.Some?)
          && Finishes(slot, Do(slot, s, es[0]).0, es[1..]))
  }

  /** The keys returned by the calls of dictNext, in order. */
  ghost function Returned(slot: Slots, s: State, es: seq<Event>): seq<Key>
    requires InRange(slot) && Finishes(slot, s, es)
    decreases |es|
  {
    if |es| == 1 then []
    else
      var (s', r) := Do(slot, s, es[0]);
      (if r.Some? then [r.value] else []) + Returned(slot, s', es[1..])
  }

  lemma {:induction false} IterationFrom(slot: Slots, s: State, es: seq<Event>, k: Key)
    requires InRange(slot) && Stays(slot, s, es, k) && Finishes(slot, s, es)
    requires |Entries(s.d)| + |es| < WORDS
    requires UnderWay(slot, s) || (s.it == FRESH && es[0].Fetch?)
    ensures Search(slot, s.d, k).Some?
    ensures multiset(Returned(slot, s, es))[k] == if s.it != FRESH && Visited(slot, s.d, s.it, k) then 0 else 1
    decreases |es|
  {
    hide Valid, Contents, Visited, Walking, InRange, Do, Entries, FindAt;
    var (s', r) := Do(slot, s, es[0]);
    if es[0].Fetch? {
      FetchMovesPast(slot, s, k);
      if |es| > 1 {
        IterationFrom(slot, s', es[1..], k);
      }
    } else {
      EventIsQuiet(slot, s, es[0], k);
      OnlyFetchReturns(slot, s, es[0]);
      IterationFrom(slot, s', es[1..], k);
    }
  }

  lemma OnlyFetchReturns(slot: Slots, s: State, e: Event)
    requires InRange(slot) && Valid(slot, s.d) && s.it.index >= -1 && s.it.table <= 1 && !e.Fetch?
    ensures Do(slot, s, e).1.None?
  {
  }

  /** A safe iterator returns every key that stays in the dictionary exactly once, however
      lookups, insertions, overwrites and removals of the entry returned last are mixed in. */
  lemma SafeIteration(slot: Slots, s: State, es: seq<Event>, k: Key)
    requires InRange(slot) && Stays(slot, s, es, k) && Finishes(slot, s, es)
    requires |Entries(s.d)| + |es| < WORDS
    requires s.it == FRESH && es[0].Fetch?
    ensures multiset(Returned(slot, s, es))[k] == 1
  {
    IterationFrom(slot, s, es, k);
  }
}
