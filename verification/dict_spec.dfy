/**
 The incremental-rehash hash table on values: two tables of chains, one bucket moved per
 step.  A table with no buckets stands for a table that was never allocated.  The bucket
 of a key is an arbitrary function `slot` of the key and the number of buckets.
 */
module DictSpec {
  import opened Options
  import opened Bags

  type Key(==, !new)
  type Value(==, !new)

  datatype Entry = Entry(key: Key, val: Value)
  type Chain = seq<Entry>
  type Slots = (Key, nat) -> nat

  datatype Table = Table(buckets: seq<Chain>, used: nat)

  datatype Dict = Dict(ht0: Table, ht1: Table, rehashidx: int, iterators: nat) {
    predicate Rehashing() {
      rehashidx != -1
    }
  }

  const NO_TABLE := Table([], 0)
  const EMPTY := Dict(NO_TABLE, NO_TABLE, -1, 0)

  const INITIAL_SIZE: nat := 4
  const FORCE_RESIZE_RATIO: nat := 5
  const INT_MAX: nat := 0x7FFF_FFFF
  const LONG_MAX: nat := 0x7FFF_FFFF_FFFF_FFFF
  const WORDS: nat := 0x1_0000_0000_0000_0000

  // ----------------------------------------------------------- abstract view

  /** Every entry of both tables. */
  ghost function Entries(d: Dict): multiset<Entry> {
    Bag(d.ht0.buckets) + Bag(d.ht1.buckets)
  }

  /** No key occurs twice, whatever the values. */
  ghost predicate UniqueKeys(m: multiset<Entry>) {
    && (forall e | e in m :: m[e] == 1)
    && (forall e, f | e in m && f in m && e.key == f.key :: e == f)
  }

  ghost predicate HasKey(m: multiset<Entry>, k: Key) {
    exists e :: e in m && e.key == k
  }

  ghost function ValueOf(m: multiset<Entry>, k: Key): Value
    requires HasKey(m, k)
  {
    var e :| e in m && e.key == k;
    e.val
  }

  ghost function MapOf(m: multiset<Entry>): map<Key, Value> {
    map k | k in (set e | e in m :: e.key) :: ValueOf(m, k)
  }

  /** The finite map that the two tables represent together. */
  ghost function Contents(d: Dict): map<Key, Value> {
    MapOf(Entries(d))
  }

  // -------------------------------------------------------------- invariant

  ghost predicate InRange(slot: Slots) {
    forall k, n: nat | n > 0 :: slot(k, n) < n
  }

  /** Every entry sits in the bucket that its key selects. */
  ghost predicate Placed(slot: Slots, b: seq<Chain>) {
    forall i, e | 0 <= i < |b| && e in b[i] :: slot(e.key, |b|) == i
  }

  /** 4, 8, 16, ... up to 2^63. */
  predicate IsSize(n: nat) {
    n <= LONG_MAX + 1 && IsDoubling(n)
  }

  predicate IsDoubling(n: nat) {
    n == INITIAL_SIZE || (n > INITIAL_SIZE && n % 2 == 0 && IsDoubling(n / 2))
  }

  ghost predicate TableOk(slot: Slots, t: Table) {
    && (t.buckets == [] || IsSize(|t.buckets|))
    && Placed(slot, t.buckets)
    && t.used == |Bag(t.buckets)|
  }

  /** What holds between any two statements that touch the tables. */
  ghost predicate Sound(slot: Slots, d: Dict) {
    && TableOk(slot, d.ht0)
    && TableOk(slot, d.ht1)
    && UniqueKeys(Entries(d))
    && (if d.Rehashing() then
          && 0 <= d.rehashidx <= |d.ht0.buckets|
          && d.ht1.buckets != []
          && (forall i | 0 <= i < d.rehashidx :: d.ht0.buckets[i] == [])
        else
          d.ht1 == NO_TABLE)
  }

  /** The invariant of a dictionary: what holds between any two calls. */
  ghost predicate Valid(slot: Slots, d: Dict) {
    Sound(slot, d) && d.rehashidx < |d.ht0.buckets| + (if d.Rehashing() then 0 else 1)
  }

  // -------------------------------------------------------------- operations

  function NextPowerFrom(i: nat, size: nat): nat
    requires i > 0
    decreases size - i
  {
    if i >= size then i else NextPowerFrom(2 * i, size)
  }

  /** The number of buckets allocated for a request of `size`. */
  function NextPower(size: nat): nat {
    if size >= LONG_MAX then LONG_MAX + 1 else NextPowerFrom(INITIAL_SIZE, size)
  }

  function Buckets(n: nat): seq<Chain> {
    seq(n, _ => [])
  }

  /** Start a table of at least `size` buckets; false when the request is refused. */
  function Expand(d: Dict, size: nat): (Dict, bool) {
    var realsize := NextPower(size);
    if d.Rehashing() || d.ht0.used > size || realsize == |d.ht0.buckets| then
      (d, false)
    else if d.ht0.buckets == [] then
      (d.(ht0 := Table(Buckets(realsize), 0)), true)
    else
      (d.(ht1 := Table(Buckets(realsize), 0), rehashidx := 0), true)
  }

  /** A number kept in a signed 32-bit variable. */
  function ToInt(n: nat): int {
    if n % 0x1_0000_0000 <= INT_MAX then n % 0x1_0000_0000 else n % 0x1_0000_0000 - 0x1_0000_0000
  }

  /** Shrink the table to its entries; their number is kept in an int. */
  function Resize(d: Dict, canResize: bool): (Dict, bool) {
    if !canResize || d.Rehashing() then (d, false)
    else
      var minimal := ToInt(d.ht0.used);
      Expand(d, if minimal < INITIAL_SIZE then INITIAL_SIZE else minimal)
  }

  /** Push the entries of a chain, first to last, onto the chains of `b`. */
  function MoveChain(slot: Slots, c: Chain, b: seq<Chain>): (r: seq<Chain>)
    requires InRange(slot) && b != []
    ensures |r| == |b|
    decreases |c|
  {
    if c == [] then b
    else
      var h := slot(c[0].key, |b|);
      MoveChain(slot, c[1..], b[h := [c[0]] + b[h]])
  }

  /** Advance over empty buckets, giving up after `visits` of them.  The last component
      tells whether the search gave up, the second how many visits are left. */
  function Skip(b: seq<Chain>, idx: nat, visits: nat): (r: (nat, nat, bool))
    requires visits > 0
    requires exists i :: idx <= i < |b| && b[i] != []
    ensures idx <= r.0 <= |b|
    ensures forall i | idx <= i < r.0 :: b[i] == []
    ensures r.2 ==> r.0 == idx + visits
    ensures !r.2 ==> r.0 < |b| && b[r.0] != [] && r.1 > 0
    decreases |b| - idx
  {
    if b[idx] != [] then (idx, visits, false)
    else if visits == 1 then (idx + 1, 0, true)
    else Skip(b, idx + 1, visits - 1)
  }

  /** Move the bucket at `idx` of the old table into the new one. */
  function MoveBucket(slot: Slots, d: Dict, idx: nat): Dict
    requires InRange(slot) && idx < |d.ht0.buckets| && d.ht1.buckets != []
    requires |d.ht0.buckets[idx]| <= d.ht0.used
  {
    var c := d.ht0.buckets[idx];
    d.(ht0 := Table(d.ht0.buckets[idx := []], d.ht0.used - |c|),
       ht1 := Table(MoveChain(slot, c, d.ht1.buckets), d.ht1.used + |c|),
       rehashidx := idx + 1)
  }

  /** Up to `n` bucket moves; true when entries are left in the old table. */
  function RehashLoop(slot: Slots, d: Dict, n: nat, visits: nat): (r: (Dict, bool))
    requires InRange(slot) && Sound(slot, d) && d.Rehashing()
    requires n > 0 ==> visits > 0
    decreases n
  {
    if d.ht0.used == 0 then
      (Dict(d.ht1, NO_TABLE, -1, d.iterators), false)
    else if n == 0 then
      (d, true)
    else
      UsedMeansAhead(slot, d);
      var (idx, left, gaveUp) := Skip(d.ht0.buckets, d.rehashidx, visits);
      if gaveUp then
        (d.(rehashidx := idx), true)
      else
        MoveBucketKeeps(slot, d, idx);
        RehashLoop(slot, MoveBucket(slot, d, idx), n - 1, left)
  }

  /** `n` steps of migration. */
  function Rehash(slot: Slots, d: Dict, n: nat): (Dict, bool)
    requires InRange(slot) && Valid(slot, d)
  {
    if !d.Rehashing() then (d, false) else RehashLoop(slot, d, n, n * 10)
  }

  /** The migration step of ordinary calls: one bucket, none while iterators are live. */
  function Step(slot: Slots, d: Dict): Dict
    requires InRange(slot) && Valid(slot, d)
  {
    if d.Rehashing() && d.iterators == 0 then Rehash(slot, d, 1).0 else d
  }

  /** Double the table when it is full, or create the first one. */
  function ExpandIfNeeded(d: Dict, canResize: bool): (Dict, bool) {
    if d.Rehashing() then (d, true)
    else if d.ht0.buckets == [] then Expand(d, INITIAL_SIZE)
    else if GrowthDue(d, canResize) then Expand(d, d.ht0.used * 2 % WORDS)
    else (d, true)
  }

  predicate GrowthDue(d: Dict, canResize: bool) {
    && d.ht0.buckets != []
    && d.ht0.used >= |d.ht0.buckets|
    && (canResize || d.ht0.used / |d.ht0.buckets| > FORCE_RESIZE_RATIO)
  }

  // Walks along one chain: the first entry with the key is the one that matters.

  function FindIn(c: Chain, k: Key): Option<Value> {
    if c == [] then None
    else if c[0].key == k then Some(c[0].val)
    else FindIn(c[1..], k)
  }

  function RemoveIn(c: Chain, k: Key): Chain {
    if c == [] then []
    else if c[0].key == k then c[1..]
    else [c[0]] + RemoveIn(c[1..], k)
  }

  function SetIn(c: Chain, k: Key, v: Value): Chain {
    if c == [] then []
    else if c[0].key == k then [Entry(k, v)] + c[1..]
    else [c[0]] + SetIn(c[1..], k, v)
  }

  // The same in one table.

  function FindAt(slot: Slots, t: Table, k: Key): Option<Value>
    requires InRange(slot)
  {
    if t.buckets == [] then None else FindIn(t.buckets[slot(k, |t.buckets|)], k)
  }

  function InsertAt(slot: Slots, t: Table, e: Entry): (r: Table)
    requires InRange(slot) && t.buckets != []
    ensures |r.buckets| == |t.buckets|
  {
    var h := slot(e.key, |t.buckets|);
    Table(t.buckets[h := [e] + t.buckets[h]], t.used + 1)
  }

  function RemoveAt(slot: Slots, t: Table, k: Key): (r: Table)
    requires InRange(slot) && t.buckets != [] && t.used > 0
    ensures |r.buckets| == |t.buckets|
  {
    var h := slot(k, |t.buckets|);
    Table(t.buckets[h := RemoveIn(t.buckets[h], k)], t.used - 1)
  }

  function SetAt(slot: Slots, t: Table, k: Key, v: Value): (r: Table)
    requires InRange(slot) && t.buckets != []
    ensures |r.buckets| == |t.buckets|
  {
    var h := slot(k, |t.buckets|);
    t.(buckets := t.buckets[h := SetIn(t.buckets[h], k, v)])
  }

  // The same in a dictionary.

  /** Search the old table, then, during a migration, the new one. */
  function Search(slot: Slots, d: Dict, k: Key): Option<Value>
    requires InRange(slot)
  {
    var r := FindAt(slot, d.ht0, k);
    if r.Some? || !d.Rehashing() then r else FindAt(slot, d.ht1, k)
  }

  function Find(slot: Slots, d: Dict, k: Key): (Dict, Option<Value>)
    requires InRange(slot) && Valid(slot, d)
  {
    if d.ht0.used + d.ht1.used == 0 then (d, None)
    else
      var d' := Step(slot, d);
      (d', Search(slot, d', k))
  }

  datatype AddResult = Added | Present(value: Value) | Refused

  /** Enter `k`, with `v` as its value, unless it is there already. */
  function AddRaw(slot: Slots, d: Dict, k: Key, v: Value, canResize: bool): (Dict, AddResult)
    requires InRange(slot) && Valid(slot, d)
  {
    var (d', ok) := ExpandIfNeeded(Step(slot, d), canResize);
    if !ok then (d', Refused)
    else
      match Search(slot, d', k)
      case Some(found) => (d', Present(found))
      case None =>
        StepKeeps(slot, d);
        ExpandIfNeededKeeps(slot, Step(slot, d), canResize);
        if d'.Rehashing() then (d'.(ht1 := InsertAt(slot, d'.ht1, Entry(k, v))), Added)
        else (d'.(ht0 := InsertAt(slot, d'.ht0, Entry(k, v))), Added)
  }

  /** Add, or give the entry that is there the new value. */
  function Replace(slot: Slots, d: Dict, k: Key, v: Value, canResize: bool): (Dict, AddResult)
    requires InRange(slot) && Valid(slot, d)
  {
    var (d', r) := AddRaw(slot, d, k, v, canResize);
    if r.Present? then
      if FindAt(slot, d'.ht0, k).Some? then (d'.(ht0 := SetAt(slot, d'.ht0, k, v)), r)
      else (d'.(ht1 := SetAt(slot, d'.ht1, k, v)), r)
    else (d', r)
  }

  /** Unlink the entry with the key; the result is its value. */
  function Delete(slot: Slots, d: Dict, k: Key): (Dict, Option<Value>)
    requires InRange(slot) && Valid(slot, d)
  {
    if d.ht0.used == 0 && d.ht1.used == 0 then (d, None)
    else
      var d' := Step(slot, d);
      StepKeeps(slot, d);
      var r := FindAt(slot, d'.ht0, k);
      if r.Some? then
        FindAtFinds(slot, d'.ht0, k);
        (d'.(ht0 := RemoveAt(slot, d'.ht0, k)), r)
      else if d'.Rehashing() && FindAt(slot, d'.ht1, k).Some? then
        FindAtFinds(slot, d'.ht1, k);
        (d'.(ht1 := RemoveAt(slot, d'.ht1, k)), FindAt(slot, d'.ht1, k))
      else (d', None)
  }

  /** The old table holds entries exactly when some bucket from rehashidx on does: the
      assertion inside the migration loop. */
  lemma UsedMeansAhead(slot: Slots, d: Dict)
    requires Sound(slot, d) && d.Rehashing() && d.ht0.used != 0
    ensures exists i :: d.rehashidx <= i < |d.ht0.buckets| && d.ht0.buckets[i] != []
    ensures d.rehashidx < |d.ht0.buckets|
  {
    if forall i | 0 <= i < |d.ht0.buckets| :: d.ht0.buckets[i] == [] {
      BagOfEmpties(d.ht0.buckets);
      assert false;
    }
  }

  // ---------------------------------------------------------- moving a bucket

  lemma {:induction false} MoveChainKeeps(slot: Slots, c: Chain, b: seq<Chain>)
    requires InRange(slot) && b != [] && Placed(slot, b)
    ensures Placed(slot, MoveChain(slot, c, b))
    ensures Bag(MoveChain(slot, c, b)) == Bag(b) + multiset(c)
    decreases |c|
  {
    if c != [] {
      var h := slot(c[0].key, |b|);
      var b' := b[h := [c[0]] + b[h]];
      assert Placed(slot, b');
      MoveChainKeeps(slot, c[1..], b');
      BagUpdate(b, h, [c[0]] + b[h]);
      PushInBag(b, h, c[0]);
      assert c == [c[0]] + c[1..];
      assert multiset(c) == multiset{c[0]} + multiset(c[1..]);
      assert Bag(b) + multiset(c) == (Bag(b) + multiset{c[0]}) + multiset(c[1..]);
    }
  }

  lemma MoveBucketKeeps(slot: Slots, d: Dict, idx: nat)
    requires InRange(slot) && Sound(slot, d) && d.Rehashing()
    requires d.rehashidx <= idx < |d.ht0.buckets|
    requires forall i | d.rehashidx <= i < idx :: d.ht0.buckets[i] == []
    ensures |d.ht0.buckets[idx]| <= d.ht0.used
    ensures Sound(slot, MoveBucket(slot, d, idx)) && MoveBucket(slot, d, idx).Rehashing()
    ensures Entries(MoveBucket(slot, d, idx)) == Entries(d)
  {
    var c := d.ht0.buckets[idx];
    ChainInBag(d.ht0.buckets, idx);
    MoveChainKeeps(slot, c, d.ht1.buckets);
    var d' := MoveBucket(slot, d, idx);
    var rest, chain, target := Bag(d'.ht0.buckets), multiset(c), Bag(d.ht1.buckets);
    assert Bag(d.ht0.buckets) == rest + chain by { BagUpdate(d.ht0.buckets, idx, []); }
    assert |chain| == |c|;
    assert rest + (target + chain) == (rest + chain) + target;
    assert Placed(slot, d'.ht0.buckets);
  }

  /** Migration changes where entries are, never which entries there are; it reports
      whether it is still going on. */
  lemma {:induction false} RehashLoopKeeps(slot: Slots, d: Dict, n: nat, visits: nat)
    requires InRange(slot) && Sound(slot, d) && d.Rehashing()
    requires n > 0 ==> visits > 0
    ensures var (d', more) := RehashLoop(slot, d, n, visits);
      Valid(slot, d') && Entries(d') == Entries(d) && more == d'.Rehashing()
    decreases n
  {
    hide MoveBucket, UniqueKeys, Bag;
    if d.ht0.used == 0 {
      FinishKeeps(slot, d);
    } else {
      UsedMeansAhead(slot, d);
      if n > 0 {
        var (idx, left, gaveUp) := Skip(d.ht0.buckets, d.rehashidx, visits);
        if !gaveUp {
          MoveBucketKeeps(slot, d, idx);
          RehashLoopKeeps(slot, MoveBucket(slot, d, idx), n - 1, left);
        } else {
          GiveUpKeeps(slot, d, idx);
        }
      }
    }
  }

  lemma FinishKeeps(slot: Slots, d: Dict)
    requires Sound(slot, d) && d.Rehashing() && d.ht0.used == 0
    ensures var d' := Dict(d.ht1, NO_TABLE, -1, d.iterators);
      Valid(slot, d') && Entries(d') == Entries(d)
  {
    assert Bag(d.ht0.buckets) == multiset{} == Bag<Entry>([]);
    assert Entries(Dict(d.ht1, NO_TABLE, -1, d.iterators)) == Entries(d);
  }

  lemma GiveUpKeeps(slot: Slots, d: Dict, idx: nat)
    requires Sound(slot, d) && d.Rehashing() && d.ht0.used != 0
    requires d.rehashidx <= idx <= |d.ht0.buckets|
    requires forall i | d.rehashidx <= i < idx :: d.ht0.buckets[i] == []
    ensures Valid(slot, d.(rehashidx := idx))
  {
    assert Sound(slot, d.(rehashidx := idx));
    UsedMeansAhead(slot, d.(rehashidx := idx));
  }

  lemma RehashKeeps(slot: Slots, d: Dict, n: nat)
    requires InRange(slot) && Valid(slot, d)
    ensures var (d', more) := Rehash(slot, d, n);
      Valid(slot, d') && Entries(d') == Entries(d) && more == d'.Rehashing()
  {
    if d.Rehashing() {
      RehashLoopKeeps(slot, d, n, n * 10);
    }
  }

  lemma StepKeeps(slot: Slots, d: Dict)
    requires InRange(slot) && Valid(slot, d)
    ensures Valid(slot, Step(slot, d)) && Entries(Step(slot, d)) == Entries(d)
  {
    RehashKeeps(slot, d, 1);
  }

  // ------------------------------------------------------------ table sizes

  lemma {:induction false} DoublingGap(a: nat, b: nat)
    requires IsDoubling(a) && IsDoubling(b) && a < b
    ensures 2 * a <= b
  {
    if a > INITIAL_SIZE {
      DoublingGap(a / 2, b / 2);
    }
  }

  lemma Times256(n: nat)
    requires IsDoubling(n)
    ensures IsDoubling(256 * n)
  {
    hide IsDoubling;
    Doubles(n);
    Doubles(2 * n);
    Doubles(4 * n);
    Doubles(8 * n);
    Doubles(16 * n);
    Doubles(32 * n);
    Doubles(64 * n);
    Doubles(128 * n);
  }

  lemma Doubles(n: nat)
    requires IsDoubling(n)
    ensures IsDoubling(2 * n)
  {
    assert 2 * n / 2 == n;
  }

  lemma LargestIsSize()
    ensures IsSize(LONG_MAX + 1)
  {
    assert IsDoubling(8);
    assert IsDoubling(16);
    assert IsDoubling(32);
    assert IsDoubling(64);
    assert IsDoubling(128);
    Times256(128);
    Times256(0x8000);
    Times256(0x80_0000);
    Times256(0x8000_0000);
    Times256(0x80_0000_0000);
    Times256(0x8000_0000_0000);
    Times256(0x80_0000_0000_0000);
  }

  lemma {:induction false} NextPowerFromIsSize(i: nat, size: nat)
    requires IsSize(i) && size < LONG_MAX
    ensures IsSize(NextPowerFrom(i, size))
    ensures size <= NextPowerFrom(i, size)
    decreases size - i
  {
    hide IsDoubling;
    if i < size {
      LargestIsSize();
      DoublingGap(i, LONG_MAX + 1);
      Doubles(i);
      NextPowerFromIsSize(2 * i, size);
    }
  }

  /** Tables have a size that is a power of two, and large enough where that is possible. */
  lemma NextPowerIsSize(size: nat)
    ensures IsSize(NextPower(size))
    ensures size <= LONG_MAX ==> size <= NextPower(size)
    ensures size > LONG_MAX ==> NextPower(size) == LONG_MAX + 1
  {
    LargestIsSize();
    if size < LONG_MAX {
      NextPowerFromIsSize(INITIAL_SIZE, size);
    }
  }

  // ------------------------------------------------------------- expansion

  lemma ExpandKeeps(slot: Slots, d: Dict, size: nat)
    requires Valid(slot, d)
    ensures Valid(slot, Expand(d, size).0) && Entries(Expand(d, size).0) == Entries(d)
  {
    hide NextPower, Bag, TableOk, UniqueKeys, Buckets;
    NextPowerIsSize(size);
    NewTable(slot, NextPower(size));
  }

  /** A table without entries. */
  lemma NewTable(slot: Slots, n: nat)
    requires IsSize(n)
    ensures Buckets(n) != [] && TableOk(slot, Table(Buckets(n), 0)) && TableOk(slot, NO_TABLE)
    ensures Bag(Buckets(n)) == multiset{} == Bag<Entry>([])
  {
    BagOfEmpties(Buckets(n));
  }

  lemma ResizeKeeps(slot: Slots, d: Dict, canResize: bool)
    requires Valid(slot, d)
    ensures Valid(slot, Resize(d, canResize).0) && Entries(Resize(d, canResize).0) == Entries(d)
  {
    hide Expand, Valid, Entries;
    var minimal := ToInt(d.ht0.used);
    ExpandKeeps(slot, d, if minimal < INITIAL_SIZE then INITIAL_SIZE else minimal);
  }

  /** A resize is done exactly when it is allowed, no migration is going on, the entries are
      fewer than 2^31 and the table has another size than the one for them. */
  lemma ResizeExact(d: Dict, canResize: bool)
    ensures Resize(d, canResize).1 <==>
      && canResize && !d.Rehashing() && d.ht0.used <= INT_MAX
      && |d.ht0.buckets| != NextPower(if d.ht0.used < INITIAL_SIZE then INITIAL_SIZE else d.ht0.used)
  {
    hide NextPower;
  }

  lemma ExpandIfNeededKeeps(slot: Slots, d: Dict, canResize: bool)
    requires Valid(slot, d)
    ensures var (d', ok) := ExpandIfNeeded(d, canResize);
      Valid(slot, d') && Entries(d') == Entries(d) && (ok ==> d'.ht0.buckets != [])
  {
    hide NextPower, IsSize, Bag, UniqueKeys, Placed;
    ExpandKeeps(slot, d, INITIAL_SIZE);
    ExpandKeeps(slot, d, d.ht0.used * 2 % WORDS);
  }

  // ------------------------------------------------------------ one chain

  lemma {:induction false} FindInFinds(c: Chain, k: Key)
    ensures FindIn(c, k).Some? ==> Entry(k, FindIn(c, k).value) in c
    ensures FindIn(c, k).None? ==> forall e | e in c :: e.key != k
  {
    if c != [] && c[0].key != k {
      FindInFinds(c[1..], k);
    }
  }

  lemma {:induction false} RemoveInRemoves(c: Chain, k: Key)
    requires FindIn(c, k).Some?
    ensures multiset(c) == multiset(RemoveIn(c, k)) + multiset{Entry(k, FindIn(c, k).value)}
  {
    assert c == [c[0]] + c[1..];
    if c[0].key != k {
      RemoveInRemoves(c[1..], k);
    }
  }

  lemma {:induction false} SetInSets(c: Chain, k: Key, v: Value)
    requires FindIn(c, k).Some?
    ensures multiset(c) + multiset{Entry(k, v)} == multiset(SetIn(c, k, v)) + multiset{Entry(k, FindIn(c, k).value)}
  {
    assert c == [c[0]] + c[1..];
    var new_, old_ := multiset{Entry(k, v)}, multiset{Entry(k, FindIn(c, k).value)};
    if c[0].key == k {
      assert c[0] == Entry(k, FindIn(c, k).value);
      assert multiset(SetIn(c, k, v)) == new_ + multiset(c[1..]);
    } else {
      SetInSets(c[1..], k, v);
      var front := multiset{c[0]};
      assert (front + multiset(c[1..])) + new_ == front + (multiset(c[1..]) + new_);
      assert multiset(SetIn(c, k, v)) == front + multiset(SetIn(c[1..], k, v));
    }
  }

  // ------------------------------------------------------------ one table

  /** Looking in the one bucket that the key selects finds what the whole table holds. */
  lemma FindAtFinds(slot: Slots, t: Table, k: Key)
    requires InRange(slot) && TableOk(slot, t)
    ensures FindAt(slot, t, k).Some? ==> Entry(k, FindAt(slot, t, k).value) in Bag(t.buckets) && t.used > 0
    ensures FindAt(slot, t, k).None? ==> !HasKey(Bag(t.buckets), k)
  {
    if t.buckets != [] {
      var h := slot(k, |t.buckets|);
      FindInFinds(t.buckets[h], k);
      ChainInBag(t.buckets, h);
      if FindAt(slot, t, k).Some? {
        assert Entry(k, FindAt(slot, t, k).value) in multiset(t.buckets[h]);
      }
      forall e | e in Bag(t.buckets) && e.key == k ensures e in t.buckets[h] {
        BagMember(t.buckets, e);
      }
    }
  }

  lemma InsertAtKeeps(slot: Slots, t: Table, e: Entry)
    requires InRange(slot) && TableOk(slot, t) && t.buckets != []
    ensures TableOk(slot, InsertAt(slot, t, e))
    ensures Bag(InsertAt(slot, t, e).buckets) == Bag(t.buckets) + multiset{e}
  {
    PushInBag(t.buckets, slot(e.key, |t.buckets|), e);
  }

  lemma RemoveAtKeeps(slot: Slots, t: Table, k: Key)
    requires InRange(slot) && TableOk(slot, t) && FindAt(slot, t, k).Some? && t.used > 0
    ensures TableOk(slot, RemoveAt(slot, t, k))
    ensures Bag(t.buckets) == Bag(RemoveAt(slot, t, k).buckets) + multiset{Entry(k, FindAt(slot, t, k).value)}
  {
    var h := slot(k, |t.buckets|);
    var c := t.buckets[h];
    RemoveInRemoves(c, k);
    BagUpdate(t.buckets, h, RemoveIn(c, k));
    var gone, rest := multiset{Entry(k, FindIn(c, k).value)}, multiset(RemoveIn(c, k));
    var bag' := Bag(RemoveAt(slot, t, k).buckets);
    assert bag' + (rest + gone) == (bag' + gone) + rest;
    Cancel(bag' + gone, Bag(t.buckets), rest);
    forall e | e in RemoveIn(c, k) ensures e in c {
      assert e in multiset(RemoveIn(c, k));
      assert e in multiset(c);
    }
  }

  lemma Exchange(bag: multiset<Entry>, bag': multiset<Entry>, c: multiset<Entry>, c': multiset<Entry>,
                 was: multiset<Entry>, now: multiset<Entry>)
    requires bag' + c == bag + c' && c + now == c' + was
    ensures bag + now == bag' + was
  {
    assert (bag + now) + c == bag + (c + now);
    assert bag + (c' + was) == (bag + c') + was;
    assert (bag' + c) + was == (bag' + was) + c;
    Cancel(bag + now, bag' + was, c);
  }

  lemma SetAtKeeps(slot: Slots, t: Table, k: Key, v: Value)
    requires InRange(slot) && TableOk(slot, t) && FindAt(slot, t, k).Some?
    ensures TableOk(slot, SetAt(slot, t, k, v))
    ensures Bag(t.buckets) + multiset{Entry(k, v)}
         == Bag(SetAt(slot, t, k, v).buckets) + multiset{Entry(k, FindAt(slot, t, k).value)}
  {
    var h := slot(k, |t.buckets|);
    var c := t.buckets[h];
    var c' := SetIn(c, k, v);
    SetInSets(c, k, v);
    BagUpdate(t.buckets, h, c');
    var old_, new_ := multiset{Entry(k, FindIn(c, k).value)}, multiset{Entry(k, v)};
    var bag, bag' := Bag(t.buckets), Bag(SetAt(slot, t, k, v).buckets);
    Exchange(bag, bag', multiset(c), multiset(c'), old_, new_);
    assert |bag + new_| == |bag' + old_|;
    forall e | e in c' ensures e in c || e == Entry(k, v) {
      assert e in multiset(c') + old_;
    }
  }

  // ----------------------------------------------------- refinement of a map

  lemma UniqueInsert(m: multiset<Entry>, n: Entry)
    requires UniqueKeys(m) && !HasKey(m, n.key)
    ensures UniqueKeys(m + multiset{n})
  {
    var m' := m + multiset{n};
    forall e | e in m' ensures m'[e] == 1 && (e in m || e == n) {
      assert e != n ==> e in m;
    }
  }

  /** A map is the map of a bag when it has exactly the pairs of the bag. */
  ghost predicate SamePairs(m: multiset<Entry>, f: map<Key, Value>) {
    && (forall e | e in m :: e.key in f && f[e.key] == e.val)
    && (forall k | k in f :: Entry(k, f[k]) in m)
  }

  lemma MapOfHas(m: multiset<Entry>)
    requires UniqueKeys(m)
    ensures SamePairs(m, MapOf(m))
  {
    var g := MapOf(m);
    forall k | k in g ensures Entry(k, g[k]) in m {
      var e :| e in m && e.key == k;
      assert e == Entry(k, g[k]);
    }
  }

  lemma SamePairsOnce(m: multiset<Entry>, f: map<Key, Value>, g: map<Key, Value>)
    requires SamePairs(m, f) && SamePairs(m, g)
    ensures f == g
  {
    forall k | k in f ensures k in g && g[k] == f[k] {
      assert Entry(k, f[k]) in m;
    }
    forall k | k in g ensures k in f {
      assert Entry(k, g[k]) in m;
    }
  }

  lemma MapOfIs(m: multiset<Entry>, f: map<Key, Value>)
    requires UniqueKeys(m)
    ensures SamePairs(m, f) <==> MapOf(m) == f
  {
    MapOfHas(m);
    if SamePairs(m, f) {
      SamePairsOnce(m, f, MapOf(m));
    }
  }

  lemma SamePairsInsert(m: multiset<Entry>, n: Entry, f: map<Key, Value>)
    requires SamePairs(m, f) && !HasKey(m, n.key)
    ensures SamePairs(m + multiset{n}, f[n.key := n.val])
  {
    forall e | e in m + multiset{n} ensures e in m || e == n {
    }
  }

  lemma MapOfInsert(m: multiset<Entry>, n: Entry)
    requires UniqueKeys(m) && !HasKey(m, n.key)
    ensures UniqueKeys(m + multiset{n})
    ensures MapOf(m + multiset{n}) == MapOf(m)[n.key := n.val]
  {
    var f := MapOf(m);
    MapOfIs(m, f);
    UniqueInsert(m, n);
    SamePairsInsert(m, n, f);
    MapOfIs(m + multiset{n}, f[n.key := n.val]);
  }

  lemma UniqueRemove(m: multiset<Entry>, m': multiset<Entry>, n: Entry)
    requires UniqueKeys(m) && m == m' + multiset{n}
    ensures UniqueKeys(m') && !HasKey(m', n.key) && n in m
    ensures forall e :: e in m' <==> e in m && e != n
  {
    forall e ensures m[e] == m'[e] + (if e == n then 1 else 0) {
    }
    assert m[n] == 1;
    forall e | e in m' ensures m'[e] == 1 && e.key != n.key {
      assert m[e] == 1;
    }
  }

  lemma MapOfRemove(m: multiset<Entry>, m': multiset<Entry>, n: Entry)
    requires UniqueKeys(m) && m == m' + multiset{n}
    ensures UniqueKeys(m') && !HasKey(m', n.key)
    ensures n.key in MapOf(m) && MapOf(m)[n.key] == n.val
    ensures MapOf(m') == MapOf(m) - {n.key}
  {
    var f := MapOf(m);
    MapOfIs(m, f);
    UniqueRemove(m, m', n);
    assert SamePairs(m', f - {n.key});
    MapOfIs(m', f - {n.key});
  }

  /** Looking a key up is looking it up in the map. */
  lemma SearchCorrect(slot: Slots, d: Dict, k: Key)
    requires InRange(slot) && Valid(slot, d)
    ensures Search(slot, d, k) == if k in Contents(d) then Some(Contents(d)[k]) else None
    ensures Search(slot, d, k).None? ==> !HasKey(Entries(d), k)
  {
    FindAtFinds(slot, d.ht0, k);
    FindAtFinds(slot, d.ht1, k);
    assert Bag<Entry>([]) == multiset{};
  }
}
