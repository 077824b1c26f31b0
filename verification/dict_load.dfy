/**
 How full the table gets and how long a migration takes.  A migration moves on by at
 least one bucket per call, so it is over before the doubled table is full.
 */
module DictLoad {
  import opened Bags
  import opened DictSpec
  import opened DictRefinement

  /** The number of entries, and of buckets in the table that takes new ones. */
  function Size(d: Dict): nat {
    d.ht0.used + d.ht1.used
  }

  function Newest(d: Dict): nat {
    if d.Rehashing() then |d.ht1.buckets| else |d.ht0.buckets|
  }

  // ------------------------------------------------------ progress and its end

  /** One call with n >= 1 ends the migration or moves it on by a bucket. */
  lemma {:induction false} RehashLoopAdvances(slot: Slots, d: Dict, n: nat, visits: nat)
    requires InRange(slot) && Sound(slot, d) && d.Rehashing()
    requires n > 0 ==> visits > 0
    ensures var (d', more) := RehashLoop(slot, d, n, visits);
      && d'.iterators == d.iterators
      && Size(d') == Size(d)
      && (more ==>
        && |d'.ht0.buckets| == |d.ht0.buckets| && |d'.ht1.buckets| == |d.ht1.buckets|
        && d'.rehashidx >= d.rehashidx + (if n > 0 then 1 else 0))
      && (!more ==> d'.ht0.buckets != [] && |d'.ht0.buckets| == |d.ht1.buckets|)
    decreases n
  {
    hide IsSize, UniqueKeys, Bag, Entries, Placed;
    if d.ht0.used != 0 && n > 0 {
      UsedMeansAhead(slot, d);
      var (idx, left, gaveUp) := Skip(d.ht0.buckets, d.rehashidx, visits);
      if !gaveUp {
        MoveBucketKeeps(slot, d, idx);
        RehashLoopAdvances(slot, MoveBucket(slot, d, idx), n - 1, left);
      }
    }
  }

  lemma RehashAdvances(slot: Slots, d: Dict, n: nat)
    requires InRange(slot) && Valid(slot, d) && d.Rehashing()
    ensures var (d', more) := Rehash(slot, d, n);
      && d'.iterators == d.iterators
      && Size(d') == Size(d)
      && more == d'.Rehashing()
      && (more ==>
        && |d'.ht0.buckets| == |d.ht0.buckets| && |d'.ht1.buckets| == |d.ht1.buckets|
        && d.rehashidx + (if n > 0 then 1 else 0) <= d'.rehashidx < |d'.ht0.buckets|)
      && (!more ==> |d'.ht0.buckets| == |d.ht1.buckets|)
  {
    hide IsSize, UniqueKeys, Bag, Entries, Placed, RehashLoop;
    RehashLoopAdvances(slot, d, n, n * 10);
    RehashKeeps(slot, d, n);
  }

  /** Several calls of dictRehash in a row. */
  function RehashAll(slot: Slots, d: Dict, ns: seq<nat>): Dict
    requires InRange(slot) && Valid(slot, d)
    decreases |ns|
  {
    if ns == [] then d
    else
      RehashKeeps(slot, d, ns[0]);
      RehashAll(slot, Rehash(slot, d, ns[0]).0, ns[1..])
  }

  /** As many calls as there are old buckets left always complete the migration. */
  lemma {:induction false} RehashTerminates(slot: Slots, d: Dict, ns: seq<nat>)
    requires InRange(slot) && Valid(slot, d)
    requires forall n | n in ns :: n > 0
    requires d.Rehashing() ==> |ns| >= |d.ht0.buckets| - d.rehashidx
    ensures !RehashAll(slot, d, ns).Rehashing()
    decreases |ns|
  {
    hide Rehash, Valid, InRange;
    if ns != [] {
      assert ns[0] in ns && forall n | n in ns[1..] :: n in ns;
      RehashKeeps(slot, d, ns[0]);
      if d.Rehashing() {
        RehashAdvances(slot, d, ns[0]);
      }
      StaysDone(slot, d, ns[0]);
      RehashTerminates(slot, Rehash(slot, d, ns[0]).0, ns[1..]);
    } else {
      NotRehashingEmpty(slot, d);
    }
  }

  lemma StaysDone(slot: Slots, d: Dict, n: nat)
    requires InRange(slot) && Valid(slot, d)
    ensures !d.Rehashing() ==> Rehash(slot, d, n) == (d, false)
  {
  }

  // ---------------------------------------------------------------- load bound

  /** Entries fit the table; during a migration the room used is paid for by the buckets
      already moved. */
  predicate Roomy(d: Dict) {
    if d.Rehashing() then
      && Size(d) <= |d.ht0.buckets| + 1 + d.rehashidx
      && 2 * |d.ht0.buckets| <= |d.ht1.buckets|
    else
      Size(d) <= |d.ht0.buckets|
  }

  lemma RoomyBound(slot: Slots, d: Dict)
    requires Valid(slot, d) && Roomy(d)
    ensures Size(d) <= Newest(d)
  {
  }

  lemma RehashKeepsRoom(slot: Slots, d: Dict, n: nat)
    requires InRange(slot) && Valid(slot, d) && Roomy(d)
    ensures Roomy(Rehash(slot, d, n).0)
  {
    if d.Rehashing() {
      RehashAdvances(slot, d, n);
      RehashKeeps(slot, d, n);
      NotRehashingEmpty(slot, Rehash(slot, d, n).0);
    }
  }

  lemma NotRehashingEmpty(slot: Slots, d: Dict)
    requires Valid(slot, d)
    ensures !d.Rehashing() ==> d.ht1.used == 0
    ensures d.Rehashing() ==> 0 <= d.rehashidx < |d.ht0.buckets|
  {
  }

  /** The call before an insertion leaves one free place more than the bound asks for. */
  lemma StepMakesRoom(slot: Slots, d: Dict)
    requires InRange(slot) && Valid(slot, d) && Roomy(d) && d.iterators == 0
    ensures var d' := Step(slot, d);
      && Roomy(d') && d'.iterators == 0 && Size(d') == Size(d)
      && (d'.Rehashing() ==> Size(d') + 1 <= |d'.ht0.buckets| + 1 + d'.rehashidx)
  {
    if d.Rehashing() {
      RehashAdvances(slot, d, 1);
      RehashKeepsRoom(slot, d, 1);
    }
  }

  lemma ExpandMakesRoom(slot: Slots, d: Dict)
    requires Valid(slot, d) && Roomy(d)
    requires d.Rehashing() ==> Size(d) + 1 <= |d.ht0.buckets| + 1 + d.rehashidx
    ensures var (d', ok) := ExpandIfNeeded(d, true);
      && Roomy(d') && d'.iterators == d.iterators && Size(d') == Size(d)
      && (ok ==> Roomy(d'.(ht1 := Table(d'.ht1.buckets, d'.ht1.used + 1))) || !d'.Rehashing())
      && (ok ==> Roomy(d'.(ht0 := Table(d'.ht0.buckets, d'.ht0.used + 1))) || d'.Rehashing())
  {
    NextPowerIsSize(INITIAL_SIZE);
    NextPowerIsSize(d.ht0.used * 2 % WORDS);
    NotRehashingEmpty(slot, d);
    LargestIsSize();
    if d.ht0.buckets != [] && |d.ht0.buckets| <= LONG_MAX {
      DoublingGap(|d.ht0.buckets|, LONG_MAX + 1);
    }
  }

  lemma AddKeepsRoom(slot: Slots, d: Dict, k: Key, v: Value)
    requires InRange(slot) && Valid(slot, d) && Roomy(d) && d.iterators == 0
    ensures var (d', r) := AddRaw(slot, d, k, v, true); Roomy(d') && d'.iterators == 0
  {
    hide Valid, Search, Expand, InRange;
    StepKeeps(slot, d);
    StepMakesRoom(slot, d);
    ExpandMakesRoom(slot, Step(slot, d));
  }

  lemma DeleteKeepsRoom(slot: Slots, d: Dict, k: Key)
    requires InRange(slot) && Valid(slot, d) && Roomy(d) && d.iterators == 0
    ensures var (d', r) := Delete(slot, d, k); Roomy(d') && d'.iterators == 0
  {
    hide Valid, FindAt, InRange, RemoveIn;
    StepKeeps(slot, d);
    StepMakesRoom(slot, d);
    ValidTables(slot, Step(slot, d));
    FindAtFinds(slot, Step(slot, d).ht0, k);
    FindAtFinds(slot, Step(slot, d).ht1, k);
  }

  /** Growth through dictAdd and dictReplace only, no live iterator, resizing enabled. */
  predicate Ordinary(op: Op) {
    op.Add? || op.Put? || op.Get? || op.Remove? || op.Migrate?
  }

  lemma ApplyKeepsRoom(slot: Slots, m: Machine, op: Op)
    requires InRange(slot) && Valid(slot, m.d) && Ordinary(op)
    requires Roomy(m.d) && m.canResize && m.d.iterators == 0
    ensures var m' := Apply(slot, m, op).0; Roomy(m'.d) && m'.canResize && m'.d.iterators == 0
  {
    hide Valid, InRange, Search, FindAt, SetIn, ExpandIfNeeded, Roomy;
    match op
    case Add(k, v) => AddKeepsRoom(slot, m.d, k, v);
    case Put(k, v) =>
      AddKeepsRoom(slot, m.d, k, v);
      ReplaceKeepsRoom(slot, m.d, k, v);
    case Get(k) => StepMakesRoom(slot, m.d);
    case Remove(k) => DeleteKeepsRoom(slot, m.d, k);
    case Migrate(n) =>
      RehashKeepsRoom(slot, m.d, n);
      if m.d.Rehashing() { RehashAdvances(slot, m.d, n); }
  }

  lemma ReplaceKeepsRoom(slot: Slots, d: Dict, k: Key, v: Value)
    requires InRange(slot) && Valid(slot, d)
    requires var (d', r) := AddRaw(slot, d, k, v, true); Roomy(d') && d'.iterators == 0
    ensures var (d', r) := Replace(slot, d, k, v, true); Roomy(d') && d'.iterators == 0
  {
    hide Valid, InRange, AddRaw, FindAt, SetIn;
  }

  /** In every state of every such run the entries fit the newest table. */
  lemma {:induction false} LoadBound(slot: Slots, m: Machine, ops: seq<Op>)
    requires InRange(slot) && Valid(slot, m.d) && StaysSmall(slot, m, ops)
    requires Roomy(m.d) && m.canResize && m.d.iterators == 0
    requires forall op | op in ops :: Ordinary(op)
    ensures var d := Run(slot, m, ops).0.d; Roomy(d) && Size(d) <= Newest(d)
    decreases |ops|
  {
    hide Valid, InRange, Apply, Roomy, Entries, Ordinary;
    if ops == [] {
      RoomyBound(slot, m.d);
    } else {
      ApplyRefines(slot, m, ops[0]);
      ApplyKeepsRoom(slot, m, ops[0]);
      LoadBound(slot, Apply(slot, m, ops[0]).0, ops[1..]);
    }
  }

  lemma LoadBoundFromEmpty(slot: Slots, ops: seq<Op>)
    requires InRange(slot) && Valid(slot, EMPTY) && StaysSmall(slot, Machine(EMPTY, true), ops)
    requires forall op | op in ops :: Ordinary(op)
    ensures var d := Run(slot, Machine(EMPTY, true), ops).0.d; Size(d) <= Newest(d)
  {
    LoadBound(slot, Machine(EMPTY, true), ops);
  }
}
