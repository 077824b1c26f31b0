/**
 The two tables behave as one finite map: every operation keeps the invariant of the
 dictionary and does to its contents what it would do to a plain map.
 */
module DictRefinement {
  import opened Options
  import opened Bags
  import opened DictSpec

  // ------------------------------------------------------- single operations

  /** The used counts are exact. */
  lemma ValidFacts(slot: Slots, d: Dict)
    requires Valid(slot, d)
    ensures UniqueKeys(Entries(d))
    ensures d.ht0.used + d.ht1.used == |Entries(d)|
    ensures d.ht0.used + d.ht1.used == 0 ==> Contents(d) == map[]
  {
    if d.ht0.used + d.ht1.used == 0 {
      assert Entries(d) == multiset{};
    }
  }

  /** Finding is looking the key up in the map, and changes nothing. */
  lemma FindCorrect(slot: Slots, d: Dict, k: Key)
    requires InRange(slot) && Valid(slot, d)
    ensures var (d', r) := Find(slot, d, k);
      && Valid(slot, d') && Contents(d') == Contents(d) && Entries(d') == Entries(d)
      && r == if k in Contents(d) then Some(Contents(d)[k]) else None
  {
    hide UniqueKeys, MapOf, Step, Search, InRange, Valid, Bag;
    ValidFacts(slot, d);
    StepKeeps(slot, d);
    SearchCorrect(slot, Step(slot, d), k);
  }

  /** What a call refuses: growth is due, and doubling the entries wraps around. */
  predicate Full(d: Dict, canResize: bool) {
    !d.Rehashing() && GrowthDue(d, canResize) && d.ht0.used > LONG_MAX
  }

  lemma ExpandRefusesFull(slot: Slots, d: Dict, canResize: bool)
    requires Valid(slot, d) && d.ht0.used < WORDS
    ensures ExpandIfNeeded(d, canResize).1 == !Full(d, canResize)
    ensures ExpandIfNeeded(d, canResize).1 && !d.Rehashing() && GrowthDue(d, canResize) ==>
      ExpandIfNeeded(d, canResize).0.Rehashing()
  {
    NextPowerIsSize(d.ht0.used * 2 % WORDS);
    NextPowerIsSize(INITIAL_SIZE);
  }

  lemma InsertEntryKeeps(slot: Slots, d: Dict, e: Entry, d': Dict)
    requires InRange(slot) && Valid(slot, d) && d.ht0.buckets != [] && !HasKey(Entries(d), e.key)
    requires d' == if d.Rehashing() then d.(ht1 := InsertAt(slot, d.ht1, e)) else d.(ht0 := InsertAt(slot, d.ht0, e))
    ensures Valid(slot, d') && Entries(d') == Entries(d) + multiset{e}
  {
    hide UniqueKeys, Bag, Placed, HasKey, IsSize;
    InsertAtKeeps(slot, if d.Rehashing() then d.ht1 else d.ht0, e);
    var a, b, n := Bag(d.ht0.buckets), Bag(d.ht1.buckets), multiset{e};
    assert (a + n) + b == (a + b) + n == a + (b + n);
    UniqueInsert(Entries(d), e);
  }

  /** Adding succeeds exactly on absent keys (short of a full table) and then extends the
      map; otherwise the map stays as it is. */
  lemma AddRawCorrect(slot: Slots, d: Dict, k: Key, v: Value, canResize: bool)
    requires InRange(slot) && Valid(slot, d) && |Entries(d)| < WORDS
    ensures var (d', r) := AddRaw(slot, d, k, v, canResize);
      && Valid(slot, d')
      && r == (if Full(Step(slot, d), canResize) then Refused
               else if k in Contents(d) then Present(Contents(d)[k])
               else Added)
      && Contents(d') == (if r.Added? then Contents(d)[k := v] else Contents(d))
      && |Entries(d')| <= |Entries(d)| + 1
  {
    hide UniqueKeys, MapOf, HasKey, Valid, Bag, Step, ExpandIfNeeded, Full, Search, InsertAt, InRange;
    var d1 := Step(slot, d);
    StepKeeps(slot, d);
    ValidFacts(slot, d1);
    ExpandRefusesFull(slot, d1, canResize);
    var (d2, ok) := ExpandIfNeeded(d1, canResize);
    ExpandIfNeededKeeps(slot, d1, canResize);
    ValidFacts(slot, d2);
    if ok {
      SearchCorrect(slot, d2, k);
      if Search(slot, d2, k).None? {
        InsertEntryKeeps(slot, d2, Entry(k, v), AddRaw(slot, d, k, v, canResize).0);
        MapOfInsert(Entries(d2), Entry(k, v));
      }
    }
  }

  lemma SetEntryKeeps(slot: Slots, d: Dict, k: Key, v: Value, d': Dict)
    requires InRange(slot) && Valid(slot, d) && Search(slot, d, k).Some?
    requires d' == if FindAt(slot, d.ht0, k).Some? then d.(ht0 := SetAt(slot, d.ht0, k, v))
                   else d.(ht1 := SetAt(slot, d.ht1, k, v))
    ensures Valid(slot, d') && Contents(d') == Contents(d)[k := v]
    ensures |Entries(d')| == |Entries(d)|
  {
    hide UniqueKeys, MapOf, Bag, FindAt, InRange, Placed, IsSize, Contents;
    var was, now := multiset{Entry(k, Search(slot, d, k).value)}, multiset{Entry(k, v)};
    SetAtKeeps(slot, if FindAt(slot, d.ht0, k).Some? then d.ht0 else d.ht1, k, v);
    FindAtFinds(slot, d.ht0, k);
    FindAtFinds(slot, d.ht1, k);
    var a, b, a', b' := Bag(d.ht0.buckets), Bag(d.ht1.buckets), Bag(d'.ht0.buckets), Bag(d'.ht1.buckets);
    assert (a + b) + now == (a' + b') + was by {
      if FindAt(slot, d.ht0, k).Some? {
        Swap3(a, b, now);
        Swap3(a', b', was);
      } else {
        assert (a + b) + now == a + (b + now);
        assert (a' + b') + was == a + (b' + was);
      }
    }
    SetEntryBag(d, d', Entry(k, Search(slot, d, k).value), Entry(k, v));
    if d.Rehashing() {
      SetAtInOldTable(slot, d, k, v);
    }
  }

  lemma Swap3(a: multiset<Entry>, b: multiset<Entry>, c: multiset<Entry>)
    ensures (a + b) + c == (a + c) + b
    ensures (a + b) + c == a + (b + c)
  {
  }

  lemma SetAtInOldTable(slot: Slots, d: Dict, k: Key, v: Value)
    requires InRange(slot) && Valid(slot, d) && d.Rehashing()
    ensures forall i | 0 <= i < d.rehashidx :: SetAt(slot, d.ht0, k, v).buckets[i] == []
  {
  }

  lemma RemoveAtInOldTable(slot: Slots, d: Dict, k: Key)
    requires InRange(slot) && Valid(slot, d) && d.Rehashing() && d.ht0.used > 0
    ensures forall i | 0 <= i < d.rehashidx :: RemoveAt(slot, d.ht0, k).buckets[i] == []
  {
  }

  lemma SetEntryBag(d: Dict, d': Dict, was: Entry, now: Entry)
    requires UniqueKeys(Entries(d)) && was in Entries(d) && was.key == now.key
    requires Entries(d) + multiset{now} == Entries(d') + multiset{was}
    ensures UniqueKeys(Entries(d'))
    ensures Contents(d') == Contents(d)[now.key := now.val]
    ensures |Entries(d')| == |Entries(d)|
  {
    hide UniqueKeys, MapOf, HasKey, Entries;
    var rest := Exchanged(Entries(d), Entries(d'), was, now);
    UniqueRemove(Entries(d), rest, was);
    MapOfRemove(Entries(d), rest, was);
    MapOfInsert(rest, now);
  }

  lemma Exchanged(m: multiset<Entry>, m': multiset<Entry>, was: Entry, now: Entry) returns (rest: multiset<Entry>)
    requires was in m && m + multiset{now} == m' + multiset{was}
    ensures m == rest + multiset{was} && m' == rest + multiset{now} && |m'| == |m|
  {
    rest := m - multiset{was};
    assert m == rest + multiset{was};
    assert (rest + multiset{now}) + multiset{was} == (rest + multiset{was}) + multiset{now};
    Cancel(m', rest + multiset{now}, multiset{was});
    assert |m + multiset{now}| == |m' + multiset{was}|;
  }

  /** Replacing sets the key, whether or not it was there. */
  lemma ReplaceCorrect(slot: Slots, d: Dict, k: Key, v: Value, canResize: bool)
    requires InRange(slot) && Valid(slot, d) && |Entries(d)| < WORDS
    ensures var (d', r) := Replace(slot, d, k, v, canResize);
      && Valid(slot, d')
      && r == AddRaw(slot, d, k, v, canResize).1
      && Contents(d') == (if r.Refused? then Contents(d) else Contents(d)[k := v])
      && |Entries(d')| <= |Entries(d)| + 1
  {
    hide UniqueKeys, MapOf, HasKey, Valid, Bag, Search, FindAt, SetAt, InRange;
    AddRawCorrect(slot, d, k, v, canResize);
    var (d1, r) := AddRaw(slot, d, k, v, canResize);
    if r.Present? {
      SetEntryKeeps(slot, d1, k, v, Replace(slot, d, k, v, canResize).0);
    }
  }

  /** Deleting removes the key and hands back what it was mapped to. */
  lemma DeleteCorrect(slot: Slots, d: Dict, k: Key)
    requires InRange(slot) && Valid(slot, d)
    ensures var (d', r) := Delete(slot, d, k);
      && Valid(slot, d')
      && r == (if k in Contents(d) then Some(Contents(d)[k]) else None)
      && Contents(d') == Contents(d) - {k}
      && |Entries(d')| <= |Entries(d)|
  {
    hide UniqueKeys, MapOf, HasKey, Valid, Step, FindAt, RemoveAt, InRange, Bag;
    ValidFacts(slot, d);
    if d.ht0.used != 0 || d.ht1.used != 0 {
      var d1 := Step(slot, d);
      StepKeeps(slot, d);
      SearchCorrect(slot, d1, k);
      if Search(slot, d1, k).Some? {
        ValidTables(slot, d1);
        FindAtFinds(slot, d1.ht0, k);
        FindAtFinds(slot, d1.ht1, k);
        RemoveEntryKeeps(slot, d1, k, Delete(slot, d, k).0);
      }
    }
  }

  lemma ValidTables(slot: Slots, d: Dict)
    requires Valid(slot, d)
    ensures TableOk(slot, d.ht0) && TableOk(slot, d.ht1)
    ensures d.Rehashing() ==> d.ht1.buckets != []
  {
  }

  lemma RemoveEntryKeeps(slot: Slots, d: Dict, k: Key, d': Dict)
    requires InRange(slot) && Valid(slot, d) && Search(slot, d, k).Some?
    requires FindAt(slot, d.ht0, k).Some? ==> d.ht0.used > 0 && d' == d.(ht0 := RemoveAt(slot, d.ht0, k))
    requires FindAt(slot, d.ht0, k).None? ==>
      d.ht1.buckets != [] && d.ht1.used > 0 && d' == d.(ht1 := RemoveAt(slot, d.ht1, k))
    ensures Valid(slot, d') && Contents(d') == Contents(d) - {k}
    ensures |Entries(d')| <= |Entries(d)|
  {
    hide UniqueKeys, MapOf, Bag, FindAt, InRange, Placed, IsSize, HasKey;
    RemoveAtKeeps(slot, if FindAt(slot, d.ht0, k).Some? then d.ht0 else d.ht1, k);
    var gone := Entry(k, Search(slot, d, k).value);
    Swap3(Bag(d'.ht0.buckets), Bag(d'.ht1.buckets), multiset{gone});
    MapOfRemove(Entries(d), Entries(d'), gone);
    if d.Rehashing() && FindAt(slot, d.ht0, k).Some? {
      RemoveAtInOldTable(slot, d, k);
    }
  }

  // -------------------------------------------------------------------- runs

  datatype Op =
    | Add(key: Key, val: Value)
    | Put(key: Key, val: Value)
    | Get(key: Key)
    | Remove(key: Key)
    | Grow(size: nat)
    | Shrink
    | Migrate(steps: nat)
    | Pause
    | Resume
    | AllowResize(allow: bool)

  datatype Out = Ack | Did(done: bool) | Got(found: Option<Value>)

  datatype Machine = Machine(d: Dict, canResize: bool)

  function Apply(slot: Slots, m: Machine, op: Op): (Machine, Out)
    requires InRange(slot) && Valid(slot, m.d)
  {
    match op
    case Add(k, v) =>
      var (d, r) := AddRaw(slot, m.d, k, v, m.canResize);
      (m.(d := d), Did(r.Added?))
    case Put(k, v) =>
      var (d, r) := Replace(slot, m.d, k, v, m.canResize);
      (m.(d := d), Did(r.Added?))
    case Get(k) =>
      var (d, r) := Find(slot, m.d, k);
      (m.(d := d), Got(r))
    case Remove(k) =>
      var (d, r) := Delete(slot, m.d, k);
      (m.(d := d), Got(r))
    case Grow(size) => (m.(d := Expand(m.d, size).0), Ack)
    case Shrink => (m.(d := Resize(m.d, m.canResize).0), Ack)
    case Migrate(n) => (m.(d := Rehash(slot, m.d, n).0), Ack)
    case Pause => (m.(d := m.d.(iterators := m.d.iterators + 1)), Ack)
    case Resume => (m.(d := m.d.(iterators := if m.d.iterators == 0 then 0 else m.d.iterators - 1)), Ack)
    case AllowResize(b) => (m.(canResize := b), Ack)
  }

  /** The same operation on a plain map. */
  function OnMap(c: map<Key, Value>, op: Op): (map<Key, Value>, Out) {
    match op
    case Add(k, v) => (if k in c then c else c[k := v], Did(k !in c))
    case Put(k, v) => (c[k := v], Did(k !in c))
    case Get(k) => (c, Got(if k in c then Some(c[k]) else None))
    case Remove(k) => (c - {k}, Got(if k in c then Some(c[k]) else None))
    case _ => (c, Ack)
  }

  /** One operation on the dictionary is that operation on its map. */
  lemma ApplyRefines(slot: Slots, m: Machine, op: Op)
    requires InRange(slot) && Valid(slot, m.d) && |Entries(m.d)| <= LONG_MAX
    ensures var (m', out) := Apply(slot, m, op);
      && Valid(slot, m'.d)
      && |Entries(m'.d)| <= |Entries(m.d)| + 1
      && (Contents(m'.d), out) == OnMap(Contents(m.d), op)
  {
    hide AddRaw, Replace, Find, Delete, Rehash, Expand, Resize, Step, InRange, Valid, Entries, MapOf;
    match op
    case Add(k, v) =>
      AddRawCorrect(slot, m.d, k, v, m.canResize);
      StepKeeps(slot, m.d);
      ValidFacts(slot, Step(slot, m.d));
    case Put(k, v) =>
      AddRawCorrect(slot, m.d, k, v, m.canResize);
      ReplaceCorrect(slot, m.d, k, v, m.canResize);
      StepKeeps(slot, m.d);
      ValidFacts(slot, Step(slot, m.d));
    case Get(k) => FindCorrect(slot, m.d, k);
    case Remove(k) => DeleteCorrect(slot, m.d, k);
    case Grow(size) => ExpandKeeps(slot, m.d, size);
    case Shrink => ResizeKeeps(slot, m.d, m.canResize);
    case Migrate(n) => RehashKeeps(slot, m.d, n);
    case Pause => IteratorsIrrelevant(slot, m.d, m.d.iterators + 1);
    case Resume => IteratorsIrrelevant(slot, m.d, if m.d.iterators == 0 then 0 else m.d.iterators - 1);
    case AllowResize(b) =>
  }

  lemma IteratorsIrrelevant(slot: Slots, d: Dict, n: nat)
    requires Valid(slot, d)
    ensures Valid(slot, d.(iterators := n)) && Entries(d.(iterators := n)) == Entries(d)
  {
    hide TableOk, UniqueKeys;
  }

  /** Every operation of a run finds fewer than 2^63 entries. */
  ghost predicate StaysSmall(slot: Slots, m: Machine, ops: seq<Op>)
    requires InRange(slot) && Valid(slot, m.d)
    decreases |ops|
  {
    hide InRange, Valid, Apply;
    ops != [] ==>
      && |Entries(m.d)| <= LONG_MAX
      && (ApplyRefines(slot, m, ops[0]); StaysSmall(slot, Apply(slot, m, ops[0]).0, ops[1..]))
  }

  /** Every output of the dictionary along a run. */
  function Run(slot: Slots, m: Machine, ops: seq<Op>): (r: (Machine, seq<Out>))
    requires InRange(slot) && Valid(slot, m.d) && StaysSmall(slot, m, ops)
    ensures Valid(slot, r.0.d)
    decreases |ops|
  {
    hide InRange, Valid, Apply;
    if ops == [] then (m, [])
    else
      ApplyRefines(slot, m, ops[0]);
      var (m', out) := Apply(slot, m, ops[0]);
      var (last, outs) := Run(slot, m', ops[1..]);
      (last, [out] + outs)
  }

  function RunOnMap(c: map<Key, Value>, ops: seq<Op>): (map<Key, Value>, seq<Out>)
    decreases |ops|
  {
    if ops == [] then (c, [])
    else
      var (c', out) := OnMap(c, ops[0]);
      var (last, outs) := RunOnMap(c', ops[1..]);
      (last, [out] + outs)
  }

  /** Over any run whose operations find fewer than 2^63 entries the dictionary answers as a
      map does. */
  lemma {:induction false} RunRefines(slot: Slots, m: Machine, ops: seq<Op>)
    requires InRange(slot) && Valid(slot, m.d) && StaysSmall(slot, m, ops)
    ensures var (m', outs) := Run(slot, m, ops);
      (Contents(m'.d), outs) == RunOnMap(Contents(m.d), ops)
    decreases |ops|
  {
    hide Apply, OnMap, Contents, Entries, Valid, InRange;
    if ops != [] {
      ApplyRefines(slot, m, ops[0]);
      RunRefines(slot, Apply(slot, m, ops[0]).0, ops[1..]);
    }
  }

  lemma EmptyIsValid(slot: Slots)
    ensures Valid(slot, EMPTY) && Entries(EMPTY) == multiset{} && Contents(EMPTY) == map[]
  {
    assert Entries(EMPTY) == multiset{};
  }

  lemma RunFromEmpty(slot: Slots, canResize: bool, ops: seq<Op>)
    requires InRange(slot) && Valid(slot, EMPTY) && StaysSmall(slot, Machine(EMPTY, canResize), ops)
    ensures var (m', outs) := Run(slot, Machine(EMPTY, canResize), ops);
      Valid(slot, m'.d) && (Contents(m'.d), outs) == RunOnMap(map[], ops)
  {
    hide Run, StaysSmall, InRange, Contents;
    EmptyIsValid(slot);
    RunRefines(slot, Machine(EMPTY, canResize), ops);
  }

  /** Runs of fewer than 2^63 operations from few entries stay small. */
  lemma {:induction false} ShortRunsSmall(slot: Slots, m: Machine, ops: seq<Op>)
    requires InRange(slot) && Valid(slot, m.d) && |Entries(m.d)| + |ops| <= LONG_MAX + 1
    ensures StaysSmall(slot, m, ops)
    decreases |ops|
  {
    hide Apply, OnMap, Contents, Entries, Valid, InRange;
    if ops != [] {
      ApplyRefines(slot, m, ops[0]);
      ShortRunsSmall(slot, Apply(slot, m, ops[0]).0, ops[1..]);
    }
  }
}
