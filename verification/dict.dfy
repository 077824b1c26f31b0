/**
 The hash table as the program holds it: two arrays of chains that every call changes in
 place.  Each method is proved to do what the function of the same name in `DictSpec`
 (for the scan: `ScanTheory`) does to the value of the two tables.
 */
module HashTable {
  import opened Options
  import opened Bags
  import opened DictSpec
  import opened DictRefinement
  import opened ScanTheory
  import opened ScanWords
  import opened Bits

  class HashDict {
    const hash: Hash

    // An array of length 0 is a table that was never allocated.
    var table0: array<Chain>
    var used0: nat
    var mask0: bv64
    var table1: array<Chain>
    var used1: nat
    var mask1: bv64
    var rehashidx: int
    var iterators: nat

    ghost function View(): Dict
      reads this, table0, table1
    {
      Dict(Table(table0[..], used0), Table(table1[..], used1), rehashidx, iterators)
    }

    ghost function Slots(): Slots {
      SlotsOf(WORD_CURSOR, hash)
    }

    /** The representation: separate arrays, masks that match their lengths. */
    ghost predicate Shape()
      reads this, table0, table1
    {
      table0 != table1 && mask0 == Mask(table0.Length) && mask1 == Mask(table1.Length)
    }

    ghost predicate Ok()
      reads this, table0, table1
    {
      Shape() && InRange(Slots()) && Valid(Slots(), View())
    }

    /** The arrays after a call are the ones from before or new ones. */
    twostate predicate SameOrFresh()
      reads this
    {
      && (table0 == old(table0) || table0 == old(table1) || fresh(table0))
      && (table1 == old(table0) || table1 == old(table1) || fresh(table1))
    }

    constructor (h: Hash)
      ensures Ok() && View() == EMPTY && hash == h && fresh(table0) && fresh(table1)
    {
      hash := h;
      table0, used0, mask0 := new Chain[0], 0, 0;
      table1, used1, mask1 := new Chain[0], 0, 0;
      rehashidx, iterators := -1, 0;
      new;
      hide SlotsOf, InRange, Valid, Mask;
      Started(hash);
      assert View() == EMPTY;
    }

    static lemma Started(h: Hash)
      ensures InRange(SlotsOf(WORD_CURSOR, h)) && Valid(SlotsOf(WORD_CURSOR, h), EMPTY) && Mask(0) == 0
    {
      hide Place, Index, NextWord, MoreBuckets, BucketOf, Valid, SlotsOf;
      WordCursorLawful();
      SlotsInRange(WORD_CURSOR, h);
      EmptyValid(SlotsOf(WORD_CURSOR, h));
      NoMask();
    }

    static lemma EmptyValid(slot: Slots)
      ensures Valid(slot, EMPTY)
    {
      assert Entries(EMPTY) == multiset{};
    }

    static lemma NoMask()
      ensures Mask(0) == 0
    {
    }

    /** The bucket the methods compute is the bucket of the model. */
    lemma SlotIs(k: Key, n: nat)
      ensures Slots()(k, n) == Index(hash(k), Mask(n))
    {
      hide Index, Mask;
      assert WORD_CURSOR.index(hash(k), n) == BucketOf(hash(k), n);
    }

    // ------------------------------------------------------------- growing

    method Expand(size: nat) returns (ok: bool)
      requires Ok()
      modifies this
      ensures Ok() && SameOrFresh()
      ensures (View(), ok) == DictSpec.Expand(old(View()), size)
    {
      hide Mask, Index, BucketOf, IsSize, InRange, Entries, SlotsOf;
      ghost var d := View();
      ExpandKeeps(Slots(), d, size);
      if rehashidx != -1 || used0 > size {
        return false;
      }
      var realsize := NextPower(size);
      if realsize == table0.Length {
        return false;
      }
      NextPowerIsSize(size);
      var t := new Chain[realsize](_ => []);
      assert t[..] == Buckets(realsize);
      var m := SizeMask(realsize);
      if table0.Length == 0 {
        table0, used0, mask0 := t, 0, m;
      } else {
        table1, used1, mask1 := t, 0, m;
        rehashidx := 0;
      }
      ok := true;
    }

    /** `realsize - 1`, as a word. */
    static method SizeMask(n: nat) returns (m: bv64)
      requires IsSize(n)
      ensures m == Mask(n)
    {
      m := (n - 1) as bv64;
    }

    // ----------------------------------------------------------- migration

    /** Push the chain at `rehashidx` onto the new table, entry by entry. */
    method MoveBucket()
      requires Shape() && InRange(Slots()) && Sound(Slots(), View())
      requires rehashidx != -1 && rehashidx < table0.Length
      modifies this`used0, this`used1, this`rehashidx, table0, table1
      ensures Shape()
      ensures |old(View()).ht0.buckets[old(rehashidx)]| <= old(used0)
      ensures View() == DictSpec.MoveBucket(Slots(), old(View()), old(rehashidx))
    {
      hide Mask, Index, BucketOf, IsSize, Bag, Entries, UniqueKeys;
      MoveBucketKeeps(Slots(), View(), rehashidx);
      ghost var d := View();
      var de := table0[rehashidx];
      ghost var c := de;
      while de != []
        invariant Shape() && |de| <= |c| && table0[..] == d.ht0.buckets && |table1[..]| == |d.ht1.buckets|
        invariant used0 == d.ht0.used - (|c| - |de|) && used1 == d.ht1.used + (|c| - |de|)
        invariant table1.Length > 0 && rehashidx == d.rehashidx
        invariant MoveChain(Slots(), de, table1[..]) == MoveChain(Slots(), c, d.ht1.buckets)
        decreases |de|
      {
        var h := Index(hash(de[0].key), mask1);
        SlotIs(de[0].key, table1.Length);
        ghost var before := table1[..];
        table1[h] := [de[0]] + table1[h];
        assert table1[..] == before[h := [de[0]] + before[h]];
        used0 := used0 - 1;
        used1 := used1 + 1;
        de := de[1..];
      }
      table0[rehashidx] := [];
      assert table0[..] == d.ht0.buckets[rehashidx := []];
      rehashidx := rehashidx + 1;
    }

    /** Advance rehashidx over empty buckets, giving up when the visits run out. */
    method SkipEmpty(visits0: nat) returns (visits: nat, gaveUp: bool)
      requires Shape() && rehashidx >= 0 && visits0 > 0
      requires exists i :: rehashidx <= i < |View().ht0.buckets| && View().ht0.buckets[i] != []
      modifies this`rehashidx
      ensures Shape() && rehashidx >= 0 && View() == old(View()).(rehashidx := rehashidx)
      ensures (rehashidx, visits, gaveUp) == Skip(old(View()).ht0.buckets, old(rehashidx), visits0)
    {
      hide Mask;
      visits := visits0;
      while table0[rehashidx] == []
        invariant Shape() && visits > 0 && 0 <= rehashidx < table0.Length
        invariant View() == old(View()).(rehashidx := rehashidx)
        invariant exists i :: rehashidx <= i < table0.Length && View().ht0.buckets[i] != []
        invariant Skip(View().ht0.buckets, rehashidx, visits) == Skip(old(View()).ht0.buckets, old(rehashidx), visits0)
        decreases table0.Length - rehashidx
      {
        rehashidx := rehashidx + 1;
        visits := visits - 1;
        if visits == 0 {
          return 0, true;
        }
      }
      gaveUp := false;
    }

    method Rehash(n0: nat) returns (more: bool)
      requires Ok()
      modifies this, table0, table1
      ensures Ok() && SameOrFresh() && iterators == old(iterators)
      ensures (View(), more) == DictSpec.Rehash(Slots(), old(View()), n0)
    {
      hide Mask, Index, InRange, Valid, Sound, RehashLoop, DictSpec.Rehash;
      RehashBegins(Slots(), View(), n0);
      var n: nat, emptyVisits: nat := n0, n0 * 10;
      if rehashidx == -1 {
        return false;
      }
      ghost var goal := RehashLoop(Slots(), View(), n0, n0 * 10);
      while n > 0 && used0 != 0
        invariant Shape() && Sound(Slots(), View()) && rehashidx != -1 && iterators == old(iterators)
        invariant table0 == old(table0) && table1 == old(table1)
        invariant n > 0 ==> emptyVisits > 0
        invariant RehashLoop(Slots(), View(), n, emptyVisits) == goal
        decreases n
      {
        var gaveUp;
        emptyVisits, gaveUp := MigrateOne(n, emptyVisits);
        if gaveUp {
          return true;
        }
        n := n - 1;
      }
      more := Conclude(n, emptyVisits);
    }

    /** The loop starts in a sound state, and ends in a valid one. */
    static lemma RehashBegins(slot: Slots, d: Dict, n: nat)
      requires InRange(slot) && Valid(slot, d)
      ensures !d.Rehashing() ==> DictSpec.Rehash(slot, d, n) == (d, false)
      ensures d.Rehashing() ==>
        && Sound(slot, d) && DictSpec.Rehash(slot, d, n) == RehashLoop(slot, d, n, n * 10)
        && Valid(slot, RehashLoop(slot, d, n, n * 10).0)
    {
      hide InRange, Sound, RehashLoop, Entries;
      RehashKeeps(slot, d, n);
    }

    /** After the loop of `Rehash`: entries are left, or the migration is over. */
    method Conclude(ghost n: nat, ghost visits: nat) returns (more: bool)
      requires Shape() && InRange(Slots()) && Sound(Slots(), View()) && rehashidx != -1
      requires (n > 0 ==> visits > 0) && (n == 0 || used0 == 0)
      requires Valid(Slots(), RehashLoop(Slots(), View(), n, visits).0)
      modifies this
      ensures Ok() && iterators == old(iterators)
      ensures (table0 == old(table0) && table1 == old(table1)) || (table0 == old(table1) && fresh(table1))
      ensures (View(), more) == RehashLoop(Slots(), old(View()), n, visits)
    {
      hide Mask, Index, BucketOf, IsSize, Bag, Entries, UniqueKeys, Placed, InRange, Skip;
      more := used0 != 0;
      if !more {
        Finish();
      }
    }

    /** One turn of the loop of `Rehash`: the next non-empty bucket, if it is near enough. */
    method MigrateOne(ghost n: nat, visits0: nat) returns (visits: nat, gaveUp: bool)
      requires Shape() && InRange(Slots()) && Sound(Slots(), View()) && rehashidx != -1
      requires used0 != 0 && n > 0 && visits0 > 0
      modifies this`used0, this`used1, this`rehashidx, table0, table1
      ensures Shape() && Sound(Slots(), View()) && rehashidx != -1
      ensures gaveUp ==>
        RehashLoop(Slots(), old(View()), n, visits0) == (View(), true) && Valid(Slots(), View())
      ensures !gaveUp ==>
        visits > 0 && RehashLoop(Slots(), old(View()), n, visits0) == RehashLoop(Slots(), View(), n - 1, visits)
    {
      hide Mask, Index, BucketOf, IsSize, Bag, Entries, UniqueKeys, Placed, InRange;
      UsedMeansAhead(Slots(), View());
      ghost var d := View();
      visits, gaveUp := SkipEmpty(visits0);
      if gaveUp {
        GiveUpKeeps(Slots(), d, rehashidx);
      } else {
        MoveBucketKeeps(Slots(), d, rehashidx);
        MoveBucketIgnoresIndex(Slots(), d, rehashidx);
        MoveBucket();
      }
    }

    /** The old table is empty: the new one takes its place. */
    method Finish()
      requires Shape() && InRange(Slots()) && Sound(Slots(), View()) && rehashidx != -1 && used0 == 0
      modifies this
      ensures Ok() && iterators == old(iterators)
      ensures table0 == old(table1) && fresh(table1)
      ensures View() == Dict(old(View()).ht1, NO_TABLE, -1, old(iterators))
    {
      hide Mask, Index, BucketOf, IsSize, Bag, Entries, UniqueKeys, Placed, InRange;
      FinishKeeps(Slots(), View());
      ghost var d := View();
      table0, used0, mask0 := table1, used1, mask1;
      table1, used1, mask1 := new Chain[0], 0, 0;
      rehashidx := -1;
      NoMask();
      assert View() == Dict(d.ht1, NO_TABLE, -1, d.iterators);
    }

    static lemma MoveBucketIgnoresIndex(slot: Slots, d: Dict, idx: nat)
      requires InRange(slot) && Sound(slot, d) && d.Rehashing() && d.rehashidx <= idx < |d.ht0.buckets|
      requires forall i | d.rehashidx <= i < idx :: d.ht0.buckets[i] == []
      requires |d.ht0.buckets[idx]| <= d.ht0.used
      ensures Sound(slot, d.(rehashidx := idx))
      ensures DictSpec.MoveBucket(slot, d.(rehashidx := idx), idx) == DictSpec.MoveBucket(slot, d, idx)
    {
      hide Bag, IsSize, UniqueKeys, InRange, Placed;
    }

    method RehashStep()
      requires Ok()
      modifies this, table0, table1
      ensures Ok() && SameOrFresh()
      ensures View() == Step(Slots(), old(View()))
    {
      hide Mask, Index, BucketOf, IsSize, Bag, Entries, UniqueKeys, Placed, InRange, RehashLoop;
      if rehashidx != -1 && iterators == 0 {
        var _ := Rehash(1);
      }
    }

    // ------------------------------------------------------------- lookups

    /** Walk one chain: the place of the first entry with the key, or the length. */
    static method Walk(c: Chain, k: Key) returns (i: nat)
      ensures i <= |c|
      ensures i == |c| ==> FindIn(c, k).None?
      ensures i < |c| ==> c[i].key == k && FindIn(c, k) == Some(c[i].val)
      ensures i < |c| ==> RemoveIn(c, k) == c[..i] + c[i + 1..]
      ensures i < |c| ==> forall v :: SetIn(c, k, v) == c[i := Entry(k, v)]
    {
      i := 0;
      while i < |c| && c[i].key != k
        invariant i <= |c|
        invariant forall j | 0 <= j < i :: c[j].key != k
      {
        i := i + 1;
      }
      WalkFacts(c, k, i);
      if i < |c| {
        forall v ensures SetIn(c, k, v) == c[i := Entry(k, v)] {
          WalkSets(c, k, i, v);
        }
      }
    }

    static lemma {:induction false} WalkFacts(c: Chain, k: Key, i: nat)
      requires i <= |c| && forall j | 0 <= j < i :: c[j].key != k
      requires i < |c| ==> c[i].key == k
      ensures i == |c| ==> FindIn(c, k).None?
      ensures i < |c| ==> FindIn(c, k) == Some(c[i].val)
      ensures i < |c| ==> RemoveIn(c, k) == c[..i] + c[i + 1..]
      decreases |c|
    {
      if i > 0 {
        WalkFacts(c[1..], k, i - 1);
        if i < |c| {
          assert c[..i] + c[i + 1..] == [c[0]] + (c[1..][..i - 1] + c[1..][i..]);
        }
      }
    }

    static lemma {:induction false} WalkSets(c: Chain, k: Key, i: nat, v: Value)
      requires i < |c| && c[i].key == k && forall j | 0 <= j < i :: c[j].key != k
      ensures SetIn(c, k, v) == c[i := Entry(k, v)]
      decreases |c|
    {
      if i > 0 {
        WalkSets(c[1..], k, i - 1, v);
        assert [c[0]] + c[1..][i - 1 := Entry(k, v)] == c[i := Entry(k, v)];
      }
    }

    /** Search one table; the bucket and the place in its chain, if the key is there. */
    method Locate(t: array<Chain>, m: bv64, k: Key) returns (r: Option<Value>, h: nat, i: nat)
      requires InRange(Slots()) && m == Mask(t.Length)
      ensures r == FindAt(Slots(), Table(t[..], 0), k)
      ensures t.Length != 0 ==> h == Slots()(k, t.Length) < t.Length
      ensures r.Some? ==>
        && t.Length != 0 && i < |t[h]|
        && RemoveIn(t[h], k) == t[h][..i] + t[h][i + 1..]
        && forall v :: SetIn(t[h], k, v) == t[h][i := Entry(k, v)]
    {
      hide Mask, Index, BucketOf;
      h, i := 0, 0;
      if t.Length == 0 {
        return None, 0, 0;
      }
      h := Index(hash(k), m);
      SlotIs(k, t.Length);
      i := Walk(t[h], k);
      r := if i < |t[h]| then Some(t[h][i].val) else None;
    }

    method Find(k: Key) returns (r: Option<Value>)
      requires Ok()
      modifies this, table0, table1
      ensures Ok() && SameOrFresh()
      ensures (View(), r) == DictSpec.Find(Slots(), old(View()), k)
    {
      hide Mask, Index, BucketOf, DictSpec.Valid, FindIn, Step, InRange;
      if used0 + used1 == 0 {
        return None;
      }
      RehashStep();
      var h, i;
      r, h, i := Locate(table0, mask0, k);
      if r.Some? || rehashidx == -1 {
        return r;
      }
      r, h, i := Locate(table1, mask1, k);
    }

    // ------------------------------------------------------------- updates

    method ExpandIfNeeded(canResize: bool) returns (ok: bool)
      requires Ok()
      modifies this
      ensures Ok() && SameOrFresh()
      ensures (View(), ok) == DictSpec.ExpandIfNeeded(old(View()), canResize)
    {
      hide Mask, Index, BucketOf, DictSpec.Valid, InRange, DictSpec.Expand;
      if rehashidx != -1 {
        return true;
      }
      if table0.Length == 0 {
        ok := Expand(INITIAL_SIZE);
        return;
      }
      if used0 >= table0.Length && (canResize || used0 / table0.Length > FORCE_RESIZE_RATIO) {
        ok := Expand(used0 * 2 % WORDS);
        return;
      }
      return true;
    }

    method Resize(canResize: bool) returns (ok: bool)
      requires Ok()
      modifies this
      ensures Ok() && SameOrFresh()
      ensures (View(), ok) == DictSpec.Resize(old(View()), canResize)
    {
      hide Mask, Index, BucketOf, DictSpec.Valid, InRange, DictSpec.Expand;
      if !canResize || rehashidx != -1 {
        return false;
      }
      var minimal := ToInt(used0);
      if minimal < INITIAL_SIZE {
        minimal := INITIAL_SIZE;
      }
      ok := Expand(minimal);
    }

    method AddRaw(k: Key, v: Value, canResize: bool) returns (r: AddResult)
      requires Ok()
      modifies this, table0, table1
      ensures Ok() && SameOrFresh()
      ensures (View(), r) == DictSpec.AddRaw(Slots(), old(View()), k, v, canResize)
    {
      hide Mask, Index, BucketOf, DictSpec.Valid, InRange, Search, InsertAt, Step;
      hide DictSpec.ExpandIfNeeded, SlotsOf, Entries;
      StepKeeps(Slots(), View());
      ExpandIfNeededKeeps(Slots(), Step(Slots(), View()), canResize);
      RehashStep();
      var ok, existing, index := KeyIndex(k, canResize);
      if !ok {
        return Refused;
      }
      if existing.Some? {
        return Present(existing.value);
      }
      Insert(k, v, index);
      return Added;
    }

    /** Where a new entry with the key goes, growing the table first if that is due; or the
        value that is there already. */
    method KeyIndex(k: Key, canResize: bool) returns (ok: bool, existing: Option<Value>, index: nat)
      requires Ok()
      modifies this
      ensures Ok() && SameOrFresh()
      ensures (View(), ok) == DictSpec.ExpandIfNeeded(old(View()), canResize)
      ensures ok ==> table0.Length != 0 && existing == Search(Slots(), View(), k)
      ensures ok && existing.None? ==>
        index == Slots()(k, if rehashidx != -1 then table1.Length else table0.Length)
    {
      hide Mask, Index, BucketOf, DictSpec.Valid, InRange, FindIn, DictSpec.ExpandIfNeeded, SlotsOf;
      existing, index := None, 0;
      ExpandIfNeededKeeps(Slots(), View(), canResize);
      ok := ExpandIfNeeded(canResize);
      if ok {
        ValidTables(Slots(), View());
        var i;
        existing, index, i := Locate(table0, mask0, k);
        if existing.None? && rehashidx != -1 {
          existing, index, i := Locate(table1, mask1, k);
        }
      }
    }

    /** Put a new entry at the head of its chain in the table that takes new entries. */
    method Insert(k: Key, v: Value, h: nat)
      requires Ok() && table0.Length != 0 && Search(Slots(), View(), k).None?
      requires h == Slots()(k, if rehashidx != -1 then table1.Length else table0.Length)
      modifies this`used0, this`used1, table0, table1
      ensures Ok()
      ensures View() ==
        if rehashidx != -1 then old(View()).(ht1 := InsertAt(Slots(), old(View()).ht1, Entry(k, v)))
        else old(View()).(ht0 := InsertAt(Slots(), old(View()).ht0, Entry(k, v)))
    {
      hide Mask, Index, BucketOf, DictSpec.Valid, Search;
      ghost var d := View();
      ValidTables(Slots(), d);
      SearchCorrect(Slots(), d, k);
      if rehashidx != -1 {
        table1[h] := [Entry(k, v)] + table1[h];
        used1 := used1 + 1;
        assert View().ht1 == InsertAt(Slots(), d.ht1, Entry(k, v));
      } else {
        table0[h] := [Entry(k, v)] + table0[h];
        used0 := used0 + 1;
        assert View().ht0 == InsertAt(Slots(), d.ht0, Entry(k, v));
      }
      InsertEntryKeeps(Slots(), d, Entry(k, v), View());
    }

    method Replace(k: Key, v: Value, canResize: bool) returns (r: AddResult)
      requires Ok()
      modifies this, table0, table1
      ensures Ok() && SameOrFresh()
      ensures (View(), r) == DictSpec.Replace(Slots(), old(View()), k, v, canResize)
    {
      hide Mask, Index, BucketOf, DictSpec.Valid, InRange, FindIn, Step, DictSpec.ExpandIfNeeded, SetIn;
      PresentIsFound(Slots(), View(), k, v, canResize);
      r := AddRaw(k, v, canResize);
      if r.Present? {
        ghost var d := View();
        var found, h, i := Locate(table0, mask0, k);
        if found.Some? {
          table0[h] := table0[h][i := Entry(k, v)];
          assert View().ht0 == SetAt(Slots(), d.ht0, k, v);
        } else {
          found, h, i := Locate(table1, mask1, k);
          table1[h] := table1[h][i := Entry(k, v)];
          assert View().ht1 == SetAt(Slots(), d.ht1, k, v);
        }
        SetEntryKeeps(Slots(), d, k, v, View());
      }
    }

    static lemma PresentIsFound(slot: Slots, d: Dict, k: Key, v: Value, canResize: bool)
      requires InRange(slot) && DictSpec.Valid(slot, d)
      ensures var (d', r) := DictSpec.AddRaw(slot, d, k, v, canResize);
        r.Present? ==> Search(slot, d', k).Some?
    {
      hide DictSpec.Valid, Search, InRange;
    }

    method Delete(k: Key) returns (r: Option<Value>)
      requires Ok()
      modifies this, table0, table1
      ensures Ok() && SameOrFresh()
      ensures (View(), r) == DictSpec.Delete(Slots(), old(View()), k)
    {
      hide Mask, Index, BucketOf, DictSpec.Valid, InRange, FindIn, Step, RemoveIn, Bag;
      if used0 == 0 && used1 == 0 {
        return None;
      }
      StepKeeps(Slots(), View());
      RehashStep();
      ghost var d := View();
      ValidTables(Slots(), d);
      FindAtFinds(Slots(), d.ht0, k);
      FindAtFinds(Slots(), d.ht1, k);
      var h, i;
      r, h, i := Locate(table0, mask0, k);
      if r.Some? {
        Unlink(k, false, h, i);
        return;
      }
      if rehashidx == -1 {
        return;
      }
      r, h, i := Locate(table1, mask1, k);
      if r.Some? {
        Unlink(k, true, h, i);
      }
    }

    /** Take entry `i` out of chain `h` of the old or the new table. */
    method Unlink(k: Key, second: bool, h: nat, i: nat)
      requires Ok() && Search(Slots(), View(), k).Some?
      requires var t := if second then table1 else table0;
        && (second ==> FindAt(Slots(), View().ht0, k).None?)
        && (!second ==> FindAt(Slots(), View().ht0, k).Some?)
        && t.Length != 0 && h == Slots()(k, t.Length) < t.Length && i < |t[h]|
        && RemoveIn(t[h], k) == t[h][..i] + t[h][i + 1..]
        && (if second then used1 else used0) > 0
      modifies this`used0, this`used1, table0, table1
      ensures Ok()
      ensures View() ==
        if second then old(View()).(ht1 := RemoveAt(Slots(), old(View()).ht1, k))
        else old(View()).(ht0 := RemoveAt(Slots(), old(View()).ht0, k))
    {
      hide Mask, Index, BucketOf, DictSpec.Valid, InRange, FindIn, RemoveIn, Bag;
      ghost var d := View();
      if second {
        table1[h] := table1[h][..i] + table1[h][i + 1..];
        used1 := used1 - 1;
        assert View().ht1 == RemoveAt(Slots(), d.ht1, k);
      } else {
        table0[h] := table0[h][..i] + table0[h][i + 1..];
        used0 := used0 - 1;
        assert View().ht0 == RemoveAt(Slots(), d.ht0, k);
      }
      RemoveEntryKeeps(Slots(), d, k, View());
    }

    // ---------------------------------------------------------------- scan

    /** Set the bits above the mask, reverse, add one, reverse back. */
    static method Advance(v0: bv64, m: bv64) returns (v: bv64)
      ensures v == NextCursor(v0, m)
    {
      hide Rev;
      v := v0 | !m;
      v := ReverseBits(v);
      v := v + 1;
      v := ReverseBits(v);
    }

    /** One call of the scan: what the callback is given, in order, and the next cursor. */
    method Scan(v0: bv64) returns (emitted: Chain, v: bv64)
      requires Ok() && Lawful(WORD_CURSOR)
      ensures (emitted, v) == ScanTheory.Scan(WORD_CURSOR, hash, View(), v0)
    {
      hide Mask, Index, DictSpec.Valid, InRange, Lawful, IsSize, NextCursor, Differ;
      emitted, v := [], v0;
      if used0 + used1 == 0 {
        return [], 0;
      }
      NonEmptySizes(WORD_CURSOR, hash, View());
      if rehashidx == -1 {
        emitted := Bucket(table0, mask0, v);
        v := Advance(v, mask0);
      } else {
        var t0, m0, t1, m1 := table0, mask0, table1, mask1;
        if t0.Length > t1.Length {
          t0, m0, t1, m1 := table1, mask1, table0, mask0;
        }
        emitted := Bucket(t0, m0, v);
        var rest;
        rest, v := ScanExpansions(t0.Length, m0, t1, m1, v);
        emitted := emitted + rest;
      }
    }

    /** The chain under the cursor. */
    static method Bucket(t: array<Chain>, m: bv64, v: bv64) returns (c: Chain)
      requires t.Length > 0 && m == Mask(t.Length) && Lawful(WORD_CURSOR)
      ensures WORD_CURSOR.index(v, t.Length) < t.Length && c == t[WORD_CURSOR.index(v, t.Length)]
    {
      hide Mask, Index, Lawful;
      Indexes(WORD_CURSOR, v, t.Length);
      assert WORD_CURSOR.index(v, t.Length) == BucketOf(v, t.Length);
      c := t[Index(v, m)];
    }

    /** The inner loop: the expansions of the small bucket in the larger table. */
    static method ScanExpansions(ghost n0: nat, m0: bv64, t: array<Chain>, m1: bv64, v0: bv64)
      returns (emitted: Chain, v: bv64)
      requires Lawful(WORD_CURSOR) && IsSize(n0) && IsSize(t.Length) && n0 <= t.Length
      requires m0 == Mask(n0) && m1 == Mask(t.Length)
      ensures (emitted, v) == ScanLarge(WORD_CURSOR, t[..], n0, v0)
    {
      hide Mask, Index, Lawful, IsSize, NextCursor, Differ, Place;
      ghost var w, goal := WORD_CURSOR, ScanLarge(WORD_CURSOR, t[..], n0, v0);
      emitted, v := [], v0;
      Nothing(goal.0);
      SizePositive(t.Length);
      var again := true;
      while again
        invariant again ==> goal == Append(emitted, ScanLarge(w, t[..], n0, v))
        invariant !again ==> goal == (emitted, v)
        decreases again, WORDS - w.pos(v)
      {
        hide ScanLarge, Append, Bits.Differ;
        ScanTurn(t[..], n0, emitted, v);
        InnerStep(w, v, n0, t.Length);
        var c := Bucket(t, m1, v);
        emitted := emitted + c;
        v := Advance(v, m1);
        again := Differ(v, m0, m1);
      }
    }

    static function Append(c: Chain, r: (Chain, bv64)): (Chain, bv64) {
      (c + r.0, r.1)
    }

    static lemma Nothing(c: Chain)
      ensures [] + c == c
    {
    }

    /** One turn of the inner loop. */
    static lemma ScanTurn(b: seq<Chain>, n0: nat, emitted: Chain, v: bv64)
      requires Lawful(WORD_CURSOR) && IsSize(n0) && IsSize(|b|) && n0 <= |b|
      ensures WORD_CURSOR.index(v, |b|) < |b|
      ensures var w := WORD_CURSOR;
        var c, v' := b[w.index(v, |b|)], w.next(v, |b|);
        && v' == NextCursor(v, Mask(|b|))
        && w.more(v', n0, |b|) == Differ(v', Mask(n0), Mask(|b|))
        && Append(emitted, ScanLarge(w, b, n0, v)) ==
           if w.more(v', n0, |b|) then Append(emitted + c, ScanLarge(w, b, n0, v')) else (emitted + c, v')
    {
      hide Mask, Index, Lawful, IsSize, NextCursor, Differ, Place;
      SizePositive(|b|);
      Indexes(WORD_CURSOR, v, |b|);
      InnerStep(WORD_CURSOR, v, n0, |b|);
      var c, v' := b[WORD_CURSOR.index(v, |b|)], WORD_CURSOR.next(v, |b|);
      if WORD_CURSOR.more(v', n0, |b|) {
        var rest := ScanLarge(WORD_CURSOR, b, n0, v').0;
        assert emitted + (c + rest) == emitted + c + rest;
      }
    }

    static lemma SizePositive(n: nat)
      requires IsSize(n)
      ensures n > 0
    {
    }
  }
}
