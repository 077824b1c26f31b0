/** The safe iterator as an object that walks a dictionary object. */
module SafeIterators {
  import opened Options
  import opened DictSpec
  import opened DictIterator
  import opened HashTable
  import ScanWords

  class SafeIterator {
    const d: HashDict
    var table: nat
    var index: int
    var entry: Option<Key>
    var nextEntry: Option<Key>

    ghost function View(): Iter
      reads this
    {
      Iter(table, index, entry, nextEntry)
    }

    constructor (dict: HashDict)
      ensures d == dict && View() == FRESH
    {
      d := dict;
      table, index := 0, -1;
      entry, nextEntry := None, None;
    }

    /** The next entry, by its key; nothing at the end. */
    method Next() returns (r: Option<Key>)
      requires d.Ok() && index >= -1 && table <= 1
      modifies this, d`iterators
      ensures d.Ok() && index >= -1 && table <= 1
      ensures (d.View(), View(), r) == DictIterator.Next(old(d.View()), old(View()))
    {
      hide DictSpec.Valid, InRange, After, HashDict.Slots, Walk, BucketsLeft, TableAt, ScanWords.Mask;
      MigrationHasTarget(d.Slots(), d.View());
      if entry.None? && index == -1 && table == 0 {
        MoreIterators(d.Slots(), d.View());
        d.iterators := d.iterators + 1;
      }
      ghost var goal, dict := Walk(d.View(), View()), d.View();
      while true
        invariant index >= -1 && table <= 1 && d.View() == dict && d.Shape()
        invariant Walk(dict, View()) == goal
        decreases BucketsLeft(dict, View()), entry.Some?
      {
        var done;
        done, r := Turn();
        if done {
          return r;
        }
      }
    }

    /** One turn of the loop: arrive at an entry, at nothing, or at an empty place. */
    method Turn() returns (done: bool, r: Option<Key>)
      requires d.Shape() && index >= -1 && table <= 1
      requires d.View().Rehashing() ==> d.View().ht1.buckets != []
      modifies this
      ensures index >= -1 && table <= 1
      ensures Walk(d.View(), old(View())) == if done then (View(), r) else Walk(d.View(), View())
      ensures !done ==> entry.None?
      ensures !done ==> BucketsLeft(d.View(), View()) <= BucketsLeft(d.View(), old(View()))
      ensures !done && old(entry).None? ==> BucketsLeft(d.View(), View()) < BucketsLeft(d.View(), old(View()))
    {
      hide Walk, Enter, BucketsLeft, TableAt, After, HashDict.View;
      WalkTurn(d.View(), View());
      if entry.None? {
        var more := NextBucket();
        if !more {
          return true, None;
        }
      } else {
        entry := nextEntry;
      }
      if entry.Some? {
        nextEntry := After(Bucket(), entry.value);
        return true, entry;
      }
      return false, None;
    }

    /** The chain under the iterator. */
    function Bucket(): (c: Chain)
      requires table <= 1
      reads this, d, d.table0, d.table1
      ensures c == Here(d.View(), View())
    {
      var t := if table == 0 then d.table0 else d.table1;
      if 0 <= index < t.Length then t[index] else []
    }

    /** Go to the head of the next chain; false when there is none. */
    method NextBucket() returns (more: bool)
      requires index >= -1 && table <= 1 && entry.None?
      requires d.View().Rehashing() ==> d.View().ht1.buckets != []
      modifies this`table, this`index, this`entry
      ensures (View().(entry := None), more) == NextPlace(d.View(), old(View()))
      ensures entry == if more then First(Here(d.View(), View())) else None
    {
      index := index + 1;
      if index >= (if table == 0 then d.table0.Length else d.table1.Length) {
        if d.rehashidx != -1 && table == 0 {
          table := table + 1;
          index := 0;
        } else {
          return false;
        }
      }
      entry := First(Bucket());
      return true;
    }

    static function NextPlace(d: Dict, it: Iter): (Iter, bool)
      requires it.table <= 1
    {
      var it1 := it.(index := it.index + 1);
      if it1.index < |TableAt(d, it.table)| then (it1, true)
      else if d.Rehashing() && it.table == 0 then (it.(table := 1, index := 0), true)
      else (it1, false)
    }

    /** One turn of the loop of dictNext. */
    static lemma WalkTurn(d: Dict, it: Iter)
      requires it.index >= -1 && it.table <= 1 && (d.Rehashing() ==> d.ht1.buckets != [])
      ensures it.entry.Some? && it.next.None? ==>
        Walk(d, it) == Walk(d, it.(entry := None)) && BucketsLeft(d, it.(entry := None)) == BucketsLeft(d, it)
      ensures it.entry.Some? && it.next.Some? ==> Walk(d, it) == Return(d, it, it.next.value)
      ensures it.entry.None? ==>
        var (it1, more) := NextPlace(d, it);
        if !more then Walk(d, it) == (it1, None)
        else
          && BucketsLeft(d, it1) < BucketsLeft(d, it)
          && Walk(d, it) == (if Here(d, it1) == [] then Walk(d, it1) else Return(d, it1, Here(d, it1)[0].key))
    {
      hide After;
    }

    static lemma MigrationHasTarget(slot: Slots, d: Dict)
      requires DictSpec.Valid(slot, d)
      ensures d.Rehashing() ==> d.ht1.buckets != []
    {
    }

    static lemma MoreIterators(slot: Slots, d: Dict)
      requires DictSpec.Valid(slot, d)
      ensures DictSpec.Valid(slot, d.(iterators := d.iterators + 1))
    {
      hide IsSize, UniqueKeys, Placed;
    }
  }
}
