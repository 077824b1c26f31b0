/**
 The loops that copy a batch into and out of the slots: four values at a time and then the
 rest, or in two stretches around the end.
 */
module RingCopy {
  import opened RingWords
  import opened RingProtocol

  /** The slots that a batch uses. */
  predicate Used(size: nat, mask: nat, from: nat, n: nat, x: nat) {
    var idx := And(from, mask);
    if idx + n < size then idx <= x < idx + n else x >= idx || x < idx + n - size
  }

  /** The copy of a push: value j of the batch goes to the slot of cursor `from` + j, and
      every other slot stays as it is. */
  method CopyIn(slots: array<Value>, obj: array<Value>, mask: nat, from: nat, n: nat)
    requires slots != obj && 0 < n <= slots.Length && n <= obj.Length && mask == slots.Length - 1
    modifies slots
    ensures forall j | 0 <= j < n :: 0 <= Index(slots.Length, mask, from, n, j) < slots.Length
    ensures forall j | 0 <= j < n :: slots[Index(slots.Length, mask, from, n, j)] == obj[j]
    ensures forall x | 0 <= x < slots.Length && !Used(slots.Length, mask, from, n, x) :: slots[x] == old(slots[x])
  {
    hide And;
    AndBound(from, mask);
    var idx := And(from, mask);
    if idx + n < slots.Length {
      CopyInStraight(slots, obj, idx, n);
    } else {
      CopyInAround(slots, obj, idx, n);
    }
  }

  method CopyInStraight(slots: array<Value>, obj: array<Value>, first: nat, n: nat)
    requires slots != obj && first + n < slots.Length && n <= obj.Length
    modifies slots
    ensures forall j | 0 <= j < n :: slots[first + j] == obj[j]
    ensures forall x | 0 <= x < slots.Length && !(first <= x < first + n) :: slots[x] == old(slots[x])
  {
    var idx, i := first, 0;
    while i < n - n % 4
      invariant i <= n && i % 4 == 0 && idx == first + i
      invariant forall j | 0 <= j < i :: slots[first + j] == obj[j]
      invariant forall x | 0 <= x < slots.Length && !(first <= x < idx) :: slots[x] == old(slots[x])
    {
      slots[idx] := obj[i];
      slots[idx + 1] := obj[i + 1];
      slots[idx + 2] := obj[i + 2];
      slots[idx + 3] := obj[i + 3];
      i, idx := i + 4, idx + 4;
    }
    var rest := n % 4;
    if rest == 3 {
      slots[idx] := obj[i];
      i, idx := i + 1, idx + 1;
    }
    if rest >= 2 {
      slots[idx] := obj[i];
      i, idx := i + 1, idx + 1;
    }
    if rest >= 1 {
      slots[idx] := obj[i];
      i, idx := i + 1, idx + 1;
    }
  }

  method CopyInAround(slots: array<Value>, obj: array<Value>, first: nat, n: nat)
    requires slots != obj && first < slots.Length <= first + n && n <= slots.Length && n <= obj.Length
    modifies slots
    ensures forall j | 0 <= j < slots.Length - first :: slots[first + j] == obj[j]
    ensures forall j | slots.Length - first <= j < n :: slots[first + j - slots.Length] == obj[j]
    ensures forall x | first + n - slots.Length <= x < first :: slots[x] == old(slots[x])
  {
    var size, idx, i := slots.Length, first, 0;
    while idx < size
      invariant idx == first + i <= size
      invariant forall j | 0 <= j < i :: slots[first + j] == obj[j]
      invariant forall x | 0 <= x < first :: slots[x] == old(slots[x])
    {
      slots[idx] := obj[i];
      i, idx := i + 1, idx + 1;
    }
    idx := 0;
    while i < n
      invariant i <= n && idx == first + i - size <= first
      invariant forall j | 0 <= j < size - first :: slots[first + j] == obj[j]
      invariant forall j | size - first <= j < i :: slots[first + j - size] == obj[j]
      invariant forall x | idx <= x < first :: slots[x] == old(slots[x])
    {
      slots[idx] := obj[i];
      i, idx := i + 1, idx + 1;
    }
  }

  /** The copy of a pop: value j comes from the slot of cursor `from` + j, and the rest of
      the caller's array stays as it is. */
  method CopyOut(slots: array<Value>, obj: array<Value>, mask: nat, from: nat, n: nat)
    requires slots != obj && 0 < n <= slots.Length && n <= obj.Length && mask == slots.Length - 1
    modifies obj
    ensures forall j | 0 <= j < n :: 0 <= Index(slots.Length, mask, from, n, j) < slots.Length
    ensures forall j | 0 <= j < n :: obj[j] == slots[Index(slots.Length, mask, from, n, j)]
    ensures forall j | n <= j < obj.Length :: obj[j] == old(obj[j])
  {
    hide And;
    AndBound(from, mask);
    var idx := And(from, mask);
    if idx + n < slots.Length {
      CopyOutStraight(slots, obj, idx, n);
    } else {
      CopyOutAround(slots, obj, idx, n);
    }
  }

  method CopyOutStraight(slots: array<Value>, obj: array<Value>, first: nat, n: nat)
    requires slots != obj && first + n < slots.Length && n <= obj.Length
    modifies obj
    ensures forall j | 0 <= j < n :: obj[j] == slots[first + j]
    ensures forall j | n <= j < obj.Length :: obj[j] == old(obj[j])
  {
    var idx, i := first, 0;
    while i < n - n % 4
      invariant i <= n && i % 4 == 0 && idx == first + i
      invariant forall j | 0 <= j < i :: obj[j] == slots[first + j]
      invariant forall j | i <= j < obj.Length :: obj[j] == old(obj[j])
    {
      obj[i] := slots[idx];
      obj[i + 1] := slots[idx + 1];
      obj[i + 2] := slots[idx + 2];
      obj[i + 3] := slots[idx + 3];
      i, idx := i + 4, idx + 4;
    }
    var rest := n % 4;
    if rest == 3 {
      obj[i] := slots[idx];
      i, idx := i + 1, idx + 1;
    }
    if rest >= 2 {
      obj[i] := slots[idx];
      i, idx := i + 1, idx + 1;
    }
    if rest >= 1 {
      obj[i] := slots[idx];
      i, idx := i + 1, idx + 1;
    }
  }

  method CopyOutAround(slots: array<Value>, obj: array<Value>, first: nat, n: nat)
    requires slots != obj && first < slots.Length <= first + n && n <= slots.Length && n <= obj.Length
    modifies obj
    ensures forall j | 0 <= j < slots.Length - first :: obj[j] == slots[first + j]
    ensures forall j | slots.Length - first <= j < n :: obj[j] == slots[first + j - slots.Length]
    ensures forall j | n <= j < obj.Length :: obj[j] == old(obj[j])
  {
    var size, idx, i := slots.Length, first, 0;
    while idx < size
      invariant idx == first + i <= size
      invariant forall j | 0 <= j < i :: obj[j] == slots[first + j]
      invariant forall j | i <= j < obj.Length :: obj[j] == old(obj[j])
    {
      obj[i] := slots[idx];
      i, idx := i + 1, idx + 1;
    }
    idx := 0;
    while i < n
      invariant i <= n && idx == first + i - size <= first
      invariant forall j | 0 <= j < size - first :: obj[j] == slots[first + j]
      invariant forall j | size - first <= j < i :: obj[j] == slots[first + j - size]
      invariant forall j | i <= j < obj.Length :: obj[j] == old(obj[j])
    {
      obj[i] := slots[idx];
      i, idx := i + 1, idx + 1;
    }
  }
}
