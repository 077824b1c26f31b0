/** The elements of a list of buckets, with their multiplicities. */
module Bags {

  ghost function Bag<T>(b: seq<seq<T>>): multiset<T> {
    if b == [] then multiset{} else multiset(b[0]) + Bag(b[1..])
  }

  lemma {:induction false} BagMember<T>(b: seq<seq<T>>, e: T)
    ensures e in Bag(b) <==> exists i :: 0 <= i < |b| && e in b[i]
  {
    if b != [] {
      BagMember(b[1..], e);
      if i :| 0 <= i < |b| && e in b[i] {
        if i > 0 {
          assert b[1..][i - 1] == b[i];
        }
      }
    }
  }

  /** Replacing a bucket exchanges its elements in the bag. */
  lemma {:induction false} BagUpdate<T>(b: seq<seq<T>>, i: nat, c: seq<T>)
    requires i < |b|
    ensures Bag(b[i := c]) + multiset(b[i]) == Bag(b) + multiset(c)
  {
    if i == 0 {
      assert b[i := c][1..] == b[1..];
    } else {
      BagUpdate(b[1..], i - 1, c);
      assert b[i := c][1..] == b[1..][i - 1 := c];
      var front, tail, tail' := multiset(b[0]), Bag(b[1..]), Bag(b[1..][i - 1 := c]);
      assert (front + tail') + multiset(b[i]) == front + (tail' + multiset(b[i]));
      assert front + (tail + multiset(c)) == (front + tail) + multiset(c);
    }
  }

  lemma {:induction false} BagOfEmpties<T>(b: seq<seq<T>>)
    requires forall i | 0 <= i < |b| :: b[i] == []
    ensures Bag(b) == multiset{}
  {
    if b != [] {
      BagOfEmpties(b[1..]);
    }
  }

  lemma ChainInBag<T>(b: seq<seq<T>>, i: nat)
    requires i < |b|
    ensures multiset(b[i]) <= Bag(b)
    ensures |b[i]| <= |Bag(b)|
  {
    BagUpdate(b, i, []);
    assert Bag(b) == Bag(b[i := []]) + multiset(b[i]);
    assert |multiset(b[i])| == |b[i]|;
  }

  lemma Cancel<T>(a: multiset<T>, b: multiset<T>, c: multiset<T>)
    requires a + c == b + c
    ensures a == b
  {
    forall e ensures a[e] == b[e] {
      assert (a + c)[e] == (b + c)[e];
    }
  }

  /** Putting an element at the head of a bucket adds it to the bag. */
  lemma PushInBag<T>(b: seq<seq<T>>, i: nat, e: T)
    requires i < |b|
    ensures Bag(b[i := [e] + b[i]]) == Bag(b) + multiset{e}
  {
    BagUpdate(b, i, [e] + b[i]);
    var rest := multiset(b[i]);
    assert multiset([e] + b[i]) == multiset{e} + rest;
    assert Bag(b) + (multiset{e} + rest) == (Bag(b) + multiset{e}) + rest;
    Cancel(Bag(b[i := [e] + b[i]]), Bag(b) + multiset{e}, rest);
  }
}
