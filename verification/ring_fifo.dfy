/**
 First in, first out: in every interleaving the pops take exactly the pushed values, in
 the order of their reservation.  This needs a size that the mask is the remainder for.
 */
module RingFifo {
  import opened Reversal
  import opened RingWords
  import opened RingProtocol

  /** Masking a cursor gives its remainder. */
  ghost predicate Modular(size: nat, mask: nat) {
    size > 0 && forall h: nat :: And(h, mask) == h % size
  }

  /** The slot of a cursor holds the value reserved there. */
  predicate Stored(r: Ring, log: seq<Value>, p: nat) {
    p < |log| && 0 < r.size == |r.slots| && r.slots[p % r.size] == log[p]
  }

  ghost predicate Carries(r: Ring, log: seq<Value>, x: Actor) {
    match x
    case PushCopy(obj, head, n, i) =>
      && 0 <= n <= |obj| && head + n <= |log|
      && (forall j :: 0 <= j < n ==> obj[j] == log[head + j])
      && (forall p :: head <= p < head + i ==> Stored(r, log, p))
    case PopCopy(tail, n, got) => tail + |got| <= |log| && got == log[tail..tail + |got|]
    case _ => true
  }

  ghost predicate AllCarry(r: Ring, log: seq<Value>, actors: seq<Actor>) {
    forall a :: 0 <= a < |actors| ==> Carries(r, log, actors[a])
  }

  ghost predicate AllStored(r: Ring, log: seq<Value>) {
    forall p :: r.ts <= p < r.hs ==> Stored(r, log, p)
  }

  /** Committed values are in their slots until a pop has taken them. */
  ghost predicate Faithful(s: System) {
    && Modular(s.ring.size, s.ring.mask)
    && AllStored(s.ring, s.log) && AllCarry(s.ring, s.log, s.actors)
    && s.ring.ts <= |s.log| && s.taken == s.log[..s.ring.ts]
  }

  // -------------------------------------------------------------- slot indices

  /** The code's slot, straight on or around the end, is the cursor's remainder. */
  lemma IndexIsRemainder(r: Ring, from: nat, n: nat, i: nat)
    requires Modular(r.size, r.mask) && i < n <= r.size
    ensures Index(r.size, r.mask, from, n, i) == (from + i) % r.size
  {
    hide And;
    var q, idx := from / r.size, from % r.size;
    assert And(from, r.mask) == idx;
    if idx + i < r.size {
      RemainderIs(from + i, r.size, q, idx + i);
    } else {
      OneTurn(from, r.size, q, idx, i);
    }
  }

  lemma OneTurn(from: nat, size: nat, q: nat, idx: nat, i: nat)
    requires size > 0 && from == size * q + idx && size <= idx + i < 2 * size
    ensures (from + i) % size == idx + i - size
  {
    assert size * (q + 1) == size * q + size;
    RemainderIs(from + i, size, q + 1, idx + i - size);
  }

  /** Cursors that are less than a turn apart have different slots. */
  lemma SlotsDiffer(p: nat, q: nat, size: nat)
    requires size > 0 && p != q && p < q + size && q < p + size
    ensures p % size != q % size
  {
    if p % size == q % size {
      assert p - q == size * (p / size - q / size);
      MultipleBound(size, p / size - q / size);
    }
  }

  // -------------------------------------------------- every step stays faithful

  /** Moves that touch neither slots nor cursors. */
  lemma MoveFaithful(s: System, a: nat, x: Actor)
    requires Faithful(s) && a < |s.actors| && Carries(s.ring, s.log, x)
    ensures Faithful(With(s, a, x))
  {
    hide Carries, Modular, AllStored;
  }

  lemma ReservePushFaithful(s: System, a: nat)
    requires Ordered(s) && Faithful(s) && a < |s.actors| && s.actors[a].PushTry? && s.ring.hf == s.actors[a].head
    ensures Faithful(StepPush(s, a))
  {
    hide Modular, Index, AllApart, Covered;
    KnowsOne(s, a);
    var x, s' := s.actors[a], StepPush(s, a);
    forall p: nat | p < |s.log| && Stored(s.ring, s.log, p) ensures Stored(s'.ring, s'.log, p) {
    }
    assert AllStored(s'.ring, s'.log);
    forall b | 0 <= b < |s'.actors| ensures Carries(s'.ring, s'.log, s'.actors[b]) {
      if b != a {
        assert Carries(s.ring, s.log, s.actors[b]);
        LongerLog(s, s', s.actors[b]);
      }
    }
  }

  lemma LongerLog(s: System, s': System, x: Actor)
    requires Carries(s.ring, s.log, x) && s.log <= s'.log && s'.ring == s.ring.(hf := s'.ring.hf)
    ensures Carries(s'.ring, s'.log, x)
  {
    match x
    case PushCopy(obj, head, n, i) =>
      forall p | head <= p < head + i ensures Stored(s'.ring, s'.log, p) {
        assert Stored(s.ring, s.log, p);
      }
    case PopCopy(tail, n, got) =>
      assert s'.log[tail..tail + |got|] == s.log[tail..tail + |got|];
    case _ =>
  }

  /** Writing the slot of a cursor leaves those of the other cursors in the window alone. */
  lemma WriteLeaves(r: Ring, log: seq<Value>, slots: seq<Value>, q: nat, p: nat)
    requires Stored(r, log, p) && p != q && p < q + r.size && q < p + r.size
    requires |slots| == r.size && slots == r.slots[q % r.size := slots[q % r.size]]
    ensures Stored(r.(slots := slots), log, p)
  {
    SlotsDiffer(p, q, r.size);
  }

  lemma CopyInFaithful(s: System, a: nat)
    requires Ordered(s) && Faithful(s) && a < |s.actors| && s.actors[a].PushCopy? && s.actors[a].i < s.actors[a].n
    ensures Faithful(StepPush(s, a))
  {
    hide Modular, Index, Covered, Stored;
    KnowsOne(s, a);
    BatchFits(s, a);
    StepIndex(s, a);
    var x, r := s.actors[a], s.ring;
    var q, s' := x.head + x.i, StepPush(s, a);
    IndexIsRemainder(r, x.head, x.n, x.i);
    WriteStores(s, a, q);
    assert s'.ring == r.(slots := s'.ring.slots) && Modular(s'.ring.size, s'.ring.mask);
    forall p | r.ts <= p < r.hf && p != q && Stored(r, s.log, p) ensures Stored(s'.ring, s.log, p) {
      WriteLeaves(r, s.log, s'.ring.slots, q, p);
    }
    forall b | 0 <= b < |s'.actors| ensures Carries(s'.ring, s'.log, s'.actors[b]) {
      assert Carries(r, s.log, s.actors[b]) && Knows(r, s.actors[b]);
      if b < a { assert Apart(s.actors[b], x); }
      if a < b { assert Apart(x, s.actors[b]); }
    }
  }

  lemma WriteStores(s: System, a: nat, q: nat)
    requires Ordered(s) && Faithful(s) && a < |s.actors| && s.actors[a].PushCopy? && s.actors[a].i < s.actors[a].n
    requires var x, r := s.actors[a], s.ring;
      q == x.head + x.i && Index(r.size, r.mask, x.head, x.n, x.i) == q % r.size
    ensures Stored(StepPush(s, a).ring, s.log, q)
  {
    hide Index, Covered, AllApart;
    var x := s.actors[a];
    assert Carries(s.ring, s.log, x);
    assert x.obj[x.i] == s.log[x.head + x.i];
    StepIndex(s, a);
  }

  lemma CommitPushFaithful(s: System, a: nat)
    requires Ordered(s) && Faithful(s) && a < |s.actors| && s.actors[a].PushCopy? && s.actors[a].i == s.actors[a].n
    requires s.ring.hs == s.actors[a].head
    ensures Faithful(StepPush(s, a))
  {
    hide Index, Covered, AllApart;
    var x, s' := s.actors[a], StepPush(s, a);
    assert Carries(s.ring, s.log, x);
    forall p | s'.ring.ts <= p < s'.ring.hs ensures Stored(s'.ring, s'.log, p) {
      assert Stored(s.ring, s.log, p);
    }
    SameSlots(s, s', a);
  }

  /** Moving a cursor of the committed part changes nothing that is carried. */
  lemma SameSlots(s: System, s': System, a: nat)
    requires AllCarry(s.ring, s.log, s.actors) && a < |s.actors| && s'.actors == s.actors[a := Idle]
    requires s'.log == s.log && s'.ring.slots == s.ring.slots && s'.ring.size == s.ring.size
    ensures AllCarry(s'.ring, s'.log, s'.actors)
  {
    forall b | 0 <= b < |s'.actors| ensures Carries(s'.ring, s'.log, s'.actors[b]) {
      assert Carries(s.ring, s.log, s.actors[b]);
      forall p | Stored(s.ring, s.log, p) ensures Stored(s'.ring, s'.log, p) {
      }
    }
  }

  lemma ReservePopFaithful(s: System, a: nat)
    requires Ordered(s) && Faithful(s) && a < |s.actors| && s.actors[a].PopTry? && s.ring.tf == s.actors[a].tail
    ensures Faithful(StepPop(s, a))
  {
    hide Index, Covered, AllApart, AllCarry;
    KnowsOne(s, a);
    var x := s.actors[a];
    var y, s' := PopCopy(x.tail, x.n, []), StepPop(s, a);
    assert Modular(s'.ring.size, s'.ring.mask) && AllStored(s'.ring, s'.log) by {
      forall p | s'.ring.ts <= p < s'.ring.hs ensures Stored(s'.ring, s'.log, p) {
        assert Stored(s.ring, s.log, p);
      }
    }
    OneMoreCarries(s, s', a, y);
  }

  lemma OneMoreCarries(s: System, s': System, a: nat, y: Actor)
    requires AllCarry(s.ring, s.log, s.actors) && a < |s.actors| && s'.actors == s.actors[a := y]
    requires s'.log == s.log && s'.ring.slots == s.ring.slots && s'.ring.size == s.ring.size
    requires Carries(s'.ring, s'.log, y)
    ensures AllCarry(s'.ring, s'.log, s'.actors)
  {
    forall b | 0 <= b < |s'.actors| ensures Carries(s'.ring, s'.log, s'.actors[b]) {
      assert b == a || Carries(s.ring, s.log, s.actors[b]);
      forall p | Stored(s.ring, s.log, p) ensures Stored(s'.ring, s'.log, p) {
      }
    }
  }

  /** A value that a pop reads is the one that was reserved at its cursor. */
  lemma CopyOutFaithful(s: System, a: nat)
    requires Ordered(s) && Faithful(s) && a < |s.actors| && s.actors[a].PopCopy? && |s.actors[a].got| < s.actors[a].n
    ensures Faithful(StepPop(s, a))
  {
    hide Modular, Index, Covered, AllApart, AllCarry;
    KnowsOne(s, a);
    BatchFits(s, a);
    StepIndex(s, a);
    var x, r := s.actors[a], s.ring;
    var q := x.tail + |x.got|;
    CarriesOne(s, a);
    IndexIsRemainder(r, x.tail, x.n, |x.got|);
    assert Stored(r, s.log, q);
    assert s.log[x.tail..q] + [s.log[q]] == s.log[x.tail..q + 1];
    MoveFaithful(s, a, PopCopy(x.tail, x.n, x.got + [s.log[q]]));
  }

  lemma CarriesOne(s: System, a: nat)
    requires Faithful(s) && a < |s.actors|
    ensures Carries(s.ring, s.log, s.actors[a])
  {
  }

  lemma CommitPopFaithful(s: System, a: nat)
    requires Ordered(s) && Faithful(s) && a < |s.actors| && s.actors[a].PopCopy? && |s.actors[a].got| == s.actors[a].n
    requires s.ring.ts == s.actors[a].tail
    ensures Faithful(StepPop(s, a))
  {
    hide Index, Covered, AllApart;
    KnowsOne(s, a);
    var x, s' := s.actors[a], StepPop(s, a);
    assert Carries(s.ring, s.log, x);
    forall p | s'.ring.ts <= p < s'.ring.hs ensures Stored(s'.ring, s'.log, p) {
      assert Stored(s.ring, s.log, p);
    }
    SameSlots(s, s', a);
    assert s.log[..x.tail] + s.log[x.tail..x.tail + x.n] == s.log[..x.tail + x.n];
  }

  lemma StepPushFaithful(s: System, a: nat)
    requires Ordered(s) && Faithful(s) && a < |s.actors| && Pushing(s.actors[a])
    ensures Faithful(StepPush(s, a))
  {
    hide Index, Ordered, Faithful;
    var r := s.ring;
    KnowsOne(s, a);
    match s.actors[a]
    case PushStart(obj, max) => MoveFaithful(s, a, PushHead(obj, max, r.hf));
    case PushHead(obj, max, head) =>
      var free := r.capacity + r.ts - head;
      var n := if max > free then free else max;
      MoveFaithful(s, a, if n == 0 then Idle else PushTry(obj, max, head, n));
    case PushTry(obj, max, head, n) =>
      if r.hf != head { MoveFaithful(s, a, PushStart(obj, max)); } else { ReservePushFaithful(s, a); }
    case PushCopy(obj, head, n, i) =>
      if i < n { CopyInFaithful(s, a); } else if r.hs == head { CommitPushFaithful(s, a); }
  }

  lemma StepPopFaithful(s: System, a: nat)
    requires Ordered(s) && Faithful(s) && a < |s.actors| && !Pushing(s.actors[a])
    ensures Faithful(StepPop(s, a))
  {
    hide Index, Ordered, Faithful;
    var r := s.ring;
    KnowsOne(s, a);
    match s.actors[a]
    case PopStart(max) => MoveFaithful(s, a, PopTail(max, r.tf));
    case PopTail(max, tail) =>
      var entries := r.hs - tail;
      var n := if max > entries then entries else max;
      MoveFaithful(s, a, if n == 0 then Idle else PopTry(max, tail, n));
    case PopTry(max, tail, n) =>
      if r.tf != tail { MoveFaithful(s, a, PopStart(max)); } else { ReservePopFaithful(s, a); }
    case PopCopy(tail, n, got) =>
      if |got| < n { CopyOutFaithful(s, a); } else if r.ts == tail { CommitPopFaithful(s, a); }
    case _ =>
  }

  lemma StepFaithful(s: System, a: nat, e: Event)
    requires Ordered(s) && Faithful(s)
    ensures Faithful(Step(s, a, e))
  {
    hide Ordered, Faithful, StepPush, StepPop;
    if a < |s.actors| {
      match e
      case BeginPush(obj, max) =>
        if s.actors[a].Idle? && max <= |obj| { MoveFaithful(s, a, PushStart(obj, max)); }
      case BeginPop(max) =>
        if s.actors[a].Idle? { MoveFaithful(s, a, PopStart(max)); }
      case Go =>
        if Pushing(s.actors[a]) { StepPushFaithful(s, a); } else { StepPopFaithful(s, a); }
    }
  }

  lemma {:induction false} RunFaithful(s: System, schedule: seq<(nat, Event)>)
    requires Ordered(s) && Faithful(s)
    ensures Ordered(Run(s, schedule)) && Faithful(Run(s, schedule))
    decreases |schedule|
  {
    hide Step, Ordered, Faithful;
    if schedule != [] {
      StepKeepsOrder(s, schedule[0].0, schedule[0].1);
      StepFaithful(s, schedule[0].0, schedule[0].1);
      RunFaithful(Step(s, schedule[0].0, schedule[0].1), schedule[1..]);
    }
  }

  // ------------------------------------------------------------ main theorems

  /** An empty ring with any number of idle actors. */
  predicate Fresh(s: System) {
    && s.ring.hf == s.ring.hs == s.ring.tf == s.ring.ts == 0
    && s.log == [] && s.taken == []
    && forall a :: 0 <= a < |s.actors| ==> s.actors[a].Idle?
  }

  /** What include/gp.h documents: the size is a power of two, not below the capacity, and
      the mask is the size less one. */
  ghost predicate Documented(r: Ring) {
    Shaped(r) && exists k :: r.size == Pow2(k)
  }

  lemma FreshOrdered(s: System)
    requires Fresh(s) && Shaped(s.ring)
    ensures Ordered(s)
  {
  }

  lemma DocumentedModular(r: Ring)
    requires Documented(r)
    ensures Modular(r.size, r.mask)
  {
    var k :| r.size == Pow2(k);
    forall h: nat ensures And(h, r.mask) == h % r.size {
      AndIsRemainder(h, k);
    }
  }

  /** What first in, first out means for a state. */
  predicate Fifo(s: System) {
    s.ring.ts <= |s.log| && s.taken == s.log[..s.ring.ts]
  }

  /** In every interleaving of any number of pushes and pops, what pops have taken, in the
      order of their reservations, is what pushes have reserved, in the order of theirs:
      nothing is lost, taken twice, reordered or read before it is written. */
  lemma RingIsFifo(s: System, schedule: seq<(nat, Event)>)
    requires Fresh(s) && Documented(s.ring)
    ensures Ordered(s) && Fifo(Run(s, schedule))
    ensures var r := Run(s, schedule); forall a, x | 0 <= a < |r.actors| && x == r.actors[a] && x.PopCopy? ::
      x.tail + |x.got| <= |r.log| && x.got == r.log[x.tail..x.tail + |x.got|]
  {
    hide Run, Modular;
    FreshOrdered(s);
    DocumentedModular(s.ring);
    assert Faithful(s);
    RunFaithful(s, schedule);
    var r := Run(s, schedule);
    forall a | 0 <= a < |r.actors| ensures Carries(r.ring, r.log, r.actors[a]) {
    }
  }

  /** A push comes back with nothing only if it asked for nothing or found the ring full,
      and a pop only if no committed value was left to reserve. */
  lemma RefusedOnlyWhenFull(s: System, a: nat)
    requires Ordered(s) && a < |s.actors|
    ensures var x := s.actors[a];
      && (x.PushHead? && StepPush(s, a).actors[a].Idle? && x.max > 0 ==> s.ring.hf == s.ring.ts + s.ring.capacity)
      && (x.PopTail? && StepPop(s, a).actors[a].Idle? && x.max > 0 ==> s.ring.tf == s.ring.hs)
  {
    hide Covered, AllApart, Index;
    KnowsOne(s, a);
  }

  /** Whenever some reservation of a push is not committed, there is one that is not held
      up by another; likewise for pops. */
  lemma SomeoneIsNext(s: System)
    requires Ordered(s)
    ensures s.ring.hs < s.ring.hf ==>
      exists a :: 0 <= a < |s.actors| && s.actors[a].PushCopy? && s.actors[a].head == s.ring.hs
    ensures s.ring.ts < s.ring.tf ==>
      exists a :: 0 <= a < |s.actors| && s.actors[a].PopCopy? && s.actors[a].tail == s.ring.ts
  {
    hide AllApart;
    if s.ring.hs < s.ring.hf {
      assert PushCovered(s.actors, s.ring.hs);
      var a :| 0 <= a < |s.actors| && InPush(s.actors[a], s.ring.hs);
      KnowsOne(s, a);
    }
    if s.ring.ts < s.ring.tf {
      assert PopCovered(s.actors, s.ring.ts);
      var a :| 0 <= a < |s.actors| && InPop(s.actors[a], s.ring.ts);
      KnowsOne(s, a);
    }
  }
}
