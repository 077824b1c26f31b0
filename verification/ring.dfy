/**
 The ring buffer as a system of steps.  Any number of actors push and pop; each step of an
 actor is one access to a shared word, and the schedule interleaves the steps in any order.
 Cursors are natural numbers, so none of them wraps around.
 */
module RingProtocol {
  import opened RingWords

  type Value(==, !new)

  /** Where an actor stands; it has made the access that its name says was last. */
  datatype Actor =
    | Idle
    | PushStart(obj: seq<Value>, max: nat)
    | PushHead(obj: seq<Value>, max: nat, head: nat)
    | PushTry(obj: seq<Value>, max: nat, head: nat, n: int)
    | PushCopy(obj: seq<Value>, head: nat, n: int, i: nat)
    | PopStart(max: nat)
    | PopTail(max: nat, tail: nat)
    | PopTry(max: nat, tail: nat, n: int)
    | PopCopy(tail: nat, n: int, got: seq<Value>)

  /** The fields head.first, head.second, tail.first, tail.second and the rest. */
  datatype Ring = Ring(size: nat, mask: nat, capacity: nat, hf: nat, hs: nat, tf: nat, ts: nat, slots: seq<Value>)

  /** `log` holds all values in the order of their reservation by pushes, `taken` those
      that pops have taken, in the order of reservation by pops. */
  datatype System = System(ring: Ring, actors: seq<Actor>, log: seq<Value>, taken: seq<Value>)

  /** The slot of the i-th value of a batch of `n` that starts at cursor `from`: straight on,
      or around the end. */
  function Index(size: nat, mask: nat, from: nat, n: int, i: nat): int {
    var idx := And(from, mask);
    if idx + n < size || idx + i < size then idx + i else idx + i - size
  }

  // -------------------------------------------------------------- the window

  /** The ring as documented, as far as the cursors go: `size` slots, at least `capacity`. */
  predicate Shaped(r: Ring) {
    |r.slots| == r.size && r.capacity <= r.size && (r.size > 0 ==> r.mask == r.size - 1)
  }

  /** The window that the four cursors span. */
  predicate Window(r: Ring) {
    r.ts <= r.tf <= r.hs <= r.hf <= r.ts + r.capacity
  }

  predicate InPush(x: Actor, p: nat) {
    x.PushCopy? && x.head <= p < x.head + x.n
  }

  predicate InPop(x: Actor, p: nat) {
    x.PopCopy? && x.tail <= p < x.tail + x.n
  }

  /** What an actor knows; a cursor that it has read may be out of date. */
  predicate Knows(r: Ring, x: Actor) {
    match x
    case Idle => true
    case PushStart(obj, max) => max <= |obj|
    case PushHead(obj, max, head) => max <= |obj| && head <= r.hf
    case PushTry(obj, max, head, n) => max <= |obj| && 0 < n <= max && head <= r.hf && head + n <= r.ts + r.capacity
    case PushCopy(obj, head, n, i) => 0 < n <= |obj| && i <= n && r.hs <= head && head + n <= r.hf
    case PopStart(_) => true
    case PopTail(_, tail) => tail <= r.tf
    case PopTry(_, tail, n) => 0 < n && tail <= r.tf && tail + n <= r.hs
    case PopCopy(tail, n, got) => 0 < n && |got| <= n && r.ts <= tail && tail + n <= r.tf
  }

  /** Two reservations have no cursor in common. */
  predicate Apart(x: Actor, y: Actor) {
    && (x.PushCopy? && y.PushCopy? ==> x.head + x.n <= y.head || y.head + y.n <= x.head)
    && (x.PopCopy? && y.PopCopy? ==> x.tail + x.n <= y.tail || y.tail + y.n <= x.tail)
  }

  ghost predicate PushCovered(actors: seq<Actor>, p: nat) {
    exists a :: 0 <= a < |actors| && InPush(actors[a], p)
  }

  ghost predicate PopCovered(actors: seq<Actor>, p: nat) {
    exists a :: 0 <= a < |actors| && InPop(actors[a], p)
  }

  /** Every cursor that is reserved but not committed belongs to some actor's batch. */
  ghost predicate Covered(r: Ring, actors: seq<Actor>) {
    && (forall p :: r.hs <= p < r.hf ==> PushCovered(actors, p))
    && (forall p :: r.ts <= p < r.tf ==> PopCovered(actors, p))
  }

  ghost predicate AllKnow(r: Ring, actors: seq<Actor>) {
    forall a :: 0 <= a < |actors| ==> Knows(r, actors[a])
  }

  ghost predicate AllApart(actors: seq<Actor>) {
    forall a, b :: 0 <= a < b < |actors| ==> Apart(actors[a], actors[b])
  }

  /** The invariant of the cursors: it holds for a ring of any shape, power of two or not. */
  ghost predicate Ordered(s: System) {
    && Shaped(s.ring) && Window(s.ring)
    && |s.log| == s.ring.hf && |s.taken| == s.ring.ts
    && AllKnow(s.ring, s.actors) && AllApart(s.actors) && Covered(s.ring, s.actors)
  }

  lemma IndexInRange(r: Ring, from: nat, n: int, i: nat)
    requires Shaped(r) && i < n <= r.capacity
    ensures 0 <= Index(r.size, r.mask, from, n, i) < r.size
  {
    AndBound(from, r.mask);
  }

  /** A batch is no longer than the ring's capacity. */
  lemma BatchFits(s: System, a: nat)
    requires Ordered(s) && a < |s.actors|
    ensures s.actors[a].PushCopy? ==> s.actors[a].n <= s.ring.capacity
    ensures s.actors[a].PopCopy? ==> s.actors[a].n <= s.ring.capacity
  {
    assert Knows(s.ring, s.actors[a]);
  }

  /** The slot that an actor is about to use exists. */
  lemma StepIndex(s: System, a: nat)
    requires Ordered(s) && a < |s.actors|
    ensures var x, r := s.actors[a], s.ring;
      && (x.PushCopy? && x.i < x.n ==> 0 <= Index(r.size, r.mask, x.head, x.n, x.i) < r.size)
      && (x.PopCopy? && |x.got| < x.n ==> 0 <= Index(r.size, r.mask, x.tail, x.n, |x.got|) < r.size)
  {
    hide Index, Shaped;
    var x := s.actors[a];
    BatchFits(s, a);
    if x.PushCopy? && x.i < x.n { IndexInRange(s.ring, x.head, x.n, x.i); }
    if x.PopCopy? && |x.got| < x.n { IndexInRange(s.ring, x.tail, x.n, |x.got|); }
  }

  // ------------------------------------------------------------------- steps

  function With(s: System, a: nat, actor: Actor): System
    requires a < |s.actors|
  {
    s.(actors := s.actors[a := actor])
  }

  /** The next step of a push. */
  function StepPush(s: System, a: nat): System
    requires Ordered(s) && a < |s.actors|
  {
    hide Index, AllApart, Covered;
    StepIndex(s, a);
    var r := s.ring;
    match s.actors[a]
    case PushStart(obj, max) =>
      With(s, a, PushHead(obj, max, r.hf))
    case PushHead(obj, max, head) =>
      var free := r.capacity + r.ts - head;
      var n := if max > free then free else max;
      With(s, a, if n == 0 then Idle else PushTry(obj, max, head, n))
    case PushTry(obj, max, head, n) =>
      if r.hf != head then With(s, a, PushStart(obj, max))
      else
        With(s.(ring := r.(hf := head + n), log := s.log + obj[..n]), a, PushCopy(obj, head, n, 0))
    case PushCopy(obj, head, n, i) =>
      if i < n then
        With(s.(ring := r.(slots := r.slots[Index(r.size, r.mask, head, n, i) := obj[i]])), a,
             PushCopy(obj, head, n, i + 1))
      else if r.hs != head then s
      else With(s.(ring := r.(hs := head + n)), a, Idle)
    case _ => s
  }

  /** The next step of a pop. */
  function StepPop(s: System, a: nat): System
    requires Ordered(s) && a < |s.actors|
  {
    hide Index, AllApart, Covered;
    StepIndex(s, a);
    var r := s.ring;
    match s.actors[a]
    case PopStart(max) =>
      With(s, a, PopTail(max, r.tf))
    case PopTail(max, tail) =>
      var entries := r.hs - tail;
      var n := if max > entries then entries else max;
      With(s, a, if n == 0 then Idle else PopTry(max, tail, n))
    case PopTry(max, tail, n) =>
      if r.tf != tail then With(s, a, PopStart(max))
      else With(s.(ring := r.(tf := tail + n)), a, PopCopy(tail, n, []))
    case PopCopy(tail, n, got) =>
      if |got| < n then
        With(s, a, PopCopy(tail, n, got + [r.slots[Index(r.size, r.mask, tail, n, |got|)]]))
      else if r.ts != tail then s
      else With(s.(ring := r.(ts := tail + n), taken := s.taken + got), a, Idle)
    case _ => s
  }

  datatype Event =
    | BeginPush(obj: seq<Value>, max: nat)
    | BeginPop(max: nat)
    | Go

  predicate Pushing(x: Actor) {
    x.PushStart? || x.PushHead? || x.PushTry? || x.PushCopy?
  }

  /** One event of actor `a`; only an idle actor begins something. */
  function Step(s: System, a: nat, e: Event): System
    requires Ordered(s)
  {
    if a >= |s.actors| then s
    else match e
      case BeginPush(obj, max) =>
        if s.actors[a].Idle? && max <= |obj| then With(s, a, PushStart(obj, max)) else s
      case BeginPop(max) => if s.actors[a].Idle? then With(s, a, PopStart(max)) else s
      case Go => if Pushing(s.actors[a]) then StepPush(s, a) else StepPop(s, a)
  }

  // ------------------------------------------------ every step keeps the window

  predicate Reserving(x: Actor) {
    x.PushCopy? || x.PopCopy?
  }

  /** An actor without a reservation moves on to another such state. */
  lemma MoveKeeps(s: System, a: nat, x: Actor)
    requires Ordered(s) && a < |s.actors| && !Reserving(s.actors[a]) && !Reserving(x) && Knows(s.ring, x)
    ensures Ordered(With(s, a, x))
  {
    hide Knows;
    KeptCovered(s.ring, s.actors, a, x);
  }

  /** Replacing an actor by one with the same reservations covers the same cursors. */
  lemma KeptCovered(r: Ring, actors: seq<Actor>, a: nat, x: Actor)
    requires Covered(r, actors) && a < |actors|
    requires forall p :: InPush(actors[a], p) ==> InPush(x, p)
    requires forall p :: InPop(actors[a], p) ==> InPop(x, p)
    ensures Covered(r, actors[a := x])
  {
    hide InPush, InPop;
    var actors' := actors[a := x];
    forall p | r.hs <= p < r.hf ensures PushCovered(actors', p) {
      assert PushCovered(actors, p);
      var b :| 0 <= b < |actors| && InPush(actors[b], p);
      assert InPush(actors'[b], p);
    }
    forall p | r.ts <= p < r.tf ensures PopCovered(actors', p) {
      assert PopCovered(actors, p);
      var b :| 0 <= b < |actors| && InPop(actors[b], p);
      assert InPop(actors'[b], p);
    }
  }

  /** A push reserves the cursors from head.first on. */
  lemma ReservePushKeeps(s: System, a: nat)
    requires Ordered(s) && a < |s.actors| && s.actors[a].PushTry? && s.ring.hf == s.actors[a].head
    ensures Ordered(StepPush(s, a))
  {
    hide Covered;
    var x := s.actors[a];
    var r := s.ring.(hf := x.head + x.n);
    var y := PushCopy(x.obj, x.head, x.n, 0);
    assert Knows(s.ring, x);
    forall b | 0 <= b < |s.actors|
      ensures Knows(r, s.actors[a := y][b]) && (b != a ==> Apart(s.actors[b], y) && Apart(y, s.actors[b]))
    {
      assert Knows(s.ring, s.actors[b]);
    }
    KeptCovered(s.ring, s.actors, a, y);
    MorePushed(s.ring, r, s.actors[a := y], a);
  }

  lemma MorePushed(r: Ring, r': Ring, actors: seq<Actor>, a: nat)
    requires Covered(r, actors) && a < |actors| && r' == r.(hf := r'.hf)
    requires forall p :: r.hf <= p < r'.hf ==> InPush(actors[a], p)
    ensures Covered(r', actors)
  {
    hide InPush, InPop;
    forall p | r'.hs <= p < r'.hf ensures PushCovered(actors, p) {
      assert if p < r.hf then PushCovered(actors, p) else InPush(actors[a], p);
    }
  }

  lemma ReservePopKeeps(s: System, a: nat)
    requires Ordered(s) && a < |s.actors| && s.actors[a].PopTry? && s.ring.tf == s.actors[a].tail
    ensures Ordered(StepPop(s, a))
  {
    hide Covered;
    var x := s.actors[a];
    var r := s.ring.(tf := x.tail + x.n);
    var y := PopCopy(x.tail, x.n, []);
    assert Knows(s.ring, x);
    forall b | 0 <= b < |s.actors|
      ensures Knows(r, s.actors[a := y][b]) && (b != a ==> Apart(s.actors[b], y) && Apart(y, s.actors[b]))
    {
      assert Knows(s.ring, s.actors[b]);
    }
    KeptCovered(s.ring, s.actors, a, y);
    MorePopped(s.ring, r, s.actors[a := y], a);
  }

  lemma MorePopped(r: Ring, r': Ring, actors: seq<Actor>, a: nat)
    requires Covered(r, actors) && a < |actors| && r' == r.(tf := r'.tf)
    requires forall p :: r.tf <= p < r'.tf ==> InPop(actors[a], p)
    ensures Covered(r', actors)
  {
    hide InPush, InPop;
    forall p | r'.ts <= p < r'.tf ensures PopCovered(actors, p) {
      assert if p < r.tf then PopCovered(actors, p) else InPop(actors[a], p);
    }
  }

  /** A push commits: head.second moves over its batch, and over nothing else. */
  lemma CommitPushKeeps(s: System, a: nat)
    requires Ordered(s) && a < |s.actors| && s.actors[a].PushCopy? && s.actors[a].i == s.actors[a].n
    requires s.ring.hs == s.actors[a].head
    ensures Ordered(StepPush(s, a))
  {
    var x := s.actors[a];
    var r, actors := s.ring.(hs := x.head + x.n), s.actors[a := Idle];
    assert Knows(s.ring, x);
    forall b | 0 <= b < |actors| ensures Knows(r, actors[b]) {
      assert Knows(s.ring, s.actors[b]);
      assert b < a ==> Apart(s.actors[b], x);
      assert a < b ==> Apart(x, s.actors[b]);
    }
    forall p | r.hs <= p < r.hf ensures PushCovered(actors, p) {
      assert PushCovered(s.actors, p);
      var b :| 0 <= b < |actors| && InPush(s.actors[b], p);
      assert InPush(actors[b], p);
    }
    forall p | r.ts <= p < r.tf ensures PopCovered(actors, p) {
      assert PopCovered(s.actors, p);
      var b :| 0 <= b < |actors| && InPop(s.actors[b], p);
      assert InPop(actors[b], p);
    }
  }

  lemma CommitPopKeeps(s: System, a: nat)
    requires Ordered(s) && a < |s.actors| && s.actors[a].PopCopy? && |s.actors[a].got| == s.actors[a].n
    requires s.ring.ts == s.actors[a].tail
    ensures Ordered(StepPop(s, a))
  {
    var x := s.actors[a];
    var r, actors := s.ring.(ts := x.tail + x.n), s.actors[a := Idle];
    assert Knows(s.ring, x);
    forall b | 0 <= b < |actors| ensures Knows(r, actors[b]) {
      assert Knows(s.ring, s.actors[b]);
      assert b < a ==> Apart(s.actors[b], x);
      assert a < b ==> Apart(x, s.actors[b]);
    }
    forall p | r.hs <= p < r.hf ensures PushCovered(actors, p) {
      assert PushCovered(s.actors, p);
      var b :| 0 <= b < |actors| && InPush(s.actors[b], p);
      assert InPush(actors[b], p);
    }
    forall p | r.ts <= p < r.tf ensures PopCovered(actors, p) {
      assert PopCovered(s.actors, p);
      var b :| 0 <= b < |actors| && InPop(s.actors[b], p);
      assert InPop(actors[b], p);
    }
  }

  /** Copying a value changes neither cursors nor reservations. */
  lemma CopyKeeps(s: System, a: nat, slots: seq<Value>, x: Actor)
    requires Ordered(s) && a < |s.actors| && Knows(s.ring, x) && |slots| == |s.ring.slots|
    requires var y := s.actors[a];
      || (x.PushCopy? && y.PushCopy? && x.head == y.head && x.n == y.n)
      || (x.PopCopy? && y.PopCopy? && x.tail == y.tail && x.n == y.n)
    ensures Ordered(With(s.(ring := s.ring.(slots := slots)), a, x))
  {
    KeptCovered(s.ring.(slots := slots), s.actors, a, x);
  }

  lemma StepPushKeeps(s: System, a: nat)
    requires Ordered(s) && a < |s.actors| && Pushing(s.actors[a])
    ensures Ordered(StepPush(s, a))
  {
    hide Index, Covered, AllApart, AllKnow, Shaped;
    var r := s.ring;
    KnowsOne(s, a);
    match s.actors[a]
    case PushStart(obj, max) => MoveKeeps(s, a, PushHead(obj, max, r.hf));
    case PushHead(obj, max, head) =>
      var free := r.capacity + r.ts - head;
      var n := if max > free then free else max;
      MoveKeeps(s, a, if n == 0 then Idle else PushTry(obj, max, head, n));
    case PushTry(obj, max, head, n) =>
      if r.hf != head { MoveKeeps(s, a, PushStart(obj, max)); } else { ReservePushKeeps(s, a); }
    case PushCopy(obj, head, n, i) =>
      if i < n {
        StepIndex(s, a);
        ShapedSlots(s);
        CopyKeeps(s, a, r.slots[Index(r.size, r.mask, head, n, i) := obj[i]], PushCopy(obj, head, n, i + 1));
      } else if r.hs == head {
        CommitPushKeeps(s, a);
      }
  }

  lemma KnowsOne(s: System, a: nat)
    requires Ordered(s) && a < |s.actors|
    ensures Knows(s.ring, s.actors[a])
  {
  }

  lemma ShapedSlots(s: System)
    requires Ordered(s)
    ensures |s.ring.slots| == s.ring.size
  {
  }

  lemma StepPopKeeps(s: System, a: nat)
    requires Ordered(s) && a < |s.actors| && !Pushing(s.actors[a])
    ensures Ordered(StepPop(s, a))
  {
    hide Index, Covered, AllApart, AllKnow, Shaped;
    var r := s.ring;
    KnowsOne(s, a);
    match s.actors[a]
    case PopStart(max) => MoveKeeps(s, a, PopTail(max, r.tf));
    case PopTail(max, tail) =>
      var entries := r.hs - tail;
      var n := if max > entries then entries else max;
      MoveKeeps(s, a, if n == 0 then Idle else PopTry(max, tail, n));
    case PopTry(max, tail, n) =>
      if r.tf != tail { MoveKeeps(s, a, PopStart(max)); } else { ReservePopKeeps(s, a); }
    case PopCopy(tail, n, got) =>
      if |got| < n {
        StepIndex(s, a);
        ShapedSlots(s);
        CopyKeeps(s, a, r.slots, PopCopy(tail, n, got + [r.slots[Index(r.size, r.mask, tail, n, |got|)]]));
      } else if r.ts == tail {
        CommitPopKeeps(s, a);
      }
    case _ =>
  }

  /** Every step keeps the window, the reservations disjoint and gap-free, and so the order
      of the commits. */
  lemma StepKeepsOrder(s: System, a: nat, e: Event)
    requires Ordered(s)
    ensures Ordered(Step(s, a, e))
  {
    hide Ordered, StepPush, StepPop;
    if a < |s.actors| {
      match e
      case BeginPush(obj, max) =>
        if s.actors[a].Idle? && max <= |obj| { MoveKeeps(s, a, PushStart(obj, max)); }
      case BeginPop(max) =>
        if s.actors[a].Idle? { MoveKeeps(s, a, PopStart(max)); }
      case Go =>
        if Pushing(s.actors[a]) { StepPushKeeps(s, a); } else { StepPopKeeps(s, a); }
    }
  }

  /** A schedule: which actor is next, and with what. */
  function Run(s: System, schedule: seq<(nat, Event)>): System
    requires Ordered(s)
    decreases |schedule|
  {
    if schedule == [] then s
    else
      StepKeepsOrder(s, schedule[0].0, schedule[0].1);
      Run(Step(s, schedule[0].0, schedule[0].1), schedule[1..])
  }

  /** In every reachable state: tail.second, tail.first, head.second, head.first are in this
      order and span at most the capacity, reservations are disjoint, and every reserved
      cursor is in one. */
  lemma {:induction false} RunKeepsOrder(s: System, schedule: seq<(nat, Event)>)
    requires Ordered(s)
    ensures Ordered(Run(s, schedule)) && Window(Run(s, schedule).ring)
    decreases |schedule|
  {
    hide Step;
    if schedule != [] {
      StepKeepsOrder(s, schedule[0].0, schedule[0].1);
      RunKeepsOrder(Step(s, schedule[0].0, schedule[0].1), schedule[1..]);
    }
  }

  // No step changes the size, the mask or the capacity.

  lemma StepSizes(s: System, a: nat, e: Event)
    requires Ordered(s)
    ensures var r, r' := s.ring, Step(s, a, e).ring;
      r'.size == r.size && r'.mask == r.mask && r'.capacity == r.capacity
  {
    hide Covered, AllApart, AllKnow, Index;
  }

  lemma {:induction false} RunSizes(s: System, schedule: seq<(nat, Event)>)
    requires Ordered(s)
    ensures var r, r' := s.ring, Run(s, schedule).ring;
      r'.size == r.size && r'.mask == r.mask && r'.capacity == r.capacity
    decreases |schedule|
  {
    hide Ordered, Step;
    if schedule != [] {
      var (a, e) := schedule[0];
      StepKeepsOrder(s, a, e);
      StepSizes(s, a, e);
      RunSizes(Step(s, a, e), schedule[1..]);
    }
  }
}
