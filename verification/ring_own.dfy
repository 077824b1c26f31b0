/**
 The ring as its own initialisation leaves it.  The rounding lacks the final increment, so
 the size is a power of two less one and the mask is even: first in, first out holds for
 every run exactly when the capacity is at most one.
 */
module RingOwn {
  import opened Reversal
  import opened RingWords
  import opened RingProtocol
  import opened RingFifo

  /** init_gp_ring for a capacity of `count`: size gp_align32pow2(count + 1), mask one less. */
  predicate OwnRing(r: Ring, count: nat) {
    && r.size == |r.slots| == Ones(count) && r.capacity == count
    && r.mask == (if r.size == 0 then 0xFFFF_FFFF else r.size - 1)
    && r.hf == r.hs == r.tf == r.ts == 0
  }

  ghost predicate AlwaysFifo(r: Ring) {
    forall s, schedule :: Fresh(s) && s.ring == r && Ordered(s) ==> Fifo(Run(s, schedule))
  }

  lemma OwnShaped(r: Ring, count: nat)
    requires OwnRing(r, count)
    ensures Shaped(r)
    ensures count > 0 ==> r.mask % 2 == 0
    ensures count > 1 ==> r.size >= 3
  {
    OnesFacts(count);
  }

  // --------------------------------------------------------- no capacity at all

  lemma {:induction false} NothingHappens(s: System, schedule: seq<(nat, Event)>)
    requires Ordered(s) && s.ring.capacity == 0 && s.log == []
    ensures Fifo(Run(s, schedule))
    decreases |schedule|
  {
    hide AllApart, Covered, Index;
    if schedule != [] {
      var (a, e) := schedule[0];
      StepKeepsOrder(s, a, e);
      if a < |s.actors| { KnowsOne(s, a); }
      NothingHappens(Step(s, a, e), schedule[1..]);
    }
  }

  // ------------------------------------------------------------ a run that fails

  function Gos(k: nat): seq<(nat, Event)> {
    if k == 0 then [] else [(0, Go)] + Gos(k - 1)
  }

  lemma Unroll(s: System, k: nat)
    requires Ordered(s) && k > 0
    ensures Ordered(Step(s, 0, Go)) && Run(s, Gos(k)) == Run(Step(s, 0, Go), Gos(k - 1))
  {
    hide Ordered, Step;
    StepKeepsOrder(s, 0, Go);
    assert Gos(k)[1..] == Gos(k - 1);
  }

  lemma {:induction false} RunAppend(s: System, x: seq<(nat, Event)>, y: seq<(nat, Event)>)
    requires Ordered(s)
    ensures Ordered(Run(s, x)) && Run(s, x + y) == Run(Run(s, x), y)
    decreases |x|
  {
    hide Ordered, Step;
    RunKeepsOrder(s, x);
    if x == [] {
      assert x + y == y;
    } else {
      StepKeepsOrder(s, x[0].0, x[0].1);
      assert (x + y)[1..] == x[1..] + y;
      RunAppend(Step(s, x[0].0, x[0].1), x[1..], y);
    }
  }

  /** A push of two values into the empty ring. */
  lemma PushTwo(s: System, a: Value, b: Value)
    requires Ordered(s) && s.actors == [PushStart([a, b], 2)] && s.log == []
    requires s.ring.ts == s.ring.hf == 0 && s.ring.capacity >= 2 && s.ring.size >= 3
    ensures var t := Run(s, Gos(6)); var r := s.ring;
      t == System(r.(hf := 2, hs := 2, slots := r.slots[0 := a][1 := b]), [Idle], [a, b], s.taken)
  {
    hide Run, Covered, AllApart, AllKnow, Gos;
    var obj, r := [a, b], s.ring;
    Unroll(s, 6);
    var s1 := Step(s, 0, Go);
    assert s1 == s.(actors := [PushHead(obj, 2, 0)]);
    Unroll(s1, 5);
    var s2 := Step(s1, 0, Go);
    assert s2 == s.(actors := [PushTry(obj, 2, 0, 2)]);
    Unroll(s2, 4);
    var s3 := Step(s2, 0, Go);
    assert s3 == System(r.(hf := 2), [PushCopy(obj, 0, 2, 0)], [a, b], s.taken);
    TwoCopied(s3, a, b);
  }

  lemma TwoCopied(s: System, a: Value, b: Value)
    requires Ordered(s) && s.actors == [PushCopy([a, b], 0, 2, 0)] && s.ring.hs == 0 && s.ring.size >= 3
    ensures var t := Run(s, Gos(3)); var r := s.ring;
      t == System(r.(hs := 2, slots := r.slots[0 := a][1 := b]), [Idle], s.log, s.taken)
  {
    hide Run, Covered, AllApart, AllKnow, Gos;
    var obj, r := [a, b], s.ring;
    Unroll(s, 3);
    var s1 := Step(s, 0, Go);
    assert s1 == s.(ring := r.(slots := r.slots[0 := a]), actors := [PushCopy(obj, 0, 2, 1)]);
    Unroll(s1, 2);
    var s2 := Step(s1, 0, Go);
    assert s2 == s.(ring := r.(slots := r.slots[0 := a][1 := b]), actors := [PushCopy(obj, 0, 2, 2)]);
    Unroll(s2, 1);
    Unfolded(Step(s2, 0, Go));
  }

  lemma Unfolded(s: System)
    requires Ordered(s)
    ensures Run(s, Gos(0)) == s
  {
  }

  /** A pop of one value. */
  lemma PopOne(s: System)
    requires Ordered(s) && s.actors == [PopStart(1)] && s.ring.ts == s.ring.tf < s.ring.hs && s.ring.size >= 3
    ensures var t := Run(s, Gos(5)); var r, p, j := s.ring, s.ring.ts + 1, And(s.ring.tf, s.ring.mask);
      j < |r.slots| && t == System(r.(tf := p, ts := p), [Idle], s.log, s.taken + [r.slots[j]])
  {
    hide Run, Covered, AllApart, AllKnow, Gos, And;
    var r, j := s.ring, And(s.ring.tf, s.ring.mask);
    AndBound(r.tf, r.mask);
    Unroll(s, 5);
    var s1 := Step(s, 0, Go);
    assert s1 == s.(actors := [PopTail(1, r.tf)]);
    Unroll(s1, 4);
    var s2 := Step(s1, 0, Go);
    assert s2 == s.(actors := [PopTry(1, r.tf, 1)]);
    Unroll(s2, 3);
    var s3 := Step(s2, 0, Go);
    assert s3 == s.(ring := r.(tf := r.tf + 1), actors := [PopCopy(r.tf, 1, [])]);
    TakenOne(s3);
  }

  lemma TakenOne(s: System)
    requires Ordered(s) && s.actors == [PopCopy(s.ring.ts, 1, [])] && And(s.ring.ts, s.ring.mask) < s.ring.size
    ensures var t := Run(s, Gos(2)); var r, j := s.ring, And(s.ring.ts, s.ring.mask);
      j < |r.slots| && t == System(r.(ts := r.ts + 1), [Idle], s.log, s.taken + [r.slots[j]])
  {
    hide Run, Covered, AllApart, AllKnow, Gos, And;
    var r, j := s.ring, And(s.ring.ts, s.ring.mask);
    Unroll(s, 2);
    var s1 := Step(s, 0, Go);
    assert Index(r.size, r.mask, r.ts, 1, 0) == j && [] + [r.slots[j]] == [r.slots[j]];
    assert s1 == s.(actors := [PopCopy(r.ts, 1, [r.slots[j]])]);
    Unroll(s1, 1);
    Unfolded(Step(s1, 0, Go));
  }

  /** Push two values and pop twice, one at a time: both pops take the first value. */
  lemma SameValueTwice(r: Ring, count: nat, a: Value, b: Value) returns (s: System, schedule: seq<(nat, Event)>)
    requires OwnRing(r, count) && count >= 2 && a != b
    ensures Fresh(s) && s.ring == r && Ordered(s)
    ensures Run(s, schedule).log == [a, b] && Run(s, schedule).taken == [a, a]
    ensures Run(s, schedule).ring.ts == 2
  {
    hide Run, Covered, AllApart, Knows;
    OwnShaped(r, count);
    s := System(r, [Idle], [], []);
    FreshOrdered(s);
    assert And(1, r.mask) == 0;
    var push, pop := [(0, BeginPush([a, b], 2))] + Gos(6), [(0, BeginPop(1))] + Gos(5);
    schedule := (push + pop) + pop;
    Begin(s, BeginPush([a, b], 2), 6);
    PushTwo(Step(s, 0, BeginPush([a, b], 2)), a, b);
    RunAppend(s, push, pop);
    var s1 := Run(s, push);
    Begin(s1, BeginPop(1), 5);
    PopOne(Step(s1, 0, BeginPop(1)));
    RunAppend(s, push + pop, pop);
    var s2 := Run(s1, pop);
    Begin(s2, BeginPop(1), 5);
    PopOne(Step(s2, 0, BeginPop(1)));
  }

  lemma Begin(s: System, e: Event, k: nat)
    requires Ordered(s)
    ensures Ordered(Step(s, 0, e)) && Run(s, [(0, e)] + Gos(k)) == Run(Step(s, 0, e), Gos(k))
  {
    hide Ordered, Step;
    StepKeepsOrder(s, 0, e);
    assert ([(0, e)] + Gos(k))[1..] == Gos(k);
  }

  /** With the sizes of the ring's own initialisation every run is first in, first out
      exactly when the capacity is at most one. */
  lemma OwnRingExact(r: Ring, count: nat, a: Value, b: Value)
    requires OwnRing(r, count) && a != b
    ensures AlwaysFifo(r) <==> count <= 1
  {
    hide Run, Ordered;
    OwnShaped(r, count);
    if count >= 2 {
      var s, schedule := SameValueTwice(r, count, a, b);
      assert Run(s, schedule).taken[1] != Run(s, schedule).log[..2][1];
    } else {
      forall s, schedule | Fresh(s) && s.ring == r && Ordered(s) ensures Fifo(Run(s, schedule)) {
        if count == 0 {
          NothingHappens(s, schedule);
        } else {
          assert r.size == Pow2(0);
          RingIsFifo(s, schedule);
        }
      }
    }
  }

  // ------------------------------------------------- slots that are not allocated

  /** The step of actor `a` that comes next uses slot `j`. */
  predicate Uses(s: System, a: nat, j: int) {
    a < |s.actors| && match s.actors[a]
      case PushCopy(obj, head, n, i) => i < n && j == Index(s.ring.size, s.ring.mask, head, n, i)
      case PopCopy(tail, n, got) => |got| < n && j == Index(s.ring.size, s.ring.mask, tail, n, |got|)
      case _ => false
  }

  /** In every run from the empty ring only the first `count` slots are used. */
  ghost predicate SlotsBelow(r: Ring, count: nat) {
    forall s, schedule, a, j :: Fresh(s) && s.ring == r && Ordered(s) && Uses(Run(s, schedule), a, j) ==> j < count
  }

  /** A single idle actor, and all cursors at `h`. */
  predicate AtRest(s: System, h: nat) {
    s.actors == [Idle] && s.ring.hf == s.ring.hs == s.ring.tf == s.ring.ts == h
  }

  lemma PushOne(s: System, h: nat, v: Value)
    requires Ordered(s) && AtRest(s, h) && s.ring.capacity >= 1
    ensures var e, r := BeginPush([v], 1), s.ring; var j := And(h, r.mask);
      && Ordered(Step(s, 0, e)) && j < |r.slots|
      && Run(Step(s, 0, e), Gos(3))
         == System(r.(hf := h + 1), [PushCopy([v], h, 1, 0)], s.log + [v], s.taken)
      && Run(Step(s, 0, e), Gos(5))
         == System(r.(hf := h + 1, hs := h + 1, slots := r.slots[j := v]), [Idle], s.log + [v], s.taken)
  {
    hide Run, Covered, AllApart, AllKnow, Gos, And;
    var obj, r, j := [v], s.ring, And(h, s.ring.mask);
    AndBound(h, r.mask);
    Begin(s, BeginPush(obj, 1), 3);
    var s0 := Step(s, 0, BeginPush(obj, 1));
    Unroll(s0, 3);
    Unroll(s0, 5);
    var s1 := Step(s0, 0, Go);
    assert s1 == s.(actors := [PushHead(obj, 1, h)]);
    Unroll(s1, 2);
    Unroll(s1, 4);
    var s2 := Step(s1, 0, Go);
    assert s2 == s.(actors := [PushTry(obj, 1, h, 1)]);
    Unroll(s2, 1);
    Unroll(s2, 3);
    var s3 := Step(s2, 0, Go);
    assert obj[..1] == [v];
    assert s3 == System(r.(hf := h + 1), [PushCopy(obj, h, 1, 0)], s.log + [v], s.taken);
    Unfolded(s3);
    CopiedOne(s3, h, v);
  }

  lemma CopiedOne(s: System, h: nat, v: Value)
    requires Ordered(s) && s.actors == [PushCopy([v], h, 1, 0)] && s.ring.hs == h
    requires And(h, s.ring.mask) < s.ring.size
    ensures var r, j := s.ring, And(h, s.ring.mask);
      && j < |r.slots|
      && Run(s, Gos(2)) == System(r.(hs := h + 1, slots := r.slots[j := v]), [Idle], s.log, s.taken)
  {
    hide Run, Covered, AllApart, AllKnow, Gos, And;
    var r, j := s.ring, And(h, s.ring.mask);
    Unroll(s, 2);
    var s1 := Step(s, 0, Go);
    assert s1 == s.(ring := r.(slots := r.slots[j := v]), actors := [PushCopy([v], h, 1, 1)]);
    Unroll(s1, 1);
    Unfolded(Step(s1, 0, Go));
  }

  /** The cursors one further: a push and a pop of one value. */
  lemma OneRound(s: System, h: nat, v: Value) returns (t: System, schedule: seq<(nat, Event)>)
    requires Ordered(s) && AtRest(s, h) && s.ring.size >= 3 && s.ring.capacity >= 1
    ensures t == Run(s, schedule) && Ordered(t) && AtRest(t, h + 1)
    ensures t.ring.size == s.ring.size && t.ring.mask == s.ring.mask && t.ring.capacity == s.ring.capacity
  {
    hide Run, Covered, AllApart, AllKnow, Gos, And, Step;
    var push, pop := [(0, BeginPush([v], 1))] + Gos(5), [(0, BeginPop(1))] + Gos(5);
    Begin(s, BeginPush([v], 1), 5);
    PushOne(s, h, v);
    RunAppend(s, push, pop);
    var s1 := Run(s, push);
    Begin(s1, BeginPop(1), 5);
    PopStarted(s1);
    PopOne(Step(s1, 0, BeginPop(1)));
    schedule := push + pop;
    t := Run(s, schedule);
    RunKeepsOrder(s, schedule);
  }

  lemma PopStarted(s: System)
    requires Ordered(s) && s.actors == [Idle]
    ensures Step(s, 0, BeginPop(1)) == s.(actors := [PopStart(1)])
  {
    hide Covered, AllApart, AllKnow;
  }

  lemma {:induction false} Rounds(s: System, h: nat, v: Value) returns (t: System, schedule: seq<(nat, Event)>)
    requires Ordered(s) && AtRest(s, 0) && s.ring.size >= 3 && s.ring.capacity >= 1
    ensures t == Run(s, schedule) && Ordered(t) && AtRest(t, h)
    ensures t.ring.size == s.ring.size && t.ring.mask == s.ring.mask && t.ring.capacity == s.ring.capacity
    decreases h
  {
    hide Ordered, Step;
    if h == 0 {
      t, schedule := s, [];
    } else {
      var t', before := Rounds(s, h - 1, v);
      var last;
      t, last := OneRound(t', h - 1, v);
      RunAppend(s, before, last);
      schedule := before + last;
    }
  }

  lemma {:induction false} AndItself(m: nat)
    ensures And(m, m) == m
  {
    if m != 0 {
      AndItself(m / 2);
      assert m % 2 * (m % 2) == m % 2;
    }
  }

  /** A run that is about to use the last slot of the ring. */
  lemma LastSlot(r: Ring, count: nat, v: Value) returns (s: System, schedule: seq<(nat, Event)>)
    requires OwnRing(r, count) && count >= 2
    ensures Fresh(s) && s.ring == r && Ordered(s) && Uses(Run(s, schedule), 0, r.size - 1)
  {
    hide Run, Ordered, And;
    OwnShaped(r, count);
    s := System(r, [Idle], [], []);
    FreshOrdered(s);
    var t, before := Rounds(s, r.mask, v);
    var next := [(0, BeginPush([v], 1))] + Gos(3);
    Begin(t, BeginPush([v], 1), 3);
    PushOne(t, r.mask, v);
    RunAppend(s, before, next);
    AndItself(r.mask);
    schedule := before + next;
  }

  /** create_gp_ring allocates as many slots as the capacity; every run uses no slot behind
      them if and only if the rounding leaves the capacity as it is. */
  lemma OwnSlotsExact(r: Ring, count: nat, v: Value)
    requires OwnRing(r, count)
    ensures SlotsBelow(r, count) <==> Ones(count) == count
  {
    hide Run, Ordered, Index;
    OwnShaped(r, count);
    OnesFacts(count);
    if Ones(count) == count {
      forall s, schedule, a, j | Fresh(s) && s.ring == r && Ordered(s) && Uses(Run(s, schedule), a, j)
        ensures j < count
      {
        RunKeepsOrder(s, schedule);
        StepIndex(Run(s, schedule), a);
        RunSizes(s, schedule);
      }
    } else {
      assert count >= 2 by {
        assert Ones(0) == 0 && Ones(1) == 1;
      }
      var s, schedule := LastSlot(r, count, v);
      assert Uses(Run(s, schedule), 0, r.size - 1);
    }
  }
}
