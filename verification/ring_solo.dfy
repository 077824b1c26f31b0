/**
 How much a push or a pop moves.  It takes all that it is asked for, or as much as the
 cursors it has read leave room for; and when it is not disturbed it ends, having moved
 exactly that.
 */
module RingSolo {
  import opened RingProtocol
  import opened RingFifo

  function Min(a: int, b: int): int {
    if a < b then a else b
  }

  /** A push that has read both cursors goes on with all its values or fills the ring, and
      comes back with nothing exactly when it has nothing to push or found no room. */
  lemma PushAmount(s: System, a: nat)
    requires Ordered(s) && a < |s.actors| && s.actors[a].PushHead?
    ensures var x, limit, s' := s.actors[a], s.ring.ts + s.ring.capacity, StepPush(s, a);
      var y := s'.actors[a];
      && s' == With(s, a, y)
      && (y == Idle <==> x.max == 0 || x.head == limit)
      && (y != Idle ==> y.PushTry? && y.obj == x.obj && y.max == x.max && y.head == x.head && y.n > 0)
      && (y != Idle ==> (y.n == x.max && x.head + y.n <= limit) || (y.n < x.max && x.head + y.n == limit))
  {
    hide Covered, AllApart, Index;
    KnowsOne(s, a);
  }

  /** A pop that has read both cursors goes on with all it is asked for or with all committed
      values, and comes back with nothing exactly when it is asked for none or found none. */
  lemma PopAmount(s: System, a: nat)
    requires Ordered(s) && a < |s.actors| && s.actors[a].PopTail?
    ensures var x, limit, s' := s.actors[a], s.ring.hs, StepPop(s, a);
      var y := s'.actors[a];
      && s' == With(s, a, y)
      && (y == Idle <==> x.max == 0 || x.tail == limit)
      && (y != Idle ==> y.PopTry? && y.max == x.max && y.tail == x.tail && y.n > 0)
      && (y != Idle ==> (y.n == x.max && x.tail + y.n <= limit) || (y.n < x.max && x.tail + y.n == limit))
  {
    hide Covered, AllApart, Index;
    KnowsOne(s, a);
  }

  /** Values are reserved by a compare-and-swap that succeeds, the first n of the batch, and
      in no other way; one that fails starts over. */
  lemma ReservesBatch(s: System, a: nat)
    requires Ordered(s) && a < |s.actors|
    ensures var x, s' := s.actors[a], Step(s, a, Go);
      if x.PushTry? && s.ring.hf == x.head then
        && s'.log == s.log + x.obj[..x.n] && s'.ring.hf == s.ring.hf + x.n
        && s'.actors[a] == PushCopy(x.obj, x.head, x.n, 0)
      else
        && s'.log == s.log && s'.ring.hf == s.ring.hf
        && (x.PushTry? ==> s' == With(s, a, PushStart(x.obj, x.max)))
    ensures var x, s' := s.actors[a], Step(s, a, Go);
      if x.PopTry? && s.ring.tf == x.tail then
        s'.ring.tf == s.ring.tf + x.n && s'.actors[a] == PopCopy(x.tail, x.n, [])
      else
        && s'.ring.tf == s.ring.tf
        && (x.PopTry? ==> s' == With(s, a, PopStart(x.max)))
  {
    hide Covered, AllApart, Index;
    KnowsOne(s, a);
  }

  // ---------------------------------------------------------- without disturbance

  /** `k` steps of one actor. */
  function Steps(a: nat, k: nat): seq<(nat, Event)> {
    if k == 0 then [] else [(a, Go)] + Steps(a, k - 1)
  }

  lemma Unroll(s: System, a: nat, k: nat)
    requires Ordered(s) && k > 0
    ensures Ordered(Step(s, a, Go)) && Run(s, Steps(a, k)) == Run(Step(s, a, Go), Steps(a, k - 1))
  {
    hide Ordered, Step;
    StepKeepsOrder(s, a, Go);
    assert Steps(a, k)[1..] == Steps(a, k - 1);
  }

  /** The slots may differ. */
  predicate SameButSlots(r: Ring, r': Ring) {
    r' == r.(slots := r'.slots)
  }

  /** The copying and the commit of a push whose batch is next in order. */
  lemma {:induction false} CopiesIn(s: System, a: nat, n: int, i: nat)
    requires Ordered(s) && a < |s.actors| && s.actors[a].PushCopy?
    requires s.actors[a].head == s.ring.hs && s.actors[a].n == n && s.actors[a].i == i <= n
    ensures var t := Run(s, Steps(a, n - i + 1));
      && t.actors == s.actors[a := Idle] && t.log == s.log && t.taken == s.taken
      && SameButSlots(s.ring.(hs := s.ring.hs + n), t.ring)
    decreases n - i
  {
    hide Ordered, Run, Index;
    KnowsOne(s, a);
    StepIndex(s, a);
    Unroll(s, a, n - i + 1);
    if i == n {
      RunNothing(Step(s, a, Go), a);
    } else {
      CopiesIn(Step(s, a, Go), a, n, i + 1);
    }
  }

  lemma RunNothing(s: System, a: nat)
    requires Ordered(s)
    ensures Run(s, Steps(a, 0)) == s
  {
  }

  /** A push that runs alone from its start, while no other reservation of a push is open,
      reserves and commits exactly the first values there is room for, and ends. */
  lemma UndisturbedPush(s: System, a: nat)
    requires Ordered(s) && a < |s.actors| && s.actors[a].PushStart? && s.ring.hs == s.ring.hf
    ensures var obj, max := s.actors[a].obj, s.actors[a].max;
      var n := Min(max, s.ring.capacity + s.ring.ts - s.ring.hf);
      && 0 <= n <= |obj|
      && var t := Run(s, Steps(a, if n == 0 then 2 else n + 4));
         && t.actors == s.actors[a := Idle] && t.log == s.log + obj[..n] && t.taken == s.taken
         && SameButSlots(s.ring.(hf := s.ring.hf + n, hs := s.ring.hs + n), t.ring)
  {
    hide Covered, AllApart, AllKnow, Run, Index;
    KnowsOne(s, a);
    var obj, max, head := s.actors[a].obj, s.actors[a].max, s.ring.hf;
    var n := Min(max, s.ring.capacity + s.ring.ts - head);
    var k := if n == 0 then 2 else n + 4;
    Unroll(s, a, k);
    var s1 := Step(s, a, Go);
    assert s1 == With(s, a, PushHead(obj, max, head));
    Unroll(s1, a, k - 1);
    var s2 := Step(s1, a, Go);
    if n == 0 {
      assert s2.actors == s.actors[a := Idle] && s.log + obj[..n] == s.log;
      RunNothing(s2, a);
    } else {
      assert s2 == With(s1, a, PushTry(obj, max, head, n));
      Unroll(s2, a, k - 2);
      var s3 := Step(s2, a, Go);
      ReservesBatch(s2, a);
      assert s3.ring == s.ring.(hf := head + n) && s3.taken == s.taken;
      CopiesIn(s3, a, n, 0);
      assert s3.actors[a := Idle] == s.actors[a := Idle];
    }
  }

  /** The copying and the commit of a pop whose batch is next in order. */
  lemma {:induction false} CopiesOut(s: System, a: nat, n: int, i: nat)
    requires Ordered(s) && a < |s.actors| && s.actors[a].PopCopy?
    requires s.actors[a].tail == s.ring.ts && s.actors[a].n == n && |s.actors[a].got| == i <= n
    ensures var t := Run(s, Steps(a, n - i + 1));
      && t.actors == s.actors[a := Idle] && t.log == s.log && |t.taken| == |s.taken| + n
      && t.ring == s.ring.(ts := s.ring.ts + n)
    decreases n - i
  {
    hide Ordered, Run, Index;
    KnowsOne(s, a);
    StepIndex(s, a);
    Unroll(s, a, n - i + 1);
    if i == n {
      RunNothing(Step(s, a, Go), a);
    } else {
      CopiesOut(Step(s, a, Go), a, n, i + 1);
    }
  }

  /** A pop that runs alone from its start, while no other reservation of a pop is open,
      takes exactly as many of the committed values as it asks for, or all of them, and
      ends. */
  lemma UndisturbedPop(s: System, a: nat)
    requires Ordered(s) && a < |s.actors| && s.actors[a].PopStart? && s.ring.ts == s.ring.tf
    ensures var n := Min(s.actors[a].max, s.ring.hs - s.ring.tf);
      && 0 <= n
      && var t := Run(s, Steps(a, if n == 0 then 2 else n + 4));
         && t.actors == s.actors[a := Idle] && t.log == s.log && |t.taken| == |s.taken| + n
         && t.ring == s.ring.(tf := s.ring.tf + n, ts := s.ring.ts + n)
  {
    hide Covered, AllApart, AllKnow, Run, Index;
    KnowsOne(s, a);
    var max, tail := s.actors[a].max, s.ring.tf;
    var n := Min(max, s.ring.hs - tail);
    var k := if n == 0 then 2 else n + 4;
    Unroll(s, a, k);
    var s1 := Step(s, a, Go);
    assert s1 == With(s, a, PopTail(max, tail));
    Unroll(s1, a, k - 1);
    var s2 := Step(s1, a, Go);
    if n == 0 {
      assert s2.actors == s.actors[a := Idle];
      RunNothing(s2, a);
    } else {
      assert s2 == With(s1, a, PopTry(max, tail, n));
      Unroll(s2, a, k - 2);
      var s3 := Step(s2, a, Go);
      ReservesBatch(s2, a);
      assert s3.ring == s.ring.(tf := tail + n) && s3.taken == s.taken;
      CopiesOut(s3, a, n, 0);
      assert s3.actors[a := Idle] == s.actors[a := Idle];
    }
  }

  lemma {:induction false} StepsCompose(s: System, x: seq<(nat, Event)>, y: seq<(nat, Event)>)
    requires Ordered(s)
    ensures Ordered(Run(s, x)) && Run(s, x + y) == Run(Run(s, x), y)
    decreases |x|
  {
    hide Ordered, Step;
    RunKeepsOrder(s, x);
    if x == [] {
      assert x + y == y;
    } else {
      StepKeepsOrder(s, x[0].0, x[0].1);
      assert (x + y)[1..] == x[1..] + y;
      StepsCompose(Step(s, x[0].0, x[0].1), x[1..], y);
    }
  }

  /** After any run on a documented ring, a pop that is not disturbed takes exactly the
      oldest values that are committed. */
  lemma PopsOldest(s: System, schedule: seq<(nat, Event)>, a: nat)
    requires Fresh(s) && Documented(s.ring) && Ordered(s)
    requires var r := Run(s, schedule); a < |r.actors| && r.actors[a].PopStart? && r.ring.ts == r.ring.tf
    ensures var r := Run(s, schedule);
      var n := Min(r.actors[a].max, r.ring.hs - r.ring.tf);
      && Ordered(r) && 0 <= r.ring.ts <= r.ring.ts + n <= |r.log|
      && Run(r, Steps(a, if n == 0 then 2 else n + 4)).taken == r.taken + r.log[r.ring.ts..r.ring.ts + n]
  {
    hide Run, Steps, Covered, AllApart, AllKnow;
    var r := Run(s, schedule);
    RunKeepsOrder(s, schedule);
    RingIsFifo(s, schedule);
    UndisturbedPop(r, a);
    var n := Min(r.actors[a].max, r.ring.hs - r.ring.tf);
    var more := Steps(a, if n == 0 then 2 else n + 4);
    StepsCompose(s, schedule, more);
    RingIsFifo(s, schedule + more);
    var t := Run(r, more);
    assert t.ring.ts == r.ring.ts + n && t.log == r.log;
    assert r.log[..r.ring.ts] + r.log[r.ring.ts..r.ring.ts + n] == r.log[..r.ring.ts + n];
  }
}
