/**
 The ring with 32-bit cursors, which wrap around.  It takes the same steps as the one with
 natural numbers as long as no actor acts on a cursor that is a full turn of 2^32 old.
 */
module RingWrap {
  import opened Reversal
  import opened RingWords
  import opened RingProtocol
  import opened RingFifo

  const TURN := 0x1_0000_0000

  /** A number as a 32-bit word. */
  function Wrap(x: int): (w: nat)
    ensures w < TURN
  {
    x % TURN
  }

  function WrapActor(x: Actor): Actor {
    match x
    case PushHead(obj, max, head) => PushHead(obj, max, Wrap(head))
    case PushTry(obj, max, head, n) => PushTry(obj, max, Wrap(head), n)
    case PushCopy(obj, head, n, i) => PushCopy(obj, Wrap(head), n, i)
    case PopTail(max, tail) => PopTail(max, Wrap(tail))
    case PopTry(max, tail, n) => PopTry(max, Wrap(tail), n)
    case PopCopy(tail, n, got) => PopCopy(Wrap(tail), n, got)
    case _ => x
  }

  function WrapActors(actors: seq<Actor>): (r: seq<Actor>)
    ensures |r| == |actors|
  {
    seq(|actors|, i requires 0 <= i < |actors| => WrapActor(actors[i]))
  }

  function WrapRing(r: Ring): Ring {
    r.(hf := Wrap(r.hf), hs := Wrap(r.hs), tf := Wrap(r.tf), ts := Wrap(r.ts))
  }

  /** The state as the words of the program show it. */
  function Wrapped(s: System): System {
    s.(ring := WrapRing(s.ring), actors := WrapActors(s.actors))
  }

  // --------------------------------------------------------- steps on words

  function WordPush(s: System, a: nat): System
    requires a < |s.actors|
  {
    var r := s.ring;
    match s.actors[a]
    case PushStart(obj, max) => With(s, a, PushHead(obj, max, r.hf))
    case PushHead(obj, max, head) =>
      var free := Wrap(r.capacity + r.ts - head);
      var n := if max > free then free else max;
      With(s, a, if n == 0 then Idle else PushTry(obj, max, head, n))
    case PushTry(obj, max, head, n) =>
      if r.hf != head then With(s, a, PushStart(obj, max))
      else if 0 <= n <= |obj| then
        With(s.(ring := r.(hf := Wrap(head + n)), log := s.log + obj[..n]), a, PushCopy(obj, head, n, 0))
      else s
    case PushCopy(obj, head, n, i) =>
      var j := Index(r.size, r.mask, head, n, i);
      if i < n then
        if i < |obj| && 0 <= j < |r.slots| then
          With(s.(ring := r.(slots := r.slots[j := obj[i]])), a, PushCopy(obj, head, n, i + 1))
        else s
      else if r.hs != head then s
      else With(s.(ring := r.(hs := Wrap(head + n))), a, Idle)
    case _ => s
  }

  function WordPop(s: System, a: nat): System
    requires a < |s.actors|
  {
    var r := s.ring;
    match s.actors[a]
    case PopStart(max) => With(s, a, PopTail(max, r.tf))
    case PopTail(max, tail) =>
      var entries := Wrap(r.hs - tail);
      var n := if max > entries then entries else max;
      With(s, a, if n == 0 then Idle else PopTry(max, tail, n))
    case PopTry(max, tail, n) =>
      if r.tf != tail then With(s, a, PopStart(max))
      else With(s.(ring := r.(tf := Wrap(tail + n))), a, PopCopy(tail, n, []))
    case PopCopy(tail, n, got) =>
      var j := Index(r.size, r.mask, tail, n, |got|);
      if |got| < n then
        if 0 <= j < |r.slots| then With(s, a, PopCopy(tail, n, got + [r.slots[j]])) else s
      else if r.ts != tail then s
      else With(s.(ring := r.(ts := Wrap(tail + n)), taken := s.taken + got), a, Idle)
    case _ => s
  }

  function WordStep(s: System, a: nat, e: Event): System {
    if a >= |s.actors| then s
    else match e
      case BeginPush(obj, max) =>
        if s.actors[a].Idle? && max <= |obj| then With(s, a, PushStart(obj, max)) else s
      case BeginPop(max) => if s.actors[a].Idle? then With(s, a, PopStart(max)) else s
      case Go => if Pushing(s.actors[a]) then WordPush(s, a) else WordPop(s, a)
  }

  function WordRun(s: System, schedule: seq<(nat, Event)>): System
    decreases |schedule|
  {
    if schedule == [] then s else WordRun(WordStep(s, schedule[0].0, schedule[0].1), schedule[1..])
  }

  // ----------------------------------------------------------------- agreement

  /** The cursor that an actor has read is less than a full turn old when it is used. */
  predicate Recent(r: Ring, x: Actor) {
    match x
    case PushHead(_, _, head) => r.capacity + r.ts - head < TURN
    case PushTry(_, _, head, _) => r.hf - head < TURN
    case PopTail(_, tail) => r.hs - tail < TURN
    case PopTry(_, tail, _) => r.tf - tail < TURN
    case _ => true
  }

  /** Sizes that are 32-bit words. */
  predicate Small(r: Ring) {
    r.capacity < TURN && r.mask < TURN
  }

  lemma WrapDistinct(x: nat, y: nat)
    requires x <= y < x + TURN
    ensures Wrap(x) == Wrap(y) <==> x == y
  {
  }

  lemma WrapSum(x: int, n: int)
    ensures Wrap(Wrap(x) + n) == Wrap(x + n)
  {
  }

  lemma WrapDifference(c: nat, x: nat, y: nat)
    requires 0 <= c + x - y < TURN
    ensures Wrap(c + Wrap(x) - Wrap(y)) == c + x - y
  {
    WrapSum(x, c - Wrap(y));
    WrapSum(0 - y, c + x);
    NegatedWrap(c + x, y);
  }

  lemma NegatedWrap(c: int, y: int)
    ensures Wrap(c - Wrap(y)) == Wrap(c - y)
  {
  }

  lemma {:induction false} AndLow(h: nat, m: nat, k: nat)
    requires m < Pow2(k)
    ensures And(h % Pow2(k), m) == And(h, m)
    decreases k
  {
    if k == 0 || h == 0 {
      AndBound(h, m);
      AndBound(h % Pow2(k), m);
      ZeroRemainder(Pow2(k));
    } else {
      AndLow(h / 2, m / 2, k - 1);
      HalfRemainder(h, Pow2(k - 1));
      AndStep(h, m);
      AndStep(h % Pow2(k), m);
    }
  }

  lemma ZeroRemainder(p: nat)
    requires p > 0
    ensures 0 % p == 0
  {
  }

  lemma AndStep(a: nat, b: nat)
    ensures And(a, b) == a % 2 * (b % 2) + 2 * And(a / 2, b / 2)
  {
  }

  lemma HalfRemainder(h: nat, p: nat)
    requires p > 0
    ensures h % (2 * p) % 2 == h % 2 && h % (2 * p) / 2 == h / 2 % p
  {
    var q, r := h / 2 / p, h / 2 % p;
    assert h / 2 == p * q + r;
    assert h == 2 * p * q + (2 * r + h % 2);
    RemainderIs(h, 2 * p, q, 2 * r + h % 2);
  }

  lemma TurnIsPower()
    ensures Pow2(32) == TURN
  {
    assert Pow2(4) == 16;
    PowAdd(4, 4);
    PowAdd(8, 8);
    PowAdd(16, 16);
  }

  lemma WrapIndex(size: nat, mask: nat, from: nat, n: int, i: nat)
    requires mask < TURN
    ensures Index(size, mask, Wrap(from), n, i) == Index(size, mask, from, n, i)
  {
    hide And, Pow2;
    TurnIsPower();
    AndLow(from, mask, 32);
  }

  lemma WrapWith(s: System, a: nat, x: Actor)
    requires a < |s.actors|
    ensures Wrapped(With(s, a, x)) == With(Wrapped(s), a, WrapActor(x))
  {
    assert WrapActors(s.actors[a := x]) == WrapActors(s.actors)[a := WrapActor(x)];
  }

  lemma PushAgrees(s: System, a: nat)
    requires Ordered(s) && Small(s.ring) && a < |s.actors| && Recent(s.ring, s.actors[a])
    ensures WordPush(Wrapped(s), a) == Wrapped(StepPush(s, a))
  {
    hide Covered, AllApart, AllKnow, Index, Wrap, WrapActors;
    var r := s.ring;
    KnowsOne(s, a);
    StepIndex(s, a);
    ActorAt(s, a);
    match s.actors[a]
    case PushStart(obj, max) => WrapWith(s, a, PushHead(obj, max, r.hf));
    case PushHead(obj, max, head) =>
      WrapDifference(r.capacity, r.ts, head);
      var free := r.capacity + r.ts - head;
      var n := if max > free then free else max;
      WrapWith(s, a, if n == 0 then Idle else PushTry(obj, max, head, n));
    case PushTry(obj, max, head, n) =>
      WrapDistinct(head, r.hf);
      WrapSum(head, n);
      WrapWith(s, a, PushStart(obj, max));
      WrapWith(s.(ring := r.(hf := head + n), log := s.log + obj[..n]), a, PushCopy(obj, head, n, 0));
    case PushCopy(obj, head, n, i) =>
      WrapIndex(r.size, r.mask, head, n, i);
      WrapDistinct(r.hs, head);
      WrapSum(head, n);
      if i < n {
        var j := Index(r.size, r.mask, head, n, i);
        WrapWith(s.(ring := r.(slots := r.slots[j := obj[i]])), a, PushCopy(obj, head, n, i + 1));
      } else {
        WrapWith(s.(ring := r.(hs := head + n)), a, Idle);
      }
    case _ =>
  }

  lemma ActorAt(s: System, a: nat)
    requires a < |s.actors|
    ensures |Wrapped(s).actors| == |s.actors| && Wrapped(s).actors[a] == WrapActor(s.actors[a])
  {
  }

  lemma PopAgrees(s: System, a: nat)
    requires Ordered(s) && Small(s.ring) && a < |s.actors| && Recent(s.ring, s.actors[a])
    ensures WordPop(Wrapped(s), a) == Wrapped(StepPop(s, a))
  {
    hide Covered, AllApart, AllKnow, Index, Wrap, WrapActors;
    var r := s.ring;
    KnowsOne(s, a);
    StepIndex(s, a);
    ActorAt(s, a);
    match s.actors[a]
    case PopStart(max) => WrapWith(s, a, PopTail(max, r.tf));
    case PopTail(max, tail) =>
      WrapDifference(0, r.hs, tail);
      var entries := r.hs - tail;
      var n := if max > entries then entries else max;
      WrapWith(s, a, if n == 0 then Idle else PopTry(max, tail, n));
    case PopTry(max, tail, n) =>
      WrapDistinct(tail, r.tf);
      WrapSum(tail, n);
      WrapWith(s, a, PopStart(max));
      WrapWith(s.(ring := r.(tf := tail + n)), a, PopCopy(tail, n, []));
    case PopCopy(tail, n, got) =>
      WrapIndex(r.size, r.mask, tail, n, |got|);
      WrapDistinct(r.ts, tail);
      WrapSum(tail, n);
      if |got| < n {
        var j := Index(r.size, r.mask, tail, n, |got|);
        WrapWith(s, a, PopCopy(tail, n, got + [r.slots[j]]));
      } else {
        WrapWith(s.(ring := r.(ts := tail + n), taken := s.taken + got), a, Idle);
      }
    case _ =>
  }

  /** One event on words is the one on numbers. */
  lemma StepAgrees(s: System, a: nat, e: Event)
    requires Ordered(s) && Small(s.ring) && (a < |s.actors| ==> Recent(s.ring, s.actors[a]))
    ensures WordStep(Wrapped(s), a, e) == Wrapped(Step(s, a, e))
  {
    hide Ordered, WordPush, WordPop, StepPush, StepPop, WrapRing, WrapActors, Recent;
    if a < |s.actors| {
      ActorAt(s, a);
      match e
      case BeginPush(obj, max) => WrapWith(s, a, PushStart(obj, max));
      case BeginPop(max) => WrapWith(s, a, PopStart(max));
      case Go => if Pushing(s.actors[a]) { PushAgrees(s, a); } else { PopAgrees(s, a); }
    }
  }

  /** Along a run no actor acts on a cursor that is a full turn old. */
  ghost predicate AllRecent(s: System, schedule: seq<(nat, Event)>)
    requires Ordered(s)
    decreases |schedule|
  {
    hide Ordered, Step;
    schedule != [] ==>
      var (a, e) := schedule[0];
      && (a < |s.actors| ==> Recent(s.ring, s.actors[a]))
      && (StepKeepsOrder(s, a, e); AllRecent(Step(s, a, e), schedule[1..]))
  }

  lemma {:induction false} RunAgrees(s: System, schedule: seq<(nat, Event)>)
    requires Ordered(s) && Small(s.ring) && AllRecent(s, schedule)
    ensures WordRun(Wrapped(s), schedule) == Wrapped(Run(s, schedule))
    decreases |schedule|
  {
    hide Ordered, Step, WordStep, Wrapped, Recent;
    if schedule != [] {
      var (a, e) := schedule[0];
      StepKeepsOrder(s, a, e);
      StepAgrees(s, a, e);
      StepSizes(s, a, e);
      RunAgrees(Step(s, a, e), schedule[1..]);
    }
  }

  /** First in, first out with 32-bit cursors: on a documented ring, in every run in which no
      cursor is used that is a full turn old, what pops have taken is the beginning of what
      pushes have reserved, and the four cursors, as words, span at most the capacity. */
  lemma WordRingIsFifo(s: System, schedule: seq<(nat, Event)>)
    requires Fresh(s) && Documented(s.ring) && Small(s.ring) && Ordered(s) && AllRecent(s, schedule)
    ensures var t := WordRun(s, schedule);
      && t.taken <= t.log && Wrap(|t.taken|) == t.ring.ts && Wrap(|t.log|) == t.ring.hf
      && Wrap(t.ring.tf - t.ring.ts) <= Wrap(t.ring.hs - t.ring.ts) <= Wrap(t.ring.hf - t.ring.ts) <= t.ring.capacity
  {
    hide Run, WordRun, AllRecent, Step, Covered, AllApart, AllKnow, Wrap;
    RingIsFifo(s, schedule);
    RunKeepsOrder(s, schedule);
    RunAgrees(s, schedule);
    RunSizes(s, schedule);
    FreshWrapped(s);
    var r := Run(s, schedule).ring;
    WrapDifference(0, r.tf, r.ts);
    WrapDifference(0, r.hs, r.ts);
    WrapDifference(0, r.hf, r.ts);
  }

  lemma FreshWrapped(s: System)
    requires Fresh(s)
    ensures Wrapped(s) == s
  {
    assert WrapActors(s.actors) == s.actors;
  }
}
