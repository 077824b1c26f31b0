/**
 A cursor that is a full turn old.  A pusher reads head.first and sleeps while others push
 and pop 2^32 times; its compare-and-swap then finds the same word, and a value that has
 not been popped is overwritten.
 */
module RingStale {
  import opened Reversal
  import opened RingWords
  import opened RingProtocol
  import opened RingFifo
  import opened RingWrap

  /** The smallest ring: one slot. */
  function One(hf: nat, hs: nat, tf: nat, ts: nat, x: Value): Ring {
    Ring(1, 0, 1, hf, hs, tf, ts, [x])
  }

  lemma OneSlot(from: nat)
    ensures Index(1, 0, from, 1, 0) == 0
  {
    AndBound(from, 0);
  }

  function WordNext(s: System, e: (nat, Event)): System {
    WordStep(s, e.0, e.1)
  }

  /** A run through given states. */
  lemma {:induction false} WordPath(states: seq<System>, events: seq<(nat, Event)>)
    requires |states| == |events| + 1
    requires forall i | 0 <= i < |events| :: WordNext(states[i], events[i]) == states[i + 1]
    ensures WordRun(states[0], events) == states[|events|]
    decreases |events|
  {
    hide WordStep;
    if events != [] {
      assert WordNext(states[0], events[0]) == states[1];
      forall i | 0 <= i < |events| - 1 ensures WordNext(states[1..][i], events[1..][i]) == states[1..][i + 1] {
        assert WordNext(states[i + 1], events[i + 1]) == states[i + 2];
      }
      WordPath(states[1..], events[1..]);
    }
  }

  lemma {:induction false} WordRunAppend(s: System, a: seq<(nat, Event)>, b: seq<(nat, Event)>)
    ensures WordRun(s, a + b) == WordRun(WordRun(s, a), b)
    decreases |a|
  {
    hide WordStep;
    if a == [] {
      assert a + b == b;
    } else {
      assert (a + b)[1..] == a[1..] + b;
      WordRunAppend(WordStep(s, a[0].0, a[0].1), a[1..], b);
    }
  }

  // ------------------------------------------------------- the first actor's part

  function Pushes(v: Value): seq<(nat, Event)> {
    [(0, BeginPush([v], 1)), (0, Go), (0, Go), (0, Go), (0, Go), (0, Go)]
  }

  function Pops(): seq<(nat, Event)> {
    [(0, BeginPop(1)), (0, Go), (0, Go), (0, Go), (0, Go), (0, Go)]
  }

  /** The first actor pushes a value into the empty ring. */
  lemma PushesOne(h: nat, x: Value, v: Value, y: Actor, log: seq<Value>)
    requires h < TURN
    ensures WordRun(System(One(h, h, h, h, x), [Idle, y], log, log), Pushes(v))
         == System(One(Wrap(h + 1), Wrap(h + 1), h, h, v), [Idle, y], log + [v], log)
  {
    var k, more := Wrap(h + 1), log + [v];
    var r := One(h, h, h, h, x);
    assert [v][..1] == [v];
    OneSlot(h);
    WordPath([System(r, [Idle, y], log, log), System(r, [PushStart([v], 1), y], log, log),
              System(r, [PushHead([v], 1, h), y], log, log), System(r, [PushTry([v], 1, h, 1), y], log, log),
              System(One(k, h, h, h, x), [PushCopy([v], h, 1, 0), y], more, log),
              System(One(k, h, h, h, v), [PushCopy([v], h, 1, 1), y], more, log),
              System(One(k, k, h, h, v), [Idle, y], more, log)], Pushes(v));
  }

  /** The first actor pops one value. */
  lemma PopsOne(k: nat, h: nat, v: Value, y: Actor, log: seq<Value>, taken: seq<Value>)
    requires h < TURN && k < TURN && Wrap(k - h) > 0
    ensures WordRun(System(One(k, k, h, h, v), [Idle, y], log, taken), Pops())
         == System(One(k, k, Wrap(h + 1), Wrap(h + 1), v), [Idle, y], log, taken + [v])
  {
    var j := Wrap(h + 1);
    var r := One(k, k, h, h, v);
    TakesOne(k, h, v, y, log, taken);
    WordPath([System(r, [Idle, y], log, taken), System(r, [PopStart(1), y], log, taken),
              System(r, [PopTail(1, h), y], log, taken), System(r, [PopTry(1, h, 1), y], log, taken),
              System(One(k, k, j, h, v), [PopCopy(h, 1, []), y], log, taken)], Pops()[..4]);
    WordRunAppend(System(r, [Idle, y], log, taken), Pops()[..4], [(0, Go), (0, Go)]);
    assert Pops()[..4] + [(0, Go), (0, Go)] == Pops();
  }

  lemma TakesOne(k: nat, h: nat, v: Value, y: Actor, log: seq<Value>, taken: seq<Value>)
    requires h < TURN && k < TURN
    ensures WordRun(System(One(k, k, Wrap(h + 1), h, v), [PopCopy(h, 1, []), y], log, taken), [(0, Go), (0, Go)])
         == System(One(k, k, Wrap(h + 1), Wrap(h + 1), v), [Idle, y], log, taken + [v])
  {
    var j := Wrap(h + 1);
    assert [] + [v] == [v];
    OneSlot(h);
    WordPath([System(One(k, k, j, h, v), [PopCopy(h, 1, []), y], log, taken),
              System(One(k, k, j, h, v), [PopCopy(h, 1, [v]), y], log, taken),
              System(One(k, k, j, j, v), [Idle, y], log, taken + [v])], [(0, Go), (0, Go)]);
  }

  /** `n` values pushed and popped one by one. */
  lemma {:induction false} Turns(n: nat, x: Value, y: Actor) returns (schedule: seq<(nat, Event)>, log: seq<Value>)
    requires n < TURN
    ensures |log| == n
    ensures WordRun(System(One(0, 0, 0, 0, x), [Idle, y], [], []), schedule)
         == System(One(n, n, n, n, x), [Idle, y], log, log)
    decreases n
  {
    hide WordStep, Pushes, Pops;
    schedule, log := [], [];
    if n > 0 {
      var before;
      before, log := Turns(n - 1, x, y);
      PushesOne(n - 1, x, x, y, log);
      PopsOne(n, n - 1, x, y, log + [x], log);
      WordRunAppend(System(One(0, 0, 0, 0, x), [Idle, y], [], []), before, Pushes(x));
      WordRunAppend(System(One(0, 0, 0, 0, x), [Idle, y], [], []), before + Pushes(x), Pops());
      schedule, log := (before + Pushes(x)) + Pops(), log + [x];
    }
  }

  // -------------------------------------------------------------- the sleeper

  function Asleep(): seq<(nat, Event)> {
    [(1, Go), (1, Go), (1, Go)]
  }

  /** The second actor reads head.first and the free room, and stops before its
      compare-and-swap. */
  lemma FallsAsleep(x: Value, b: Value)
    ensures WordRun(System(One(0, 0, 0, 0, x), [Idle, Idle], [], []), [(1, BeginPush([b], 1)), (1, Go), (1, Go)])
         == System(One(0, 0, 0, 0, x), [Idle, PushTry([b], 1, 0, 1)], [], [])
  {
    var r := One(0, 0, 0, 0, x);
    WordPath([System(r, [Idle, Idle], [], []), System(r, [Idle, PushStart([b], 1)], [], []),
              System(r, [Idle, PushHead([b], 1, 0)], [], []), System(r, [Idle, PushTry([b], 1, 0, 1)], [], [])],
             [(1, BeginPush([b], 1)), (1, Go), (1, Go)]);
  }

  /** When it wakes, the word is the same, though the ring is full. */
  lemma WakesUp(v: Value, b: Value, log: seq<Value>, taken: seq<Value>)
    ensures WordRun(System(One(0, 0, TURN - 1, TURN - 1, v), [Idle, PushTry([b], 1, 0, 1)], log, taken), Asleep())
         == System(One(1, 1, TURN - 1, TURN - 1, b), [Idle, Idle], log + [b], taken)
  {
    var h := TURN - 1;
    assert [b][..1] == [b];
    OneSlot(0);
    WordPath([System(One(0, 0, h, h, v), [Idle, PushTry([b], 1, 0, 1)], log, taken),
              System(One(1, 0, h, h, v), [Idle, PushCopy([b], 0, 1, 0)], log + [b], taken),
              System(One(1, 0, h, h, b), [Idle, PushCopy([b], 0, 1, 1)], log + [b], taken),
              System(One(1, 1, h, h, b), [Idle, Idle], log + [b], taken)], Asleep());
  }

  /** On a documented ring with 32-bit cursors, a run in which a value that has not been
      popped is overwritten, so that a pop takes another one in its place. */
  lemma StaleCursor(x: Value, b: Value) returns (s: System, schedule: seq<(nat, Event)>)
    requires x != b
    ensures Fresh(s) && Documented(s.ring) && Small(s.ring) && Ordered(s)
    ensures !(WordRun(s, schedule).taken <= WordRun(s, schedule).log)
    ensures !AllRecent(s, schedule)
  {
    hide WordRun, WordStep, Pushes, Pops, Asleep, AllRecent;
    s := System(One(0, 0, 0, 0, x), [Idle, Idle], [], []);
    assert s.ring.size == Pow2(0);
    FreshOrdered(s);
    var sleep := [(1, BeginPush([b], 1)), (1, Go), (1, Go)];
    var y := PushTry([b], 1, 0, 1);
    FallsAsleep(x, b);
    var turns, log := Turns(TURN - 1, x, y);
    WordRunAppend(s, sleep, turns);
    PushesOne(TURN - 1, x, x, y, log);
    WordRunAppend(s, sleep + turns, Pushes(x));
    WakesUp(x, b, log + [x], log);
    WordRunAppend(s, sleep + turns + Pushes(x), Asleep());
    PopsOne(1, TURN - 1, b, Idle, log + [x] + [b], log);
    schedule := sleep + turns + Pushes(x) + Asleep() + Pops();
    WordRunAppend(s, sleep + turns + Pushes(x) + Asleep(), Pops());
    var t := WordRun(s, schedule);
    assert t.taken[|log|] == b && t.log[|log|] == x;
    if AllRecent(s, schedule) {
      WordRingIsFifo(s, schedule);
    }
  }
}
