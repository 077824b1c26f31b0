/**
 A pending timer is on one list, at one place.  Every operation on the wheel keeps this,
 cascades and firings included, so it holds in every state of every run.
 */
module TimerOnce {
  import opened Bags
  import opened TimerWheel
  import opened TimerTicks
  import opened TimerRuns

  // ------------------------------------------------------------------ places

  /** No two places of the wheel have a timer of the same id. */
  ghost predicate OnePlace(slots: seq<seq<Timer>>) {
    forall b, i, x, y | 0 <= b < |slots| && 0 <= i < |slots[b]| && 0 <= x < |slots| && 0 <= y < |slots[x]| ::
      slots[b][i].id == slots[x][y].id ==> b == x && i == y
  }

  /** Pending once, as a bag, is being at one place of one list. */
  lemma OnceIsOnePlace(w: Wheel)
    ensures Once(Pending(w)) <==> OnePlace(w.slots)
  {
    if Once(Pending(w)) {
      forall b, i, x, y | 0 <= b < |w.slots| && 0 <= i < |w.slots[b]| && 0 <= x < |w.slots| && 0 <= y < |w.slots[x]|
        && w.slots[b][i].id == w.slots[x][y].id
        ensures b == x && i == y
      {
        SamePlace(w.slots, b, i, x, y);
      }
    }
    if OnePlace(w.slots) {
      forall t, u | t in Pending(w) && u in Pending(w) && t.id == u.id ensures t == u && Pending(w)[t] == 1 {
        BagMember(w.slots, t);
        BagMember(w.slots, u);
        var b :| 0 <= b < |w.slots| && t in w.slots[b];
        var i :| 0 <= i < |w.slots[b]| && w.slots[b][i] == t;
        var x :| 0 <= x < |w.slots| && u in w.slots[x];
        var y :| 0 <= y < |w.slots[x]| && w.slots[x][y] == u;
        CountedOnce(w.slots, b, i);
      }
    }
  }

  lemma SamePlace(slots: seq<seq<Timer>>, b: nat, i: nat, x: nat, y: nat)
    requires Once(Bag(slots)) && b < |slots| && i < |slots[b]| && x < |slots| && y < |slots[x]|
    requires slots[b][i].id == slots[x][y].id
    ensures b == x && i == y
  {
    var t := slots[b][i];
    ChainInBag(slots, b);
    ChainInBag(slots, x);
    assert t in multiset(slots[b]) && slots[x][y] in multiset(slots[x]);
    assert slots[x][y] == t && Bag(slots)[t] == 1;
    if b != x {
      OnTwoLists(slots, b, x, t);
    } else if i != y {
      CountedTwice(slots[b], i, y);
    }
  }

  lemma OnTwoLists(slots: seq<seq<Timer>>, b: nat, x: nat, t: Timer)
    requires b < |slots| && x < |slots| && b != x && t in slots[b] && t in slots[x]
    ensures Bag(slots)[t] >= 2
  {
    BagUpdate(slots, b, []);
    ChainInBag(slots[b := []], x);
    assert (Bag(slots[b := []]) + multiset(slots[b]))[t] == Bag(slots)[t];
    assert t in multiset(slots[b]) && t in multiset(slots[x]);
  }

  lemma CountedTwice(c: seq<Timer>, i: nat, y: nat)
    requires i < |c| && y < |c| && i != y && c[i] == c[y]
    ensures multiset(c)[c[i]] >= 2
  {
    var k := if i < y then y else i;
    assert c == c[..k] + c[k..];
    assert c[i] in multiset(c[..k]) && c[i] in multiset(c[k..]) by {
      assert c[k..][0] == c[i] && c[..k][if i < y then i else y] == c[i];
    }
  }

  lemma CountedOnce(slots: seq<seq<Timer>>, b: nat, i: nat)
    requires OnePlace(slots) && b < |slots| && i < |slots[b]|
    ensures Bag(slots)[slots[b][i]] == 1
  {
    var c, t := slots[b], slots[b][i];
    assert c == c[..i] + [t] + c[i + 1..];
    assert t !in c[..i] && t !in c[i + 1..];
    assert multiset(c)[t] == multiset(c[..i])[t] + 1 + multiset(c[i + 1..])[t];
    BagUpdate(slots, b, []);
    BagMember(slots[b := []], t);
    assert (Bag(slots[b := []]) + multiset(c))[t] == Bag(slots)[t];
  }

  // ---------------------------------------------------------------- one tick

  /** Exchanging a timer for one of its id, or taking it out, doubles no timer. */
  lemma ExchangedOnce(p: multiset<Timer>, p': multiset<Timer>, t: Timer, u: multiset<Timer>, id: nat)
    requires OnceOf(p, id) && t in p && p' + multiset{t} == p + u
    requires u == multiset{} || exists v :: u == multiset{v} && v.id == t.id
    ensures OnceOf(p', id)
  {
    forall v: Timer ensures p'[v] + multiset{t}[v] == p[v] + u[v] {
      assert (p' + multiset{t})[v] == (p + u)[v];
    }
  }

  lemma FireOneOnce(w: Wheel, b: nat, id: nat)
    requires Firing(w, b) && w.slots[b] != [] && OnceOf(Pending(w), id)
    ensures OnceOf(Pending(FireOne(w, b)), id)
  {
    hide Firing, FireOne, OnceOf, Pending;
    FiringSize(w, b);
    var t := w.slots[b][0];
    FireOneKeeps(w, b);
    FirstPending(w, b);
    ExchangedOnce(Pending(w), Pending(FireOne(w, b)), t, if t.repeat then multiset{Rearm(t)} else multiset{}, id);
  }

  lemma FirstPending(w: Wheel, b: nat)
    requires b < |w.slots| && w.slots[b] != []
    ensures w.slots[b][0] in Pending(w)
  {
    ChainInBag(w.slots, b);
    assert w.slots[b][0] in multiset(w.slots[b]);
  }

  lemma {:induction false} FireOnce(w: Wheel, b: nat, id: nat)
    requires Firing(w, b) && OnceOf(Pending(w), id)
    ensures OnceOf(Pending(Fire(w, b).0), id)
    decreases CountAt(w.slots[b], w.now - 1), |w.slots[b]|
  {
    hide Firing, FireOne, CountAt, OnceOf, Pending;
    FiringSize(w, b);
    if w.slots[b] != [] {
      FireOneNext(w, b);
      FireOneOnce(w, b, id);
      if |w.slots[b]| > 1 {
        FireOnce(FireOne(w, b), b, id);
      }
    }
  }

  /** A tick, with its cascades, its firings and the timers it re-arms. */
  lemma TickOnce(w: Wheel, id: nat)
    requires Inv(w) && OnceOf(Pending(w), id)
    ensures OnceOf(Pending(Tick(w).0), id)
  {
    hide Inv, OnceOf, Cascaded, Fire, Firing;
    CascadedKeeps(w);
    TickFires(w);
    FireOnce(Cascaded(w).(now := w.now + 1), w.now % 256, id);
  }

  // -------------------------------------------------------------------- runs

  lemma {:induction false} RunTimersOnce(w: Wheel, jiffies: nat, id: nat)
    requires Inv(w) && OnceOf(Pending(w), id)
    ensures OnceOf(Pending(RunTimers(w, jiffies).0), id)
    decreases jiffies + 1 - w.now
  {
    hide Inv, OnceOf, Tick, Pending;
    if w.now <= jiffies {
      TickConserves(w);
      TickOnce(w, id);
      RunTimersOnce(Tick(w).0, jiffies, id);
    }
  }

  lemma DelOnce(w: Wheel, i: nat, id: nat)
    requires OnceOf(Pending(w), id)
    ensures OnceOf(Pending(Del(w, i)), id) && Gone(Pending(Del(w, i)), i)
  {
    hide Del, Pending;
    forall t: Timer ensures Pending(Del(w, i))[t] == if t.id == i then 0 else Pending(w)[t] {
      DelCounts(w, i, t);
    }
  }

  lemma AddOnce(w: Wheel, t: Timer, id: nat)
    requires |w.slots| == LISTS && w.now <= t.expires + TURN && OnceOf(Pending(w), id)
    ensures OnceOf(Pending(Add(w, t)), id)
  {
    hide Put, NextTimer;
    DelOnce(w, t.id, id);
    PutBag(Del(w, t.id).slots, w.now, Linked(w.now, t));
    assert Pending(Add(w, t)) == Pending(Del(w, t.id)) + multiset{Linked(w.now, t)};
  }

  /** No operation links a timer twice. */
  lemma ApplyOnce(w: Wheel, op: Op, id: nat)
    requires Inv(w) && Allowed(w, op) && OnceOf(Pending(w), id)
    ensures OnceOf(Pending(Apply(w, op).0), id)
  {
    hide OnceOf, Add, Del, RunTimers, Pending;
    InvSize(w);
    match op
    case Start(t) => AddOnce(w, t, id);
    case Change(t) =>
      DelOnce(w, t.id, id);
      DelKeeps(w, t.id);
      InvSize(Del(w, t.id));
      AddOnce(Del(w, t.id), t, id);
    case Stop(i) => DelOnce(w, i, id);
    case Advance(jiffies) => RunTimersOnce(w, jiffies, id);
  }

  /** If no id is doubled, all timers stay at one place. */
  lemma StaysOnePlace(w: Wheel, w': Wheel)
    requires OnePlace(w.slots) && forall id :: OnceOf(Pending(w), id) ==> OnceOf(Pending(w'), id)
    ensures OnePlace(w'.slots)
  {
    hide OnePlace, OnceOf, Pending;
    OnceIsOnePlace(w);
    forall t | t in Pending(w') ensures OnceOf(Pending(w'), t.id) {
      NoneOnce(Pending(w), t.id);
    }
    OnceIsOnePlace(w');
  }

  lemma NoneOnce(p: multiset<Timer>, id: nat)
    requires Once(p)
    ensures OnceOf(p, id)
  {
  }

  lemma DelOnePlace(w: Wheel, id: nat)
    requires OnePlace(w.slots)
    ensures OnePlace(Del(w, id).slots)
  {
    hide OnePlace, OnceOf, Pending, Del;
    forall i | OnceOf(Pending(w), i) ensures OnceOf(Pending(Del(w, id)), i) {
      DelOnce(w, id, i);
    }
    StaysOnePlace(w, Del(w, id));
  }

  lemma AddOnePlace(w: Wheel, t: Timer)
    requires |w.slots| == LISTS && w.now <= t.expires + TURN && OnePlace(w.slots)
    ensures OnePlace(Add(w, t).slots)
  {
    hide OnePlace, OnceOf, Pending, Add;
    forall i | OnceOf(Pending(w), i) ensures OnceOf(Pending(Add(w, t)), i) {
      AddOnce(w, t, i);
    }
    StaysOnePlace(w, Add(w, t));
  }

  /** Every operation keeps each pending timer at one place of one list. */
  lemma ApplyOnePlace(w: Wheel, op: Op)
    requires Inv(w) && Allowed(w, op) && OnePlace(w.slots)
    ensures Inv(Apply(w, op).0) && OnePlace(Apply(w, op).0.slots)
  {
    hide Inv, OnePlace, OnceOf, Pending, Apply;
    ApplyKeeps(w, op);
    forall id | OnceOf(Pending(w), id) ensures OnceOf(Pending(Apply(w, op).0), id) {
      ApplyOnce(w, op, id);
    }
    StaysOnePlace(w, Apply(w, op).0);
  }

  /** In every state of every run each pending timer is at exactly one place of one list. */
  lemma {:induction false} RunOnePlace(w: Wheel, ops: seq<Op>)
    requires Inv(w) && AllAllowed(w, ops) && OnePlace(w.slots)
    ensures Inv(Run(w, ops).0) && OnePlace(Run(w, ops).0.slots)
    decreases |ops|
  {
    hide Inv, OnePlace, Apply;
    if ops != [] {
      ApplyOnePlace(w, ops[0]);
      RunOnePlace(Apply(w, ops[0]).0, ops[1..]);
    }
  }
}
