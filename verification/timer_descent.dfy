/**
 How often a timer is moved.  Every cascade takes a timer to a strictly lower level, so
 over any run a timer is moved at most four times between being added and firing, and a
 repeating one at most four times again before each further firing.
 */
module TimerDescent {
  import opened Bags
  import opened TimerWheel
  import opened TimerTicks
  import opened TimerRuns
  import opened TimerOnce

  function Times(k: nat, m: nat): nat {
    k * m
  }

  /** The level of every occurrence of a timer, added up over the first `n` lists. */
  ghost function Height(slots: seq<seq<Timer>>, t: Timer, n: nat): nat
    requires n <= |slots|
  {
    if n == 0 then 0 else Height(slots, t, n - 1) + Times(LevelOf(n - 1), multiset(slots[n - 1])[t])
  }

  lemma {:induction false} HeightAlike(s: seq<seq<Timer>>, s': seq<seq<Timer>>, t: Timer, n: nat)
    requires n <= |s| == |s'| && forall i | 0 <= i < n :: multiset(s'[i])[t] == multiset(s[i])[t]
    ensures Height(s', t, n) == Height(s, t, n)
  {
    if n > 0 {
      HeightAlike(s, s', t, n - 1);
    }
  }

  lemma {:induction false} HeightUpdate(s: seq<seq<Timer>>, b: nat, c: seq<Timer>, t: Timer, n: nat)
    requires b < n <= |s|
    ensures Height(s[b := c], t, n) + Times(LevelOf(b), multiset(s[b])[t])
         == Height(s, t, n) + Times(LevelOf(b), multiset(c)[t])
  {
    hide Times, LevelOf;
    if b == n - 1 {
      HeightAlike(s, s[b := c], t, n - 1);
    } else {
      HeightUpdate(s, b, c, t, n - 1);
    }
  }

  // --------------------------------------------------------- linking a timer

  /** Linking a timer adds the level of the list it is linked into. */
  lemma PutHeight(slots: seq<seq<Timer>>, now: nat, u: Timer, t: Timer)
    requires |slots| == LISTS && now <= u.expires <= now + MAX_TVAL
    ensures Height(Put(slots, now, u), t, LISTS)
         == Height(slots, t, LISTS) + (if u == t then Level(u.expires - now) else 0)
  {
    hide Level, Units, Height;
    PutFits(now, u.expires);
    LinkedLevel(now, u.expires);
    var b := ListFor(now, u.expires);
    HeightUpdate(slots, b, slots[b] + [u], t, LISTS);
    assert multiset(slots[b] + [u]) == multiset(slots[b]) + multiset{u};
    OneMore(LevelOf(b), multiset(slots[b])[t]);
  }

  lemma LinkedLevel(now: nat, e: nat)
    requires now <= e
    ensures LevelOf(ListFor(now, e)) == Level(e - now) <= 4
  {
  }

  lemma OneMore(k: nat, m: nat)
    ensures Times(k, m + 1) == Times(k, m) + k
  {
  }

  /** Linking timers that are all below level `k` adds less than k for each of them. */
  lemma {:induction false} PutAllHeight(slots: seq<seq<Timer>>, now: nat, c: seq<Timer>, k: nat, t: Timer)
    requires |slots| == LISTS && 1 <= k <= 4
    requires forall u | u in c :: now <= u.expires <= now + MAX_TVAL && Level(u.expires - now) < k
    ensures Height(PutAll(slots, now, c), t, LISTS) + multiset(c)[t]
         <= Height(slots, t, LISTS) + Times(k, multiset(c)[t])
    decreases |c|
  {
    hide Level, Put, Height, Times;
    if c == [] {
      NoneTimes(k);
    } else {
      assert c == [c[0]] + c[1..];
      PutHeight(slots, now, c[0], t);
      PutAllHeight(Put(slots, now, c[0]), now, c[1..], k, t);
      OneMore(k, multiset(c[1..])[t]);
    }
  }

  lemma NoneTimes(k: nat)
    ensures Times(k, 0) == 0
  {
  }

  // --------------------------------------------------------------- cascading

  /** A cascade lowers a timer by at least one level every time it moves it. */
  lemma CascadeDescends(w: Wheel, k: nat, b: nat, t: Timer)
    requires Inv(w) && 1 <= k <= 4 && b < LISTS && BeginsNow(k, w.now, b) && Ahead(w.now, w.slots[b])
    ensures |Cascade(w, b).slots| == LISTS
    ensures Height(Cascade(w, b).slots, t, LISTS) + multiset(w.slots[b])[t] <= Height(w.slots, t, LISTS)
  {
    hide Fits, NextTimer, BeginsNow, Level, Height, Times;
    var c := w.slots[b];
    forall u | u in c ensures w.now <= u.expires <= w.now + MAX_TVAL && Level(u.expires - w.now) < k {
      WithinUnit(w.now, k, b, u.expires);
    }
    AtLevel(w.now, k, b);
    HeightUpdate(w.slots, b, [], t, LISTS);
    NoneTimes(k);
    PutAllHeight(w.slots[b := []], w.now, c, k, t);
  }

  lemma AtLevel(now: nat, k: nat, b: nat)
    requires 1 <= k <= 4 && BeginsNow(k, now, b)
    ensures LevelOf(b) == k
  {
    hide Units, Grain;
  }

  /** How often a chain of cascades moves a timer. */
  ghost function MovesFrom(w: Wheel, k: nat, t: Timer): nat
    requires Inv(w) && 1 <= k <= 4 && w.now % Grain(k) == 0
    decreases 5 - k
  {
    var b := List(k, Units(k, w.now));
    ListBound(k, Units(k, w.now));
    CascadeKeeps(w, k, b);
    Aligned(k, w.now);
    multiset(w.slots[b])[t] + if Current(k, w.now) == 0 && k < 4 then MovesFrom(Cascade(w, b), k + 1, t) else 0
  }

  lemma {:induction false} CascadesDescend(w: Wheel, k: nat, t: Timer)
    requires Inv(w) && 1 <= k <= 4 && w.now % Grain(k) == 0
    ensures |CascadeFrom(w, k).slots| == LISTS
    ensures Height(CascadeFrom(w, k).slots, t, LISTS) + MovesFrom(w, k, t) <= Height(w.slots, t, LISTS)
    decreases 5 - k
  {
    hide SlotsFit, Units, Cascade, Pending, Height;
    InvSize(w);
    var b := List(k, Units(k, w.now));
    ListBound(k, Units(k, w.now));
    CascadeKeeps(w, k, b);
    Aligned(k, w.now);
    CascadeDescends(w, k, b, t);
    if Current(k, w.now) == 0 && k < 4 {
      CascadesDescend(Cascade(w, b), k + 1, t);
    }
  }

  // ------------------------------------------------------------------ firing

  /** Firing other timers leaves the height of a timer as it is. */
  lemma {:induction false} FireLeaves(w: Wheel, b: nat, t: Timer)
    requires Firing(w, b) && Sole(Pending(w), t) && t !in w.slots[b]
    ensures var (w', fired) := Fire(w, b);
      |w'.slots| == LISTS && Sole(Pending(w'), t) && Height(w'.slots, t, LISTS) == Height(w.slots, t, LISTS)
    decreases CountAt(w.slots[b], w.now - 1), |w.slots[b]|
  {
    hide Firing, Pending, FireOne, CountAt, Height;
    FiringSize(w, b);
    if w.slots[b] != [] {
      FireOneKeeps(w, b);
      FiringSize(FireOne(w, b), b);
      FireOneShrinks(w, b);
      FireOneLeaves(w, b, t);
      if |w.slots[b]| > 1 {
        FireLeaves(FireOne(w, b), b, t);
      }
    }
  }

  lemma FireOneLeaves(w: Wheel, b: nat, t: Timer)
    requires Firing(w, b) && Sole(Pending(w), t) && t !in w.slots[b] && w.slots[b] != []
    ensures var w' := FireOne(w, b);
      && |w'.slots| == LISTS && b < LISTS && t !in w'.slots[b] && Sole(Pending(w'), t)
      && Height(w'.slots, t, LISTS) == Height(w.slots, t, LISTS)
  {
    hide Fits, Pending, Height, NextTimer, ListFor;
    FiringSize(w, b);
    FirstTimer(w, b);
    var u := w.slots[b][0];
    ChainInBag(w.slots, b);
    PendingIsBag(w);
    assert u in multiset(w.slots[b]);
    assert u.id != t.id;
    FireOneKeeps(w, b);
    var p, p' := Pending(w), Pending(FireOne(w, b));
    forall v: Timer | v.id == t.id ensures p'[v] == p[v] {
      assert (p' + multiset{u})[v] == (p + (if u.repeat then multiset{Rearm(u)} else multiset{}))[v];
    }
    var rest := w.slots[b := w.slots[b][1..]];
    HeadLeaves(w.slots, b, t);
    if u.repeat {
      PutHeight(rest, w.now, Rearm(u), t);
    }
  }

  lemma PendingIsBag(w: Wheel)
    ensures Pending(w) == Bag(w.slots)
  {
  }

  lemma HeadLeaves(slots: seq<seq<Timer>>, b: nat, t: Timer)
    requires |slots| == LISTS && b < LISTS && slots[b] != [] && slots[b][0] != t
    ensures Height(slots[b := slots[b][1..]], t, LISTS) == Height(slots, t, LISTS)
  {
    hide Height;
    assert slots[b] == [slots[b][0]] + slots[b][1..];
    HeightUpdate(slots, b, slots[b][1..], t, LISTS);
  }

  /** How often a tick moves a timer. */
  ghost function TickMoves(w: Wheel, t: Timer): nat
    requires Inv(w)
  {
    if w.now % 256 == 0 then MovesFrom(w, 1, t) else 0
  }

  /** A timer whose time is over is on no list. */
  lemma NoneLate(w: Wheel, t: Timer)
    requires Inv(w) && t.expires < w.now
    ensures |w.slots| == LISTS && Pending(w)[t] == 0 && Height(w.slots, t, LISTS) == 0
  {
    hide Fits;
    forall b | 0 <= b < LISTS ensures multiset(w.slots[b])[t] == 0 {
      InvAhead(w, b);
    }
    NoHeight(w.slots, t, LISTS);
    BagMember(w.slots, t);
  }

  /** A timer that is not pending is on no list. */
  lemma NoneAbsent(w: Wheel, t: Timer)
    requires |w.slots| == LISTS && Pending(w)[t] == 0
    ensures Height(w.slots, t, LISTS) == 0
  {
    forall b | 0 <= b < LISTS ensures multiset(w.slots[b])[t] == 0 {
      ChainInBag(w.slots, b);
    }
    NoHeight(w.slots, t, LISTS);
  }

  /** A timer pending once has the height of its level. */
  lemma OneHeight(w: Wheel, t: Timer)
    requires Inv(w) && Pending(w)[t] == 1
    ensures |w.slots| == LISTS && Height(w.slots, t, LISTS) <= 4
  {
    hide Fits, Height;
    BagMember(w.slots, t);
    var b :| 0 <= b < LISTS && t in w.slots[b];
    BagUpdate(w.slots, b, []);
    assert (Bag(w.slots[b := []]) + multiset(w.slots[b]))[t] == Bag(w.slots)[t];
    assert t in multiset(w.slots[b]);
    NoneAbsent(w.(slots := w.slots[b := []]), t);
    HeightUpdate(w.slots, b, [], t, LISTS);
    AtMostFour(b);
  }

  lemma AtMostFour(b: nat)
    requires b < LISTS
    ensures Times(LevelOf(b), 1) <= 4 && Times(LevelOf(b), 0) == 0
  {
  }

  /** How far a timer can still fall: from the top before it is linked, from its level
      while it is pending, not at all when its time is over. */
  ghost function ToFall(w: Wheel, t: Timer): nat
    requires Inv(w)
  {
    if t.expires < w.now then 0
    else if Pending(w)[t] == 0 then 4
    else Height(w.slots, t, LISTS)
  }

  /** A tick moves a timer as often as it falls, the cascades of the tick at which it
      fires included. */
  lemma TickDescends(w: Wheel, t: Timer)
    requires Inv(w) && OnceOf(Pending(w), t.id)
    ensures Inv(Tick(w).0) && ToFall(Tick(w).0, t) + TickMoves(w, t) <= ToFall(w, t)
  {
    hide Inv, Pending, Tick, Height, OnceOf, TickMoves;
    TickConserves(w);
    TickOnce(w, t.id);
    CascadedFalls(w, t);
    if t.expires < w.now {
      NoneLate(w, t);
    } else if Pending(w)[t] == 0 {
      NoneAbsent(w, t);
      FromTheTop(Tick(w).0, t);
    } else if w.now < t.expires {
      PendingFalls(w, t);
    }
  }

  /** A timer can fall four levels at most. */
  lemma FromTheTop(w: Wheel, t: Timer)
    requires Inv(w) && OnceOf(Pending(w), t.id)
    ensures ToFall(w, t) <= 4
  {
    hide Inv, Pending, Height;
    if Pending(w)[t] > 0 {
      OneHeight(w, t);
    }
  }

  /** A pending timer that is not due yet. */
  lemma PendingFalls(w: Wheel, t: Timer)
    requires Inv(w) && OnceOf(Pending(w), t.id) && t in Pending(w) && w.now < t.expires
    ensures var w' := Tick(w).0;
      && |w.slots| == |w'.slots| == LISTS && t in Pending(w')
      && Height(w'.slots, t, LISTS) + TickMoves(w, t) <= Height(w.slots, t, LISTS)
  {
    hide Inv, Pending, Sole, OnceOf, Fire, Firing, CascadeFrom, Cascaded, Height, MovesFrom;
    InvSize(w);
    CascadedKeeps(w);
    TickFires(w);
    NotDueYet(w, t);
    CascadedFalls(w, t);
    var w1, b := Cascaded(w).(now := w.now + 1), w.now % 256;
    PendingIsBag(w1);
    PendingIsBag(Cascaded(w));
    OnceIsSole(Pending(w), t);
    FireLeaves(w1, b, t);
    SoleIsIn(Pending(Tick(w).0), t);
  }

  lemma OnceIsSole(p: multiset<Timer>, t: Timer)
    requires OnceOf(p, t.id) && t in p
    ensures Sole(p, t)
  {
  }

  lemma SoleIsIn(p: multiset<Timer>, t: Timer)
    requires Sole(p, t)
    ensures t in p
  {
  }

  lemma CascadedFalls(w: Wheel, t: Timer)
    requires Inv(w)
    ensures |w.slots| == |Cascaded(w).slots| == LISTS
    ensures Height(Cascaded(w).slots, t, LISTS) + TickMoves(w, t) <= Height(w.slots, t, LISTS)
  {
    hide Inv, CascadeFrom, Height, MovesFrom;
    InvSize(w);
    if w.now % 256 == 0 {
      CascadesDescend(w, 1, t);
    }
  }

  lemma NotDueYet(w: Wheel, t: Timer)
    requires Inv(w) && t.expires != w.now
    ensures |Cascaded(w).slots| == LISTS && t !in Cascaded(w).slots[w.now % 256]
  {
    hide Cascaded, Pending;
    CascadedKeeps(w);
    DueExactly(w, t);
    assert multiset(DueList(w))[t] == 0;
  }

  // -------------------------------------------------------------------- runs

  ghost function RunMoves(w: Wheel, jiffies: nat, t: Timer): nat
    requires Inv(w)
    decreases jiffies + 1 - w.now
  {
    if w.now > jiffies then 0
    else
      TickConserves(w);
      TickMoves(w, t) + RunMoves(Tick(w).0, jiffies, t)
  }

  lemma {:induction false} RunDescends(w: Wheel, jiffies: nat, t: Timer)
    requires Inv(w) && OnceOf(Pending(w), t.id)
    ensures var w' := RunTimers(w, jiffies).0;
      Inv(w') && ToFall(w', t) + RunMoves(w, jiffies, t) <= ToFall(w, t)
    decreases jiffies + 1 - w.now
  {
    hide Inv, Pending, Tick, TickMoves, ToFall, OnceOf;
    if w.now <= jiffies {
      TickConserves(w);
      TickOnce(w, t.id);
      TickDescends(w, t);
      RunDescends(Tick(w).0, jiffies, t);
    }
  }

  /** How often a timer is moved by cascades in a run of operations. */
  ghost function Moves(w: Wheel, ops: seq<Op>, t: Timer): nat
    requires Inv(w) && AllAllowed(w, ops)
    decreases |ops|
  {
    hide Inv, Apply;
    if ops == [] then 0
    else
      ApplyKeeps(w, ops[0]);
      (if ops[0].Advance? then RunMoves(w, ops[0].jiffies, t) else 0) + Moves(Apply(w, ops[0]).0, ops[1..], t)
  }

  /** Adding, changing and deleting other timers leaves the height of a timer as it is. */
  lemma OtherLeaves(w: Wheel, op: Op, t: Timer)
    requires Inv(w) && Allowed(w, op) && !About(op, t.id) && !op.Advance?
    ensures Inv(Apply(w, op).0) && ToFall(Apply(w, op).0, t) == ToFall(w, t)
  {
    hide SlotsFit, Pending, Height, Add, Del;
    InvSize(w);
    ApplyKeeps(w, op);
    OtherCounts(w, op, t);
    match op {
      case Start(u) =>
        AddLeaves(w, u, t);
      case Change(u) =>
        DelKeeps(w, u.id);
        DelLeaves(w, u.id, t);
        AddLeaves(Del(w, u.id), u, t);
      case Stop(id) =>
        DelLeaves(w, id, t);
    }
  }

  lemma DelLeaves(w: Wheel, id: nat, t: Timer)
    requires |w.slots| == LISTS && id != t.id
    ensures |Del(w, id).slots| == LISTS && Height(Del(w, id).slots, t, LISTS) == Height(w.slots, t, LISTS)
  {
    hide Height;
    forall i | 0 <= i < LISTS ensures multiset(Del(w, id).slots[i])[t] == multiset(w.slots[i])[t] {
      WithoutCounts(w.slots[i], id, t);
    }
    HeightAlike(w.slots, Del(w, id).slots, t, LISTS);
  }

  lemma AddLeaves(w: Wheel, u: Timer, t: Timer)
    requires |w.slots| == LISTS && u.id != t.id && w.now <= u.expires + TURN && u.expires <= w.now + MAX_TVAL
    ensures |Add(w, u).slots| == LISTS && Height(Add(w, u).slots, t, LISTS) == Height(w.slots, t, LISTS)
  {
    hide Height, NextTimer, Put;
    DelLeaves(w, u.id, t);
    PutHeight(Del(w, u.id).slots, w.now, Linked(w.now, u), t);
  }

  lemma {:induction false} MovesBound(w: Wheel, ops: seq<Op>, t: Timer)
    requires Inv(w) && AllAllowed(w, ops) && OnceOf(Pending(w), t.id)
    requires forall op | op in ops :: !About(op, t.id)
    ensures Inv(Run(w, ops).0) && Moves(w, ops, t) + ToFall(Run(w, ops).0, t) <= ToFall(w, t)
    decreases |ops|
  {
    hide Inv, Pending, OnceOf, RunTimers, About, RunMoves, ToFall, Apply;
    if ops != [] {
      var op := ops[0];
      assert op in ops && forall o | o in ops[1..] :: o in ops;
      ApplyKeeps(w, op);
      ApplyOnce(w, op, t.id);
      if op.Advance? {
        AdvanceIsRun(w, op.jiffies);
        RunDescends(w, op.jiffies, t);
      } else {
        OtherLeaves(w, op, t);
      }
      MovesBound(Apply(w, op).0, ops[1..], t);
    }
  }

  lemma AdvanceIsRun(w: Wheel, jiffies: nat)
    requires Inv(w)
    ensures Apply(w, Advance(jiffies)) == RunTimers(w, jiffies)
  {
  }

  /** Over any run, whatever it adds, changes, deletes and fires besides, an added timer is
      moved before it fires at most as often as the level it was linked at, and in between
      two firings at most four times.  `u` is the timer with any expiry it has in the run. */
  lemma MovedAtMostFourTimes(w: Wheel, t: Timer, ops: seq<Op>, u: Timer)
    requires Inv(w) && Allowed(w, Start(t)) && Inv(Add(w, t)) && u.id == t.id
    requires AllAllowed(Add(w, t), ops) && forall op | op in ops :: !About(op, t.id)
    ensures Moves(Add(w, t), ops, u) <= 4
    ensures u == Linked(w.now, t) ==> Moves(Add(w, t), ops, u) <= Level(u.expires - w.now)
  {
    hide Inv, Pending, Add, AllAllowed, Height, Moves, Run;
    InvSize(w);
    AddedIsSole(w, t);
    FromTheTop(Add(w, t), u);
    AddedHeight(w, t);
    MovesBound(Add(w, t), ops, u);
  }

  lemma AddedHeight(w: Wheel, t: Timer)
    requires |w.slots| == LISTS && w.now <= t.expires + TURN && t.expires <= w.now + MAX_TVAL
    ensures |Add(w, t).slots| == LISTS && Add(w, t).now == w.now
    ensures var u := Linked(w.now, t); Height(Add(w, t).slots, u, LISTS) == Level(u.expires - w.now)
  {
    hide Height, NextTimer, Put, Level;
    var slots, u := Del(w, t.id).slots, Linked(w.now, t);
    forall i | 0 <= i < LISTS ensures multiset(slots[i])[u] == 0 {
      WithoutCounts(w.slots[i], t.id, u);
    }
    NoHeight(slots, u, LISTS);
    PutHeight(slots, w.now, u, u);
  }

  lemma {:induction false} NoHeight(slots: seq<seq<Timer>>, t: Timer, n: nat)
    requires n <= |slots| && forall i | 0 <= i < n :: multiset(slots[i])[t] == 0
    ensures Height(slots, t, n) == 0
  {
    if n > 0 {
      NoHeight(slots, t, n - 1);
      NoneTimes(LevelOf(n - 1));
    }
  }
}
