/**
 What a tick of the wheel does to the pending timers, against the obvious model: a bag of
 timers from which each tick takes out the ones that are due and puts back the repeating
 ones with their next expiry.
 */
module TimerTicks {
  import opened Bags
  import opened TimerWheel

  /** The timers that a list of fired ones puts back. */
  ghost function Rearmed(fired: seq<Timer>): multiset<Timer> {
    if fired == [] then multiset{}
    else (if fired[0].repeat then multiset{Rearm(fired[0])} else multiset{}) + Rearmed(fired[1..])
  }

  // ------------------------------------------------------------ conservation

  lemma SettledFits(w: Wheel, b: nat)
    requires Firing(w, b) && (forall t | t in w.slots[b] :: t.expires == w.now + 255)
    ensures Inv(w)
  {
    hide Fits;
    forall t | t in w.slots[b] ensures Fits(w.now, b, t.expires) {
      TurnAhead(w.now, b);
    }
  }

  lemma TurnAhead(now: nat, b: nat)
    requires now > 0 && b == (now - 1) % 256
    ensures Fits(now, b, now + 255)
  {
  }

  /** Firing a list loses no timer and makes none up, and ends in a well-formed wheel. */
  lemma {:induction false} FireConserves(w: Wheel, b: nat)
    requires Firing(w, b)
    ensures var (w', fired) := Fire(w, b);
      && Inv(w') && w'.now == w.now
      && Pending(w') + multiset(fired) == Pending(w) + Rearmed(fired)
    decreases CountAt(w.slots[b], w.now - 1), |w.slots[b]|
  {
    hide Fits, FireOne, NextTimer, Pending, Inv, CountAt;
    var c := w.slots[b];
    if c == [] {
      SettledFits(w, b);
    } else {
      FireOneKeeps(w, b);
      var w1 := FireOne(w, b);
      if |c| == 1 {
        LastLeft(w, b);
        SettledFits(w1, b);
        assert Rearmed([c[0]]) == (if c[0].repeat then multiset{Rearm(c[0])} else multiset{});
      } else {
        FireOneShrinks(w, b);
        FireConserves(w1, b);
        var (w', fired) := Fire(w1, b);
        Chain(Pending(w'), multiset(fired), Rearmed(fired), Pending(w1), multiset{c[0]},
              if c[0].repeat then multiset{Rearm(c[0])} else multiset{}, Pending(w));
        assert ([c[0]] + fired)[1..] == fired;
        assert multiset([c[0]] + fired) == multiset{c[0]} + multiset(fired);
      }
    }
  }

  lemma Chain<T>(p': multiset<T>, f: multiset<T>, rf: multiset<T>, p1: multiset<T>, t: multiset<T>, rt: multiset<T>,
                 p: multiset<T>)
    requires p' + f == p1 + rf && p1 + t == p + rt
    ensures p' + (t + f) == p + (rt + rf)
  {
    assert p' + (t + f) == (p' + f) + t;
    assert (p1 + rf) + t == (p1 + t) + rf;
    assert (p + rt) + rf == p + (rt + rf);
  }

  /** After the last timer of the list, only that timer can be back in it. */
  lemma LastLeft(w: Wheel, b: nat)
    requires Firing(w, b) && |w.slots[b]| == 1
    ensures forall t | t in FireOne(w, b).slots[b] :: t.expires == w.now + 255
  {
    hide Fits, NextTimer, Level, Units;
    FirstTimer(w, b);
    var t := w.slots[b][0];
    if t.repeat {
      PutFits(w.now, Rearm(t).expires);
      BackInTime(w.now, b, Rearm(t).expires);
    }
  }

  lemma TickConserves(w: Wheel)
    requires Inv(w)
    ensures var (w', fired) := Tick(w);
      && Inv(w') && w'.now == w.now + 1
      && Pending(w') + multiset(fired) == Pending(w) + Rearmed(fired)
  {
    hide Inv, Cascaded, Firing, Fire;
    CascadedKeeps(w);
    TickFires(w);
    FireConserves(Cascaded(w).(now := w.now + 1), w.now % 256);
  }

  // -------------------------------------------------------------- exactness

  /** The list that a tick walks. */
  ghost function DueList(w: Wheel): seq<Timer>
    requires Inv(w)
  {
    CascadedKeeps(w);
    Cascaded(w).slots[w.now % 256]
  }

  /** The list of a tick holds exactly the pending timers that expire now. */
  lemma DueExactly(w: Wheel, t: Timer)
    requires Inv(w)
    ensures multiset(DueList(w))[t] == if t.expires == w.now then Pending(w)[t] else 0
  {
    hide Fits, Cascaded;
    CascadedKeeps(w);
    var slots, b := Cascaded(w).slots, w.now % 256;
    BagUpdate(slots, b, []);
    assert (Bag(slots[b := []]) + multiset(slots[b]))[t] == (Bag(slots) + multiset{})[t];
    if t in slots[b] {
      DueNow(w.now, t.expires);
    }
    if t.expires == w.now && t in Bag(slots[b := []]) {
      BagMember(slots[b := []], t);
      var i :| 0 <= i < LISTS && t in slots[b := []][i];
      DueElsewhere(w.now, i);
      NotCurrent(Cascaded(w), b, i, t);
    }
  }

  /** A timer that expires now fits only lists whose unit begins now. */
  lemma DueElsewhere(now: nat, i: nat)
    requires Fits(now, i, now)
    ensures exists k | 0 <= k <= 4 :: BeginsNow(k, now, i)
  {
    var k := if i < 256 then 0 else 1 + (i - 256) / 64;
    assert BeginsNow(k, now, i);
  }

  predicate FullTurn(t: Timer) {
    t.repeat && t.interval == 256
  }

  /** No repeating timer with an interval of exactly one turn of tv1 has another timer
      behind it in the list. */
  predicate NoRevisit(c: seq<Timer>) {
    forall i | 0 <= i < |c| - 1 :: !FullTurn(c[i])
  }

  /** Walking a list of due timers visits each of them exactly once, in order, unless one
      of them is re-linked behind the walk; then the walk is longer than the list. */
  lemma {:induction false} FireExact(w: Wheel, b: nat)
    requires Firing(w, b) && forall t | t in w.slots[b] :: t.expires == w.now - 1
    ensures var c, fired := w.slots[b], Fire(w, b).1;
      && (NoRevisit(c) ==> fired == c)
      && (!NoRevisit(c) ==> |fired| > |c|)
    decreases |w.slots[b]|
  {
    hide Fire, Firing, FireOne, FullTurn;
    FiringSize(w, b);
    FireUnfolds(w, b);
    var c := w.slots[b];
    if |c| > 1 {
      HeadMoves(w, b);
      var w1 := FireOne(w, b);
      FiringSize(w1, b);
      if FullTurn(c[0]) {
        WalkAtLeast(w1, b);
      } else {
        FireExact(w1, b);
        TailRevisits(c);
      }
    }
  }

  /** One visit of the walk. */
  lemma FireUnfolds(w: Wheel, b: nat)
    requires Firing(w, b)
    ensures b < |w.slots|
    ensures var c := w.slots[b];
      && (c == [] ==> Fire(w, b).1 == [])
      && (|c| == 1 ==> Fire(w, b).1 == [c[0]])
      && (|c| > 1 ==> Firing(FireOne(w, b), b) && FireOne(w, b).now == w.now
                      && Fire(w, b).1 == [c[0]] + Fire(FireOne(w, b), b).1)
  {
    hide Firing, FireOne, CountAt;
    FiringSize(w, b);
    if w.slots[b] != [] {
      FireOneKeeps(w, b);
      FireOneShrinks(w, b);
    }
  }

  lemma TailRevisits(c: seq<Timer>)
    requires |c| > 1 && !FullTurn(c[0])
    ensures NoRevisit(c) <==> NoRevisit(c[1..])
    ensures c == [c[0]] + c[1..]
  {
    hide FullTurn;
    if !NoRevisit(c) {
      var i :| 0 <= i < |c| - 1 && FullTurn(c[i]);
      assert FullTurn(c[1..][i - 1]);
    }
    if NoRevisit(c) {
      forall i | 0 <= i < |c[1..]| - 1 ensures !FullTurn(c[1..][i]) {
        assert c[1..][i] == c[i + 1];
      }
    }
  }

  /** Firing the head of the list takes it out, or moves it behind the others. */
  lemma HeadMoves(w: Wheel, b: nat)
    requires Firing(w, b) && w.slots[b] != [] && w.slots[b][0].expires == w.now - 1
    ensures var c := w.slots[b];
      FireOne(w, b).slots[b] == if FullTurn(c[0]) then c[1..] + [Rearm(c[0])] else c[1..]
  {
    hide Fits, NextTimer, Level, Units;
    FirstTimer(w, b);
    var t := w.slots[b][0];
    if t.repeat {
      PutFits(w.now, Rearm(t).expires);
      BackInTime(w.now, b, Rearm(t).expires);
    }
  }

  /** A walk visits at least as many timers as the list holds. */
  lemma {:induction false} WalkAtLeast(w: Wheel, b: nat)
    requires Firing(w, b)
    ensures |Fire(w, b).1| >= |w.slots[b]|
    decreases CountAt(w.slots[b], w.now - 1), |w.slots[b]|
  {
    hide Fits, NextTimer, CountAt, FireOne;
    if |w.slots[b]| > 1 {
      FireOneKeeps(w, b);
      FireOneShrinks(w, b);
      TailStays(w, b);
      WalkAtLeast(FireOne(w, b), b);
    }
  }

  lemma TailStays(w: Wheel, b: nat)
    requires Firing(w, b) && w.slots[b] != []
    ensures |FireOne(w, b).slots[b]| >= |w.slots[b]| - 1
  {
    hide Fits, NextTimer, Level, Units;
    FirstTimer(w, b);
  }

  /** The timers that the obvious model fires at this tick. */
  ghost predicate FiresDue(w: Wheel, fired: seq<Timer>) {
    forall t :: multiset(fired)[t] == if t.expires == w.now then Pending(w)[t] else 0
  }

  /** A tick fires every due timer exactly once, and nothing else, exactly when no due
      timer is re-linked behind the walk. */
  lemma TickExact(w: Wheel)
    requires Inv(w)
    ensures FiresDue(w, Tick(w).1) <==> NoRevisit(DueList(w))
  {
    hide Inv, Pending, NoRevisit, DueList;
    TickWalks(w);
    var c, fired := DueList(w), Tick(w).1;
    forall t: Timer ensures multiset(c)[t] == if t.expires == w.now then Pending(w)[t] else 0 {
      DueExactly(w, t);
    }
    if FiresDue(w, fired) {
      assert multiset(fired) == multiset(c);
      assert |multiset(fired)| == |fired| && |multiset(c)| == |c|;
    }
  }

  /** The walk of a tick over the timers that are due. */
  lemma TickWalks(w: Wheel)
    requires Inv(w)
    ensures var c, fired := DueList(w), Tick(w).1;
      && (NoRevisit(c) ==> fired == c)
      && (!NoRevisit(c) ==> |fired| > |c|)
  {
    hide Inv, Cascaded, Pending, NoRevisit, Fire, Firing;
    CascadedKeeps(w);
    TickFires(w);
    InvSize(Cascaded(w));
    var c := DueList(w);
    forall t | t in c ensures t.expires == w.now {
      DueExactly(w, t);
      assert multiset(c)[t] > 0;
    }
    FireExact(Cascaded(w).(now := w.now + 1), w.now % 256);
  }
}
