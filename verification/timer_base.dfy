/**
 The timing wheel as an object.  Its lists are changed in place; each method does what the
 function of the same name in `TimerWheel` does to the value of the wheel.
 */
module TimerBases {
  import opened Bags
  import opened TimerWheel
  import opened TimerTicks
  import opened TimerRuns
  import opened TimerOnce

  class TimerBase {
    var timer_jiffies: nat
    var next_timer: nat
    const vec: array<seq<Timer>>

    ghost function View(): Wheel
      reads this, vec
    {
      Wheel(timer_jiffies, next_timer, vec[..])
    }

    /** No timer is linked at two places. */
    ghost predicate Tidy()
      reads this, vec
    {
      vec.Length == LISTS && OnePlace(vec[..])
    }

    /** And every timer is in a list that its expiry selects. */
    ghost predicate Valid()
      reads this, vec
    {
      Tidy() && Inv(View())
    }

    constructor (jiffies: nat)
      ensures fresh(vec) && Valid() && Pending(View()) == multiset{}
      ensures timer_jiffies == jiffies && next_timer == MAX_TVAL
    {
      timer_jiffies, next_timer := jiffies, MAX_TVAL;
      vec := new seq<Timer>[LISTS](_ => []);
      new;
      BagOfEmpties(vec[..]);
    }

    // ----------------------------------------------------- earliest expiry

    method GpNextTimer() returns (expires: nat)
      requires vec.Length == LISTS
      ensures expires == NextTimer(vec[..], timer_jiffies)
    {
      hide SearchRoot, SearchUp, SearchLevel;
      var jiffies := timer_jiffies;
      var index := jiffies % 256;
      var found, slot;
      found, expires, slot := FirstInRoot(index);
      if found && index != 0 && slot >= index {
        return;
      }
      if index != 0 {
        jiffies := jiffies + 256 - index;
      }
      jiffies := jiffies / 256;
      ghost var goal := SearchUp(vec[..], 1, jiffies, found, expires);
      for level := 1 to 5
        invariant SearchUp(vec[..], level, jiffies, found, expires) == goal
      {
        index := jiffies % 64;
        UpTurn(vec[..], level, jiffies, found, expires);
        found, expires, slot := FirstInLevel(level, index, found, expires);
        if found && index != 0 && slot >= index {
          return;
        }
        if index != 0 {
          jiffies := jiffies + 64 - index;
        }
        jiffies := jiffies / 64;
      }
      UpEnd(vec[..], jiffies, found, expires);
    }

    static lemma UpTurn(slots: seq<seq<Timer>>, k: nat, jiffies: nat, found: bool, best: nat)
      requires |slots| == LISTS && 1 <= k <= 4
      ensures var index := jiffies % 64;
        var (found', best', slot) := SearchLevel(slots, k, index, 0, found, best);
        SearchUp(slots, k, jiffies, found, best) ==
          if found' && index != 0 && slot >= index then best'
          else SearchUp(slots, k + 1, (if index != 0 then jiffies + 64 - index else jiffies) / 64, found', best')
    {
      hide SearchLevel;
    }

    static lemma UpEnd(slots: seq<seq<Timer>>, jiffies: nat, found: bool, best: nat)
      requires |slots| == LISTS
      ensures SearchUp(slots, 5, jiffies, found, best) == best
    {
    }

    method FirstInRoot(index: nat) returns (found: bool, expires: nat, slot: nat)
      requires vec.Length == LISTS && index < 256
      ensures (found, expires, slot) == SearchRoot(vec[..], index, 0)
    {
      slot, found, expires := index, false, MAX_TVAL;
      ghost var j := 0;
      ghost var goal := SearchRoot(vec[..], index, 0);
      while true
        invariant j < 256 && slot == (index + j) % 256 && !found && expires == MAX_TVAL
        invariant SearchRoot(vec[..], index, j) == goal
        decreases 256 - j
      {
        if vec[slot] != [] {
          return true, vec[slot][0].expires, slot;
        }
        NextSlot(index, j, 256);
        slot := (slot + 1) % 256;
        j := j + 1;
        if slot == index {
          return false, MAX_TVAL, 0;
        }
      }
    }

    /** The slot after j steps; the walk is back at `index` after n of them. */
    static lemma NextSlot(index: nat, j: nat, n: nat)
      requires (n == 256 || n == 64) && index < n && j < n
      ensures ((index + j) % n + 1) % n == (index + (j + 1)) % n
      ensures (index + (j + 1)) % n == index <==> j + 1 == n
    {
    }

    method FirstInLevel(k: nat, index: nat, found0: bool, best0: nat) returns (found: bool, best: nat, slot: nat)
      requires vec.Length == LISTS && 1 <= k <= 4 && index < 64
      ensures (found, best, slot) == SearchLevel(vec[..], k, index, 0, found0, best0)
    {
      slot, found, best := index, found0, best0;
      ghost var j := 0;
      ghost var goal := SearchLevel(vec[..], k, index, 0, found0, best0);
      while true
        invariant j < 64 && slot == SlotAfter(index, j) && slot < 64 && found == found0 && best == best0
        invariant SearchLevel(vec[..], k, index, j, found, best) == goal
        decreases 64 - j
      {
        hide List, Least, SearchLevel, SlotAfter;
        LevelTurn(vec[..], k, index, j, found, best);
        var c := vec[List(k, slot)];
        var least := LeastExpiry(c, best);
        if found || c != [] {
          return true, least, slot;
        }
        slot := (slot + 1) % 64;
        j := j + 1;
        if slot == index {
          return found, best, index;
        }
      }
    }

    /** The slot after j steps round a level. */
    static function SlotAfter(index: nat, j: nat): nat {
      (index + j) % 64
    }

    /** One step of that walk. */
    static lemma LevelTurn(slots: seq<seq<Timer>>, k: nat, index: nat, j: nat, found: bool, best: nat)
      requires |slots| == LISTS && 1 <= k <= 4 && index < 64 && j < 64
      ensures var slot := SlotAfter(index, j);
        && List(k, slot) < LISTS
        && (slot + 1) % 64 == SlotAfter(index, j + 1) < 64
        && (SlotAfter(index, j + 1) == index <==> j + 1 == 64)
        && SearchLevel(slots, k, index, j, found, best) ==
           (if found || slots[List(k, slot)] != [] then (true, Least(slots[List(k, slot)], best), slot)
            else SearchLevel(slots, k, index, j + 1, found, best))
      ensures SearchLevel(slots, k, index, 64, found, best) == (found, best, index)
    {
      hide Least;
      NextSlot(index, j, 64);
      ListBound(k, (index + j) % 64);
    }

    static method LeastExpiry(c: seq<Timer>, best0: nat) returns (best: nat)
      ensures best == Least(c, best0)
    {
      best := best0;
      var i := 0;
      while i < |c|
        invariant i <= |c| && Least(c[i..], best) == Least(c, best0)
      {
        if c[i].expires < best {
          best := c[i].expires;
        }
        assert c[i..][1..] == c[i + 1..];
        i := i + 1;
      }
    }

    // ----------------------------------------------------------- operations

    /** The distance wraps around below zero. */
    method InternalAdd(t: Timer)
      requires vec.Length == LISTS && timer_jiffies <= t.expires + TURN
      modifies this`next_timer, vec
      ensures View() == TimerWheel.InternalAdd(old(View()), Linked(timer_jiffies, t))
    {
      hide NextTimer;
      var idx := t.expires - timer_jiffies;
      if idx < 0 {
        idx := idx + TURN;
      }
      var i;
      if idx < 0x100 {
        i := t.expires % 256;
      } else if idx < 0x4000 {
        i := 256 + t.expires / 0x100 % 64;
      } else if idx < 0x10_0000 {
        i := 320 + t.expires / 0x4000 % 64;
      } else if idx < 0x400_0000 {
        i := 384 + t.expires / 0x10_0000 % 64;
      } else {
        i := 448 + t.expires / 0x400_0000 % 64;
      }
      ghost var u := Linked(timer_jiffies, t);
      SameWord(timer_jiffies, t, i);
      vec[i] := vec[i] + [Linked(timer_jiffies, t)];
      assert vec[..] == Put(old(vec[..]), timer_jiffies, u);
      next_timer := GpNextTimer();
    }

    /** The shifts and masks see only the word of an expiry, so a late timer goes to the list
        of the tick a full turn later. */
    static lemma SameWord(now: nat, t: Timer, i: nat)
      requires now <= t.expires + TURN
      requires var idx := if t.expires < now then t.expires - now + TURN else t.expires - now;
        i == if idx < 0x100 then t.expires % 256
             else if idx < 0x4000 then 256 + t.expires / 0x100 % 64
             else if idx < 0x10_0000 then 320 + t.expires / 0x4000 % 64
             else if idx < 0x400_0000 then 384 + t.expires / 0x10_0000 % 64
             else 448 + t.expires / 0x400_0000 % 64
      ensures i == ListFor(now, Linked(now, t).expires) < LISTS
    {
      var e := Linked(now, t).expires;
      var k := Level(e - now);
      assert i == List(k, Units(k, t.expires)) < LISTS;
      TurnLater(k, t.expires);
      hide List, Units, Level;
    }

    static lemma TurnLater(k: nat, e: nat)
      requires k <= 4
      ensures List(k, Units(k, e + TURN)) == List(k, Units(k, e))
    {
      TurnLater0(e);
      TurnLater1(e);
      TurnLater2(e);
      TurnLater3(e);
      TurnLater4(e);
    }

    static lemma TurnLater0(e: nat)
      ensures (e + 0x1_0000_0000) % 256 == e % 256
    {
    }

    static lemma TurnLater1(e: nat)
      ensures (e + 0x1_0000_0000) / 0x100 % 64 == e / 0x100 % 64
    {
      assert (e + 0x1_0000_0000) / 0x100 == e / 0x100 + 0x100_0000;
    }

    static lemma TurnLater2(e: nat)
      ensures (e + 0x1_0000_0000) / 0x4000 % 64 == e / 0x4000 % 64
    {
      assert (e + 0x1_0000_0000) / 0x4000 == e / 0x4000 + 0x4_0000;
    }

    static lemma TurnLater3(e: nat)
      ensures (e + 0x1_0000_0000) / 0x10_0000 % 64 == e / 0x10_0000 % 64
    {
      assert (e + 0x1_0000_0000) / 0x10_0000 == e / 0x10_0000 + 0x1000;
    }

    static lemma TurnLater4(e: nat)
      ensures (e + 0x1_0000_0000) / 0x400_0000 % 64 == e / 0x400_0000 % 64
    {
      assert (e + 0x1_0000_0000) / 0x400_0000 == e / 0x400_0000 + 0x40;
    }

    /** gp_list_node_remove: the timer leaves the list it is on, if any. */
    method Del(id: nat)
      requires Tidy()
      modifies vec
      ensures View() == TimerWheel.Del(old(View()), id)
      ensures Tidy() && (old(Inv(View())) ==> Valid())
    {
      hide Inv, OnePlace;
      DelOnePlace(View(), id);
      if Inv(View()) {
        DelKeeps(View(), id);
      }
      Unlink(id);
    }

    /** The search for the timer, and its removal. */
    method Unlink(id: nat)
      requires OnePlace(vec[..])
      modifies vec
      ensures View() == TimerWheel.Del(old(View()), id)
    {
      for b := 0 to vec.Length
        invariant vec[..] == old(vec[..]) && forall x, y | 0 <= x < b && 0 <= y < |vec[x]| :: vec[x][y].id != id
      {
        for i := 0 to |vec[b]|
          invariant forall y | 0 <= y < i :: vec[b][y].id != id
        {
          if vec[b][i].id == id {
            assert OnePlace(vec[..]) && vec[..][b][i].id == id;
            Unlinked(vec[..], id, b, i);
            vec[b] := vec[b][..i] + vec[b][i + 1..];
            return;
          }
        }
      }
      NotLinked(vec[..], id);
    }

    static lemma {:induction false} WithoutNone(c: seq<Timer>, id: nat)
      requires forall y | 0 <= y < |c| :: c[y].id != id
      ensures Without(c, id) == c
    {
      if c != [] {
        WithoutNone(c[1..], id);
      }
    }

    static lemma {:induction false} WithoutOne(c: seq<Timer>, id: nat, i: nat)
      requires i < |c| && c[i].id == id && forall y | 0 <= y < |c| && y != i :: c[y].id != id
      ensures Without(c, id) == c[..i] + c[i + 1..]
    {
      if i == 0 {
        WithoutNone(c[1..], id);
      } else {
        assert c[0].id != id;
        WithoutOne(c[1..], id, i - 1);
        assert c[..i] + c[i + 1..] == [c[0]] + (c[1..][..i - 1] + c[1..][i..]);
      }
    }

    static lemma NotLinked(slots: seq<seq<Timer>>, id: nat)
      requires forall b, y | 0 <= b < |slots| && 0 <= y < |slots[b]| :: slots[b][y].id != id
      ensures seq(|slots|, b requires 0 <= b < |slots| => Without(slots[b], id)) == slots
    {
      forall b | 0 <= b < |slots| ensures Without(slots[b], id) == slots[b] {
        WithoutNone(slots[b], id);
      }
    }

    static lemma Unlinked(slots: seq<seq<Timer>>, id: nat, b: nat, i: nat)
      requires OnePlace(slots) && b < |slots| && i < |slots[b]| && slots[b][i].id == id
      ensures seq(|slots|, x requires 0 <= x < |slots| => Without(slots[x], id))
           == slots[b := slots[b][..i] + slots[b][i + 1..]]
    {
      forall x | 0 <= x < |slots|
        ensures Without(slots[x], id) == if x == b then slots[b][..i] + slots[b][i + 1..] else slots[x]
      {
        if x == b {
          WithoutOne(slots[b], id, i);
        } else {
          WithoutNone(slots[x], id);
        }
      }
    }

    method Add(t: Timer)
      requires Tidy() && timer_jiffies <= t.expires + TURN
      modifies this`next_timer, vec
      ensures View() == TimerWheel.Add(old(View()), t)
      ensures Tidy() && (old(Inv(View())) && Allowed(old(View()), Start(t)) ==> Valid())
    {
      hide TimerWheel.InternalAdd, TimerWheel.Del, OnePlace, Inv;
      AddOnePlace(View(), t);
      if Inv(View()) && Allowed(View(), Start(t)) {
        AddKeeps(View(), t);
      }
      Del(t.id);
      InternalAdd(t);
    }

    method Mod(t: Timer)
      requires Tidy() && timer_jiffies <= t.expires + TURN
      modifies this`next_timer, vec
      ensures View() == TimerWheel.Add(TimerWheel.Del(old(View()), t.id), t)
      ensures Tidy() && (old(Inv(View())) && Allowed(old(View()), Change(t)) ==> Valid())
    {
      hide TimerWheel.Add, TimerWheel.Del, OnePlace, Inv;
      Del(t.id);
      Add(t);
    }

    /** Re-link every timer of one list of a higher level. */
    method Cascade(ghost k: nat, b: nat)
      requires Inv(View()) && 1 <= k <= 4 && b < LISTS && BeginsNow(k, timer_jiffies, b)
      modifies this`next_timer, vec
      ensures Ahead(old(timer_jiffies), old(vec[b])) && View() == TimerWheel.Cascade(old(View()), b)
    {
      hide Fits, NextTimer, BeginsNow, ListFor;
      ghost var w := View();
      CascadeKeeps(w, k, b);
      var todo := vec[b];
      if todo == [] {
        return;
      }
      vec[b] := [];
      assert vec[..] == w.slots[b := []];
      ghost var goal := PutAll(vec[..], w.now, todo);
      while todo != []
        invariant vec.Length == LISTS && timer_jiffies == w.now && Ahead(w.now, todo)
        invariant PutAll(vec[..], w.now, todo) == goal
        invariant todo == [] ==> next_timer == NextTimer(vec[..], w.now)
        decreases |todo|
      {
        assert todo[0] in todo && forall t | t in todo[1..] :: t in todo;
        InternalAdd(todo[0]);
        todo := todo[1..];
      }
    }

    /** Fire the timers of one list of tv1. */
    method Fire(b: nat) returns (fired: seq<Timer>)
      requires Firing(View(), b)
      modifies this`next_timer, vec
      ensures Firing(old(View()), b) && (View(), fired) == TimerWheel.Fire(old(View()), b)
    {
      hide Fits, FireOne, CountAt, NextTimer;
      fired := [];
      ghost var goal := TimerWheel.Fire(View(), b);
      Empty(goal);
      var more := vec[b] != [];
      while more
        invariant vec.Length == LISTS && Firing(View(), b) && (more ==> vec[b] != [])
        invariant more ==> goal == Logged(fired, TimerWheel.Fire(View(), b))
        invariant !more ==> goal == (View(), fired)
        decreases more, CountAt(vec[b], timer_jiffies - 1), |vec[b]|
      {
        hide Firing, TimerWheel.Fire, Logged;
        FireTurn(View(), b, fired);
        var t := vec[b][0];
        more := |vec[b]| > 1;
        FireHead(b);
        fired := fired + [t];
      }
    }

    static ghost function Logged(fired: seq<Timer>, r: (Wheel, seq<Timer>)): (Wheel, seq<Timer>) {
      (r.0, fired + r.1)
    }

    static lemma Empty(r: (Wheel, seq<Timer>))
      ensures Logged([], r) == r
    {
      assert [] + r.1 == r.1;
    }

    static predicate Fewer(c': seq<Timer>, c: seq<Timer>, e: nat) {
      CountAt(c', e) < CountAt(c, e) || (CountAt(c', e) == CountAt(c, e) && |c'| < |c|)
    }

    /** One turn of the walk. */
    static lemma FireTurn(w: Wheel, b: nat, fired: seq<Timer>)
      requires Firing(w, b) && w.slots[b] != []
      ensures b < LISTS && LISTS == |w.slots|
      ensures var c, w' := w.slots[b], FireOne(w, b);
        && Firing(w', b) && w'.now == w.now
        && Logged(fired, TimerWheel.Fire(w, b)) ==
           (if |c| == 1 then (w', fired + [c[0]]) else Logged(fired + [c[0]], TimerWheel.Fire(w', b)))
        && (|c| > 1 ==> w'.slots[b] != [] && Fewer(w'.slots[b], c, w.now - 1))
    {
      hide Fits, NextTimer, FireOne, CountAt;
      FireOneKeeps(w, b);
      FireOneShrinks(w, b);
      TailStays(w, b);
      if |w.slots[b]| > 1 {
        var rest := TimerWheel.Fire(FireOne(w, b), b).1;
        assert fired + ([w.slots[b][0]] + rest) == (fired + [w.slots[b][0]]) + rest;
      }
    }

    method FireHead(b: nat)
      requires Firing(View(), b) && vec.Length == LISTS && b < LISTS && vec[b] != []
      modifies this`next_timer, vec
      ensures View() == FireOne(old(View()), b)
    {
      hide NextTimer, Fits;
      FirstTimer(View(), b);
      ghost var w := View();
      var t := vec[b][0];
      vec[b] := vec[b][1..];
      assert vec[..] == w.slots[b := w.slots[b][1..]];
      if t.repeat {
        InternalAdd(t.(expires := t.expires + t.interval));
      }
      next_timer := GpNextTimer();
    }

    /** All ticks up to `jiffies`; the log has the firings in order. */
    method RunTimers(jiffies: nat) returns (log: seq<LogEntry>)
      requires Valid()
      modifies this, vec
      ensures Valid() && (View(), log) == TimerRuns.RunTimers(old(View()), jiffies)
    {
      hide SlotsFit, Tick, OnePlace;
      ApplyOnePlace(View(), Advance(jiffies));
      log := [];
      ghost var goal := TimerRuns.RunTimers(View(), jiffies);
      assert [] + goal.1 == goal.1;
      while timer_jiffies <= jiffies
        invariant Inv(View()) && goal == After(log, TimerRuns.RunTimers(View(), jiffies))
        decreases jiffies + 1 - timer_jiffies
      {
        hide Inv, TimerRuns.RunTimers, After;
        RunTurn(View(), jiffies, log);
        var now := timer_jiffies;
        var fired := Turn();
        log := log + Stamp(now, fired);
      }
      assert log + [] == log;
    }

    static ghost function After(log: seq<LogEntry>, r: (Wheel, seq<LogEntry>)): (Wheel, seq<LogEntry>) {
      (r.0, log + r.1)
    }

    static lemma RunTurn(w: Wheel, jiffies: nat, log: seq<LogEntry>)
      requires Inv(w) && w.now <= jiffies
      ensures var (w', fired) := Tick(w);
        && Inv(w') && w'.now == w.now + 1
        && After(log, TimerRuns.RunTimers(w, jiffies))
           == After(log + Stamp(w.now, fired), TimerRuns.RunTimers(w', jiffies))
    {
      hide Inv, Tick;
      TickConserves(w);
      var (w', fired) := Tick(w);
      var rest := TimerRuns.RunTimers(w', jiffies).1;
      assert log + (Stamp(w.now, fired) + rest) == (log + Stamp(w.now, fired)) + rest;
    }

    /** One tick. */
    method Turn() returns (fired: seq<Timer>)
      requires Inv(View())
      modifies this, vec
      ensures Inv(old(View())) && (View(), fired) == Tick(old(View()))
    {
      hide SlotsFit, CascadeFrom, TimerWheel.Fire, Firing;
      TickFires(View());
      var index := timer_jiffies % 256;
      if index == 0 {
        CascadeLevels();
      }
      timer_jiffies := timer_jiffies + 1;
      fired := Fire(index);
    }

    /** tv2, and each next level when the slot of the one before is 0. */
    method CascadeLevels()
      requires Inv(View()) && timer_jiffies % 256 == 0
      modifies this`next_timer, vec
      ensures Inv(old(View())) && View() == CascadeFrom(old(View()), 1)
    {
      hide SlotsFit, Units, CascadeFrom, TimerWheel.Cascade, Current;
      ghost var w := View();
      var k, more := 1, true;
      while more
        invariant 1 <= k <= 4 && timer_jiffies == w.now && Inv(View())
        invariant more ==> w.now % Grain(k) == 0 && CascadeFrom(View(), k) == CascadeFrom(w, 1)
        invariant !more ==> View() == CascadeFrom(w, 1)
        decreases more, 5 - k
      {
        more := CascadeLevel(k);
        if more {
          k := k + 1;
        }
      }
    }

    /** Cascade the current slot of level `k`; true when the next level is to follow. */
    method CascadeLevel(k: nat) returns (more: bool)
      requires Inv(View()) && 1 <= k <= 4 && timer_jiffies % Grain(k) == 0
      modifies this`next_timer, vec
      ensures Inv(old(View())) && Inv(View())
      ensures more ==> k < 4 && timer_jiffies % Grain(k + 1) == 0
      ensures CascadeFrom(old(View()), k) == if more then CascadeFrom(View(), k + 1) else View()
    {
      hide SlotsFit, Units, Grain, CascadeFrom, TimerWheel.Cascade, Current;
      var i := timer_jiffies / Grain(k) % 64;
      Shift(k, timer_jiffies);
      ListBound(k, Units(k, timer_jiffies));
      CascadeTurn(View(), k);
      Cascade(k, 256 + 64 * (k - 1) + i);
      more := i == 0 && k < 4;
    }

    /** INDEX as shifting and masking. */
    static lemma Shift(k: nat, now: nat)
      requires 1 <= k <= 4
      ensures now / Grain(k) % 64 == Current(k, now)
      ensures 256 + 64 * (k - 1) + Current(k, now) == List(k, Units(k, now))
    {
    }

    static lemma CascadeTurn(w: Wheel, k: nat)
      requires Inv(w) && 1 <= k <= 4 && w.now % Grain(k) == 0
      ensures var b := List(k, Units(k, w.now));
        && b < LISTS && |w.slots| == LISTS && Ahead(w.now, w.slots[b]) && BeginsNow(k, w.now, b)
        && Inv(TimerWheel.Cascade(w, b))
        && (Current(k, w.now) == 0 && k < 4 ==> w.now % Grain(k + 1) == 0)
        && CascadeFrom(w, k) ==
           if Current(k, w.now) == 0 && k < 4 then CascadeFrom(TimerWheel.Cascade(w, b), k + 1)
           else TimerWheel.Cascade(w, b)
    {
      hide SlotsFit, Units, TimerWheel.Cascade, Current;
      ListBound(k, Units(k, w.now));
      InvSize(w);
      CascadeKeeps(w, k, List(k, Units(k, w.now)));
      Aligned(k, w.now);
    }
  }
}
