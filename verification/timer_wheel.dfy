/**
 The hierarchical timing wheel on values.  The 512 lists are kept in one sequence: tv1
 with its 256 slots first, then the 64 slots of each of tv2 to tv5.  Time is a natural
 number, so nothing wraps around.
 */
module TimerWheel {
  import opened Bags

  datatype Timer = Timer(id: nat, expires: nat, interval: nat, repeat: bool)

  datatype Wheel = Wheel(now: nat, next: nat, slots: seq<seq<Timer>>)

  const MAX_TVAL: nat := 0xFFFF_FFFF
  const MAX_INTERVAL: nat := 0x7FFF_FFFF
  const TURN: nat := 0x1_0000_0000
  const LISTS: nat := 512

  // -------------------------------------------------------------- arithmetic

  /** The number of ticks that one slot of a level stands for. */
  function Grain(k: nat): (g: nat)
    ensures g > 0
  {
    if k == 0 then 1 else if k == 1 then 0x100 else if k == 2 then 0x4000
    else if k == 3 then 0x10_0000 else 0x400_0000
  }

  /** A time in units of a level. */
  function Units(k: nat, e: nat): nat {
    if k == 0 then e else if k == 1 then e / 0x100 else if k == 2 then e / 0x4000
    else if k == 3 then e / 0x10_0000 else e / 0x400_0000
  }

  /** The first unit of a level that is not over yet. */
  function First(k: nat, now: nat): nat {
    if k == 0 then now else if k == 1 then (now + 0xFF) / 0x100 else if k == 2 then (now + 0x3FFF) / 0x4000
    else if k == 3 then (now + 0xF_FFFF) / 0x10_0000 else (now + 0x3FF_FFFF) / 0x400_0000
  }

  function Width(k: nat): nat {
    if k == 0 then 256 else 64
  }

  /** The list of a unit: the slots of a level are used round and round. */
  function List(k: nat, unit: nat): nat {
    if k == 0 then unit % 256 else 256 + 64 * (k - 1) + unit % 64
  }

  /** The level for a timer that is `delta` ticks away. */
  function Level(delta: nat): nat {
    if delta < 0x100 then 0 else if delta < 0x4000 then 1 else if delta < 0x10_0000 then 2
    else if delta < 0x400_0000 then 3 else 4
  }

  function ListFor(now: nat, e: nat): nat
    requires now <= e
  {
    var k := Level(e - now);
    List(k, Units(k, e))
  }

  // --------------------------------------------------------------- invariant

  /** The window of a level: its units from the first one not over, one turn long. */
  predicate InWindow(k: nat, now: nat, e: nat) {
    First(k, now) <= Units(k, e) < First(k, now) + Width(k)
  }

  /** The level of a list. */
  function LevelOf(b: nat): nat {
    if b < 256 then 0 else 1 + (b - 256) / 64
  }

  /** A timer may be in list `b`: the level's window holds its expiry, which selects `b`. */
  predicate Fits(now: nat, b: nat, e: nat) {
    var k := LevelOf(b);
    k <= 4 && InWindow(k, now, e) && List(k, Units(k, e)) == b
  }

  predicate Rearmable(t: Timer) {
    t.repeat ==> 1 <= t.interval <= MAX_INTERVAL
  }

  ghost predicate SlotsFit(slots: seq<seq<Timer>>, now: nat) {
    |slots| == LISTS &&
    forall b, t | 0 <= b < LISTS && t in slots[b] :: Fits(now, b, t.expires) && Rearmable(t)
  }

  /** Every pending timer is in a list that the window of its level assigns to it. */
  ghost predicate Inv(w: Wheel) {
    SlotsFit(w.slots, w.now)
  }

  ghost function Pending(w: Wheel): multiset<Timer> {
    Bag(w.slots)
  }

  /** A timer is not pending twice. */
  ghost predicate OnceOf(p: multiset<Timer>, id: nat) {
    forall t, u | t in p && u in p && t.id == u.id == id :: t == u && p[t] == 1
  }

  ghost predicate Once(p: multiset<Timer>) {
    forall t | t in p :: OnceOf(p, t.id)
  }

  // ------------------------------------------------------ the next expiry

  function Least(c: seq<Timer>, e: nat): nat {
    if c == [] then e else Least(c[1..], if c[0].expires < e then c[0].expires else e)
  }

  /** The walk over tv1 from slot `index` round to it: the first timer's expiry and slot. */
  function SearchRoot(slots: seq<seq<Timer>>, index: nat, j: nat): (r: (bool, nat, nat))
    requires |slots| == LISTS && index < 256 && j <= 256
    decreases 256 - j
  {
    if j == 256 then (false, MAX_TVAL, 0)
    else
      var slot := (index + j) % 256;
      if slots[slot] != [] then (true, slots[slot][0].expires, slot)
      else SearchRoot(slots, index, j + 1)
  }

  /** The walk over the slots of level `k` from slot `index` on, with the best expiry so
      far: whether something is known now, the best expiry, and the slot of the last look. */
  function SearchLevel(slots: seq<seq<Timer>>, k: nat, index: nat, j: nat, found: bool, best: nat)
    : (r: (bool, nat, nat))
    requires |slots| == LISTS && 1 <= k <= 4 && index < 64 && j <= 64
    decreases 64 - j
  {
    if j == 64 then (found, best, index)
    else
      var slot := (index + j) % 64;
      var c := slots[List(k, slot)];
      if found || c != [] then (true, Least(c, best), slot)
      else SearchLevel(slots, k, index, j + 1, found, best)
  }

  /** Levels `k` to 4; `jiffies` is the first unit of level k that is not over. */
  function SearchUp(slots: seq<seq<Timer>>, k: nat, jiffies: nat, found: bool, best: nat): nat
    requires |slots| == LISTS && 1 <= k <= 5
    decreases 5 - k
  {
    if k == 5 then best
    else
      var index := jiffies % 64;
      var (found', best', slot) := SearchLevel(slots, k, index, 0, found, best);
      if found' && index != 0 && slot >= index then best'
      else SearchUp(slots, k + 1, (if index != 0 then jiffies + 64 - index else jiffies) / 64, found', best')
  }

  function NextTimer(slots: seq<seq<Timer>>, now: nat): nat
    requires |slots| == LISTS
  {
    var index := now % 256;
    var (found, best, slot) := SearchRoot(slots, index, 0);
    if found && index != 0 && slot >= index then best
    else SearchUp(slots, 1, (if index != 0 then now + 256 - index else now) / 256, found, best)
  }

  // -------------------------------------------------------------- operations

  function Put(slots: seq<seq<Timer>>, now: nat, t: Timer): (r: seq<seq<Timer>>)
    requires |slots| == LISTS && now <= t.expires
    ensures |r| == LISTS
  {
    var b := ListFor(now, t.expires);
    slots[b := slots[b] + [t]]
  }

  /** Link a timer into the list its distance asks for. */
  function InternalAdd(w: Wheel, t: Timer): Wheel
    requires |w.slots| == LISTS && w.now <= t.expires
  {
    var slots := Put(w.slots, w.now, t);
    Wheel(w.now, NextTimer(slots, w.now), slots)
  }

  function Without(c: seq<Timer>, id: nat): seq<Timer> {
    if c == [] then []
    else if c[0].id == id then Without(c[1..], id)
    else [c[0]] + Without(c[1..], id)
  }

  /** Unlink a timer from whatever list it is on. */
  function Del(w: Wheel, id: nat): Wheel {
    w.(slots := seq(|w.slots|, b requires 0 <= b < |w.slots| => Without(w.slots[b], id)))
  }

  /** An expiry and the clock are 32-bit words, and distances wrap around: an expiry that is
      over stands for the tick that has the same word a full turn later. */
  function Linked(now: nat, t: Timer): (r: Timer)
    requires now <= t.expires + TURN
    ensures r.id == t.id && now <= r.expires
  {
    if now <= t.expires then t else t.(expires := t.expires + TURN)
  }

  function Add(w: Wheel, t: Timer): Wheel
    requires |w.slots| == LISTS && w.now <= t.expires + TURN
  {
    InternalAdd(Del(w, t.id), Linked(w.now, t))
  }

  /** Re-link every timer of a list; the list of a slot whose unit is about to begin. */
  function PutAll(slots: seq<seq<Timer>>, now: nat, c: seq<Timer>): (r: seq<seq<Timer>>)
    requires |slots| == LISTS && forall t | t in c :: now <= t.expires
    ensures |r| == LISTS
    decreases |c|
  {
    if c == [] then slots else PutAll(Put(slots, now, c[0]), now, c[1..])
  }

  predicate Ahead(now: nat, c: seq<Timer>) {
    forall t | t in c :: now <= t.expires
  }

  function Cascade(w: Wheel, b: nat): Wheel
    requires |w.slots| == LISTS && b < LISTS && Ahead(w.now, w.slots[b])
  {
    var c := w.slots[b];
    if c == [] then w
    else
      var slots := PutAll(w.slots[b := []], w.now, c);
      Wheel(w.now, NextTimer(slots, w.now), slots)
  }

  // ----------------------------------------------- units, windows and levels

  lemma OneLevel(k: nat, u: nat)
    requires k <= 4
    ensures List(k, u) < LISTS && LevelOf(List(k, u)) == k
  {
  }

  lemma ListBound(k: nat, unit: nat)
    requires k <= 4
    ensures List(k, unit) < LISTS
  {
    OneLevel(k, unit);
  }

  lemma UnitBounds(k: nat, e: nat)
    requires k <= 4
    ensures Units(k, e) * Grain(k) <= e < Units(k, e) * Grain(k) + Grain(k)
  {
  }

  lemma AlignedFirst(k: nat, now: nat)
    requires k <= 4 && now % Grain(k) == 0
    ensures First(k, now) == Units(k, now) && now == Units(k, now) * Grain(k)
  {
  }

  lemma Window64(x: nat, y: nat)
    requires x % 64 == y % 64 && x <= y < x + 64
    ensures x == y
  {
  }

  lemma Window256(x: nat, y: nat)
    requires x % 256 == y % 256 && x <= y < x + 256
    ensures x == y
  {
  }

  /** Within one turn of a level, different units have different lists. */
  lemma SameUnit(k: nat, x: nat, y: nat)
    requires k <= 4 && List(k, x) == List(k, y) && x <= y < x + Width(k)
    ensures x == y
  {
    if k == 0 { Window256(x, y); } else { Window64(x, y); }
  }

  /** Timers that are some grains of their level away are in the window of the level. */
  lemma PutWindow(k: nat, now: nat, e: nat)
    requires now <= e <= now + MAX_TVAL && k == Level(e - now)
    ensures InWindow(k, now, e)
  {
    hide First, Units;
    if k == 0 { PutWindow0(now, e); }
    else if k == 1 { PutWindow1(now, e); }
    else if k == 2 { PutWindow2(now, e); }
    else if k == 3 { PutWindow3(now, e); }
    else { PutWindow4(now, e); }
  }

  lemma PutWindow0(now: nat, e: nat)
    requires now <= e < now + 0x100
    ensures First(0, now) <= Units(0, e) < First(0, now) + 256
  {
  }

  lemma PutWindow1(now: nat, e: nat)
    requires now + 0x100 <= e < now + 0x4000
    ensures First(1, now) <= Units(1, e) < First(1, now) + 64
  {
  }

  lemma PutWindow2(now: nat, e: nat)
    requires now + 0x4000 <= e < now + 0x10_0000
    ensures First(2, now) <= Units(2, e) < First(2, now) + 64
  {
  }

  lemma PutWindow3(now: nat, e: nat)
    requires now + 0x10_0000 <= e < now + 0x400_0000
    ensures First(3, now) <= Units(3, e) < First(3, now) + 64
  {
  }

  lemma PutWindow4(now: nat, e: nat)
    requires now + 0x400_0000 <= e <= now + 0xFFFF_FFFF
    ensures First(4, now) <= Units(4, e) < First(4, now) + 64
  {
  }

  /** A timer linked for its distance fits its list. */
  lemma PutFits(now: nat, e: nat)
    requires now <= e <= now + MAX_TVAL
    ensures ListFor(now, e) < LISTS && Fits(now, ListFor(now, e), e)
  {
    hide First, Units, Level, List, LevelOf, InWindow;
    var k := Level(e - now);
    LevelRange(e - now);
    PutWindow(k, now, e);
    OneLevel(k, Units(k, e));
  }

  lemma LevelRange(d: nat)
    ensures Level(d) <= 4
    ensures Level(d) > 0 ==> Grain(Level(d)) <= d
    ensures forall k | 1 <= k <= 4 && d < Grain(k) :: Level(d) < k
  {
  }

  lemma FitsAhead(now: nat, b: nat, e: nat)
    requires Fits(now, b, e)
    ensures now <= e
  {
    NotOver(LevelOf(b), now, e);
  }

  lemma NotOver(k: nat, now: nat, e: nat)
    requires k <= 4 && First(k, now) <= Units(k, e)
    ensures now <= e
  {
  }

  /** The list whose unit begins at `now`. */
  predicate BeginsNow(k: nat, now: nat, b: nat) {
    now % Grain(k) == 0 && b == List(k, Units(k, now))
  }

  /** The timers of such a list expire within its unit. */
  lemma WithinUnit(now: nat, k: nat, b: nat, e: nat)
    requires 1 <= k <= 4 && BeginsNow(k, now, b) && Fits(now, b, e)
    ensures now <= e < now + Grain(k) && Level(e - now) < k
  {
    hide First, Units, Level, List, LevelOf;
    AlignedFirst(k, now);
    OneLevel(k, Units(k, now));
    SameUnit(k, Units(k, now), Units(k, e));
    UnitBounds(k, e);
    LevelRange(e - now);
  }

  lemma InvAhead(w: Wheel, b: nat)
    requires Inv(w) && b < LISTS
    ensures Ahead(w.now, w.slots[b])
  {
    forall t | t in w.slots[b] ensures w.now <= t.expires {
      FitsAhead(w.now, b, t.expires);
    }
  }

  /** INDEX: the slot of level `k` whose unit is the current one. */
  function Current(k: nat, now: nat): nat {
    Units(k, now) % 64
  }

  /** At the start of a turn of tv1: cascade level k, and the next one at the start of a
      turn of level k. */
  function CascadeFrom(w: Wheel, k: nat): Wheel
    requires Inv(w) && 1 <= k <= 4 && w.now % Grain(k) == 0
    decreases 5 - k
  {
    var b := List(k, Units(k, w.now));
    ListBound(k, Units(k, w.now));
    CascadeKeeps(w, k, b);
    Aligned(k, w.now);
    var w' := Cascade(w, b);
    if Current(k, w.now) == 0 && k < 4 then CascadeFrom(w', k + 1) else w'
  }

  function Rearm(t: Timer): Timer {
    t.(expires := t.expires + t.interval)
  }

  /** How many timers of a list expire at `e`. */
  function CountAt(c: seq<Timer>, e: nat): nat {
    if c == [] then 0 else (if c[0].expires == e then 1 else 0) + CountAt(c[1..], e)
  }

  /** While list `b` is being fired its timers are due, or rearmed for exactly one turn
      later; all others fit the new time. */
  ghost predicate Firing(w: Wheel, b: nat) {
    && |w.slots| == LISTS && w.now > 0 && b == (w.now - 1) % 256
    && (forall i, t | 0 <= i < LISTS && t in w.slots[i] :: Rearmable(t))
    && (forall i, t | 0 <= i < LISTS && i != b && t in w.slots[i] :: Fits(w.now, i, t.expires))
    && (forall t | t in w.slots[b] :: t.expires == w.now - 1 || t.expires == w.now + 255)
  }

  /** The walk that fires a list.  The next timer to visit is fixed when a timer is reached,
      so the walk ends after a timer that had nothing behind it then. */
  function Fire(w: Wheel, b: nat): (Wheel, seq<Timer>)
    requires Firing(w, b)
    decreases CountAt(w.slots[b], w.now - 1), |w.slots[b]|
  {
    hide FireOne, Firing, CountAt;
    FiringSize(w, b);
    var c := w.slots[b];
    if c == [] then (w, [])
    else
      FireOneNext(w, b);
      var w' := FireOne(w, b);
      if |c| == 1 then (w', [c[0]])
      else
        var (last, fired) := Fire(w', b);
        (last, [c[0]] + fired)
  }

  /** Run the callback of the first timer of the list and rearm the timer if it repeats. */
  function FireOne(w: Wheel, b: nat): Wheel
    requires Firing(w, b) && w.slots[b] != []
  {
    var t := w.slots[b][0];
    FirstTimer(w, b);
    var w' := w.(slots := w.slots[b := w.slots[b][1..]]);
    if t.repeat then InternalAdd(w', Rearm(t)) else w'.(next := NextTimer(w'.slots, w'.now))
  }

  /** One tick: cascade if a turn of tv1 begins, advance, fire. */
  function Tick(w: Wheel): (Wheel, seq<Timer>)
    requires Inv(w)
  {
    TickFires(w);
    Fire(Cascaded(w).(now := w.now + 1), w.now % 256)
  }

  function Cascaded(w: Wheel): Wheel
    requires Inv(w)
  {
    if w.now % 256 == 0 then CascadeFrom(w, 1) else w
  }

  // ------------------------------------------------------------ conservation

  lemma PutBag(slots: seq<seq<Timer>>, now: nat, t: Timer)
    requires |slots| == LISTS && now <= t.expires
    ensures Bag(Put(slots, now, t)) == Bag(slots) + multiset{t}
  {
    var b := ListFor(now, t.expires);
    var c := multiset(slots[b]);
    BagUpdate(slots, b, slots[b] + [t]);
    assert multiset(slots[b] + [t]) == c + multiset{t};
    assert Bag(slots) + (c + multiset{t}) == (Bag(slots) + multiset{t}) + c;
    Cancel(Bag(Put(slots, now, t)), Bag(slots) + multiset{t}, c);
  }

  lemma {:induction false} PutAllBag(slots: seq<seq<Timer>>, now: nat, c: seq<Timer>)
    requires |slots| == LISTS && Ahead(now, c)
    ensures Bag(PutAll(slots, now, c)) == Bag(slots) + multiset(c)
    decreases |c|
  {
    if c != [] {
      PutBag(slots, now, c[0]);
      PutAllBag(Put(slots, now, c[0]), now, c[1..]);
      assert c == [c[0]] + c[1..];
      assert (Bag(slots) + multiset{c[0]}) + multiset(c[1..]) == Bag(slots) + multiset(c);
    }
  }

  lemma PutKeeps(slots: seq<seq<Timer>>, now: nat, t: Timer)
    requires SlotsFit(slots, now) && now <= t.expires <= now + MAX_TVAL && Rearmable(t)
    ensures SlotsFit(Put(slots, now, t), now)
  {
    hide Fits;
    PutFits(now, t.expires);
  }

  lemma {:induction false} PutAllKeeps(slots: seq<seq<Timer>>, now: nat, c: seq<Timer>)
    requires SlotsFit(slots, now)
    requires forall t | t in c :: now <= t.expires <= now + MAX_TVAL && Rearmable(t)
    ensures SlotsFit(PutAll(slots, now, c), now)
    decreases |c|
  {
    hide Fits, Put;
    if c != [] {
      PutKeeps(slots, now, c[0]);
      PutAllKeeps(Put(slots, now, c[0]), now, c[1..]);
    } else {
    }
  }

  /** Cascading re-links timers; it loses none and makes none up. */
  lemma CascadeKeeps(w: Wheel, k: nat, b: nat)
    requires Inv(w) && 1 <= k <= 4 && b < LISTS && BeginsNow(k, w.now, b)
    ensures Ahead(w.now, w.slots[b])
    ensures Inv(Cascade(w, b)) && Cascade(w, b).now == w.now
    ensures Pending(Cascade(w, b)) == Pending(w)
  {
    hide Fits, NextTimer, BeginsNow, Level;
    InvAhead(w, b);
    var c := w.slots[b];
    forall t | t in c ensures w.now <= t.expires <= w.now + MAX_TVAL {
      WithinUnit(w.now, k, b, t.expires);
    }
    PutAllKeeps(w.slots[b := []], w.now, c);
    PutAllBag(w.slots[b := []], w.now, c);
    BagUpdate(w.slots, b, []);
  }

  // --------------------------------------------------------- before a tick

  /** A timer keeps fitting its list unless the unit of the list begins. */
  lemma FitsLater(now: nat, b: nat, e: nat)
    requires Fits(now, b, e)
    requires forall k | 0 <= k <= 4 :: !BeginsNow(k, now, b)
    ensures Fits(now + 1, b, e)
  {
    hide First, Units, List, LevelOf;
    var k := LevelOf(b);
    assert !BeginsNow(k, now, b);
    FirstNext(k, now);
    if now % Grain(k) == 0 {
      AlignedFirst(k, now);
    }
  }

  /** The first unit of a level moves on when a unit begins. */
  lemma FirstNext(k: nat, now: nat)
    requires k <= 4
    ensures First(k, now + 1) == First(k, now) + if now % Grain(k) == 0 then 1 else 0
  {
    hide First;
    if k == 0 { FirstNext0(now); }
    else if k == 1 { FirstNext1(now); }
    else if k == 2 { FirstNext2(now); }
    else if k == 3 { FirstNext3(now); }
    else { FirstNext4(now); }
  }

  lemma FirstNext0(now: nat)
    ensures First(0, now + 1) == First(0, now) + 1
  {
  }

  lemma FirstNext1(now: nat)
    ensures First(1, now + 1) == First(1, now) + if now % 0x100 == 0 then 1 else 0
  {
  }

  lemma FirstNext2(now: nat)
    ensures First(2, now + 1) == First(2, now) + if now % 0x4000 == 0 then 1 else 0
  {
  }

  lemma FirstNext3(now: nat)
    ensures First(3, now + 1) == First(3, now) + if now % 0x10_0000 == 0 then 1 else 0
  {
  }

  lemma FirstNext4(now: nat)
    ensures First(4, now + 1) == First(4, now) + if now % 0x400_0000 == 0 then 1 else 0
  {
  }

  /** Nothing is ever linked into a list whose unit begins, except in tv1. */
  lemma PutMissesCurrent(now: nat, e: nat, k: nat)
    requires now <= e <= now + MAX_TVAL && 1 <= k <= 4 && now % Grain(k) == 0
    ensures ListFor(now, e) != List(k, Units(k, now))
  {
    hide First, Units, Level, List, LevelOf;
    var j := Level(e - now);
    LevelRange(e - now);
    OneLevel(j, Units(j, e));
    OneLevel(k, Units(k, now));
    if j == k && List(k, Units(k, e)) == List(k, Units(k, now)) {
      AlignedFirst(k, now);
      PutWindow(k, now, e);
      SameUnit(k, Units(k, now), Units(k, e));
      UnitBounds(k, e);
      assert false;
    }
  }

  lemma {:induction false} PutAllMissesCurrent(slots: seq<seq<Timer>>, now: nat, c: seq<Timer>, k: nat)
    requires |slots| == LISTS && 1 <= k <= 4 && now % Grain(k) == 0
    requires forall t | t in c :: now <= t.expires <= now + MAX_TVAL
    ensures PutAll(slots, now, c)[List(k, Units(k, now))] == slots[List(k, Units(k, now))]
    decreases |c|
  {
    hide Level, Units, Grain;
    ListBound(k, Units(k, now));
    if c != [] {
      PutMissesCurrent(now, c[0].expires, k);
      PutFits(now, c[0].expires);
      PutAllMissesCurrent(Put(slots, now, c[0]), now, c[1..], k);
    }
  }

  /** Current lists of the levels from `lo` on (that begin now) are empty. */
  ghost predicate Emptied(w: Wheel, lo: nat, hi: nat) {
    |w.slots| == LISTS &&
    forall k | lo <= k <= hi && 1 <= k <= 4 && w.now % Grain(k) == 0 :: w.slots[List(k, Units(k, w.now))] == []
  }

  lemma CascadeEmpties(w: Wheel, k: nat)
    requires Inv(w) && 1 <= k <= 4 && w.now % Grain(k) == 0 && Emptied(w, 1, k - 1)
    ensures List(k, Units(k, w.now)) < LISTS && Ahead(w.now, w.slots[List(k, Units(k, w.now))])
    ensures Emptied(Cascade(w, List(k, Units(k, w.now))), 1, k)
  {
    hide Units, Level, NextTimer, Fits, InWindow;
    ListBound(k, Units(k, w.now));
    var b := List(k, Units(k, w.now));
    CascadeKeeps(w, k, b);
    var c := w.slots[b];
    forall t | t in c ensures w.now <= t.expires <= w.now + MAX_TVAL {
      WithinUnit(w.now, k, b, t.expires);
    }
    forall j | 1 <= j <= k && w.now % Grain(j) == 0
      ensures Cascade(w, b).slots[List(j, Units(j, w.now))] == []
    {
      ListBound(j, Units(j, w.now));
      PutAllMissesCurrent(w.slots[b := []], w.now, c, j);
    }
  }

  lemma Aligned(k: nat, now: nat)
    requires 1 <= k <= 4 && now % Grain(k) == 0
    ensures k < 4 ==> (Current(k, now) == 0 <==> now % Grain(k + 1) == 0)
  {
  }

  lemma Unaligned(k: nat, j: nat, now: nat)
    requires 1 <= k <= j <= 4 && now % Grain(k) != 0
    ensures now % Grain(j) != 0
    decreases j
  {
    hide Grain;
    if k < j {
      Unaligned(k, j - 1, now);
      GrainDivides(j - 1, now);
    }
  }

  /** A multiple of the next level's grain is one of this level's. */
  lemma GrainDivides(k: nat, now: nat)
    requires 1 <= k <= 3
    ensures now % Grain(k + 1) == 0 ==> now % Grain(k) == 0
  {
    if now % Grain(k + 1) == 0 {
      if k == 1 { Divides1(now, now / 0x4000); }
      else if k == 2 { Divides2(now, now / 0x10_0000); }
      else { Divides3(now, now / 0x400_0000); }
    }
  }

  lemma Divides1(now: nat, q: nat)
    requires now == 0x4000 * q
    ensures now % 0x100 == 0
  {
    assert now == 0x100 * (0x40 * q);
  }

  lemma Divides2(now: nat, q: nat)
    requires now == 0x10_0000 * q
    ensures now % 0x4000 == 0
  {
    assert now == 0x4000 * (0x40 * q);
  }

  lemma Divides3(now: nat, q: nat)
    requires now == 0x400_0000 * q
    ensures now % 0x10_0000 == 0
  {
    assert now == 0x10_0000 * (0x40 * q);
  }

  /** The chain of cascades empties every list whose unit begins. */
  lemma {:induction false} CascadeFromKeeps(w: Wheel, k: nat)
    requires Inv(w) && 1 <= k <= 4 && w.now % Grain(k) == 0 && Emptied(w, 1, k - 1)
    ensures var w' := CascadeFrom(w, k);
      Inv(w') && w'.now == w.now && Pending(w') == Pending(w) && Emptied(w', 1, 4)
    decreases 5 - k
  {
    hide SlotsFit, Units, Cascade, Emptied, Pending;
    ListBound(k, Units(k, w.now));
    var b := List(k, Units(k, w.now));
    InvSize(w);
    CascadeKeeps(w, k, b);
    CascadeEmpties(w, k);
    if k < 4 {
      Aligned(k, w.now);
      if Current(k, w.now) == 0 {
        CascadeFromKeeps(Cascade(w, b), k + 1);
      } else {
        EmptiedUpTo(Cascade(w, b), k);
      }
    }
  }

  lemma EmptiedUpTo(w: Wheel, k: nat)
    requires Emptied(w, 1, k) && 1 <= k < 4 && w.now % Grain(k + 1) != 0
    ensures Emptied(w, 1, 4)
  {
    hide Units, List;
    forall j | k < j <= 4 ensures w.now % Grain(j) != 0 {
      Unaligned(k + 1, j, w.now);
    }
  }

  lemma CascadedKeeps(w: Wheel)
    requires Inv(w)
    ensures var w' := Cascaded(w);
      Inv(w') && w'.now == w.now && Pending(w') == Pending(w) && Emptied(w', 1, 4)
  {
    hide CascadeFrom, Inv, Pending;
    InvSize(w);
    if w.now % 256 == 0 {
      assert Emptied(w, 1, 0);
      CascadeFromKeeps(w, 1);
    } else {
      forall j | 1 <= j <= 4 ensures w.now % Grain(j) != 0 {
        Unaligned(1, j, w.now);
      }
    }
  }

  lemma InvSize(w: Wheel)
    requires Inv(w)
    ensures |w.slots| == LISTS
  {
  }

  // ---------------------------------------------------------------- firing

  lemma TickFires(w: Wheel)
    requires Inv(w)
    ensures Firing(Cascaded(w).(now := w.now + 1), w.now % 256)
  {
    hide Cascaded, Fits;
    CascadedKeeps(w);
    var w' := Cascaded(w);
    var b := w.now % 256;
    forall i, t | 0 <= i < LISTS && i != b && t in w'.slots[i] ensures Fits(w.now + 1, i, t.expires) {
      NotCurrent(w', b, i, t);
      FitsLater(w.now, i, t.expires);
    }
    forall t | t in w'.slots[b] ensures t.expires == w.now {
      DueNow(w.now, t.expires);
    }
  }

  lemma NotCurrent(w: Wheel, b: nat, i: nat, t: Timer)
    requires Inv(w) && Emptied(w, 1, 4) && b == w.now % 256 && i < LISTS && i != b && t in w.slots[i]
    ensures forall k | 0 <= k <= 4 :: !BeginsNow(k, w.now, i)
  {
    hide Fits, Units;
    forall k | 0 <= k <= 4 ensures !BeginsNow(k, w.now, i) {
      if k == 0 {
        CurrentRoot(w.now);
      }
    }
  }

  lemma CurrentRoot(now: nat)
    ensures List(0, Units(0, now)) == now % 256
  {
  }

  lemma DueNow(now: nat, e: nat)
    requires Fits(now, now % 256, e)
    ensures e == now
  {
    Window256(now, e);
  }

  lemma FiringSize(w: Wheel, b: nat)
    requires Firing(w, b)
    ensures b < LISTS == |w.slots|
  {
  }

  lemma FireOneKeeps(w: Wheel, b: nat)
    requires Firing(w, b) && w.slots[b] != []
    ensures Firing(FireOne(w, b), b) && FireOne(w, b).now == w.now
    ensures var t := w.slots[b][0];
      Pending(FireOne(w, b)) + multiset{t} == Pending(w) + (if t.repeat then multiset{Rearm(t)} else multiset{})
  {
    FireOneStays(w, b);
    FireOneBag(w, b);
  }

  /** After the first timer the walk can go on, and it comes nearer to its end. */
  lemma FireOneNext(w: Wheel, b: nat)
    requires Firing(w, b) && w.slots[b] != []
    ensures var w' := FireOne(w, b);
      && Firing(w', b) && w'.now == w.now && b < |w'.slots|
      && CountAt(w'.slots[b], w'.now - 1) <= CountAt(w.slots[b], w.now - 1)
      && (CountAt(w'.slots[b], w'.now - 1) == CountAt(w.slots[b], w.now - 1) ==> |w'.slots[b]| < |w.slots[b]|)
  {
    hide FireOne, Firing, CountAt, Pending, Rearm;
    FireOneKeeps(w, b);
    FireOneShrinks(w, b);
  }

  lemma FireOneStays(w: Wheel, b: nat)
    requires Firing(w, b) && w.slots[b] != []
    ensures Firing(FireOne(w, b), b)
  {
    hide Fits, NextTimer, Level, Units;
    var t := w.slots[b][0];
    FirstTimer(w, b);
    if t.repeat {
      PutFits(w.now, Rearm(t).expires);
      BackInTime(w.now, b, Rearm(t).expires);
    }
  }

  lemma FireOneBag(w: Wheel, b: nat)
    requires Firing(w, b) && w.slots[b] != []
    ensures var t := w.slots[b][0];
      Pending(FireOne(w, b)) + multiset{t} == Pending(w) + (if t.repeat then multiset{Rearm(t)} else multiset{})
  {
    hide Fits, NextTimer, ListFor, Rearmable;
    var t := w.slots[b][0];
    FirstTimer(w, b);
    var slots := w.slots[b := w.slots[b][1..]];
    BagUpdate(w.slots, b, w.slots[b][1..]);
    FrontBag(w.slots[b], Bag(slots), Bag(w.slots));
    if t.repeat {
      PutBag(slots, w.now, Rearm(t));
    }
  }

  lemma FrontBag(c: seq<Timer>, with: multiset<Timer>, all: multiset<Timer>)
    requires c != [] && with + multiset(c) == all + multiset(c[1..])
    ensures with + multiset{c[0]} == all
  {
    assert c == [c[0]] + c[1..];
    assert with + (multiset{c[0]} + multiset(c[1..])) == (with + multiset{c[0]}) + multiset(c[1..]);
    Cancel(with + multiset{c[0]}, all, multiset(c[1..]));
  }

  /** A timer rearmed into the list being fired is one full turn ahead. */
  lemma BackInTime(now: nat, b: nat, e: nat)
    requires now > 0 && b == (now - 1) % 256 && now <= e <= now + MAX_TVAL
    ensures ListFor(now, e) == b <==> e == now + 255
  {
  }

  lemma {:induction false} CountAppend(c: seq<Timer>, t: Timer, e: nat)
    ensures CountAt(c + [t], e) == CountAt(c, e) + (if t.expires == e then 1 else 0)
  {
    if c != [] {
      CountAppend(c[1..], t, e);
      assert (c + [t])[1..] == c[1..] + [t];
    }
  }

  lemma FirstTimer(w: Wheel, b: nat)
    requires Firing(w, b) && w.slots[b] != []
    ensures var t := w.slots[b][0];
      && (t.expires == w.now - 1 || t.expires == w.now + 255)
      && (t.repeat ==> w.now <= Rearm(t).expires <= w.now + MAX_TVAL)
      && Rearmable(Rearm(t))
  {
    hide Fits;
    var t := w.slots[b][0];
    assert t in w.slots[b];
    assert Rearmable(t);
  }

  /** Every visit leaves fewer timers that are due for the first time, or a shorter list. */
  lemma FireOneShrinks(w: Wheel, b: nat)
    requires Firing(w, b) && w.slots[b] != []
    ensures b < |FireOne(w, b).slots|
    ensures var n, n' := CountAt(w.slots[b], w.now - 1), CountAt(FireOne(w, b).slots[b], w.now - 1);
      n' < n || (n' == n && |FireOne(w, b).slots[b]| < |w.slots[b]|)
  {
    hide Fits, NextTimer, Level, Units;
    var t := w.slots[b][0];
    FirstTimer(w, b);
    if t.repeat {
      PutFits(w.now, Rearm(t).expires);
      BackInTime(w.now, b, Rearm(t).expires);
      CountAppend(w.slots[b][1..], Rearm(t), w.now - 1);
    }
  }
}
