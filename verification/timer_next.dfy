/**
 The earliest expiry.  gp_next_timer looks at the first non-empty list of a level and at
 the lists about to cascade, and still finds the minimum over all five levels.
 */
module TimerNext {
  import opened Bags
  import opened TimerWheel
  import opened TimerTicks
  import opened TimerRuns

  /** The list `j` slots on from the first one of a level. */
  function ListAt(k: nat, now: nat, j: nat): (b: nat)
    requires k <= 4
    ensures b < LISTS
  {
    List(k, First(k, now) + j)
  }

  ghost predicate EmptyBefore(slots: seq<seq<Timer>>, now: nat, k: nat, j: nat)
    requires |slots| == LISTS && k <= 4
  {
    forall i | 0 <= i < j :: slots[ListAt(k, now, i)] == []
  }

  /** The first tick that level k can hold. */
  function Begin(k: nat, now: nat): nat {
    First(k, now) * Grain(k)
  }

  ghost predicate Within(slots: seq<seq<Timer>>, now: nat) {
    SlotsFit(slots, now) && forall b, t | 0 <= b < LISTS && t in slots[b] :: t.expires <= MAX_TVAL
  }

  /** `e` is the least expiry in the levels below k. */
  ghost predicate LeastBelow(slots: seq<seq<Timer>>, k: nat, e: nat)
    requires |slots| == LISTS
  {
    && (exists b, t :: 0 <= b < LISTS && t in slots[b] && LevelOf(b) < k && t.expires == e)
    && (forall b, t | 0 <= b < LISTS && t in slots[b] && LevelOf(b) < k :: e <= t.expires)
  }

  ghost predicate NoneBelow(slots: seq<seq<Timer>>, k: nat)
    requires |slots| == LISTS
  {
    forall b | 0 <= b < LISTS && LevelOf(b) < k :: slots[b] == []
  }

  /** What is known when the search reaches level k. */
  ghost predicate Known(slots: seq<seq<Timer>>, now: nat, k: nat, found: bool, best: nat)
    requires |slots| == LISTS
  {
    if found then LeastBelow(slots, k, best) && Begin(k, now) <= best < Begin(k, now) + Grain(k)
    else NoneBelow(slots, k) && best == MAX_TVAL
  }

  // -------------------------------------------------------------- arithmetic

  /** Every timer of level k or above is not before the begin of level k. */
  lemma NotBefore(now: nat, b: nat, e: nat, k: nat)
    requires Fits(now, b, e) && k <= LevelOf(b)
    ensures Begin(k, now) <= e
  {
    hide First, Units, LevelOf, List;
    var l := LevelOf(b);
    BeginsOrder(k, l, now);
    UnitBounds(l, e);
    Scaled(First(l, now), Units(l, e), Grain(l));
  }

  lemma Scaled(a: nat, b: nat, g: nat)
    requires a <= b
    ensures a * g <= b * g
  {
  }

  lemma {:induction false} BeginsOrder(k: nat, l: nat, now: nat)
    requires k <= l <= 4
    ensures Begin(k, now) <= Begin(l, now)
    decreases l
  {
    hide First;
    if k < l {
      BeginsOrder(k, l - 1, now);
      FirstBounds(l - 1, now);
      FirstBounds(l, now);
      BeginUp(l - 1, now, First(l - 1, now), First(l, now));
    }
  }

  lemma FirstBounds(k: nat, now: nat)
    requires k <= 4
    ensures now <= First(k, now) * Grain(k) < now + Grain(k)
  {
  }

  /** The first multiple of a grain from a time on is not after that of a coarser one. */
  lemma BeginUp(k: nat, now: nat, a: nat, b: nat)
    requires k <= 3 && a * Grain(k) < now + Grain(k) && now <= b * Grain(k + 1)
    ensures a * Grain(k) <= b * Grain(k + 1)
  {
    if k == 0 { MultiplesOrder(now, 1, 0x100, a, b); }
    else if k == 1 { MultiplesOrder(now, 0x100, 0x40, a, b); }
    else if k == 2 { MultiplesOrder(now, 0x4000, 0x40, a, b); }
    else { MultiplesOrder(now, 0x10_0000, 0x40, a, b); }
  }

  lemma MultiplesOrder(now: nat, g: nat, m: nat, a: nat, b: nat)
    requires g * a < now + g && now <= g * (m * b)
    ensures g * a <= g * (m * b)
  {
    if a > m * b {
      OneMore(m * b, a, g);
    } else {
      Scaled(a, m * b, g);
    }
  }

  lemma OneMore(n: nat, a: nat, g: nat)
    requires n < a
    ensures g * n + g <= g * a
  {
    Scaled(n + 1, a, g);
    assert (n + 1) * g == g * n + g;
  }

  lemma FirstUp(k: nat, now: nat)
    requires k <= 3
    ensures First(k + 1, now) == RoundedUp(First(k, now), Width(k)) / Width(k)
  {
    hide First;
    if k == 0 { FirstUp0(now); }
    else if k == 1 { FirstUp1(now); }
    else if k == 2 { FirstUp2(now); }
    else { FirstUp3(now); }
  }

  /** Add what is missing to a multiple of n. */
  function RoundedUp(w: nat, n: nat): nat
    requires n > 0
  {
    if w % n != 0 then w + n - w % n else w
  }

  lemma FirstUp0(now: nat)
    ensures First(1, now) == RoundedUp(First(0, now), 256) / 256
  {
  }

  lemma FirstUp1(now: nat)
    ensures First(2, now) == RoundedUp(First(1, now), 64) / 64
  {
  }

  lemma FirstUp2(now: nat)
    ensures First(3, now) == RoundedUp(First(2, now), 64) / 64
  {
  }

  lemma FirstUp3(now: nat)
    ensures First(4, now) == RoundedUp(First(3, now), 64) / 64
  {
  }

  /** Units below the next multiple of the width belong before the next level's begin, the
      others into its first slot. */
  lemma NextBegin(k: nat, now: nat, e: nat, j: nat)
    requires k <= 3 && j < Width(k) && Units(k, e) == First(k, now) + j
    ensures var w, n := First(k, now), Width(k);
      if w % n != 0 && (w + j) % n >= w % n then e < Begin(k + 1, now)
      else Begin(k + 1, now) <= e < Begin(k + 1, now) + Grain(k + 1)
  {
    hide First;
    FirstUp(k, now);
    var w, n := First(k, now), Width(k);
    UnitsUp(k, e, First(k + 1, now));
    RoundUp(w, n, j);
  }

  /** w + j against the next multiple of n from w on. */
  lemma RoundUp(w: nat, n: nat, j: nat)
    requires (n == 256 || n == 64) && j < n
    ensures var up := RoundedUp(w, n) / n * n;
      if w % n != 0 && (w + j) % n >= w % n then w + j < up else up <= w + j < up + n
  {
    if n == 256 { RoundUp256(w, j); } else { RoundUp64(w, j); }
  }

  lemma RoundUp256(w: nat, j: nat)
    requires j < 256
    ensures var up := RoundedUp(w, 256) / 256 * 256;
      if w % 256 != 0 && (w + j) % 256 >= w % 256 then w + j < up else up <= w + j < up + 256
  {
    var q, r := w / 256, w % 256;
    if r != 0 {
      Quotient256(w + 256 - r, q + 1, 0);
    }
    if r + j < 256 {
      Quotient256(w + j, q, r + j);
    } else {
      Quotient256(w + j, q + 1, r + j - 256);
    }
  }

  lemma Quotient256(x: nat, q: nat, r: nat)
    requires r < 256 && x == 256 * q + r
    ensures x / 256 == q && x % 256 == r
  {
  }

  lemma RoundUp64(w: nat, j: nat)
    requires j < 64
    ensures var up := RoundedUp(w, 64) / 64 * 64;
      if w % 64 != 0 && (w + j) % 64 >= w % 64 then w + j < up else up <= w + j < up + 64
  {
    var q, r := w / 64, w % 64;
    if r != 0 {
      Quotient64(w + 64 - r, q + 1, 0);
    }
    if r + j < 64 {
      Quotient64(w + j, q, r + j);
    } else {
      Quotient64(w + j, q + 1, r + j - 64);
    }
  }

  lemma Quotient64(x: nat, q: nat, r: nat)
    requires r < 64 && x == 64 * q + r
    ensures x / 64 == q && x % 64 == r
  {
  }

  /** An expiry against a unit of the next level. */
  lemma UnitsUp(k: nat, e: nat, u: nat)
    requires k <= 3
    ensures e < u * Grain(k + 1) <==> Units(k, e) < u * Width(k)
    ensures e < u * Grain(k + 1) + Grain(k + 1) <==> Units(k, e) < u * Width(k) + Width(k)
  {
  }

  lemma UnitOfList(now: nat, b: nat, e: nat, j: nat)
    requires Fits(now, b, e) && j < Width(LevelOf(b))
    requires b == List(LevelOf(b), First(LevelOf(b), now) + j)
    ensures Units(LevelOf(b), e) == First(LevelOf(b), now) + j
  {
    hide First, Units, LevelOf, List;
    var k, x, y := LevelOf(b), Units(LevelOf(b), e), First(LevelOf(b), now) + j;
    if x <= y { SameUnit(k, x, y); } else { SameUnit(k, y, x); }
  }

  lemma UnitsOrder(k: nat, a: nat, b: nat)
    requires Units(k, a) < Units(k, b)
    ensures a < b
  {
  }

  lemma FirstUnit(k: nat, now: nat, e: nat)
    requires k <= 4 && Begin(k, now) <= e < Begin(k, now) + Grain(k)
    ensures Units(k, e) == First(k, now)
  {
    hide First;
    ProductUnits(k, First(k, now), e);
  }

  lemma ProductUnits(k: nat, w: nat, e: nat)
    requires k <= 4 && w * Grain(k) <= e < w * Grain(k) + Grain(k)
    ensures Units(k, e) == w
  {
  }

  lemma SlotOf(b: nat)
    requires b < LISTS
    ensures LevelOf(b) <= 4 && (if b < 256 then LevelOf(b) == 0 else b == 256 + 64 * (LevelOf(b) - 1) + (b - 256) % 64)
  {
  }

  lemma StepsUp(w: nat, s: nat, n: nat) returns (j: nat)
    requires (n == 256 || n == 64) && s < n
    ensures j < n && (w + j) % n == s
  {
    if n == 256 {
      j := StepsUp256(w, s);
    } else {
      j := StepsUp64(w, s);
    }
  }

  lemma StepsUp256(w: nat, s: nat) returns (j: nat)
    requires s < 256
    ensures j < 256 && (w + j) % 256 == s
  {
    j := (s + 256 - w % 256) % 256;
  }

  lemma StepsUp64(w: nat, s: nat) returns (j: nat)
    requires s < 64
    ensures j < 64 && (w + j) % 64 == s
  {
    j := (s + 64 - w % 64) % 64;
  }

  /** Every list of a level is some number of slots after the first one. */
  lemma Steps(b: nat, now: nat) returns (j: nat)
    requires b < LISTS
    ensures var k := LevelOf(b); k <= 4 && j < Width(k) && b == ListAt(k, now, j)
  {
    hide First, LevelOf;
    SlotOf(b);
    var k := LevelOf(b);
    j := StepsUp(First(k, now), if b < 256 then b else (b - 256) % 64, Width(k));
  }

  lemma SameSlot(k: nat, w: nat, j: nat)
    requires 1 <= k <= 4 && j < 64
    ensures List(k, (w % 64 + j) % 64) == List(k, w + j)
  {
  }

  /** Timers of level k are in the list as many slots on as their unit. */
  lemma UnitAt(slots: seq<seq<Timer>>, now: nat, k: nat, j: nat, t: Timer)
    requires SlotsFit(slots, now) && k <= 4 && j < Width(k)
    requires t in slots[ListAt(k, now, j)]
    ensures Units(k, t.expires) == First(k, now) + j
  {
    hide First, Fits, Units, List;
    var b := ListAt(k, now, j);
    OneLevel(k, First(k, now) + j);
    UnitOfList(now, b, t.expires, j);
  }

  /** A best expiry over the lower levels and over the first non-empty list of level k is
      the best over level k too. */
  lemma LevelLeast(slots: seq<seq<Timer>>, now: nat, k: nat, j: nat, e: nat)
    requires SlotsFit(slots, now) && k <= 4 && j < Width(k) && Units(k, e) == First(k, now) + j
    requires EmptyBefore(slots, now, k, j)
    requires forall t | t in slots[ListAt(k, now, j)] :: e <= t.expires
    requires forall b, t | 0 <= b < LISTS && t in slots[b] && LevelOf(b) < k :: e <= t.expires
    requires exists b, t :: 0 <= b < LISTS && t in slots[b] && LevelOf(b) <= k && t.expires == e
    ensures LeastBelow(slots, k + 1, e)
  {
    hide First, Fits, Units, List, Width, LevelOf;
    forall b, t | 0 <= b < LISTS && t in slots[b] && LevelOf(b) < k + 1 ensures e <= t.expires {
      if LevelOf(b) == k {
        var i := Steps(b, now);
        if i > j {
          UnitAt(slots, now, k, i, t);
          UnitsOrder(k, e, t.expires);
        }
      }
    }
  }

  lemma {:induction false} LeastIs(c: seq<Timer>, e: nat)
    ensures Least(c, e) <= e && forall t | t in c :: Least(c, e) <= t.expires
    ensures Least(c, e) == e || exists t :: t in c && t.expires == Least(c, e)
  {
    if c != [] {
      var e' := if c[0].expires < e then c[0].expires else e;
      LeastIs(c[1..], e');
      assert c[0] in c;
    }
  }

  lemma {:induction false} SearchRootFinds(slots: seq<seq<Timer>>, now: nat, j: nat) returns (at: nat)
    requires Within(slots, now) && j <= 256
    requires EmptyBefore(slots, now, 0, j)
    ensures var (found, e, slot) := SearchRoot(slots, now % 256, j);
      if found then at < 256 && slot == (now + at) % 256 && Units(0, e) == now + at && LeastBelow(slots, 1, e)
      else NoneBelow(slots, 1) && e == MAX_TVAL
    decreases 256 - j
  {
    hide Fits;
    at := j;
    if j == 256 {
      forall b | 0 <= b < LISTS && LevelOf(b) < 1 ensures slots[b] == [] {
        var i := Steps(b, now);
      }
    } else {
      var slot := (now % 256 + j) % 256;
      assert slot == List(0, now + j);
      if slots[slot] != [] {
        var e := slots[slot][0].expires;
        forall t | t in slots[slot] ensures t.expires == now + j {
          UnitAt(slots, now, 0, j, t);
        }
        assert slots[slot][0] in slots[slot];
        LevelLeast(slots, now, 0, j, e);
      } else {
        at := SearchRootFinds(slots, now, j + 1);
      }
    }
  }

  lemma {:induction false} SearchLevelFinds(slots: seq<seq<Timer>>, now: nat, k: nat, j: nat, found: bool, best: nat)
    returns (at: nat)
    requires |slots| == LISTS && Within(slots, now) && 1 <= k <= 4 && j <= 64 && (found ==> j == 0)
    requires Known(slots, now, k, found, best)
    requires EmptyBefore(slots, now, k, j)
    ensures var (found', e, slot) := SearchLevel(slots, k, First(k, now) % 64, j, found, best);
      if found' then
        at < 64 && slot == (First(k, now) + at) % 64 && Units(k, e) == First(k, now) + at && LeastBelow(slots, k + 1, e)
      else NoneBelow(slots, k + 1) && e == MAX_TVAL
    decreases 64 - j
  {
    hide Within, First, Units, List, LeastBelow, NoneBelow, EmptyBefore;
    at := j;
    var w := First(k, now);
    SearchTurn(slots, now, k, j, found, best);
    if j == 64 {
      LevelEmpty(slots, now, k);
    } else if found || slots[ListAt(k, now, j)] != [] {
      HereLeast(slots, now, k, j, found, best);
    } else {
      EmptyMore(slots, now, k, j);
      at := SearchLevelFinds(slots, now, k, j + 1, found, best);
    }
  }

  lemma EmptyMore(slots: seq<seq<Timer>>, now: nat, k: nat, j: nat)
    requires |slots| == LISTS && k <= 4 && EmptyBefore(slots, now, k, j) && slots[ListAt(k, now, j)] == []
    ensures EmptyBefore(slots, now, k, j + 1)
  {
    hide List, First;
  }

  /** One step of the walk over a level. */
  lemma SearchTurn(slots: seq<seq<Timer>>, now: nat, k: nat, j: nat, found: bool, best: nat)
    requires |slots| == LISTS && 1 <= k <= 4 && j <= 64
    ensures SearchLevel(slots, k, First(k, now) % 64, j, found, best) ==
      if j == 64 then (found, best, First(k, now) % 64)
      else
        var c := slots[ListAt(k, now, j)];
        if found || c != [] then (true, Least(c, best), (First(k, now) + j) % 64)
        else SearchLevel(slots, k, First(k, now) % 64, j + 1, found, best)
  {
    hide First, Least;
    var w := First(k, now);
    if j < 64 {
      SameSlot(k, w, j);
      SlotSum(w, j);
      OneLevel(k, w + j);
    }
  }

  lemma SlotSum(w: nat, j: nat)
    ensures (w % 64 + j) % 64 == (w + j) % 64
  {
  }

  lemma LevelEmpty(slots: seq<seq<Timer>>, now: nat, k: nat)
    requires Within(slots, now) && 1 <= k <= 4 && NoneBelow(slots, k)
    requires EmptyBefore(slots, now, k, 64)
    ensures NoneBelow(slots, k + 1)
  {
    hide Fits, First, List;
    forall b | 0 <= b < LISTS && LevelOf(b) < k + 1 ensures slots[b] == [] {
      var i := Steps(b, now);
    }
  }

  lemma HereLeast(slots: seq<seq<Timer>>, now: nat, k: nat, j: nat, found: bool, best: nat)
    requires Within(slots, now) && 1 <= k <= 4 && j < 64 && (found ==> j == 0)
    requires Known(slots, now, k, found, best)
    requires EmptyBefore(slots, now, k, j)
    requires (found || slots[ListAt(k, now, j)] != [])
    ensures var e := Least(slots[ListAt(k, now, j)], best);
      Units(k, e) == First(k, now) + j && LeastBelow(slots, k + 1, e)
  {
    hide Fits, First, Units, Begin, List, LevelOf;
    var b := ListAt(k, now, j);
    var c := slots[b];
    OneLevel(k, First(k, now) + j);
    LeastIs(c, best);
    var e := Least(c, best);
    forall t | t in c ensures Units(k, t.expires) == First(k, now) + j && t.expires <= MAX_TVAL {
      UnitAt(slots, now, k, j, t);
    }
    if found {
      FirstUnit(k, now, best);
    } else {
      assert c[0] in c;
      if e == best {
        assert c[0].expires == e;
      }
    }
    LevelLeast(slots, now, k, j, e);
  }

  // ------------------------------------------------------------ the minimum

  /** The least expiry of all pending timers; MAX_TVAL if there is none. */
  ghost predicate Earliest(p: multiset<Timer>, e: nat) {
    if p == multiset{} then e == MAX_TVAL
    else (exists t :: t in p && t.expires == e) && forall t | t in p :: e <= t.expires
  }

  lemma LeastOfAll(slots: seq<seq<Timer>>, e: nat)
    requires |slots| == LISTS && LeastBelow(slots, 5, e)
    ensures Earliest(Bag(slots), e)
  {
    hide LevelOf;
    var b, t :| 0 <= b < LISTS && t in slots[b] && t.expires == e;
    BagMember(slots, t);
    forall u | u in Bag(slots) ensures e <= u.expires {
      BagMember(slots, u);
      var i :| 0 <= i < LISTS && u in slots[i];
      SlotOf(i);
    }
  }

  lemma NoneAtAll(slots: seq<seq<Timer>>)
    requires |slots| == LISTS && NoneBelow(slots, 5)
    ensures Earliest(Bag(slots), MAX_TVAL)
  {
    hide LevelOf;
    forall b | 0 <= b < LISTS ensures slots[b] == [] {
      SlotOf(b);
    }
    BagOfEmpties(slots);
  }

  /** An expiry before the begin of level k + 1 that is the least up to level k is the
      least of all. */
  lemma DoneAt(slots: seq<seq<Timer>>, now: nat, k: nat, e: nat)
    requires SlotsFit(slots, now) && k <= 4 && LeastBelow(slots, k + 1, e)
    requires k < 4 ==> e < Begin(k + 1, now)
    ensures Earliest(Bag(slots), e)
  {
    hide LevelOf, Begin, Fits;
    forall b, t | 0 <= b < LISTS && t in slots[b] && LevelOf(b) < 5 ensures e <= t.expires {
      SlotOf(b);
      if LevelOf(b) > k {
        NotBefore(now, b, t.expires, k + 1);
      }
    }
    assert LeastBelow(slots, 5, e);
    LeastOfAll(slots, e);
  }

  /** The search from level k on ends with the least expiry of all. */
  lemma {:induction false} SearchUpFinds(slots: seq<seq<Timer>>, now: nat, k: nat, found: bool, best: nat)
    requires Within(slots, now) && 1 <= k <= 4 && Known(slots, now, k, found, best)
    ensures Earliest(Bag(slots), SearchUp(slots, k, First(k, now), found, best))
    decreases 5 - k
  {
    hide Fits, First, Units, Begin, Within, Known, SearchLevel, Earliest, LeastBelow, NoneBelow;
    WithinFits(slots, now);
    var w := First(k, now);
    var at := SearchLevelFinds(slots, now, k, 0, found, best);
    var (found', e, slot) := SearchLevel(slots, k, w % 64, 0, found, best);
    LevelDone(slots, now, k, at, found', e, slot);
    if k < 4 {
      FirstUp(k, now);
      if !(found' && w % 64 != 0 && slot >= w % 64) {
        SearchUpFinds(slots, now, k + 1, found', e);
      }
    }
  }

  lemma WithinFits(slots: seq<seq<Timer>>, now: nat)
    requires Within(slots, now)
    ensures SlotsFit(slots, now) && |slots| == LISTS
  {
  }

  /** After a level: finished, or the knowledge that the next level starts with. */
  lemma LevelDone(slots: seq<seq<Timer>>, now: nat, k: nat, at: nat, found: bool, e: nat, slot: nat)
    requires SlotsFit(slots, now) && k <= 4
    requires found ==> at < Width(k) && slot == (First(k, now) + at) % Width(k)
    requires found ==> Units(k, e) == First(k, now) + at && LeastBelow(slots, k + 1, e)
    requires !found ==> NoneBelow(slots, k + 1) && e == MAX_TVAL
    ensures var w := First(k, now) % Width(k);
      if found && w != 0 && slot >= w then Earliest(Bag(slots), e)
      else if k == 4 then Earliest(Bag(slots), e)
      else Known(slots, now, k + 1, found, e)
  {
    hide Fits, First, Units, Begin, Earliest, LeastBelow, NoneBelow;
    if found {
      if k < 4 {
        NextBegin(k, now, e, at);
        if e < Begin(k + 1, now) {
          DoneAt(slots, now, k, e);
        }
      } else {
        LeastOfAll(slots, e);
      }
    } else if k == 4 {
      NoneAtAll(slots);
    }
  }

  /** gp_next_timer returns the earliest expiry of all pending timers. */
  lemma NextTimerIsEarliest(w: Wheel)
    requires Inv(w) && forall t | t in Pending(w) :: t.expires <= MAX_TVAL
    ensures Earliest(Pending(w), NextTimer(w.slots, w.now))
  {
    hide Fits, First, Units, Begin, Known, SearchRoot, SearchUp, Earliest, LeastBelow, NoneBelow;
    var slots, now := w.slots, w.now;
    forall b, t: Timer | 0 <= b < LISTS && t in slots[b] ensures t.expires <= MAX_TVAL {
      BagMember(slots, t);
    }
    var at := SearchRootFinds(slots, now, 0);
    var (found, e, slot) := SearchRoot(slots, now % 256, 0);
    RootUnits(now);
    LevelDone(slots, now, 0, at, found, e, slot);
    FirstUp(0, now);
    if !(found && now % 256 != 0 && slot >= now % 256) {
      SearchUpFinds(slots, now, 1, found, e);
    }
  }

  lemma RootUnits(now: nat)
    ensures First(0, now) == now
  {
  }

  /** The field next_timer is the earliest expiry after every add ... */
  lemma AddKeepsNext(w: Wheel, t: Timer)
    requires Inv(w) && w.now <= t.expires <= w.now + MAX_TVAL && Rearmable(t)
    requires t.expires <= MAX_TVAL && forall u | u in Pending(w) :: u.expires <= MAX_TVAL
    ensures Earliest(Pending(InternalAdd(w, t)), InternalAdd(w, t).next)
  {
    hide Fits, NextTimer, Earliest;
    PutKeeps(w.slots, w.now, t);
    PutBag(w.slots, w.now, t);
    NextTimerIsEarliest(InternalAdd(w, t));
  }

  // ----------------------------------------------------- ... and every tick

  ghost predicate InRange(w: Wheel) {
    forall t | t in Pending(w) :: t.expires <= MAX_TVAL
  }

  lemma CascadeKeepsNext(w: Wheel, k: nat, b: nat)
    requires Inv(w) && 1 <= k <= 4 && b < LISTS && BeginsNow(k, w.now, b) && Ahead(w.now, w.slots[b])
    requires InRange(w) && Earliest(Pending(w), w.next)
    ensures Earliest(Pending(Cascade(w, b)), Cascade(w, b).next)
  {
    hide Fits, NextTimer, Earliest, BeginsNow, PutAll;
    CascadeKeeps(w, k, b);
    if w.slots[b] != [] {
      NextTimerIsEarliest(Cascade(w, b));
    }
  }

  lemma {:induction false} CascadeFromKeepsNext(w: Wheel, k: nat)
    requires Inv(w) && 1 <= k <= 4 && w.now % Grain(k) == 0 && Emptied(w, 1, k - 1)
    requires InRange(w) && Earliest(Pending(w), w.next)
    ensures Earliest(Pending(CascadeFrom(w, k)), CascadeFrom(w, k).next)
    decreases 5 - k
  {
    hide SlotsFit, Units, Cascade, Emptied, Pending, Earliest;
    ListBound(k, Units(k, w.now));
    var b := List(k, Units(k, w.now));
    InvSize(w);
    CascadeKeeps(w, k, b);
    CascadeKeepsNext(w, k, b);
    CascadeEmpties(w, k);
    Aligned(k, w.now);
    if Current(k, w.now) == 0 && k < 4 {
      CascadeFromKeepsNext(Cascade(w, b), k + 1);
    }
  }

  lemma {:induction false} FireSetsNext(w: Wheel, b: nat)
    requires Firing(w, b) && w.slots[b] != [] && InRange(Fire(w, b).0)
    ensures Earliest(Pending(Fire(w, b).0), Fire(w, b).0.next)
    decreases CountAt(w.slots[b], w.now - 1), |w.slots[b]|
  {
    hide Fits, FireOne, NextTimer, Pending, Inv, CountAt, Earliest, InRange;
    FireOneKeeps(w, b);
    var w1 := FireOne(w, b);
    if |w.slots[b]| == 1 {
      LastLeft(w, b);
      SettledFits(w1, b);
      NextTimerIsEarliest1(w, b);
    } else {
      FireOneShrinks(w, b);
      TailStays(w, b);
      FireSetsNext(w1, b);
    }
  }

  lemma NextTimerIsEarliest1(w: Wheel, b: nat)
    requires Firing(w, b) && w.slots[b] != [] && Inv(FireOne(w, b)) && InRange(FireOne(w, b))
    ensures Earliest(Pending(FireOne(w, b)), FireOne(w, b).next)
  {
    hide Fits, NextTimer, Pending, Earliest, SlotsFit, Put;
    NextTimerIsEarliest(FireOne(w, b));
  }

  /** A tick leaves next_timer at the earliest expiry if it found it there. */
  lemma TickKeepsNext(w: Wheel)
    requires Inv(w) && InRange(w) && InRange(Tick(w).0) && Earliest(Pending(w), w.next)
    ensures Earliest(Pending(Tick(w).0), Tick(w).0.next)
  {
    hide Inv, Pending, Earliest, CascadeFrom, InRange, Firing;
    CascadedKeeps(w);
    TickFires(w);
    var w1, b := Cascaded(w).(now := w.now + 1), w.now % 256;
    if w.now % 256 == 0 {
      NoLevelsYet(w);
      CascadeFromKeepsNext(w, 1);
    }
    SamePending(Cascaded(w), w1);
    FiringSize(w1, b);
    if w1.slots[b] != [] {
      FireSetsNext(w1, b);
    }
  }

  lemma NoLevelsYet(w: Wheel)
    requires Inv(w)
    ensures Emptied(w, 1, 0)
  {
  }

  lemma SamePending(w: Wheel, w': Wheel)
    requires w'.slots == w.slots
    ensures Pending(w') == Pending(w)
  {
  }

  /** gp_timer_del does not search again: the field stays, never too late, and it is still the
      earliest expiry if and only if a timer with that expiry is left, or none was pending. */
  lemma DelLeavesNext(w: Wheel, id: nat)
    requires Earliest(Pending(w), w.next)
    ensures var w', p := Del(w, id), Pending(w);
      && w'.next == w.next && w'.now == w.now
      && (forall t | t in Pending(w') :: w'.next <= t.expires)
      && (Earliest(Pending(w'), w'.next) <==>
          || (exists t :: t in p && t.id != id && t.expires == w.next)
          || (w.next == MAX_TVAL && forall t | t in p :: t.id == id))
  {
    hide Pending;
    var p, p' := Pending(w), Pending(Del(w, id));
    forall t: Timer ensures p'[t] == if t.id == id then 0 else p[t] {
      DelCounts(w, id, t);
    }
    DelKeepsFields(w, id);
    if t :| t in p && t.id != id && t.expires == w.next {
      assert t in p';
    }
    if forall t | t in p :: t.id == id {
      assert p' == multiset{};
    }
  }

  lemma DelKeepsFields(w: Wheel, id: nat)
    ensures Del(w, id).next == w.next && Del(w, id).now == w.now
  {
  }
}
