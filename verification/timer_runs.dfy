/**
 Exact firing over whole runs: whatever other timers are added, changed, deleted and
 fired meanwhile, a timer fires at its expiry and then every interval, and at no other
 tick.
 */
module TimerRuns {
  import opened Options
  import opened Bags
  import opened TimerWheel
  import opened TimerTicks

  datatype LogEntry = LogEntry(tick: nat, timer: Timer)

  /** The firings of one tick. */
  function Stamp(now: nat, fired: seq<Timer>): seq<LogEntry> {
    seq(|fired|, i requires 0 <= i < |fired| => LogEntry(now, fired[i]))
  }

  /** gp_run_timers: all ticks up to `jiffies`. */
  function RunTimers(w: Wheel, jiffies: nat): (Wheel, seq<LogEntry>)
    requires Inv(w)
    decreases jiffies + 1 - w.now
  {
    if w.now > jiffies then (w, [])
    else
      TickConserves(w);
      var (w', fired) := Tick(w);
      var (last, log) := RunTimers(w', jiffies);
      (last, Stamp(w.now, fired) + log)
  }

  datatype Op =
    | Start(timer: Timer)
    | Change(timer: Timer)
    | Stop(id: nat)
    | Advance(jiffies: nat)

  /** What callers owe: an expiry less than a full turn of the 32-bit clock away, be it to
      come or over, and an interval that is positive. */
  predicate Allowed(w: Wheel, op: Op) {
    (op.Start? || op.Change?) ==>
      w.now <= op.timer.expires + TURN && op.timer.expires <= w.now + MAX_TVAL && Rearmable(op.timer)
  }

  function Apply(w: Wheel, op: Op): (Wheel, seq<LogEntry>)
    requires Inv(w) && Allowed(w, op)
  {
    match op
    case Start(t) => (Add(w, t), [])
    case Change(t) => (Add(Del(w, t.id), t), [])
    case Stop(id) => (Del(w, id), [])
    case Advance(jiffies) => RunTimers(w, jiffies)
  }

  /** At no tick up to `jiffies` a timer with an interval of one full turn of tv1 has another
      due timer behind it. */
  ghost predicate SmoothRun(w: Wheel, jiffies: nat)
    requires Inv(w)
    decreases jiffies + 1 - w.now
  {
    hide Inv, Tick;
    w.now <= jiffies ==>
      NoRevisit(DueList(w)) && (TickConserves(w); SmoothRun(Tick(w).0, jiffies))
  }

  // --------------------------------------------- deleting and adding, as bags

  lemma {:induction false} WithoutCounts(c: seq<Timer>, id: nat, t: Timer)
    ensures multiset(Without(c, id))[t] == if t.id == id then 0 else multiset(c)[t]
  {
    if c != [] {
      WithoutCounts(c[1..], id, t);
      assert c == [c[0]] + c[1..];
    }
  }

  lemma {:induction false} BagWithout(b: seq<seq<Timer>>, b': seq<seq<Timer>>, id: nat, t: Timer)
    requires |b'| == |b| && forall i | 0 <= i < |b| :: b'[i] == Without(b[i], id)
    ensures Bag(b')[t] == if t.id == id then 0 else Bag(b)[t]
  {
    if b != [] {
      WithoutCounts(b[0], id, t);
      BagWithout(b[1..], b'[1..], id, t);
    }
  }

  lemma DelCounts(w: Wheel, id: nat, t: Timer)
    ensures Pending(Del(w, id))[t] == if t.id == id then 0 else Pending(w)[t]
  {
    BagWithout(w.slots, Del(w, id).slots, id, t);
  }

  lemma DelKeeps(w: Wheel, id: nat)
    requires Inv(w)
    ensures Inv(Del(w, id)) && Del(w, id).now == w.now
  {
    hide Fits;
    forall b, t | 0 <= b < LISTS && t in Del(w, id).slots[b] ensures t in w.slots[b] {
      WithoutCounts(w.slots[b], id, t);
      assert multiset(Without(w.slots[b], id))[t] > 0;
      assert t in multiset(w.slots[b]);
    }
  }

  lemma AddKeeps(w: Wheel, t: Timer)
    requires Inv(w) && w.now <= t.expires + TURN && t.expires <= w.now + MAX_TVAL && Rearmable(t)
    ensures Inv(Add(w, t)) && Add(w, t).now == w.now
    ensures Pending(Add(w, t)) == Pending(Del(w, t.id)) + multiset{Linked(w.now, t)}
  {
    hide Fits, NextTimer, Put;
    var u := Linked(w.now, t);
    DelKeeps(w, t.id);
    PutKeeps(Del(w, t.id).slots, w.now, u);
    PutBag(Del(w, t.id).slots, w.now, u);
  }

  // ----------------------------------------------------------- one timer's life

  /** `t` is pending, once, and is the only pending timer with its id. */
  ghost predicate Sole(p: multiset<Timer>, t: Timer) {
    p[t] == 1 && forall u | u in p && u.id == t.id :: u == t
  }

  ghost predicate Gone(p: multiset<Timer>, id: nat) {
    forall u | u in p :: u.id != id
  }

  /** The ticks at which a log has the timer `id` fire. */
  function TicksOf(log: seq<LogEntry>, id: nat): seq<nat> {
    if log == [] then []
    else (if log[0].timer.id == id then [log[0].tick] else []) + TicksOf(log[1..], id)
  }

  /** The ticks before `until` at which a timer has to fire: its expiry, and then every
      interval if it repeats. */
  function Schedule(t: Timer, until: nat): seq<nat>
    requires Rearmable(t)
    decreases until - t.expires
  {
    if t.expires >= until then []
    else [t.expires] + if t.repeat then Schedule(Rearm(t), until) else []
  }

  lemma {:induction false} TicksOfAppend(a: seq<LogEntry>, b: seq<LogEntry>, id: nat)
    ensures TicksOf(a + b, id) == TicksOf(a, id) + TicksOf(b, id)
  {
    if a == [] {
      assert a + b == b;
    } else {
      TicksOfAppend(a[1..], b, id);
      assert (a + b)[1..] == a[1..] + b;
      var head := if a[0].timer.id == id then [a[0].tick] else [];
      assert head + (TicksOf(a[1..], id) + TicksOf(b, id)) == (head + TicksOf(a[1..], id)) + TicksOf(b, id);
    }
  }

  lemma {:induction false} TicksOfTick(now: nat, fired: seq<Timer>, t: Timer)
    requires forall u | u in fired && u.id == t.id :: u == t
    ensures multiset(fired)[t] == 0 ==> TicksOf(Stamp(now, fired), t.id) == []
    ensures multiset(fired)[t] == 1 ==> TicksOf(Stamp(now, fired), t.id) == [now]
  {
    if fired != [] {
      TicksOfTick(now, fired[1..], t);
      assert fired == [fired[0]] + fired[1..];
      assert Stamp(now, fired)[1..] == Stamp(now, fired[1..]);
      assert fired[0] in fired;
    }
  }

  /** What a tick puts back for an id is the rearmed timer of that id. */
  lemma {:induction false} RearmedOf(fired: seq<Timer>, t: Timer, v: Timer)
    requires v.id == t.id && forall u | u in fired && u.id == t.id :: u == t
    ensures Rearmed(fired)[v] == if t.repeat && v == Rearm(t) then multiset(fired)[t] else 0
  {
    if fired != [] {
      RearmedOf(fired[1..], t, v);
      assert fired == [fired[0]] + fired[1..];
      assert fired[0] in fired;
      if fired[0].id != t.id {
        assert Rearm(fired[0]) != v;
      }
    }
  }

  /** A tick fires the timer if it is due, and then re-arms or drops it. */
  lemma TickOnTimer(w: Wheel, t: Timer)
    requires Inv(w) && NoRevisit(DueList(w)) && Sole(Pending(w), t)
    ensures var (w', fired) := Tick(w);
      && TicksOf(Stamp(w.now, fired), t.id) == (if t.expires == w.now then [w.now] else [])
      && (t.expires != w.now ==> Sole(Pending(w'), t))
      && (t.expires == w.now && t.repeat ==> Sole(Pending(w'), Rearm(t)))
      && (t.expires == w.now && !t.repeat ==> Gone(Pending(w'), t.id))
  {
    hide Inv, Pending, Tick, Rearmed;
    var (w', fired) := Tick(w);
    TickConserves(w);
    FiredIsDue(w);
    var p, p' := Pending(w), Pending(w');
    forall u | u in fired ensures u.expires == w.now && u in p {
      assert multiset(fired)[u] > 0;
    }
    TicksOfTick(w.now, fired, t);
    forall v: Timer | v.id == t.id
      ensures p'[v] + multiset(fired)[v] == p[v] + (if t.repeat && v == Rearm(t) then multiset(fired)[t] else 0)
    {
      RearmedOf(fired, t, v);
      assert (p' + multiset(fired))[v] == (p + Rearmed(fired))[v];
    }
  }

  lemma FiredIsDue(w: Wheel)
    requires Inv(w) && NoRevisit(DueList(w))
    ensures FiresDue(w, Tick(w).1)
  {
    hide Inv, Tick, Pending, NoRevisit, DueList;
    TickExact(w);
  }

  lemma {:induction false} RearmedSource(fired: seq<Timer>, t: Timer)
    requires t in Rearmed(fired)
    ensures exists u :: u in fired && u.repeat && Rearm(u) == t
  {
    if fired[0].repeat && Rearm(fired[0]) == t {
      assert fired[0] in fired;
    } else {
      RearmedSource(fired[1..], t);
      var u :| u in fired[1..] && u.repeat && Rearm(u) == t;
      assert u in fired;
    }
  }

  // ------------------------------------------------------------------- runs

  /** The timer as it is pending at `now`, if it is; its earlier firings are over. */
  function Upcoming(t: Timer, now: nat): Option<Timer>
    requires Rearmable(t)
    decreases now - t.expires
  {
    if t.expires >= now then Some(t)
    else if t.repeat then Upcoming(Rearm(t), now)
    else None
  }

  /** The pending timers agree with what is upcoming for an id. */
  ghost predicate Agrees(p: multiset<Timer>, id: nat, up: Option<Timer>) {
    match up
    case Some(t) => t.id == id && Sole(p, t)
    case None => Gone(p, id)
  }

  /** The ticks of what is upcoming. */
  function ScheduleOf(up: Option<Timer>, until: nat): seq<nat>
    requires up.Some? ==> Rearmable(up.value)
  {
    match up
    case Some(t) => Schedule(t, until)
    case None => []
  }

  lemma {:induction false} UpcomingFacts(t: Timer, now: nat, until: nat)
    requires Rearmable(t) && now <= until
    ensures var up := Upcoming(t, now);
      && (up.Some? ==> up.value.id == t.id && up.value.expires >= now && Rearmable(up.value))
      && Schedule(t, until) == Schedule(t, now) + ScheduleOf(up, until)
    decreases now - t.expires
  {
    hide Schedule;
    ScheduleStep(t, now);
    ScheduleStep(t, until);
    if t.expires < now && t.repeat {
      UpcomingFacts(Rearm(t), now, until);
      var up := Upcoming(t, now);
      Regroup([t.expires], Schedule(Rearm(t), now), ScheduleOf(up, until));
    } else {
      Regroup([], [], Schedule(t, until));
      Regroup([], [], Schedule(t, now));
    }
  }

  lemma ScheduleStep(t: Timer, until: nat)
    requires Rearmable(t)
    ensures Schedule(t, until) ==
      if t.expires >= until then [] else if t.repeat then [t.expires] + Schedule(Rearm(t), until) else [t.expires]
  {
  }

  lemma Regroup(a: seq<nat>, b: seq<nat>, c: seq<nat>)
    ensures a + (b + c) == (a + b) + c && [] + c == c && c + [] == c
  {
  }

  lemma {:induction false} RunOnTimer(w: Wheel, jiffies: nat, t: Timer)
    requires Inv(w) && SmoothRun(w, jiffies) && Sole(Pending(w), t) && w.now <= t.expires && Rearmable(t)
    ensures var (w', log) := RunTimers(w, jiffies);
      && Inv(w') && w'.now == (if w.now > jiffies then w.now else jiffies + 1)
      && TicksOf(log, t.id) == Schedule(t, w'.now)
      && Agrees(Pending(w'), t.id, Upcoming(t, w'.now))
    decreases jiffies + 1 - w.now
  {
    hide Inv, Pending, Tick, NoRevisit, DueList, Sole, Gone;
    if w.now <= jiffies {
      TickConserves(w);
      TickOnTimer(w, t);
      var (w', fired) := Tick(w);
      var (last, log) := RunTimers(w', jiffies);
      TicksOfAppend(Stamp(w.now, fired), log, t.id);
      if t.expires != w.now {
        RunOnTimer(w', jiffies, t);
      } else if t.repeat {
        RunOnTimer(w', jiffies, Rearm(t));
      } else {
        RunWithout(w', jiffies, t.id);
      }
    }
  }

  /** An id that is not pending never fires. */
  lemma {:induction false} RunWithout(w: Wheel, jiffies: nat, id: nat)
    requires Inv(w) && SmoothRun(w, jiffies) && Gone(Pending(w), id)
    ensures var (w', log) := RunTimers(w, jiffies);
      && Inv(w') && w'.now == (if w.now > jiffies then w.now else jiffies + 1)
      && TicksOf(log, id) == [] && Gone(Pending(w'), id)
    decreases jiffies + 1 - w.now
  {
    hide Inv, Pending, Tick, NoRevisit, DueList, Gone;
    if w.now <= jiffies {
      TickConserves(w);
      TickWithout(w, id);
      var (w', fired) := Tick(w);
      var (last, log) := RunTimers(w', jiffies);
      TicksOfAppend(Stamp(w.now, fired), log, id);
      RunWithout(w', jiffies, id);
    }
  }

  lemma TickWithout(w: Wheel, id: nat)
    requires Inv(w) && NoRevisit(DueList(w)) && Gone(Pending(w), id)
    ensures var (w', fired) := Tick(w);
      TicksOf(Stamp(w.now, fired), id) == [] && Gone(Pending(w'), id)
  {
    hide Inv, Pending, Tick;
    var (w', fired) := Tick(w);
    TickConserves(w);
    FiredIsDue(w);
    forall u | u in fired ensures u.id != id {
      assert multiset(fired)[u] > 0;
    }
    NoneFires(w.now, fired, id);
    forall t | t in Pending(w') ensures t.id != id {
      assert (Pending(w') + multiset(fired))[t] == (Pending(w) + Rearmed(fired))[t];
      if t !in Pending(w) {
        RearmedSource(fired, t);
      }
    }
  }

  lemma {:induction false} NoneFires(now: nat, fired: seq<Timer>, id: nat)
    requires forall u | u in fired :: u.id != id
    ensures TicksOf(Stamp(now, fired), id) == []
  {
    if fired != [] {
      NoneFires(now, fired[1..], id);
      assert Stamp(now, fired)[1..] == Stamp(now, fired[1..]);
      assert fired[0] in fired;
    }
  }

  /** Operations on other timers leave this one alone. */
  predicate About(op: Op, id: nat) {
    match op
    case Start(t) => t.id == id
    case Change(t) => t.id == id
    case Stop(i) => i == id
    case Advance(_) => false
  }

  function Run(w: Wheel, ops: seq<Op>): (Wheel, seq<LogEntry>)
    requires Inv(w) && AllAllowed(w, ops)
    decreases |ops|
  {
    hide Inv, Apply;
    if ops == [] then (w, [])
    else
      ApplyKeeps(w, ops[0]);
      var (w', log) := Apply(w, ops[0]);
      var (last, rest) := Run(w', ops[1..]);
      (last, log + rest)
  }

  /** Every operation is allowed at the time it comes. */
  ghost predicate AllAllowed(w: Wheel, ops: seq<Op>)
    requires Inv(w)
    decreases |ops|
  {
    ops != [] ==>
      && Allowed(w, ops[0])
      && (ApplyKeeps(w, ops[0]); AllAllowed(Apply(w, ops[0]).0, ops[1..]))
  }

  /** At no tick of the run a timer with an interval of one full turn has another due timer
      behind it. */
  ghost predicate AllSmooth(w: Wheel, ops: seq<Op>)
    requires Inv(w) && AllAllowed(w, ops)
    decreases |ops|
  {
    ops != [] ==>
      && (ops[0].Advance? ==> SmoothRun(w, ops[0].jiffies))
      && (ApplyKeeps(w, ops[0]); AllSmooth(Apply(w, ops[0]).0, ops[1..]))
  }

  lemma {:induction false} RunKeeps(w: Wheel, jiffies: nat)
    requires Inv(w)
    ensures Inv(RunTimers(w, jiffies).0) && RunTimers(w, jiffies).0.now >= w.now
    decreases jiffies + 1 - w.now
  {
    hide Inv, Tick;
    if w.now <= jiffies {
      TickConserves(w);
      RunKeeps(Tick(w).0, jiffies);
    }
  }

  lemma ApplyKeeps(w: Wheel, op: Op)
    requires Inv(w) && Allowed(w, op)
    ensures Inv(Apply(w, op).0)
  {
    hide Inv, Add, Del, RunTimers;
    match op
    case Start(t) => AddKeeps(w, t);
    case Change(t) =>
      DelKeeps(w, t.id);
      AddKeeps(Del(w, t.id), t);
    case Stop(id) => DelKeeps(w, id);
    case Advance(jiffies) => RunKeeps(w, jiffies);
  }

  /** An operation on other timers leaves the pending ones of an id as they are. */
  lemma OtherCounts(w: Wheel, op: Op, u: Timer)
    requires Inv(w) && Allowed(w, op) && !About(op, u.id) && !op.Advance?
    ensures Apply(w, op).1 == [] && Apply(w, op).0.now == w.now
    ensures Pending(Apply(w, op).0)[u] == Pending(w)[u]
  {
    hide Pending, Add, Del, Fits;
    match op {
      case Start(t) => AddKeeps(w, t); DelCounts(w, t.id, u);
      case Change(t) =>
        DelKeeps(w, t.id);
        AddKeeps(Del(w, t.id), t);
        DelCounts(w, t.id, u);
        DelCounts(Del(w, t.id), t.id, u);
      case Stop(i) => DelKeeps(w, i); DelCounts(w, i, u);
    }
  }

  /** ... and so what is upcoming for it. */
  lemma OtherOp(w: Wheel, op: Op, id: nat, up: Option<Timer>)
    requires Inv(w) && Allowed(w, op) && !About(op, id) && !op.Advance?
    requires Agrees(Pending(w), id, up)
    ensures Apply(w, op).1 == [] && Apply(w, op).0.now == w.now
    ensures Agrees(Pending(Apply(w, op).0), id, up)
  {
    hide Pending, Apply, Inv;
    OtherCounts(w, op, Timer(id, 0, 0, false));
    forall u: Timer | u.id == id ensures Pending(Apply(w, op).0)[u] == Pending(w)[u] {
      OtherCounts(w, op, u);
    }
  }

  lemma AdvanceOp(w: Wheel, jiffies: nat, id: nat, up: Option<Timer>)
    requires Inv(w) && SmoothRun(w, jiffies) && Agrees(Pending(w), id, up)
    requires up.Some? ==> up.value.expires >= w.now && Rearmable(up.value)
    ensures var (w', log) := RunTimers(w, jiffies);
      && w'.now >= w.now
      && TicksOf(log, id) == ScheduleOf(up, w'.now)
      && Agrees(Pending(w'), id, if up.Some? then Upcoming(up.value, w'.now) else None)
  {
    hide Inv, Pending, SmoothRun, RunTimers;
    RunKeeps(w, jiffies);
    if up.Some? {
      RunOnTimer(w, jiffies, up.value);
    } else {
      RunWithout(w, jiffies, id);
    }
  }

  /** Over any smooth run of operations on other timers, the ticks at which a timer fires
      are exactly the ones of its schedule, up to the time the run has reached. */
  lemma {:induction false} ExactFiring(w: Wheel, ops: seq<Op>, id: nat, up: Option<Timer>)
    requires Inv(w) && AllAllowed(w, ops) && AllSmooth(w, ops) && Agrees(Pending(w), id, up)
    requires up.Some? ==> up.value.expires >= w.now && Rearmable(up.value)
    requires forall op | op in ops :: !About(op, id)
    ensures var (w', log) := Run(w, ops);
      w.now <= w'.now && TicksOf(log, id) == ScheduleOf(up, w'.now)
    decreases |ops|
  {
    hide Inv, Pending, SmoothRun, RunTimers, Agrees, About;
    if ops == [] {
      NoneYet(up, w.now);
    } else {
      var op := ops[0];
      assert op in ops && forall o | o in ops[1..] :: o in ops;
      ApplyKeeps(w, op);
      var (w1, log) := Apply(w, op);
      var (w2, rest) := Run(w1, ops[1..]);
      TicksOfAppend(log, rest, id);
      if op.Advance? {
        AdvanceOp(w, op.jiffies, id, up);
        var up1 := if up.Some? then Upcoming(up.value, w1.now) else None;
        if up.Some? { UpcomingFacts(up.value, w1.now, w1.now); }
        ExactFiring(w1, ops[1..], id, up1);
        if up.Some? { UpcomingFacts(up.value, w1.now, w2.now); }
      } else {
        OtherOp(w, op, id, up);
        ExactFiring(w1, ops[1..], id, up);
      }
    }
  }

  lemma NoneYet(up: Option<Timer>, now: nat)
    requires up.Some? ==> up.value.expires >= now && Rearmable(up.value)
    ensures ScheduleOf(up, now) == []
  {
  }

  /** An added timer fires at exactly its expiry, once, or, if it repeats, at e, e + i,
      e + 2i and so on: every one of these ticks that the run has reached, and no other.
      When the expiry was over, this is a full turn of the clock later. */
  lemma AddedFiresOnTime(w: Wheel, t: Timer, ops: seq<Op>)
    requires Inv(w) && Allowed(w, Start(t)) && Inv(Add(w, t))
    requires AllAllowed(Add(w, t), ops) && AllSmooth(Add(w, t), ops) && forall op | op in ops :: !About(op, t.id)
    ensures var (w', log) := Run(Add(w, t), ops);
      w.now <= w'.now && TicksOf(log, t.id) == Schedule(Linked(w.now, t), w'.now)
  {
    hide Fits, Pending, Del, Run, Add, AllAllowed, AllSmooth;
    AddKeeps(w, t);
    AddedIsSole(w, t);
    ExactFiring(Add(w, t), ops, t.id, Some(Linked(w.now, t)));
  }

  lemma AddedIsSole(w: Wheel, t: Timer)
    requires Inv(w) && Allowed(w, Start(t))
    ensures Inv(Add(w, t)) && Sole(Pending(Add(w, t)), Linked(w.now, t))
  {
    hide Fits, Pending, Del, Add;
    AddKeeps(w, t);
    var p := Pending(Add(w, t));
    forall u: Timer | u.id == t.id ensures p[u] == if u == Linked(w.now, t) then 1 else 0 {
      DelCounts(w, t.id, u);
    }
  }

  /** In a run that reaches the expiry of an added timer the timer fires at that tick if and
      only if it was not over when the timer was added. */
  lemma FiresAtExpiry(w: Wheel, t: Timer, ops: seq<Op>)
    requires Inv(w) && Allowed(w, Start(t)) && Inv(Add(w, t))
    requires AllAllowed(Add(w, t), ops) && AllSmooth(Add(w, t), ops) && forall op | op in ops :: !About(op, t.id)
    requires t.expires < Run(Add(w, t), ops).0.now
    ensures t.expires in TicksOf(Run(Add(w, t), ops).1, t.id) <==> w.now <= t.expires
  {
    hide Inv, Add, Run, AllAllowed, AllSmooth, Schedule;
    InvSize(w);
    AddedFiresOnTime(w, t, ops);
    var u, until := Linked(w.now, t), Run(Add(w, t), ops).0.now;
    ScheduleFrom(u, until);
    ScheduleStep(u, until);
  }

  lemma {:induction false} ScheduleFrom(t: Timer, until: nat)
    requires Rearmable(t)
    ensures forall e | e in Schedule(t, until) :: t.expires <= e
    decreases until - t.expires
  {
    if t.expires < until && t.repeat {
      ScheduleFrom(Rearm(t), until);
    }
  }

  /** A one-shot timer added to an idle wheel at tick 1 for tick 0 fires at tick 2^32. */
  lemma LateTimer(jiffies: nat) returns (w: Wheel, t: Timer)
    ensures Inv(w) && w.now == 1 && t.expires == 0 && !t.repeat
    ensures Allowed(w, Start(t)) && AllAllowed(w, [Start(t), Advance(jiffies)])
    ensures TicksOf(Run(w, [Start(t), Advance(jiffies)]).1, t.id) == if jiffies < TURN then [] else [TURN]
  {
    hide Add, RunTimers;
    w, t := Wheel(1, MAX_TVAL, seq(LISTS, _ => [])), Timer(0, 0, 0, false);
    AddKeeps(w, t);
    var w1, ops := Add(w, t), [Advance(jiffies)];
    BagOfEmpties(w.slots);
    assert NoFullTurns(w);
    AddKeepsTurns(w, t);
    NoTurnsSmooth(w1, ops);
    AddedFiresOnTime(w, t, ops);
    RunReaches(w1, jiffies);
    ScheduleAt(Linked(1, t), Run(w1, ops).0.now, 0);
    assert [Start(t), Advance(jiffies)][1..] == ops && [] + Run(w1, ops).1 == Run(w1, ops).1;
  }

  lemma {:induction false} RunReaches(w: Wheel, jiffies: nat)
    requires Inv(w)
    ensures RunTimers(w, jiffies).0.now == if w.now > jiffies then w.now else jiffies + 1
    decreases jiffies + 1 - w.now
  {
    hide Inv, Tick;
    if w.now <= jiffies {
      TickConserves(w);
      RunReaches(Tick(w).0, jiffies);
    }
  }

  /** The schedule spelled out. */
  lemma {:induction false} ScheduleAt(t: Timer, until: nat, j: nat)
    requires Rearmable(t)
    ensures t.repeat && t.expires + j * t.interval < until ==>
      j < |Schedule(t, until)| && Schedule(t, until)[j] == t.expires + j * t.interval
    ensures t.repeat && t.expires + j * t.interval >= until ==> |Schedule(t, until)| <= j
    ensures !t.repeat ==> Schedule(t, until) == if t.expires < until then [t.expires] else []
    decreases j
  {
    if t.repeat && j > 0 {
      ScheduleAt(Rearm(t), until, j - 1);
      assert j * t.interval == t.interval + (j - 1) * t.interval;
    }
  }

  /** Two repeating timers with an interval of one full turn, due at the same tick: the
      tick does not fire each of them once. */
  lemma FullTurnsFireTwice() returns (w: Wheel)
    ensures Inv(w) && w.now == 1
    ensures w.slots[1] == [Timer(1, 1, 256, true), Timer(2, 1, 256, true)]
    ensures !FiresDue(w, Tick(w).1)
  {
    w := Wheel(1, 1, seq(LISTS, b => if b == 1 then [Timer(1, 1, 256, true), Timer(2, 1, 256, true)] else []));
    assert Inv(w);
    TickExact(w);
    assert FullTurn(DueList(w)[0]);
  }

  // ------------------------------------------------------- when runs are smooth

  /** Every tick of gp_run_timers fires each due timer once and no other. */
  ghost predicate ExactTicks(w: Wheel, jiffies: nat)
    requires Inv(w)
    decreases jiffies + 1 - w.now
  {
    hide Inv, Tick;
    w.now <= jiffies ==>
      FiresDue(w, Tick(w).1) && (TickConserves(w); ExactTicks(Tick(w).0, jiffies))
  }

  ghost predicate AllExact(w: Wheel, ops: seq<Op>)
    requires Inv(w) && AllAllowed(w, ops)
    decreases |ops|
  {
    ops != [] ==>
      && (ops[0].Advance? ==> ExactTicks(w, ops[0].jiffies))
      && (ApplyKeeps(w, ops[0]); AllExact(Apply(w, ops[0]).0, ops[1..]))
  }

  lemma {:induction false} SmoothTicksExact(w: Wheel, jiffies: nat)
    requires Inv(w)
    ensures ExactTicks(w, jiffies) <==> SmoothRun(w, jiffies)
    decreases jiffies + 1 - w.now
  {
    hide Inv, Tick, NoRevisit, DueList, FiresDue;
    if w.now <= jiffies {
      TickExact(w);
      TickConserves(w);
      SmoothTicksExact(Tick(w).0, jiffies);
    }
  }

  /** Every tick of a run fires each due timer once and no other if and only if the run is
      smooth. */
  lemma {:induction false} SmoothIsExact(w: Wheel, ops: seq<Op>)
    requires Inv(w) && AllAllowed(w, ops)
    ensures AllExact(w, ops) <==> AllSmooth(w, ops)
    decreases |ops|
  {
    hide Inv, Apply, SmoothRun, ExactTicks;
    if ops != [] {
      if ops[0].Advance? {
        SmoothTicksExact(w, ops[0].jiffies);
      }
      ApplyKeeps(w, ops[0]);
      SmoothIsExact(Apply(w, ops[0]).0, ops[1..]);
    }
  }

  ghost predicate NoFullTurns(w: Wheel) {
    forall t | t in Pending(w) :: !FullTurn(t)
  }

  predicate SetsFullTurn(op: Op) {
    (op.Start? || op.Change?) && FullTurn(op.timer)
  }

  lemma NoTurnsDue(w: Wheel)
    requires Inv(w) && NoFullTurns(w)
    ensures NoRevisit(DueList(w))
  {
    hide Inv, Tick, Pending;
    var c := DueList(w);
    forall i | 0 <= i < |c| ensures !FullTurn(c[i]) {
      DueExactly(w, c[i]);
      assert c[i] in multiset(c);
    }
  }

  lemma TickKeepsTurns(w: Wheel)
    requires Inv(w) && NoFullTurns(w)
    ensures NoFullTurns(Tick(w).0)
  {
    hide Inv, Pending, Tick;
    var (w', fired) := Tick(w);
    TickConserves(w);
    NoTurnsDue(w);
    FiredIsDue(w);
    forall t | t in Pending(w') ensures !FullTurn(t) {
      assert (Pending(w') + multiset(fired))[t] == (Pending(w) + Rearmed(fired))[t];
      if t !in Pending(w) {
        RearmedSource(fired, t);
        var u :| u in fired && u.repeat && Rearm(u) == t;
        assert multiset(fired)[u] > 0;
      }
    }
  }

  lemma AddKeepsTurns(w: Wheel, t: Timer)
    requires Inv(w) && NoFullTurns(w) && Allowed(w, Start(t)) && !FullTurn(t)
    ensures NoFullTurns(Add(w, t))
  {
    hide Fits, Pending, Add, Del;
    AddKeeps(w, t);
    forall u | u in Pending(Add(w, t)) ensures !FullTurn(u) {
      DelCounts(w, t.id, u);
    }
  }

  lemma DelKeepsTurns(w: Wheel, id: nat)
    requires NoFullTurns(w)
    ensures NoFullTurns(Del(w, id))
  {
    hide Pending, Del;
    forall u | u in Pending(Del(w, id)) ensures !FullTurn(u) {
      DelCounts(w, id, u);
    }
  }

  lemma {:induction false} NoTurnsSmoothRun(w: Wheel, jiffies: nat)
    requires Inv(w) && NoFullTurns(w)
    ensures SmoothRun(w, jiffies) && Inv(RunTimers(w, jiffies).0) && NoFullTurns(RunTimers(w, jiffies).0)
    decreases jiffies + 1 - w.now
  {
    hide Inv, NoFullTurns, Tick, NoRevisit, DueList;
    if w.now <= jiffies {
      NoTurnsDue(w);
      TickConserves(w);
      TickKeepsTurns(w);
      NoTurnsSmoothRun(Tick(w).0, jiffies);
    }
  }

  lemma ApplyKeepsTurns(w: Wheel, op: Op)
    requires Inv(w) && NoFullTurns(w) && Allowed(w, op) && !SetsFullTurn(op)
    ensures Inv(Apply(w, op).0) && NoFullTurns(Apply(w, op).0)
  {
    hide Inv, NoFullTurns, Add, Del, RunTimers;
    ApplyKeeps(w, op);
    match op
    case Start(t) => AddKeepsTurns(w, t);
    case Change(t) =>
      DelKeeps(w, t.id);
      DelKeepsTurns(w, t.id);
      AddKeepsTurns(Del(w, t.id), t);
    case Stop(id) => DelKeepsTurns(w, id);
    case Advance(jiffies) => NoTurnsSmoothRun(w, jiffies);
  }

  /** A run in which no timer ever has an interval of one full turn is smooth. */
  lemma {:induction false} NoTurnsSmooth(w: Wheel, ops: seq<Op>)
    requires Inv(w) && NoFullTurns(w) && AllAllowed(w, ops) && forall op | op in ops :: !SetsFullTurn(op)
    ensures AllSmooth(w, ops)
    decreases |ops|
  {
    hide Inv, NoFullTurns, Apply, SmoothRun, SetsFullTurn;
    if ops != [] {
      assert ops[0] in ops && forall op | op in ops[1..] :: op in ops;
      ApplyKeepsTurns(w, ops[0]);
      if ops[0].Advance? {
        NoTurnsSmoothRun(w, ops[0].jiffies);
      }
      NoTurnsSmooth(Apply(w, ops[0]).0, ops[1..]);
    }
  }
}
