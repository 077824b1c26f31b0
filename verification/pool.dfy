/**
 The thread pool as a system of steps.  A step is one critical section, or the end of a
 callback; the schedule interleaves the steps of workers, submitters and destroyers.
 */
module ThreadPool {

  type Task(==, !new)

  /** A worker is about to look at the queue, blocked in the wait for work, running a task's
      callback, about to count it as finished, or gone. */
  datatype Worker = Ready | Waiting | Running(task: Task) | Finishing(task: Task) | Exited

  /** A call of destroy_task: about to look at task_busy, blocked, or past its wait. */
  datatype Destroyer = Checking(task: Task) | Blocked(task: Task) | Past(task: Task)

  /** `busy` counts task_busy of every task, `submitting` the calls of run_task between their
      two critical sections; the last three count the calls of run_task so far, the callbacks
      that have returned and the tasks counted as finished. */
  datatype Pool = Pool(run: bool, queue: seq<Task>, workers: seq<Worker>, destroyers: seq<Destroyer>,
                       busy: multiset<Task>, submitting: multiset<Task>,
                       submitted: multiset<Task>, ran: multiset<Task>, finished: multiset<Task>)

  datatype Event =
    | Submit(task: Task)
    | Append(task: Task, woken: nat)
    | Look(worker: nat)
    | Return(worker: nat)
    | Finish(worker: nat)
    | WakeWorker(worker: nat)
    | Stop
    | Destroy(task: Task)
    | Check(destroyer: nat)
    | WakeDestroyer(destroyer: nat)

  // ------------------------------------------------------------------- steps

  /** pthread_cond_broadcast on tp_sched_cv. */
  function WakeAll(workers: seq<Worker>): (r: seq<Worker>)
    ensures |r| == |workers|
  {
    seq(|workers|, i requires 0 <= i < |workers| => if workers[i].Waiting? then Ready else workers[i])
  }

  /** The broadcast on task_cv when task_busy comes down to zero. */
  function Release(destroyers: seq<Destroyer>, t: Task): (r: seq<Destroyer>)
    ensures |r| == |destroyers|
  {
    seq(|destroyers|, i requires 0 <= i < |destroyers| =>
      if destroyers[i] == Blocked(t) then Checking(t) else destroyers[i])
  }

  /** pthread_cond_signal: one of the waiting workers, if there is one. */
  predicate Signalled(workers: seq<Worker>, woken: nat) {
    (exists i :: 0 <= i < |workers| && workers[i].Waiting?) ==> woken < |workers| && workers[woken].Waiting?
  }

  /** What callers owe: a task is not submitted again while it is queued or being submitted,
      nor once its destruction has begun, and the pool is not gone when a task is queued. */
  predicate Allowed(p: Pool, e: Event) {
    match e
    case Submit(t) =>
      t !in p.queue && t !in p.submitting && forall d :: 0 <= d < |p.destroyers| ==> p.destroyers[d].task != t
    case Append(t, woken) =>
      t in p.submitting && Signalled(p.workers, woken) && exists i :: 0 <= i < |p.workers| && !p.workers[i].Exited?
    case _ => true
  }

  function Step(p: Pool, e: Event): Pool {
    match e
    case Submit(t) =>
      p.(busy := p.busy + multiset{t}, submitting := p.submitting + multiset{t}, submitted := p.submitted + multiset{t})
    case Append(t, woken) =>
      p.(submitting := p.submitting - multiset{t}, queue := p.queue + [t],
         workers := if woken < |p.workers| && p.workers[woken].Waiting? then p.workers[woken := Ready] else p.workers)
    case Look(w) => if w < |p.workers| && p.workers[w].Ready? then StepLook(p, w) else p
    case Return(w) =>
      if w < |p.workers| && p.workers[w].Running? then
        p.(workers := p.workers[w := Finishing(p.workers[w].task)], ran := p.ran + multiset{p.workers[w].task})
      else p
    case Finish(w) => if w < |p.workers| && p.workers[w].Finishing? then StepFinish(p, w) else p
    case WakeWorker(w) =>
      if w < |p.workers| && p.workers[w].Waiting? then p.(workers := p.workers[w := Ready]) else p
    case Stop => p.(run := false, workers := WakeAll(p.workers))
    case Destroy(t) => p.(destroyers := p.destroyers + [Checking(t)])
    case Check(d) =>
      if d < |p.destroyers| && p.destroyers[d].Checking? then
        var t := p.destroyers[d].task;
        p.(destroyers := p.destroyers[d := if t in p.busy then Blocked(t) else Past(t)])
      else p
    case WakeDestroyer(d) =>
      if d < |p.destroyers| && p.destroyers[d].Blocked? then
        p.(destroyers := p.destroyers[d := Checking(p.destroyers[d].task)])
      else p
  }

  /** A worker looks at the queue: it takes the first task, or leaves, or waits. */
  function StepLook(p: Pool, w: nat): Pool
    requires w < |p.workers|
  {
    if p.queue != [] then p.(queue := p.queue[1..], workers := p.workers[w := Running(p.queue[0])])
    else p.(workers := p.workers[w := if p.run then Waiting else Exited])
  }

  /** A worker counts its task as finished, and wakes its destroyers at zero. */
  function StepFinish(p: Pool, w: nat): Pool
    requires w < |p.workers| && p.workers[w].Finishing?
  {
    var t := p.workers[w].task;
    var busy := p.busy - multiset{t};
    p.(workers := p.workers[w := Ready], busy := busy, finished := p.finished + multiset{t},
       destroyers := if t in busy then p.destroyers else Release(p.destroyers, t))
  }

  // --------------------------------------------------------------- invariant

  predicate Active(x: Worker) {
    x.Ready? || x.Running? || x.Finishing?
  }

  ghost predicate SomeActive(p: Pool) {
    exists i :: 0 <= i < |p.workers| && Active(p.workers[i])
  }

  /** Where the submissions of a task are: on their way, queued, running, or run. */
  predicate Accounted(p: Pool, t: Task) {
    var waiting := p.submitting[t] + multiset(p.queue)[t];
    && waiting <= 1
    && p.submitted[t] == waiting + multiset(p.workers)[Running(t)] + p.ran[t]
    && p.ran[t] == multiset(p.workers)[Finishing(t)] + p.finished[t]
    && p.busy[t] + p.finished[t] == p.submitted[t]
  }

  /** A destroyer is blocked only on a busy task, and past its wait only with an idle one. */
  predicate Decided(p: Pool, d: Destroyer) {
    (d.Blocked? ==> d.task in p.busy) && (d.Past? ==> d.task !in p.busy)
  }

  ghost predicate Inv(p: Pool) {
    && (forall t :: Accounted(p, t))
    && (forall d :: 0 <= d < |p.destroyers| ==> Decided(p, p.destroyers[d]))
    && (p.queue != [] ==> SomeActive(p))
    && (forall i :: 0 <= i < |p.workers| && p.workers[i].Exited? ==> !p.run)
  }

  lemma QueueFront(q: seq<Task>, t: Task)
    requires q != []
    ensures multiset(q)[t] == multiset(q[1..])[t] + (if t == q[0] then 1 else 0)
  {
    assert q == [q[0]] + q[1..];
  }

  lemma SubmitKeeps(p: Pool, t: Task)
    requires Inv(p) && Allowed(p, Submit(t))
    ensures Inv(Step(p, Submit(t)))
  {
    var p' := Step(p, Submit(t));
    forall u ensures Accounted(p', u) {
      assert Accounted(p, u);
    }
    forall d | 0 <= d < |p'.destroyers| ensures Decided(p', p'.destroyers[d]) {
      assert Decided(p, p.destroyers[d]);
    }
    if p'.queue != [] {
      var i :| 0 <= i < |p.workers| && Active(p.workers[i]);
      assert Active(p'.workers[i]);
    }
  }

  lemma AppendAccounts(p: Pool, t: Task, woken: nat, u: Task)
    requires Accounted(p, u) && t in p.submitting
    ensures Accounted(Step(p, Append(t, woken)), u)
  {
    assert multiset(p.queue + [t])[u] == multiset(p.queue)[u] + (if u == t then 1 else 0);
    if woken < |p.workers| && p.workers[woken].Waiting? {
      Swapped(p.workers, woken, Ready, Running(u));
      Swapped(p.workers, woken, Ready, Finishing(u));
    }
  }

  /** Putting a task into the queue wakes a worker, if all are asleep. */
  lemma AppendKeeps(p: Pool, t: Task, woken: nat)
    requires Inv(p) && Allowed(p, Append(t, woken))
    ensures Inv(Step(p, Append(t, woken)))
  {
    hide Accounted;
    var p' := Step(p, Append(t, woken));
    forall u ensures Accounted(p', u) {
      AppendAccounts(p, t, woken, u);
    }
    forall d | 0 <= d < |p'.destroyers| ensures Decided(p', p'.destroyers[d]) {
      assert Decided(p, p.destroyers[d]);
    }
    var i :| 0 <= i < |p.workers| && !p.workers[i].Exited?;
    if p.workers[i].Waiting? {
      assert Active(p'.workers[woken]);
    } else {
      assert Active(p'.workers[i]);
    }
  }

  lemma LookKeeps(p: Pool, w: nat)
    requires Inv(p) && w < |p.workers| && p.workers[w].Ready?
    ensures Inv(StepLook(p, w))
  {
    var p' := StepLook(p, w);
    forall u ensures Accounted(p', u) {
      assert Accounted(p, u);
      if p.queue != [] { QueueFront(p.queue, u); }
    }
    forall d | 0 <= d < |p'.destroyers| ensures Decided(p', p'.destroyers[d]) {
      assert Decided(p, p.destroyers[d]);
    }
    if p'.queue != [] {
      assert Active(p'.workers[w]);
    }
  }

  lemma ReturnAccounts(p: Pool, w: nat, u: Task)
    requires Accounted(p, u) && w < |p.workers| && p.workers[w].Running?
    ensures Accounted(Step(p, Return(w)), u)
  {
    assert p.workers[w] in multiset(p.workers);
  }

  lemma ReturnKeeps(p: Pool, w: nat)
    requires Inv(p) && w < |p.workers| && p.workers[w].Running?
    ensures Inv(Step(p, Return(w)))
  {
    hide Accounted;
    var p' := Step(p, Return(w));
    forall u ensures Accounted(p', u) {
      ReturnAccounts(p, w, u);
    }
    forall d | 0 <= d < |p'.destroyers| ensures Decided(p', p'.destroyers[d]) {
      assert Decided(p, p.destroyers[d]);
    }
    assert Active(p'.workers[w]);
  }

  lemma FinishKeeps(p: Pool, w: nat)
    requires Inv(p) && w < |p.workers| && p.workers[w].Finishing?
    ensures Inv(StepFinish(p, w))
  {
    hide Accounted;
    var t, p' := p.workers[w].task, StepFinish(p, w);
    forall u ensures Accounted(p', u) {
      assert Accounted(p, t) && Accounted(p, u);
      FinishAccounts(p, w, u);
    }
    forall d | 0 <= d < |p'.destroyers| ensures Decided(p', p'.destroyers[d]) {
      assert Decided(p, p.destroyers[d]);
    }
    assert Active(p'.workers[w]);
  }

  lemma FinishAccounts(p: Pool, w: nat, u: Task)
    requires w < |p.workers| && p.workers[w].Finishing? && Accounted(p, u) && Accounted(p, p.workers[w].task)
    ensures Accounted(StepFinish(p, w), u)
  {
    hide Release;
    var t := p.workers[w].task;
    Swapped(p.workers, w, Ready, Running(u));
    Swapped(p.workers, w, Ready, Finishing(u));
    Swapped(p.workers, w, Ready, Finishing(t));
  }

  lemma Swapped(ws: seq<Worker>, w: nat, x: Worker, y: Worker)
    requires w < |ws|
    ensures multiset(ws[w := x])[y] + (if ws[w] == y then 1 else 0) == multiset(ws)[y] + (if x == y then 1 else 0)
  {
    assert ws[w] in multiset(ws);
  }

  lemma {:induction false} WakeAllCounts(workers: seq<Worker>, x: Worker)
    requires x.Running? || x.Finishing?
    ensures multiset(WakeAll(workers))[x] == multiset(workers)[x]
  {
    if workers != [] {
      WakeAllCounts(workers[1..], x);
      assert workers == [workers[0]] + workers[1..];
      assert WakeAll(workers) == [WakeAll(workers)[0]] + WakeAll(workers[1..]);
    }
  }

  lemma StopKeeps(p: Pool)
    requires Inv(p)
    ensures Inv(Step(p, Stop))
  {
    var p' := Step(p, Stop);
    forall u ensures Accounted(p', u) {
      assert Accounted(p, u);
      WakeAllCounts(p.workers, Running(u));
      WakeAllCounts(p.workers, Finishing(u));
    }
    forall d | 0 <= d < |p'.destroyers| ensures Decided(p', p'.destroyers[d]) {
      assert Decided(p, p.destroyers[d]);
    }
    if p'.queue != [] {
      var i :| 0 <= i < |p.workers| && Active(p.workers[i]);
      assert Active(p'.workers[i]);
    }
  }

  lemma WakeKeeps(p: Pool, w: nat)
    requires Inv(p)
    ensures Inv(Step(p, WakeWorker(w)))
  {
    hide Accounted;
    var p' := Step(p, WakeWorker(w));
    forall u ensures Accounted(p', u) {
      assert Accounted(p, u);
      WakeAccounts(p, w, u);
    }
    forall d | 0 <= d < |p'.destroyers| ensures Decided(p', p'.destroyers[d]) {
      assert Decided(p, p.destroyers[d]);
    }
    if p'.queue != [] {
      var i :| 0 <= i < |p.workers| && Active(p.workers[i]);
      assert Active(p'.workers[i]);
    }
  }

  lemma WakeAccounts(p: Pool, w: nat, u: Task)
    requires Accounted(p, u)
    ensures Accounted(Step(p, WakeWorker(w)), u)
  {
    if w < |p.workers| && p.workers[w].Waiting? {
      Swapped(p.workers, w, Ready, Running(u));
      Swapped(p.workers, w, Ready, Finishing(u));
    }
  }

  /** Steps that change destroyers only. */
  lemma DestroyersKeep(p: Pool, ds: seq<Destroyer>)
    requires Inv(p) && forall d | 0 <= d < |ds| :: Decided(p, ds[d])
    ensures Inv(p.(destroyers := ds))
  {
    hide Accounted;
    var p' := p.(destroyers := ds);
    forall u ensures Accounted(p', u) {
      assert Accounted(p, u);
      DestroyersIrrelevant(p, ds, u);
    }
    forall d | 0 <= d < |ds| ensures Decided(p', ds[d]) {
      assert Decided(p, ds[d]);
    }
    if p'.queue != [] {
      var i :| 0 <= i < |p.workers| && Active(p.workers[i]);
      assert Active(p'.workers[i]);
    }
  }

  lemma DestroyersIrrelevant(p: Pool, ds: seq<Destroyer>, u: Task)
    ensures Accounted(p.(destroyers := ds), u) <==> Accounted(p, u)
  {
  }

  lemma DestroyerKeeps(p: Pool, e: Event)
    requires Inv(p) && (e.Destroy? || e.Check? || e.WakeDestroyer?)
    ensures Inv(Step(p, e))
  {
    hide Inv;
    DecidedOne(p);
    DestroyersKeep(p, Step(p, e).destroyers);
  }

  lemma DecidedOne(p: Pool)
    requires Inv(p)
    ensures forall d | 0 <= d < |p.destroyers| :: Decided(p, p.destroyers[d])
  {
  }

  lemma StepKeeps(p: Pool, e: Event)
    requires Inv(p) && Allowed(p, e)
    ensures Inv(Step(p, e))
  {
    hide Inv, Allowed, StepLook, StepFinish;
    match e
    case Submit(t) => SubmitKeeps(p, t);
    case Append(t, woken) => AppendKeeps(p, t, woken);
    case Look(w) => if w < |p.workers| && p.workers[w].Ready? { LookKeeps(p, w); }
    case Return(w) => if w < |p.workers| && p.workers[w].Running? { ReturnKeeps(p, w); }
    case Finish(w) => if w < |p.workers| && p.workers[w].Finishing? { FinishKeeps(p, w); }
    case Stop => StopKeeps(p);
    case WakeWorker(w) => WakeKeeps(p, w);
    case _ => DestroyerKeeps(p, e);
  }

  // -------------------------------------------------------------------- runs

  /** init_task_processor with `n` workers. */
  function Started(n: nat): Pool {
    Pool(true, [], seq(n, _ => Ready), [], multiset{}, multiset{}, multiset{}, multiset{}, multiset{})
  }

  ghost predicate AllAllowed(p: Pool, es: seq<Event>)
    decreases |es|
  {
    es != [] ==> Allowed(p, es[0]) && AllAllowed(Step(p, es[0]), es[1..])
  }

  function Run(p: Pool, es: seq<Event>): Pool
    decreases |es|
  {
    if es == [] then p else Run(Step(p, es[0]), es[1..])
  }

  lemma {:induction false} RunKeeps(p: Pool, es: seq<Event>)
    requires Inv(p) && AllAllowed(p, es)
    ensures Inv(Run(p, es))
    decreases |es|
  {
    hide Inv, Step, Allowed;
    if es != [] {
      StepKeeps(p, es[0]);
      RunKeeps(Step(p, es[0]), es[1..]);
    }
  }

  /** No task is queued, on its way to the queue, running or being finished. */
  ghost predicate Quiet(p: Pool, t: Task) {
    && t !in p.queue && t !in p.submitting
    && forall i :: 0 <= i < |p.workers| ==> p.workers[i] != Running(t) && p.workers[i] != Finishing(t)
  }

  lemma IdleIsQuiet(p: Pool, t: Task)
    requires Inv(p)
    ensures t !in p.busy <==> Quiet(p, t)
  {
    assert Accounted(p, t);
    forall i | 0 <= i < |p.workers| ensures p.workers[i] in multiset(p.workers) {}
    assert t in p.queue <==> t in multiset(p.queue);
    if Quiet(p, t) {
      assert Running(t) !in multiset(p.workers) && Finishing(t) !in multiset(p.workers);
    }
  }

  /** In every reachable state: task_busy is the number of submissions not yet finished, and
      each submission runs its callback at most once; with work queued some worker is neither
      asleep nor gone; a destroyer is past its wait only while its task is quiet, and blocked
      only while it is not. */
  lemma PoolProtocol(n: nat, es: seq<Event>, t: Task)
    requires AllAllowed(Started(n), es)
    ensures var p := Run(Started(n), es);
      && p.busy[t] + p.finished[t] == p.submitted[t]
      && p.finished[t] <= p.ran[t] <= p.submitted[t]
      && (p.queue != [] ==> SomeActive(p))
      && (forall d :: 0 <= d < |p.destroyers| && p.destroyers[d] == Past(t) ==> Quiet(p, t))
      && (forall d :: 0 <= d < |p.destroyers| && p.destroyers[d] == Blocked(t) ==> !Quiet(p, t))
  {
    hide Run, AllAllowed, SomeActive, Quiet;
    StartedInv(n);
    RunKeeps(Started(n), es);
    var p := Run(Started(n), es);
    IdleIsQuiet(p, t);
    assert Accounted(p, t);
    forall d | 0 <= d < |p.destroyers| ensures Decided(p, p.destroyers[d]) {}
  }

  lemma StartedInv(n: nat)
    ensures Inv(Started(n))
  {
    forall t ensures Accounted(Started(n), t) {
      assert forall x | x in Started(n).workers :: x == Ready;
    }
  }

  /** A worker leaves only when it sees the pool stopped and the queue empty. */
  lemma ExitsWhenStopped(p: Pool, e: Event, w: nat)
    requires w < |p.workers| && !p.workers[w].Exited?
    ensures |Step(p, e).workers| == |p.workers|
    ensures Step(p, e).workers[w].Exited? ==> e == Look(w) && !p.run && p.queue == []
  {
    hide StepFinish;
    match e
    case Finish(i) => if i < |p.workers| && p.workers[i].Finishing? { FinishStays(p, i); }
    case _ =>
  }

  lemma FinishStays(p: Pool, w: nat)
    requires w < |p.workers| && p.workers[w].Finishing?
    ensures StepFinish(p, w).workers == p.workers[w := Ready]
  {
  }

  /** When all workers have left, the queue is empty and every submission that had reached
      the queue is finished. */
  lemma AllDoneAtExit(n: nat, es: seq<Event>, t: Task)
    requires AllAllowed(Started(n), es)
    requires forall x | x in Run(Started(n), es).workers :: x.Exited?
    ensures var p := Run(Started(n), es);
      p.queue == [] && p.finished[t] + p.submitting[t] == p.submitted[t]
  {
    hide Run, AllAllowed;
    StartedInv(n);
    RunKeeps(Started(n), es);
    var p := Run(Started(n), es);
    assert Accounted(p, t);
    assert Running(t) !in p.workers && Finishing(t) !in p.workers;
    assert Running(t) !in multiset(p.workers) && Finishing(t) !in multiset(p.workers);
    forall i | 0 <= i < |p.workers| ensures p.workers[i].Exited? {
      assert p.workers[i] in p.workers;
    }
  }
}
