/**
 The order and the end of the pool's work: tasks are started in the order in which they were
 queued, nobody sleeps once the pool is stopped, and then every step brings it nearer to
 its end.
 */
module PoolOrder {
  import opened ThreadPool

  // ------------------------------------------------------------------- order

  /** The task that an event puts into the queue. */
  function Queues(p: Pool, e: Event): seq<Task> {
    if e.Append? then [e.task] else []
  }

  /** The task that an event has a worker begin. */
  function Begins(p: Pool, e: Event): seq<Task> {
    if
      && e.Look? && e.worker < |p.workers| && p.workers[e.worker].Ready?
      && |Step(p, e).workers| == |p.workers| && Step(p, e).workers[e.worker].Running?
    then [Step(p, e).workers[e.worker].task]
    else []
  }

  function AllQueued(p: Pool, es: seq<Event>): seq<Task>
    decreases |es|
  {
    if es == [] then [] else Queues(p, es[0]) + AllQueued(Step(p, es[0]), es[1..])
  }

  function AllBegun(p: Pool, es: seq<Event>): seq<Task>
    decreases |es|
  {
    if es == [] then [] else Begins(p, es[0]) + AllBegun(Step(p, es[0]), es[1..])
  }

  lemma StepInOrder(p: Pool, e: Event)
    ensures p.queue + Queues(p, e) == Begins(p, e) + Step(p, e).queue
  {
    assert p.queue + [] == p.queue && [] + p.queue == p.queue;
    if e.Look? && p.queue != [] {
      assert [p.queue[0]] + p.queue[1..] == p.queue;
    }
  }

  /** In every run, the tasks begun and then those still queued are the ones that were queued
      at the start and then those queued meanwhile, in this order: first in, first out. */
  lemma {:induction false} BegunInOrder(p: Pool, es: seq<Event>)
    ensures p.queue + AllQueued(p, es) == AllBegun(p, es) + Run(p, es).queue
    decreases |es|
  {
    hide Step, Queues, Begins;
    if es == [] {
      assert p.queue + [] == p.queue && [] + p.queue == p.queue;
    } else {
      var p1 := Step(p, es[0]);
      StepInOrder(p, es[0]);
      BegunInOrder(p1, es[1..]);
      var q, b, qs, bs := Queues(p, es[0]), Begins(p, es[0]), AllQueued(p1, es[1..]), AllBegun(p1, es[1..]);
      assert p.queue + (q + qs) == (p.queue + q) + qs;
      assert (b + p1.queue) + qs == b + (p1.queue + qs);
      assert b + (bs + Run(p, es).queue) == (b + bs) + Run(p, es).queue;
    }
  }

  // --------------------------------------------------------------- one worker

  /** A worker that looks begins a task exactly when one is queued, and otherwise waits while
      the pool runs and leaves when it is stopped. */
  lemma LooksExactly(p: Pool, w: nat)
    requires w < |p.workers| && p.workers[w].Ready?
    ensures var x := Step(p, Look(w)).workers[w];
      && (x.Running? <==> p.queue != [])
      && (x.Waiting? <==> p.queue == [] && p.run)
      && (x.Exited? <==> p.queue == [] && !p.run)
  {
  }

  ghost predicate NobodySleeps(p: Pool) {
    !p.run ==> forall i :: 0 <= i < |p.workers| ==> !p.workers[i].Waiting?
  }

  lemma StepWakes(p: Pool, e: Event)
    requires NobodySleeps(p)
    ensures NobodySleeps(Step(p, e)) && |Step(p, e).workers| == |p.workers|
  {
    hide StepFinish, StepLook, Release;
    match e
    case Finish(w) => if w < |p.workers| && p.workers[w].Finishing? { FinishLeaves(p, w); }
    case Look(w) => if w < |p.workers| && p.workers[w].Ready? { LookLeaves(p, w); }
    case _ =>
  }

  lemma LookLeaves(p: Pool, w: nat)
    requires w < |p.workers| && p.workers[w].Ready?
    ensures var p' := StepLook(p, w);
      && p'.run == p.run && |p'.workers| == |p.workers|
      && (forall i :: 0 <= i < |p.workers| && i != w ==> p'.workers[i] == p.workers[i])
      && (!p.run ==> !p'.workers[w].Waiting?)
  {
  }

  lemma FinishLeaves(p: Pool, w: nat)
    requires w < |p.workers| && p.workers[w].Finishing?
    ensures var p' := StepFinish(p, w); p'.workers == p.workers[w := Ready] && p'.queue == p.queue && p'.run == p.run
  {
  }

  /** In every state of every run: once the pool is stopped no worker sleeps. */
  lemma {:induction false} StoppedAwake(p: Pool, es: seq<Event>)
    requires NobodySleeps(p)
    ensures NobodySleeps(Run(p, es)) && |Run(p, es).workers| == |p.workers|
    decreases |es|
  {
    hide Step, NobodySleeps;
    if es != [] {
      StepWakes(p, es[0]);
      StoppedAwake(Step(p, es[0]), es[1..]);
    }
  }

  // ------------------------------------------------------------------ the end

  function Steps(x: Worker): nat {
    match x
    case Ready => 1
    case Waiting => 2
    case Running(_) => 3
    case Finishing(_) => 2
    case Exited => 0
  }

  function AllSteps(ws: seq<Worker>): nat {
    if ws == [] then 0 else Steps(ws[0]) + AllSteps(ws[1..])
  }

  /** How many steps the workers of a stopped pool have left. */
  function StepsLeft(p: Pool): nat {
    3 * |p.queue| + AllSteps(p.workers)
  }

  lemma {:induction false} StepsUpdate(ws: seq<Worker>, w: nat, x: Worker)
    requires w < |ws|
    ensures AllSteps(ws[w := x]) + Steps(ws[w]) == AllSteps(ws) + Steps(x)
  {
    if w == 0 {
      assert ws[0 := x][1..] == ws[1..];
    } else {
      assert ws[w := x][1..] == ws[1..][w - 1 := x];
      StepsUpdate(ws[1..], w - 1, x);
    }
  }

  lemma {:induction false} NoStepsLeft(ws: seq<Worker>)
    ensures AllSteps(ws) == 0 <==> forall i :: 0 <= i < |ws| ==> ws[i].Exited?
  {
    if ws != [] {
      NoStepsLeft(ws[1..]);
      assert forall i | 0 < i < |ws| :: ws[i] == ws[1..][i - 1];
      assert forall i | 0 <= i < |ws| - 1 :: ws[1..][i] == ws[i + 1];
    }
  }

  /** The next step of a worker that has not left. */
  function Next(p: Pool, w: nat): Event
    requires w < |p.workers|
  {
    match p.workers[w]
    case Running(_) => Return(w)
    case Finishing(_) => Finish(w)
    case _ => Look(w)
  }

  /** In a stopped pool in which nobody sleeps every step of a worker that has not left is one
      step nearer to the end; at the end, and only there, the queue is empty and all have
      left. */
  lemma StopEnds(p: Pool, w: nat)
    requires !p.run && NobodySleeps(p)
    ensures w < |p.workers| && !p.workers[w].Exited? ==>
      var p' := Step(p, Next(p, w));
      StepsLeft(p') == StepsLeft(p) - 1 && !p'.run && NobodySleeps(p')
    ensures StepsLeft(p) == 0 <==> p.queue == [] && forall i :: 0 <= i < |p.workers| ==> p.workers[i].Exited?
  {
    hide StepFinish;
    NoStepsLeft(p.workers);
    if w < |p.workers| && !p.workers[w].Exited? {
      StepWakes(p, Next(p, w));
      match p.workers[w]
      case Ready =>
        StepsUpdate(p.workers, w, if p.queue != [] then Running(p.queue[0]) else Exited);
      case Running(t) =>
        StepsUpdate(p.workers, w, Finishing(t));
      case Finishing(_) =>
        FinishLeaves(p, w);
        StepsUpdate(p.workers, w, Ready);
    }
  }
}
