/**
 The output side of a connection as a state machine: what has been given to be sent, what
 the socket has taken, what waits in the output buffer, and when the socket is shut down.
 */
module ConnectionSpec {
  import opened Options
  import opened Bytes

  datatype Phase = Connecting | Connected | Disconnecting | Disconnected

  /** What a write on the socket comes back with. */
  datatype Written = Accepted(n: nat) | WouldBlock | Broken | OtherError

  /** A task queued for the event loop. */
  datatype Task = Send(msg: seq<Byte>) | Shutdown | ForceClose

  /** One call of shutdown for writing: the output buffer, the bytes taken by the socket,
      the bytes given to be sent and the queued tasks at that moment. */
  datatype Shut = Shut(output: seq<Byte>, wire: seq<Byte>, given: seq<Byte>, queue: seq<Task>)

  datatype Conn = Conn(state: Phase, writing: bool, output: seq<Byte>, pending: seq<Task>,
                       wire: seq<Byte>, given: seq<Byte>, shuts: seq<Shut>)

  // -------------------------------------------------------------- operations

  function ShutDown(c: Conn): Conn {
    c.(shuts := c.shuts + [Shut(c.output, c.wire, c.given, c.pending)])
  }

  /** conn_send_in_loop: write directly if nothing is waiting, buffer the rest; a closed or
      broken connection drops the message. */
  function SendInLoop(c: Conn, msg: seq<Byte>, w: Written): Conn
    requires w.Accepted? ==> w.n <= |msg|
  {
    if c.state == Disconnected then c.(given := c.given + msg)
    else
      var direct := !c.writing && c.output == [];
      var n := if direct && w.Accepted? then w.n else 0;
      var c' := c.(wire := c.wire + msg[..n], given := c.given + msg);
      if !(direct && w.Broken?) && n < |msg| then c'.(output := c.output + msg[n..], writing := true)
      else c'
  }

  /** connection_handler_write.  The result of write is kept as an unsigned number, so a
      failed write counts as a very large one. */
  function HandlerWrite(c: Conn, w: Written): Conn
    requires w.Accepted? ==> w.n <= |c.output|
  {
    if w == Accepted(0) then c
    else
      var taken := if w.Accepted? then c.output[..w.n] else [];
      var rest := if w.Accepted? then c.output[w.n..] else [];
      var c' := c.(output := rest, wire := c.wire + taken);
      if rest != [] then c'
      else if c.state == Disconnecting then ShutDown(c'.(writing := false))
      else c'.(writing := false)
  }

  function Close(c: Conn): Conn {
    c.(state := Disconnected, writing := false)
  }

  function RunShutdown(c: Conn): Conn {
    if !c.writing then ShutDown(c) else c
  }

  datatype Event =
    | Establish
    | ConnSend(data: seq<Byte>, inLoop: bool, w: Written)
    | ConnShutdown(inLoop: bool)
    | ConnForceClose
    | RunPending(w: Written)
    | Writable(w: Written)
    | PeerClosed
    | Destroy

  /** A write takes no more than it is given, and a connection is established once. */
  predicate Possible(c: Conn, e: Event) {
    match e
    case Establish => c.state == Connecting
    case ConnSend(data, _, w) => w.Accepted? ==> w.n <= |data|
    case RunPending(w) =>
      c.pending != [] && (w.Accepted? ==> c.pending[0].Send? ==> w.n <= |c.pending[0].msg|)
    case Writable(w) => w.Accepted? ==> w.n <= |c.output|
    case _ => true
  }

  function Step(c: Conn, e: Event): Conn
    requires Possible(c, e)
  {
    match e
    case Establish => c.(state := Connected)
    case ConnSend(data, inLoop, w) =>
      if c.state != Connected then c
      else if inLoop then SendInLoop(c, data, w)
      else c.(pending := c.pending + [Send(data)])
    case ConnShutdown(inLoop) =>
      if c.state != Connected then c
      else if inLoop then RunShutdown(c.(state := Disconnecting))
      else c.(state := Disconnecting, pending := c.pending + [Shutdown])
    case ConnForceClose =>
      if c.state == Connected || c.state == Disconnecting then
        c.(state := Disconnecting, pending := c.pending + [ForceClose])
      else c
    case RunPending(w) => RunTask(c.(pending := c.pending[1..]), c.pending[0], w)
    case Writable(w) => HandlerWrite(c, w)
    case PeerClosed => Close(c)
    case Destroy => if c.state == Connected then Close(c) else c
  }

  function RunTask(c: Conn, t: Task, w: Written): Conn
    requires t.Send? && w.Accepted? ==> w.n <= |t.msg|
  {
    match t
    case Send(msg) => SendInLoop(c, msg, w)
    case Shutdown => RunShutdown(c)
    case ForceClose => if c.state == Connected || c.state == Disconnecting then Close(c) else c
  }

  // -------------------------------------------------------------- invariants

  /** Until the connection is closed, write interest is on exactly when output waits. */
  predicate Interested(c: Conn) {
    if c.state == Disconnected then !c.writing else c.writing == (c.output != [])
  }

  lemma StepInterested(c: Conn, e: Event)
    requires Interested(c) && Possible(c, e)
    ensures Interested(Step(c, e))
  {
  }

  /** What the socket has taken and what waits is what was given. */
  predicate Conserved(c: Conn) {
    c.wire + c.output == c.given
  }

  /** The message that an event hands to conn_send_in_loop, if it does. */
  function Sending(c: Conn, e: Event): Option<seq<Byte>>
    requires Possible(c, e)
  {
    if e.ConnSend? && e.inLoop && c.state == Connected then Some(e.data)
    else if e.RunPending? && c.pending[0].Send? then Some(c.pending[0].msg)
    else None
  }

  /** A message is dropped when the connection is closed, or when it is written directly on
      a broken connection. */
  predicate Dropped(c: Conn, msg: seq<Byte>, w: Written) {
    msg != [] && (c.state == Disconnected || (!c.writing && c.output == [] && w.Broken?))
  }

  /** The events that drop bytes: a message on a closed connection, a direct write on a
      broken one, and a failed write of waiting output. */
  predicate Drops(c: Conn, e: Event)
    requires Possible(c, e)
  {
    || (Sending(c, e).Some? && Dropped(c, Sending(c, e).value, e.w))
    || (e.Writable? && !e.w.Accepted? && c.output != [])
  }

  /** How many of the given bytes are neither taken by the socket nor waiting. */
  function Missing(c: Conn): int {
    |c.given| - |c.wire| - |c.output|
  }

  lemma StepConserves(c: Conn, e: Event)
    requires Interested(c) && Possible(c, e)
    ensures Conserved(c) && !Drops(c, e) ==> Conserved(Step(c, e))
    ensures Missing(Step(c, e)) >= Missing(c)
    ensures Drops(c, e) ==> Missing(Step(c, e)) > Missing(c)
  {
    if Sending(c, e).Some? {
      SendConserves(c, Sending(c, e).value, e.w);
    } else if e.Writable? {
      WriteConserves(c, e.w);
    }
  }

  lemma SendConserves(c: Conn, msg: seq<Byte>, w: Written)
    requires Interested(c) && (w.Accepted? ==> w.n <= |msg|)
    ensures var c' := SendInLoop(c, msg, w);
      && (Conserved(c) && !Dropped(c, msg, w) ==> Conserved(c'))
      && Missing(c') == Missing(c) + (if Dropped(c, msg, w) then |msg| else 0)
  {
    var n := if !c.writing && w.Accepted? then w.n else 0;
    assert msg == msg[..n] + msg[n..];
    if c.state == Disconnected {
      assert msg == [] ==> c.given + msg == c.given;
    } else if c.writing {
      assert c.wire + (c.output + msg) == (c.wire + c.output) + msg;
      assert c.wire + msg[..0] == c.wire && msg[0..] == msg;
    } else {
      assert c.wire + c.output == c.wire;
      assert (c.wire + msg[..n]) + msg[n..] == c.wire + msg;
      assert c.output + msg[n..] == msg[n..];
    }
  }

  lemma WriteConserves(c: Conn, w: Written)
    requires w.Accepted? ==> w.n <= |c.output|
    ensures var c' := HandlerWrite(c, w);
      && (Conserved(c) && (w.Accepted? || c.output == []) ==> Conserved(c'))
      && Missing(c') == Missing(c) + (if w.Accepted? then 0 else |c.output|)
  {
    if w.Accepted? {
      assert c.output == c.output[..w.n] + c.output[w.n..];
      assert (c.wire + c.output[..w.n]) + c.output[w.n..] == c.wire + c.output;
    }
  }

  // -------------------------------------------------------------------- runs

  /** A connection as it is created. */
  predicate Fresh(c: Conn) {
    c == Conn(Connecting, false, [], [], [], [], [])
  }

  ghost predicate AllPossible(c: Conn, es: seq<Event>)
    decreases |es|
  {
    es != [] ==> Possible(c, es[0]) && AllPossible(Step(c, es[0]), es[1..])
  }

  function Run(c: Conn, es: seq<Event>): Conn
    requires AllPossible(c, es)
    decreases |es|
  {
    if es == [] then c else Run(Step(c, es[0]), es[1..])
  }

  ghost predicate DropsNothing(c: Conn, es: seq<Event>)
    requires AllPossible(c, es)
    decreases |es|
  {
    es != [] ==> !Drops(c, es[0]) && DropsNothing(Step(c, es[0]), es[1..])
  }

  lemma {:induction false} RunConserves(c: Conn, es: seq<Event>)
    requires Interested(c) && AllPossible(c, es)
    ensures Interested(Run(c, es)) && Missing(Run(c, es)) >= Missing(c)
    ensures Conserved(c) && DropsNothing(c, es) ==> Conserved(Run(c, es))
    ensures !DropsNothing(c, es) ==> Missing(Run(c, es)) > Missing(c)
    decreases |es|
  {
    hide Step, Possible, Interested, Conserved, Drops, Missing;
    if es != [] {
      StepInterested(c, es[0]);
      StepConserves(c, es[0]);
      RunConserves(Step(c, es[0]), es[1..]);
    }
  }

  /** In every run, bytes taken by the socket followed by the output buffer are all the bytes
      given to be sent, in order, exactly when no event of the run dropped any. */
  lemma OutputConserved(c: Conn, es: seq<Event>)
    requires Fresh(c) && AllPossible(c, es)
    ensures Interested(Run(c, es))
    ensures Conserved(Run(c, es)) <==> DropsNothing(c, es)
  {
    hide Run, DropsNothing;
    RunConserves(c, es);
  }

  // ---------------------------------------------------------------- shutdown

  /** An event that shuts the socket down for writing. */
  predicate Shuts(c: Conn, e: Event)
    requires Possible(c, e)
  {
    |Step(c, e).shuts| > |c.shuts|
  }

  /** A shutdown task that is run after the connection was closed with output waiting. */
  predicate Late(c: Conn, e: Event)
    requires Possible(c, e)
  {
    e.RunPending? && c.pending[0].Shutdown? && c.state == Disconnected && c.output != []
  }

  /** The socket is shut down with output still waiting exactly by such a late task. */
  lemma ShutsWhenEmpty(c: Conn, e: Event)
    requires Interested(c) && Possible(c, e) && Shuts(c, e)
    ensures |Step(c, e).shuts| == |c.shuts| + 1 && Step(c, e).shuts[..|c.shuts|] == c.shuts
    ensures var s := Step(c, e).shuts[|c.shuts|];
      && (s.output != [] <==> Late(c, e))
      && s == Shut(Step(c, e).output, Step(c, e).wire, Step(c, e).given, Step(c, e).pending)
  {
  }

  ghost predicate NeverLate(c: Conn, es: seq<Event>)
    requires AllPossible(c, es)
    decreases |es|
  {
    es != [] ==> !Late(c, es[0]) && NeverLate(Step(c, es[0]), es[1..])
  }

  /** Every shutdown so far found the buffer empty. */
  predicate ShutEmpty(c: Conn) {
    forall i :: 0 <= i < |c.shuts| ==> c.shuts[i].output == []
  }

  /** Every shutdown so far found everything given so far taken by the socket. */
  predicate Graceful(c: Conn) {
    forall i :: 0 <= i < |c.shuts| ==> c.shuts[i].wire == c.shuts[i].given
  }

  /** A late task does shut the socket down. */
  lemma LateShuts(c: Conn, e: Event)
    requires Interested(c) && Possible(c, e) && Late(c, e)
    ensures Shuts(c, e)
  {
  }

  lemma SameShuts(c: Conn, e: Event)
    requires Possible(c, e) && !Shuts(c, e)
    ensures Step(c, e).shuts == c.shuts
  {
  }

  lemma StepShutEmpty(c: Conn, e: Event)
    requires Interested(c) && Possible(c, e)
    ensures ShutEmpty(Step(c, e)) <==> ShutEmpty(c) && !Late(c, e)
  {
    hide Step, Possible, Interested, Late;
    if Late(c, e) { LateShuts(c, e); }
    if Shuts(c, e) {
      ShutsWhenEmpty(c, e);
      var n, now := |c.shuts|, Step(c, e).shuts;
      assert forall i | 0 <= i < n :: now[i] == now[..n][i];
    } else {
      SameShuts(c, e);
    }
  }

  /** From any state on, every shutdown finds the buffer empty if and only if every earlier
      one did and no shutdown task is run after a close with output waiting. */
  lemma {:induction false} RunShutEmpty(c: Conn, es: seq<Event>)
    requires Interested(c) && AllPossible(c, es)
    ensures ShutEmpty(Run(c, es)) <==> ShutEmpty(c) && NeverLate(c, es)
    decreases |es|
  {
    hide Step, Possible, Interested, Late, ShutEmpty;
    if es != [] {
      StepInterested(c, es[0]);
      StepShutEmpty(c, es[0]);
      RunShutEmpty(Step(c, es[0]), es[1..]);
    }
  }

  /** Where bytes sent and bytes waiting are the bytes given, an empty buffer and everything
      being taken are the same. */
  ghost predicate Recorded(c: Conn) {
    forall i :: 0 <= i < |c.shuts| ==> c.shuts[i].wire + c.shuts[i].output == c.shuts[i].given
  }

  lemma {:induction false} RunRecorded(c: Conn, es: seq<Event>)
    requires Interested(c) && Conserved(c) && Recorded(c) && AllPossible(c, es) && DropsNothing(c, es)
    ensures Recorded(Run(c, es))
    decreases |es|
  {
    hide Step, Possible, Interested, Drops, Missing, Late;
    if es != [] {
      StepInterested(c, es[0]);
      StepConserves(c, es[0]);
      if Shuts(c, es[0]) {
        ShutsWhenEmpty(c, es[0]);
        var n, now := |c.shuts|, Step(c, es[0]).shuts;
        assert forall i | 0 <= i < n :: now[i] == now[..n][i];
      } else {
        SameShuts(c, es[0]);
      }
      RunRecorded(Step(c, es[0]), es[1..]);
    }
  }

  lemma EmptyMeansTaken(c: Conn)
    requires Recorded(c)
    ensures ShutEmpty(c) <==> Graceful(c)
  {
    forall i | 0 <= i < |c.shuts| ensures c.shuts[i].output == [] <==> c.shuts[i].wire == c.shuts[i].given {
      assert |c.shuts[i].wire + c.shuts[i].output| == |c.shuts[i].wire| + |c.shuts[i].output|;
    }
  }

  // ---------------------------------------------- messages that are still queued

  predicate HasSend(q: seq<Task>) {
    exists i :: 0 <= i < |q| && q[i].Send?
  }

  predicate HasShutdown(q: seq<Task>) {
    exists i :: 0 <= i < |q| && q[i].Shutdown?
  }

  predicate NoneBehind(q: seq<Task>) {
    forall i, j :: 0 <= i < j < |q| && q[i].Shutdown? ==> !q[j].Send?
  }

  /** No message is queued behind a shutdown, and once one is queued no message is taken. */
  predicate Lined(c: Conn) {
    NoneBehind(c.pending) && (c.state == Connecting || c.state == Connected ==> !HasShutdown(c.pending))
  }

  lemma QueuedOne(q: seq<Task>, t: Task)
    ensures NoneBehind(q) && (t.Send? ==> !HasShutdown(q)) ==> NoneBehind(q + [t])
    ensures !HasShutdown(q) && !t.Shutdown? ==> !HasShutdown(q + [t])
  {
    if t.Send? && !HasShutdown(q) {
      assert forall i | 0 <= i < |q| :: !q[i].Shutdown?;
    }
  }

  lemma Dequeued(q: seq<Task>)
    requires q != []
    ensures NoneBehind(q) ==> NoneBehind(q[1..]) && (q[0].Shutdown? ==> !HasSend(q[1..]))
    ensures !HasShutdown(q) ==> !HasShutdown(q[1..])
  {
    assert forall i | 0 <= i < |q| - 1 :: q[1..][i] == q[i + 1];
  }

  lemma StepLined(c: Conn, e: Event)
    requires Lined(c) && Possible(c, e)
    ensures Lined(Step(c, e))
  {
    hide NoneBehind, HasShutdown;
    match e
    case ConnSend(data, _, _) => QueuedOne(c.pending, Send(data));
    case ConnShutdown(_) => QueuedOne(c.pending, Shutdown);
    case ConnForceClose => QueuedOne(c.pending, ForceClose);
    case RunPending(_) => Dequeued(c.pending);
    case _ =>
  }

  /** A shutdown that overtakes a queued message: one made at once in the loop, or by the
      write handler when it has emptied the buffer of a disconnecting connection. */
  predicate Overtakes(c: Conn, e: Event)
    requires Possible(c, e)
  {
    && HasSend(c.pending)
    && (|| (e.ConnShutdown? && e.inLoop && c.state == Connected && !c.writing)
        || (e.Writable? && c.state == Disconnecting && e.w != Accepted(0) && (e.w.Accepted? ==> e.w.n == |c.output|)))
  }

  /** A shutdown finds a message still queued exactly when it overtakes it; one that is
      queued itself never does. */
  lemma ShutsBehindQueue(c: Conn, e: Event)
    requires Lined(c) && Possible(c, e)
    ensures Shuts(c, e) && HasSend(Step(c, e).pending) <==> Overtakes(c, e)
  {
    hide NoneBehind, HasShutdown, HasSend;
    if e.RunPending? {
      Dequeued(c.pending);
    }
  }

  ghost predicate NeverOvertakes(c: Conn, es: seq<Event>)
    requires AllPossible(c, es)
    decreases |es|
  {
    es != [] ==> !Overtakes(c, es[0]) && NeverOvertakes(Step(c, es[0]), es[1..])
  }

  /** Every shutdown so far found no message queued. */
  ghost predicate ShutLast(c: Conn) {
    forall i :: 0 <= i < |c.shuts| ==> !HasSend(c.shuts[i].queue)
  }

  lemma StepShutLast(c: Conn, e: Event)
    requires Interested(c) && Lined(c) && Possible(c, e)
    ensures ShutLast(Step(c, e)) <==> ShutLast(c) && !Overtakes(c, e)
  {
    hide Step, Possible, Interested, Late, Lined, Overtakes, HasSend;
    ShutsBehindQueue(c, e);
    if Shuts(c, e) {
      ShutsWhenEmpty(c, e);
      var n, now := |c.shuts|, Step(c, e).shuts;
      assert forall i | 0 <= i < n :: now[i] == now[..n][i];
    } else {
      SameShuts(c, e);
    }
  }

  /** From any state on, every shutdown finds no message queued if and only if every earlier
      one did and none overtakes a message. */
  lemma {:induction false} RunShutLast(c: Conn, es: seq<Event>)
    requires Interested(c) && Lined(c) && AllPossible(c, es)
    ensures ShutLast(Run(c, es)) <==> ShutLast(c) && NeverOvertakes(c, es)
    decreases |es|
  {
    hide Step, Possible, Interested, Lined, Overtakes, ShutLast;
    if es != [] {
      StepInterested(c, es[0]);
      StepLined(c, es[0]);
      StepShutLast(c, es[0]);
      RunShutLast(Step(c, es[0]), es[1..]);
    }
  }

  /** In every run, every shutdown finds the buffer empty if and only if no shutdown task is
      run after a close with output waiting, and no message queued if and only if none
      overtakes one.  In a run that drops nothing, a shutdown that finds the buffer empty
      finds everything given so far taken by the socket. */
  lemma GracefulShutdown(c: Conn, es: seq<Event>)
    requires Fresh(c) && AllPossible(c, es)
    ensures ShutEmpty(Run(c, es)) <==> NeverLate(c, es)
    ensures ShutLast(Run(c, es)) <==> NeverOvertakes(c, es)
    ensures DropsNothing(c, es) ==> (Graceful(Run(c, es)) <==> NeverLate(c, es))
  {
    hide Run, DropsNothing, NeverLate, NeverOvertakes;
    RunShutEmpty(c, es);
    RunShutLast(c, es);
    if DropsNothing(c, es) {
      RunRecorded(c, es);
      EmptyMeansTaken(Run(c, es));
    }
  }

  /** The states of a run in which the shutdown is queued from another thread, the peer
      closes, and then it is run. */
  function Late5(b: Byte, i: nat): Conn {
    var c1 := Conn(Connected, false, [], [], [], [], []);
    var c2 := c1.(given := [b], output := [b], writing := true);
    var c3 := c2.(state := Disconnecting, pending := [Shutdown]);
    if i == 0 then Conn(Connecting, false, [], [], [], [], [])
    else if i == 1 then c1 else if i == 2 then c2 else if i == 3 then c3 else if i == 4 then Close(c3)
    else Close(c3).(pending := [], shuts := [Shut([b], [], [b], [])])
  }

  function LateEvents(b: Byte, i: nat): Event {
    if i == 0 then Establish else if i == 1 then ConnSend([b], true, WouldBlock) else if i == 2 then ConnShutdown(false)
    else if i == 3 then PeerClosed else RunPending(WouldBlock)
  }

  lemma LateStep(b: Byte, i: nat)
    requires i < 5
    ensures Possible(Late5(b, i), LateEvents(b, i)) && Step(Late5(b, i), LateEvents(b, i)) == Late5(b, i + 1)
    ensures !Drops(Late5(b, i), LateEvents(b, i))
  {
    assert [] + [b][..0] == [] && [] + [b][0..] == [b] && [] + [b] == [b];
  }

  lemma {:induction false} LateRun(b: Byte, i: nat) returns (es: seq<Event>)
    requires i <= 5
    ensures var c := Late5(b, i); AllPossible(c, es) && DropsNothing(c, es) && Run(c, es) == Late5(b, 5)
    decreases 5 - i
  {
    hide Step, Possible, Drops, Late5, LateEvents;
    es := [];
    if i < 5 {
      LateStep(b, i);
      var rest := LateRun(b, i + 1);
      RunStep(Late5(b, i), LateEvents(b, i), rest);
      es := [LateEvents(b, i)] + rest;
    }
  }

  /** In this run the socket is shut down with a byte still waiting. */
  lemma LateShutdown(b: Byte) returns (c: Conn, es: seq<Event>)
    ensures Fresh(c) && AllPossible(c, es) && DropsNothing(c, es)
    ensures !ShutEmpty(Run(c, es)) && !Graceful(Run(c, es))
  {
    hide Run, AllPossible, DropsNothing;
    c := Late5(b, 0);
    es := LateRun(b, 0);
    assert Late5(b, 5).shuts[0] == Shut([b], [], [b], []);
  }

  /** A run through given states. */
  lemma {:induction false} Path(cs: seq<Conn>, es: seq<Event>)
    requires |cs| == |es| + 1
    requires forall i | 0 <= i < |es| :: Possible(cs[i], es[i]) && Step(cs[i], es[i]) == cs[i + 1]
    ensures AllPossible(cs[0], es) && Run(cs[0], es) == cs[|es|]
    decreases |es|
  {
    hide Step, Possible;
    if es != [] {
      forall i | 0 <= i < |es| - 1
        ensures Possible(cs[1..][i], es[1..][i]) && Step(cs[1..][i], es[1..][i]) == cs[1..][i + 1]
      {
        assert cs[1..][i] == cs[i + 1] && es[1..][i] == es[i + 1] && cs[1..][i + 1] == cs[i + 2];
      }
      Path(cs[1..], es[1..]);
    }
  }

  /** A message queued from another thread, the peer closing before it is run: the message
      is lost. */
  lemma LostAfterClose(b: Byte) returns (c: Conn, es: seq<Event>)
    ensures Fresh(c) && AllPossible(c, es) && !DropsNothing(c, es)
    ensures var r := Run(c, es); r.given == [b] && r.wire == r.output == [] && r.pending == []
  {
    hide Run, AllPossible, DropsNothing;
    c := Conn(Connecting, false, [], [], [], [], []);
    es := [Establish, ConnSend([b], false, WouldBlock), PeerClosed, RunPending(WouldBlock)];
    var c1 := c.(state := Connected);
    var c2 := c1.(pending := [Send([b])]);
    var c3 := c2.(state := Disconnected);
    Path([c, c1, c2, c3, c3.(pending := [], given := [b])], es);
    OutputConserved(c, es);
  }

  /** A message queued from another thread, then a shutdown in the loop: the message is
      written after the socket was shut down. */
  lemma Overtaken(b: Byte) returns (c: Conn, es: seq<Event>)
    ensures Fresh(c) && AllPossible(c, es) && !NeverOvertakes(c, es)
    ensures var r := Run(c, es); r.shuts == [Shut([], [], [], [Send([b])])] && r.wire == [b]
  {
    hide Run, AllPossible, NeverOvertakes, DropsNothing, NeverLate;
    c := Conn(Connecting, false, [], [], [], [], []);
    es := [Establish, ConnSend([b], false, WouldBlock), ConnShutdown(true), RunPending(Accepted(1))];
    var c1 := c.(state := Connected);
    var c2 := c1.(pending := [Send([b])]);
    var c3 := c2.(state := Disconnecting, shuts := [Shut([], [], [], [Send([b])])]);
    SentLate(c3, b);
    Path([c, c1, c2, c3, c3.(pending := [], given := [b], wire := [b])], es);
    assert Run(c, es).shuts[0].queue[0] == Send([b]);
    GracefulShutdown(c, es);
  }

  lemma SentLate(c: Conn, b: Byte)
    requires c.pending == [Send([b])] && c.state == Disconnecting && !c.writing && c.wire == c.given == c.output == []
    ensures var e := RunPending(Accepted(1));
      Possible(c, e) && Step(c, e) == c.(pending := [], given := [b], wire := [b])
  {
    assert [] + [b][..1] == [b] && [] + [b] == [b];
  }

  lemma RunStep(c: Conn, e: Event, es: seq<Event>)
    requires Possible(c, e) && AllPossible(Step(c, e), es)
    ensures AllPossible(c, [e] + es) && Run(c, [e] + es) == Run(Step(c, e), es)
    ensures !Drops(c, e) && DropsNothing(Step(c, e), es) ==> DropsNothing(c, [e] + es)
  {
    hide Step, Possible, Drops;
    assert ([e] + es)[1..] == es;
  }
}
