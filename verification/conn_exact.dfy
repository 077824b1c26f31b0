/**
 What each event does to a connection, exactly: when the socket is written to and shut down,
 when the connection is closed, and where the bytes are that have been accepted to be sent.
 */
module ConnectionExact {
  import opened Bytes
  import opened ConnectionSpec

  // ------------------------------------------------------------ single events

  /** The socket is shut down exactly by a shutdown made in the loop while nothing waits to be
      written, by a queued one that is run then, and by the write that empties the buffer of a
      disconnecting connection or fails on it. */
  lemma ShutsExactly(c: Conn, e: Event)
    requires Interested(c) && Possible(c, e)
    ensures Shuts(c, e) <==>
      || (e.ConnShutdown? && e.inLoop && c.state == Connected && c.output == [])
      || (e.RunPending? && c.pending[0].Shutdown? && (c.output == [] || c.state == Disconnected))
      || (e.Writable? && c.state == Disconnecting && e.w != Accepted(0) && (e.w.Accepted? ==> e.w.n == |c.output|))
  {
  }

  /** A connection is closed exactly when the peer closes it, when a forced close comes to be
      run, and when it is destroyed while connected. */
  lemma ClosesExactly(c: Conn, e: Event)
    requires Possible(c, e)
    ensures Step(c, e).state == Disconnected <==>
      || c.state == Disconnected
      || e.PeerClosed?
      || (e.Destroy? && c.state == Connected)
      || (e.RunPending? && c.pending[0].ForceClose? && (c.state == Connected || c.state == Disconnecting))
    ensures Step(c, e).state == Disconnected && c.state != Disconnected ==> !Step(c, e).writing
  {
  }

  /** It is connected once it is established, until it is closed, shut down or forced to
      close; only a connected one begins to disconnect. */
  lemma PhasesExactly(c: Conn, e: Event)
    requires Possible(c, e) && Step(c, e).state != Disconnected
    ensures Step(c, e).state ==
      if e.Establish? then Connected
      else if (e.ConnShutdown? || e.ConnForceClose?) && c.state == Connected then Disconnecting
      else c.state
  {
  }

  /** The bytes that an event offers to the socket: what waits, or a message if nothing does. */
  function Offers(c: Conn, e: Event): seq<Byte>
    requires Possible(c, e)
  {
    if e.Writable? then c.output
    else if Sending(c, e).Some? && c.state != Disconnected && c.output == [] then Sending(c, e).value
    else []
  }

  /** Exactly the bytes of an offer that the socket accepts are written, in front of all
      that waits; the rest of a message is put behind it. */
  lemma WritesExactly(c: Conn, e: Event)
    requires Interested(c) && Possible(c, e)
    ensures var offer := Offers(c, e);
      var n := if offer != [] && e.w.Accepted? then e.w.n else 0;
      && n <= |offer|
      && Step(c, e).wire == c.wire + offer[..n]
  {
    assert c.wire + [] == c.wire;
  }

  /** What an event does to the queue: a message or a shutdown from another thread and a
      forced close go to its end, and a run takes its head. */
  lemma QueuesExactly(c: Conn, e: Event)
    requires Possible(c, e)
    ensures Step(c, e).pending ==
      match e
      case ConnSend(data, inLoop, _) => if c.state == Connected && !inLoop then c.pending + [Send(data)] else c.pending
      case ConnShutdown(inLoop) => if c.state == Connected && !inLoop then c.pending + [Shutdown] else c.pending
      case ConnForceClose =>
        if c.state == Connected || c.state == Disconnecting then c.pending + [ForceClose] else c.pending
      case RunPending(_) => c.pending[1..]
      case _ => c.pending
  {
  }

  // ------------------------------------------------------------ accepted bytes

  /** The bytes of the queued messages. */
  function Queued(q: seq<Task>): seq<Byte> {
    if q == [] then [] else (if q[0].Send? then q[0].msg else []) + Queued(q[1..])
  }

  lemma {:induction false} QueuedAppend(q: seq<Task>, t: Task)
    ensures Queued(q + [t]) == Queued(q) + if t.Send? then t.msg else []
  {
    if q == [] {
      QueuedOne(t);
      assert [] + [t] == [t];
    } else {
      var added := if t.Send? then t.msg else [];
      var head := if q[0].Send? then q[0].msg else [];
      QueuedAppend(q[1..], t);
      assert (q + [t])[1..] == q[1..] + [t] && (q + [t])[0] == q[0];
      assert head + (Queued(q[1..]) + added) == (head + Queued(q[1..])) + added;
    }
  }

  lemma QueuedOne(t: Task)
    ensures Queued([]) == [] && Queued([t]) == [] + if t.Send? then t.msg else []
  {
    assert [t][1..] == [];
  }

  /** The bytes that conn_send accepts. */
  function Accepts(c: Conn, e: Event): seq<Byte> {
    if e.ConnSend? && c.state == Connected then e.data else []
  }

  function AcceptedBy(c: Conn, es: seq<Event>): seq<Byte>
    requires AllPossible(c, es)
    decreases |es|
  {
    if es == [] then [] else Accepts(c, es[0]) + AcceptedBy(Step(c, es[0]), es[1..])
  }

  /** Bytes that are in the queue or have been given to conn_send_in_loop. */
  function Known(c: Conn): multiset<Byte> {
    multiset(c.given) + multiset(Queued(c.pending))
  }

  /** Every event adds exactly the bytes that conn_send accepts by it, and while a message is
      queued, none that are sent in the loop, they keep their order. */
  lemma StepAccepts(c: Conn, e: Event)
    requires Possible(c, e)
    ensures Known(Step(c, e)) == Known(c) + multiset(Accepts(c, e))
    ensures !(e.ConnSend? && e.inLoop && Queued(c.pending) != []) ==>
      Step(c, e).given + Queued(Step(c, e).pending) == c.given + Queued(c.pending) + Accepts(c, e)
  {
    hide Step, Possible, Accepts, Queued;
    var m, rest, a, b := Parts(c, e);
    Flows(c.given, m, rest, a, b);
  }

  /** An event takes bytes from the front of the queue, gives these and some accepted ones, and
      puts the other accepted ones to the end of the queue. */
  lemma Parts(c: Conn, e: Event) returns (m: seq<Byte>, rest: seq<Byte>, a: seq<Byte>, b: seq<Byte>)
    requires Possible(c, e)
    ensures Queued(c.pending) == m + rest && Accepts(c, e) == a + b
    ensures Step(c, e).given == c.given + m + a && Queued(Step(c, e).pending) == rest + b
    ensures a != [] ==> e.ConnSend? && e.inLoop
  {
    hide Step, Queued;
    QueuesExactly(c, e);
    GivenExactly(c, e);
    m, rest, a, b := [], Queued(c.pending), [], [];
    Nothing(c.given, rest);
    match e
    case ConnSend(data, inLoop, _) =>
      if c.state == Connected {
        Nothing(data, data);
        if inLoop {
          a := data;
        } else {
          b := data;
          QueuedAppend(c.pending, Send(data));
        }
      }
    case ConnShutdown(_) => QueuedAppend(c.pending, Shutdown);
    case ConnForceClose => QueuedAppend(c.pending, ForceClose);
    case RunPending(_) =>
      m, rest := if c.pending[0].Send? then c.pending[0].msg else [], Queued(c.pending[1..]);
      QueuedFirst(c.pending);
      Nothing(c.given + m, rest);
    case _ =>
  }

  lemma Nothing(x: seq<Byte>, y: seq<Byte>)
    ensures x + [] == x && y + [] == y && [] + x == x && [] + y == y
  {
  }

  lemma QueuedFirst(q: seq<Task>)
    requires q != []
    ensures Queued(q) == (if q[0].Send? then q[0].msg else []) + Queued(q[1..])
  {
  }

  lemma Flows(g: seq<Byte>, m: seq<Byte>, rest: seq<Byte>, a: seq<Byte>, b: seq<Byte>)
    ensures multiset(g + m + a) + multiset(rest + b) == multiset(g) + multiset(m + rest) + multiset(a + b)
    ensures a == [] || m + rest == [] ==> (g + m + a) + (rest + b) == g + (m + rest) + (a + b)
  {
    Union(g + m, a);
    Union(g, m);
    Union(rest, b);
    Union(m, rest);
    Union(a, b);
  }

  lemma Union(x: seq<Byte>, y: seq<Byte>)
    ensures multiset(x + y) == multiset(x) + multiset(y)
  {
  }

  /** What is given to conn_send_in_loop. */
  lemma GivenExactly(c: Conn, e: Event)
    requires Possible(c, e)
    ensures Step(c, e).given == c.given + if Sending(c, e).Some? then Sending(c, e).value else []
  {
    assert c.given + [] == c.given;
  }

  /** Over every run the bytes accepted by conn_send are those given to conn_send_in_loop and
      those still queued: none is lost before it is given, and none is made up. */
  lemma {:induction false} RunAccepts(c: Conn, es: seq<Event>)
    requires AllPossible(c, es)
    ensures Known(Run(c, es)) == Known(c) + multiset(AcceptedBy(c, es))
    decreases |es|
  {
    hide Step, Possible, Known, Accepts;
    if es != [] {
      StepAccepts(c, es[0]);
      var c1 := Step(c, es[0]);
      RunAccepts(c1, es[1..]);
      var a, b := Accepts(c, es[0]), AcceptedBy(c1, es[1..]);
      assert multiset(a + b) == multiset(a) + multiset(b);
      assert (Known(c) + multiset(a)) + multiset(b) == Known(c) + multiset(a + b);
    }
  }

  /** No message is sent in the loop while one from another thread is queued. */
  ghost predicate InTurn(c: Conn, es: seq<Event>)
    requires AllPossible(c, es)
    decreases |es|
  {
    es != [] ==>
      !(es[0].ConnSend? && es[0].inLoop && Queued(c.pending) != []) && InTurn(Step(c, es[0]), es[1..])
  }

  /** Then the bytes are given in the order in which they were accepted. */
  lemma {:induction false} RunInOrder(c: Conn, es: seq<Event>)
    requires AllPossible(c, es) && InTurn(c, es)
    ensures var r := Run(c, es); r.given + Queued(r.pending) == c.given + Queued(c.pending) + AcceptedBy(c, es)
    decreases |es|
  {
    hide Step, Possible, Queued, Accepts;
    var before := c.given + Queued(c.pending);
    if es == [] {
      assert before + [] == before;
    } else {
      StepAccepts(c, es[0]);
      var c1 := Step(c, es[0]);
      RunInOrder(c1, es[1..]);
      assert (before + Accepts(c, es[0])) + AcceptedBy(c1, es[1..]) == before + AcceptedBy(c, es);
    }
  }

  // --------------------------------------------------------------- what comes to be

  /** The queue is run to its end, the socket taking nothing directly. */
  function RunQueue(c: Conn): Conn
    decreases |c.pending|
  {
    if c.pending == [] then c
    else
      QueuesExactly(c, RunPending(WouldBlock));
      RunQueue(Step(c, RunPending(WouldBlock)))
  }

  /** A forced close closes the connection when the queue is run, whatever else is in it. */
  lemma ForcedCloses(c: Conn)
    requires c.state == Connected || c.state == Disconnecting
    ensures RunQueue(Step(c, ConnForceClose)).state == Disconnected
  {
    var c1 := Step(c, ConnForceClose);
    assert c1.pending[|c.pending|].ForceClose?;
    QueuedCloseCloses(c1, |c.pending|);
  }

  lemma {:induction false} QueuedCloseCloses(c: Conn, i: nat)
    requires i < |c.pending| && c.pending[i].ForceClose? && c.state != Connecting
    ensures RunQueue(c).state == Disconnected
    decreases |c.pending|
  {
    var e := RunPending(WouldBlock);
    var c1 := Step(c, e);
    QueuesExactly(c, e);
    ClosesExactly(c, e);
    PhaseAfter(c, e);
    if i == 0 {
      ClosedStays(c1);
    } else {
      assert c1.pending[i - 1] == c.pending[i];
      QueuedCloseCloses(c1, i - 1);
    }
  }

  lemma PhaseAfter(c: Conn, e: Event)
    requires e.RunPending? && Possible(c, e) && c.state != Connecting
    ensures Step(c, e).state != Connecting
  {
  }

  lemma {:induction false} ClosedStays(c: Conn)
    requires c.state == Disconnected
    ensures RunQueue(c).state == Disconnected
    decreases |c.pending|
  {
    if c.pending != [] {
      QueuesExactly(c, RunPending(WouldBlock));
      ClosesExactly(c, RunPending(WouldBlock));
      ClosedStays(Step(c, RunPending(WouldBlock)));
    }
  }

  /** A connection with nothing waiting and nothing queued is shut down at once, or as soon
      as the queue is run. */
  lemma IdleShuts(c: Conn, inLoop: bool)
    requires Interested(c) && c.state == Connected && c.output == [] && c.pending == []
    ensures var c1 := Step(c, ConnShutdown(inLoop));
      var c2 := RunQueue(c1);
      c2.state == Disconnecting && c2.shuts == c.shuts + [Shut([], c.wire, c.given, [])]
  {
    var c1 := Step(c, ConnShutdown(inLoop));
    if !inLoop {
      assert c1.pending == [Shutdown] && c1.pending[1..] == [];
      var c2 := Step(c1, RunPending(WouldBlock));
      assert c2.pending == [] && RunQueue(c2) == c2;
    }
  }
}
