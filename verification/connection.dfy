/**
 The connection object: its state, its write interest, its output buffer and the tasks
 queued for it.  The socket is what `wire` and `shuts` record.
 */
module Connections {
  import opened Bytes
  import opened GrowableBuffer
  import Spec = ConnectionSpec

  class Connection {
    var state: Spec.Phase
    var writing: bool
    var pending: seq<Spec.Task>
    const outputBuffer: Buffer
    /** What the socket has taken, what was given to be sent, and the shutdowns. */
    ghost var wire: seq<Byte>
    ghost var given: seq<Byte>
    ghost var shuts: seq<Spec.Shut>

    ghost predicate Valid()
      reads this, outputBuffer
    {
      outputBuffer.Valid()
    }

    ghost function View(): Spec.Conn
      requires Valid()
      reads this, outputBuffer, outputBuffer.buffer
    {
      Spec.Conn(state, writing, outputBuffer.Unread(), pending, wire, given, shuts)
    }

    /** The array of the output buffer is the old one or a new one. */
    twostate predicate SameOrFresh()
      reads outputBuffer
    {
      outputBuffer.buffer == old(outputBuffer.buffer) || fresh(outputBuffer.buffer)
    }

    constructor ()
      ensures Valid() && Spec.Fresh(View()) && fresh(outputBuffer) && fresh(outputBuffer.buffer)
    {
      state, writing, pending := Spec.Connecting, false, [];
      outputBuffer := new Buffer();
      wire, given, shuts := [], [], [];
    }

    method ShutdownSocket()
      requires Valid()
      modifies this`shuts
      ensures Valid() && View() == Spec.ShutDown(old(View()))
    {
      shuts := shuts + [Spec.Shut(outputBuffer.Unread(), wire, given, pending)];
    }

    method SendInLoop(msg: seq<Byte>, w: Spec.Written)
      requires Valid() && (w.Accepted? ==> w.n <= |msg|)
      modifies this, outputBuffer, outputBuffer.buffer
      ensures Valid() && SameOrFresh() && View() == Spec.SendInLoop(old(View()), msg, w)
    {
      var nwrote, remaining, faultError := 0, |msg|, false;
      if state == Spec.Disconnected {
        given := given + msg;
        return;
      }
      if !writing && outputBuffer.ReadableBytes() == 0 {
        if w.Accepted? {
          nwrote := w.n;
          remaining := |msg| - nwrote;
        } else if w.Broken? {
          faultError := true;
        }
      }
      wire, given := wire + msg[..nwrote], given + msg;
      if !faultError && remaining > 0 {
        outputBuffer.Append(msg[nwrote..]);
        if !writing {
          writing := true;
        }
      }
    }

    /** A failed write is a very large number of bytes to the code that follows. */
    method HandlerWrite(w: Spec.Written)
      requires Valid() && (w.Accepted? ==> w.n <= outputBuffer.ReadableBytes())
      modifies this, outputBuffer
      ensures Valid() && outputBuffer.buffer == old(outputBuffer.buffer)
      ensures View() == Spec.HandlerWrite(old(View()), w)
    {
      var n := if w.Accepted? then w.n else 0xFFFF_FFFF_FFFF_FFFF;
      if n > 0 {
        if w.Accepted? {
          wire := wire + outputBuffer.Unread()[..n];
          outputBuffer.Retrieve(n);
        } else {
          outputBuffer.RetrieveAll();
          assert wire + [] == wire;
        }
        if outputBuffer.ReadableBytes() == 0 {
          writing := false;
          if state == Spec.Disconnecting {
            ShutdownSocket();
          }
        }
      }
    }

    method HandlerClose()
      requires Valid()
      modifies this
      ensures Valid() && View() == Spec.Close(old(View()))
    {
      state, writing := Spec.Disconnected, false;
    }

    method Established()
      requires Valid() && state == Spec.Connecting
      modifies this
      ensures Valid() && View() == Spec.Step(old(View()), Spec.Establish)
    {
      state := Spec.Connected;
    }

    method Destroyed()
      requires Valid()
      modifies this
      ensures Valid() && View() == Spec.Step(old(View()), Spec.Destroy)
    {
      if state == Spec.Connected {
        HandlerClose();
      }
    }

    method Send(data: seq<Byte>, inLoop: bool, w: Spec.Written)
      requires Valid() && (w.Accepted? ==> w.n <= |data|)
      modifies this, outputBuffer, outputBuffer.buffer
      ensures Valid() && SameOrFresh() && View() == Spec.Step(old(View()), Spec.ConnSend(data, inLoop, w))
    {
      if state == Spec.Connected {
        if inLoop {
          SendInLoop(data, w);
        } else {
          pending := pending + [Spec.Send(data)];
        }
      }
    }

    method RunInLoopShutdown()
      requires Valid()
      modifies this
      ensures Valid() && View() == Spec.RunShutdown(old(View()))
    {
      if !writing {
        ShutdownSocket();
      }
    }

    method Shutdown(inLoop: bool)
      requires Valid()
      modifies this
      ensures Valid() && View() == Spec.Step(old(View()), Spec.ConnShutdown(inLoop))
    {
      if state == Spec.Connected {
        state := Spec.Disconnecting;
        if inLoop {
          RunInLoopShutdown();
        } else {
          pending := pending + [Spec.Shutdown];
        }
      }
    }

    method ForceClose()
      requires Valid()
      modifies this
      ensures Valid() && View() == Spec.Step(old(View()), Spec.ConnForceClose)
    {
      if state == Spec.Connected || state == Spec.Disconnecting {
        state := Spec.Disconnecting;
        pending := pending + [Spec.ForceClose];
      }
    }

    /** The loop calls what was queued first. */
    method RunPending(w: Spec.Written)
      requires Valid() && Spec.Possible(View(), Spec.RunPending(w))
      modifies this, outputBuffer, outputBuffer.buffer
      ensures Valid() && SameOrFresh() && View() == Spec.Step(old(View()), Spec.RunPending(w))
    {
      var task := pending[0];
      pending := pending[1..];
      match task {
        case Send(msg) => SendInLoop(msg, w);
        case Shutdown => RunInLoopShutdown();
        case ForceClose =>
          if state == Spec.Connected || state == Spec.Disconnecting {
            HandlerClose();
          }
      }
    }
  }
}
