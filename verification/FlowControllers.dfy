/**
 The receive flow controllers as the source runs them: the fields of the embedded base controller are w, updated in
 place.
 */
module FlowControllers {
  import opened Common
  import opened FlowControl

  class ConnectionFlowController {
    var w: Window

    constructor (receiveWindow: nat, maxReceiveWindow: nat)
      ensures w == NewWindow(receiveWindow, maxReceiveWindow) && w.Valid()
    {
      w := Window(0, 0, receiveWindow, receiveWindow, maxReceiveWindow, 0, 0);
    }

    method IncrementHighestReceived(increment: nat, now: int) returns (ok: bool)
      modifies this
      ensures w == old(w).Receive(increment, now) && ok == (w.highestReceived <= w.receiveWindow)
    {
      if w.highestReceived == 0 {
        w := w.StartEpoch(now);
      }
      w := w.(highestReceived := w.highestReceived + increment);
      return w.highestReceived <= w.receiveWindow;
    }

    method AddBytesRead(n: nat) returns (hasWindowUpdate: bool)
      modifies this
      ensures w == old(w).(bytesRead := old(w).bytesRead + n) && hasWindowUpdate == w.HasWindowUpdate()
    {
      w := w.(bytesRead := w.bytesRead + n);
      return w.receiveWindow - w.bytesRead <= w.size * 3 / 4;
    }

    /** The new limit to advertise; 0 when there is none. */
    method GetWindowUpdate(now: int, rtt: nat, allowed: bool) returns (offset: nat)
      requires w.Valid()
      modifies this
      ensures w == old(w).GetWindowUpdate(now, rtt, allowed) && w.Valid() && Advances(old(w), w)
      ensures offset == if old(w).HasWindowUpdate() then w.receiveWindow else 0
    {
      UpdateKeepsWindow(w, now, rtt, allowed);
      if !w.HasWindowUpdate() {
        return 0;
      }
      w := w.MaybeAdjustSize(now, rtt, allowed);
      w := w.(receiveWindow := w.bytesRead + w.size);
      return w.receiveWindow;
    }

    method EnsureMinimumWindowSize(inc: nat, now: int, allowed: bool)
      modifies this
      ensures w == old(w).EnsureMinimumSize(inc, now, allowed)
    {
      if inc <= w.size {
        return;
      }
      var newSize := Min(inc, w.maxSize);
      if newSize - w.size > 0 && allowed {
        w := w.(size := newSize);
      }
      w := w.StartEpoch(now);
    }
  }

  class StreamFlowController {
    const conn: ConnectionFlowController
    var w: Window
    var receivedFinalOffset: bool

    function View(): Stream
      reads this
    {
      Stream(w, receivedFinalOffset)
    }

    constructor (conn: ConnectionFlowController, receiveWindow: nat, maxReceiveWindow: nat)
      ensures this.conn == conn && w == NewWindow(receiveWindow, maxReceiveWindow) && w.Valid() && !receivedFinalOffset
    {
      this.conn := conn;
      w := Window(0, 0, receiveWindow, receiveWindow, maxReceiveWindow, 0, 0);
      receivedFinalOffset := false;
    }

    method UpdateHighestReceived(offset: nat, final: bool, now: int) returns (ok: bool)
      modifies this, conn
      ensures Received(View(), conn.w, ok) ==
                FlowControl.UpdateHighestReceived(old(View()), old(conn.w), offset, final, now)
    {
      if receivedFinalOffset {
        if final && offset != w.highestReceived {
          return false;
        }
        if offset > w.highestReceived {
          return false;
        }
      }
      if final {
        receivedFinalOffset := true;
      }
      if offset == w.highestReceived {
        return true;
      }
      if offset < w.highestReceived {
        return !final;
      }
      if w.highestReceived == 0 {
        w := w.StartEpoch(now);
      }
      var increment := offset - w.highestReceived;
      w := w.(highestReceived := offset);
      if w.highestReceived > w.receiveWindow {
        return false;
      }
      ok := conn.IncrementHighestReceived(increment, now);
    }

    method AddBytesRead(n: nat) returns (hasStreamWindowUpdate: bool, hasConnWindowUpdate: bool)
      modifies this`w, conn
      ensures Accounts(View(), conn.w) == FlowControl.AddBytesRead(old(View()), old(conn.w), n)
      ensures hasStreamWindowUpdate == (!receivedFinalOffset && w.HasWindowUpdate())
      ensures hasConnWindowUpdate == conn.w.HasWindowUpdate()
    {
      w := w.(bytesRead := w.bytesRead + n);
      hasStreamWindowUpdate := !receivedFinalOffset && w.HasWindowUpdate();
      hasConnWindowUpdate := conn.AddBytesRead(n);
    }

    method Abandon()
      requires w.bytesRead <= w.highestReceived
      modifies this`w, conn
      ensures Accounts(View(), conn.w) == FlowControl.Abandon(old(View()), old(conn.w))
    {
      var unread := w.highestReceived - w.bytesRead;
      w := w.(bytesRead := w.highestReceived);
      if unread > 0 {
        var _ := conn.AddBytesRead(unread);
      }
    }

    method GetWindowUpdate(now: int, rtt: nat, allowed: bool) returns (offset: nat)
      modifies this`w, conn
      ensures Accounts(View(), conn.w) == StreamUpdate(old(View()), old(conn.w), now, rtt, allowed)
      ensures offset == if !receivedFinalOffset && old(w).HasWindowUpdate() then w.receiveWindow else 0
    {
      if receivedFinalOffset {
        return 0;
      }
      var oldSize := w.size;
      offset := 0;
      if w.HasWindowUpdate() {
        w := w.MaybeAdjustSize(now, rtt, true);
        w := w.(receiveWindow := w.bytesRead + w.size);
        offset := w.receiveWindow;
      }
      if w.size > oldSize {
        conn.EnsureMinimumWindowSize(w.size * 3 / 2, now, allowed);
      }
    }
  }
}
