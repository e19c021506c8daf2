/** The sending side of a stream: buffered, in-flight, lost and acknowledged data, and the credit it is charged. */
module SendStreams {
  import opened Common
  import opened Varint
  import opened StreamFrames
  import opened ReliableSending
  import FC = FlowControl

  // ---------------------------------------------------------------- send credit

  /** The connection's send credit, shared by its streams. */
  class ConnectionCredit {
    var bytesSent: nat
    var sendWindow: nat
    var lastBlockedAt: nat

    predicate Valid() reads this { bytesSent <= sendWindow }

    function Account(): FC.Account reads this { FC.Account(bytesSent, sendWindow) }

    constructor ()
      ensures Valid() && bytesSent == 0 && sendWindow == 0
    {
      bytesSent, sendWindow, lastBlockedAt := 0, 0, 0;
    }

    method UpdateSendWindow(offset: nat) returns (updated: bool)
      requires Valid()
      modifies this`sendWindow
      ensures Valid() && sendWindow == Max(old(sendWindow), offset) && updated == (sendWindow != old(sendWindow))
      ensures Account() == FC.Raised(old(Account()), offset)
    {
      updated := offset > sendWindow;
      if updated {
        sendWindow := offset;
      }
    }

    method TryAddBytesSent(n: nat) returns (ok: bool)
      requires Valid()
      modifies this`bytesSent
      ensures Valid() && ok == FC.Fits(old(Account()), n)
      ensures bytesSent == old(bytesSent) + if ok then n else 0
    {
      if bytesSent > sendWindow || n > sendWindow - bytesSent {
        return false;
      }
      bytesSent := bytesSent + n;
      return true;
    }

    /** allowed is what the caller's limiter answers; it is clamped to what the connection allows. */
    method AddBytesSentWithLimiter(n: nat, allowed: int) returns (added: nat, limited: bool)
      requires Valid()
      modifies this`bytesSent
      ensures added == FC.ConnLimited(old(Account()), n, allowed)
      ensures Valid() && bytesSent == old(bytesSent) + added && added <= n && added <= Max(allowed, 0)
      ensures limited ==> added < Min(n, sendWindow - old(bytesSent)) && added == Max(allowed, 0)
      ensures !limited ==> added == Min(n, sendWindow - old(bytesSent))
    {
      if bytesSent >= sendWindow {
        return 0, false;
      }
      var m := Min(n, sendWindow - bytesSent);
      added := Min(Max(allowed, 0), m);
      bytesSent := bytesSent + added;
      limited := added < m;
    }
  }

  /** One stream's send credit. What it charges, it charges to the connection as well. */
  class StreamCredit {
    const conn: ConnectionCredit
    var bytesSent: nat
    var sendWindow: nat
    var lastBlockedAt: nat

    predicate Valid() reads this, conn { bytesSent <= sendWindow && conn.Valid() }

    function Account(): FC.Account reads this { FC.Account(bytesSent, sendWindow) }

    /** The stream's account and the connection's. */
    function Accounts(): FC.Charges reads this, conn { FC.Charges(Account(), conn.Account()) }

    function Available(): int reads this, conn {
      Min(sendWindow - bytesSent, conn.sendWindow - conn.bytesSent)
    }

    constructor (conn: ConnectionCredit, initialSendWindow: nat)
      requires conn.Valid()
      ensures Valid() && bytesSent == 0 && sendWindow == initialSendWindow && this.conn == conn
    {
      this.conn := conn;
      bytesSent, sendWindow, lastBlockedAt := 0, initialSendWindow, 0;
    }

    method UpdateSendWindow(offset: nat) returns (updated: bool)
      requires Valid()
      modifies this`sendWindow
      ensures Valid() && sendWindow == Max(old(sendWindow), offset) && updated == (sendWindow != old(sendWindow))
      ensures Account() == FC.Raised(old(Account()), offset)
    {
      updated := offset > sendWindow;
      if updated {
        sendWindow := offset;
      }
    }

    /** All or nothing, at both levels. */
    method TryAddBytesSent(n: nat) returns (ok: bool)
      requires Valid()
      modifies this`bytesSent, conn`bytesSent
      ensures Accounts() == FC.TryCharge(old(Account()), old(conn.Account()), n)
      ensures Valid() && ok == (n <= old(Available()))
      ensures bytesSent == old(bytesSent) + (if ok then n else 0)
      ensures conn.bytesSent == old(conn.bytesSent) + if ok then n else 0
    {
      if bytesSent > sendWindow || n > sendWindow - bytesSent {
        return false;
      }
      var charged := conn.TryAddBytesSent(n);
      if !charged {
        return false;
      }
      bytesSent := bytesSent + n;
      return true;
    }

    method AddBytesSentWithLimiter(n: nat, allowed: int) returns (added: nat, limited: bool)
      requires Valid()
      modifies this`bytesSent, conn`bytesSent
      ensures Accounts() == FC.LimitedCharge(old(Account()), old(conn.Account()), n, allowed)
      ensures Valid() && added <= n && added <= Max(allowed, 0)
      ensures bytesSent == old(bytesSent) + added && conn.bytesSent == old(conn.bytesSent) + added
      ensures limited ==> added < Min(n, old(Available())) && added == Max(allowed, 0)
      ensures !limited ==> added == Min(n, old(Available()))
    {
      if bytesSent >= sendWindow {
        return 0, false;
      }
      var m := Min(n, sendWindow - bytesSent);
      added, limited := conn.AddBytesSentWithLimiter(m, allowed);
      bytesSent := bytesSent + added;
    }

    /** Reports the limit the stream is blocked at, once per limit. */
    method IsNewlyBlocked() returns (at: Option<nat>)
      requires Valid()
      modifies this`lastBlockedAt
      ensures at == if bytesSent == sendWindow != old(lastBlockedAt) then Some(sendWindow) else None
      ensures lastBlockedAt == if at.Some? then sendWindow else old(lastBlockedAt)
    {
      if bytesSent < sendWindow || sendWindow == lastBlockedAt {
        return None;
      }
      lastBlockedAt := sendWindow;
      return Some(sendWindow);
    }
  }

  // ---------------------------------------------------------------- what holds of a stream

  function Data(f: Option<StreamFrame>): seq<byte> {
    if f.Some? then f.value.data else []
  }

  /** The octets that are written but not sent are those in the next frame. */
  ghost predicate BufferOk(written: seq<byte>, writeOffset: nat, nextFrame: Option<StreamFrame>, reserved: bool) {
    && |written| == writeOffset + |Data(nextFrame)|
    && written[writeOffset..] == Data(nextFrame)
    && (nextFrame.Some? ==> nextFrame.value.offset == writeOffset && nextFrame.value.data != [] && !nextFrame.value.fin)
    && (reserved ==> nextFrame.Some?)
    && (!reserved ==> |Data(nextFrame)| <= MAX_PACKET_BUFFER_SIZE)
  }

  /** The credit taken is for what was sent and for what TryWriteAll reserved. */
  ghost predicate ChargedOnce(bytesSent: nat, writeOffset: nat, nextFrame: Option<StreamFrame>, reserved: bool) {
    bytesSent == writeOffset + if reserved then |Data(nextFrame)| else 0
  }

  ghost predicate FramesOk(inFlight: seq<StreamFrame>, queue: seq<StreamFrame>, outstanding: int) {
    outstanding == |inFlight| && Small(inFlight) && Small(queue)
  }

  ghost predicate Small(fs: seq<StreamFrame>) {
    forall i :: 0 <= i < |fs| ==> |fs[i].data| <= MAX_PACKET_BUFFER_SIZE
  }

  /**
   After a reset only the RESET_STREAM frame is tracked: queued, in flight or acknowledged. Its final size is the
   credit taken.
   */
  ghost predicate ResetOk(queued: Option<nat>, inFlight: Option<nat>, outstanding: int, bytesSent: nat) {
    && outstanding == (if inFlight.Some? then 1 else 0)
    && !(queued.Some? && inFlight.Some?)
    && (queued.Some? ==> queued.value == bytesSent)
    && (inFlight.Some? ==> inFlight.value == bytesSent)
  }

  /** A Write call has accepted all of its argument but the data still for writing. */
  ghost predicate WriterOk(p: seq<byte>, data: seq<byte>) {
    |data| <= |p| && p[|p| - |data|..] == data
  }

  ghost predicate AcceptedOk(p: seq<byte>, data: seq<byte>, before: seq<byte>, written: seq<byte>) {
    |data| <= |p| && written == before + p[..|p| - |data|]
  }

  lemma InvariantMeans(s: Sending)
    requires Invariant(s)
    ensures s.finSent ==> s.closed && s.sent == |s.written|
    ensures s.sent <= |s.written|
  {
  }

  lemma NothingAccepted(p: seq<byte>, written: seq<byte>)
    ensures WriterOk(p, p) && AcceptedOk(p, p, written, written)
  {
  }

  /** Taking the first n octets off the data accepts them. */
  lemma Accepting(p: seq<byte>, data: seq<byte>, n: nat, before: seq<byte>, written: seq<byte>)
    requires n <= |data| && WriterOk(p, data) && AcceptedOk(p, data, before, written)
    ensures WriterOk(p, data[n..]) && AcceptedOk(p, data[n..], before, written + data[..n])
  {
    var k := |p| - |data|;
    assert p[k..][n..] == p[k + n..];
    assert p[k..][..n] == p[k..k + n];
    assert p[..k] + p[k..k + n] == p[..k + n];
  }

  /** The next frame grows by what is written. */
  lemma Buffering(written: seq<byte>, writeOffset: nat, nextFrame: Option<StreamFrame>, reserved: bool, d: seq<byte>,
                  reserved': bool)
    requires BufferOk(written, writeOffset, nextFrame, reserved) && d != []
    requires !reserved' ==> |Data(nextFrame)| + |d| <= MAX_PACKET_BUFFER_SIZE
    ensures BufferOk(written + d, writeOffset, Some(StreamFrame(writeOffset, Data(nextFrame) + d, false)), reserved')
  {
    assert (written + d)[writeOffset..] == written[writeOffset..] + d;
  }

  /** Sending n octets off the next frame leaves the others. */
  lemma Unbuffering(written: seq<byte>, writeOffset: nat, nextFrame: Option<StreamFrame>, reserved: bool, n: nat)
    requires BufferOk(written, writeOffset, nextFrame, reserved) && nextFrame.Some? && 0 < n <= |nextFrame.value.data|
    ensures nextFrame.value.data[..n] == written[writeOffset..writeOffset + n]
    ensures var d := nextFrame.value.data;
            if n < |d|
            then BufferOk(written, writeOffset + n, Some(StreamFrame(writeOffset + n, d[n..], false)), reserved)
            else BufferOk(written, writeOffset + n, None, false)
  {
    assert written[writeOffset..][..n] == written[writeOffset..writeOffset + n];
    assert written[writeOffset..][n..] == written[writeOffset + n..];
  }

  // ---------------------------------------------------------------- the stream

  /** What Write returns: how many octets were accepted, and why not all. */
  datatype WriteResult =
    | Written(n: nat)
    | WasReset(n: nat)
    | WasClosed(n: nat)
    | LimitReached(n: nat)
    | DeadlineExceeded(n: nat)

  /** A Write call: its argument, whether it has a limiter, and whether the limiter has stopped it. */
  datatype WriteCall = WriteCall(p: seq<byte>, limiter: bool, limited: bool)

  datatype TryResult = Queued | WouldBlock | TryReset | TryClosed

  /**
   The RESET_STREAM frame is queued, in flight, or else acknowledged; the application knows of the end of the stream.
   */
  datatype ResetPhase = ResetPhase(queued: bool, inFlight: bool, flagged: bool)
  {
    predicate Over() { !queued && !inFlight && flagged }
  }

  class SendStream {
    const id: nat
    const flow: StreamCredit

    var writeOffset: nat
    var dataForWriting: seq<byte>
    var nextFrame: Option<StreamFrame>
    var nextFrameReserved: bool
    var finishedWriting: bool
    var finSent: bool
    var completed: bool
    var numOutstandingFrames: int
    var retransmissionQueue: seq<StreamFrame>
    var resetErr: bool
    var queuedReset: Option<nat>
    var cancellationFlagged: bool
    /** The Write call in progress, if there is one. */
    var writing: Option<WriteCall>

    // The history: octets written so far (and before the current Write call), frames in flight and acknowledged,
    // and the final size in a RESET_STREAM frame in flight.
    ghost var written: seq<byte>
    ghost var writtenBefore: seq<byte>
    ghost var inFlight: seq<StreamFrame>
    ghost var acked: seq<StreamFrame>
    ghost var resetInFlight: Option<nat>

    /** The stream without its buffers. */
    ghost function Abs(): Sending
      reads this
    {
      Sending(written, writeOffset, finishedWriting, finSent, inFlight, retransmissionQueue, acked)
    }

    ghost predicate OpenValid()
      reads this, flow
    {
      && ChargedOnce(flow.bytesSent, writeOffset, nextFrame, nextFrameReserved)
      && DataValid()
    }

    ghost predicate DataValid()
      reads this
    {
      && Invariant(Abs())
      && BufferOk(written, writeOffset, nextFrame, nextFrameReserved)
      && FramesOk(inFlight, retransmissionQueue, numOutstandingFrames)
      && (finSent ==> dataForWriting == [])
      && (completed ==> finSent && inFlight == [] && retransmissionQueue == [])
      && queuedReset.None? && resetInFlight.None?
    }

    ghost predicate ResetValid()
      reads this, flow
    {
      && !nextFrameReserved && retransmissionQueue == []
      && ResetOk(queuedReset, resetInFlight, numOutstandingFrames, flow.bytesSent)
    }

    ghost predicate WriterValid()
      reads this
    {
      match writing
      case None => !resetErr ==> dataForWriting == []
      case Some(w) =>
        && WriterOk(w.p, dataForWriting)
        && (!resetErr ==> AcceptedOk(w.p, dataForWriting, writtenBefore, written))
    }

    ghost predicate Valid()
      reads this, flow, flow.conn
    {
      && flow.Valid()
      && WriterValid()
      && (if resetErr then ResetValid() else OpenValid())
    }

    constructor (id: nat, flow: StreamCredit)
      requires flow.Valid() && flow.bytesSent == 0
      ensures Valid() && this.flow == flow && this.id == id && Abs() == Initial() && writing.None? && nextFrame.None?
      ensures !resetErr && !completed && !cancellationFlagged
    {
      this.id, this.flow := id, flow;
      writeOffset, dataForWriting, nextFrame, nextFrameReserved := 0, [], None, false;
      finishedWriting, finSent, completed := false, false, false;
      numOutstandingFrames, retransmissionQueue := 0, [];
      resetErr, queuedReset, cancellationFlagged, writing := false, None, false, None;
      written, writtenBefore, inFlight, acked, resetInFlight := [], [], [], [], None;
      new;
      InitialIsInvariant();
    }

    // -------------------------------------------------------------- completion

    /** Where the RESET_STREAM frame of a reset stream is, and whether the application is done with the stream. */
    ghost function Phase(): ResetPhase
      reads this
    {
      ResetPhase(queuedReset.Some?, resetInFlight.Some?, finSent || cancellationFlagged || finishedWriting)
    }

    /** Data is buffered that a reset stream does not send. */
    predicate Stuck()
      reads this
    {
      resetErr && !completed && Data(nextFrame) != []
    }

    /** Nothing is left to send or to be acknowledged. */
    predicate Drained()
      reads this
    {
      && Data(nextFrame) == [] && numOutstandingFrames <= 0 && retransmissionQueue == [] && queuedReset.None?
      && (finSent || (resetErr && (cancellationFlagged || finishedWriting)))
    }

    /** True once, when the stream is drained. */
    method IsNewlyCompleted() returns (r: bool)
      modifies this`completed
      ensures completed == (old(completed) || Drained()) && r == (completed && !old(completed))
    {
      if completed {
        return false;
      }
      if nextFrame.Some? && |nextFrame.value.data| > 0 {
        return false;
      }
      if numOutstandingFrames > 0 || |retransmissionQueue| > 0 || queuedReset.Some? {
        return false;
      }
      if finSent {
        completed := true;
        return true;
      }
      if resetErr && (cancellationFlagged || finishedWriting) {
        completed := true;
        return true;
      }
      return false;
    }

    // -------------------------------------------------------------- writing

    /** The checks at the beginning of a Write call; without a result the call goes on with WriteStep. */
    method BeginWrite(p: seq<byte>, limiter: bool, expired: bool) returns (r: Option<WriteResult>, newlyCompleted: bool)
      requires Valid() && writing.None?
      modifies this`dataForWriting, this`writing, this`writtenBefore, this`cancellationFlagged, this`completed
      ensures Valid() && Abs() == old(Abs())
      ensures r.None? <==> !resetErr && !finishedWriting && !expired && p != []
      ensures r.Some? ==> writing.None? && r.value.n == 0
      ensures r.None? ==>
                && writing == Some(WriteCall(p, limiter, false)) && dataForWriting == p != []
                && writtenBefore == written && !resetErr && !finishedWriting
      ensures completed == (old(completed) || newlyCompleted)
      ensures newlyCompleted <==> !old(completed) && resetErr && Drained()
    {
      hide Invariant, WriterOk, AcceptedOk, BufferOk, FramesOk, ResetOk, ChargedOnce;
      if resetErr {
        cancellationFlagged := true;
        newlyCompleted := IsNewlyCompleted();
        return Some(WasReset(0)), newlyCompleted;
      }
      if finishedWriting {
        return Some(WasClosed(0)), false;
      }
      if expired {
        return Some(DeadlineExceeded(0)), false;
      }
      if |p| == 0 {
        return Some(Written(0)), false;
      }
      InvariantMeans(Abs());
      NothingAccepted(p, written);
      dataForWriting := p;
      writing := Some(WriteCall(p, limiter, false));
      writtenBefore := written;
      return None, false;
    }

    predicate CanBuffer()
      reads this
    {
      !HasLimiter() && !nextFrameReserved && |Data(nextFrame)| + |dataForWriting| <= MAX_PACKET_BUFFER_SIZE
    }

    /** Copies the rest of the data into the next frame, so that Write can return. */
    method BufferData()
      requires Valid() && CanBuffer() && dataForWriting != [] && writing.Some?
      modifies this`nextFrame, this`dataForWriting, this`written
      ensures Valid() && dataForWriting == []
      ensures var step := Accept(old(dataForWriting));
              !resetErr ==> Enabled(old(Abs()), step) && Abs() == Apply(old(Abs()), step)
      ensures Data(nextFrame) == old(Data(nextFrame) + dataForWriting)
    {
      hide Invariant, WriterOk, AcceptedOk, BufferOk, FramesOk;
      ghost var p, d := writing.value.p, dataForWriting;
      if !resetErr {
        Accepting(p, d, |d|, writtenBefore, written);
        Buffering(written, writeOffset, nextFrame, false, d, false);
        StepKeepsInvariant(Abs(), Accept(d));
        assert d[..|d|] == d && d[|d|..] == [];
        BufferMeans(written, writeOffset, nextFrame, nextFrameReserved);
      }
      AllAccepted(p);
      assert [] + d == d;
      if nextFrame.None? {
        nextFrame := Some(StreamFrame(writeOffset, dataForWriting, false));
      } else {
        nextFrame := Some(nextFrame.value.(data := nextFrame.value.data + dataForWriting));
      }
      written := written + dataForWriting;
      dataForWriting := [];
    }

    /** One turn of Write's loop: without a result the call waits and tries again. */
    method WriteStep(expired: bool) returns (r: Option<WriteResult>, newlyCompleted: bool)
      requires Valid() && writing.Some?
      modifies this`nextFrame, this`dataForWriting, this`written, this`writing, this`cancellationFlagged, this`completed
      ensures Valid()
      ensures r.None? <==> old(!writing.value.limited && dataForWriting != [] && !CanBuffer()) && !expired && !resetErr
      ensures r.None? ==> writing == old(writing) && dataForWriting == old(dataForWriting)
      ensures r.Some? ==> writing.None? && r.value.n <= |old(writing).value.p|
      ensures r.Some? && !resetErr ==> written == writtenBefore + old(writing).value.p[..r.value.n]
      ensures r.Some? && r.value.Written? ==> r.value.n == |old(writing).value.p|
      ensures completed == (old(completed) || newlyCompleted)
      ensures newlyCompleted ==> !old(completed) && resetErr && Drained()
      ensures var step := Accept(old(dataForWriting));
              !resetErr ==> Abs() == old(Abs()) || (Enabled(old(Abs()), step) && Abs() == Apply(old(Abs()), step))
      ensures resetErr && old(dataForWriting) != [] ==>
                (r.value.Written? <==> old(CanBuffer() && !writing.value.limited))
      ensures old(cancellationFlagged) ==> cancellationFlagged
      ensures Data(nextFrame) ==
                old(Data(nextFrame)) + if old(CanBuffer() && !writing.value.limited) then old(dataForWriting) else []
    {
      hide Invariant, BufferOk, FramesOk, Apply, Enabled, AcceptedOk;
      AcceptedMeans(writing.value.p, dataForWriting, writtenBefore, written);
      if writing.value.limited {
        r, newlyCompleted := EndWrite(LimitReached(|writing.value.p| - |dataForWriting|), true);
      } else if CanBuffer() && |dataForWriting| > 0 {
        BufferData();
        AcceptedMeans(writing.value.p, dataForWriting, writtenBefore, written);
        r, newlyCompleted := EndWrite(Written(|writing.value.p|), false);
      } else if expired {
        r, newlyCompleted := EndWrite(DeadlineExceeded(|writing.value.p| - |dataForWriting|), true);
      } else if dataForWriting == [] || resetErr {
        r, newlyCompleted := EndWrite(Written(|writing.value.p| - |dataForWriting|), false);
      } else {
        r, newlyCompleted := None, false;
      }
    }

    /** The Write call in progress returns. */
    method EndWrite(why: WriteResult, drop: bool) returns (r: Option<WriteResult>, newlyCompleted: bool)
      requires Valid() && writing.Some? && (drop || resetErr || dataForWriting == [])
      requires why.Written? || why.LimitReached? || why.DeadlineExceeded?
      requires why.Written? && why.n != |writing.value.p| ==> resetErr
      modifies this`dataForWriting, this`writing, this`cancellationFlagged, this`completed
      ensures Valid() && writing.None? && Abs() == old(Abs())
      ensures completed == (old(completed) || newlyCompleted)
      ensures newlyCompleted ==> !old(completed) && resetErr && Drained()
      ensures r.Some? && r.value.n == why.n
      ensures r.value.Written? <==> why.n == |old(writing).value.p| && !why.DeadlineExceeded?
      ensures old(cancellationFlagged) ==> cancellationFlagged
    {
      hide Invariant, BufferOk, FramesOk, AcceptedOk, WriterOk, ResetOk, ChargedOnce;
      newlyCompleted := false;
      if drop {
        dataForWriting := [];
      }
      r := Some(why);
      if !why.DeadlineExceeded? {
        if why.n == |writing.value.p| {
          r := Some(Written(why.n));
        } else if resetErr {
          cancellationFlagged := true;
          newlyCompleted := IsNewlyCompleted();
          r := Some(WasReset(why.n));
        }
      }
      writing := None;
    }

    /** Queues all of the data or none of it, and takes the credit for it at once. */
    method TryWriteAll(p: seq<byte>) returns (r: TryResult, newlyCompleted: bool)
      requires Valid()
      modifies this`nextFrame, this`nextFrameReserved, this`written, this`cancellationFlagged, this`completed,
               flow`bytesSent, flow.conn`bytesSent
      ensures Valid()
      ensures flow.bytesSent - old(flow.bytesSent) == flow.conn.bytesSent - old(flow.conn.bytesSent)
      ensures completed == (old(completed) || newlyCompleted)
      ensures newlyCompleted ==> !old(completed) && writing.None? && resetErr && Drained()
      ensures writing.Some? ==> cancellationFlagged == old(cancellationFlagged)
      ensures !r.Queued? ==> Abs() == old(Abs()) && flow.bytesSent == old(flow.bytesSent)
      ensures r.Queued? ==> Enabled(old(Abs()), Accept(p)) && Abs() == Apply(old(Abs()), Accept(p))
      ensures r.Queued? && p != [] ==> nextFrameReserved
      ensures resetErr ==> nextFrame == old(nextFrame)
      ensures r.TryReset? <==> writing.None? && resetErr
      ensures r.TryClosed? <==> writing.None? && !resetErr && finishedWriting
      ensures r.WouldBlock? <==>
                || writing.Some?
                || (!resetErr && !finishedWriting && p != [] && old(Unreserved()) + |p| > old(flow.Available()))
    {
      hide Invariant, WriterOk, AcceptedOk, BufferOk, FramesOk, ResetOk;
      newlyCompleted := false;
      if writing.Some? {
        return WouldBlock, false;
      }
      if resetErr {
        cancellationFlagged := true;
        newlyCompleted := IsNewlyCompleted();
        return TryReset, newlyCompleted;
      }
      if finishedWriting {
        return TryClosed, false;
      }
      InvariantMeans(Abs());
      if |p| == 0 {
        assert written + p == written;
        return Queued, false;
      }
      var ok := Reserve(p);
      return if ok then Queued else WouldBlock, false;
    }

    /** Takes credit for the data and for what is buffered without credit, and buffers the data. */
    method Reserve(p: seq<byte>) returns (ok: bool)
      requires Valid() && writing.None? && !resetErr && !finSent && p != []
      modifies this`nextFrame, this`nextFrameReserved, this`written, flow`bytesSent, flow.conn`bytesSent
      ensures Valid() && ok == (old(Unreserved()) + |p| <= old(flow.Available()))
      ensures flow.bytesSent - old(flow.bytesSent) == flow.conn.bytesSent - old(flow.conn.bytesSent)
      ensures !ok ==> Abs() == old(Abs()) && flow.bytesSent == old(flow.bytesSent)
      ensures ok ==> Enabled(old(Abs()), Accept(p)) && Abs() == Apply(old(Abs()), Accept(p)) && nextFrameReserved
    {
      hide Invariant, WriterOk, AcceptedOk, BufferOk, FramesOk, ResetOk;
      BufferMeans(written, writeOffset, nextFrame, nextFrameReserved);
      Buffering(written, writeOffset, nextFrame, nextFrameReserved, p, true);
      StepKeepsInvariant(Abs(), Accept(p));
      ok := flow.TryAddBytesSent(|p| + Unreserved());
      if ok {
        nextFrame := Some(StreamFrame(writeOffset, Data(nextFrame) + p, false));
        written := written + p;
        nextFrameReserved := true;
      }
    }

    /** Buffered octets that have not taken credit yet. */
    function Unreserved(): nat
      reads this
    {
      if nextFrame.Some? && !nextFrameReserved then |nextFrame.value.data| else 0
    }

    // -------------------------------------------------------------- sending

    /** How much new data fits the packet and the credit. */
    function MaxNewData(maxBytes: nat, available: int): int
      reads this
    {
      var credit := if nextFrameReserved then |Data(nextFrame)| else available;
      var ready := if nextFrame.Some? then |Data(nextFrame)| else |dataForWriting|;
      Min(credit, Min(MaxDataLen(id, writeOffset, maxBytes), ready))
    }

    predicate HasLimiter()
      reads this
    {
      writing.Some? && writing.value.limiter
    }

    /** The limiter of the Write call has stopped it. */
    predicate IsLimited()
      reads this
    {
      writing.Some? && writing.value.limited
    }

    /** Nothing is buffered, and the FIN is out if there is one. */
    predicate NothingToSend()
      reads this
    {
      dataForWriting == [] && nextFrame.None? && (finishedWriting ==> finSent)
    }

    /**
     The next STREAM frame of new data. Meanwhile other streams may take connection credit.
     If the Write call has a limiter, `allowed` is its answer.
     */
    method PopNewFrame(maxBytes: nat, allowed: int, taken: nat)
      returns (f: Option<StreamFrame>, blocked: Option<nat>, hasMore: bool)
      requires Valid() && maxBytes <= MAX_PACKET_BUFFER_SIZE
      requires taken <= flow.conn.sendWindow - flow.conn.bytesSent
      modifies this`writeOffset, this`dataForWriting, this`nextFrame, this`nextFrameReserved, this`writing,
               this`finSent, this`numOutstandingFrames, this`written, this`inFlight,
               flow`bytesSent, flow`lastBlockedAt, flow.conn`bytesSent
      ensures Valid()
      ensures flow.bytesSent - old(flow.bytesSent) == flow.conn.bytesSent - old(flow.conn.bytesSent) - taken
      ensures f.None? ==> Abs() == old(Abs()) && flow.bytesSent == old(flow.bytesSent)
      ensures f.Some? ==> !resetErr && Sent(old(Abs()), old(nextFrame), f.value, Abs())
      ensures resetErr ==>
                nextFrame == old(nextFrame) && dataForWriting == old(dataForWriting) && writing == old(writing)
      ensures f.Some? && f.value.data != [] ==> Length(id, f.value) <= maxBytes
      ensures f.Some? ==> (f.value.fin <==> finishedWriting && dataForWriting == [] && nextFrame.None?)
      ensures f.Some? && old(nextFrame.None? && HasLimiter()) ==> |f.value.data| <= Max(allowed, 0)
      ensures taken == 0 && !old(nextFrame.None? && HasLimiter()) ==>
                if old(resetErr || IsLimited()) then f.None?
                else if old(dataForWriting == [] && nextFrame.None?) then f.Some? == (finishedWriting && !old(finSent))
                else (f.Some? <==> old(MaxNewData(maxBytes, flow.Available())) > 0)
                     && (f.Some? ==> |f.value.data| == old(MaxNewData(maxBytes, flow.Available())))
      ensures var newly := flow.bytesSent == flow.sendWindow != old(flow.lastBlockedAt);
              blocked == if f.Some? && f.value.data != [] && !nextFrameReserved && newly
                         then Some(flow.sendWindow) else None
      ensures blocked.Some? ==> !hasMore
      ensures !hasMore && blocked.None? && !resetErr ==> NothingToSend() || IsLimited()
    {
      hide Invariant, WriterOk, AcceptedOk, BufferOk, FramesOk, ResetOk, ChargedOnce, MaxDataLen, Length, Sent;
      var n := MaxNewData(maxBytes, flow.Available());
      flow.conn.bytesSent := flow.conn.bytesSent + taken;
      blocked := None;
      if resetErr || IsLimited() {
        return None, None, false;
      }
      if dataForWriting == [] && nextFrame.None? {
        if !finishedWriting || finSent {
          return None, None, false;
        }
        f := PopFin();
        return f, None, false;
      }
      if n <= 0 {
        return None, None, true;
      }
      MaxDataLenIsBounded(id, writeOffset, maxBytes);
      ghost var offset := writeOffset;
      f, hasMore := PopPending(n, allowed);
      if f.Some? {
        FrameFits(id, offset, maxBytes, f.value);
        if !nextFrameReserved {
          blocked := flow.IsNewlyBlocked();
          hasMore := hasMore && blocked.None?;
        }
      }
    }

    /** At most n octets of what is buffered, or else of the Write call's data. */
    method PopPending(n: nat, allowed: int) returns (f: Option<StreamFrame>, hasMore: bool)
      requires Valid() && !resetErr && !IsLimited() && 0 < n <= MAX_PACKET_BUFFER_SIZE
      requires n <= if nextFrame.Some? then |Data(nextFrame)| else |dataForWriting|
      modifies this`writeOffset, this`dataForWriting, this`nextFrame, this`nextFrameReserved, this`writing,
               this`finSent, this`numOutstandingFrames, this`written, this`inFlight,
               flow`bytesSent, flow.conn`bytesSent
      ensures Valid()
      ensures flow.bytesSent - old(flow.bytesSent) == flow.conn.bytesSent - old(flow.conn.bytesSent)
      ensures f.None? ==> Abs() == old(Abs()) && flow.bytesSent == old(flow.bytesSent)
      ensures f.Some? ==>
                && Sent(old(Abs()), old(nextFrame), f.value, Abs())
                && 0 < |f.value.data| <= n && f.value.offset == old(writeOffset)
      ensures f.Some? ==> (f.value.fin <==> finishedWriting && dataForWriting == [] && nextFrame.None?)
      ensures f.Some? && old(nextFrame.None? && HasLimiter()) ==> |f.value.data| <= Max(allowed, 0)
      ensures !old(nextFrame.None? && HasLimiter()) && (old(nextFrameReserved) || n <= old(flow.Available())) ==>
                f.Some? && |f.value.data| == n
      ensures !hasMore ==> NothingToSend() || IsLimited()
    {
      hide Invariant, WriterOk, AcceptedOk, BufferOk, FramesOk, ResetOk, ChargedOnce, Sent;
      BufferMeans(written, writeOffset, nextFrame, nextFrameReserved);
      if nextFrame.Some? {
        f, hasMore := PopBuffered(n);
      } else {
        f, hasMore := PopData(n, allowed);
      }
    }

    /** A frame of new data goes out. */
    method Emit(f: StreamFrame)
      modifies this`writeOffset, this`finSent, this`numOutstandingFrames, this`inFlight
      ensures writeOffset == old(writeOffset) + |f.data| && finSent == (old(finSent) || f.fin)
      ensures numOutstandingFrames == old(numOutstandingFrames) + 1 && inFlight == old(inFlight) + [f]
    {
      writeOffset := writeOffset + |f.data|;
      finSent := finSent || f.fin;
      numOutstandingFrames := numOutstandingFrames + 1;
      inFlight := inFlight + [f];
    }

    /** The FIN alone, when all data has been sent before. */
    method PopFin() returns (f: Option<StreamFrame>)
      requires Valid() && !resetErr && dataForWriting == [] && nextFrame.None? && finishedWriting && !finSent
      modifies this`writeOffset, this`finSent, this`numOutstandingFrames, this`inFlight
      ensures Valid() && f.Some? && finSent && Sent(old(Abs()), None, f.value, Abs())
      ensures f.value == StreamFrame(writeOffset, [], true)
    {
      hide Invariant, BufferOk, FramesOk, ResetOk, ChargedOnce, WriterOk, AcceptedOk, Sent;
      BufferMeans(written, writeOffset, nextFrame, nextFrameReserved);
      var frame := StreamFrame(writeOffset, [], true);
      assert written + [] == written;
      FrameSent(Abs(), None, frame);
      FramesGrow(inFlight, retransmissionQueue, numOutstandingFrames, frame);
      Emit(frame);
      f := Some(frame);
    }

    /** The first n octets of the next frame; credit for them is taken now unless they are reserved. */
    method PopBuffered(n: nat) returns (f: Option<StreamFrame>, hasMore: bool)
      requires Valid() && !resetErr && nextFrame.Some? && 0 < n <= |nextFrame.value.data| && n <= MAX_PACKET_BUFFER_SIZE
      modifies this`writeOffset, this`nextFrame, this`nextFrameReserved, this`finSent, this`numOutstandingFrames,
               this`inFlight,
               flow`bytesSent, flow.conn`bytesSent
      ensures Valid()
      ensures flow.bytesSent - old(flow.bytesSent) == flow.conn.bytesSent - old(flow.conn.bytesSent)
      ensures f.None? ==> Abs() == old(Abs()) && flow.bytesSent == old(flow.bytesSent) && hasMore
      ensures f.Some? ==>
                && Sent(old(Abs()), old(nextFrame), f.value, Abs())
                && |f.value.data| == n && f.value.offset == old(writeOffset)
      ensures f.Some? ==> (f.value.fin <==> finishedWriting && dataForWriting == [] && nextFrame.None?)
      ensures f.None? <==> !old(nextFrameReserved) && n > old(flow.Available())
      ensures !hasMore ==> NothingToSend()
    {
      hide Invariant, BufferOk, FramesOk, ResetOk, WriterOk, AcceptedOk, Sent;
      if !nextFrameReserved {
        var ok := flow.TryAddBytesSent(n);
        if !ok {
          return None, true;
        }
      }
      var frame;
      frame, hasMore := SendBuffered(n);
      f := Some(frame);
    }

    /** The first n octets of the next frame leave; if they are its last, perhaps with the FIN. */
    method SendBuffered(n: nat) returns (f: StreamFrame, hasMore: bool)
      requires DataValid() && nextFrame.Some? && 0 < n <= |nextFrame.value.data| && n <= MAX_PACKET_BUFFER_SIZE
      modifies this`writeOffset, this`nextFrame, this`nextFrameReserved, this`finSent, this`numOutstandingFrames,
               this`inFlight
      ensures DataValid() && Sent(old(Abs()), old(nextFrame), f, Abs()) && |f.data| == n && f.offset == old(writeOffset)
      ensures nextFrameReserved == (old(nextFrameReserved) && n < |old(nextFrame).value.data|)
      ensures |Data(nextFrame)| == |old(nextFrame).value.data| - n && writeOffset == old(writeOffset) + n
      ensures f.fin <==> finishedWriting && dataForWriting == [] && nextFrame.None?
      ensures !hasMore ==> NothingToSend()
    {
      hide Invariant, BufferOk, FramesOk, ResetOk, WriterOk, AcceptedOk, Sent;
      InvariantMeans(Abs());
      BufferMeans(written, writeOffset, nextFrame, nextFrameReserved);
      Unbuffering(written, writeOffset, nextFrame, nextFrameReserved, n);
      var next := nextFrame.value;
      var fin := finishedWriting && dataForWriting == [] && n == |next.data|;
      f := StreamFrame(writeOffset, next.data[..n], fin);
      assert written + [] == written;
      FrameSent(Abs(), nextFrame, f);
      FramesGrow(inFlight, retransmissionQueue, numOutstandingFrames, f);
      if n < |next.data| {
        nextFrame := Some(StreamFrame(writeOffset + n, next.data[n..], false));
      } else {
        nextFrame, nextFrameReserved := None, false;
      }
      hasMore := nextFrame.Some? || dataForWriting != [];
      Emit(f);
    }

    /** Credit for at most n octets, as far as the limiter of the Write call allows. */
    method TakeCredit(n: nat, allowed: int) returns (m: nat, limited: bool)
      requires flow.Valid() && writing.Some? && !writing.value.limited
      modifies this`writing, flow`bytesSent, flow.conn`bytesSent
      ensures flow.Valid() && m <= n && writing == Some(old(writing).value.(limited := limited))
      ensures flow.bytesSent == old(flow.bytesSent) + m && flow.conn.bytesSent == old(flow.conn.bytesSent) + m
      ensures limited ==> old(writing).value.limiter && m == Max(allowed, 0)
      ensures old(writing).value.limiter ==> m <= Max(allowed, 0)
      ensures !old(writing).value.limiter ==> m == if n <= old(flow.Available()) then n else 0
    {
      if writing.value.limiter {
        m, limited := flow.AddBytesSentWithLimiter(n, allowed);
        writing := Some(writing.value.(limited := limited));
      } else {
        var ok := flow.TryAddBytesSent(n);
        m, limited := if ok then n else 0, false;
      }
    }

    /** At most n octets straight from the data of the Write call, as far as its limiter allows. */
    method PopData(n: nat, allowed: int) returns (f: Option<StreamFrame>, hasMore: bool)
      requires Valid() && !resetErr && nextFrame.None? && 0 < n <= |dataForWriting| && n <= MAX_PACKET_BUFFER_SIZE
      requires writing.Some? && !writing.value.limited
      modifies this`writeOffset, this`dataForWriting, this`writing, this`finSent, this`numOutstandingFrames,
               this`inFlight, this`written,
               flow`bytesSent, flow.conn`bytesSent
      ensures Valid()
      ensures flow.bytesSent - old(flow.bytesSent) == flow.conn.bytesSent - old(flow.conn.bytesSent)
      ensures f.None? ==> Abs() == old(Abs()) && flow.bytesSent == old(flow.bytesSent)
      ensures f.Some? ==>
                Sent(old(Abs()), None, f.value, Abs()) && |f.value.data| <= n && f.value.offset == old(writeOffset)
      ensures f.Some? ==> f.value.data != [] && (f.value.fin <==> finishedWriting && dataForWriting == [])
      ensures f.Some? && old(writing).value.limiter ==> |f.value.data| <= Max(allowed, 0)
      ensures !old(writing).value.limiter && n <= old(flow.Available()) ==> f.Some? && |f.value.data| == n
      ensures !hasMore ==> NothingToSend() || IsLimited()
    {
      hide Invariant, BufferOk, FramesOk, ResetOk, WriterOk, AcceptedOk, Sent;
      var m, limited := TakeCredit(n, allowed);
      if m == 0 {
        return None, !limited;
      }
      var frame := SendData(m);
      hasMore := (dataForWriting != [] || finishedWriting) && !limited;
      f := Some(frame);
    }

    /** The first n octets of the Write call's data leave; if they are its last, perhaps with the FIN. */
    method SendData(n: nat) returns (f: StreamFrame)
      requires DataValid() && WriterValid() && !resetErr
      requires nextFrame.None? && 0 < n <= |dataForWriting| && n <= MAX_PACKET_BUFFER_SIZE
      modifies this`writeOffset, this`dataForWriting, this`finSent, this`numOutstandingFrames, this`inFlight,
               this`written
      ensures DataValid() && WriterValid() && Sent(old(Abs()), None, f, Abs()) && |f.data| == n
      ensures f.offset == old(writeOffset)
      ensures writeOffset == old(writeOffset) + n && dataForWriting == old(dataForWriting)[n..]
      ensures f.data == old(dataForWriting)[..n]
      ensures f.fin <==> finishedWriting && dataForWriting == []
    {
      hide Invariant, BufferOk, FramesOk, ResetOk, WriterOk, AcceptedOk, Sent;
      BufferMeans(written, writeOffset, nextFrame, nextFrameReserved);
      SendingData(written, writeOffset, dataForWriting[..n]);
      Accepting(writing.value.p, dataForWriting, n, writtenBefore, written);
      var fin := finishedWriting && n == |dataForWriting|;
      f := StreamFrame(writeOffset, dataForWriting[..n], fin);
      FrameSent(Abs(), None, f);
      FramesGrow(inFlight, retransmissionQueue, numOutstandingFrames, f);
      written := written + dataForWriting[..n];
      dataForWriting := dataForWriting[n..];
      Emit(f);
    }

    /** The first lost frame again, split if it does not fit. It takes no credit. */
    method PopRetransmission(maxBytes: nat) returns (f: Option<StreamFrame>, hasMore: bool)
      requires Valid()
      modifies this`retransmissionQueue, this`numOutstandingFrames, this`inFlight
      ensures Valid() && hasMore == (retransmissionQueue != [])
      ensures f.None? ==> Abs() == old(Abs())
      ensures f.None? && !resetErr ==> retransmissionQueue == [] || Length(id, retransmissionQueue[0]) > maxBytes
      ensures f.Some? ==>
                && Length(id, f.value) <= maxBytes && old(retransmissionQueue) != []
                && (Length(id, old(retransmissionQueue)[0]) <= maxBytes ==> f.value == old(retransmissionQueue)[0])
                && Enabled(old(Abs()), Resend(|f.value.data|)) && Abs() == Apply(old(Abs()), Resend(|f.value.data|))
                && inFlight == old(inFlight) + [f.value]
    {
      hide Invariant, BufferOk, FramesOk, ResetOk, WriterOk, AcceptedOk, ChargedOnce, Length, MaybeSplitOff;
      if retransmissionQueue == [] {
        return None, false;
      }
      ghost var s := Abs();
      FramesMean(inFlight, retransmissionQueue, numOutstandingFrames);
      var first := retransmissionQueue[0];
      var split := MaybeSplitOff(id, first, maxBytes);
      SplitIsExact(id, first, maxBytes);
      var frame;
      match split {
        case TooSmall =>
          return None, true;
        case Parts(a, b) =>
          frame := a;
          retransmissionQueue := [b] + retransmissionQueue[1..];
        case Whole =>
          frame := first;
          retransmissionQueue := retransmissionQueue[1..];
      }
      FrameResent(s, frame, retransmissionQueue);
      FramesMove(s.inFlight, s.lost, numOutstandingFrames, frame, retransmissionQueue);
      numOutstandingFrames := numOutstandingFrames + 1;
      inFlight := inFlight + [frame];
      return Some(frame), retransmissionQueue != [];
    }

    // -------------------------------------------------------------- acknowledgement and loss

    /**
     A frame in flight was acknowledged. A stream that completes has had every octet and its FIN acknowledged, once
     each.
     */
    method OnAcked(f: StreamFrame, ghost i: nat) returns (newlyCompleted: bool)
      requires Valid() && (!resetErr ==> i < |inFlight| && inFlight[i] == f)
      modifies this`numOutstandingFrames, this`completed, this`inFlight, this`acked
      ensures Valid()
      ensures completed == (old(completed) || newlyCompleted)
      ensures newlyCompleted <==> !old(completed) && !resetErr && finSent && inFlight == [] && retransmissionQueue == []
      ensures !resetErr ==> Enabled(old(Abs()), Ack(i)) && Abs() == Apply(old(Abs()), Ack(i))
      ensures newlyCompleted ==> finSent && Partition(acked, |written|) && Fins(acked) == 1
    {
      hide Invariant, BufferOk, FramesOk, ResetOk, WriterOk, AcceptedOk, Partition, Fins, Apply, Enabled, Without;
      newlyCompleted := false;
      if resetErr {
        return;
      }
      FrameAcked(Abs(), i);
      FramesLeave(inFlight, retransmissionQueue, numOutstandingFrames, i);
      numOutstandingFrames := numOutstandingFrames - 1;
      inFlight, acked := Without(inFlight, i), acked + [inFlight[i]];
      FramesMean(inFlight, retransmissionQueue, numOutstandingFrames);
      InvariantMeans(Abs());
      BufferMeans(written, writeOffset, nextFrame, nextFrameReserved);
      newlyCompleted := IsNewlyCompleted();
      if newlyCompleted {
        DrainedMeansAcknowledged(Abs());
      }
    }

    /** A frame in flight was lost: it is queued behind the frames lost before. */
    method OnLost(f: StreamFrame, ghost i: nat) returns (wasEmpty: bool)
      requires Valid() && (!resetErr ==> i < |inFlight| && inFlight[i] == f)
      modifies this`numOutstandingFrames, this`inFlight, this`retransmissionQueue
      ensures Valid()
      ensures !resetErr ==>
                && Enabled(old(Abs()), Lose(i)) && Abs() == Apply(old(Abs()), Lose(i))
                && wasEmpty == (old(retransmissionQueue) == []) && retransmissionQueue == old(retransmissionQueue) + [f]
    {
      hide Invariant, BufferOk, FramesOk, ResetOk, WriterOk, AcceptedOk;
      wasEmpty := false;
      if resetErr {
        return;
      }
      StepKeepsInvariant(Abs(), Lose(i));
      FramesLeave(inFlight, retransmissionQueue, numOutstandingFrames, i);
      numOutstandingFrames := numOutstandingFrames - 1;
      wasEmpty := retransmissionQueue == [];
      retransmissionQueue := retransmissionQueue + [f];
      inFlight := Without(inFlight, i);
    }

    // -------------------------------------------------------------- closing and resetting

    method Close() returns (newlyCompleted: bool)
      requires Valid()
      modifies this`finishedWriting, this`cancellationFlagged, this`completed
      ensures Valid() && Abs() == Apply(old(Abs()), Step.Close)
      ensures completed == (old(completed) || newlyCompleted)
      ensures newlyCompleted <==> !old(completed) && !old(finishedWriting) && resetErr && Drained()
    {
      hide Invariant, BufferOk, FramesOk, ResetOk, WriterOk, AcceptedOk;
      if finishedWriting {
        return false;
      }
      if !resetErr {
        InvariantMeans(Abs());
        StepKeepsInvariant(Abs(), Step.Close);
      }
      finishedWriting := true;
      if resetErr {
        cancellationFlagged := true;
      }
      newlyCompleted := IsNewlyCompleted();
    }

    /** Drops what is queued. The final size covers what was sent and what was reserved: all the credit taken. */
    method Reset()
      requires Valid() && !resetErr
      modifies this`resetErr, this`nextFrame, this`nextFrameReserved, this`retransmissionQueue,
               this`numOutstandingFrames, this`queuedReset
      ensures Valid() && resetErr && queuedReset == Some(flow.bytesSent) && nextFrame.None? && !nextFrameReserved
      ensures resetInFlight.None?
    {
      hide Invariant, BufferOk, FramesOk, WriterOk, AcceptedOk;
      BufferMeans(written, writeOffset, nextFrame, nextFrameReserved);
      var finalSize := writeOffset;
      if nextFrameReserved && nextFrame.Some? {
        finalSize := Max(finalSize, nextFrame.value.End());
      }
      numOutstandingFrames := 0;
      retransmissionQueue, nextFrame, nextFrameReserved := [], None, false;
      resetErr := true;
      queuedReset := Some(finalSize);
    }

    method CancelWrite() returns (newlyCompleted: bool)
      requires Valid()
      modifies this`resetErr, this`nextFrame, this`nextFrameReserved, this`retransmissionQueue,
               this`numOutstandingFrames, this`queuedReset,
               this`cancellationFlagged, this`completed
      ensures Valid() && resetErr && cancellationFlagged
      ensures completed == (old(completed) || newlyCompleted)
      ensures newlyCompleted <==> !old(completed) && old(resetErr) && Drained()
      ensures if old(resetErr) then queuedReset == old(queuedReset) && nextFrame == old(nextFrame)
              else queuedReset == Some(flow.bytesSent) && nextFrame.None? && !nextFrameReserved && resetInFlight.None?
    {
      hide Invariant, BufferOk, FramesOk, ResetOk, WriterOk, AcceptedOk;
      cancellationFlagged := true;
      if resetErr {
        newlyCompleted := IsNewlyCompleted();
        return;
      }
      Reset();
      newlyCompleted := false;
    }

    method HandleStopSending()
      requires Valid()
      modifies this`resetErr, this`nextFrame, this`nextFrameReserved, this`retransmissionQueue,
               this`numOutstandingFrames, this`queuedReset
      ensures Valid() && resetErr
      ensures if old(resetErr) then queuedReset == old(queuedReset) && nextFrame == old(nextFrame)
              else queuedReset == Some(flow.bytesSent) && nextFrame.None? && !nextFrameReserved && resetInFlight.None?
    {
      if !resetErr {
        Reset();
      }
    }

    /** The RESET_STREAM frame, if one is queued: its final size is the credit the stream has taken. */
    method PopReset() returns (finalSize: Option<nat>)
      requires Valid()
      modifies this`numOutstandingFrames, this`queuedReset, this`resetInFlight
      ensures Valid() && finalSize == old(queuedReset) && queuedReset.None?
      ensures finalSize.Some? ==> resetErr && finalSize.value == flow.bytesSent && resetInFlight == finalSize
      ensures finalSize.None? ==> resetInFlight == old(resetInFlight)
    {
      hide Invariant, BufferOk, FramesOk, WriterOk, AcceptedOk;
      finalSize := queuedReset;
      if finalSize.None? {
        return;
      }
      numOutstandingFrames := numOutstandingFrames + 1;
      queuedReset, resetInFlight := None, finalSize;
    }

    /** Completes a reset stream, exactly if no data is buffered any more and the application knows of the reset. */
    method OnResetAcked(finalSize: nat) returns (newlyCompleted: bool)
      requires Valid() && resetErr && resetInFlight == Some(finalSize)
      modifies this`numOutstandingFrames, this`completed, this`resetInFlight
      ensures Valid() && resetInFlight.None?
      ensures newlyCompleted <==>
                !old(completed) && Data(nextFrame) == [] && (finSent || cancellationFlagged || finishedWriting)
      ensures completed == (old(completed) || newlyCompleted)
    {
      hide Invariant, BufferOk, FramesOk, WriterOk, AcceptedOk;
      numOutstandingFrames := numOutstandingFrames - 1;
      resetInFlight := None;
      newlyCompleted := IsNewlyCompleted();
    }

    method OnResetLost(finalSize: nat)
      requires Valid() && resetErr && resetInFlight == Some(finalSize)
      modifies this`numOutstandingFrames, this`queuedReset, this`resetInFlight
      ensures Valid() && resetInFlight.None? && queuedReset == Some(finalSize)
    {
      hide Invariant, BufferOk, FramesOk, WriterOk, AcceptedOk;
      queuedReset := Some(finalSize);
      numOutstandingFrames := numOutstandingFrames - 1;
      resetInFlight := None;
    }

    method UpdateSendWindow(limit: nat) returns (hasData: bool)
      requires Valid()
      modifies flow`sendWindow
      ensures Valid() && flow.sendWindow == Max(old(flow.sendWindow), limit)
      ensures hasData == (flow.sendWindow != old(flow.sendWindow) && (dataForWriting != [] || nextFrame.Some?))
    {
      hide Invariant, BufferOk, FramesOk, ResetOk, WriterOk, AcceptedOk, ChargedOnce;
      var updated := flow.UpdateSendWindow(limit);
      hasData := updated && (dataForWriting != [] || nextFrame.Some?);
    }
  }

  /** A Write call that waits behind data that TryWriteAll has reserved. */
  method WaitingWrite() returns (s: SendStream, r: Option<WriteResult>)
    ensures s.Valid() && s.writing == Some(WriteCall([8], false, false)) && s.dataForWriting == [8]
    ensures r.None? && !s.resetErr && !s.completed
  {
    hide SendStream.OpenValid, SendStream.ResetValid, SendStream.WriterValid, Apply, Enabled, Invariant;
    var conn := new ConnectionCredit();
    var _ := conn.UpdateSendWindow(100);
    var flow := new StreamCredit(conn, 100);
    s := new SendStream(0, flow);
    var _, _ := s.TryWriteAll([7]);
    var _, _ := s.BeginWrite([8], false, false);
    var c;
    r, c := s.WriteStep(false);
  }

  // ---------------------------------------------------------------- after a reset

  /** The calls that the application, the packer and the acknowledgement handler make on a stream. */
  datatype Call =
    | BeginWrite(p: seq<byte>, limiter: bool, expired: bool)
    | WriteStep(expired: bool)
    | TryWriteAll(p: seq<byte>)
    | PopNewFrame(maxBytes: nat, allowed: int, taken: nat)
    | PopRetransmission(maxBytes: nat)
    | OnAcked(f: StreamFrame)
    | OnLost(f: StreamFrame)
    | Close
    | CancelWrite
    | HandleStopSending
    | PopReset
    | OnResetAcked
    | OnResetLost
    | UpdateSendWindow(limit: nat)

  /** While a Write call waits, only these calls move the reset along. */
  function NextPhase(ph: ResetPhase, c: Call): ResetPhase {
    match c
    case PopReset => if ph.queued then ph.(queued := false, inFlight := true) else ph
    case OnResetAcked => ph.(inFlight := false)
    case OnResetLost => if ph.inFlight then ph.(queued := true, inFlight := false) else ph
    case Close => ph.(flagged := true)
    case CancelWrite => ph.(flagged := true)
    case _ => ph
  }

  function PhaseAfter(ph: ResetPhase, calls: seq<Call>): ResetPhase {
    if calls == [] then ph else NextPhase(PhaseAfter(ph, calls[..|calls| - 1]), calls[|calls| - 1])
  }

  /**
   One call on a reset stream; a call that cannot be made now (a second Write, the acknowledgement of nothing) is
   skipped.
   */
  method Perform(s: SendStream, c: Call) returns (turn: Option<WriteResult>, newlyCompleted: bool)
    requires s.Valid() && s.resetErr
    modifies s, s.flow, s.flow.conn
    ensures s.Valid() && s.resetErr && s.completed == (old(s.completed) || newlyCompleted)
    ensures old(Data(s.nextFrame)) <= Data(s.nextFrame) && (newlyCompleted ==> Data(s.nextFrame) == [])
    ensures old(s.writing.None?) ==> s.writing.None? && s.nextFrame == old(s.nextFrame)
    ensures c.WriteStep? && old(s.writing.Some? && s.dataForWriting != [] && !s.writing.value.limited) ==>
              && turn.Some? && s.writing.None? && (turn.value.Written? <==> old(s.CanBuffer()))
              && Data(s.nextFrame) == old(Data(s.nextFrame)) + if old(s.CanBuffer()) then old(s.dataForWriting) else []
    ensures !c.WriteStep? && old(s.writing.Some?) ==>
              && s.writing == old(s.writing) && s.dataForWriting == old(s.dataForWriting)
              && s.nextFrame == old(s.nextFrame)
              && s.Phase() == NextPhase(old(s.Phase()), c)
              && (s.nextFrame.None? && old(s.completed <==> s.Phase().Over()) ==> (s.completed <==> s.Phase().Over()))
  {
    hide Apply, Enabled, Invariant, Sent, Length, Partition, Fins, SendStream.OpenValid, SendStream.ResetValid;
    hide SendStream.WriterValid;
    turn, newlyCompleted := None, false;
    if c.BeginWrite? {
      if s.writing.None? {
        turn, newlyCompleted := s.BeginWrite(c.p, c.limiter, c.expired);
      }
    } else if c.WriteStep? {
      if s.writing.Some? {
        turn, newlyCompleted := s.WriteStep(c.expired);
      }
    } else if c.TryWriteAll? {
      var _, completes := s.TryWriteAll(c.p);
      newlyCompleted := completes;
    } else if IsFrameCall(c) {
      PerformFrames(s, c);
    } else {
      newlyCompleted := PerformControl(s, c);
    }
  }

  predicate IsFrameCall(c: Call) { c.PopNewFrame? || c.PopRetransmission? || c.OnAcked? || c.OnLost? }

  /** STREAM frames of a reset stream are neither sent nor tracked. */
  method PerformFrames(s: SendStream, c: Call)
    requires s.Valid() && s.resetErr && IsFrameCall(c)
    modifies s, s.flow, s.flow.conn
    ensures s.Valid() && s.resetErr && s.completed == old(s.completed) && s.Phase() == old(s.Phase())
    ensures s.writing == old(s.writing) && s.dataForWriting == old(s.dataForWriting) && s.nextFrame == old(s.nextFrame)
  {
    hide Apply, Enabled, Invariant, Sent, Length, Partition, Fins, SendStream.OpenValid, SendStream.ResetValid;
    hide SendStream.WriterValid;
    match c {
      case PopNewFrame(maxBytes, allowed, taken) =>
        if maxBytes <= MAX_PACKET_BUFFER_SIZE && taken <= s.flow.conn.sendWindow - s.flow.conn.bytesSent {
          var _, _, _ := s.PopNewFrame(maxBytes, allowed, taken);
        }
      case PopRetransmission(maxBytes) =>
        var _, _ := s.PopRetransmission(maxBytes);
      case OnAcked(f) =>
        var _ := s.OnAcked(f, 0);
      case OnLost(f) =>
        var _ := s.OnLost(f, 0);
    }
  }

  method PerformControl(s: SendStream, c: Call) returns (newlyCompleted: bool)
    requires s.Valid() && s.resetErr
    requires || c.Close? || c.CancelWrite? || c.HandleStopSending? || c.UpdateSendWindow?
             || c.PopReset? || c.OnResetAcked? || c.OnResetLost?
    modifies s, s.flow
    ensures s.Valid() && s.resetErr && s.completed == (old(s.completed) || newlyCompleted)
    ensures s.nextFrame == old(s.nextFrame) && (newlyCompleted ==> Data(s.nextFrame) == [])
    ensures s.writing == old(s.writing) && s.dataForWriting == old(s.dataForWriting)
    ensures s.Phase() == NextPhase(old(s.Phase()), c)
    ensures s.nextFrame.None? && old(s.completed <==> s.Phase().Over()) ==> (s.completed <==> s.Phase().Over())
  {
    hide SendStream.OpenValid, SendStream.WriterValid, ResetOk;
    newlyCompleted := false;
    ResetMeans(s);
    match c {
      case Close =>
        newlyCompleted := PerformClose(s);
      case CancelWrite =>
        newlyCompleted := s.CancelWrite();
        ResetMeans(s);
      case HandleStopSending => s.HandleStopSending();
      case PopReset => var _ := s.PopReset();
      case OnResetAcked =>
        if s.numOutstandingFrames == 1 {
          newlyCompleted := s.OnResetAcked(s.flow.bytesSent);
          ResetMeans(s);
        }
      case OnResetLost =>
        if s.numOutstandingFrames == 1 {
          s.OnResetLost(s.flow.bytesSent);
        }
      case UpdateSendWindow(limit) => var _ := s.UpdateSendWindow(limit);
    }
  }

  method PerformClose(s: SendStream) returns (newlyCompleted: bool)
    requires s.Valid() && s.resetErr
    modifies s`finishedWriting, s`cancellationFlagged, s`completed
    ensures s.Valid() && s.completed == (old(s.completed) || newlyCompleted)
    ensures newlyCompleted ==> Data(s.nextFrame) == []
    ensures s.Phase() == old(s.Phase()).(flagged := true)
    ensures s.nextFrame.None? && old(s.completed <==> s.Phase().Over()) ==> (s.completed <==> s.Phase().Over())
  {
    hide SendStream.OpenValid, SendStream.WriterValid, ResetOk, Invariant;
    ResetMeans(s);
    newlyCompleted := s.Close();
    ResetMeans(s);
  }

  /** After a reset, only the RESET_STREAM frame can be outstanding. */
  lemma ResetMeans(s: SendStream)
    requires s.Valid() && s.resetErr
    ensures s.retransmissionQueue == [] && !s.nextFrameReserved && !(s.queuedReset.Some? && s.resetInFlight.Some?)
    ensures s.numOutstandingFrames == if s.resetInFlight.Some? then 1 else 0
    ensures s.resetInFlight.Some? ==> s.resetInFlight.value == s.flow.bytesSent
  {
  }

  /** A stream that is stuck never completes: no sequence of calls changes that. */
  method PerformAll(s: SendStream, calls: seq<Call>) returns (newlyCompleted: bool)
    requires s.Valid() && s.resetErr
    modifies s, s.flow, s.flow.conn
    ensures s.Valid() && s.resetErr && s.completed == (old(s.completed) || newlyCompleted)
    ensures old(s.Stuck()) ==> s.Stuck() && !newlyCompleted
    ensures old(s.writing.None?) ==> s.writing.None? && s.nextFrame == old(s.nextFrame)
    ensures old(s.writing.Some?) && (forall i :: 0 <= i < |calls| ==> !calls[i].WriteStep?) ==>
              && s.writing == old(s.writing) && s.dataForWriting == old(s.dataForWriting)
              && s.nextFrame == old(s.nextFrame)
              && s.Phase() == PhaseAfter(old(s.Phase()), calls)
              && (s.nextFrame.None? && old(s.completed <==> s.Phase().Over()) ==> (s.completed <==> s.Phase().Over()))
  {
    hide SendStream.Valid, NextPhase;
    newlyCompleted := false;
    for i := 0 to |calls|
      invariant s.Valid() && s.resetErr && s.completed == (old(s.completed) || newlyCompleted)
      invariant old(s.Stuck()) ==> s.Stuck() && !newlyCompleted
      invariant old(s.writing.None?) ==> s.writing.None? && s.nextFrame == old(s.nextFrame)
      invariant old(s.writing.Some?) && (forall j :: 0 <= j < i ==> !calls[j].WriteStep?) ==>
                  && s.writing == old(s.writing) && s.dataForWriting == old(s.dataForWriting)
                  && s.nextFrame == old(s.nextFrame)
                  && s.Phase() == PhaseAfter(old(s.Phase()), calls[..i])
                  && (s.nextFrame.None? && old(s.completed <==> s.Phase().Over()) ==>
                        (s.completed <==> s.Phase().Over()))
    {
      assert calls[..i + 1][..i] == calls[..i];
      var _, completes := Perform(s, calls[i]);
      newlyCompleted := newlyCompleted || completes;
    }
    assert calls[..|calls|] == calls;
  }

  /**
   A Write call waits with data left, and the stream is reset, by CancelWrite or by STOP_SENDING. When the call takes
   its turn, after any other calls, it reports success although its data is never sent, exactly if it has no limiter
   and at most a packet buffer left. Then the stream is stuck for ever, whatever is called later, exactly if it had not
   completed before that turn: if the RESET_STREAM frame was not acknowledged yet, or no call had told the
   application of the end of the stream.
   */
  method ResetDuringWrite(s: SendStream, remote: bool, before: seq<Call>, expired: bool, after: seq<Call>)
    returns (r: Option<WriteResult>, newlyCompleted: bool)
    requires s.Valid() && !s.resetErr && !s.completed && s.writing.Some? && !s.writing.value.limited
    requires s.dataForWriting != []
    requires forall i :: 0 <= i < |before| ==> !before[i].WriteStep?
    modifies s, s.flow, s.flow.conn
    ensures s.Valid() && s.resetErr
    ensures var dropped := !old(s.writing).value.limiter && |old(s.dataForWriting)| <= MAX_PACKET_BUFFER_SIZE;
            var reset := ResetPhase(true, false, old(s.Phase()).flagged || !remote);
            && r.Some? && (r.value.Written? <==> dropped)
            && (s.Stuck() <==> dropped && !PhaseAfter(reset, before).Over())
            && (s.Stuck() ==> !newlyCompleted)
  {
    hide SendStream.OpenValid, SendStream.ResetValid, SendStream.WriterValid, Apply, Enabled, Invariant, NextPhase;
    hide PhaseAfter;
    if remote {
      s.HandleStopSending();
    } else {
      var _ := s.CancelWrite();
    }
    ghost var reset := ResetPhase(true, false, old(s.Phase()).flagged || !remote);
    assert s.Phase() == reset;
    var c0 := PerformAll(s, before);
    assert s.completed <==> PhaseAfter(reset, before).Over();
    ResetMeans(s);
    var c1;
    r, c1 := Perform(s, WriteStep(expired));
    var c2 := PerformAll(s, after);
    newlyCompleted := c0 || c1 || c2;
  }

  /**
   A reset stream that is not stuck completes, once its RESET_STREAM frame is sent and acknowledged and it is
   cancelled.
   */
  method FinishReset(s: SendStream)
    requires s.Valid() && s.resetErr
    modifies s
    ensures s.Valid() && s.resetErr && (s.completed <==> !old(s.Stuck()))
  {
    hide SendStream.OpenValid, SendStream.WriterValid, Apply, Enabled, Invariant;
    var _ := s.PopReset();
    if s.numOutstandingFrames == 1 {
      var _ := s.OnResetAcked(s.flow.bytesSent);
    }
    var _ := s.CancelWrite();
  }

  lemma FramesMean(inFlight: seq<StreamFrame>, queue: seq<StreamFrame>, outstanding: int)
    requires FramesOk(inFlight, queue, outstanding)
    ensures outstanding == |inFlight| && (queue != [] ==> |queue[0].data| <= MAX_PACKET_BUFFER_SIZE)
  {
  }

  lemma FrameAcked(s: Sending, i: nat)
    requires Invariant(s) && i < |s.inFlight|
    ensures Enabled(s, Ack(i))
    ensures Apply(s, Ack(i)) == s.(inFlight := Without(s.inFlight, i), acked := s.acked + [s.inFlight[i]])
    ensures Invariant(s.(inFlight := Without(s.inFlight, i), acked := s.acked + [s.inFlight[i]]))
  {
    hide Invariant;
    StepKeepsInvariant(s, Ack(i));
  }

  lemma FramesLeave(inFlight: seq<StreamFrame>, queue: seq<StreamFrame>, outstanding: int, i: nat)
    requires FramesOk(inFlight, queue, outstanding) && i < |inFlight|
    ensures FramesOk(Without(inFlight, i), queue, outstanding - 1)
    ensures FramesOk(Without(inFlight, i), queue + [inFlight[i]], outstanding - 1)
  {
  }

  /** Sending part of the first lost frame, or all of it, retransmits it. */
  lemma FrameResent(s: Sending, f: StreamFrame, queue: seq<StreamFrame>)
    requires Invariant(s) && s.lost != []
    requires f == FirstPart(s.lost[0], |f.data|) && queue == SecondPart(s.lost[0], |f.data|) + s.lost[1..]
    requires f.data != [] || s.lost[0].data == []
    ensures Enabled(s, Resend(|f.data|))
    ensures Apply(s, Resend(|f.data|)) == s.(lost := queue, inFlight := s.inFlight + [f])
    ensures Invariant(s.(lost := queue, inFlight := s.inFlight + [f]))
  {
    hide Invariant;
    StepKeepsInvariant(s, Resend(|f.data|));
  }

  lemma FramesMove(inFlight: seq<StreamFrame>, queue: seq<StreamFrame>, outstanding: int, f: StreamFrame,
                   queue': seq<StreamFrame>)
    requires FramesOk(inFlight, queue, outstanding) && queue != []
    requires f == FirstPart(queue[0], |f.data|) && queue' == SecondPart(queue[0], |f.data|) + queue[1..]
    ensures FramesOk(inFlight + [f], queue', outstanding + 1)
  {
    var rest := SecondPart(queue[0], |f.data|);
    forall i | 0 <= i < |queue'| ensures |queue'[i].data| <= MAX_PACKET_BUFFER_SIZE {
      if i >= |rest| {
        assert queue'[i] == queue[1 + i - |rest|];
      }
    }
  }

  lemma FramesGrow(inFlight: seq<StreamFrame>, queue: seq<StreamFrame>, outstanding: int, f: StreamFrame)
    requires FramesOk(inFlight, queue, outstanding) && |f.data| <= MAX_PACKET_BUFFER_SIZE
    ensures FramesOk(inFlight + [f], queue, outstanding + 1)
  {
  }

  lemma SendingData(written: seq<byte>, writeOffset: nat, d: seq<byte>)
    requires |written| == writeOffset
    ensures BufferOk(written + d, writeOffset + |d|, None, false)
    ensures (written + d)[writeOffset..writeOffset + |d|] == d
  {
  }

  /** The state after f has left. */
  function AfterSending(s: Sending, nextFrame: Option<StreamFrame>, f: StreamFrame): Sending {
    s.(written := s.written + (if nextFrame.Some? then [] else f.data), sent := s.sent + |f.data|,
       finSent := s.finSent || f.fin, inFlight := s.inFlight + [f])
  }

  /** The next octets may be sent, and the FIN behind the last of them. */
  lemma FrameSent(s: Sending, nextFrame: Option<StreamFrame>, f: StreamFrame)
    requires Invariant(s) && !s.finSent && f.offset == s.sent && (f.data != [] || f.fin)
    requires var w := s.written + if nextFrame.Some? then [] else f.data;
             && f.End() <= |w| && f.data == w[f.offset..f.End()]
             && (f.fin ==> s.closed && f.End() == |w|)
    ensures Sent(s, nextFrame, f, AfterSending(s, nextFrame, f))
    ensures Invariant(AfterSending(s, nextFrame, f))
  {
    hide Invariant;
    var d := if nextFrame.Some? then [] else f.data;
    StepKeepsInvariant(s, Accept(d));
    StepKeepsInvariant(Apply(s, Accept(d)), Emit(|f.data|, f.fin));
  }

  lemma MaxDataLenIsBounded(id: nat, offset: nat, maxBytes: nat)
    ensures MaxDataLen(id, offset, maxBytes) <= maxBytes
  {
  }

  lemma FrameFits(id: nat, offset: nat, maxBytes: nat, f: StreamFrame)
    requires f.offset == offset && |f.data| <= MaxDataLen(id, offset, maxBytes) && maxBytes <= MAX_PACKET_BUFFER_SIZE
    ensures f.data != [] ==> Length(id, f) <= maxBytes
  {
    if f.data != [] {
      MaxDataLenFits(id, offset, maxBytes, f);
    }
  }

  /** f left the stream: octets that were not buffered are accepted as they are sent. */
  ghost predicate Sent(s: Sending, nextFrame: Option<StreamFrame>, f: StreamFrame, s': Sending) {
    var d := if nextFrame.Some? then [] else f.data;
    && Enabled(s, Accept(d))
    && var s1 := Apply(s, Accept(d));
       && Enabled(s1, Emit(|f.data|, f.fin))
       && f == NewFrame(s1, |f.data|, f.fin)
       && s' == Apply(s1, Emit(|f.data|, f.fin))
  }

  lemma AcceptedMeans(p: seq<byte>, data: seq<byte>, before: seq<byte>, written: seq<byte>)
    ensures AcceptedOk(p, data, before, written) ==> |data| <= |p| && written == before + p[..|p| - |data|]
    ensures WriterOk(p, data) ==> |data| <= |p|
  {
  }

  lemma AllAccepted(p: seq<byte>)
    ensures WriterOk(p, [])
  {
  }

  lemma BufferMeans(written: seq<byte>, writeOffset: nat, nextFrame: Option<StreamFrame>, reserved: bool)
    requires BufferOk(written, writeOffset, nextFrame, reserved)
    ensures nextFrame.Some? ==>
              nextFrame.value.offset == writeOffset && nextFrame.value.data != [] && !nextFrame.value.fin
    ensures reserved ==> nextFrame.Some?
    ensures |written| == writeOffset + |Data(nextFrame)|
  {
  }
}
