/** The receiving side of a stream: frames go into the sorter, Read takes them out in order. */
module ReceiveStreams {
  import opened Common
  import opened GapList
  import opened FrameSorting
  import opened FrameQueue
  import opened StreamFrames
  import opened StreamReading
  import FC = FlowControl
  import opened FlowControllers

  datatype ReadResult = Success | EndOfStream | Cancelled | Blocked

  /** Flow control alone: an accepted frame raises the highest offset to its end, and a known final offset stays. */
  lemma AcceptedFrame(s: FC.Stream, conn: FC.Window, offset: nat, final: bool, now: int)
    requires s.w.Valid() && FC.UpdateHighestReceived(s, conn, offset, final, now).ok
    ensures var r := FC.UpdateHighestReceived(s, conn, offset, final, now);
            && r.stream.w.Valid() && r.stream.w.bytesRead == s.w.bytesRead
            && r.stream.w.highestReceived == Max(s.w.highestReceived, offset)
            && r.stream.finalReceived == (s.finalReceived || final)
            && (final ==> offset == r.stream.w.highestReceived)
            && (s.finalReceived ==> offset <= s.w.highestReceived)
  {
  }

  class ReceiveStream {
    const frameQueue: FrameSorter
    const flow: StreamFlowController

    var finalOffset: nat
    var currentFrame: Option<seq<byte>>
    var readPosInFrame: nat
    var currentFrameIsLast: bool
    var readPos: nat
    var errorRead: bool
    var completed: bool
    var cancelledLocally: bool
    var cancelledRemotely: bool

    ghost function View(): Reader
      reads this, frameQueue
    {
      Reader(frameQueue.View(), finalOffset, currentFrame, readPosInFrame, currentFrameIsLast, readPos)
    }

    predicate IsCancelled()
      reads this
    {
      cancelledLocally || cancelledRemotely
    }

    /** Unless the stream is cancelled, exactly what was read is credited, at most what was received. */
    ghost predicate Valid()
      reads this, frameQueue, flow
    {
      && flow.w.Valid() && frameQueue.Valid()
      && (errorRead && !cancelledLocally ==> completed)
      && (cancelledRemotely ==> finalOffset != MAX_BYTE_COUNT)
      && (finalOffset != MAX_BYTE_COUNT <==> flow.receivedFinalOffset)
      && (!IsCancelled() ==> ShapeOk(View(), flow.w.highestReceived) && flow.w.bytesRead == readPos)
    }

    constructor (flow: StreamFlowController)
      requires flow.w.Valid() && flow.w.bytesRead == 0 && flow.w.highestReceived == 0 && !flow.receivedFinalOffset
      ensures Valid() && View() == NewReader() && this.flow == flow && !IsCancelled() && fresh(frameQueue) && !errorRead
      ensures !completed
    {
      this.flow := flow;
      frameQueue := new FrameSorter();
      finalOffset, currentFrame, readPosInFrame, currentFrameIsLast, readPos := MAX_BYTE_COUNT, None, 0, false, 0;
      errorRead, completed, cancelledLocally, cancelledRemotely := false, false, false, false;
      new;
      NewReaderShape();
    }

    /** The final offset is known, and the stream was cancelled or its end or error was read. */
    predicate DoneWith()
      reads this
    {
      finalOffset != MAX_BYTE_COUNT && (cancelledLocally || errorRead)
    }

    /** True once: the final offset is known, and the stream was cancelled or its end or error was read. */
    method IsNewlyCompleted() returns (r: bool)
      modifies this`completed
      ensures completed == (old(completed) || DoneWith())
      ensures r == (completed && !old(completed))
    {
      if completed {
        return false;
      }
      if finalOffset == MAX_BYTE_COUNT {
        return false;
      }
      if cancelledLocally {
        completed := true;
        return true;
      }
      if errorRead {
        completed := true;
        return true;
      }
      return false;
    }

    // -------------------------------------------------------------- receiving

    /**
     A STREAM frame. An error closes the connection. A frame of the stream that the reader follows keeps it following,
     and the octets of the frame are not missing any more.
     */
    method HandleStreamFrame(f: StreamFrame, doneCb: Option<nat>, now: int, ghost stream: seq<byte>)
      returns (ok: bool, newlyCompleted: bool)
      requires Valid() && f.End() < MAX_BYTE_COUNT
      modifies this`finalOffset, this`completed, frameQueue`queue, frameQueue`gaps, frameQueue`released, flow, flow.conn
      ensures ok <==>
                && FC.UpdateHighestReceived(old(flow.View()), old(flow.conn.w), f.End(), f.fin, now).ok
                && (cancelledLocally || !Push(old(frameQueue.View()), f.data, f.offset, doneCb).result.TooManyGaps?)
      ensures ok ==> Valid() && finalOffset == if f.fin then f.End() else old(finalOffset)
      ensures ok ==> completed == (old(completed) || DoneWith()) && newlyCompleted == (completed && !old(completed))
      ensures ok && !IsCancelled() ==> View() == Receive(old(View()), f, doneCb)
      ensures ok && !IsCancelled() ==> PushOutcome(old(frameQueue.View()), f.data, f.offset, frameQueue.View())
      ensures ok && !IsCancelled() && old(Follows(View(), stream)) && PieceOf(f, stream) ==> Follows(View(), stream)
    {
      hide ShapeOk, Follows, PieceOf, Tiled, Push, FC.UpdateHighestReceived, Receive, PushOutcome;
      newlyCompleted := false;
      ok := AcceptFrame(f, doneCb, now, stream);
      if ok {
        newlyCompleted := IsNewlyCompleted();
        if newlyCompleted {
          flow.Abandon();
        }
      }
    }

    /** Flow control, then the sorter, unless nobody will read the data. */
    method AcceptFrame(f: StreamFrame, doneCb: Option<nat>, now: int, ghost stream: seq<byte>) returns (ok: bool)
      requires Valid() && f.End() < MAX_BYTE_COUNT
      modifies this`finalOffset, frameQueue`queue, frameQueue`gaps, frameQueue`released, flow, flow.conn
      ensures ok <==>
                && FC.UpdateHighestReceived(old(flow.View()), old(flow.conn.w), f.End(), f.fin, now).ok
                && (cancelledLocally || !Push(old(frameQueue.View()), f.data, f.offset, doneCb).result.TooManyGaps?)
      ensures ok ==> Valid() && finalOffset == if f.fin then f.End() else old(finalOffset)
      ensures ok && !IsCancelled() ==> View() == Receive(old(View()), f, doneCb)
      ensures ok && !IsCancelled() ==> PushOutcome(old(frameQueue.View()), f.data, f.offset, frameQueue.View())
      ensures ok && !IsCancelled() && old(Follows(View(), stream)) && PieceOf(f, stream) ==> Follows(View(), stream)
    {
      hide ShapeOk, Follows, PieceOf, Tiled, Push, FC.UpdateHighestReceived;
      ghost var r, highest := View(), flow.w.highestReceived;
      ok := flow.UpdateHighestReceived(f.End(), f.fin, now);
      if !ok {
        return;
      }
      AcceptedFrame(old(flow.View()), old(flow.conn.w), f.End(), f.fin, now);
      if f.fin {
        finalOffset := f.End();
      }
      if cancelledLocally {
        return;
      }
      var pushed := frameQueue.PushFrame(f.data, f.offset, doneCb);
      if pushed.TooManyGaps? {
        return false;
      }
      if !cancelledRemotely {
        ShapeMeans(r, highest);
        ReceiveShape(r, f, doneCb, highest, flow.w.highestReceived);
        if Follows(r, stream) && PieceOf(f, stream) {
          ReceiveFollows(r, f, doneCb, stream);
        }
      }
    }

    /** RESET_STREAM: what was not read is credited to the connection. */
    method HandleReset(finalSize: nat, now: int) returns (ok: bool, newlyCompleted: bool)
      requires Valid() && finalSize < MAX_BYTE_COUNT
      modifies this`finalOffset, this`completed, this`cancelledRemotely, flow, flow.conn
      ensures ok <==> FC.UpdateHighestReceived(old(flow.View()), old(flow.conn.w), finalSize, true, now).ok
      ensures ok ==>
                && Valid() && finalOffset == finalSize
                && cancelledRemotely == (old(cancelledRemotely) || !cancelledLocally)
      ensures ok ==> completed == (old(completed) || DoneWith()) && newlyCompleted == (completed && !old(completed))
      ensures ok ==> flow.w.bytesRead == flow.w.highestReceived == finalSize
    {
      hide ShapeOk, Tiled, FC.UpdateHighestReceived;
      newlyCompleted := false;
      ok := flow.UpdateHighestReceived(finalSize, true, now);
      if !ok {
        return;
      }
      AcceptedFrame(old(flow.View()), old(flow.conn.w), finalSize, true, now);
      finalOffset := finalSize;
      flow.Abandon();
      if !cancelledLocally {
        cancelledRemotely := true;
      }
      newlyCompleted := IsNewlyCompleted();
    }

    method CancelRead() returns (queued: bool, newlyCompleted: bool)
      requires Valid()
      modifies this`cancelledLocally, this`completed, flow`w, flow.conn
      ensures Valid() && cancelledLocally
      ensures queued == (!old(cancelledLocally) && !errorRead && !cancelledRemotely)
      ensures completed == (old(completed) || DoneWith()) && newlyCompleted == (completed && !old(completed))
    {
      hide ShapeOk, Tiled;
      queued := !cancelledLocally && !errorRead && !cancelledRemotely;
      cancelledLocally := true;
      newlyCompleted := IsNewlyCompleted();
      if newlyCompleted {
        flow.Abandon();
      }
    }

    // -------------------------------------------------------------- reading

    method DequeueNextFrame(ghost stream: seq<byte>)
      requires Valid() && !IsCancelled() && View().Rest() == []
      modifies this`currentFrame, this`readPosInFrame, this`currentFrameIsLast, frameQueue`queue, frameQueue`readPos
      ensures Valid() && View() == Dequeue(old(View())) && frameQueue.gaps == old(frameQueue.gaps)
      ensures |frameQueue.gaps| > 0 && (currentFrame.Some? <==> readPos < frameQueue.gaps[0].start)
      ensures currentFrame.Some? ==> View().Rest() != []
      ensures currentFrame.None? ==>
                readPos == frameQueue.gaps[0].start && (currentFrameIsLast <==> readPos >= finalOffset)
      ensures old(Follows(View(), stream)) ==> Follows(View(), stream)
    {
      hide ShapeOk, Follows, Tiled;
      ghost var r := View();
      DequeueShape(r, flow.w.highestReceived);
      PopStopsAtGap(r.sorter);
      if Follows(r, stream) {
        DequeueFollows(r, stream);
      }
      var offset, entry := frameQueue.PopFrame();
      currentFrame := if entry.Some? then Some(entry.value.data) else None;
      currentFrameIsLast := offset + (if entry.Some? then |entry.value.data| else 0) >= finalOffset;
      readPosInFrame := 0;
    }

    /** Copies at most n octets out of the current frame. */
    method CopyOut(n: nat, ghost stream: seq<byte>) returns (data: seq<byte>, ended: bool)
      requires Valid() && !IsCancelled()
      modifies this`currentFrame, this`readPosInFrame, this`readPos, flow`w, flow.conn
      ensures |data| == Min(n, old(|View().Rest()|)) && data == old(View()).Rest()[..|data|]
      ensures Valid() && View() == Copy(old(View()), |data|) && ended == View().Ended()
      ensures old(Follows(View(), stream)) ==> Follows(View(), stream) && data == stream[old(readPos)..readPos]
      ensures ended ==> readPos == finalOffset
      ensures readPos == old(readPos) + |data| && (old(currentFrame).None? ==> currentFrame.None?)
    {
      hide ShapeOk, Follows, Tiled;
      ghost var r := View();
      ShapeMeans(r, flow.w.highestReceived);
      data := [];
      if currentFrame.Some? {
        var rest := currentFrame.value[readPosInFrame..];
        data := rest[..Min(n, |rest|)];
      }
      CopyShape(r, |data|, flow.w.highestReceived);
      if Follows(r, stream) {
        CopyFollows(r, |data|, stream);
      }
      var _, _ := flow.AddBytesRead(|data|);
      readPosInFrame := readPosInFrame + |data|;
      readPos := readPos + |data|;
      ended := currentFrameIsLast && (currentFrame.None? || readPosInFrame >= |currentFrame.value|);
      if ended {
        currentFrame := None;
      }
    }

    /**
     Reads at most n octets. They are the next octets of every stream that the reader follows. The end is reported only
     when everything up to the final offset was read, and a read blocks only if the very next octet is missing.
     */
    method Read(n: nat, ghost stream: seq<byte>) returns (data: seq<byte>, result: ReadResult, newlyCompleted: bool)
      requires Valid()
      modifies this`currentFrame, this`readPosInFrame, this`currentFrameIsLast, this`readPos, this`errorRead,
               this`completed,
               frameQueue`queue, frameQueue`readPos, flow`w, flow.conn
      ensures Valid() && |data| <= n && readPos == old(readPos) + |data|
      ensures result.Cancelled? ==> IsCancelled() && data == []
      ensures result.EndOfStream? && !IsCancelled() ==> readPos == finalOffset == flow.w.highestReceived
      ensures result.EndOfStream? ==> View().Ended()
      ensures View().Ended() ==> result.EndOfStream? || (result.Success? && 0 < |data| < n)
      ensures result.Cancelled? <==> IsCancelled() && !View().Ended()
      ensures errorRead == (old(errorRead) || result.EndOfStream? || result.Cancelled?)
      ensures completed == (old(completed) || DoneWith()) && newlyCompleted == (completed && !old(completed))
      ensures result.Blocked? ==> data == [] && n > 0 && readPos == frameQueue.gaps[0].start && readPos != finalOffset
      ensures result.Success? && |data| < n ==> readPos == frameQueue.gaps[0].start
      ensures old(!IsCancelled() && Follows(View(), stream)) ==>
                && Follows(View(), stream) && data == stream[old(readPos)..readPos]
                && (result.EndOfStream? ==> readPos == |stream|)
    {
      hide ShapeOk, Follows, Tiled, Dequeue, Copy;
      data, newlyCompleted := [], false;
      if currentFrameIsLast && currentFrame.None? {
        errorRead := true;
        result := EndOfStream;
      } else if IsCancelled() {
        errorRead := true;
        result := Cancelled;
      } else {
        data, result := ReadFrames(n, stream);
        if result.EndOfStream? {
          errorRead := true;
        }
      }
      if !IsCancelled() && View().Ended() {
        EndedShape(View(), flow.w.highestReceived);
      }
      if !IsCancelled() && Follows(View(), stream) {
        FollowsMeans(View(), stream);
        if View().Ended() {
          EndedMeansAllRead(View(), stream);
        }
      }
      newlyCompleted := IsNewlyCompleted();
    }

    /** Takes the next frame if need be and copies from it. With a result, the read returns. */
    method ReadPiece(n: nat, first: bool, ghost stream: seq<byte>) returns (data: seq<byte>, stop: Option<ReadResult>)
      requires Valid() && !IsCancelled() && !View().Ended() && n > 0
      modifies this`currentFrame, this`readPosInFrame, this`currentFrameIsLast, this`readPos,
               frameQueue`queue, frameQueue`readPos, flow`w, flow.conn
      ensures Valid() && |data| <= n && readPos == old(readPos) + |data|
      ensures stop.None? ==> data != [] && !View().Ended()
      ensures stop == Some(EndOfStream) ==> readPos == finalOffset && View().Ended()
      ensures View().Ended() ==> stop == Some(EndOfStream) || stop == Some(Success)
      ensures stop == Some(Blocked) ==>
                first && |frameQueue.gaps| > 0 && readPos == frameQueue.gaps[0].start && readPos != finalOffset
      ensures stop == Some(Success) ==> !first && |frameQueue.gaps| > 0 && readPos == frameQueue.gaps[0].start
      ensures stop != Some(Cancelled) && (stop.Some? && !stop.value.EndOfStream? ==> data == [])
      ensures old(Follows(View(), stream)) ==>
                Follows(View(), stream) && readPos <= |stream| && data == stream[old(readPos)..readPos]
    {
      hide ShapeOk, Follows, Tiled, Copy, Dequeue;
      RestIsEmpty(View());
      if currentFrame.None? || readPosInFrame >= |currentFrame.value| {
        DequeueNextFrame(stream);
      }
      data, stop := [], None;
      if currentFrame.None? && !first {
        stop := Some(Success);
      } else if currentFrame.None? && !currentFrameIsLast {
        stop := Some(Blocked);
      } else {
        var ended;
        data, ended := CopyOut(n, stream);
        if ended {
          stop := Some(EndOfStream);
        }
      }
      if Follows(View(), stream) {
        FollowsMeans(View(), stream);
      }
    }

    /** The loop of a read from a stream that has neither ended nor been cancelled. */
    method ReadFrames(n: nat, ghost stream: seq<byte>) returns (data: seq<byte>, result: ReadResult)
      requires Valid() && !IsCancelled() && !View().Ended()
      modifies this`currentFrame, this`readPosInFrame, this`currentFrameIsLast, this`readPos,
               frameQueue`queue, frameQueue`readPos, flow`w, flow.conn
      ensures Valid() && |data| <= n && readPos == old(readPos) + |data|
      ensures !result.Cancelled? && (result.EndOfStream? ==> View().Ended() && readPos == finalOffset)
      ensures View().Ended() ==> result.EndOfStream? || (result.Success? && 0 < |data| < n)
      ensures result.Blocked? ==> data == [] && n > 0 && readPos == frameQueue.gaps[0].start && readPos != finalOffset
      ensures result.Success? && |data| < n ==> readPos == frameQueue.gaps[0].start
      ensures old(Follows(View(), stream)) ==> Follows(View(), stream) && data == stream[old(readPos)..readPos]
    {
      hide ShapeOk, Follows, Tiled, Copy;
      ghost var good := Follows(View(), stream);
      if good {
        FollowsMeans(View(), stream);
      }
      data := [];
      while |data| < n
        invariant Valid() && !View().Ended()
        invariant |data| <= n && readPos == old(readPos) + |data|
        invariant good ==> Follows(View(), stream) && readPos <= |stream| && data == stream[old(readPos)..readPos]
        decreases n - |data|
      {
        ghost var before := readPos;
        var piece, stop := ReadPiece(n - |data|, data == [], stream);
        data := data + piece;
        if good {
          FollowsMeans(View(), stream);
          assert data == stream[old(readPos)..before] + stream[before..readPos];
        }
        if stop.Some? {
          return data, stop.value;
        }
      }
      result := Success;
    }
  }

  lemma RestIsEmpty(r: Reader)
    ensures r.current.None? ==> r.Rest() == []
    ensures r.current.Some? && r.pos >= |r.current.value| ==> r.Rest() == []
    ensures r.current.Some? && r.pos < |r.current.value| ==> r.Rest() != []
  {
  }
}
