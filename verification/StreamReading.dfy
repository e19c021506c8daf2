/** What a receiving stream does with the frames it gets: sort them, take one at a time, copy octets out of it. */
module StreamReading {
  import opened Common
  import opened GapList
  import opened FrameSorting
  import opened StreamFrames

  /**
   The sorter, the frame taken out of it last, and how much of that has been read.
   The final offset is MAX_BYTE_COUNT while it is not known.
   */
  datatype Reader = Reader(
    sorter: Sorter, finalOffset: nat, current: Option<seq<byte>>, pos: nat, isLast: bool, readPos: nat)
  {
    /** What is left of the current frame. */
    function Rest(): seq<byte> {
      if current.Some? && pos <= |current.value| then current.value[pos..] else []
    }

    /** The end of the stream was read. */
    predicate Ended() { isLast && current.None? }
  }

  function NewReader(): Reader {
    Reader(Sorter(map[], 0, [Gap(0, MAX_BYTE_COUNT)]), MAX_BYTE_COUNT, None, 0, false, 0)
  }

  /** A frame arrives; the sorter does not report too many gaps. */
  function Receive(r: Reader, f: StreamFrame, doneCb: Option<nat>): Reader
    requires Tiled(r.sorter) && f.End() < MAX_BYTE_COUNT
  {
    r.(sorter := Push(r.sorter, f.data, f.offset, doneCb).sorter,
       finalOffset := if f.fin then f.End() else r.finalOffset)
  }

  function Dequeue(r: Reader): Reader {
    var p := Pop(r.sorter);
    var data := if p.entry.Some? then p.entry.value.data else [];
    r.(sorter := p.sorter, current := if p.entry.Some? then Some(data) else None, pos := 0,
       isLast := p.offset + |data| >= r.finalOffset)
  }

  /** m octets of the current frame are read. Behind the last octet of the last frame the stream has ended. */
  function Copy(r: Reader, m: nat): Reader {
    var r' := r.(pos := r.pos + m, readPos := r.readPos + m);
    if r'.Rest() == [] && r.isLast then r'.(current := None) else r'
  }

  // ---------------------------------------------------------------- the reader follows a stream

  /** Everything the reader holds is where it is in the stream, and what it knows of the end is right. */
  ghost predicate Follows(r: Reader, stream: seq<byte>) {
    && Tiled(r.sorter) && Agrees(r.sorter.queue, stream)
    && |stream| < MAX_BYTE_COUNT
    && (r.current.Some? ==> r.pos <= |r.current.value|)
    && r.readPos + |r.Rest()| == r.sorter.readPos <= |stream|
    && r.Rest() == stream[r.readPos..r.sorter.readPos]
    && (r.finalOffset == MAX_BYTE_COUNT || r.finalOffset == |stream|)
    && (r.isLast ==> r.sorter.readPos == r.finalOffset)
  }

  lemma NewReaderFollows()
    ensures Follows(NewReader(), [])
  {
    assert NewReader().sorter.gaps[0] == Gap(0, MAX_BYTE_COUNT);
  }

  lemma FollowsMeans(r: Reader, stream: seq<byte>)
    requires Follows(r, stream)
    ensures r.readPos <= r.sorter.readPos <= |stream| && |stream| < MAX_BYTE_COUNT
  {
  }

  /** While the end is not known, the stream may grow. */
  lemma StreamGrows(r: Reader, stream: seq<byte>, more: seq<byte>)
    requires Follows(r, stream) && r.finalOffset == MAX_BYTE_COUNT && |stream| + |more| < MAX_BYTE_COUNT
    ensures Follows(r, stream + more)
  {
    var w := stream + more;
    assert w[r.readPos..r.sorter.readPos] == stream[r.readPos..r.sorter.readPos];
    var q := r.sorter.queue;
    forall k | k in q ensures k + |q[k].data| <= |w| && q[k].data == w[k..k + |q[k].data|] {
    }
  }

  /** f is a piece of the stream, with a FIN only at its end. */
  predicate PieceOf(f: StreamFrame, stream: seq<byte>) {
    && f.End() <= |stream| && f.data == stream[f.offset..f.End()]
    && (f.fin ==> f.End() == |stream|)
  }

  lemma ReceiveFollows(r: Reader, f: StreamFrame, doneCb: Option<nat>, stream: seq<byte>)
    requires Follows(r, stream) && PieceOf(f, stream)
    requires !Push(r.sorter, f.data, f.offset, doneCb).result.TooManyGaps?
    ensures Follows(Receive(r, f, doneCb), stream)
    ensures PushOutcome(r.sorter, f.data, f.offset, Receive(r, f, doneCb).sorter)
  {
    hide Push, Tiled, Agrees;
    PushIsCorrect(r.sorter, f.data, f.offset, doneCb);
    var s' := Receive(r, f, doneCb).sorter;
    PushAgrees(r.sorter, f.data, f.offset, s', stream);
    OutcomeIsTiled(r.sorter, f.data, f.offset, s');
  }

  lemma OutcomeIsTiled(s: Sorter, data: seq<byte>, offset: nat, s': Sorter)
    requires PushOutcome(s, data, offset, s')
    ensures Tiled(s') && s'.readPos == s.readPos
  {
  }

  /** The next frame may be taken once the current one has been read. */
  lemma DequeueFollows(r: Reader, stream: seq<byte>)
    requires Follows(r, stream) && r.Rest() == []
    ensures Follows(Dequeue(r), stream)
    ensures Dequeue(r).readPos == r.readPos
    ensures Dequeue(r).current.Some? <==> r.readPos < r.sorter.gaps[0].start
    ensures Dequeue(r).current.Some? ==> Dequeue(r).Rest() != []
  {
    hide Tiled;
    PopIsCorrect(r.sorter);
    var r' := Dequeue(r);
    PopAgrees(r.sorter, stream);
    if r'.current.Some? {
      assert r'.Rest() == r'.current.value;
    }
  }

  lemma PopAgrees(s: Sorter, stream: seq<byte>)
    requires Tiled(s) && Agrees(s.queue, stream) && s.readPos <= |stream|
    ensures var p := Pop(s);
            && Agrees(p.sorter.queue, stream) && p.sorter.readPos <= |stream|
            && (p.entry.Some? ==> p.entry.value.data == stream[s.readPos..p.sorter.readPos])
  {
  }

  /** What is copied is the next piece of the stream. */
  lemma CopyFollows(r: Reader, m: nat, stream: seq<byte>)
    requires Follows(r, stream) && m <= |r.Rest()|
    ensures Follows(Copy(r, m), stream)
    ensures r.Rest()[..m] == stream[r.readPos..r.readPos + m] && Copy(r, m).readPos == r.readPos + m
    ensures Copy(r, m).Ended() ==> Copy(r, m).readPos == r.finalOffset
  {
    hide Tiled, Agrees;
    var rest, end := r.Rest(), r.sorter.readPos;
    SliceOfSlice(stream, r.readPos, end, 0, m);
    SliceOfSlice(stream, r.readPos, end, m, |rest|);
    if r.current.Some? {
      var c := r.current.value;
      assert c[r.pos..][m..] == c[r.pos + m..];
    }
  }

  /** A reader that has ended has read the whole stream. */
  lemma EndedMeansAllRead(r: Reader, stream: seq<byte>)
    requires Follows(r, stream) && r.Ended()
    ensures r.readPos == r.finalOffset == |stream|
  {
  }

  // ---------------------------------------------------------------- the reader and its flow control

  /** Nothing is held behind the highest offset received; where that is the final offset, it is known to be. */
  ghost predicate ShapeOk(r: Reader, highest: nat) {
    && Tiled(r.sorter)
    && (r.current.Some? ==> r.pos <= |r.current.value|)
    && r.readPos + |r.Rest()| == r.sorter.readPos <= highest < MAX_BYTE_COUNT
    && (forall x: nat :: highest <= x < MAX_BYTE_COUNT ==> InGaps(r.sorter.gaps, x))
    && (r.finalOffset == MAX_BYTE_COUNT || r.finalOffset == highest)
    && (r.isLast ==> r.sorter.readPos == r.finalOffset)
  }

  lemma NewReaderShape()
    ensures ShapeOk(NewReader(), 0)
  {
    var gaps := NewReader().sorter.gaps;
    assert gaps[0] == Gap(0, MAX_BYTE_COUNT);
  }

  lemma ShapeMeans(r: Reader, highest: nat)
    requires ShapeOk(r, highest)
    ensures Tiled(r.sorter) && (r.current.Some? ==> r.pos <= |r.current.value|)
    ensures r.readPos + |r.Rest()| == r.sorter.readPos <= highest < MAX_BYTE_COUNT
    ensures r.isLast ==> r.sorter.readPos == r.finalOffset
    ensures r.finalOffset == MAX_BYTE_COUNT || r.finalOffset == highest
  {
  }

  lemma EndedShape(r: Reader, highest: nat)
    requires ShapeOk(r, highest) && r.Ended()
    ensures r.readPos == r.finalOffset == highest < MAX_BYTE_COUNT
  {
  }

  /**
   Flow control lets a frame through: the highest offset rises to its end, and stays once the final offset is known.
   */
  lemma ReceiveShape(r: Reader, f: StreamFrame, doneCb: Option<nat>, highest: nat, highest': nat)
    requires ShapeOk(r, highest) && highest' == Max(highest, f.End()) < MAX_BYTE_COUNT
    requires r.finalOffset != MAX_BYTE_COUNT ==> f.End() <= highest
    requires f.fin ==> f.End() == highest'
    requires !Push(r.sorter, f.data, f.offset, doneCb).result.TooManyGaps?
    ensures ShapeOk(Receive(r, f, doneCb), highest')
  {
    hide Push, Tiled;
    PushIsCorrect(r.sorter, f.data, f.offset, doneCb);
    OutcomeIsTiled(r.sorter, f.data, f.offset, Receive(r, f, doneCb).sorter);
  }

  lemma DequeueShape(r: Reader, highest: nat)
    requires ShapeOk(r, highest) && r.Rest() == []
    ensures ShapeOk(Dequeue(r), highest) && Dequeue(r).readPos == r.readPos
    ensures r.readPos == r.sorter.readPos <= r.sorter.gaps[0].start
    ensures Dequeue(r).current.Some? <==> r.readPos < r.sorter.gaps[0].start
    ensures Dequeue(r).current.Some? ==> Dequeue(r).Rest() != []
  {
    hide Tiled;
    var r' := Dequeue(r);
    PopIsCorrect(r.sorter);
    FirstGapIsBelow(r.sorter.gaps, highest);
    PopStopsAtGap(r.sorter);
    PopStopsAtGap(r'.sorter);
    if r'.current.Some? {
      assert r'.Rest() == r'.current.value;
    }
  }

  lemma FirstGapIsBelow(gaps: seq<Gap>, x: nat)
    requires GapsOk(gaps) && InGaps(gaps, x)
    ensures gaps[0].start <= x
  {
  }

  lemma CopyShape(r: Reader, m: nat, highest: nat)
    requires ShapeOk(r, highest) && m <= |r.Rest()|
    ensures ShapeOk(Copy(r, m), highest)
    ensures Copy(r, m).readPos == r.readPos + m <= highest
    ensures Copy(r, m).Ended() ==> Copy(r, m).readPos == r.finalOffset
  {
    hide Tiled;
    if r.current.Some? {
      var c := r.current.value;
      assert c[r.pos..][m..] == c[r.pos + m..];
    }
  }
}
