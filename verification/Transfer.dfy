/**
 A sending stream, a network that loses, repeats and reorders frames, and a receiving stream:
 together they carry the octets that were written, in order (section 2.2 of RFC 9000).
 */
module Transfer {
  import opened Common
  import opened GapList
  import FrameSorting
  import opened StreamFrames
  import Sending = ReliableSending
  import opened StreamReading

  /** net holds every frame ever sent, delivered those that have arrived at least once, and out what was read. */
  datatype World = World(
    sender: Sending.Sending, net: set<StreamFrame>, delivered: set<StreamFrame>, reader: Reader, out: seq<byte>)

  datatype Event =
    | Send(step: Sending.Step)
    | Deliver(f: StreamFrame, doneCb: Option<nat>)
    | TakeFrame
    | Read(m: nat)

  /** The frame a step of the sender puts on the network. */
  function Outgoing(s: Sending.Sending, step: Sending.Step): set<StreamFrame>
    requires Sending.Enabled(s, step)
  {
    match step
    case Emit(n, fin) => {Sending.NewFrame(s, n, fin)}
    case Resend(k) => {Sending.FirstPart(s.lost[0], k)}
    case _ => {}
  }

  /**
   Only frames that were delivered are acknowledged. A frame may be declared lost, whether or not it arrives later.
   A frame that leaves too many gaps is an error that closes the connection.
   */
  ghost predicate Enabled(w: World, e: Event) {
    match e
    case Send(step) =>
      && Sending.Enabled(w.sender, step)
      && (step.Accept? ==> |w.sender.written| + |step.data| < MAX_BYTE_COUNT)
      && (step.Ack? ==> w.sender.inFlight[step.i] in w.delivered)
    case Deliver(f, doneCb) =>
      && f in w.net && f.End() < MAX_BYTE_COUNT && FrameSorting.Tiled(w.reader.sorter)
      && !FrameSorting.Push(w.reader.sorter, f.data, f.offset, doneCb).result.TooManyGaps?
    case TakeFrame => w.reader.Rest() == []
    case Read(m) => m <= |w.reader.Rest()|
  }

  ghost function Apply(w: World, e: Event): World
    requires Enabled(w, e)
  {
    match e
    case Send(step) => w.(sender := Sending.Apply(w.sender, step), net := w.net + Outgoing(w.sender, step))
    case Deliver(f, doneCb) => w.(delivered := w.delivered + {f}, reader := Receive(w.reader, f, doneCb))
    case TakeFrame => w.(reader := Dequeue(w.reader))
    case Read(m) => w.(reader := Copy(w.reader, m), out := w.out + w.reader.Rest()[..m])
  }

  function Initial(): World { World(Sending.Initial(), {}, {}, NewReader(), []) }

  // ---------------------------------------------------------------- the invariant

  /** The octets of the frame are not missing any more, and neither is the end if the frame had it. */
  ghost predicate Arrived(f: StreamFrame, r: Reader) {
    && (forall x: nat :: f.offset <= x < f.End() ==> !InGaps(r.sorter.gaps, x))
    && (f.fin ==> r.finalOffset != MAX_BYTE_COUNT)
  }

  ghost predicate NetworkOk(w: World) {
    && (forall f :: f in w.net ==> Sending.Carries(w.sender, f))
    && w.delivered <= w.net
    && (forall i :: 0 <= i < |w.sender.acked| ==> w.sender.acked[i] in w.delivered)
  }

  ghost predicate ReaderOk(w: World) {
    && Follows(w.reader, w.sender.written)
    && (w.reader.finalOffset != MAX_BYTE_COUNT ==> w.sender.finSent)
    && (forall f :: f in w.delivered ==> Arrived(f, w.reader))
    && w.out == w.sender.written[..w.reader.readPos]
  }

  ghost predicate Invariant(w: World) {
    Sending.Invariant(w.sender) && NetworkOk(w) && ReaderOk(w)
  }

  lemma InitialIsInvariant()
    ensures Invariant(Initial())
  {
    Sending.InitialIsInvariant();
    NewReaderFollows();
  }

  lemma CarriesOn(s: Sending.Sending, step: Sending.Step, f: StreamFrame)
    requires Sending.Invariant(s) && Sending.Enabled(s, step) && Sending.Carries(s, f)
    ensures Sending.Carries(Sending.Apply(s, step), f)
  {
    hide Sending.Partition, Sending.AllCarry;
    var s' := Sending.Apply(s, step);
    assert s'.written[f.offset..f.End()] == s.written[f.offset..f.End()];
  }

  lemma OutgoingCarries(s: Sending.Sending, step: Sending.Step, f: StreamFrame)
    requires Sending.Invariant(s) && Sending.Enabled(s, step) && f in Outgoing(s, step)
    ensures Sending.Carries(Sending.Apply(s, step), f)
  {
    hide Sending.Partition, Sending.FirstPart, Sending.SecondPart;
    match step {
      case Emit(n, fin) => Sending.EmitCarries(s, n, fin);
      case Resend(k) =>
        assert Sending.Carries(s, s.lost[0]);
        Sending.PartsCarry(s, s.lost[0], k);
        CarriesOn(s, step, f);
    }
  }

  lemma SendKeepsNetwork(w: World, step: Sending.Step)
    requires Invariant(w) && Enabled(w, Send(step))
    ensures NetworkOk(Apply(w, Send(step)))
  {
    hide Sending.Carries, Sending.Invariant, ReaderOk;
    var w' := Apply(w, Send(step));
    forall f | f in w'.net ensures Sending.Carries(w'.sender, f) {
      if f in w.net {
        CarriesOn(w.sender, step, f);
      } else {
        OutgoingCarries(w.sender, step, f);
      }
    }
  }

  lemma SendKeepsReader(w: World, step: Sending.Step)
    requires Invariant(w) && Enabled(w, Send(step))
    ensures ReaderOk(Apply(w, Send(step)))
  {
    hide Sending.Invariant, NetworkOk, Arrived, Follows;
    var s' := Sending.Apply(w.sender, step);
    FollowsMeans(w.reader, w.sender.written);
    if step.Accept? {
      StreamGrows(w.reader, w.sender.written, step.data);
      assert s'.written[..w.reader.readPos] == w.sender.written[..w.reader.readPos];
    }
  }

  lemma DeliverKeepsReader(w: World, f: StreamFrame, doneCb: Option<nat>)
    requires Invariant(w) && Enabled(w, Deliver(f, doneCb))
    ensures ReaderOk(Apply(w, Deliver(f, doneCb)))
  {
    hide Sending.Invariant, Follows, FrameSorting.Push, FrameSorting.Tiled;
    var r' := Receive(w.reader, f, doneCb);
    assert Sending.Carries(w.sender, f);
    FollowsMeans(w.reader, w.sender.written);
    ReceiveFollows(w.reader, f, doneCb, w.sender.written);
    FollowsMeans(r', w.sender.written);
    forall g | g in w.delivered + {f} ensures Arrived(g, r') {
      if g in w.delivered {
        assert Arrived(g, w.reader);
      }
    }
  }

  lemma ReadingKeepsArrived(w: World, r': Reader)
    requires ReaderOk(w) && r'.sorter.gaps == w.reader.sorter.gaps && r'.finalOffset == w.reader.finalOffset
    ensures forall f :: f in w.delivered ==> Arrived(f, r')
  {
    forall f | f in w.delivered ensures Arrived(f, r') {
      assert Arrived(f, w.reader);
    }
  }

  lemma TakeKeepsReader(w: World)
    requires Invariant(w) && Enabled(w, TakeFrame)
    ensures ReaderOk(Apply(w, TakeFrame))
  {
    hide Sending.Invariant, NetworkOk, Arrived, Follows;
    DequeueFollows(w.reader, w.sender.written);
    FollowsMeans(w.reader, w.sender.written);
    ReadingKeepsArrived(w, Dequeue(w.reader));
  }

  lemma ReadKeepsReader(w: World, m: nat)
    requires Invariant(w) && Enabled(w, Read(m))
    ensures ReaderOk(Apply(w, Read(m)))
  {
    hide Sending.Invariant, NetworkOk, Arrived, Follows;
    CopyFollows(w.reader, m, w.sender.written);
    FollowsMeans(w.reader, w.sender.written);
    FollowsMeans(Copy(w.reader, m), w.sender.written);
    ReadingKeepsArrived(w, Copy(w.reader, m));
    var r, s := w.reader.readPos, w.sender.written;
    assert s[..r] + s[r..r + m] == s[..r + m];
  }

  lemma EventKeepsInvariant(w: World, e: Event)
    requires Invariant(w) && Enabled(w, e)
    ensures Invariant(Apply(w, e))
  {
    hide Sending.Invariant, Sending.Apply, Sending.Enabled, Sending.Carries, Arrived, Follows;
    match e {
      case Send(step) =>
        Sending.StepKeepsInvariant(w.sender, step);
        SendKeepsNetwork(w, step);
        SendKeepsReader(w, step);
      case Deliver(f, doneCb) => DeliverKeepsReader(w, f, doneCb);
      case TakeFrame => TakeKeepsReader(w);
      case Read(m) => ReadKeepsReader(w, m);
    }
  }

  // ---------------------------------------------------------------- every run

  ghost predicate IsRun(w: World, es: seq<Event>)
    decreases |es|
  {
    es == [] || (Enabled(w, es[0]) && IsRun(Apply(w, es[0]), es[1..]))
  }

  ghost function Final(w: World, es: seq<Event>): World
    requires IsRun(w, es)
    decreases |es|
  {
    if es == [] then w else Final(Apply(w, es[0]), es[1..])
  }

  lemma {:induction false} RunKeepsInvariant(w: World, es: seq<Event>)
    requires Invariant(w) && IsRun(w, es)
    ensures Invariant(Final(w, es))
    decreases |es|
  {
    hide Invariant, Enabled, Apply;
    if es != [] {
      EventKeepsInvariant(w, es[0]);
      RunKeepsInvariant(Apply(w, es[0]), es[1..]);
    }
  }

  /**
   In every interleaving of writes, sends, losses, acknowledgements, retransmissions, deliveries and reads,
   what was read is a prefix of what was written; and once the end was read, it is all of it.
   */
  lemma StreamIsReliable(es: seq<Event>)
    requires IsRun(Initial(), es)
    ensures var w := Final(Initial(), es);
            && w.out <= w.sender.written
            && (w.reader.Ended() ==> w.out == w.sender.written && w.sender.finSent && w.sender.closed)
  {
    hide Enabled, Apply;
    InitialIsInvariant();
    RunKeepsInvariant(Initial(), es);
    var w := Final(Initial(), es);
    FollowsMeans(w.reader, w.sender.written);
    if w.reader.Ended() {
      EndedMeansAllRead(w.reader, w.sender.written);
    }
  }

  // ---------------------------------------------------------------- nothing is lost

  lemma {:induction false} CountedIsCovered(fs: seq<StreamFrame>, x: nat)
    requires Sending.Count(fs, x) > 0
    ensures exists i :: 0 <= i < |fs| && fs[i].offset <= x < fs[i].End()
  {
    if Sending.Covers(fs[0], x) == 0 {
      CountedIsCovered(fs[1..], x);
      var i :| 0 <= i < |fs[1..]| && fs[1..][i].offset <= x < fs[1..][i].End();
      assert fs[i + 1] == fs[1..][i];
    }
  }

  lemma {:induction false} CountedIsFin(fs: seq<StreamFrame>)
    requires Sending.Fins(fs) > 0
    ensures exists i :: 0 <= i < |fs| && fs[i].fin
  {
    if !fs[0].fin {
      CountedIsFin(fs[1..]);
      var i :| 0 <= i < |fs[1..]| && fs[1..][i].fin;
      assert fs[i + 1] == fs[1..][i];
    }
  }

  /** Nothing before the first gap is missing, so a first gap at or behind n means that n octets are there. */
  lemma NoGapsBefore(s: FrameSorting.Sorter, n: nat)
    requires FrameSorting.Tiled(s) && forall x: nat :: x < n ==> !InGaps(s.gaps, x)
    ensures |s.gaps| > 0 && n <= s.gaps[0].start
  {
    assert InGaps(s.gaps, s.gaps[0].start);
  }

  /**
   Once the sender has nothing left in flight or to retransmit and its FIN is out, the receiver has every octet
   and knows the end: what it can still take from its sorter completes the stream.
   */
  lemma DrainedSenderMeansAllArrived(w: World)
    requires Invariant(w) && w.sender.finSent && w.sender.inFlight == [] && w.sender.lost == []
    ensures w.reader.finalOffset == |w.sender.written|
    ensures w.out + w.reader.Rest() + FrameSorting.Drain(w.reader.sorter) == w.sender.written
  {
    hide Follows, Sending.Invariant, FrameSorting.Tiled, FrameSorting.Agrees, FrameSorting.Drain;
    var s, r := w.sender, w.reader;
    Sending.DrainedMeansAcknowledged(s);
    forall x: nat | x < |s.written| ensures !InGaps(r.sorter.gaps, x) {
      CountedIsCovered(s.acked, x);
      var i :| 0 <= i < |s.acked| && s.acked[i].offset <= x < s.acked[i].End();
      assert Arrived(s.acked[i], r);
    }
    CountedIsFin(s.acked);
    var i :| 0 <= i < |s.acked| && s.acked[i].fin;
    assert Arrived(s.acked[i], r);
    AllArrived(r, s.written, w.out);
  }

  lemma AllArrived(r: Reader, stream: seq<byte>, out: seq<byte>)
    requires Follows(r, stream) && out == stream[..r.readPos] && r.finalOffset != MAX_BYTE_COUNT
    requires forall x: nat :: x < |stream| ==> !InGaps(r.sorter.gaps, x)
    ensures r.finalOffset == |stream| && out + r.Rest() + FrameSorting.Drain(r.sorter) == stream
  {
    hide FrameSorting.Tiled, FrameSorting.Agrees, FrameSorting.Drain;
    NoGapsBefore(r.sorter, |stream|);
    FrameSorting.DrainReachesFirstGap(r.sorter, stream);
    var a, b := r.readPos, r.sorter.readPos;
    assert stream[..a] + stream[a..b] == stream[..b];
    assert stream[..b] + stream[b..] == stream;
  }
}
