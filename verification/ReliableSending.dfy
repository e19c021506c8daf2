/**
 What a sending stream does, without its buffers: octets are accepted, sent in frames, and each frame is lost or
 acknowledged.
 */
module ReliableSending {
  import opened Common
  import opened StreamFrames

  /**
   written holds every octet accepted so far, of which the first `sent` have left in frames.
   A frame is in flight until it is acknowledged or lost; a lost frame waits for retransmission.
   */
  datatype Sending = Sending(
    written: seq<byte>, sent: nat, closed: bool, finSent: bool,
    inFlight: seq<StreamFrame>, lost: seq<StreamFrame>, acked: seq<StreamFrame>)
  {
    function Frames(): seq<StreamFrame> { acked + inFlight + lost }
  }

  datatype Step =
    | Accept(data: seq<byte>)
    | Close
    | Emit(n: nat, fin: bool)
    | Ack(i: nat)
    | Lose(i: nat)
    | Resend(k: nat)

  /** The frame an Emit sends. */
  function NewFrame(s: Sending, n: nat, fin: bool): StreamFrame
    requires s.sent + n <= |s.written|
  {
    StreamFrame(s.sent, s.written[s.sent..s.sent + n], fin)
  }

  /** The first k octets of a frame; all of it, with its FIN, when there are no more. */
  function FirstPart(f: StreamFrame, k: nat): StreamFrame {
    if k < |f.data| then StreamFrame(f.offset, f.data[..k], false) else f
  }

  function SecondPart(f: StreamFrame, k: nat): seq<StreamFrame> {
    if k < |f.data| then [StreamFrame(f.offset + k, f.data[k..], f.fin)] else []
  }

  predicate Enabled(s: Sending, step: Step) {
    match step
    case Accept(_) => !s.finSent
    case Close => true
    case Emit(n, fin) =>
      && s.sent + n <= |s.written|
      && (n > 0 || fin)
      && (fin ==> s.closed && !s.finSent && s.sent + n == |s.written|)
    case Ack(i) => i < |s.inFlight|
    case Lose(i) => i < |s.inFlight|
    case Resend(k) => |s.lost| > 0 && (0 < k || s.lost[0].data == [])
  }

  function Without(fs: seq<StreamFrame>, i: nat): seq<StreamFrame>
    requires i < |fs|
  {
    fs[..i] + fs[i + 1..]
  }

  function Apply(s: Sending, step: Step): Sending
    requires Enabled(s, step)
  {
    match step
    case Accept(data) => s.(written := s.written + data)
    case Close => s.(closed := true)
    case Emit(n, fin) =>
      s.(sent := s.sent + n, finSent := s.finSent || fin, inFlight := s.inFlight + [NewFrame(s, n, fin)])
    case Ack(i) => s.(inFlight := Without(s.inFlight, i), acked := s.acked + [s.inFlight[i]])
    case Lose(i) => s.(inFlight := Without(s.inFlight, i), lost := s.lost + [s.inFlight[i]])
    case Resend(k) =>
      s.(lost := SecondPart(s.lost[0], k) + s.lost[1..], inFlight := s.inFlight + [FirstPart(s.lost[0], k)])
  }

  // ---------------------------------------------------------------- frames partition what was sent

  function Covers(f: StreamFrame, x: nat): nat {
    if f.offset <= x < f.End() then 1 else 0
  }

  /** In how many of the frames octet x is. */
  function Count(fs: seq<StreamFrame>, x: nat): nat {
    if fs == [] then 0 else Covers(fs[0], x) + Count(fs[1..], x)
  }

  function Fins(fs: seq<StreamFrame>): nat {
    if fs == [] then 0 else (if fs[0].fin then 1 else 0) + Fins(fs[1..])
  }

  /** The frame holds the octets that were written at its offset, and a FIN only at the very end. */
  predicate Carries(s: Sending, f: StreamFrame) {
    && f.End() <= s.sent <= |s.written|
    && f.data == s.written[f.offset..f.End()]
    && (f.fin ==> s.finSent && f.End() == |s.written|)
    && (f.data == [] ==> f.fin)
  }

  ghost predicate AllCarry(s: Sending, fs: seq<StreamFrame>) {
    forall i :: 0 <= i < |fs| ==> Carries(s, fs[i])
  }

  ghost predicate Partition(fs: seq<StreamFrame>, end: nat) {
    forall x: nat :: Count(fs, x) == if x < end then 1 else 0
  }

  ghost predicate Invariant(s: Sending) {
    && s.sent <= |s.written|
    && (s.finSent ==> s.closed && s.sent == |s.written|)
    && AllCarry(s, s.acked) && AllCarry(s, s.inFlight) && AllCarry(s, s.lost)
    && Partition(s.Frames(), s.sent)
    && Fins(s.Frames()) == (if s.finSent then 1 else 0)
  }

  function Initial(): Sending { Sending([], 0, false, false, [], [], []) }

  lemma InitialIsInvariant()
    ensures Invariant(Initial())
  {
    var s := Initial();
    assert s.Frames() == [];
  }

  lemma {:induction false} CountConcat(a: seq<StreamFrame>, b: seq<StreamFrame>, x: nat)
    ensures Count(a + b, x) == Count(a, x) + Count(b, x)
  {
    if a == [] {
      assert a + b == b;
    } else {
      assert (a + b)[1..] == a[1..] + b;
      CountConcat(a[1..], b, x);
    }
  }

  lemma {:induction false} FinsConcat(a: seq<StreamFrame>, b: seq<StreamFrame>)
    ensures Fins(a + b) == Fins(a) + Fins(b)
  {
    if a == [] {
      assert a + b == b;
    } else {
      assert (a + b)[1..] == a[1..] + b;
      FinsConcat(a[1..], b);
    }
  }

  lemma CountWithout(fs: seq<StreamFrame>, i: nat, x: nat)
    requires i < |fs|
    ensures Count(fs, x) == Count(Without(fs, i), x) + Covers(fs[i], x)
  {
    hide Count;
    assert fs == fs[..i] + ([fs[i]] + fs[i + 1..]);
    CountConcat(fs[..i], [fs[i]] + fs[i + 1..], x);
    CountConcat([fs[i]], fs[i + 1..], x);
    CountConcat(fs[..i], fs[i + 1..], x);
    CountOne(fs[i], x);
  }

  lemma CountOne(f: StreamFrame, x: nat)
    ensures Count([f], x) == Covers(f, x) && Fins([f]) == if f.fin then 1 else 0
  {
    assert [f][1..] == [];
  }

  lemma FinsWithout(fs: seq<StreamFrame>, i: nat)
    requires i < |fs|
    ensures Fins(fs) == Fins(Without(fs, i)) + if fs[i].fin then 1 else 0
  {
    hide Fins;
    assert fs == fs[..i] + ([fs[i]] + fs[i + 1..]);
    FinsConcat(fs[..i], [fs[i]] + fs[i + 1..]);
    FinsConcat([fs[i]], fs[i + 1..]);
    FinsConcat(fs[..i], fs[i + 1..]);
    CountOne(fs[i], 0);
  }

  /** The two totals, part by part. */
  lemma Totals(s: Sending, x: nat)
    ensures Count(s.Frames(), x) == Count(s.acked, x) + Count(s.inFlight, x) + Count(s.lost, x)
    ensures Fins(s.Frames()) == Fins(s.acked) + Fins(s.inFlight) + Fins(s.lost)
  {
    CountConcat(s.acked + s.inFlight, s.lost, x);
    CountConcat(s.acked, s.inFlight, x);
    FinsConcat(s.acked + s.inFlight, s.lost);
    FinsConcat(s.acked, s.inFlight);
  }

  lemma PartsCover(f: StreamFrame, k: nat, x: nat)
    ensures Covers(FirstPart(f, k), x) + Count(SecondPart(f, k), x) == Covers(f, x)
    ensures Fins([FirstPart(f, k)]) + Fins(SecondPart(f, k)) == if f.fin then 1 else 0
  {
    CountOne(FirstPart(f, k), x);
    if k < |f.data| {
      CountOne(SecondPart(f, k)[0], x);
    }
  }

  lemma PartsCarry(s: Sending, f: StreamFrame, k: nat)
    requires Carries(s, f) && (0 < k || f.data == [])
    ensures Carries(s, FirstPart(f, k)) && AllCarry(s, SecondPart(f, k))
  {
    if k < |f.data| {
      SliceOfSlice(s.written, f.offset, f.End(), 0, k);
      SliceOfSlice(s.written, f.offset, f.End(), k, |f.data|);
    }
  }

  /** What a step adds to the frames, counted at octet x. */
  lemma StepCounts(s: Sending, step: Step, x: nat)
    requires Enabled(s, step)
    ensures var s' := Apply(s, step);
            && Count(s'.Frames(), x) ==
                 Count(s.Frames(), x) + (if step.Emit? then Covers(NewFrame(s, step.n, step.fin), x) else 0)
            && Fins(s'.Frames()) == Fins(s.Frames()) + if step.Emit? && step.fin then 1 else 0
  {
    hide Count, Fins, Covers, Without, FirstPart, SecondPart;
    var s' := Apply(s, step);
    Totals(s, x);
    Totals(s', x);
    match step {
      case Accept(_) =>
      case Close =>
      case Emit(n, fin) =>
        var f := NewFrame(s, n, fin);
        CountConcat(s.inFlight, [f], x);
        FinsConcat(s.inFlight, [f]);
        CountOne(f, x);
      case Ack(i) =>
        MoveCounts(s.inFlight, i, s.acked, x);
      case Lose(i) =>
        MoveCounts(s.inFlight, i, s.lost, x);
      case Resend(k) =>
        ResendCounts(s, k, x);
    }
  }

  lemma MoveCounts(from: seq<StreamFrame>, i: nat, to: seq<StreamFrame>, x: nat)
    requires i < |from|
    ensures Count(from, x) + Count(to, x) == Count(Without(from, i), x) + Count(to + [from[i]], x)
    ensures Fins(from) + Fins(to) == Fins(Without(from, i)) + Fins(to + [from[i]])
  {
    hide Count, Fins, Covers, Without;
    CountWithout(from, i, x);
    FinsWithout(from, i);
    CountConcat(to, [from[i]], x);
    FinsConcat(to, [from[i]]);
    CountOne(from[i], x);
  }

  lemma ResendCounts(s: Sending, k: nat, x: nat)
    requires |s.lost| > 0
    ensures var f := s.lost[0];
            && Count(s.lost, x) + Count(s.inFlight, x)
               == Count(SecondPart(f, k) + s.lost[1..], x) + Count(s.inFlight + [FirstPart(f, k)], x)
            && Fins(s.lost) + Fins(s.inFlight) ==
                 Fins(SecondPart(f, k) + s.lost[1..]) + Fins(s.inFlight + [FirstPart(f, k)])
  {
    hide FirstPart, SecondPart, Covers;
    var f := s.lost[0];
    var a, b := FirstPart(f, k), SecondPart(f, k);
    PartsCover(f, k, x);
    CountConcat(b, s.lost[1..], x);
    FinsConcat(b, s.lost[1..]);
    CountConcat(s.inFlight, [a], x);
    FinsConcat(s.inFlight, [a]);
    CountOne(a, x);
  }

  /** Frames keep carrying their octets while more are written or sent. */
  lemma CarryOn(s: Sending, s': Sending, fs: seq<StreamFrame>)
    requires AllCarry(s, fs) && s.written <= s'.written && s.sent <= s'.sent <= |s'.written|
    requires s.finSent ==> s'.finSent && s'.written == s.written
    ensures AllCarry(s', fs)
  {
    forall i | 0 <= i < |fs| ensures Carries(s', fs[i]) {
      var f := fs[i];
      assert Carries(s, f);
      assert s'.written[f.offset..f.End()] == s.written[f.offset..f.End()];
    }
  }

  /** Every step keeps the frames a partition of what was sent, with the right octets. */
  lemma StepKeepsInvariant(s: Sending, step: Step)
    requires Invariant(s) && Enabled(s, step)
    ensures Invariant(Apply(s, step))
  {
    hide Count, Fins, Covers, Carries;
    var s' := Apply(s, step);
    CarryOn(s, s', s.acked);
    CarryOn(s, s', s.inFlight);
    CarryOn(s, s', s.lost);
    forall x: nat ensures Count(s'.Frames(), x) == if x < s'.sent then 1 else 0 {
      StepCounts(s, step, x);
      if step.Emit? {
        EmitCovers(s, step.n, step.fin, x);
      }
    }
    StepCounts(s, step, 0);
    match step {
      case Emit(n, fin) => EmitCarries(s, n, fin);
      case Resend(k) => assert Carries(s, s.lost[0]); CarryMeans(s, s.lost[0]); PartsCarry(s, s.lost[0], k);
        ResendCarries(s, s', k);
      case _ =>
    }
  }

  lemma CarryMeans(s: Sending, f: StreamFrame)
    requires Carries(s, f)
    ensures f.data == [] ==> f.fin
  {
  }

  lemma EmitCovers(s: Sending, n: nat, fin: bool, x: nat)
    requires s.sent + n <= |s.written|
    ensures Covers(NewFrame(s, n, fin), x) == if s.sent <= x < s.sent + n then 1 else 0
  {
  }

  lemma EmitCarries(s: Sending, n: nat, fin: bool)
    requires Enabled(s, Emit(n, fin))
    ensures Carries(Apply(s, Emit(n, fin)), NewFrame(s, n, fin))
  {
  }

  lemma ResendCarries(s: Sending, s': Sending, k: nat)
    requires Enabled(s, Resend(k)) && s' == Apply(s, Resend(k))
    requires Carries(s, FirstPart(s.lost[0], k)) && AllCarry(s, SecondPart(s.lost[0], k))
    requires AllCarry(s', s.inFlight) && AllCarry(s', s.lost)
    ensures AllCarry(s', s'.inFlight) && AllCarry(s', s'.lost)
  {
    var a, b := FirstPart(s.lost[0], k), SecondPart(s.lost[0], k);
    assert Carries(s', a);
    forall i | 0 <= i < |s'.lost| ensures Carries(s', s'.lost[i]) {
      if i < |b| {
        assert Carries(s, b[i]);
      } else {
        assert s'.lost[i] == s.lost[1 + i - |b|];
      }
    }
  }

  /**
   Once nothing is in flight or lost and the FIN is out, every octet and the FIN have been acknowledged, once each.
   */
  lemma DrainedMeansAcknowledged(s: Sending)
    requires Invariant(s) && s.finSent && s.inFlight == [] && s.lost == []
    ensures Partition(s.acked, |s.written|) && Fins(s.acked) == 1
  {
    assert s.Frames() == s.acked;
  }
}
