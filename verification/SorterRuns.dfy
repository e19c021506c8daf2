/** What holds of the sorter over every run of pushes and pops. */
module SorterRuns {
  import opened Common
  import opened GapList
  import opened FrameSorting

  datatype Event = PushFrame(data: seq<byte>, offset: nat, doneCb: Option<nat>) | PopFrame

  datatype Frame = Frame(offset: nat, data: seq<byte>)
  {
    predicate Contains(x: nat) { offset <= x < offset + |data| }
  }

  /**
   The sorter, the frames pushed, what was popped, and its callbacks:
   all that were passed in, those invoked by the sorter, and those handed out by pops.
   */
  datatype Trace = Trace(
    s: Sorter, pushed: seq<Frame>, popped: seq<byte>,
    given: multiset<nat>, released: multiset<nat>, handedOut: multiset<nat>)

  ghost predicate Enabled(t: Trace, e: Event) {
    e.PushFrame? ==>
      && |t.s.gaps| > 0 && e.offset + |e.data| < MAX_BYTE_COUNT
      && !Push(t.s, e.data, e.offset, e.doneCb).result.TooManyGaps?
  }

  ghost function Next(t: Trace, e: Event): Trace
    requires Enabled(t, e)
  {
    match e
    case PushFrame(data, offset, doneCb) =>
      var p := Push(t.s, data, offset, doneCb);
      t.(s := p.sorter, pushed := t.pushed + [Frame(offset, data)],
         given := t.given + multiset(CallbackList(doneCb)), released := t.released + multiset(p.released))
    case PopFrame =>
      var p := Pop(t.s);
      if p.entry.None? then t
      else t.(s := p.sorter, popped := t.popped + p.entry.value.data,
              handedOut := t.handedOut + multiset(CallbackList(p.entry.value.doneCb)))
  }

  function Initial(): Trace {
    Trace(Sorter(map[], 0, [Gap(0, MAX_BYTE_COUNT)]), [], [], multiset{}, multiset{}, multiset{})
  }

  /** The offset was in one of the frames pushed. */
  predicate Received(pushed: seq<Frame>, x: nat) {
    exists i :: 0 <= i < |pushed| && pushed[i].Contains(x)
  }

  /** One of the frames pushed has this octet at the offset. */
  predicate IsOctet(pushed: seq<Frame>, x: nat, octet: byte) {
    exists i :: 0 <= i < |pushed| && pushed[i].Contains(x) && pushed[i].data[x - pushed[i].offset] == octet
  }

  /** Every octet of the data comes from a frame, at its own offset. */
  ghost predicate IsFromFrames(pushed: seq<Frame>, offset: nat, data: seq<byte>) {
    forall i :: 0 <= i < |data| ==> IsOctet(pushed, offset + i, data[i])
  }

  ghost predicate OctetsOk(t: Trace) {
    && IsFromFrames(t.pushed, 0, t.popped)
    && forall k :: k in t.s.queue ==> IsFromFrames(t.pushed, k, t.s.queue[k].data)
  }

  /** The gaps are the complement of what was received. */
  ghost predicate GapsAreMissing(t: Trace) {
    forall x: nat :: InGaps(t.s.gaps, x) <==> x < MAX_BYTE_COUNT && !Received(t.pushed, x)
  }

  /** Every callback was invoked, waits in one entry, or was handed out, once. */
  ghost predicate CallbacksConserved(t: Trace, limit: nat) {
    t.given == t.released + Callbacks(t.s.queue, limit) + t.handedOut
  }

  ghost predicate Invariant(t: Trace, limit: nat) {
    Tiled(t.s) && |t.popped| == t.s.readPos && GapsAreMissing(t) && CallbacksConserved(t, limit) && OctetsOk(t)
  }

  lemma InitialIsInvariant(limit: nat)
    ensures Invariant(Initial(), limit)
  {
    var t := Initial();
    assert t.s.gaps[0] == Gap(0, MAX_BYTE_COUNT);
    CallbacksNone(t.s.queue, 0, limit);
  }

  lemma ReceivedMore(pushed: seq<Frame>, f: Frame, x: nat)
    ensures Received(pushed + [f], x) <==> Received(pushed, x) || f.Contains(x)
  {
    var all := pushed + [f];
    if Received(pushed, x) {
      var i :| 0 <= i < |pushed| && pushed[i].Contains(x);
      assert all[i] == pushed[i];
    }
    assert all[|pushed|] == f;
  }

  lemma OctetsMore(pushed: seq<Frame>, f: Frame, offset: nat, data: seq<byte>)
    requires IsFromFrames(pushed, offset, data)
    ensures IsFromFrames(pushed + [f], offset, data)
  {
    var all := pushed + [f];
    forall j | 0 <= j < |data| ensures IsOctet(all, offset + j, data[j]) {
      var x := offset + j;
      assert IsOctet(pushed, x, data[j]);
      var i :| 0 <= i < |pushed| && pushed[i].Contains(x) && pushed[i].data[x - pushed[i].offset] == data[j];
      assert all[i] == pushed[i];
    }
  }

  lemma NewOctets(pushed: seq<Frame>, f: Frame, k: nat, stored: seq<byte>)
    requires f.offset <= k && k + |stored| <= f.offset + |f.data|
    requires stored == Part(f.data, k - f.offset, k - f.offset + |stored|)
    ensures IsFromFrames(pushed + [f], k, stored)
  {
    var all := pushed + [f];
    assert all[|pushed|] == f;
    forall j | 0 <= j < |stored| ensures IsOctet(all, k + j, stored[j]) {
      assert f.Contains(k + j) && f.data[k + j - f.offset] == stored[j];
    }
  }

  /** Overlapping frames may disagree; what is stored is from one of them, octet by octet. */
  lemma PushKeepsOctets(t: Trace, e: Event)
    requires Tiled(t.s) && OctetsOk(t) && e.PushFrame? && Enabled(t, e)
    ensures OctetsOk(Next(t, e))
  {
    hide Push, Tiled, IsFromFrames, InGaps;
    PushIsCorrect(t.s, e.data, e.offset, e.doneCb);
    var t', f := Next(t, e), Frame(e.offset, e.data);
    OctetsMore(t.pushed, f, 0, t.popped);
    forall k | k in t'.s.queue ensures IsFromFrames(t'.pushed, k, t'.s.queue[k].data) {
      var stored := t'.s.queue[k].data;
      assert FromOldOrNew(t.s.queue, e.data, e.offset, k, stored);
      if k in t.s.queue && stored == t.s.queue[k].data {
        OctetsMore(t.pushed, f, k, stored);
      } else {
        NewOctets(t.pushed, f, k, stored);
      }
    }
  }

  lemma PopKeepsOctets(t: Trace)
    requires Tiled(t.s) && |t.popped| == t.s.readPos && OctetsOk(t)
    ensures OctetsOk(Next(t, PopFrame))
  {
    hide Tiled, IsOctet;
    PopIsCorrect(t.s);
    if t.s.readPos in t.s.queue {
      var data := t.s.queue[t.s.readPos].data;
      assert IsFromFrames(t.pushed, t.s.readPos, data);
      var popped := t.popped + data;
      forall x | 0 <= x < |popped| ensures IsOctet(t.pushed, 0 + x, popped[x]) {
        if x >= |t.popped| {
          assert popped[x] == data[x - t.s.readPos];
        } else {
          assert popped[x] == t.popped[x];
        }
      }
    }
  }

  lemma PushKeeps(t: Trace, e: Event, limit: nat)
    requires MAX_BYTE_COUNT <= limit && Invariant(t, limit) && e.PushFrame? && Enabled(t, e)
    ensures Invariant(Next(t, e), limit)
  {
    PushKeepsOctets(t, e);
    hide Push, Tiled, Callbacks, Received, OctetsOk;
    PushIsCorrect(t.s, e.data, e.offset, e.doneCb);
    PushReleasesOnce(t.s, e.data, e.offset, e.doneCb, limit);
    forall x: nat
      ensures Received(Next(t, e).pushed, x) <==> Received(t.pushed, x) || e.offset <= x < e.offset + |e.data|
    {
      ReceivedMore(t.pushed, Frame(e.offset, e.data), x);
    }
    var t' := Next(t, e);
    var p := Push(t.s, e.data, e.offset, e.doneCb);
    Rearrange(t.released, Callbacks(t.s.queue, limit), t.handedOut, multiset(CallbackList(e.doneCb)),
              multiset(p.released), Callbacks(p.sorter.queue, limit));
    assert CallbacksConserved(t', limit);
    assert PushOutcome(t.s, e.data, e.offset, t'.s);
    assert GapsAreMissing(t');
  }

  lemma Rearrange(a: multiset<nat>, b: multiset<nat>, c: multiset<nat>, d: multiset<nat>, e: multiset<nat>,
                  f: multiset<nat>)
    requires e + f == b + d
    ensures a + b + c + d == a + e + f + c
  {
    calc {
      a + b + c + d;
      a + (b + d) + c;
      a + (e + f) + c;
      a + e + f + c;
    }
  }

  lemma PopKeeps(t: Trace, limit: nat)
    requires MAX_BYTE_COUNT <= limit && Invariant(t, limit)
    ensures Invariant(Next(t, PopFrame), limit)
  {
    PopKeepsOctets(t);
    hide Tiled, Callbacks, Received, OctetsOk;
    PopIsCorrect(t.s);
    PopConserves(t.s, limit);
  }

  ghost predicate IsRun(t: Trace, es: seq<Event>)
    decreases |es|
  {
    es == [] || (Enabled(t, es[0]) && IsRun(Next(t, es[0]), es[1..]))
  }

  ghost function Final(t: Trace, es: seq<Event>): Trace
    requires IsRun(t, es)
    decreases |es|
  {
    if es == [] then t else Final(Next(t, es[0]), es[1..])
  }

  lemma {:induction false} RunKeepsInvariant(t: Trace, es: seq<Event>, limit: nat)
    requires MAX_BYTE_COUNT <= limit && Invariant(t, limit) && IsRun(t, es)
    ensures Invariant(Final(t, es), limit)
    decreases |es|
  {
    hide Invariant, Enabled, Next;
    if es != [] {
      match es[0] {
        case PushFrame(_, _, _) => PushKeeps(t, es[0], limit);
        case PopFrame => PopKeeps(t, limit);
      }
      RunKeepsInvariant(Next(t, es[0]), es[1..], limit);
    }
  }

  /**
   On every run of pushes and pops: entries and gaps tile what is not read yet, the gaps are exactly the offsets that
   were never received, every octet popped is that of some frame pushed with that offset, also where frames disagree,
   and every callback was invoked, is in an entry or was handed out, exactly once.
   */
  lemma SorterIsSound(es: seq<Event>, limit: nat)
    requires MAX_BYTE_COUNT <= limit && IsRun(Initial(), es)
    ensures var t := Final(Initial(), es);
            && Tiled(t.s) && |t.popped| == t.s.readPos
            && (forall x: nat :: InGaps(t.s.gaps, x) <==> x < MAX_BYTE_COUNT && !Received(t.pushed, x))
            && (forall x: nat :: x < |t.popped| ==> IsOctet(t.pushed, x, t.popped[x]))
            && t.given == t.released + Callbacks(t.s.queue, limit) + t.handedOut
  {
    hide Enabled, Next, Tiled;
    InitialIsInvariant(limit);
    RunKeepsInvariant(Initial(), es, limit);
  }
}
