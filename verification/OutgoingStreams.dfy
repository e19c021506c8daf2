/**
 Opening streams under the peer's limit (section 4.6 of RFC 9000): callers that must wait are served in order of
 arrival.
 */
module OutgoingStreams {
  import opened Common

  /**
   Callers are numbered as they arrive; a caller that waits has a channel of its own under that number.
   waiting, awake and cancelling hold the callers that wait on their channel, that have received from it,
   and that have seen their context end; the last two still have to take the lock.
   log holds the callers that got a stream, and blocked the limits a STREAMS_BLOCKED frame was queued for.
   */
  datatype State = State(
    first: int, next: int, max: int, blockedSent: bool, queue: seq<nat>, closed: bool, streams: set<int>,
    tokens: set<nat>, closedChans: set<nat>, waiting: set<nat>, awake: set<nat>, cancelling: set<nat>,
    arrivals: nat, log: seq<nat>, blocked: seq<int>)

  datatype Step =
    | OpenStream
    | OpenSync(ctxErr: bool)
    | Wake(w: nat)
    | CtxDone(w: nat)
    | Cancel(w: nat)
    | Resume(w: nat, ctxErr: bool)
    | SetMaxStream(id: int)
    | Close
    | DeleteStream(id: int)

  function Initial(first: int): State {
    State(first, first, -1, false, [], false, {}, {}, {}, {}, {}, {}, 0, [], [])
  }

  // ---------------------------------------------------------------- what runs under the lock

  /** The caller gets the next stream. */
  function Open(s: State, caller: nat): State {
    s.(streams := s.streams + {s.next}, next := s.next + 4, log := s.log + [caller])
  }

  function MaybeSendBlocked(s: State): State {
    if s.blockedSent then s else s.(blockedSent := true, blocked := s.blocked + [s.max])
  }

  /** Wakes the caller at the front, if it can be served. A channel holds at most one token. */
  function MaybeUnblock(s: State): State {
    if s.queue == [] || s.next > s.max then s else s.(tokens := s.tokens + {s.queue[0]})
  }

  function Remove(q: seq<nat>, w: nat): seq<nat> {
    if q == [] then [] else if q[0] == w then Remove(q[1..], w) else [q[0]] + Remove(q[1..], w)
  }

  function Arrive(s: State): State { s.(arrivals := s.arrivals + 1) }

  function Enqueue(s: State): State {
    s.(queue := s.queue + [s.arrivals], waiting := s.waiting + {s.arrivals})
  }

  function Leave(s: State, w: nat): State {
    MaybeUnblock(s.(queue := Remove(s.queue, w), awake := s.awake - {w}, cancelling := s.cancelling - {w}))
  }

  function Serve(s: State, w: nat): State {
    var o := Open(s, w);
    MaybeUnblock(o.(queue := if o.queue == [] then [] else o.queue[1..], awake := o.awake - {w}))
  }

  function Raise(s: State, id: int): State {
    if id <= s.max then s
    else
      var r := s.(max := id, blockedSent := false);
      MaybeUnblock(if r.max < r.next - 4 + 4 * |r.queue| then MaybeSendBlocked(r) else r)
  }

  predicate Enabled(s: State, step: Step) {
    match step
    case Wake(w) => w in s.waiting && (w in s.tokens || w in s.closedChans)
    case CtxDone(w) => w in s.waiting
    case Cancel(w) => w in s.cancelling
    case Resume(w, _) => w in s.awake
    case _ => true
  }

  function Apply(s: State, step: Step): State {
    match step
    case OpenStream =>
      if s.closed then Arrive(s)
      else if s.queue != [] || s.next > s.max then Arrive(MaybeSendBlocked(s))
      else Arrive(Open(s, s.arrivals))
    case OpenSync(ctxErr) =>
      if s.closed || ctxErr then Arrive(s)
      else if s.queue == [] && s.next <= s.max then Arrive(Open(s, s.arrivals))
      else Arrive(MaybeSendBlocked(Enqueue(s)))
    case Wake(w) => s.(waiting := s.waiting - {w}, awake := s.awake + {w}, tokens := s.tokens - {w})
    case CtxDone(w) => s.(waiting := s.waiting - {w}, cancelling := s.cancelling + {w})
    case Cancel(w) => Leave(s, w)
    case Resume(w, ctxErr) =>
      if s.closed then s.(awake := s.awake - {w})
      else if ctxErr then Leave(s, w)
      else if s.next > s.max then s.(awake := s.awake - {w}, waiting := s.waiting + {w})
      else Serve(s, w)
    case SetMaxStream(id) => Raise(s, id)
    case Close =>
      s.(closed := true, closedChans := s.closedChans + (set w | w in s.queue), queue := [])
    case DeleteStream(id) => s.(streams := s.streams - {id})
  }

  // ---------------------------------------------------------------- the invariant

  ghost predicate Increasing(q: seq<int>) {
    forall i, j :: 0 <= i < j < |q| ==> q[i] < q[j]
  }

  /** Callers are served in order of arrival, and those that wait are behind those that were served. */
  ghost predicate InOrder(s: State) {
    && Increasing(s.log) && Increasing(s.queue)
    && (forall i, j :: 0 <= i < |s.log| && 0 <= j < |s.queue| ==> s.log[i] < s.queue[j])
    && (forall i :: 0 <= i < |s.log| ==> s.log[i] < s.arrivals)
    && (forall j :: 0 <= j < |s.queue| ==> s.queue[j] < s.arrivals)
  }

  /** Stream IDs rise by four from the first and never pass the limit. */
  ghost predicate WithinLimit(s: State) {
    && s.next == s.first + 4 * |s.log|
    && (s.log != [] ==> s.next - 4 <= s.max)
    && (forall id :: id in s.streams ==> s.first <= id < s.next && (id - s.first) % 4 == 0)
  }

  /** Who waits, is awake or gives up is in the queue, and only the caller at its front is ever woken. */
  ghost predicate PhasesOk(s: State) {
    && s.waiting !! s.awake !! s.cancelling
    && (forall w :: w in s.queue <==> w in s.waiting + s.awake + s.cancelling)
    && (forall w :: w in s.awake || (w in s.tokens && w in s.queue) ==> s.queue != [] && w == s.queue[0])
    && (forall w :: w in s.tokens ==> w < s.arrivals)
    && s.closedChans == {}
  }

  /** While a stream could be opened, the caller at the front has a token or has left its channel. */
  ghost predicate NoLostWakeup(s: State) {
    s.queue != [] && s.next <= s.max ==> s.queue[0] in s.tokens + s.awake + s.cancelling
  }

  /** STREAMS_BLOCKED goes out once per limit, and has gone out when the limit does not suffice for those who wait. */
  ghost predicate BlockedOk(s: State) {
    && Increasing(s.blocked)
    && (forall i :: 0 <= i < |s.blocked| ==> s.blocked[i] <= s.max)
    && (s.blockedSent <==> s.max in s.blocked)
    && (s.queue != [] && s.max < s.next - 4 + 4 * |s.queue| ==> s.blockedSent)
  }

  ghost predicate Invariant(s: State) {
    && WithinLimit(s) && InOrder(s) && BlockedOk(s)
    && (if s.closed then s.queue == [] && s.waiting <= s.closedChans else PhasesOk(s) && NoLostWakeup(s))
  }

  lemma InitialIsInvariant(first: int)
    ensures Invariant(Initial(first))
  {
  }

  lemma {:induction false} RemoveMembers(q: seq<nat>, w: nat)
    ensures |Remove(q, w)| <= |q|
    ensures forall x :: x in Remove(q, w) <==> x in q && x != w
    ensures q != [] && q[0] != w ==> Remove(q, w) != [] && Remove(q, w)[0] == q[0]
  {
    if q != [] {
      RemoveMembers(q[1..], w);
      assert q == [q[0]] + q[1..];
    }
  }

  lemma {:induction false} RemoveIsIncreasing(q: seq<nat>, w: nat)
    requires Increasing(q)
    ensures Increasing(Remove(q, w))
  {
    if q != [] {
      var rest := Remove(q[1..], w);
      RemoveIsIncreasing(q[1..], w);
      RemoveMembers(q[1..], w);
      forall i | 0 <= i < |rest| ensures q[0] < rest[i] {
        assert rest[i] in q[1..];
      }
    }
  }

  lemma UnblockKeeps(s: State)
    requires WithinLimit(s) && InOrder(s) && BlockedOk(s) && !s.closed && PhasesOk(s)
    ensures Invariant(MaybeUnblock(s))
  {
    if s.queue != [] {
      assert s.queue[0] in s.queue;
    }
  }

  lemma BlockedKeeps(s: State)
    requires Increasing(s.blocked) && (forall i :: 0 <= i < |s.blocked| ==> s.blocked[i] <= s.max)
    requires (s.blockedSent <==> s.max in s.blocked)
    ensures BlockedOk(MaybeSendBlocked(s))
  {
  }

  lemma LeaveKeeps(s: State, w: nat)
    requires Invariant(s) && !s.closed && (w in s.cancelling || w in s.awake)
    ensures Invariant(Leave(s, w))
  {
    RemoveMembers(s.queue, w);
    RemoveIsIncreasing(s.queue, w);
    var r := s.(queue := Remove(s.queue, w), awake := s.awake - {w}, cancelling := s.cancelling - {w});
    assert w in s.queue;
    assert forall j :: 0 <= j < |r.queue| ==> r.queue[j] in r.queue;
    assert forall x :: x in s.queue ==> x < s.arrivals;
    assert InOrder(r) by {
      forall i, j | 0 <= i < |r.log| && 0 <= j < |r.queue| ensures r.log[i] < r.queue[j] {
        assert r.queue[j] in s.queue;
      }
    }
    UnblockKeeps(r);
  }

  lemma ServeKeeps(s: State, w: nat)
    requires Invariant(s) && !s.closed && w in s.awake && s.next <= s.max
    ensures Invariant(Serve(s, w)) && s.queue[0] == w
  {
    assert s.queue[0] == w;
    var o := Open(s, w);
    var r := o.(queue := o.queue[1..], awake := o.awake - {w});
    assert forall x :: x in s.queue <==> x == w || x in r.queue;
    UnblockKeeps(r);
  }

  lemma RaiseKeepsBlocked(s: State, id: int)
    requires Increasing(s.blocked) && (forall i :: 0 <= i < |s.blocked| ==> s.blocked[i] <= s.max) && id > s.max
    ensures var r := s.(max := id, blockedSent := false);
            BlockedOk(if r.max < r.next - 4 + 4 * |r.queue| then MaybeSendBlocked(r) else r)
  {
    var r := s.(max := id, blockedSent := false);
    assert id !in s.blocked;
    BlockedKeeps(r);
  }

  lemma RaiseKeeps(s: State, id: int)
    requires Invariant(s)
    ensures Invariant(Raise(s, id))
  {
    if id > s.max {
      var r := s.(max := id, blockedSent := false);
      var b := if r.max < r.next - 4 + 4 * |r.queue| then MaybeSendBlocked(r) else r;
      RaiseKeepsBlocked(s, id);
      hide BlockedOk;
      if !s.closed {
        UnblockKeeps(b);
      }
    }
  }

  lemma EnqueueKeeps(s: State)
    requires Invariant(s) && !s.closed && (s.queue != [] || s.next > s.max)
    ensures Invariant(Arrive(MaybeSendBlocked(Enqueue(s))))
  {
    var e := Enqueue(s);
    BlockedKeeps(e);
    assert s.arrivals !in s.queue;
    assert forall x :: x in e.queue <==> x == s.arrivals || x in s.queue;
  }

  lemma OpenStreamKeeps(s: State)
    requires Invariant(s)
    ensures Invariant(Apply(s, OpenStream))
  {
    if !s.closed && (s.queue != [] || s.next > s.max) {
      BlockedKeeps(s);
    }
  }

  lemma WakeKeeps(s: State, w: nat)
    requires Invariant(s) && Enabled(s, Wake(w))
    ensures Invariant(Apply(s, Wake(w)))
  {
    assert !s.closed ==> w in s.queue;
  }

  lemma CloseKeeps(s: State)
    requires Invariant(s)
    ensures Invariant(Apply(s, Close))
  {
  }

  lemma LeaveClosed(s: State, w: nat)
    requires Invariant(s) && s.closed
    ensures Invariant(Leave(s, w)) && Invariant(s.(awake := s.awake - {w}))
  {
  }

  lemma ArriveKeeps(s: State)
    requires Invariant(s)
    ensures Invariant(Arrive(s))
  {
  }

  lemma CtxDoneKeeps(s: State, w: nat)
    requires Invariant(s) && w in s.waiting
    ensures Invariant(Apply(s, CtxDone(w)))
  {
  }

  lemma WaitOnKeeps(s: State, w: nat)
    requires Invariant(s) && !s.closed && w in s.awake && s.next > s.max
    ensures Invariant(s.(awake := s.awake - {w}, waiting := s.waiting + {w}))
  {
  }

  lemma DeleteKeeps(s: State, id: int)
    requires Invariant(s)
    ensures Invariant(s.(streams := s.streams - {id}))
  {
  }

  /** Every step of every caller, in any interleaving, keeps the invariant. */
  lemma StepKeepsInvariant(s: State, step: Step)
    requires Invariant(s) && Enabled(s, step)
    ensures Invariant(Apply(s, step))
  {
    hide Remove, MaybeUnblock, MaybeSendBlocked, Leave, Serve, Raise, Invariant, Enqueue, Open, Arrive;
    match step {
      case OpenStream => OpenStreamKeeps(s);
      case OpenSync(ctxErr) =>
        if s.closed || ctxErr {
          ArriveKeeps(s);
        } else if s.queue == [] && s.next <= s.max {
          OpenStreamKeeps(s);
        } else {
          EnqueueKeeps(s);
        }
      case Wake(w) => WakeKeeps(s, w);
      case CtxDone(w) => CtxDoneKeeps(s, w);
      case Cancel(w) =>
        if !s.closed {
          LeaveKeeps(s, w);
        } else {
          LeaveClosed(s, w);
        }
      case Resume(w, ctxErr) =>
        if s.closed {
          LeaveClosed(s, w);
        } else if ctxErr {
          LeaveKeeps(s, w);
        } else if s.next <= s.max {
          ServeKeeps(s, w);
        } else {
          WaitOnKeeps(s, w);
        }
      case SetMaxStream(id) => RaiseKeeps(s, id);
      case Close => CloseKeeps(s);
      case DeleteStream(id) => DeleteKeeps(s, id);
    }
  }

  // ---------------------------------------------------------------- every run

  predicate IsRun(s: State, steps: seq<Step>)
    decreases |steps|
  {
    steps == [] || (Enabled(s, steps[0]) && IsRun(Apply(s, steps[0]), steps[1..]))
  }

  function Final(s: State, steps: seq<Step>): State
    requires IsRun(s, steps)
    decreases |steps|
  {
    if steps == [] then s else Final(Apply(s, steps[0]), steps[1..])
  }

  lemma {:induction false} RunKeepsInvariant(s: State, steps: seq<Step>)
    requires Invariant(s) && IsRun(s, steps)
    ensures Invariant(Final(s, steps))
    decreases |steps|
  {
    hide Invariant, Apply, Enabled;
    if steps != [] {
      StepKeepsInvariant(s, steps[0]);
      RunKeepsInvariant(Apply(s, steps[0]), steps[1..]);
    }
  }

  /**
   On every run: callers get streams in order of arrival, the i-th of them stream first + 4i, never past the limit;
   STREAMS_BLOCKED is sent at most once per limit; and no wake-up is lost.
   */
  lemma StreamsAreOpenedInOrder(first: int, steps: seq<Step>)
    requires IsRun(Initial(first), steps)
    ensures var s := Final(Initial(first), steps);
            && Increasing(s.log) && Increasing(s.blocked)
            && s.next == s.first + 4 * |s.log| && (s.log != [] ==> s.next - 4 <= s.max)
            && (!s.closed && s.queue != [] && s.next <= s.max ==> s.queue[0] in s.tokens + s.awake + s.cancelling)
  {
    InitialIsInvariant(first);
    RunKeepsInvariant(Initial(first), steps);
  }

  /**
   While a stream can be opened, the caller at the front of the queue can take a step; and when it resumes,
   it gets the next stream, and the caller behind it is woken if there is a stream for it too.
   */
  lemma FrontCanProceed(s: State)
    requires Invariant(s) && !s.closed && s.queue != [] && s.next <= s.max
    ensures var w := s.queue[0];
            && (Enabled(s, Wake(w)) || Enabled(s, Cancel(w)) || Enabled(s, Resume(w, false)))
            && (Enabled(s, Resume(w, false)) ==>
                  var s' := Apply(s, Resume(w, false));
                  && s'.log == s.log + [w] && s.next in s'.streams && s'.queue == s.queue[1..]
                  && (s'.queue != [] && s'.next <= s'.max ==> s'.queue[0] in s'.tokens))
  {
    assert s.queue[0] in s.queue;
  }

  /** After a close nobody is left waiting for a token: every channel that is waited on has been closed. */
  lemma ClosedWakesEverybody(s: State, w: nat)
    requires Invariant(s) && s.closed && w in s.waiting
    ensures Enabled(s, Wake(w)) && Enabled(Apply(s, Wake(w)), Resume(w, false))
    ensures Apply(Apply(s, Wake(w)), Resume(w, false)).log == s.log
  {
  }

  /** A token is never sent on a closed channel. */
  lemma NoSendOnClosedChannel(s: State)
    requires Invariant(s) && s.queue != []
    ensures s.queue[0] !in s.closedChans
  {
  }
}
