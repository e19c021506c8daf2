/**
 The outgoing streams map: what each section under its lock does to its fields, to the channels and to the callers.
 */
module OutgoingStreamsMaps {
  import opened Common
  import opened OutgoingStreams

  /** How a call of OpenStream or OpenStreamSync goes on. */
  datatype Outcome = Opened(id: int) | LimitReached | Failed | MustWait

  class OutgoingStreamsMap {
    const first: int
    var streams: set<int>
    var openQueue: seq<nat>
    var nextStream: int
    var maxStream: int
    var blockedSent: bool
    var closed: bool
    /** The limits of the STREAMS_BLOCKED frames queued so far. */
    var blockedFrames: seq<int>
    /** The callers' channels: which hold a token, and which are closed. */
    var tokens: set<nat>
    var closedChans: set<nat>
    var arrivals: nat

    ghost var waiting: set<nat>
    ghost var awake: set<nat>
    ghost var cancelling: set<nat>
    ghost var log: seq<nat>

    ghost function View(): State
      reads this
    {
      State(first, nextStream, maxStream, blockedSent, openQueue, closed, streams,
            tokens, closedChans, waiting, awake, cancelling, arrivals, log, blockedFrames)
    }

    ghost predicate Valid()
      reads this
    {
      Invariant(View())
    }

    constructor (first: int)
      ensures Valid() && View() == Initial(first)
    {
      this.first := first;
      streams, openQueue, nextStream, maxStream, blockedSent, closed := {}, [], first, -1, false, false;
      blockedFrames, tokens, closedChans, arrivals := [], {}, {}, 0;
      waiting, awake, cancelling, log := {}, {}, {}, [];
      new;
      InitialIsInvariant(first);
    }

    method OpenNext(caller: nat) returns (id: int)
      modifies this`streams, this`nextStream, this`log
      ensures id == old(nextStream) && View() == Open(old(View()), caller)
    {
      id := nextStream;
      streams := streams + {nextStream};
      nextStream := nextStream + 4;
      log := log + [caller];
    }

    method MaybeSendBlockedFrame()
      modifies this`blockedSent, this`blockedFrames
      ensures View() == MaybeSendBlocked(old(View()))
    {
      if blockedSent {
        return;
      }
      blockedFrames := blockedFrames + [maxStream];
      blockedSent := true;
    }

    method MaybeUnblockOpenSync()
      modifies this`tokens
      ensures View() == MaybeUnblock(old(View()))
    {
      if |openQueue| == 0 {
        return;
      }
      if nextStream > maxStream {
        return;
      }
      tokens := tokens + {openQueue[0]};
    }

    /** Never overtakes callers that wait. */
    method OpenStream() returns (r: Outcome)
      requires Valid()
      modifies this
      ensures Valid() && View() == Apply(old(View()), Step.OpenStream)
      ensures r.Opened? <==> !closed && old(openQueue == [] && nextStream <= maxStream)
      ensures r.Opened? ==> r.id == old(nextStream) <= maxStream && r.id in streams
    {
      hide Invariant, Open, MaybeSendBlocked;
      StepKeepsInvariant(View(), Step.OpenStream);
      var caller := arrivals;
      arrivals := arrivals + 1;
      if closed {
        return Failed;
      }
      if |openQueue| > 0 || nextStream > maxStream {
        MaybeSendBlockedFrame();
        BlockedCommutes(old(View()));
        return LimitReached;
      }
      var id := OpenNext(caller);
      OpenCommutes(old(View()), caller);
      return Opened(id);
    }

    /** The first section of OpenStreamSync. A caller that must wait is the last in the queue. */
    method BeginOpenSync(ctxErr: bool) returns (r: Outcome, caller: nat)
      requires Valid()
      modifies this
      ensures Valid() && View() == Apply(old(View()), OpenSync(ctxErr)) && caller == old(arrivals)
      ensures r.Opened? ==> r.id == old(nextStream) <= maxStream && r.id in streams
      ensures r.MustWait? ==> openQueue == old(openQueue) + [caller] && caller in waiting
      ensures !r.LimitReached? && (r.Failed? <==> closed || ctxErr)
    {
      hide Invariant, Open, MaybeSendBlocked;
      StepKeepsInvariant(View(), OpenSync(ctxErr));
      caller := arrivals;
      arrivals := arrivals + 1;
      if closed || ctxErr {
        return Failed, caller;
      }
      if |openQueue| == 0 && nextStream <= maxStream {
        var id := OpenNext(caller);
        OpenCommutes(old(View()), caller);
        return Opened(id), caller;
      }
      openQueue := openQueue + [caller];
      waiting := waiting + {caller};
      MaybeSendBlockedFrame();
      BlockedCommutes(Enqueue(old(View())));
      return MustWait, caller;
    }

    /** The context of a caller that waited has ended. */
    method CancelWait(w: nat)
      requires Valid() && w in cancelling
      modifies this
      ensures Valid() && View() == Apply(old(View()), Cancel(w))
    {
      hide Invariant, MaybeUnblock, Remove;
      StepKeepsInvariant(View(), Cancel(w));
      openQueue := Remove(openQueue, w);
      awake, cancelling := awake - {w}, cancelling - {w};
      MaybeUnblockOpenSync();
    }

    /** A caller that waited has received from its channel. It can only be the one at the front. */
    method ResumeWait(w: nat, ctxErr: bool) returns (r: Outcome)
      requires Valid() && w in awake
      modifies this
      ensures Valid() && View() == Apply(old(View()), Resume(w, ctxErr))
      ensures r.Opened? <==> !closed && !ctxErr && old(nextStream <= maxStream)
      ensures r.Opened? ==> r.id == old(nextStream) <= maxStream && old(openQueue) == [w] + old(openQueue)[1..]
    {
      hide Invariant, MaybeUnblock, Remove, Open;
      StepKeepsInvariant(View(), Resume(w, ctxErr));
      if closed {
        awake := awake - {w};
        return Failed;
      }
      if ctxErr {
        openQueue := Remove(openQueue, w);
        awake, cancelling := awake - {w}, cancelling - {w};
        MaybeUnblockOpenSync();
        return Failed;
      }
      if nextStream > maxStream {
        awake, waiting := awake - {w}, waiting + {w};
        return MustWait;
      }
      ServeKeeps(View(), w);
      AwakeIsFront(View(), w);
      var id := OpenNext(w);
      OpenShape(old(View()), w);
      openQueue := openQueue[1..];
      awake := awake - {w};
      MaybeUnblockOpenSync();
      return Opened(id);
    }

    method SetMaxStream(id: int)
      requires Valid()
      modifies this
      ensures Valid() && View() == Apply(old(View()), Step.SetMaxStream(id)) && maxStream == Max(old(maxStream), id)
    {
      hide Invariant, MaybeUnblock;
      StepKeepsInvariant(View(), Step.SetMaxStream(id));
      if id <= maxStream {
        return;
      }
      maxStream := id;
      blockedSent := false;
      if maxStream < nextStream - 4 + 4 * |openQueue| {
        MaybeSendBlockedFrame();
      }
      ghost var s := View();
      MaybeUnblockOpenSync();
      UnblockKeepsMax(s);
    }

    method CloseWithError()
      requires Valid()
      modifies this`closed, this`closedChans, this`openQueue
      ensures Valid() && View() == Apply(old(View()), Close)
    {
      hide Invariant;
      StepKeepsInvariant(View(), Close);
      closed := true;
      closedChans := closedChans + (set w | w in openQueue);
      openQueue := [];
    }

    method DeleteStream(id: int) returns (ok: bool)
      requires Valid()
      modifies this`streams
      ensures Valid() && View() == Apply(old(View()), Step.DeleteStream(id)) && ok == (id in old(streams))
    {
      hide Invariant;
      StepKeepsInvariant(View(), Step.DeleteStream(id));
      if id !in streams {
        assert streams - {id} == streams;
        return false;
      }
      streams := streams - {id};
      return true;
    }
  }

  lemma BlockedCommutes(s: State)
    ensures MaybeSendBlocked(Arrive(s)) == Arrive(MaybeSendBlocked(s))
  {
  }

  lemma OpenCommutes(s: State, caller: nat)
    ensures Open(Arrive(s), caller) == Arrive(Open(s, caller))
    ensures s.next in Open(s, caller).streams
  {
  }

  lemma OpenShape(s: State, w: nat)
    ensures var o := Open(s, w);
            o.queue == s.queue && o.awake == s.awake && o.max == s.max
  {
  }

  lemma UnblockKeepsMax(s: State)
    ensures MaybeUnblock(s).max == s.max
  {
  }

  lemma AwakeIsFront(s: State, w: nat)
    requires Invariant(s) && !s.closed && w in s.awake
    ensures s.queue != [] && s.queue[0] == w && s.queue == [w] + s.queue[1..]
  {
  }
}
