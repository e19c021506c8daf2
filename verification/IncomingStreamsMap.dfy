/** The incoming streams map, updated in place; and who waits for its streams. */
module IncomingStreamsMaps {
  import opened Common
  import opened IncomingStreams

  /** The streams up to a given ID are opened one after the other. */
  lemma {:induction false} OpenUpToSnoc(m: map<int, bool>, from: int, id: int)
    requires from <= id && (id - from) % 4 == 0
    ensures OpenUpTo(m, from, id) == OpenUpTo(m, from, id - 4)[id := false]
    decreases id - from
  {
    if from < id {
      OpenUpToSnoc(m[from := false], from + 4, id);
    } else {
      assert OpenUpTo(m, from, id) == OpenUpTo(m[from := false], from + 4, id);
    }
  }

  class IncomingStreamsMap {
    const first: int
    const maxNumStreams: nat
    var streams: map<int, bool>
    var nextStreamToAccept: int
    var nextStreamToOpen: int
    var maxStream: int
    /** The limits of the MAX_STREAMS frames queued so far. */
    var advertised: seq<int>

    ghost var accepted: seq<int>
    ghost var deleted: nat

    ghost function View(): State
      reads this
    {
      State(first, nextStreamToAccept, nextStreamToOpen, maxStream, maxNumStreams, streams,
            accepted, deleted, advertised)
    }

    ghost predicate Valid()
      reads this
    {
      Invariant(View())
    }

    constructor (first: int, maxStreams: nat)
      requires 0 <= first < 4 && InitialLimit(first, maxStreams) <= MAX_STREAM_ID
      ensures Valid() && View() == Initial(first, maxStreams)
    {
      this.first, maxNumStreams := first, maxStreams;
      streams, nextStreamToAccept, nextStreamToOpen := map[], first, first;
      maxStream := if maxStreams == 0 then -1 else first + 4 * (maxStreams - 1);
      advertised, accepted, deleted := [], [], 0;
      new;
      InitialIsInvariant(first, maxStreams);
    }

    /** The stream, if it is open; it is opened with all before it if the limit allows. */
    method GetOrOpen(id: int) returns (ok: bool, held: bool)
      requires Valid() && id >= first && (id - first) % 4 == 0
      modifies this`streams, this`nextStreamToOpen
      ensures Valid() && ok == GetOrOpenStream(old(View()), id).Ok?
      ensures View() == if ok then GetOrOpenStream(old(View()), id).value else old(View())
      ensures ok == (id <= maxStream) && (ok ==> held == (id in streams && !streams[id]))
      ensures ok && old(nextStreamToOpen) <= id ==> held
    {
      hide Invariant, OpenUpTo;
      if id > maxStream {
        return false, false;
      }
      ok := true;
      StepKeepsInvariant(View(), Step.GetOrOpen(id));
      if id < nextStreamToOpen {
        held := id in streams && !streams[id];
        return;
      }
      Aligned(View(), id);
      var newNum := nextStreamToOpen;
      NothingOpened(streams, newNum);
      while newNum <= id
        invariant nextStreamToOpen <= newNum <= id + 4 && (id - newNum) % 4 == 0
        invariant nextStreamToOpen == old(nextStreamToOpen)
        invariant streams == OpenUpTo(old(streams), nextStreamToOpen, newNum - 4)
        decreases id - newNum
      {
        StepBack(id, newNum, nextStreamToOpen);
        OpenUpToSnoc(old(streams), nextStreamToOpen, newNum);
        streams := streams[newNum := false];
        newNum := newNum + 4;
      }
      assert newNum == id + 4;
      OpenUpToSnoc(old(streams), nextStreamToOpen, id);
      nextStreamToOpen := id + 4;
      held := id in streams && !streams[id];
    }

    /** The next stream, if it was opened; if it has finished before, it is deleted now. */
    method AcceptStream() returns (id: Option<int>)
      requires Valid()
      modifies this
      ensures Valid()
      ensures id.Some? <==> old(nextStreamToAccept < nextStreamToOpen)
      ensures id.Some? ==>
                id.value == old(nextStreamToAccept) && Available(old(View())) && View() == AcceptNext(old(View()))
      ensures id.None? ==> View() == old(View())
    {
      hide Remove;
      NextIsThere(View());
      var next := nextStreamToAccept;
      if next !in streams {
        return None;
      }
      StepKeepsInvariant(View(), Accept);
      hide Invariant;
      var shouldDelete := streams[next];
      nextStreamToAccept := nextStreamToAccept + 4;
      accepted := accepted + [next];
      if shouldDelete {
        RemoveStream(next);
      }
      return Some(next);
    }

    /** Takes a stream out and lets the peer open another. */
    method RemoveStream(id: int)
      modifies this`streams, this`maxStream, this`advertised, this`deleted
      ensures View() == Remove(old(View()), id)
    {
      streams := streams - {id};
      deleted := deleted + 1;
      RaiseLimit(|streams|);
    }

    /** A MAX_STREAMS frame is queued exactly when the limit is raised. */
    method RaiseLimit(held: nat)
      modifies this`maxStream, this`advertised
      ensures if Raises(nextStreamToOpen, maxNumStreams, held) then
                && maxStream == NewLimit(nextStreamToOpen, maxNumStreams, held)
                && advertised == old(advertised) + [maxStream]
              else maxStream == old(maxStream) && advertised == old(advertised)
    {
      if maxNumStreams > held {
        var limit := nextStreamToOpen + 4 * (maxNumStreams - held - 1);
        if limit <= MAX_STREAM_ID {
          maxStream := limit;
          advertised := advertised + [maxStream];
        }
      }
    }

    method Delete(id: int) returns (ok: bool)
      requires Valid()
      modifies this
      ensures Valid() && ok == DeleteStream(old(View()), id).Ok?
      ensures View() == if ok then DeleteStream(old(View()), id).value else old(View())
      ensures old(maxStream) <= maxStream
    {
      hide Invariant, Remove;
      if id !in streams {
        return false;
      }
      if id >= nextStreamToAccept {
        if streams[id] {
          return false;
        }
        StepKeepsInvariant(View(), Step.Delete(id));
        streams := streams[id := true];
        return true;
      }
      StepKeepsInvariant(View(), Step.Delete(id));
      RemoveStream(id);
      return true;
    }
  }

  lemma Aligned(s: State, id: int)
    requires Invariant(s) && id >= s.nextToOpen && (id - s.first) % 4 == 0
    ensures (id - s.nextToOpen) % 4 == 0
  {
    Mod4(id - s.nextToOpen, s.nextToOpen - s.first);
  }

  lemma StepBack(id: int, n: int, from: int)
    requires (id - n) % 4 == 0 && n <= id && from <= n && (id - from) % 4 == 0
    ensures (id - (n + 4)) % 4 == 0 && (n - from) % 4 == 0 && n + 4 <= id + 4
  {
    Mod4(id - n, -4);
    Mod4(n - from, id - n);
  }

  lemma NothingOpened(m: map<int, bool>, from: int)
    ensures OpenUpTo(m, from, from - 4) == m
  {
  }

  lemma NextIsThere(s: State)
    requires Invariant(s)
    ensures Available(s) <==> s.nextToAccept < s.nextToOpen
  {
    if s.nextToAccept < s.nextToOpen {
      assert IsStream(s, s.nextToAccept);
    } else {
      assert !IsStream(s, s.nextToAccept);
    }
  }

  // ---------------------------------------------------------------- who waits for a stream

  /**
   Streams to be accepted, whether the channel holds its token, and the callers of AcceptStream: those that have
   drained the channel and will take the lock, those that wait, and those that have received the token and will take
   the lock.
   */
  datatype Acceptors = Acceptors(streams: nat, token: bool, entering: nat, waiting: nat, awake: nat) {
    function Callers(): nat { entering + waiting + awake }
  }

  datatype AcceptStep = Enter | Check | Arrive | Wake | Resume | GiveUp

  predicate CanStep(a: Acceptors, step: AcceptStep) {
    match step
    case Enter => true
    case Check => a.entering > 0
    case Arrive => true
    case Wake => a.waiting > 0 && a.token
    case Resume => a.awake > 0
    case GiveUp => a.waiting > 0
  }

  function TakeStep(a: Acceptors, step: AcceptStep): Acceptors
    requires CanStep(a, step)
  {
    match step
    case Enter => a.(token := false, entering := a.entering + 1)
    case Check =>
      if a.streams > 0 then a.(streams := a.streams - 1, entering := a.entering - 1)
      else a.(entering := a.entering - 1, waiting := a.waiting + 1)
    case Arrive => a.(streams := a.streams + 1, token := true)
    case Wake => a.(waiting := a.waiting - 1, awake := a.awake + 1, token := false)
    case Resume =>
      if a.streams > 0 then a.(streams := a.streams - 1, awake := a.awake - 1)
      else a.(awake := a.awake - 1, waiting := a.waiting + 1)
    case GiveUp => a.(waiting := a.waiting - 1)
  }

  /** A caller waits although there is a stream, and nothing wakes it. */
  predicate Stuck(a: Acceptors) {
    a.streams > 0 && a.waiting > 0 && !a.token && a.awake == 0 && a.entering == 0
  }

  /** All steps are possible, and AcceptStream is never called by more than n callers at a time. */
  predicate IsAcceptRun(a: Acceptors, steps: seq<AcceptStep>, n: nat)
    decreases |steps|
  {
    || steps == []
    || (CanStep(a, steps[0]) && TakeStep(a, steps[0]).Callers() <= n
        && IsAcceptRun(TakeStep(a, steps[0]), steps[1..], n))
  }

  function AfterSteps(a: Acceptors, steps: seq<AcceptStep>, n: nat): Acceptors
    requires IsAcceptRun(a, steps, n)
    decreases |steps|
  {
    if steps == [] then a else AfterSteps(TakeStep(a, steps[0]), steps[1..], n)
  }

  /** A new map that nobody has called yet. */
  predicate Idle(a: Acceptors) { a.streams == 0 && !a.token && a.entering == 0 && a.waiting == 0 && a.awake == 0 }

  /** One caller at a time never misses a stream. */
  lemma {:induction false} SingleCallerIsWoken(a: Acceptors, steps: seq<AcceptStep>, n: nat)
    requires n <= 1 && a.Callers() <= 1 && (a.waiting > 0 && a.streams > 0 ==> a.token) && IsAcceptRun(a, steps, n)
    ensures !Stuck(AfterSteps(a, steps, n))
    decreases |steps|
  {
    if steps != [] {
      SingleCallerIsWoken(TakeStep(a, steps[0]), steps[1..], n);
    }
  }

  /** Some run with at most n callers at a time ends with a caller stuck. */
  ghost predicate CanGetStuck(a: Acceptors, n: nat) {
    exists steps :: IsAcceptRun(a, steps, n) && Stuck(AfterSteps(a, steps, n))
  }

  lemma {:induction false} StuckAfter(a: Acceptors, step: AcceptStep, n: nat)
    requires CanStep(a, step) && TakeStep(a, step).Callers() <= n && CanGetStuck(TakeStep(a, step), n)
    ensures CanGetStuck(a, n)
  {
    var a' := TakeStep(a, step);
    var steps :| IsAcceptRun(a', steps, n) && Stuck(AfterSteps(a', steps, n));
    var longer := [step] + steps;
    assert longer[0] == step && longer[1..] == steps;
    assert IsAcceptRun(a, longer, n) && Stuck(AfterSteps(a, longer, n));
  }

  /** A caller that finds no stream waits. */
  lemma {:induction false} StuckAfterWaiting(a: Acceptors, n: nat)
    requires a.streams == 0 && a.Callers() < n && CanGetStuck(a.(token := false, waiting := a.waiting + 1), n)
    ensures CanGetStuck(a, n)
  {
    hide CanGetStuck;
    var entered := TakeStep(a, Enter);
    assert TakeStep(entered, Check) == a.(token := false, waiting := a.waiting + 1);
    StuckAfter(entered, Check, n);
    StuckAfter(a, Enter, n);
  }

  /** The channel holds one token only: of two callers, one is woken by two streams, and takes one of them. */
  lemma {:induction false} TwoWaitingGetStuck(a: Acceptors, n: nat)
    requires a.streams == 0 && !a.token && a.entering == 0 && a.waiting == 2 && a.awake == 0 && n >= 2
    ensures CanGetStuck(a, n)
  {
    var a1 := TakeStep(a, Arrive);
    var a2 := TakeStep(a1, Arrive);
    var a3 := TakeStep(a2, Wake);
    var a4 := TakeStep(a3, Resume);
    assert CanGetStuck(a4, n) by { assert IsAcceptRun(a4, [], n) && Stuck(AfterSteps(a4, [], n)); }
    hide CanGetStuck;
    StuckAfter(a3, Resume, n);
    StuckAfter(a2, Wake, n);
    StuckAfter(a1, Arrive, n);
    StuckAfter(a, Arrive, n);
  }

  lemma {:induction false} OneWaitingCanGetStuck(a: Acceptors, n: nat)
    requires a.streams == 0 && a.entering == 0 && a.waiting == 1 && a.awake == 0 && n >= 2
    ensures CanGetStuck(a, n)
  {
    hide CanGetStuck;
    TwoWaitingGetStuck(a.(token := false, waiting := a.waiting + 1), n);
    StuckAfterWaiting(a, n);
  }

  lemma {:induction false} TwoCallersCanGetStuck(a: Acceptors, n: nat)
    requires Idle(a) && n >= 2
    ensures CanGetStuck(a, n)
  {
    hide CanGetStuck;
    OneWaitingCanGetStuck(a.(token := false, waiting := a.waiting + 1), n);
    StuckAfterWaiting(a, n);
  }

  /** A caller can be left waiting although there is a stream, exactly if AcceptStream may be called concurrently. */
  lemma {:induction false} CallersGetStuckExactlyIfConcurrent(a: Acceptors, n: nat)
    requires Idle(a)
    ensures CanGetStuck(a, n) <==> n >= 2
  {
    hide Stuck, IsAcceptRun, AfterSteps;
    if n >= 2 {
      TwoCallersCanGetStuck(a, n);
    } else {
      forall steps | IsAcceptRun(a, steps, n) ensures !Stuck(AfterSteps(a, steps, n)) {
        SingleCallerIsWoken(a, steps, n);
      }
    }
  }
}
