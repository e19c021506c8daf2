/** Streams opened by the peer: how many it may open (section 4.6 of RFC 9000), and how they are accepted. */
module IncomingStreams {
  import opened Common

  const MAX_STREAM_ID: int := 0x3FFF_FFFF_FFFF_FFFF

  /**
   Streams are held with a flag that says whether to delete them once they are accepted.
   accepted lists the streams accepted so far, deleted counts those that are not held any more, and advertised lists the
   limits in the MAX_STREAMS frames queued so far.
   */
  datatype State = State(
    first: int, nextToAccept: int, nextToOpen: int, maxStream: int, maxNum: nat, streams: map<int, bool>,
    accepted: seq<int>, deleted: nat, advertised: seq<int>)

  datatype Step = GetOrOpen(id: int) | Accept | Delete(id: int)

  /** The limit at first; no stream at all may be opened if it is -1. */
  function InitialLimit(first: int, maxNum: nat): int { if maxNum == 0 then -1 else first + 4 * (maxNum - 1) }

  function Initial(first: int, maxNum: nat): State {
    State(first, first, first, InitialLimit(first, maxNum), maxNum, map[], [], 0, [])
  }

  /** Opens every stream from the given ID up to id. */
  function OpenUpTo(streams: map<int, bool>, from: int, id: int): map<int, bool>
    decreases id - from
  {
    if from > id then streams else OpenUpTo(streams[from := false], from + 4, id)
  }

  /** The limit that lets the peer fill up what is held. */
  function NewLimit(nextToOpen: int, maxNum: nat, held: nat): int { nextToOpen + 4 * (maxNum - held - 1) }

  /** The limit is raised unless there is no room, or it is past the last stream ID. */
  predicate Raises(nextToOpen: int, maxNum: nat, held: nat) {
    maxNum > held && NewLimit(nextToOpen, maxNum, held) <= MAX_STREAM_ID
  }

  /** Takes a stream out; if it raises the limit, it advertises that. */
  function Remove(s: State, id: int): State {
    var streams := s.streams - {id};
    var s' := s.(streams := streams, deleted := s.deleted + 1);
    if !Raises(s.nextToOpen, s.maxNum, |streams|) then s'
    else
      var limit := NewLimit(s.nextToOpen, s.maxNum, |streams|);
      s'.(maxStream := limit, advertised := s.advertised + [limit])
  }

  /** A stream that was not accepted yet is only marked. */
  function DeleteStream(s: State, id: int): Result<State> {
    if id !in s.streams then Err
    else if id >= s.nextToAccept then (if s.streams[id] then Err else Ok(s.(streams := s.streams[id := true])))
    else Ok(Remove(s, id))
  }

  predicate Available(s: State) { s.nextToAccept in s.streams }

  function AcceptNext(s: State): State
    requires Available(s)
  {
    var id := s.nextToAccept;
    var s' := s.(nextToAccept := id + 4, accepted := s.accepted + [id]);
    if s.streams[id] then Remove(s', id) else s'
  }

  function GetOrOpenStream(s: State, id: int): Result<State> {
    if id > s.maxStream then Err
    else if id < s.nextToOpen then Ok(s)
    else Ok(s.(streams := OpenUpTo(s.streams, s.nextToOpen, id), nextToOpen := id + 4))
  }

  /** Stream IDs are of the right type, a read that must wait is not a step, and no error closes the connection. */
  predicate Enabled(s: State, step: Step) {
    match step
    case GetOrOpen(id) => id >= s.first && (id - s.first) % 4 == 0 && GetOrOpenStream(s, id).Ok?
    case Accept => Available(s)
    case Delete(id) => DeleteStream(s, id).Ok?
  }

  function Apply(s: State, step: Step): State
    requires Enabled(s, step)
  {
    match step
    case GetOrOpen(id) => GetOrOpenStream(s, id).value
    case Accept => AcceptNext(s)
    case Delete(id) => DeleteStream(s, id).value
  }

  // ---------------------------------------------------------------- the invariant

  /** How often the limit can be raised. */
  function MaxRaises(s: State): int { (MAX_STREAM_ID - InitialLimit(s.first, s.maxNum)) / 4 }

  predicate IsStream(s: State, id: int) { s.first <= id < s.nextToOpen && (id - s.first) % 4 == 0 }

  ghost predicate StreamsOk(s: State) {
    && (forall id :: id in s.streams ==> IsStream(s, id) && (s.streams[id] ==> id >= s.nextToAccept))
    && (forall id :: IsStream(s, id) && id >= s.nextToAccept ==> id in s.streams)
  }

  /** Every stream is accepted once, in order. */
  ghost predicate AcceptedOk(s: State) {
    && s.nextToAccept == s.first + 4 * |s.accepted| <= s.nextToOpen
    && (forall i :: 0 <= i < |s.accepted| ==> s.accepted[i] == s.first + 4 * i)
  }

  /** The limit is the initial one, raised once for each stream deleted; every stream opened is held or was deleted. */
  ghost predicate CreditOk(s: State) {
    && (s.nextToOpen - s.first) % 4 == 0 && s.nextToOpen - s.first == 4 * (|s.streams| + s.deleted)
    && (s.maxNum == 0 ==> s.maxStream == -1 && s.nextToOpen == s.first)
    && (s.maxNum > 0 ==>
          && s.maxStream == InitialLimit(s.first, s.maxNum) + 4 * Min(s.deleted, MaxRaises(s))
          && s.nextToOpen - 4 <= s.maxStream)
  }

  /** Each raise was advertised, once and in order; the last one is in force. */
  ghost predicate AdvertisedOk(s: State) {
    && |s.advertised| == Min(s.deleted, MaxRaises(s))
    && (forall i :: 0 <= i < |s.advertised| ==> s.advertised[i] == InitialLimit(s.first, s.maxNum) + 4 * (i + 1))
  }

  ghost predicate Invariant(s: State) {
    && 0 <= s.first < 4 && InitialLimit(s.first, s.maxNum) <= MAX_STREAM_ID
    && StreamsOk(s) && AcceptedOk(s) && CreditOk(s) && AdvertisedOk(s)
  }

  lemma InitialIsInvariant(first: int, maxNum: nat)
    requires 0 <= first < 4 && InitialLimit(first, maxNum) <= MAX_STREAM_ID
    ensures Invariant(Initial(first, maxNum))
  {
  }

  /** At most maxNum streams are held. */
  lemma HeldWithinLimit(s: State)
    requires Invariant(s)
    ensures |s.streams| <= s.maxNum
  {
  }

  lemma WithoutKey(m: map<int, bool>, id: int)
    requires id in m
    ensures |m - {id}| == |m| - 1
  {
    assert (m - {id}).Keys == m.Keys - {id};
    assert |m| == |m.Keys| && |m - {id}| == |(m - {id}).Keys|;
  }

  lemma WithKey(m: map<int, bool>, id: int, b: bool)
    ensures |m[id := b]| == |m| + if id in m then 0 else 1
  {
    var m' := m[id := b];
    assert m'.Keys == m.Keys + {id};
    assert |m| == |m.Keys| && |m'| == |m'.Keys|;
  }

  lemma Mod4(a: int, b: int)
    requires b % 4 == 0
    ensures (a + b) % 4 == a % 4
  {
  }

  /** What opening adds: the streams from `from` to id, none of them to be deleted. */
  ghost predicate Adds(m: map<int, bool>, from: int, id: int, m': map<int, bool>) {
    && (forall x :: x in m' <==> x in m || (from <= x <= id && (x - from) % 4 == 0))
    && (forall x :: x in m' ==> m'[x] == (x in m && m[x]))
    && 4 * |m'| == 4 * |m| + (id + 4 - from)
  }

  lemma {:induction false} OpenUpToAdds(m: map<int, bool>, from: int, id: int)
    requires (id - from) % 4 == 0 && from <= id + 4
    requires forall x :: x in m ==> x < from
    ensures Adds(m, from, id, OpenUpTo(m, from, id))
    decreases id - from
  {
    if from > id {
      assert id - from == -4;
    } else {
      var m1 := m[from := false];
      WithKey(m, from, false);
      OpenUpToAdds(m1, from + 4, id);
      AddsOneMore(m, from, id, OpenUpTo(m, from, id));
    }
  }

  lemma AddsOneMore(m: map<int, bool>, from: int, id: int, m': map<int, bool>)
    requires from <= id && (id - from) % 4 == 0 && from !in m && Adds(m[from := false], from + 4, id, m')
    requires |m[from := false]| == |m| + 1
    ensures Adds(m, from, id, m')
  {
    forall x ensures x in m' <==> x in m || (from <= x <= id && (x - from) % 4 == 0) {
      OneMore(from, id, x);
    }
  }

  lemma OneMore(from: int, id: int, x: int)
    requires from <= id && (id - from) % 4 == 0
    ensures x == from || (from + 4 <= x <= id && (x - (from + 4)) % 4 == 0) <==> from <= x <= id && (x - from) % 4 == 0
  {
    Mod4(x - (from + 4), 4);
  }

  lemma OpenKeeps(s: State, id: int)
    requires Invariant(s) && Enabled(s, GetOrOpen(id))
    ensures Invariant(Apply(s, GetOrOpen(id)))
  {
    hide OpenUpTo;
    if id >= s.nextToOpen {
      var s' := Apply(s, GetOrOpen(id));
      assert (id - s.nextToOpen) % 4 == 0 by { Mod4(id - s.nextToOpen, s.nextToOpen - s.first); }
      OpenUpToAdds(s.streams, s.nextToOpen, id);
      OpenKeepsStreams(s, id, s');
      hide StreamsOk;
      assert (s'.nextToOpen - s.first) % 4 == 0 by { Mod4(id - s.first, 4); }
    }
  }

  lemma OpenKeepsStreams(s: State, id: int, s': State)
    requires StreamsOk(s) && id >= s.nextToOpen && Adds(s.streams, s.nextToOpen, id, s'.streams)
    requires s.nextToOpen >= s.first && (s.nextToOpen - s.first) % 4 == 0 && (id - s.first) % 4 == 0
    requires s.nextToAccept <= s.nextToOpen
    requires s' == s.(streams := s'.streams, nextToOpen := id + 4)
    ensures StreamsOk(s')
  {
    forall x ensures s.nextToOpen <= x <= id && (x - s.nextToOpen) % 4 == 0 <==> s.nextToOpen <= x && IsStream(s', x) {
      NewStream(s.first, s.nextToOpen, id, x);
    }
    forall x | x in s.streams ensures IsStream(s', x) {
      assert IsStream(s, x);
    }
  }

  lemma NewStream(first: int, from: int, id: int, x: int)
    requires first <= from && (from - first) % 4 == 0 && (id - first) % 4 == 0
    ensures from <= x <= id && (x - from) % 4 == 0 <==> from <= x && first <= x < id + 4 && (x - first) % 4 == 0
  {
    Mod4(x - from, from - first);
    if from <= x && first <= x < id + 4 && (x - first) % 4 == 0 {
      NoStreamBetween(x - first, id - first);
    }
  }

  lemma NoStreamBetween(a: int, b: int)
    requires a % 4 == 0 && b % 4 == 0 && a < b + 4
    ensures a <= b
  {
  }

  /** As StreamsOk, but stream id may be marked although it was accepted. */
  ghost predicate StreamsOkBut(s: State, id: int) {
    && (forall x :: x in s.streams ==> IsStream(s, x) && (s.streams[x] && x != id ==> x >= s.nextToAccept))
    && (forall x :: IsStream(s, x) && x >= s.nextToAccept ==> x in s.streams)
  }

  /** Deleting a stream that was accepted gives the peer credit for one more. */
  lemma RemoveKeeps(s: State, id: int)
    requires 0 <= s.first < 4 && InitialLimit(s.first, s.maxNum) <= MAX_STREAM_ID
    requires StreamsOkBut(s, id) && AcceptedOk(s) && CreditOk(s) && AdvertisedOk(s) && id in s.streams
    requires id < s.nextToAccept
    ensures Invariant(Remove(s, id))
  {
    WithoutKey(s.streams, id);
    RemoveKeepsCredit(s, id);
    hide CreditOk, AdvertisedOk;
  }

  lemma RemoveKeepsCredit(s: State, id: int)
    requires CreditOk(s) && AdvertisedOk(s) && InitialLimit(s.first, s.maxNum) <= MAX_STREAM_ID
    requires id in s.streams && |s.streams - {id}| == |s.streams| - 1
    ensures CreditOk(Remove(s, id)) && AdvertisedOk(Remove(s, id))
    ensures Remove(s, id).maxStream == s.maxStream + (if s.deleted < MaxRaises(s) then 4 else 0)
  {
    var held, limit := |s.streams| - 1, InitialLimit(s.first, s.maxNum) + 4 * (s.deleted + 1);
    assert |s.streams| > 0;
    assert s.maxNum > 0 && s.maxNum > held;
    assert s.nextToOpen + 4 * (s.maxNum - held - 1) == limit;
    RaisesExactly(MAX_STREAM_ID - InitialLimit(s.first, s.maxNum), s.deleted + 1);
  }

  lemma RaisesExactly(room: int, n: int)
    requires room >= 0
    ensures 4 * n <= room <==> n <= room / 4
  {
  }

  /** The stream accepted was the only one with its ID, and the others to accept are at least four further on. */
  lemma AcceptKeepsStreams(s: State, s': State)
    requires StreamsOk(s) && IsStream(s, s.nextToAccept)
    requires s' == s.(nextToAccept := s.nextToAccept + 4, accepted := s'.accepted)
    ensures StreamsOkBut(s', s.nextToAccept)
  {
    var id := s.nextToAccept;
    forall x | x in s.streams && s.streams[x] && x != id ensures x >= s'.nextToAccept {
      assert IsStream(s, x);
      NextAligned(x - s.first, id - s.first);
    }
    forall x | IsStream(s', x) && x >= s'.nextToAccept ensures x in s'.streams {
      assert IsStream(s, x);
    }
    forall x | x in s'.streams ensures IsStream(s', x) {
      assert IsStream(s, x);
    }
  }

  lemma NextAligned(a: int, b: int)
    requires a % 4 == 0 && b % 4 == 0 && a > b
    ensures a >= b + 4
  {
  }

  lemma AcceptKeeps(s: State)
    requires Invariant(s) && Available(s)
    ensures Invariant(AcceptNext(s))
  {
    hide CreditOk, Remove;
    var id := s.nextToAccept;
    var s' := s.(nextToAccept := id + 4, accepted := s.accepted + [id]);
    assert IsStream(s, id);
    AlignedBelow(s);
    CreditUnchanged(s, s');
    AcceptKeepsStreams(s, s');
    hide StreamsOk, IsStream;
    if s.streams[id] {
      RemoveKeeps(s', id);
    } else {
      NotMarked(s', id);
    }
  }

  lemma NotMarked(s: State, id: int)
    requires StreamsOkBut(s, id) && (id in s.streams ==> !s.streams[id])
    ensures StreamsOk(s)
  {
  }

  lemma AlignedBelow(s: State)
    requires CreditOk(s) && AcceptedOk(s) && IsStream(s, s.nextToAccept)
    ensures s.nextToAccept + 4 <= s.nextToOpen
  {
  }

  lemma CreditUnchanged(s: State, s': State)
    requires CreditOk(s) && s' == s.(nextToAccept := s'.nextToAccept, accepted := s'.accepted)
    ensures CreditOk(s')
  {
  }

  lemma MarkKeeps(s: State, id: int)
    requires Invariant(s) && id in s.streams && id >= s.nextToAccept
    ensures Invariant(s.(streams := s.streams[id := true]))
  {
    WithKey(s.streams, id, true);
  }

  lemma DeleteKeeps(s: State, id: int)
    requires Invariant(s) && Enabled(s, Delete(id))
    ensures Invariant(Apply(s, Delete(id)))
  {
    hide CreditOk;
    if id >= s.nextToAccept {
      MarkKeeps(s, id);
    } else {
      RemoveKeeps(s, id);
    }
  }

  lemma StepKeepsInvariant(s: State, step: Step)
    requires Invariant(s) && Enabled(s, step)
    ensures Invariant(Apply(s, step))
    ensures s.maxStream <= Apply(s, step).maxStream
  {
    hide StreamsOk, AcceptedOk, OpenUpTo;
    match step {
      case GetOrOpen(id) => OpenKeeps(s, id);
      case Accept => AcceptKeeps(s);
      case Delete(id) => DeleteKeeps(s, id);
    }
  }

  predicate IsRun(s: State, steps: seq<Step>)
    decreases |steps|
  {
    steps == [] || (Enabled(s, steps[0]) && IsRun(Apply(s, steps[0]), steps[1..]))
  }

  function Final(s: State, steps: seq<Step>): State
    requires IsRun(s, steps)
    decreases |steps|
  {
    if steps == [] then s else Final(Apply(s, steps[0]), steps[1..])
  }

  lemma {:induction false} RunKeepsInvariant(s: State, steps: seq<Step>)
    requires Invariant(s) && IsRun(s, steps)
    ensures Invariant(Final(s, steps)) && s.maxStream <= Final(s, steps).maxStream
    decreases |steps|
  {
    hide Invariant, Apply, Enabled;
    if steps != [] {
      StepKeepsInvariant(s, steps[0]);
      RunKeepsInvariant(Apply(s, steps[0]), steps[1..]);
    }
  }

  /**
   On every run the limit is the initial one plus one stream for each deleted (until the IDs run out), at most maxNum
   streams are held, and the streams accepted are the first ones, in order and each once; the next one is there if it
   was opened. Every raise of the limit is advertised, once and in order, and the limit in force is the last one
   advertised.
   */
  lemma StreamCreditIsConserved(first: int, maxNum: nat, steps: seq<Step>)
    requires 0 <= first < 4 && 0 < maxNum && InitialLimit(first, maxNum) <= MAX_STREAM_ID
    requires IsRun(Initial(first, maxNum), steps)
    ensures var s := Final(Initial(first, maxNum), steps);
            && s.first == first && s.maxNum == maxNum
            && s.maxStream ==
                 first + 4 * (maxNum - 1 + Min(s.deleted, (MAX_STREAM_ID - InitialLimit(first, maxNum)) / 4))
            && |s.streams| <= maxNum
            && (forall i :: 0 <= i < |s.accepted| ==> s.accepted[i] == first + 4 * i)
            && (s.nextToAccept < s.nextToOpen ==> Available(s))
            && |s.advertised| == Min(s.deleted, (MAX_STREAM_ID - InitialLimit(first, maxNum)) / 4)
            && (forall i :: 0 <= i < |s.advertised| ==> s.advertised[i] == first + 4 * (maxNum + i))
            && s.maxStream ==
                 if s.advertised == [] then InitialLimit(first, maxNum) else s.advertised[|s.advertised| - 1]
  {
    InitialIsInvariant(first, maxNum);
    RunKeepsInvariant(Initial(first, maxNum), steps);
    RunKeepsConstants(Initial(first, maxNum), steps);
    HeldWithinLimit(Final(Initial(first, maxNum), steps));
  }

  lemma {:induction false} RunKeepsConstants(s: State, steps: seq<Step>)
    requires IsRun(s, steps)
    ensures Final(s, steps).first == s.first && Final(s, steps).maxNum == s.maxNum
    decreases |steps|
  {
    hide OpenUpTo;
    if steps != [] {
      RunKeepsConstants(Apply(s, steps[0]), steps[1..]);
    }
  }
}
