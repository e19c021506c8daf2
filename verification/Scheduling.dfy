/**
 Which stream sends next: by urgency, round-robin among incremental streams, by stream ID among the others.
 A priority change leaves the old queue entry behind; entries carry the generation of the priority they were queued
 with.
 */
module Scheduling {
  import opened Common

  const LEVELS: nat := 8
  const MAX_GENERATION: nat := 0xFFFF_FFFF

  datatype Priority = Priority(urgency: int, incremental: bool, generation: nat)

  // ---------------------------------------------------------------- the priority word

  function Encode(p: Priority): nat
    requires -128 <= p.urgency <= 127
  {
    p.urgency % 0x100 + (if p.incremental then 0x100 else 0) + p.generation * 0x1_0000_0000
  }

  function Decode(v: nat): Priority {
    var low := v % 0x100;
    Priority(if low < 128 then low else low - 0x100, v / 0x100 % 0x100 != 0, v / 0x1_0000_0000 % 0x1_0000_0000)
  }

  /** A priority survives being stored in one 64-bit word. */
  lemma PriorityRoundTrip(p: Priority)
    requires -128 <= p.urgency <= 127 && p.generation <= MAX_GENERATION
    ensures Decode(Encode(p)) == p && Encode(p) < 0x1_0000_0000_0000_0000
  {
    var v := Encode(p);
    var low := v - p.generation * 0x1_0000_0000;
    assert 0 <= low < 0x200;
    assert v == low + 0x100 * (p.generation * 0x100_0000);
    assert v / 0x100 == low / 0x100 + p.generation * 0x100_0000;
    assert v / 0x100 % 0x100 == low / 0x100;
  }

  function Clip(urgency: int): int { Max(0, Min(urgency, 7)) }

  /** What SetPriority stores: the generation rises unless nothing changes. It wraps around at 32 bits. */
  function Changed(p: Priority, urgency: int, incremental: bool): Priority {
    if p.urgency == Clip(urgency) && p.incremental == incremental then p
    else Priority(Clip(urgency), incremental, (p.generation + 1) % (MAX_GENERATION + 1))
  }

  // ---------------------------------------------------------------- queues

  datatype Entry = Entry(id: nat, generation: nat)

  /** Where a stream of that priority is queued: two queues for each urgency. */
  function QueueOf(p: Priority): int { 2 * p.urgency + if p.incremental then 0 else 1 }

  type Queues = seq<seq<Entry>>

  /** How often an entry is in a queue, and in all of them. */
  function Occurs(q: seq<Entry>, e: Entry): nat {
    if q == [] then 0 else (if q[0] == e then 1 else 0) + Occurs(q[1..], e)
  }

  function Total(qs: Queues, e: Entry): nat {
    if qs == [] then 0 else Occurs(qs[0], e) + Total(qs[1..], e)
  }

  lemma {:induction false} OccursConcat(q: seq<Entry>, r: seq<Entry>, e: Entry)
    ensures Occurs(q + r, e) == Occurs(q, e) + Occurs(r, e)
  {
    if q == [] {
      assert q + r == r;
    } else {
      assert (q + r)[1..] == q[1..] + r;
      OccursConcat(q[1..], r, e);
    }
  }

  lemma OccursOne(x: Entry, e: Entry)
    ensures Occurs([x], e) == if x == e then 1 else 0
  {
    assert [x][1..] == [];
  }

  lemma {:induction false} TotalUpdate(qs: Queues, i: nat, q: seq<Entry>, e: Entry)
    requires i < |qs|
    ensures Total(qs[i := q], e) == Total(qs, e) - Occurs(qs[i], e) + Occurs(q, e)
    ensures Occurs(qs[i], e) <= Total(qs, e)
  {
    if i == 0 {
      assert qs[i := q][1..] == qs[1..];
    } else {
      TotalUpdate(qs[1..], i - 1, q, e);
      assert qs[i := q][1..] == qs[1..][i - 1 := q];
    }
  }

  /** Only how often x is in queue i has changed, by d. */
  ghost predicate Differs(qs: Queues, qs': Queues, i: nat, x: Entry, d: int) {
    && |qs| == |qs'|
    && (forall e :: Total(qs', e) == Total(qs, e) + if e == x then d else 0)
    && (forall j, e :: 0 <= j < |qs| ==> Occurs(qs'[j], e) == Occurs(qs[j], e) + if j == i && e == x then d else 0)
  }

  lemma QueueDiffers(qs: Queues, i: nat, q: seq<Entry>, x: Entry, d: int)
    requires i < |qs| && forall e :: Occurs(q, e) == Occurs(qs[i], e) + if e == x then d else 0
    ensures Differs(qs, qs[i := q], i, x, d)
  {
    forall e ensures Total(qs[i := q], e) == Total(qs, e) + if e == x then d else 0 {
      TotalUpdate(qs, i, q, e);
    }
  }

  function Push(qs: Queues, i: int, e: Entry): Queues {
    if 0 <= i < |qs| then qs[i := qs[i] + [e]] else qs
  }

  lemma PushDiffers(qs: Queues, i: nat, e: Entry)
    requires i < |qs|
    ensures Differs(qs, Push(qs, i, e), i, e, 1)
  {
    forall x ensures Occurs(qs[i] + [e], x) == Occurs(qs[i], x) + if x == e then 1 else 0 {
      OccursConcat(qs[i], [e], x);
      OccursOne(e, x);
    }
    QueueDiffers(qs, i, qs[i] + [e], e, 1);
  }

  function DropAt(q: seq<Entry>, k: nat): seq<Entry>
    requires k < |q|
  {
    q[..k] + q[k + 1..]
  }

  lemma DropOccurs(q: seq<Entry>, k: nat, x: Entry)
    requires k < |q|
    ensures Occurs(DropAt(q, k), x) == Occurs(q, x) - if x == q[k] then 1 else 0
  {
    assert q == q[..k] + ([q[k]] + q[k + 1..]);
    OccursConcat(q[..k], [q[k]] + q[k + 1..], x);
    OccursConcat([q[k]], q[k + 1..], x);
    OccursConcat(q[..k], q[k + 1..], x);
    OccursOne(q[k], x);
  }

  lemma DropDiffers(qs: Queues, i: nat, k: nat)
    requires i < |qs| && k < |qs[i]|
    ensures Differs(qs, qs[i := DropAt(qs[i], k)], i, qs[i][k], -1)
    ensures Differs(qs, qs[i := DropAt(qs[i], k) + [qs[i][k]]], i, qs[i][k], 0)
  {
    var q, e := qs[i], qs[i][k];
    forall x ensures Occurs(DropAt(q, k), x) == Occurs(q, x) + if x == e then -1 else 0 {
      DropOccurs(q, k, x);
    }
    forall x ensures Occurs(DropAt(q, k) + [e], x) == Occurs(q, x) {
      DropOccurs(q, k, x);
      OccursConcat(DropAt(q, k), [e], x);
      OccursOne(e, x);
    }
    QueueDiffers(qs, i, DropAt(q, k), e, -1);
    QueueDiffers(qs, i, DropAt(q, k) + [e], e, 0);
  }

  lemma {:induction false} QueuedIsCounted(qs: Queues, i: nat, k: nat)
    requires i < |qs| && k < |qs[i]|
    ensures 1 <= Occurs(qs[i], qs[i][k]) <= Total(qs, qs[i][k])
  {
    DropOccurs(qs[i], k, qs[i][k]);
    TotalUpdate(qs, i, qs[i], qs[i][k]);
  }

  // ---------------------------------------------------------------- the scheduler

  /**
   The current priorities of the streams, the streams that have data (with the generation they were queued with last),
   the queues, which kind was served last at each urgency, and the priority updates still to come.
   */
  datatype State = State(
    priority: map<nat, Priority>, active: map<nat, nat>, queues: Queues, lastIncremental: seq<bool>,
    pending: multiset<nat>, removed: set<nat>)

  datatype Step =
    | OpenStream(id: nat)
    | SetPriority(id: nat, urgency: int, incremental: bool)
    | UpdateStreamPriority(id: nat)
    | AddActiveStream(id: nat)
    | RemoveActiveStream(id: nat)
    | GetNext(level: nat, k: nat, hasMore: bool)

  const DEFAULT_PRIORITY: Priority := Priority(3, true, 0)

  function Initial(): State {
    State(map[], map[], seq(2 * LEVELS, _ => []), seq(LEVELS, _ => false), multiset{}, {})
  }

  /** Queues the stream with its current generation. */
  function Queue(s: State, id: nat): State
    requires id in s.priority
  {
    var p := s.priority[id];
    s.(queues := Push(s.queues, QueueOf(p), Entry(id, p.generation)), active := s.active[id := p.generation])
  }

  predicate IsMin(q: seq<Entry>, k: nat) {
    k < |q| && forall j :: 0 <= j < |q| ==> q[k].id <= q[j].id
  }

  /** Incremental streams are served in turn with the others, if there are both. */
  predicate ServesIncremental(s: State, urgency: nat)
    requires urgency < LEVELS && |s.queues| == 2 * LEVELS && |s.lastIncremental| == LEVELS
  {
    s.queues[2 * urgency + 1] == [] || (!s.lastIncremental[urgency] && s.queues[2 * urgency] != [])
  }

  predicate IsLive(s: State, e: Entry) {
    e.id in s.active && e.id in s.priority && s.priority[e.id].generation == e.generation
  }

  /** Serves the entry at position k of a queue: stale entries are dropped, a stream without more data leaves. */
  function ServeEntry(s: State, i: nat, k: nat, incremental: bool, hasMore: bool): State
    requires i < |s.queues| && k < |s.queues[i]| && i / 2 < |s.lastIncremental|
  {
    var q := s.queues[i];
    var e := q[k];
    if !IsLive(s, e) then s.(queues := s.queues[i := DropAt(q, k)])
    else
      var served := s.(lastIncremental := s.lastIncremental[i / 2 := incremental]);
      if !hasMore then served.(queues := s.queues[i := DropAt(q, k)], active := s.active - {e.id})
      else if incremental then served.(queues := s.queues[i := DropAt(q, k) + [e]])
      else served
  }

  /** A stream is not opened twice. From a heap any entry with the smallest stream ID may come first. */
  predicate Enabled(s: State, step: Step) {
    match step
    case OpenStream(id) => id !in s.priority
    case SetPriority(id, _, _) => id in s.priority
    case UpdateStreamPriority(id) => true
    case AddActiveStream(id) => id in s.priority
    case RemoveActiveStream(id) => true
    case GetNext(urgency, k, _) =>
      && urgency < LEVELS && |s.queues| == 2 * LEVELS && |s.lastIncremental| == LEVELS
      && (ServesIncremental(s, urgency) && s.queues[2 * urgency] != [] ==> k == 0)
      && (!ServesIncremental(s, urgency) ==> IsMin(s.queues[2 * urgency + 1], k))
  }

  function Apply(s: State, step: Step): State
    requires Enabled(s, step)
  {
    match step
    case OpenStream(id) => s.(priority := s.priority[id := DEFAULT_PRIORITY])
    case SetPriority(id, urgency, incremental) =>
      var p := Changed(s.priority[id], urgency, incremental);
      if p == s.priority[id] then s
      else s.(priority := s.priority[id := p], pending := s.pending + multiset{id})
    case UpdateStreamPriority(id) =>
      var s' := s.(pending := s.pending - multiset{id});
      if id in s.active && id in s.priority && s.active[id] != s.priority[id].generation then Queue(s', id) else s'
    case AddActiveStream(id) =>
      if id in s.active && s.active[id] == s.priority[id].generation then s
      else Queue(s.(removed := s.removed - {id}), id)
    case RemoveActiveStream(id) => s.(active := s.active - {id}, removed := s.removed + {id})
    case GetNext(urgency, k, hasMore) =>
      if !ServesIncremental(s, urgency) then ServeEntry(s, 2 * urgency + 1, k, false, hasMore)
      else if s.queues[2 * urgency] == [] then s
      else ServeEntry(s, 2 * urgency, 0, true, hasMore)
  }

  // ---------------------------------------------------------------- no stream is lost

  function Live(s: State, id: nat): Entry
    requires id in s.priority
  {
    Entry(id, s.priority[id].generation)
  }

  /**
   What holds of one stream. If it has data, its live entry is queued exactly once, in the queue of its priority,
   unless its priority has changed meanwhile and the update is still to come. If it has no data, it has no live entry,
   unless it was removed, which leaves its entry behind.
   */
  ghost predicate StreamOk(s: State, id: nat)
    requires id in s.priority && |s.queues| == 2 * LEVELS
  {
    var p := s.priority[id];
    && 0 <= p.urgency < LEVELS && p.generation <= MAX_GENERATION
    && (id in s.active && s.active[id] != p.generation ==> id in s.pending && Total(s.queues, Live(s, id)) == 0)
    && (id in s.active && s.active[id] == p.generation ==>
          Total(s.queues, Live(s, id)) == 1 && Occurs(s.queues[QueueOf(p)], Live(s, id)) == 1)
    && (id !in s.active && id !in s.removed ==> Total(s.queues, Live(s, id)) == 0)
  }

  ghost predicate EntriesOk(s: State) {
    forall e :: Total(s.queues, e) > 0 ==> e.id in s.priority
  }

  ghost predicate Invariant(s: State) {
    && Shape(s)
    && EntriesOk(s)
    && forall id :: id in s.priority ==> StreamOk(s, id)
  }

  lemma {:induction false} NothingQueued(n: nat, e: Entry)
    ensures Total(seq(n, _ => []), e) == 0
  {
    var qs: Queues := seq(n, _ => []);
    if n > 0 {
      NothingQueued(n - 1, e);
      assert qs[1..] == seq(n - 1, _ => []);
    }
  }

  lemma InitialIsInvariant()
    ensures Invariant(Initial())
  {
    hide Total;
    forall e ensures Total(Initial().queues, e) == 0 {
      NothingQueued(2 * LEVELS, e);
    }
  }

  ghost predicate Shape(s: State) {
    && |s.queues| == 2 * LEVELS && |s.lastIncremental| == LEVELS
    && s.active.Keys <= s.priority.Keys
    && s.active.Keys !! s.removed
  }

  /**
   The step does not make an old entry live: a new generation is not that of an entry left behind, which can happen only
   when generations wrap around, and a stream that was removed is not added while its entry is still queued.
   */
  ghost predicate NoClash(s: State, step: Step)
    requires Shape(s) && Enabled(s, step)
  {
    match step
    case SetPriority(id, urgency, incremental) =>
      var p := Changed(s.priority[id], urgency, incremental);
      p == s.priority[id] || IsFree(s, id, p)
    case AddActiveStream(id) =>
      (id in s.active && s.active[id] == s.priority[id].generation) || Total(s.queues, Live(s, id)) == 0
    case _ => true
  }

  /** No old entry has the generation of p; or the stream was queued with just this priority. */
  ghost predicate IsFree(s: State, id: nat, p: Priority)
    requires Shape(s)
  {
    var e := Entry(id, p.generation);
    if id in s.active && s.active[id] == p.generation
    then Total(s.queues, e) == 1 && 0 <= QueueOf(p) < |s.queues| && Occurs(s.queues[QueueOf(p)], e) == 1
    else id in s.active || id !in s.removed ==> Total(s.queues, e) == 0
  }

  /** Queuing a stream that has no live entry gives it one. */
  lemma QueueKeeps(s: State, id: nat)
    requires Shape(s) && id in s.priority && id !in s.removed
    requires EntriesOk(s) && Total(s.queues, Live(s, id)) == 0
    requires 0 <= s.priority[id].urgency < LEVELS && s.priority[id].generation <= MAX_GENERATION
    requires forall i :: i in s.priority && i != id ==> StreamOk(s, i)
    ensures Invariant(Queue(s, id))
  {
    hide Total, Occurs;
    var s', p, e := Queue(s, id), s.priority[id], Live(s, id);
    PushDiffers(s.queues, QueueOf(p), e);
    CountedWithin(s.queues, QueueOf(p), e);
    hide Push;
    forall i | i in s'.priority ensures StreamOk(s', i) {
      if i != id {
        assert StreamOk(s, i);
      }
    }
  }

  lemma CountedWithin(qs: Queues, i: nat, e: Entry)
    requires i < |qs|
    ensures Occurs(qs[i], e) <= Total(qs, e)
  {
    TotalUpdate(qs, i, qs[i], e);
  }

  lemma SetPriorityKeeps(s: State, id: nat, urgency: int, incremental: bool)
    requires Invariant(s) && Enabled(s, SetPriority(id, urgency, incremental))
    ensures Invariant(Apply(s, SetPriority(id, urgency, incremental))) <==>
              NoClash(s, SetPriority(id, urgency, incremental))
  {
    hide Total, Occurs;
    var s' := Apply(s, SetPriority(id, urgency, incremental));
    var p := Changed(s.priority[id], urgency, incremental);
    if p != s.priority[id] {
      assert StreamOk(s, id);
      assert s' == s.(priority := s.priority[id := p], pending := s.pending + multiset{id});
      assert StreamOk(s', id) <==> IsFree(s, id, p);
      forall i | i in s'.priority && i != id ensures StreamOk(s', i) {
        assert StreamOk(s, i);
      }
    }
  }

  /**
   An update queues an active stream again exactly if its priority has changed since; then its live entry is in the
   right queue.
   */
  lemma UpdateKeeps(s: State, id: nat)
    requires Invariant(s)
    ensures var s' := Apply(s, UpdateStreamPriority(id));
            && Invariant(s')
            && s'.queues == (if id in s.active && s.active[id] != s.priority[id].generation
                             then Push(s.queues, QueueOf(s.priority[id]), Live(s, id)) else s.queues)
            && (id in s.active ==>
                  Total(s'.queues, Live(s, id)) == 1 && Occurs(s'.queues[QueueOf(s.priority[id])], Live(s, id)) == 1)
  {
    hide Total, Occurs, Push;
    var s1 := s.(pending := s.pending - multiset{id});
    forall i | i in s.priority && i != id ensures StreamOk(s1, i) {
      assert StreamOk(s, i);
    }
    if id in s.priority {
      assert StreamOk(s, id);
      if id in s.active && s.active[id] != s.priority[id].generation {
        QueueKeeps(s1, id);
      }
      assert id in s.active ==> StreamOk(Apply(s, UpdateStreamPriority(id)), id);
    }
  }

  /** A stream with new data is queued exactly if it is not yet queued with its priority. */
  lemma AddKeeps(s: State, id: nat)
    requires Invariant(s) && Enabled(s, AddActiveStream(id))
    ensures var s', g := Apply(s, AddActiveStream(id)), s.priority[id].generation;
            && (Invariant(s') <==> NoClash(s, AddActiveStream(id)))
            && id in s'.active && s'.active[id] == g
            && s'.queues == (if id in s.active && s.active[id] == g then s.queues
                             else Push(s.queues, QueueOf(s.priority[id]), Live(s, id)))
  {
    hide Total, Occurs, Push;
    assert StreamOk(s, id);
    if !(id in s.active && s.active[id] == s.priority[id].generation) {
      var s1 := s.(removed := s.removed - {id});
      forall i | i in s.priority && i != id ensures StreamOk(s1, i) {
        assert StreamOk(s, i);
      }
      if Total(s.queues, Live(s, id)) == 0 {
        QueueKeeps(s1, id);
      } else {
        PushDiffers(s.queues, QueueOf(s.priority[id]), Live(s, id));
        assert !StreamOk(Apply(s, AddActiveStream(id)), id);
      }
    }
  }

  lemma RemoveKeeps(s: State, id: nat)
    requires Invariant(s)
    ensures Invariant(Apply(s, RemoveActiveStream(id)))
  {
    hide Total, Occurs;
    var s' := Apply(s, RemoveActiveStream(id));
    forall i | i in s'.priority ensures StreamOk(s', i) {
      assert StreamOk(s, i);
    }
  }

  /** Dropping a stale entry touches no live entry. */
  lemma DropStaleKeeps(s: State, i: nat, k: nat)
    requires Invariant(s) && i < |s.queues| && k < |s.queues[i]| && !IsLive(s, s.queues[i][k])
    ensures Invariant(s.(queues := s.queues[i := DropAt(s.queues[i], k)]))
  {
    hide Total, Occurs, DropAt;
    var e := s.queues[i][k];
    var s' := s.(queues := s.queues[i := DropAt(s.queues[i], k)]);
    DropDiffers(s.queues, i, k);
    QueuedIsCounted(s.queues, i, k);
    forall j | j in s'.priority ensures StreamOk(s', j) {
      assert StreamOk(s, j);
    }
  }

  /** A live entry is the only one of its stream. */
  lemma LiveEntry(s: State, i: nat, k: nat)
    requires Invariant(s) && i < |s.queues| && k < |s.queues[i]| && IsLive(s, s.queues[i][k])
    ensures var e := s.queues[i][k];
            e == Live(s, e.id) && s.active[e.id] == e.generation && Total(s.queues, e) == 1
  {
    hide Total, Occurs;
    var e := s.queues[i][k];
    QueuedIsCounted(s.queues, i, k);
    assert StreamOk(s, e.id) && e == Live(s, e.id);
  }

  /** A stream without more data leaves with its only live entry. */
  lemma LeaveKeeps(s: State, i: nat, k: nat)
    requires Invariant(s) && i < |s.queues| && k < |s.queues[i]| && IsLive(s, s.queues[i][k])
    ensures Invariant(s.(queues := s.queues[i := DropAt(s.queues[i], k)], active := s.active - {s.queues[i][k].id}))
  {
    hide Total, Occurs, DropAt;
    var e := s.queues[i][k];
    var s' := s.(queues := s.queues[i := DropAt(s.queues[i], k)], active := s.active - {e.id});
    DropDiffers(s.queues, i, k);
    LiveEntry(s, i, k);
    forall j | j in s'.priority ensures StreamOk(s', j) {
      assert StreamOk(s, j);
    }
  }

  /** A stream with more data goes to the back of its queue. */
  lemma RotateKeeps(s: State, i: nat, k: nat)
    requires Invariant(s) && i < |s.queues| && k < |s.queues[i]|
    ensures Invariant(s.(queues := s.queues[i := DropAt(s.queues[i], k) + [s.queues[i][k]]]))
  {
    hide Total, Occurs, DropAt;
    var s' := s.(queues := s.queues[i := DropAt(s.queues[i], k) + [s.queues[i][k]]]);
    DropDiffers(s.queues, i, k);
    forall j | j in s'.priority ensures StreamOk(s', j) {
      assert StreamOk(s, j);
    }
  }

  lemma LastKeeps(s: State, last: seq<bool>)
    requires Invariant(s) && |last| == LEVELS
    ensures Invariant(s.(lastIncremental := last))
  {
    hide Total, Occurs;
    var s' := s.(lastIncremental := last);
    forall j | j in s'.priority ensures StreamOk(s', j) {
      assert StreamOk(s, j);
    }
  }

  lemma ServeKeeps(s: State, i: nat, k: nat, incremental: bool, hasMore: bool)
    requires Invariant(s) && i < |s.queues| && k < |s.queues[i]|
    ensures i / 2 < |s.lastIncremental|
    ensures Invariant(ServeEntry(s, i, k, incremental, hasMore))
  {
    hide Invariant, DropAt;
    InvariantShape(s);
    if IsLive(s, s.queues[i][k]) {
      var last := s.lastIncremental[i / 2 := incremental];
      LeaveKeeps(s, i, k);
      RotateKeeps(s, i, k);
      LastKeeps(s.(queues := s.queues[i := DropAt(s.queues[i], k)], active := s.active - {s.queues[i][k].id}), last);
      LastKeeps(s.(queues := s.queues[i := DropAt(s.queues[i], k) + [s.queues[i][k]]]), last);
      LastKeeps(s, last);
    } else {
      DropStaleKeeps(s, i, k);
    }
  }

  lemma InvariantShape(s: State)
    requires Invariant(s)
    ensures Shape(s)
  {
  }

  lemma OpenKeeps(s: State, id: nat)
    requires Invariant(s) && id !in s.priority
    ensures Invariant(Apply(s, OpenStream(id)))
  {
    hide Total, Occurs;
    var s' := Apply(s, OpenStream(id));
    assert Total(s.queues, Live(s', id)) == 0;
    forall i | i in s'.priority ensures StreamOk(s', i) {
      if i != id {
        assert StreamOk(s, i);
      }
    }
  }

  /** The scheduler keeps track of its streams, exactly as long as no step makes an old entry live. */
  lemma StepKeepsInvariant(s: State, step: Step)
    requires Invariant(s) && Enabled(s, step)
    ensures Invariant(Apply(s, step)) <==> NoClash(s, step)
  {
    hide Invariant, Queue, ServeEntry, Changed, IsFree;
    InvariantShape(s);
    match step {
      case OpenStream(id) => OpenKeeps(s, id);
      case SetPriority(id, urgency, incremental) => SetPriorityKeeps(s, id, urgency, incremental);
      case UpdateStreamPriority(id) => UpdateKeeps(s, id);
      case AddActiveStream(id) => AddKeeps(s, id);
      case RemoveActiveStream(id) => RemoveKeeps(s, id);
      case GetNext(level, k, hasMore) =>
        if !ServesIncremental(s, level) {
          ServeKeeps(s, 2 * level + 1, k, false, hasMore);
        } else if s.queues[2 * level] != [] {
          ServeKeeps(s, 2 * level, 0, true, hasMore);
        }
    }
  }

  // ---------------------------------------------------------------- old entries have smaller generations

  ghost predicate Ordered(s: State) {
    && (forall e :: Total(s.queues, e) > 0 && e.id in s.priority ==> e.generation <= s.priority[e.id].generation)
    && (forall id :: id in s.active && id in s.priority ==> s.active[id] <= s.priority[id].generation)
  }

  /** The step changes the priority of the stream. */
  predicate IsChange(s: State, step: Step, id: nat) {
    && step.SetPriority? && step.id == id && id in s.priority
    && Changed(s.priority[id], step.urgency, step.incremental) != s.priority[id]
  }

  function Generation(s: State, id: nat): nat { if id in s.priority then s.priority[id].generation else 0 }

  lemma ServeKeepsOrder(s: State, i: nat, k: nat, incremental: bool, hasMore: bool)
    requires Shape(s) && Ordered(s) && i < |s.queues| && k < |s.queues[i]|
    ensures i / 2 < |s.lastIncremental| && Ordered(ServeEntry(s, i, k, incremental, hasMore))
  {
    hide Total, Occurs, DropAt;
    DropDiffers(s.queues, i, k);
  }

  lemma QueueKeepsOrder(s: State, id: nat)
    requires Shape(s) && Ordered(s) && id in s.priority && 0 <= s.priority[id].urgency < LEVELS
    ensures Ordered(Queue(s, id))
  {
    hide Total, Occurs;
    PushDiffers(s.queues, QueueOf(s.priority[id]), Live(s, id));
    hide Push;
  }

  lemma StepKeepsOrder(s: State, step: Step)
    requires Invariant(s) && Ordered(s) && Enabled(s, step)
    requires step.SetPriority? && IsChange(s, step, step.id) ==> s.priority[step.id].generation < MAX_GENERATION
    ensures Ordered(Apply(s, step)) && (!step.AddActiveStream? ==> NoClash(s, step))
  {
    hide Total, Occurs, Queue, ServeEntry;
    match step {
      case OpenStream(id) =>
      case SetPriority(id, urgency, incremental) => assert StreamOk(s, id);
      case UpdateStreamPriority(id) =>
        if id in s.priority {
          assert StreamOk(s, id);
          QueueKeepsOrder(s.(pending := s.pending - multiset{id}), id);
        }
      case AddActiveStream(id) =>
        assert StreamOk(s, id);
        QueueKeepsOrder(s.(removed := s.removed - {id}), id);
      case RemoveActiveStream(id) =>
      case GetNext(level, k, hasMore) =>
        if !ServesIncremental(s, level) {
          ServeKeepsOrder(s, 2 * level + 1, k, false, hasMore);
        } else if s.queues[2 * level] != [] {
          ServeKeepsOrder(s, 2 * level, 0, true, hasMore);
        }
    }
  }

  /** Only a change raises the generation of a stream, by one. */
  lemma StepGeneration(s: State, step: Step, id: nat)
    requires Enabled(s, step) && (IsChange(s, step, id) ==> s.priority[id].generation < MAX_GENERATION)
    ensures Generation(Apply(s, step), id) == Generation(s, id) + if IsChange(s, step, id) then 1 else 0
  {
  }

  // ---------------------------------------------------------------- every run

  predicate IsRun(s: State, steps: seq<Step>)
    decreases |steps|
  {
    steps == [] || (Enabled(s, steps[0]) && IsRun(Apply(s, steps[0]), steps[1..]))
  }

  function Final(s: State, steps: seq<Step>): State
    requires IsRun(s, steps)
    decreases |steps|
  {
    if steps == [] then s else Final(Apply(s, steps[0]), steps[1..])
  }

  /** How often a run changes the priority of a stream. */
  function Changes(s: State, steps: seq<Step>, id: nat): nat
    requires IsRun(s, steps)
    decreases |steps|
  {
    if steps == [] then 0
    else (if IsChange(s, steps[0], id) then 1 else 0) + Changes(Apply(s, steps[0]), steps[1..], id)
  }

  /** No stream is added again after it was removed, while the entry it left behind is queued. */
  ghost predicate NoneReturns(s: State, steps: seq<Step>)
    requires IsRun(s, steps)
    decreases |steps|
  {
    steps == [] ||
    ((steps[0].AddActiveStream? && Shape(s) ==> NoClash(s, steps[0])) && NoneReturns(Apply(s, steps[0]), steps[1..]))
  }

  lemma {:induction false} RunKeepsInvariant(s: State, steps: seq<Step>)
    requires Invariant(s) && Ordered(s) && IsRun(s, steps) && NoneReturns(s, steps)
    requires forall id :: Generation(s, id) + Changes(s, steps, id) <= MAX_GENERATION
    ensures Invariant(Final(s, steps))
    decreases |steps|
  {
    hide Apply, Enabled, Ordered, StreamOk, EntriesOk, NoClash, IsChange, Generation;
    if steps != [] {
      var step := steps[0];
      if step.SetPriority? && IsChange(s, step, step.id) {
        GenerationOf(s, step);
        assert Generation(s, step.id) + Changes(s, steps, step.id) <= MAX_GENERATION;
      }
      StepKeepsOrder(s, step);
      StepKeepsInvariant(s, step);
      forall id ensures Generation(Apply(s, step), id) + Changes(Apply(s, step), steps[1..], id) <= MAX_GENERATION {
        assert Generation(s, id) + Changes(s, steps, id) <= MAX_GENERATION;
        if IsChange(s, step, id) {
          IsChangeOf(s, step, id);
        }
        StepGeneration(s, step, id);
      }
      RunKeepsInvariant(Apply(s, step), steps[1..]);
    }
  }

  lemma IsChangeOf(s: State, step: Step, id: nat)
    requires IsChange(s, step, id)
    ensures step.SetPriority? && step.id == id
  {
  }

  lemma GenerationOf(s: State, step: Step)
    requires step.SetPriority? && IsChange(s, step, step.id)
    ensures step.id in s.priority && Generation(s, step.id) == s.priority[step.id].generation
  {
  }

  /**
   On every run that changes no priority 2^32 times and adds no stream while an entry from before its removal is queued:
   a stream that has data and no priority update to come has exactly one live entry, in the queue of its current
   priority.
   */
  lemma NoStreamIsLost(steps: seq<Step>, id: nat)
    requires IsRun(Initial(), steps) && NoneReturns(Initial(), steps)
    requires forall i :: Changes(Initial(), steps, i) <= MAX_GENERATION
    requires id in Final(Initial(), steps).active && id !in Final(Initial(), steps).pending
    ensures var s := Final(Initial(), steps);
            && id in s.priority
            && var p := s.priority[id];
               && 0 <= p.urgency < LEVELS && |s.queues| == 2 * LEVELS
               && Total(s.queues, Entry(id, p.generation)) == 1
               && Occurs(s.queues[QueueOf(p)], Entry(id, p.generation)) == 1
  {
    hide Apply, Enabled, Total, Occurs, NoneReturns, Changes;
    InitialIsInvariant();
    InitialIsOrdered();
    forall i ensures Generation(Initial(), i) + Changes(Initial(), steps, i) <= MAX_GENERATION {
      assert Changes(Initial(), steps, i) <= MAX_GENERATION;
    }
    RunKeepsInvariant(Initial(), steps);
    var s := Final(Initial(), steps);
    assert StreamOk(s, id);
  }

  lemma InitialIsOrdered()
    ensures Ordered(Initial())
  {
    hide Total;
    forall e ensures Total(Initial().queues, e) == 0 {
      NothingQueued(2 * LEVELS, e);
    }
  }

  /** After a stream was served, it is the turn of the other kind, if there are streams of both. */
  lemma KindsAlternate(s: State, level: nat, k: nat, hasMore: bool)
    requires Shape(s) && level < LEVELS && Enabled(s, GetNext(level, k, hasMore))
    requires var i := if ServesIncremental(s, level) then 2 * level else 2 * level + 1;
             s.queues[i] != [] && IsLive(s, s.queues[i][k])
    ensures var s' := Apply(s, GetNext(level, k, hasMore));
            && |s'.queues| == 2 * LEVELS && |s'.lastIncremental| == LEVELS
            && (s'.queues[2 * level] != [] && s'.queues[2 * level + 1] != [] ==>
                  ServesIncremental(s', level) == !ServesIncremental(s, level))
  {
  }

  /** Round-robin is fair: each pop from an incremental queue brings every other entry one place forward. */
  lemma RoundRobinAdvances(s: State, level: nat, j: nat, hasMore: bool)
    requires Shape(s) && level < LEVELS && ServesIncremental(s, level) && 0 < j < |s.queues[2 * level]|
    ensures Enabled(s, GetNext(level, 0, hasMore))
    ensures var q' := Apply(s, GetNext(level, 0, hasMore)).queues[2 * level];
            j <= |q'| && q'[j - 1] == s.queues[2 * level][j]
  {
  }

  // ---------------------------------------------------------------- both conditions are needed

  lemma {:induction false} RunSnoc(s: State, steps: seq<Step>, e: Step)
    requires IsRun(s, steps) && Enabled(Final(s, steps), e)
    ensures IsRun(s, steps + [e]) && Final(s, steps + [e]) == Apply(Final(s, steps), e)
    ensures forall id :: Changes(s, steps + [e], id) ==
              Changes(s, steps, id) + if IsChange(Final(s, steps), e, id) then 1 else 0
    decreases |steps|
  {
    hide Apply, Enabled, IsChange;
    var longer := steps + [e];
    if steps == [] {
      assert longer == [e] && longer[1..] == [];
    } else {
      assert longer[1..] == steps[1..] + [e];
      RunSnoc(Apply(s, steps[0]), steps[1..], e);
    }
  }

  /** The stream is queued with its priority, and the entry of its first generation is in the queues n times. */
  ghost predicate Queued(s: State, id: nat, p: Priority, n: nat) {
    && |s.queues| == 2 * LEVELS && id in s.priority && s.priority[id] == p
    && id in s.active && s.active[id] == p.generation && id !in s.pending
    && Total(s.queues, Entry(id, 0)) == n
  }

  /** A priority change and its update, from the default priority to its opposite or back. */
  lemma Toggle(s: State, id: nat, p: Priority, n: nat)
    requires Queued(s, id, p, n) && p.urgency == 3 && p.generation <= MAX_GENERATION
    ensures var s1 := Apply(s, SetPriority(id, 3, !p.incremental));
            var p' := Priority(3, !p.incremental, (p.generation + 1) % (MAX_GENERATION + 1));
            && IsChange(s, SetPriority(id, 3, !p.incremental), id)
            && Queued(Apply(s1, UpdateStreamPriority(id)), id, p', n + if p'.generation == 0 then 1 else 0)
  {
    hide Total;
    var s1 := Apply(s, SetPriority(id, 3, !p.incremental));
    var p' := Priority(3, !p.incremental, (p.generation + 1) % (MAX_GENERATION + 1));
    assert s1 == s.(priority := s.priority[id := p'], pending := s.pending + multiset{id});
    PushDiffers(s.queues, QueueOf(p'), Entry(id, p'.generation));
  }

  /** The stream's priority after n changes. */
  function PriorityAfter(n: nat): Priority { Priority(3, n % 2 == 0, n % (MAX_GENERATION + 1)) }

  lemma NextPriority(n: nat)
    requires n <= MAX_GENERATION
    ensures var p, p' := PriorityAfter(n), PriorityAfter(n + 1);
            && p.urgency == 3 && p.generation == n
            && p' == Priority(3, !p.incremental, (p.generation + 1) % (MAX_GENERATION + 1))
            && (p'.generation == 0 <==> n == MAX_GENERATION)
  {
  }

  /** n changes, each with its update. */
  lemma {:induction false} AfterChanges(n: nat) returns (steps: seq<Step>)
    requires n <= MAX_GENERATION + 1
    ensures IsRun(Initial(), steps) && Changes(Initial(), steps, 0) == n
    ensures Queued(Final(Initial(), steps), 0, PriorityAfter(n), if n <= MAX_GENERATION then 1 else 2)
  {
    hide Total, Queued, PriorityAfter, Initial;
    if n == 0 {
      steps := FirstQueued();
      assert PriorityAfter(0) == DEFAULT_PRIORITY by { FirstPriority(); }
    } else {
      var before := AfterChanges(n - 1);
      NextPriority(n - 1);
      steps := OneMoreChange(before, PriorityAfter(n - 1), 1);
    }
  }

  lemma FirstPriority()
    ensures PriorityAfter(0) == DEFAULT_PRIORITY
  {
  }

  lemma {:induction false} OneMoreChange(before: seq<Step>, p: Priority, n: nat) returns (steps: seq<Step>)
    requires IsRun(Initial(), before) && Queued(Final(Initial(), before), 0, p, n) && p.urgency == 3
    requires p.generation <= MAX_GENERATION
    ensures IsRun(Initial(), steps) && Changes(Initial(), steps, 0) == Changes(Initial(), before, 0) + 1
    ensures var p' := Priority(3, !p.incremental, (p.generation + 1) % (MAX_GENERATION + 1));
            Queued(Final(Initial(), steps), 0, p', n + if p'.generation == 0 then 1 else 0)
  {
    hide Total, Initial, IsRun, Final, Changes, Push, Changed;
    var change, update := SetPriority(0, 3, !p.incremental), UpdateStreamPriority(0);
    var s := Final(Initial(), before);
    Toggle(s, 0, p, n);
    RunSnoc(Initial(), before, change);
    RunSnoc(Initial(), before + [change], update);
    steps := before + [change] + [update];
  }

  lemma FirstQueued() returns (steps: seq<Step>)
    ensures IsRun(Initial(), steps) && forall id :: Changes(Initial(), steps, id) == 0
    ensures Queued(Final(Initial(), steps), 0, DEFAULT_PRIORITY, 1)
  {
    hide Total, Occurs;
    var s0 := Initial();
    RunSnoc(s0, [], OpenStream(0));
    assert [] + [OpenStream(0)] == [OpenStream(0)];
    var s1 := Apply(s0, OpenStream(0));
    RunSnoc(s0, [OpenStream(0)], AddActiveStream(0));
    steps := [OpenStream(0)] + [AddActiveStream(0)];
    NothingQueued(2 * LEVELS, Entry(0, 0));
    PushDiffers(s1.queues, QueueOf(DEFAULT_PRIORITY), Entry(0, 0));
  }

  /** With 2^32 priority changes the first entry becomes live again: a stream has two live entries. */
  lemma GenerationsWrapAround() returns (steps: seq<Step>)
    ensures IsRun(Initial(), steps) && Changes(Initial(), steps, 0) == MAX_GENERATION + 1
    ensures var s := Final(Initial(), steps);
            0 in s.active && 0 !in s.pending && 0 in s.priority && Total(s.queues, Live(s, 0)) == 2
  {
    hide Total;
    steps := AfterChanges(MAX_GENERATION + 1);
    NextPriority(MAX_GENERATION);
  }

  /** A stream that is removed and then added again also has two live entries. */
  lemma RemovedStreamReturns() returns (steps: seq<Step>)
    ensures IsRun(Initial(), steps) && forall id :: Changes(Initial(), steps, id) == 0
    ensures var s := Final(Initial(), steps);
            0 in s.active && 0 !in s.pending && 0 in s.priority && Total(s.queues, Live(s, 0)) == 2
  {
    hide Total;
    var first := FirstQueued();
    var s := Final(Initial(), first);
    RunSnoc(Initial(), first, RemoveActiveStream(0));
    var s1 := Apply(s, RemoveActiveStream(0));
    RunSnoc(Initial(), first + [RemoveActiveStream(0)], AddActiveStream(0));
    steps := first + [RemoveActiveStream(0)] + [AddActiveStream(0)];
    PushDiffers(s1.queues, QueueOf(DEFAULT_PRIORITY), Entry(0, 0));
  }
}
