/**
 The reassembly buffer of a stream: received frames arrive in any order, overlap and repeat,
 and the sorter keeps a queue of non-overlapping entries plus the list of gaps between them.
 */
module FrameSorting {
  import opened Common
  import opened GapList

  const MIN_STREAM_FRAME_BUFFER_SIZE: nat := 128
  const MAX_STREAM_FRAME_SORTER_GAPS: nat := 1000

  /** Received bytes, and the callback that gives their buffer back to its pool. */
  datatype Entry = Entry(data: seq<byte>, doneCb: Option<nat>)

  type Queue = map<nat, Entry>

  datatype PushResult = Accepted | Duplicate | TooManyGaps

  /** The value of a sorter, as the layers above it see it. */
  datatype Sorter = Sorter(queue: Queue, readPos: nat, gaps: seq<Gap>)

  // ---------------------------------------------------------------- the tiling

  ghost predicate Covers(q: Queue, k: nat, x: nat) {
    k in q && k <= x < k + |q[k].data|
  }

  ghost predicate Held(q: Queue, x: nat) {
    exists k: nat :: Covers(q, k, x)
  }

  /** Entries are non-empty and pairwise disjoint. */
  ghost predicate EntriesOk(q: Queue) {
    && (forall k :: k in q ==> |q[k].data| > 0)
    && (forall k, l :: k in q && l in q && k < l ==> k + |q[k].data| <= l)
  }

  /** Entries and gaps tile [readPos, MAX_BYTE_COUNT): every offset is in exactly one of them. */
  ghost predicate Tiled(s: Sorter) {
    && GapsOk(s.gaps)
    && EntriesOk(s.queue)
    && s.readPos <= s.gaps[0].start
    && (forall k :: k in s.queue ==> s.readPos <= k)
    && (forall k: nat, x: nat :: Covers(s.queue, k, x) ==> x < MAX_BYTE_COUNT && !InGaps(s.gaps, x))
    && (forall x: nat :: s.readPos <= x < MAX_BYTE_COUNT ==> InGaps(s.gaps, x) || Held(s.queue, x))
  }

  ghost predicate EndsAt(q: Queue, p: nat) {
    exists k :: k in q && k + |q[k].data| == p
  }

  lemma OutsideGaps(gaps: seq<Gap>, m: nat, x: nat)
    requires GapsOk(gaps) && m < |gaps|
    requires m > 0 ==> gaps[m - 1].end <= x
    requires x < gaps[m].start
    ensures !InGaps(gaps, x)
  {
  }

  lemma NoEntrySpans(q: Queue, p: nat, k: nat)
    requires EntriesOk(q) && EndsAt(q, p) && k in q
    ensures p <= k || k + |q[k].data| <= p
  {
    var l :| l in q && l + |q[l].data| == p;
    assert k < l || k == l || l < k;
  }

  /** A tile boundary outside every gap is where an entry starts. */
  lemma BoundaryIsKey(s: Sorter, p: nat)
    requires Tiled(s) && s.readPos <= p < MAX_BYTE_COUNT && !InGaps(s.gaps, p)
    requires p == s.readPos || InGaps(s.gaps, p - 1) || EndsAt(s.queue, p)
    ensures p in s.queue
  {
    assert Held(s.queue, p);
    var k: nat :| Covers(s.queue, k, p);
    if EndsAt(s.queue, p) {
      NoEntrySpans(s.queue, p, k);
    } else if p != s.readPos {
      assert !Covers(s.queue, k, p - 1);
    }
  }

  /** q is q0 without the entries that start in [a, b). */
  ghost predicate Without(q0: Queue, q: Queue, a: nat, b: nat) {
    && (forall k :: k in q <==> k in q0 && !(a <= k < b))
    && (forall k :: k in q ==> q[k] == q0[k])
  }

  /** A frame [a, b) splits no entry: it covers each one whole or not at all. */
  ghost predicate Aligned(q: Queue, a: nat, b: nat) {
    forall k :: k in q ==> k + |q[k].data| <= a || b <= k || (a <= k && k + |q[k].data| <= b)
  }

  /** Putting a frame over entries it covers whole, and taking its bytes out of the gaps, keeps the tiling. */
  lemma TiledAfterPush(s: Sorter, rest: Queue, a: nat, b: nat, e: Entry, gaps: seq<Gap>)
    requires Tiled(s) && s.readPos <= a < b < MAX_BYTE_COUNT && |e.data| == b - a
    requires Aligned(s.queue, a, b) && Without(s.queue, rest, a, b)
    requires GapsOk(gaps) && s.readPos <= gaps[0].start
    requires forall x: nat :: InGaps(gaps, x) <==> InGaps(s.gaps, x) && !(a <= x < b)
    ensures Tiled(Sorter(rest[a := e], s.readPos, gaps))
  {
    var q := rest[a := e];
    forall k: nat, x: nat | Covers(q, k, x) ensures x < MAX_BYTE_COUNT && !InGaps(gaps, x) {
      if k != a { assert Covers(s.queue, k, x); }
    }
    forall x: nat | s.readPos <= x < MAX_BYTE_COUNT ensures InGaps(gaps, x) || Held(q, x) {
      if a <= x < b {
        assert Covers(q, a, x);
      } else if !InGaps(s.gaps, x) {
        assert Held(s.queue, x);
        var k: nat :| Covers(s.queue, k, x);
        assert Covers(q, k, x);
      }
    }
  }

  // ---------------------------------------------------------------- a push, on values

  function Part(data: seq<byte>, lo: int, hi: int): seq<byte> {
    if 0 <= lo <= hi <= |data| then data[lo..hi] else []
  }

  function CallbackList(cb: Option<nat>): seq<nat> {
    if cb.Some? then [cb.value] else []
  }

  /** Entries taken out of the queue, the callbacks invoked for them, and where it stopped. */
  datatype Dropped = Dropped(queue: Queue, released: seq<nat>, end: nat)

  /** Deletes consecutive entries starting at p. */
  function DropRun(q: Queue, p: nat): Dropped
    decreases |q.Keys|
  {
    if p !in q then Dropped(q, [], p) else
      assert (q - {p}).Keys == q.Keys - {p};
      var r := DropRun(q - {p}, p + |q[p].data|);
      r.(released := CallbackList(q[p].doneCb) + r.released)
  }

  datatype Replacement = Replacement(queue: Queue, released: seq<nat>, pos: nat, replaced: bool, duplicate: bool,
                                     cut: bool)

  /** Replaces entries that the frame covers, starting at pos; stops at one that reaches further. */
  function Replace(q: Queue, pos: nat, end: nat, replaced: bool): Replacement
    decreases |q.Keys|
  {
    if pos !in q then Replacement(q, [], pos, replaced, false, false) else
      var n: nat := |q[pos].data|;
      if end - pos > n || (replaced && end - pos == n) then
        assert (q - {pos}).Keys == q.Keys - {pos};
        var r := Replace(q - {pos}, pos + n, end, true);
        r.(released := CallbackList(q[pos].doneCb) + r.released)
      else
        Replacement(q, [], pos, replaced, !replaced, replaced)
  }

  lemma {:induction false} ReplaceBounds(q: Queue, pos: nat, end: nat, replaced: bool)
    requires pos <= end
    ensures var r := Replace(q, pos, end, replaced);
            pos <= r.pos <= end && (r.cut ==> r.replaced) && (r.duplicate ==> !replaced)
    decreases |q.Keys|
  {
    if pos in q {
      var n: nat := |q[pos].data|;
      if end - pos > n || (replaced && end - pos == n) {
        assert (q - {pos}).Keys == q.Keys - {pos};
        ReplaceBounds(q - {pos}, pos + n, end, true);
      }
    }
  }

  /** Deletes the run of entries behind each of the given gaps. */
  function DropBehind(q: Queue, gaps: seq<Gap>): Dropped
    decreases |gaps|
  {
    if gaps == [] then Dropped(q, [], 0) else
      var d := DropRun(q, gaps[0].end);
      var r := DropBehind(d.queue, gaps[1..]);
      r.(released := d.released + r.released)
  }

  /** The first gap from i on that ends at or behind x, or else the last one. */
  function StartGap(gaps: seq<Gap>, x: nat, i: nat): (r: nat)
    requires i < |gaps|
    ensures i <= r < |gaps| && (r > i ==> gaps[r - 1].end < x) && (x <= gaps[r].end || r == |gaps| - 1)
    decreases |gaps| - i
  {
    if x <= gaps[i].end || i + 1 == |gaps| then i else StartGap(gaps, x, i + 1)
  }

  /** The last gap from i on that starts at or before x; i - 1 if there is none. */
  function EndGap(gaps: seq<Gap>, x: nat, i: nat): (r: int)
    requires i < |gaps|
    ensures i - 1 <= r < |gaps| && (r == i - 1 <==> x < gaps[i].start)
    ensures r >= i ==> gaps[r].start <= x
    ensures r + 1 < |gaps| ==> x < gaps[r + 1].start
    decreases |gaps| - i
  {
    if x < gaps[i].start then i - 1
    else if i + 1 == |gaps| then i
    else EndGap(gaps, x, i + 1)
  }

  /** What a frame leaves of the gap it starts in, before its end is looked at. */
  function StartPiece(g: Gap, start: nat, end: nat, replaced: bool): seq<Gap> {
    if start > g.start then (if replaced then [g] else [Gap(g.start, start)])
    else if end >= g.end then []
    else [Gap(end, g.end)]
  }

  /** What is left of the gap the frame ends in, unless the start piece already is that. */
  function EndPiece(s: Sorter, i: nat, j: nat, a: nat, b: nat, replaced: bool): seq<Gap>
    requires i <= j < |s.gaps|
  {
    if b != s.gaps[j].end && (i < j || (a > s.gaps[i].start && !replaced)) then [Gap(b, s.gaps[j].end)] else []
  }

  /** Where the frame ends once bytes behind the last gap it reaches have been cut off. */
  function FinalEnd(g: Gap, a: nat, end: nat): nat {
    if a != g.end && end > g.end then g.end else end
  }

  /** The start and end of what is stored, once the frame has been shortened. */
  function StoredStart(s: Sorter, offset: nat, i: nat, rep: Replacement): nat
    requires i < |s.gaps|
  {
    if offset < s.gaps[i].start && !rep.replaced then s.gaps[i].start else offset
  }

  function StoredEnd(s: Sorter, offset: nat, end0: nat, i: nat, j: nat, rep: Replacement): nat
    requires i <= j < |s.gaps|
  {
    FinalEnd(s.gaps[j], StoredStart(s, offset, i, rep), if rep.cut then rep.pos else end0)
  }

  /** The queue once every entry in the way of the frame has been deleted. */
  function Cleared(s: Sorter, i: nat, j: nat, rep: Replacement): Dropped
    requires i <= j < |s.gaps|
  {
    if i == j then Dropped(rep.queue, [], 0) else DropBehind(rep.queue, s.gaps[i..j])
  }

  datatype Pushed = Pushed(result: PushResult, sorter: Sorter, released: seq<nat>)

  /** The gap list once the frame has been taken out of it. */
  function NewGaps(s: Sorter, offset: nat, end0: nat, i: nat, j: nat, rep: Replacement): seq<Gap>
    requires i <= j < |s.gaps|
  {
    var a, b := StoredStart(s, offset, i, rep), StoredEnd(s, offset, end0, i, j, rep);
    var end := if rep.cut then rep.pos else end0;
    s.gaps[..i] +
    (StartPiece(s.gaps[i], a, end, rep.replaced) + EndPiece(s, i, j, a, b, rep.replaced)) +
    s.gaps[j + 1..]
  }

  /** A frame that was cut down to a few bytes is copied, so that its buffer can be released. */
  predicate Copied(s: Sorter, offset: nat, end0: nat, i: nat, j: nat, rep: Replacement)
    requires i <= j < |s.gaps|
  {
    var a, b := StoredStart(s, offset, i, rep), StoredEnd(s, offset, end0, i, j, rep);
    var end := if rep.cut then rep.pos else end0;
    (rep.cut || a != offset || b != end) && b - a < MIN_STREAM_FRAME_BUFFER_SIZE
  }

  function NewEntry(s: Sorter, data: seq<byte>, offset: nat, doneCb: Option<nat>, i: nat, j: nat,
                    rep: Replacement): Entry
    requires i <= j < |s.gaps|
  {
    var end0 := offset + |data|;
    var a, b := StoredStart(s, offset, i, rep), StoredEnd(s, offset, end0, i, j, rep);
    Entry(Part(data, a - offset, b - offset), if Copied(s, offset, end0, i, j, rep) then None else doneCb)
  }

  function NewSorter(s: Sorter, data: seq<byte>, offset: nat, doneCb: Option<nat>, i: nat, j: nat,
                     rep: Replacement): Sorter
    requires i <= j < |s.gaps|
  {
    Sorter(Cleared(s, i, j, rep).queue[StoredStart(s, offset, i, rep) := NewEntry(s, data, offset, doneCb, i, j, rep)],
           s.readPos,
           NewGaps(s, offset, offset + |data|, i, j, rep))
  }

  function NewlyReleased(s: Sorter, offset: nat, end0: nat, doneCb: Option<nat>, i: nat, j: nat,
                         rep: Replacement): seq<nat>
    requires i <= j < |s.gaps|
  {
    rep.released + Cleared(s, i, j, rep).released +
    (if Copied(s, offset, end0, i, j, rep) then CallbackList(doneCb) else [])
  }

  /** What the checks at the start of a push find out. */
  datatype Decision = AllReceived | InsertAt(i: nat, j: nat, rep: Replacement)

  function Decide(s: Sorter, offset: nat, end: nat): (d: Decision)
    requires |s.gaps| > 0
    ensures d.InsertAt? ==> d.i <= d.j < |s.gaps|
  {
    if offset >= end || end <= s.gaps[0].start then AllReceived else
      var i := StartGap(s.gaps, offset, 0);
      var j := EndGap(s.gaps, end, i);
      if end <= s.gaps[i].start then AllReceived else
        var rep := Replace(s.queue, offset, end, false);
        if rep.duplicate then AllReceived else InsertAt(i, j, rep)
  }

  /** The inner push: reports a duplicate when it finds that no byte of the frame is missing. */
  function TryPush(s: Sorter, data: seq<byte>, offset: nat, doneCb: Option<nat>): Pushed
    requires |s.gaps| > 0
  {
    match Decide(s, offset, offset + |data|)
    case AllReceived => Pushed(Duplicate, s, [])
    case InsertAt(i, j, rep) =>
      var gaps := NewGaps(s, offset, offset + |data|, i, j, rep);
      var released := NewlyReleased(s, offset, offset + |data|, doneCb, i, j, rep);
      if |gaps| > MAX_STREAM_FRAME_SORTER_GAPS then
        Pushed(TooManyGaps, Sorter(Cleared(s, i, j, rep).queue, s.readPos, gaps), released)
      else
        Pushed(Accepted, NewSorter(s, data, offset, doneCb, i, j, rep), released)
  }

  /** The push that callers use: the buffer of a duplicate is released at once. */
  function Push(s: Sorter, data: seq<byte>, offset: nat, doneCb: Option<nat>): Pushed
    requires |s.gaps| > 0
  {
    var p := TryPush(s, data, offset, doneCb);
    if p.result.Duplicate? then p.(released := CallbackList(doneCb)) else p
  }

  // ---------------------------------------------------------------- runs of entries

  /** [p, e) is covered by whole consecutive entries of q, the first one starting at p. */
  ghost predicate Run(q: Queue, p: nat, e: nat) {
    && p <= e
    && (p < e ==> p in q && EndsAt(q, e))
    && (forall k :: k in q && p <= k < e ==> k + |q[k].data| <= e)
    && (forall x :: p <= x < e ==> Held(q, x))
  }

  /** An entry in front of a run of the remaining ones makes a longer run. */
  lemma RunCons(q: Queue, rest: Queue, p: nat, e: nat)
    requires EntriesOk(q) && p in q && Run(q - {p}, p + |q[p].data|, e)
    requires Without(q - {p}, rest, p + |q[p].data|, e)
    ensures Run(q, p, e) && Without(q, rest, p, e)
  {
    var p' := p + |q[p].data|;
    forall x | p <= x < e ensures Held(q, x) {
      if x < p' {
        assert Covers(q, p, x);
      } else {
        assert Held(q - {p}, x);
        var k: nat :| Covers(q - {p}, k, x);
        assert Covers(q, k, x);
      }
    }
    if p' < e {
      var k :| k in q - {p} && k + |(q - {p})[k].data| == e;
      assert k in q && k + |q[k].data| == e;
    }
  }

  lemma {:induction false} DropRunIsRun(q: Queue, p: nat)
    requires EntriesOk(q)
    ensures var d := DropRun(q, p); Run(q, p, d.end) && d.end !in q && Without(q, d.queue, p, d.end)
    decreases |q.Keys|
  {
    if p in q {
      assert (q - {p}).Keys == q.Keys - {p};
      DropRunIsRun(q - {p}, p + |q[p].data|);
      RunCons(q, DropRun(q, p).queue, p, DropRun(q, p).end);
    }
  }

  /** What the replacement loop establishes when it does not report a duplicate. */
  ghost predicate Replaced(q: Queue, pos: nat, end: nat, r: Replacement) {
    && pos <= r.pos <= end
    && Run(q, pos, r.pos) && Without(q, r.queue, pos, r.pos)
    && (if r.cut then r.pos in q && end < r.pos + |q[r.pos].data| else r.pos !in q)
  }

  lemma ReplacedCons(q: Queue, pos: nat, end: nat, r: Replacement, released: seq<nat>)
    requires EntriesOk(q) && pos in q && Replaced(q - {pos}, pos + |q[pos].data|, end, r)
    ensures Replaced(q, pos, end, r.(released := released))
  {
    RunCons(q, r.queue, pos, r.pos);
  }

  /** The replacement loop removes a run, and stops at a missing entry or at one that reaches behind the frame. */
  lemma {:induction false} ReplaceIsRun(q: Queue, pos: nat, end: nat, replaced: bool)
    requires EntriesOk(q) && pos <= end
    ensures var r := Replace(q, pos, end, replaced);
            if r.duplicate then !replaced && pos in q && end <= pos + |q[pos].data|
            else Replaced(q, pos, end, r) && (r.replaced <==> replaced || pos < r.pos) && (r.cut ==> r.replaced)
    decreases end - pos
  {
    if pos in q {
      var n: nat := |q[pos].data|;
      if end - pos > n || (replaced && end - pos == n) {
        ReplaceIsRun(q - {pos}, pos + n, end, true);
        var r := Replace(q - {pos}, pos + n, end, true);
        ReplacedCons(q, pos, end, r, CallbackList(q[pos].doneCb) + r.released);
      }
    }
  }

  /** A run that stops at a missing entry, before the next gap at the latest, stops at that gap. */
  lemma RunReachesGap(s: Sorter, p: nat, e: nat, m: nat)
    requires Tiled(s) && Run(s.queue, p, e) && e !in s.queue
    requires m < |s.gaps| && p <= s.gaps[m].start && s.readPos <= p
    requires m > 0 ==> s.gaps[m - 1].end <= p
    requires p == s.readPos || InGaps(s.gaps, p - 1) || p in s.queue
    ensures e == s.gaps[m].start
  {
    var g := s.gaps[m];
    assert InGaps(s.gaps, g.start);
    RunStopsAtGap(s, p, e, g.start);
    if e < g.start {
      OutsideGaps(s.gaps, m, e);
      BoundaryIsKey(s, e);
    }
  }

  lemma NoKeysInGap(s: Sorter, k: nat)
    requires Tiled(s) && k in s.queue
    ensures !InGaps(s.gaps, k)
  {
    assert Covers(s.queue, k, k);
  }

  // ---------------------------------------------------------------- callbacks

  /** The callbacks of the entries that start in [a, b), in stream order. */
  ghost function CallbacksIn(q: Queue, a: nat, b: nat): seq<nat>
    decreases b - a
  {
    if a >= b then [] else
      (if a in q then CallbackList(q[a].doneCb) else []) + CallbacksIn(q, a + 1, b)
  }

  /** The callbacks sitting in entries below limit, with multiplicity. */
  ghost function Callbacks(q: Queue, limit: nat): multiset<nat> {
    multiset(CallbacksIn(q, 0, limit))
  }

  lemma {:induction false} CallbacksSplit(q: Queue, a: nat, b: nat, c: nat)
    requires a <= b <= c
    ensures CallbacksIn(q, a, c) == CallbacksIn(q, a, b) + CallbacksIn(q, b, c)
    decreases b - a
  {
    if a < b {
      CallbacksSplit(q, a + 1, b, c);
    }
  }

  lemma {:induction false} CallbacksAgree(q: Queue, r: Queue, a: nat, b: nat)
    requires forall k: nat :: a <= k < b ==> (k in q <==> k in r) && (k in q ==> q[k] == r[k])
    ensures CallbacksIn(q, a, b) == CallbacksIn(r, a, b)
    decreases b - a
  {
    if a < b {
      CallbacksAgree(q, r, a + 1, b);
    }
  }

  lemma {:induction false} CallbacksNone(q: Queue, a: nat, b: nat)
    requires forall k: nat :: a <= k < b ==> k !in q
    ensures CallbacksIn(q, a, b) == []
    decreases b - a
  {
    if a < b {
      CallbacksNone(q, a + 1, b);
    }
  }

  /** Removing the entries of [a, b) removes exactly their callbacks. */
  lemma CallbacksWithout(q: Queue, rest: Queue, a: nat, b: nat, limit: nat)
    requires Without(q, rest, a, b) && a <= b <= limit
    ensures Callbacks(q, limit) == multiset(CallbacksIn(q, a, b)) + Callbacks(rest, limit)
  {
    hide CallbacksIn;
    CallbacksSplit(q, 0, a, limit);
    CallbacksSplit(q, a, b, limit);
    CallbacksSplit(rest, 0, a, limit);
    CallbacksSplit(rest, a, b, limit);
    CallbacksAgree(q, rest, 0, a);
    CallbacksNone(rest, a, b);
    CallbacksAgree(q, rest, b, limit);
  }

  lemma CallbacksInsert(q: Queue, k: nat, e: Entry, limit: nat)
    requires k !in q && k < limit
    ensures Callbacks(q[k := e], limit) == Callbacks(q, limit) + multiset(CallbackList(e.doneCb))
  {
    CallbacksWithout(q[k := e], q, k, k + 1, limit);
    assert CallbacksIn(q[k := e], k + 1, k + 1) == [];
    assert CallbacksIn(q[k := e], k, k + 1) == CallbackList(e.doneCb);
  }

  /** The callbacks of an entry and of the run behind it. */
  lemma CallbacksCons(q: Queue, p: nat, e: nat)
    requires EntriesOk(q) && p in q && p + |q[p].data| <= e
    ensures CallbacksIn(q, p, e) == CallbackList(q[p].doneCb) + CallbacksIn(q - {p}, p + |q[p].data|, e)
  {
    var p' := p + |q[p].data|;
    CallbacksSplit(q, p, p + 1, e);
    CallbacksSplit(q, p + 1, p', e);
    CallbacksNone(q, p + 1, p');
    CallbacksAgree(q, q - {p}, p', e);
    assert CallbacksIn(q, p + 1, p + 1) == [];
  }

  lemma CallbacksEmpty(q: Queue, p: nat)
    ensures CallbacksIn(q, p, p) == []
  {
  }

  lemma EntriesRemove(q: Queue, p: nat)
    requires EntriesOk(q) && p in q
    ensures EntriesOk(q - {p}) && |(q - {p}).Keys| < |q.Keys|
  {
    assert (q - {p}).Keys == q.Keys - {p};
  }

  lemma {:induction false} DropRunReleases(q: Queue, p: nat)
    requires EntriesOk(q)
    ensures var d := DropRun(q, p); p <= d.end && d.released == CallbacksIn(q, p, d.end)
    decreases |q.Keys|
  {
    hide CallbacksIn, EntriesOk;
    CallbacksEmpty(q, p);
    if p in q {
      EntriesRemove(q, p);
      DropRunReleases(q - {p}, p + |q[p].data|);
      CallbacksCons(q, p, DropRun(q, p).end);
    }
  }

  lemma {:induction false} ReplaceReleases(q: Queue, pos: nat, end: nat, replaced: bool)
    requires EntriesOk(q)
    ensures var r := Replace(q, pos, end, replaced); pos <= r.pos && r.released == CallbacksIn(q, pos, r.pos)
    decreases |q.Keys|
  {
    hide CallbacksIn, EntriesOk;
    CallbacksEmpty(q, pos);
    if pos in q {
      var n: nat := |q[pos].data|;
      if end - pos > n || (replaced && end - pos == n) {
        EntriesRemove(q, pos);
        ReplaceReleases(q - {pos}, pos + n, end, true);
        CallbacksCons(q, pos, Replace(q, pos, end, replaced).pos);
      }
    }
  }

  // ---------------------------------------------------------------- where a frame lands

  lemma RunStopsAtGap(s: Sorter, p: nat, e: nat, g: nat)
    requires Tiled(s) && Run(s.queue, p, e) && p <= g && InGaps(s.gaps, g)
    ensures e <= g
  {
    assert !Held(s.queue, g);
  }

  lemma EntryStopsAtGap(s: Sorter, k: nat, g: nat)
    requires Tiled(s) && k in s.queue && k <= g && InGaps(s.gaps, g)
    ensures k + |s.queue[k].data| <= g
  {
    assert !Covers(s.queue, k, g);
  }

  /** The frame starts on an entry before gap i: it replaces everything up to that gap. */
  lemma ReplacedBeforeGap(s: Sorter, i: nat, j: nat, start: nat, end: nat, r: Replacement)
    requires Tiled(s) && Located(s.gaps, i, j, start, end) && Replaced(s.queue, start, end, r)
    requires start < r.pos && start < s.gaps[i].start
    ensures r.pos == s.gaps[i].start && !r.cut
  {
    var g := s.gaps[i].start;
    assert InGaps(s.gaps, g);
    RunStopsAtGap(s, start, r.pos, g);
    if r.cut {
      EntryStopsAtGap(s, r.pos, g);
    }
    RunReachesGap(s, start, r.pos, i);
  }

  /** The frame starts on the entry right behind gap i. */
  lemma ReplacedBehindGap(s: Sorter, i: nat, j: nat, start: nat, end: nat, r: Replacement)
    requires Tiled(s) && Located(s.gaps, i, j, start, end) && Replaced(s.queue, start, end, r)
    requires start == s.gaps[i].end && end < MAX_BYTE_COUNT && (r.cut ==> start < r.pos)
    ensures start < r.pos
    ensures i == j ==> r.cut
    ensures i < j ==> r.pos == s.gaps[i + 1].start && !r.cut
  {
    assert i + 1 < |s.gaps|;
    OutsideGaps(s.gaps, i + 1, start);
    assert InGaps(s.gaps, start - 1);
    var g := s.gaps[i + 1].start;
    assert InGaps(s.gaps, g);
    BoundaryIsKey(s, start);
    if r.cut {
      if g <= end {
        RunStopsAtGap(s, start, r.pos, g);
        EntryStopsAtGap(s, r.pos, g);
      }
    } else {
      RunReachesGap(s, start, r.pos, i + 1);
    }
  }

  /** A frame whose ends are on tile boundaries or in gaps splits no entry. */
  lemma AlignedEnds(s: Sorter, a: nat, b: nat)
    requires Tiled(s) && s.readPos <= a < b
    requires a in s.queue || InGaps(s.gaps, a)
    requires b in s.queue || InGaps(s.gaps, b) || InGaps(s.gaps, b - 1)
    ensures Aligned(s.queue, a, b)
  {
    forall k | k in s.queue
      ensures k + |s.queue[k].data| <= a || b <= k || (a <= k && k + |s.queue[k].data| <= b)
    {
      var e := k + |s.queue[k].data|;
      if k < a < e {
        assert Covers(s.queue, k, a);
      }
      if k < b < e {
        assert Covers(s.queue, k, b) && Covers(s.queue, k, b - 1);
      }
    }
  }

  /** No entry starts inside gap m, so removing up to lo removes up to b as well. */
  lemma WithoutThroughGap(s: Sorter, q: Queue, a: nat, lo: nat, b: nat, m: nat)
    requires Tiled(s) && Without(s.queue, q, a, lo) && a <= lo <= b
    requires m < |s.gaps| && s.gaps[m].start <= lo && b <= s.gaps[m].end
    ensures Without(s.queue, q, a, b)
  {
    forall k | k in s.queue ensures !(lo <= k < b) {
      NoKeysInGap(s, k);
    }
  }

  lemma WithoutOk(s: Sorter, q: Queue, a: nat, b: nat)
    requires Tiled(s) && Without(s.queue, q, a, b)
    ensures EntriesOk(q) && forall k :: k in q ==> k + |q[k].data| <= MAX_BYTE_COUNT
  {
    forall k | k in q ensures k + |q[k].data| <= MAX_BYTE_COUNT {
      assert Covers(s.queue, k, k + |q[k].data| - 1);
    }
  }

  /** Deleting the run of entries behind gap m removes everything up to gap m + 1. */
  lemma WithoutThroughRun(s: Sorter, q: Queue, rest: Queue, a: nat, lo: nat, m: nat, e: nat)
    requires Tiled(s) && Without(s.queue, q, a, lo) && m + 1 < |s.gaps|
    requires a <= lo && s.gaps[m].start <= lo <= s.gaps[m].end
    requires Run(q, s.gaps[m].end, e) && e !in q && Without(q, rest, s.gaps[m].end, e)
    ensures Without(s.queue, rest, a, s.gaps[m + 1].start)
  {
    var p := s.gaps[m].end;
    WithoutThroughGap(s, q, a, lo, p, m);
    forall x | p <= x < e ensures Held(s.queue, x) {
      assert Held(q, x);
      var k: nat :| Covers(q, k, x);
      assert Covers(s.queue, k, x);
    }
    assert InGaps(s.gaps, p - 1);
    RunReachesGap(s, p, e, m + 1);
  }

  /**
   The state of a push once entries at its start have been replaced: the frame is now [a, end),
   and exactly the entries in [a, lo) are gone. It starts on an entry before gap i, on the entry
   right behind gap i, or in gap i.
   */
  ghost predicate Placed(s: Sorter, i: nat, j: nat, offset: nat, end0: nat, a: nat, end: nat, lo: nat, replaced: bool) {
    && Tiled(s) && Located(s.gaps, i, j, offset, end0) && end0 < MAX_BYTE_COUNT
    && (if !replaced then
          end == end0 && lo == a == Max(offset, s.gaps[i].start) && a < s.gaps[i].end
        else
          && a == offset && a in s.queue
          && (if a < s.gaps[i].start then end == end0 && lo == s.gaps[i].start
              else
                && a == s.gaps[i].end
                && (if i == j then a < end == lo <= end0 && end in s.queue
                    else end == end0 && lo == s.gaps[i + 1].start)))
  }

  lemma ReplacedIsPlaced(s: Sorter, i: nat, j: nat, offset: nat, end0: nat, r: Replacement)
    requires Tiled(s) && Located(s.gaps, i, j, offset, end0) && end0 < MAX_BYTE_COUNT
    requires Replaced(s.queue, offset, end0, r) && (r.cut ==> offset < r.pos) && (r.replaced <==> offset < r.pos)
    ensures offset < r.pos ==> Placed(s, i, j, offset, end0, offset, if r.cut then r.pos else end0, r.pos, true)
    ensures offset == r.pos ==> !r.cut && var a := Max(offset, s.gaps[i].start);
                              Placed(s, i, j, offset, end0, a, end0, a, false)
  {
    if offset == s.gaps[i].end {
      ReplacedBehindGap(s, i, j, offset, end0, r);
    } else if offset < r.pos {
      NoKeysInGap(s, offset);
      ReplacedBeforeGap(s, i, j, offset, end0, r);
    }
  }

  lemma PlacedIsTrimmed(s: Sorter, i: nat, j: nat, offset: nat, end0: nat, a: nat, end: nat, lo: nat, replaced: bool)
    requires Placed(s, i, j, offset, end0, a, end, lo, replaced)
    ensures var b := FinalEnd(s.gaps[j], a, end);
            && Trimmed(s.gaps, i, j, offset, end0, a, b)
            && s.readPos <= a
            && Aligned(s.queue, a, b)
  {
    var b := FinalEnd(s.gaps[j], a, end);
    assert i < j ==> s.gaps[i].end < s.gaps[j].start;
    if !replaced {
      assert InGaps(s.gaps, a);
    }
    if b != lo || !replaced {
      if b < s.gaps[j].end {
        assert InGaps(s.gaps, b);
      } else {
        assert InGaps(s.gaps, b - 1);
      }
    }
    AlignedEnds(s, a, b);
  }

  /** Dropping the runs behind gaps i to j - 1 empties everything from a up to gap j. */
  lemma {:induction false} DropBehindEmpties(s: Sorter, q: Queue, a: nat, lo: nat, i: nat, j: nat)
    requires Tiled(s) && i < j < |s.gaps| && a <= lo && Without(s.queue, q, a, lo)
    requires s.gaps[i].start <= lo <= s.gaps[i].end || (a == s.gaps[i].end && lo == s.gaps[i + 1].start)
    ensures Without(s.queue, DropBehind(q, s.gaps[i..j]).queue, a, s.gaps[j].start)
    decreases j - i
  {
    var p := s.gaps[i].end;
    var d := DropRun(q, p);
    assert s.gaps[i..j][1..] == s.gaps[i + 1..j];
    if lo <= p {
      WithoutOk(s, q, a, lo);
      DropRunIsRun(q, p);
      WithoutThroughRun(s, q, d.queue, a, lo, i, d.end);
    }
    assert Without(s.queue, d.queue, a, s.gaps[i + 1].start);
    if i + 1 < j {
      DropBehindEmpties(s, d.queue, a, s.gaps[i + 1].start, i + 1, j);
    }
  }

  // ---------------------------------------------------------------- what a push does

  /** A push that got past the duplicate checks. */
  ghost predicate Inserting(s: Sorter, offset: nat, end0: nat, i: nat, j: nat, rep: Replacement) {
    && Tiled(s) && Located(s.gaps, i, j, offset, end0) && end0 < MAX_BYTE_COUNT
    && rep == Replace(s.queue, offset, end0, false) && !rep.duplicate
  }

  lemma InsertingIsPlaced(s: Sorter, offset: nat, end0: nat, i: nat, j: nat, rep: Replacement)
    requires Inserting(s, offset, end0, i, j, rep)
    ensures var a := StoredStart(s, offset, i, rep);
            var lo := if rep.replaced then rep.pos else a;
            && Placed(s, i, j, offset, end0, a, if rep.cut then rep.pos else end0, lo, rep.replaced)
            && Without(s.queue, rep.queue, a, lo)
  {
    ReplaceIsRun(s.queue, offset, end0, false);
    ReplacedIsPlaced(s, i, j, offset, end0, rep);
  }

  /** Every entry in the way of the stored frame is gone, and no other. */
  lemma InsertClears(s: Sorter, offset: nat, end0: nat, i: nat, j: nat, rep: Replacement)
    requires Inserting(s, offset, end0, i, j, rep)
    ensures var a, b := StoredStart(s, offset, i, rep), StoredEnd(s, offset, end0, i, j, rep);
            var drop := Cleared(s, i, j, rep);
            && offset <= a < b <= end0 && s.readPos <= a
            && Aligned(s.queue, a, b) && Without(s.queue, drop.queue, a, b)
            && Trimmed(s.gaps, i, j, offset, end0, a, b)
  {
    var a, b := StoredStart(s, offset, i, rep), StoredEnd(s, offset, end0, i, j, rep);
    var lo := if rep.replaced then rep.pos else a;
    var end := if rep.cut then rep.pos else end0;
    InsertingIsPlaced(s, offset, end0, i, j, rep);
    PlacedIsTrimmed(s, i, j, offset, end0, a, end, lo, rep.replaced);
    if i == j {
      if lo != b {
        WithoutThroughGap(s, rep.queue, a, lo, b, i);
      }
    } else {
      DropBehindEmpties(s, rep.queue, a, lo, i, j);
      WithoutThroughGap(s, DropBehind(rep.queue, s.gaps[i..j]).queue, a, s.gaps[j].start, b, j);
    }
  }

  /** The surgery on the gap list leaves what Spliced says. */
  lemma InsertSplices(s: Sorter, offset: nat, end0: nat, i: nat, j: nat, rep: Replacement)
    requires Inserting(s, offset, end0, i, j, rep)
    ensures var a, b := StoredStart(s, offset, i, rep), StoredEnd(s, offset, end0, i, j, rep);
            NewGaps(s, offset, end0, i, j, rep) == Spliced(s.gaps, i, j, a, b)
  {
    var a, b := StoredStart(s, offset, i, rep), StoredEnd(s, offset, end0, i, j, rep);
    var end := if rep.cut then rep.pos else end0;
    InsertingIsPlaced(s, offset, end0, i, j, rep);
    InsertClears(s, offset, end0, i, j, rep);
    assert i < j ==> s.gaps[i].end < s.gaps[j].start;
    assert StartPiece(s.gaps[i], a, end, rep.replaced) + EndPiece(s, i, j, a, b, rep.replaced) ==
           LeftOf(s.gaps[i], a) + RightOf(s.gaps[j], b);
  }

  lemma TrimmedAway(s: Sorter, offset: nat, end0: nat, i: nat, j: nat, a: nat, b: nat, x: nat)
    requires GapsOk(s.gaps) && Located(s.gaps, i, j, offset, end0) && Trimmed(s.gaps, i, j, offset, end0, a, b)
    requires end0 < MAX_BYTE_COUNT && (offset <= x < a || b <= x < end0)
    ensures !InGaps(s.gaps, x)
  {
    if x < a {
      OutsideGaps(s.gaps, i, x);
    } else {
      OutsideGaps(s.gaps, j + 1, x);
    }
  }

  /** Taking what is stored out of the gaps is the same as taking the whole frame out. */
  lemma InsertGaps(s: Sorter, offset: nat, end0: nat, i: nat, j: nat, rep: Replacement)
    requires Inserting(s, offset, end0, i, j, rep)
    ensures var a, b := StoredStart(s, offset, i, rep), StoredEnd(s, offset, end0, i, j, rep);
            var gaps := NewGaps(s, offset, end0, i, j, rep);
            && gaps == Subtract(s.gaps, offset, end0)
            && GapsOk(gaps) && gaps[0].start >= s.gaps[0].start
            && forall x: nat :: InGaps(gaps, x) <==> InGaps(s.gaps, x) && !(a <= x < b)
  {
    var a, b := StoredStart(s, offset, i, rep), StoredEnd(s, offset, end0, i, j, rep);
    InsertSplices(s, offset, end0, i, j, rep);
    InsertClears(s, offset, end0, i, j, rep);
    SplicedIsSubtract(s.gaps, i, j, offset, end0, a, b);
    SubtractGapsOk(s.gaps, offset, end0);
    forall x: nat ensures InGaps(Subtract(s.gaps, offset, end0), x) <==> InGaps(s.gaps, x) && !(a <= x < b) {
      SubtractIsDifference(s.gaps, offset, end0, x);
      if offset <= x < a || b <= x < end0 {
        TrimmedAway(s, offset, end0, i, j, a, b, x);
      }
    }
  }

  /** What a successful push means to the layers above: exactly the frame's bytes stop missing. */
  ghost predicate PushOutcome(s: Sorter, data: seq<byte>, offset: nat, s': Sorter) {
    && Tiled(s')
    && s'.readPos == s.readPos
    && (forall x: nat :: InGaps(s'.gaps, x) <==> InGaps(s.gaps, x) && !(offset <= x < offset + |data|))
    && (forall k :: k in s'.queue ==> FromOldOrNew(s.queue, data, offset, k, s'.queue[k].data))
  }

  /** Stored bytes are those of an entry that was there before, or come from the frame, at their own offset. */
  ghost predicate FromOldOrNew(q: Queue, data: seq<byte>, offset: nat, k: nat, stored: seq<byte>) {
    || (k in q && stored == q[k].data)
    || (offset <= k && k + |stored| <= offset + |data| && stored == Part(data, k - offset, k - offset + |stored|))
  }

  /**
   What is stored for a frame at offset: [a, b) replaces the entries it covers, the remaining
   entries are rest, and the gaps lose exactly the bytes of the frame.
   */
  ghost predicate Stores(s: Sorter, offset: nat, end0: nat, a: nat, b: nat, rest: Queue, gaps: seq<Gap>) {
    && offset <= a < b <= end0 < MAX_BYTE_COUNT && s.readPos <= a
    && Aligned(s.queue, a, b) && Without(s.queue, rest, a, b)
    && GapsOk(gaps) && s.readPos <= gaps[0].start
    && (forall x: nat :: InGaps(gaps, x) <==> InGaps(s.gaps, x) && !(a <= x < b))
    && (forall x: nat :: InGaps(gaps, x) <==> InGaps(s.gaps, x) && !(offset <= x < end0))
  }

  lemma InsertStores(s: Sorter, offset: nat, end0: nat, i: nat, j: nat, rep: Replacement)
    requires Inserting(s, offset, end0, i, j, rep)
    ensures Stores(s, offset, end0, StoredStart(s, offset, i, rep), StoredEnd(s, offset, end0, i, j, rep),
                   Cleared(s, i, j, rep).queue, NewGaps(s, offset, end0, i, j, rep))
  {
    InsertClears(s, offset, end0, i, j, rep);
    InsertGaps(s, offset, end0, i, j, rep);
    forall x: nat
      ensures InGaps(Subtract(s.gaps, offset, end0), x) <==> InGaps(s.gaps, x) && !(offset <= x < end0)
    {
      SubtractIsDifference(s.gaps, offset, end0, x);
    }
  }

  lemma StoredOutcome(s: Sorter, data: seq<byte>, offset: nat, a: nat, b: nat, rest: Queue, gaps: seq<Gap>, e: Entry)
    requires Tiled(s) && Stores(s, offset, offset + |data|, a, b, rest, gaps)
    requires e.data == Part(data, a - offset, b - offset)
    ensures PushOutcome(s, data, offset, Sorter(rest[a := e], s.readPos, gaps))
  {
    TiledAfterPush(s, rest, a, b, e, gaps);
    var q := rest[a := e];
    forall k | k in q ensures FromOldOrNew(s.queue, data, offset, k, q[k].data) {
      if k != a { assert k in s.queue; }
    }
  }

  /** The checks are right: a frame reported as received has no missing byte, any other can be inserted. */
  lemma DecideIsSound(s: Sorter, offset: nat, end: nat)
    requires Tiled(s) && end < MAX_BYTE_COUNT
    ensures var d := Decide(s, offset, end);
            && (d.InsertAt? ==> Inserting(s, offset, end, d.i, d.j, d.rep))
            && (d.AllReceived? ==> forall x: nat :: offset <= x < end ==> !InGaps(s.gaps, x))
  {
    if offset < end && s.gaps[0].start < end {
      var i := StartGap(s.gaps, offset, 0);
      if end <= s.gaps[i].start {
        forall x: nat | offset <= x < end ensures !InGaps(s.gaps, x) {
          OutsideGaps(s.gaps, i, x);
        }
      } else if Replace(s.queue, offset, end, false).duplicate {
        ReplaceIsRun(s.queue, offset, end, false);
        forall x: nat | offset <= x < end ensures !InGaps(s.gaps, x) {
          assert Covers(s.queue, offset, x);
        }
      }
    } else {
      forall x: nat | offset <= x < end ensures !InGaps(s.gaps, x) {
        OutsideGaps(s.gaps, 0, x);
      }
    }
  }

  lemma InsertOutcome(s: Sorter, data: seq<byte>, offset: nat, doneCb: Option<nat>, i: nat, j: nat, rep: Replacement)
    requires i <= j < |s.gaps| && Inserting(s, offset, offset + |data|, i, j, rep)
    ensures PushOutcome(s, data, offset, NewSorter(s, data, offset, doneCb, i, j, rep))
  {
    hide Tiled, Stores, PushOutcome, Cleared, StoredStart, StoredEnd, NewGaps, Copied;
    var end0 := offset + |data|;
    InsertStores(s, offset, end0, i, j, rep);
    StoredOutcome(s, data, offset, StoredStart(s, offset, i, rep), StoredEnd(s, offset, end0, i, j, rep),
                  Cleared(s, i, j, rep).queue, NewGaps(s, offset, end0, i, j, rep),
                  NewEntry(s, data, offset, doneCb, i, j, rep));
  }

  /** A push that does not report too many gaps keeps the tiling, and exactly the frame's bytes stop missing. */
  lemma PushIsCorrect(s: Sorter, data: seq<byte>, offset: nat, doneCb: Option<nat>)
    requires Tiled(s) && offset + |data| < MAX_BYTE_COUNT
    ensures var p := Push(s, data, offset, doneCb);
            !p.result.TooManyGaps? ==> PushOutcome(s, data, offset, p.sorter)
  {
    hide Decide, NewSorter, Inserting, NewGaps, NewlyReleased, Cleared;
    DecideIsSound(s, offset, offset + |data|);
    match Decide(s, offset, offset + |data|)
    case AllReceived =>
      assert PushOutcome(s, data, offset, s);
    case InsertAt(i, j, rep) =>
      InsertOutcome(s, data, offset, doneCb, i, j, rep);
  }

  /** The gap list after a push is the reference Subtract; too many gaps are reported exactly when it is too long. */
  lemma PushSubtracts(s: Sorter, data: seq<byte>, offset: nat, doneCb: Option<nat>)
    requires Tiled(s) && offset + |data| < MAX_BYTE_COUNT
    ensures var p := Push(s, data, offset, doneCb);
            var gaps := Subtract(s.gaps, offset, offset + |data|);
            && (!p.result.Duplicate? ==> p.sorter.gaps == gaps)
            && (p.result.Duplicate? ==> p.sorter == s)
            && (p.result.TooManyGaps? ==> |gaps| > MAX_STREAM_FRAME_SORTER_GAPS)
            && (p.result.Accepted? ==> |gaps| <= MAX_STREAM_FRAME_SORTER_GAPS)
  {
    hide Decide, Inserting, NewGaps, NewlyReleased, Cleared, Subtract;
    DecideIsSound(s, offset, offset + |data|);
    match Decide(s, offset, offset + |data|)
    case AllReceived =>
    case InsertAt(i, j, rep) =>
      InsertGaps(s, offset, offset + |data|, i, j, rep);
  }

  // ---------------------------------------------------------------- callbacks are invoked once

  lemma {:induction false} DropBehindReleases(q: Queue, gaps: seq<Gap>, limit: nat)
    requires EntriesOk(q) && forall k :: k in q ==> k + |q[k].data| <= limit
    requires forall i :: 0 <= i < |gaps| ==> gaps[i].end <= limit
    ensures var d := DropBehind(q, gaps); Callbacks(q, limit) == multiset(d.released) + Callbacks(d.queue, limit)
    decreases |gaps|
  {
    if gaps != [] {
      var d := DropRun(q, gaps[0].end);
      DropRunIsRun(q, gaps[0].end);
      DropRunReleases(q, gaps[0].end);
      CallbacksWithout(q, d.queue, gaps[0].end, d.end, limit);
      DropBehindReleases(d.queue, gaps[1..], limit);
    }
  }

  lemma InsertReleases(s: Sorter, offset: nat, end0: nat, i: nat, j: nat, rep: Replacement, limit: nat)
    requires Inserting(s, offset, end0, i, j, rep) && MAX_BYTE_COUNT <= limit
    ensures var drop := Cleared(s, i, j, rep);
            Callbacks(s.queue, limit) == multiset(rep.released + drop.released) + Callbacks(drop.queue, limit)
  {
    hide Callbacks, Run;
    ReplaceIsRun(s.queue, offset, end0, false);
    ReplaceReleases(s.queue, offset, end0, false);
    CallbacksWithout(s.queue, rep.queue, offset, rep.pos, limit);
    WithoutOk(s, rep.queue, offset, rep.pos);
    if i < j {
      DropBehindReleases(rep.queue, s.gaps[i..j], limit);
    }
  }

  lemma InsertIsFresh(s: Sorter, offset: nat, end0: nat, i: nat, j: nat, rep: Replacement)
    requires Inserting(s, offset, end0, i, j, rep)
    ensures i <= j < |s.gaps|
    ensures StoredStart(s, offset, i, rep) !in Cleared(s, i, j, rep).queue
    ensures StoredStart(s, offset, i, rep) < MAX_BYTE_COUNT
  {
    InsertClears(s, offset, end0, i, j, rep);
  }

  lemma InsertConserves(s: Sorter, data: seq<byte>, offset: nat, doneCb: Option<nat>, i: nat, j: nat, rep: Replacement,
                        limit: nat)
    requires i <= j < |s.gaps| && Inserting(s, offset, offset + |data|, i, j, rep) && MAX_BYTE_COUNT <= limit
    ensures multiset(NewlyReleased(s, offset, offset + |data|, doneCb, i, j, rep)) +
            Callbacks(NewSorter(s, data, offset, doneCb, i, j, rep).queue, limit) ==
            Callbacks(s.queue, limit) + multiset(CallbackList(doneCb))
  {
    hide Inserting, Callbacks, Cleared, StoredStart, StoredEnd, NewGaps, Copied;
    InsertIsFresh(s, offset, offset + |data|, i, j, rep);
    InsertReleases(s, offset, offset + |data|, i, j, rep, limit);
    CallbacksInsert(Cleared(s, i, j, rep).queue, StoredStart(s, offset, i, rep),
                    NewEntry(s, data, offset, doneCb, i, j, rep), limit);
  }

  /** Callbacks are conserved: one more is pushed, and each is still queued or has been invoked once. */
  lemma PushReleasesOnce(s: Sorter, data: seq<byte>, offset: nat, doneCb: Option<nat>, limit: nat)
    requires Tiled(s) && offset + |data| < MAX_BYTE_COUNT <= limit
    ensures var p := Push(s, data, offset, doneCb);
            !p.result.TooManyGaps? ==>
              multiset(p.released) + Callbacks(p.sorter.queue, limit) ==
              Callbacks(s.queue, limit) + multiset(CallbackList(doneCb))
  {
    hide Decide, NewSorter, Inserting, NewGaps, NewlyReleased, Cleared, Callbacks;
    DecideIsSound(s, offset, offset + |data|);
    match Decide(s, offset, offset + |data|)
    case AllReceived =>
    case InsertAt(i, j, rep) =>
      InsertConserves(s, data, offset, doneCb, i, j, rep, limit);
  }

  // ---------------------------------------------------------------- reading

  datatype Popped = Popped(sorter: Sorter, offset: nat, entry: Option<Entry>)

  function Pop(s: Sorter): Popped {
    if s.readPos in s.queue then
      var entry := s.queue[s.readPos];
      Popped(Sorter(s.queue - {s.readPos}, s.readPos + |entry.data|, s.gaps), s.readPos, Some(entry))
    else
      Popped(s, s.readPos, None)
  }

  /**
   A pop keeps the tiling, delivers something exactly when the next byte is there, and never
   moves the read position past a gap, so the panic in the source is unreachable.
   */
  lemma PopIsCorrect(s: Sorter)
    requires Tiled(s)
    ensures var p := Pop(s);
            && Tiled(p.sorter) && p.sorter.gaps == s.gaps
            && p.sorter.readPos < s.gaps[0].end
            && (p.entry.Some? <==> s.readPos < s.gaps[0].start)
            && (p.entry.Some? ==> |p.entry.value.data| > 0 && p.sorter.readPos == s.readPos + |p.entry.value.data|)
  {
    var r := s.readPos;
    if r in s.queue {
      EntryStopsBeforeGap(s);
      PopKeepsTiling(s);
    } else if r < s.gaps[0].start {
      OutsideGaps(s.gaps, 0, r);
      BoundaryIsKey(s, r);
    }
  }

  lemma EntryStopsBeforeGap(s: Sorter)
    requires Tiled(s) && s.readPos in s.queue
    ensures s.readPos + |s.queue[s.readPos].data| <= s.gaps[0].start
  {
    assert Covers(s.queue, s.readPos, s.readPos);
    assert InGaps(s.gaps, s.gaps[0].start);
    EntryStopsAtGap(s, s.readPos, s.gaps[0].start);
  }

  lemma PopKeepsTiling(s: Sorter)
    requires Tiled(s) && s.readPos in s.queue
    requires s.readPos + |s.queue[s.readPos].data| <= s.gaps[0].start
    ensures Tiled(Pop(s).sorter)
  {
    var t := Pop(s).sorter;
    forall k: nat, x: nat | Covers(t.queue, k, x) ensures x < MAX_BYTE_COUNT && !InGaps(t.gaps, x) {
      assert Covers(s.queue, k, x);
    }
    forall x: nat | t.readPos <= x < MAX_BYTE_COUNT ensures InGaps(t.gaps, x) || Held(t.queue, x) {
      if !InGaps(t.gaps, x) {
        assert Held(s.queue, x);
        var k: nat :| Covers(s.queue, k, x);
        assert Covers(t.queue, k, x);
      }
    }
  }

  /** Everything that repeated pops deliver. */
  function Drain(s: Sorter): seq<byte>
    decreases |s.queue.Keys|
  {
    if s.readPos !in s.queue then [] else
      assert (s.queue - {s.readPos}).Keys == s.queue.Keys - {s.readPos};
      s.queue[s.readPos].data + Drain(Pop(s).sorter)
  }

  /** The entries of q hold bytes of the given stream, each at its own offset. */
  ghost predicate Agrees(q: Queue, stream: seq<byte>) {
    forall k :: k in q ==> k + |q[k].data| <= |stream| && q[k].data == stream[k..k + |q[k].data|]
  }

  /** Repeated pops deliver exactly the bytes up to the first gap. */
  lemma {:induction false} DrainReachesFirstGap(s: Sorter, stream: seq<byte>)
    requires Tiled(s) && Agrees(s.queue, stream)
    ensures s.readPos < s.gaps[0].start ==> s.gaps[0].start <= |stream|
    ensures Drain(s) == if s.readPos < s.gaps[0].start then stream[s.readPos..s.gaps[0].start] else []
    decreases |s.queue.Keys|
  {
    hide Tiled, InGaps;
    PopIsCorrect(s);
    PopStopsAtGap(s);
    if s.readPos in s.queue {
      var t := Pop(s).sorter;
      assert t.queue.Keys == s.queue.Keys - {s.readPos};
      DrainReachesFirstGap(t, stream);
      assert Drain(s) == stream[s.readPos..t.readPos] + Drain(t);
    }
  }

  lemma PopStopsAtGap(s: Sorter)
    requires Tiled(s)
    ensures |s.gaps| > 0 && s.readPos <= s.gaps[0].start
  {
  }

  lemma PushAgrees(s: Sorter, data: seq<byte>, offset: nat, s': Sorter, stream: seq<byte>)
    requires PushOutcome(s, data, offset, s') && Agrees(s.queue, stream)
    requires offset + |data| <= |stream| && data == stream[offset..offset + |data|]
    ensures Agrees(s'.queue, stream)
  {
    hide Tiled;
    var q := s'.queue;
    forall k | k in q ensures k + |q[k].data| <= |stream| && q[k].data == stream[k..k + |q[k].data|] {
      assert FromOldOrNew(s.queue, data, offset, k, q[k].data);
      var n := |q[k].data|;
      if offset <= k && k + n <= offset + |data| {
        SliceOfSlice(stream, offset, offset + |data|, k - offset, k - offset + n);
      }
    }
  }

  lemma PopConserves(s: Sorter, limit: nat)
    requires Tiled(s) && MAX_BYTE_COUNT <= limit
    ensures var p := Pop(s);
            Callbacks(s.queue, limit) ==
            Callbacks(p.sorter.queue, limit) +
            (if p.entry.Some? then multiset(CallbackList(p.entry.value.doneCb)) else multiset{})
  {
    var r := s.readPos;
    if r in s.queue {
      assert Covers(s.queue, r, r);
      var rest := s.queue - {r};
      CallbacksInsert(rest, r, s.queue[r], limit);
      assert rest[r := s.queue[r]] == s.queue;
    }
  }

  /** The first n bytes of the run of entries that starts at pos. */
  function Peek(q: Queue, pos: nat, n: nat): Option<seq<byte>>
    decreases |q.Keys|
  {
    if n == 0 then Some([])
    else if pos !in q then None
    else if n <= |q[pos].data| then Some(q[pos].data[..n])
    else
      assert (q - {pos}).Keys == q.Keys - {pos};
      var rest := Peek(q - {pos}, pos + |q[pos].data|, n - |q[pos].data|);
      if rest.None? then None else Some(q[pos].data + rest.value)
  }

  /** Peeking at the read position shows exactly what pops would deliver, or nothing if that is too little. */
  lemma {:induction false} PeekIsDrain(s: Sorter, n: nat)
    ensures Peek(s.queue, s.readPos, n) == if n <= |Drain(s)| then Some(Drain(s)[..n]) else None
    decreases |s.queue.Keys|
  {
    var r := s.readPos;
    if r in s.queue && n <= |s.queue[r].data| {
      assert Drain(s)[..n] == s.queue[r].data[..n];
    } else if r in s.queue {
      assert (s.queue - {r}).Keys == s.queue.Keys - {r};
      var rest, d := n - |s.queue[r].data|, Drain(Pop(s).sorter);
      PeekIsDrain(Pop(s).sorter, rest);
      assert Drain(s) == s.queue[r].data + d;
      assert rest <= |d| ==> Drain(s)[..n] == s.queue[r].data + d[..rest];
    }
  }
}
