/**
 The 0-RTT anti-replay cache. The object keeps live digests in buckets by expiry time so that
 eviction is cheap; the specification is a plain log of everything that was ever accepted.
 */
module AntiReplay {
  import opened Common

  type Digest = seq<byte>

  /** An accepted attempt. */
  datatype Accept = Accept(digest: Digest, time: int)

  /** One call: a digest, the age of its ticket, and what the clock says. */
  datatype Attempt = Attempt(digest: Digest, age: int, now: int)

  /** Limits of a cache; a cache is only created when all of them are positive. */
  datatype Limits = Limits(window: int, maxAge: int, maxEntries: int) {
    predicate Positive() {
      window > 0 && maxAge > 0 && maxEntries > 0
    }
  }

  // ---------------------------------------------------------------- the log

  predicate Live(e: Accept, l: Limits, now: int) {
    e.time + l.window > now
  }

  function LiveDigests(log: seq<Accept>, l: Limits, now: int): set<Digest> {
    set e | e in log && Live(e, l, now) :: e.digest
  }

  /** An attempt is fresh if its ticket is, its digest was not accepted within the window, and there is room. */
  predicate Fresh(log: seq<Accept>, l: Limits, a: Attempt) {
    && a.digest != []
    && 0 <= a.age < l.maxAge
    && a.digest !in LiveDigests(log, l, a.now)
    && |LiveDigests(log, l, a.now)| < l.maxEntries
  }

  function Record(log: seq<Accept>, l: Limits, a: Attempt): seq<Accept> {
    if Fresh(log, l, a) then log + [Accept(a.digest, a.now)] else log
  }

  /** The log after a sequence of attempts. */
  function RecordAll(log: seq<Accept>, l: Limits, attempts: seq<Attempt>): seq<Accept>
    decreases |attempts|
  {
    if attempts == [] then log else RecordAll(Record(log, l, attempts[0]), l, attempts[1..])
  }

  predicate Monotone(attempts: seq<Attempt>) {
    forall i, j :: 0 <= i < j < |attempts| ==> attempts[i].now <= attempts[j].now
  }

  /** No digest is accepted twice within a window, entries are in time order, and none is from after now. */
  predicate ReplayFree(log: seq<Accept>, l: Limits, now: int) {
    && (forall i :: 0 <= i < |log| ==> log[i].time <= now)
    && (forall i, j :: 0 <= i < j < |log| && log[i].digest == log[j].digest ==> log[i].time + l.window <= log[j].time)
  }

  lemma AppendIsReplayFree(log: seq<Accept>, l: Limits, d: Digest, now: int)
    requires ReplayFree(log, l, now) && d !in LiveDigests(log, l, now)
    ensures ReplayFree(log + [Accept(d, now)], l, now)
  {
    forall i | 0 <= i < |log| && log[i].digest == d ensures log[i].time + l.window <= now {
      assert log[i] in log;
    }
  }

  lemma ReplayFreeLater(log: seq<Accept>, l: Limits, before: int, now: int)
    requires ReplayFree(log, l, before) && before <= now
    ensures ReplayFree(log, l, now)
  {
  }

  lemma RecordIsReplayFree(log: seq<Accept>, l: Limits, a: Attempt, before: int)
    requires ReplayFree(log, l, before) && before <= a.now
    ensures ReplayFree(Record(log, l, a), l, a.now)
  {
    ReplayFreeLater(log, l, before, a.now);
    if Fresh(log, l, a) {
      AppendIsReplayFree(log, l, a.digest, a.now);
    }
  }

  /** Whatever attempts are made, no digest is ever accepted twice within a window. */
  lemma {:induction false} NoReplay(log: seq<Accept>, l: Limits, attempts: seq<Attempt>, start: int, end: int)
    requires ReplayFree(log, l, start) && Monotone(attempts)
    requires forall i :: 0 <= i < |attempts| ==> start <= attempts[i].now <= end
    requires start <= end
    ensures ReplayFree(RecordAll(log, l, attempts), l, end)
    decreases |attempts|
  {
    if attempts != [] {
      var a := attempts[0];
      RecordIsReplayFree(log, l, a, start);
      assert attempts[1..] == [] || a.now <= attempts[1].now;
      NoReplay(Record(log, l, a), l, attempts[1..], a.now, end);
    }
  }

  lemma Subset(a: set<Digest>, b: set<Digest>)
    requires a <= b
    ensures |a| <= |b|
  {
    if a != b {
      assert b == a + (b - a);
    }
  }

  lemma RecordKeepsCapacity(log: seq<Accept>, l: Limits, a: Attempt, before: int)
    requires l.Positive() && before <= a.now && |LiveDigests(log, l, before)| <= l.maxEntries
    ensures |LiveDigests(Record(log, l, a), l, a.now)| <= l.maxEntries
  {
    var was, now := LiveDigests(log, l, before), LiveDigests(log, l, a.now);
    assert now <= was;
    Subset(now, was);
    if Fresh(log, l, a) {
      var after := LiveDigests(Record(log, l, a), l, a.now);
      assert after <= now + {a.digest};
      Subset(after, now + {a.digest});
    }
  }

  /** Whatever attempts are made, there are never more live digests than the cache may hold. */
  lemma {:induction false} CapacityHolds(log: seq<Accept>, l: Limits, attempts: seq<Attempt>, start: int)
    requires l.Positive() && Monotone(attempts) && |LiveDigests(log, l, start)| <= l.maxEntries
    requires forall i :: 0 <= i < |attempts| ==> start <= attempts[i].now
    ensures var end := if attempts == [] then start else attempts[|attempts| - 1].now;
            |LiveDigests(RecordAll(log, l, attempts), l, end)| <= l.maxEntries
    decreases |attempts|
  {
    hide LiveDigests, Record;
    if attempts != [] {
      RecordKeepsCapacity(log, l, attempts[0], start);
      CapacityHolds(Record(log, l, attempts[0]), l, attempts[1..], attempts[0].now);
    }
  }

  /** In a replay-free log, a live digest has exactly one live entry, so counting digests counts acceptances. */
  lemma LiveEntryIsUnique(log: seq<Accept>, l: Limits, now: int, i: nat, j: nat)
    requires ReplayFree(log, l, now) && i < |log| && j < |log|
    requires Live(log[i], l, now) && Live(log[j], l, now) && log[i].digest == log[j].digest
    ensures i == j
  {
  }

  // ---------------------------------------------------------------- the table

  type Table = map<Digest, int>
  type Buckets = map<int, seq<Digest>>

  /** Every digest in the table has its bucket, and buckets hold nothing else. */
  ghost predicate Bucketed(seen: Table, byExpiry: Buckets) {
    && (forall d :: d in seen ==> seen[d] in byExpiry && d in byExpiry[seen[d]])
    && (forall b, d :: b in byExpiry && d in byExpiry[b] ==> d in seen && seen[d] == b)
  }

  ghost predicate Logged(log: seq<Accept>, d: Digest, time: int) {
    exists i :: 0 <= i < |log| && log[i].digest == d && log[i].time == time
  }

  /** The table holds the part of the log that was live at the given time. */
  ghost predicate Tabled(seen: Table, log: seq<Accept>, l: Limits, time: int) {
    && (forall d :: d in seen ==> Logged(log, d, seen[d] - l.window) && seen[d] > time)
    && (forall i :: 0 <= i < |log| && Live(log[i], l, time) ==>
          log[i].digest in seen && seen[log[i].digest] == log[i].time + l.window)
  }

  ghost predicate EvictedAt(seen: Table, seen': Table, now: int) {
    && (forall d :: d in seen' <==> d in seen && seen[d] > now)
    && (forall d :: d in seen' ==> seen'[d] == seen[d])
  }

  lemma EvictionIsTabled(seen: Table, seen': Table, log: seq<Accept>, l: Limits, before: int, now: int)
    requires Tabled(seen, log, l, before) && before <= now && EvictedAt(seen, seen', now)
    ensures Tabled(seen', log, l, now)
  {
    hide Logged;
  }

  lemma TabledIsLive(seen: Table, log: seq<Accept>, l: Limits, now: int, d: Digest)
    requires Tabled(seen, log, l, now) && d in seen
    ensures d in LiveDigests(log, l, now)
  {
    var i :| 0 <= i < |log| && log[i].digest == d && log[i].time == seen[d] - l.window;
    assert log[i] in log && Live(log[i], l, now);
  }

  lemma LiveIsTabled(seen: Table, log: seq<Accept>, l: Limits, now: int, d: Digest)
    requires Tabled(seen, log, l, now) && d in LiveDigests(log, l, now)
    ensures d in seen
  {
    hide Logged;
    var e :| e in log && Live(e, l, now) && e.digest == d;
    var i :| 0 <= i < |log| && log[i] == e;
  }

  /** The table's keys are exactly the digests that the log considers live. */
  lemma TableIsLive(seen: Table, log: seq<Accept>, l: Limits, now: int)
    requires Tabled(seen, log, l, now)
    ensures seen.Keys == LiveDigests(log, l, now)
  {
    hide Tabled, LiveDigests;
    forall d: Digest ensures d in seen <==> d in LiveDigests(log, l, now) {
      if d in seen {
        TabledIsLive(seen, log, l, now, d);
      }
      if d in LiveDigests(log, l, now) {
        LiveIsTabled(seen, log, l, now, d);
      }
    }
  }

  lemma LoggedLater(log: seq<Accept>, e: Accept, d: Digest, time: int)
    requires Logged(log, d, time) || (e.digest == d && e.time == time)
    ensures Logged(log + [e], d, time)
  {
    var log' := log + [e];
    if Logged(log, d, time) {
      var i :| 0 <= i < |log| && log[i].digest == d && log[i].time == time;
      assert log'[i] == log[i];
    } else {
      assert log'[|log|] == e;
    }
  }

  lemma LiveIsListed(log: seq<Accept>, l: Limits, now: int, i: nat)
    requires i < |log| && Live(log[i], l, now)
    ensures log[i].digest in LiveDigests(log, l, now)
  {
    assert log[i] in log;
  }

  lemma InsertionIsTabled(seen: Table, log: seq<Accept>, l: Limits, d: Digest, now: int)
    requires Tabled(seen, log, l, now) && l.window > 0 && d !in LiveDigests(log, l, now)
    ensures Tabled(seen[d := now + l.window], log + [Accept(d, now)], l, now)
  {
    hide Logged, LiveDigests;
    var seen', log' := seen[d := now + l.window], log + [Accept(d, now)];
    forall k | k in seen' ensures Logged(log', k, seen'[k] - l.window) && seen'[k] > now {
      LoggedLater(log, Accept(d, now), k, seen'[k] - l.window);
    }
    forall i | 0 <= i < |log'| && Live(log'[i], l, now)
      ensures log'[i].digest in seen' && seen'[log'[i].digest] == log'[i].time + l.window
    {
      if i < |log| {
        LiveIsListed(log, l, now, i);
      }
    }
  }

  lemma InsertionIsBucketed(seen: Table, byExpiry: Buckets, d: Digest, exp: int)
    requires Bucketed(seen, byExpiry) && d !in seen
    ensures Bucketed(seen[d := exp], byExpiry[exp := (if exp in byExpiry then byExpiry[exp] else []) + [d]])
  {
    var bucket := (if exp in byExpiry then byExpiry[exp] else []) + [d];
    assert bucket[|bucket| - 1] == d;
    var byExpiry' := byExpiry[exp := bucket];
    forall b, k | b in byExpiry' && k in byExpiry'[b] ensures k in seen[d := exp] && seen[d := exp][k] == b {
      if b == exp && k != d {
        assert exp in byExpiry && k in byExpiry[exp];
      }
    }
  }

  // ---------------------------------------------------------------- the cache

  class MemoryCache {
    var seen: Table
    var byExpiry: Buckets
    const limits: Limits
    /** Everything accepted so far, and the time of the last eviction. */
    ghost var log: seq<Accept>
    ghost var evicted: int

    ghost predicate Valid()
      reads this
    {
      && limits.Positive()
      && ReplayFree(log, limits, evicted)
      && Bucketed(seen, byExpiry)
      && Tabled(seen, log, limits, evicted)
    }

    constructor (l: Limits, ghost now: int)
      requires l.Positive()
      ensures Valid() && limits == l && log == [] && evicted == now
    {
      seen, byExpiry, limits, log, evicted := map[], map[], l, [], now;
    }

    /** Drops the digests of one bucket, unless they have been renewed. */
    method EvictBucket(b: int, now: int)
      requires Bucketed(seen, byExpiry) && b in byExpiry && b <= now
      modifies this`seen, this`byExpiry
      ensures Bucketed(seen, byExpiry) && byExpiry.Keys == old(byExpiry).Keys - {b}
      ensures forall d :: d in seen <==> d in old(seen) && old(seen)[d] != b
      ensures forall d :: d in seen ==> seen[d] == old(seen)[d]
    {
      var keys := byExpiry[b];
      assert forall d :: d in keys ==> d in seen && seen[d] == b;
      for i := 0 to |keys|
        modifies this`seen
        invariant forall d :: d in seen <==> d in old(seen) && d !in keys[..i]
        invariant forall d :: d in seen ==> seen[d] == old(seen)[d]
      {
        var k := keys[i];
        assert keys[..i + 1] == keys[..i] + [k];
        if k !in seen || seen[k] <= now {
          seen := seen - {k};
        }
      }
      assert keys[..|keys|] == keys;
      byExpiry := byExpiry - {b};
    }

    /** Maps are iterated in an unspecified order. */
    method NextBucket(todo: set<int>) returns (b: int)
      requires todo != {}
      ensures b in todo
    {
      HasElement(todo);
      b :| b in todo;
    }

    /** Drops the buckets whose time has passed, in whatever order the map yields them. */
    method Evict(now: int)
      requires Bucketed(seen, byExpiry)
      modifies this`seen, this`byExpiry
      ensures Bucketed(seen, byExpiry) && EvictedAt(old(seen), seen, now)
    {
      var todo: set<int> := byExpiry.Keys;
      while todo != {}
        invariant todo <= byExpiry.Keys
        invariant Bucketed(seen, byExpiry)
        invariant forall b :: b in byExpiry ==> b > now || b in todo
        invariant forall d :: d in seen ==> d in old(seen) && seen[d] == old(seen)[d]
        invariant forall d :: d in old(seen) && old(seen)[d] > now ==> d in seen
        decreases |todo|
      {
        var b := NextBucket(todo);
        todo := todo - {b};
        if b <= now {
          EvictBucket(b, now);
        }
      }
    }

    method Insert(digest: Digest, exp: int, ghost now: int)
      requires Valid() && evicted == now && exp == now + limits.window && digest !in LiveDigests(log, limits, now)
      modifies this`seen, this`byExpiry, this`log
      ensures Valid() && log == old(log) + [Accept(digest, now)]
    {
      hide Bucketed, ReplayFree, Tabled, LiveDigests;
      TableIsLive(seen, log, limits, now);
      InsertionIsTabled(seen, log, limits, digest, now);
      InsertionIsBucketed(seen, byExpiry, digest, exp);
      AppendIsReplayFree(log, limits, digest, now);
      seen := seen[digest := exp];
      byExpiry := byExpiry[exp := (if exp in byExpiry then byExpiry[exp] else []) + [digest]];
      log := log + [Accept(digest, now)];
    }

    /** The bucketed table decides exactly as the log does. */
    method Check(digest: Digest, age: int, now: int) returns (ok: bool)
      requires Valid() && evicted <= now
      modifies this
      ensures Valid() && old(evicted) <= evicted <= now
      ensures ok <==> Fresh(old(log), limits, Attempt(digest, age, now))
      ensures log == Record(old(log), limits, Attempt(digest, age, now))
    {
      hide Bucketed, ReplayFree, Tabled, EvictedAt, LiveDigests;
      if age < 0 || age >= limits.maxAge {
        return false;
      }
      if |digest| == 0 {
        return false;
      }
      ghost var before := seen;
      ReplayFreeLater(log, limits, evicted, now);
      Evict(now);
      EvictionIsTabled(before, seen, log, limits, evicted, now);
      TableIsLive(seen, log, limits, now);
      evicted := now;
      if digest in seen && seen[digest] > now {
        return false;
      }
      if |seen| >= limits.maxEntries {
        return false;
      }
      var exp := now + limits.window;
      Insert(digest, exp, now);
      ok := true;
    }
  }
}
