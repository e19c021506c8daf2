/**
 Path MTU discovery: a search for the largest packet size that gets through, which tolerates
 probe packets that are lost for other reasons than their size.
 */
module MtuDiscovery {
  import opened Common

  const MAX_MTU_DIFF: nat := 20
  const MAX_LOST_MTU_PROBES: nat := 3
  const INVALID: int := -1

  /** The search state; lost has MAX_LOST_MTU_PROBES slots, unused ones at the end are INVALID. */
  datatype Finder = Finder(min: nat, lost: seq<int>, lastProbeWasLost: bool)

  /** A probe packet that was acknowledged or lost. */
  datatype Probe = Probe(size: nat, acked: bool)

  function Init(start: nat, max: nat): Finder {
    Finder(start, [max, INVALID, INVALID], false)
  }

  /** The last used slot, looking from slot i on. */
  function MaxFrom(lost: seq<int>, i: nat): int
    requires 0 < i <= |lost|
    decreases |lost| - i
  {
    if i == |lost| || lost[i] == INVALID then lost[i - 1] else MaxFrom(lost, i + 1)
  }

  function UpperBound(f: Finder): int
    requires |f.lost| > 0
  {
    MaxFrom(f.lost, 1)
  }

  predicate Done(f: Finder)
    requires |f.lost| > 0
  {
    UpperBound(f) - f.min <= MAX_MTU_DIFF + 1
  }

  function ProbeSize(f: Finder): int
    requires |f.lost| > 0
  {
    if f.lastProbeWasLost then (f.min + f.lost[0]) / 2 else (f.min + UpperBound(f)) / 2
  }

  /** The first slot from i on whose value is above size; |lost| if there is none. */
  function FirstAbove(lost: seq<int>, size: int, i: nat): (r: nat)
    requires i <= |lost|
    ensures i <= r <= |lost|
    ensures forall k :: i <= k < r ==> lost[k] <= size
    ensures r < |lost| ==> size < lost[r]
    decreases |lost| - i
  {
    if i == |lost| || size < lost[i] then i else FirstAbove(lost, size, i + 1)
  }

  /** Drops the first j values. */
  function ShiftLeft(lost: seq<int>, j: nat): seq<int>
    requires j <= |lost|
  {
    lost[j..] + seq(j, _ => INVALID)
  }

  /** Inserts a value at slot i; the last one drops out. */
  function InsertAt(lost: seq<int>, i: nat, size: int): seq<int>
    requires i < |lost|
  {
    lost[..i] + [size] + lost[i..|lost| - 1]
  }

  function Acked(f: Finder, size: nat): Finder {
    var j := FirstAbove(f.lost, size, 0);
    Finder(size, if j < |f.lost| then ShiftLeft(f.lost, j) else f.lost, false)
  }

  function Lost(f: Finder, size: nat): Finder {
    var i := FirstAbove(f.lost, size, 0);
    Finder(f.min, if i < |f.lost| then InsertAt(f.lost, i, size) else f.lost, true)
  }

  // ---------------------------------------------------------------- the invariant

  /** Used slots come first and are sorted; none is below min. */
  predicate Valid(f: Finder, top: nat) {
    && |f.lost| == MAX_LOST_MTU_PROBES
    && var a, b, c := f.lost[0], f.lost[1], f.lost[2];
    && f.min <= a <= top
    && (b == INVALID ==> c == INVALID)
    && (b != INVALID ==> a <= b <= top)
    && (c != INVALID ==> b <= c <= top)
  }

  lemma UpperBoundIs(f: Finder)
    requires |f.lost| == MAX_LOST_MTU_PROBES
    ensures UpperBound(f) ==
              if f.lost[1] == INVALID then f.lost[0] else if f.lost[2] == INVALID then f.lost[1] else f.lost[2]
  {
    assert MaxFrom(f.lost, 3) == f.lost[2];
    assert MaxFrom(f.lost, 2) == if f.lost[2] == INVALID then f.lost[1] else f.lost[2];
  }

  lemma AckedIs(f: Finder, size: nat)
    requires |f.lost| == MAX_LOST_MTU_PROBES
    ensures var a, b, c := f.lost[0], f.lost[1], f.lost[2];
            Acked(f, size).lost ==
            if size < a then [a, b, c] else if size < b then [b, c, INVALID]
            else if size < c then [c, INVALID, INVALID] else [a, b, c]
  {
    var a, b, c := f.lost[0], f.lost[1], f.lost[2];
    assert f.lost == [a, b, c];
    assert FirstAbove(f.lost, size, 2) == if size < c then 2 else 3;
    assert FirstAbove(f.lost, size, 1) == if size < b then 1 else FirstAbove(f.lost, size, 2);
    assert ShiftLeft(f.lost, 0) == [a, b, c];
    assert ShiftLeft(f.lost, 1) == [b, c, INVALID];
    assert ShiftLeft(f.lost, 2) == [c, INVALID, INVALID];
  }

  lemma LostIs(f: Finder, size: nat)
    requires |f.lost| == MAX_LOST_MTU_PROBES
    ensures var a, b, c := f.lost[0], f.lost[1], f.lost[2];
            Lost(f, size).lost ==
            if size < a then [size, a, b] else if size < b then [a, size, b]
            else if size < c then [a, b, size] else [a, b, c]
  {
    var a, b, c := f.lost[0], f.lost[1], f.lost[2];
    assert f.lost == [a, b, c];
    assert FirstAbove(f.lost, size, 2) == if size < c then 2 else 3;
    assert FirstAbove(f.lost, size, 1) == if size < b then 1 else FirstAbove(f.lost, size, 2);
    assert InsertAt(f.lost, 0, size) == [size, a, b];
    assert InsertAt(f.lost, 1, size) == [a, size, b];
    assert InsertAt(f.lost, 2, size) == [a, b, size];
  }

  /** The probe that is sent while the search is not done lies within the search interval. */
  lemma ProbeIsInside(f: Finder, top: nat)
    requires Valid(f, top) && !Done(f)
    ensures f.min <= ProbeSize(f) < UpperBound(f) <= top
    ensures ProbeSize(f) == f.min ==> f.lastProbeWasLost
  {
    UpperBoundIs(f);
  }

  /** The state once the probe that is in flight is acknowledged or declared lost. */
  function Resolve(f: Finder, acked: bool): Finder
    requires |f.lost| > 0 && ProbeSize(f) >= 0
  {
    if acked then Acked(f, ProbeSize(f)) else Lost(f, ProbeSize(f))
  }

  // ---------------------------------------------------------------- termination

  function Copies(f: Finder): nat
    requires |f.lost| == MAX_LOST_MTU_PROBES
  {
    var m := UpperBound(f);
    (if f.lost[0] == m then 1 else 0) + (if f.lost[1] == m then 1 else 0) + (if f.lost[2] == m then 1 else 0)
  }

  function Padded(v: int, min: nat, top: nat): int {
    if v > min then v else top + 1
  }

  function PaddedSum(f: Finder, top: nat): int
    requires |f.lost| == MAX_LOST_MTU_PROBES
  {
    Padded(f.lost[0], f.min, top) + Padded(f.lost[1], f.min, top) + Padded(f.lost[2], f.min, top)
  }

  function Unused(f: Finder): nat
    requires |f.lost| == MAX_LOST_MTU_PROBES
  {
    (if f.lost[1] == INVALID then 1 else 0) + (if f.lost[2] == INVALID then 1 else 0)
  }

  /** The measure of a search: compared component by component, from the left. */
  function Rank(f: Finder, top: nat): seq<int>
    requires |f.lost| == MAX_LOST_MTU_PROBES
  {
    [top - f.min, UpperBound(f), Copies(f), PaddedSum(f, top), if f.lastProbeWasLost then 1 else 0, Unused(f)]
  }

  /** Lexicographic order on ranks. */
  predicate Precedes(a: seq<int>, b: seq<int>)
    requires |a| == |b| == 6
  {
    || a[0] < b[0]
    || (a[0] == b[0] && (a[1] < b[1]
    || (a[1] == b[1] && (a[2] < b[2]
    || (a[2] == b[2] && (a[3] < b[3]
    || (a[3] == b[3] && (a[4] < b[4]
    || (a[4] == b[4] && a[5] < b[5])))))))))
  }

  lemma AckMakesProgress(f: Finder, top: nat)
    requires Valid(f, top) && !Done(f)
    ensures var f' := Acked(f, ProbeSize(f));
            Valid(f', top) && f.min <= f'.min && Precedes(Rank(f', top), Rank(f, top))
  {
    ProbeIsInside(f, top);
    var size := ProbeSize(f);
    var f' := Acked(f, size);
    AckedIs(f, size);
    UpperBoundIs(f);
    UpperBoundIs(f');
  }

  lemma LossMakesProgress(f: Finder, top: nat)
    requires Valid(f, top) && !Done(f)
    ensures var f' := Lost(f, ProbeSize(f));
            Valid(f', top) && f.min == f'.min && Precedes(Rank(f', top), Rank(f, top))
  {
    ProbeIsInside(f, top);
    var size := ProbeSize(f);
    var f' := Lost(f, size);
    LostIs(f, size);
    UpperBoundIs(f);
    UpperBoundIs(f');
  }

  /** Each resolved probe lowers the rank, which cannot fall below zero in any component. */
  lemma ProbeMakesProgress(f: Finder, top: nat, acked: bool)
    requires Valid(f, top) && !Done(f)
    ensures ProbeSize(f) >= 0 && Valid(Resolve(f, acked), top)
    ensures Precedes(Rank(Resolve(f, acked), top), Rank(f, top))
    ensures top >= f.min && UpperBound(f) >= 0 && PaddedSum(f, top) >= 0
  {
    ProbeIsInside(f, top);
    AckMakesProgress(f, top);
    LossMakesProgress(f, top);
    UpperBoundIs(f);
  }

  // ---------------------------------------------------------------- whole searches

  /** A finished search: the final state and every probe, in order. */
  datatype Search = Search(final: Finder, probes: seq<Probe>)

  /**
   Probes until the search is done; acks(k) says whether the k-th probe is acknowledged. That
   this definition is accepted means the search ends for every pattern of acknowledgements and losses.
   */
  ghost function RunSearch(f: Finder, top: nat, acks: nat -> bool, k: nat): (r: Search)
    requires Valid(f, top)
    decreases top - f.min, UpperBound(f), Copies(f), PaddedSum(f, top), f.lastProbeWasLost, Unused(f)
  {
    if Done(f) then Search(f, []) else
      ProbeMakesProgress(f, top, acks(k));
      var rest := RunSearch(Resolve(f, acks(k)), top, acks, k + 1);
      Search(rest.final, [Probe(ProbeSize(f), acks(k))] + rest.probes)
  }

  /** The number of lost probes of at most the given size. */
  function LostUpTo(probes: seq<Probe>, size: int): nat {
    if probes == [] then 0 else
      (if !probes[0].acked && probes[0].size <= size then 1 else 0) + LostUpTo(probes[1..], size)
  }

  function SlotsUpTo(lost: seq<int>, size: int): nat
    requires |lost| == MAX_LOST_MTU_PROBES
  {
    (if INVALID < lost[0] <= size then 1 else 0) +
    (if INVALID < lost[1] <= size then 1 else 0) +
    (if INVALID < lost[2] <= size then 1 else 0)
  }

  lemma {:induction false} LostUpToConcat(p: seq<Probe>, q: seq<Probe>, size: int)
    ensures LostUpTo(p + q, size) == LostUpTo(p, size) + LostUpTo(q, size)
  {
    if p == [] {
      assert p + q == q;
    } else {
      assert (p + q)[1..] == p[1..] + q;
      LostUpToConcat(p[1..], q, size);
    }
  }

  /**
   What the probes sent so far say about the state: a slot below the initial maximum stands for a lost probe
   of its own, and the upper bound comes down only on the word of MAX_LOST_MTU_PROBES lost probes.
   */
  ghost predicate Justified(f: Finder, start: nat, top: nat, sent: seq<Probe>) {
    && Valid(f, top)
    && (f.min == start || Probe(f.min, true) in sent)
    && (forall x :: x < top ==> SlotsUpTo(f.lost, x) <= LostUpTo(sent, x))
    && (UpperBound(f) < top ==> LostUpTo(sent, UpperBound(f)) >= MAX_LOST_MTU_PROBES)
  }

  lemma AckIsJustified(f: Finder, start: nat, top: nat, sent: seq<Probe>)
    requires Justified(f, start, top, sent) && !Done(f)
    ensures ProbeSize(f) >= 0 &&
            Justified(Acked(f, ProbeSize(f)), start, top, sent + [Probe(ProbeSize(f), true)])
  {
    AckMakesProgress(f, top);
    ProbeIsInside(f, top);
    var size := ProbeSize(f);
    var f', now := Acked(f, size), sent + [Probe(size, true)];
    AckedIs(f, size);
    UpperBoundIs(f);
    UpperBoundIs(f');
    forall x ensures LostUpTo(now, x) == LostUpTo(sent, x) {
      LostUpToConcat(sent, [Probe(size, true)], x);
    }
    forall x | x < top ensures SlotsUpTo(f'.lost, x) <= LostUpTo(now, x) {
      assert SlotsUpTo(f.lost, x) <= LostUpTo(sent, x);
    }
  }

  lemma LossIsJustified(f: Finder, start: nat, top: nat, sent: seq<Probe>)
    requires Justified(f, start, top, sent) && !Done(f)
    ensures ProbeSize(f) >= 0 &&
            Justified(Lost(f, ProbeSize(f)), start, top, sent + [Probe(ProbeSize(f), false)])
  {
    LossMakesProgress(f, top);
    ProbeIsInside(f, top);
    var size := ProbeSize(f);
    var f', now := Lost(f, size), sent + [Probe(size, false)];
    LostIs(f, size);
    UpperBoundIs(f);
    UpperBoundIs(f');
    forall x ensures LostUpTo(now, x) == LostUpTo(sent, x) + if size <= x then 1 else 0 {
      LostUpToConcat(sent, [Probe(size, false)], x);
      assert LostUpTo([Probe(size, false)], x) == if size <= x then 1 else 0;
    }
    forall x | x < top ensures SlotsUpTo(f'.lost, x) <= LostUpTo(now, x) {
      assert SlotsUpTo(f.lost, x) <= LostUpTo(sent, x);
    }
  }

  /** Every search ends, and its result is justified by the probes it sent. */
  lemma {:induction false} SearchIsJustified(f: Finder, start: nat, top: nat, acks: nat -> bool, k: nat,
                                             sent: seq<Probe>)
    requires Justified(f, start, top, sent)
    ensures var r := RunSearch(f, top, acks, k);
            Justified(r.final, start, top, sent + r.probes) && Done(r.final)
    decreases top - f.min, UpperBound(f), Copies(f), PaddedSum(f, top), f.lastProbeWasLost, Unused(f)
  {
    hide LostUpTo, SlotsUpTo, Acked, Lost, Copies, PaddedSum, Unused;
    var r := RunSearch(f, top, acks, k);
    if Done(f) {
      assert sent + r.probes == sent;
    } else {
      ProbeMakesProgress(f, top, acks(k));
      AckIsJustified(f, start, top, sent);
      LossIsJustified(f, start, top, sent);
      var probe, f' := Probe(ProbeSize(f), acks(k)), Resolve(f, acks(k));
      SearchIsJustified(f', start, top, acks, k + 1, sent + [probe]);
      assert sent + r.probes == sent + [probe] + RunSearch(f', top, acks, k + 1).probes;
    }
  }

  lemma {:induction false} LostUpToMonotone(probes: seq<Probe>, x: int, y: int)
    requires x <= y
    ensures LostUpTo(probes, x) <= LostUpTo(probes, y)
  {
    if probes != [] {
      LostUpToMonotone(probes[1..], x, y);
    }
  }

  /**
   The search finds the path MTU. On a path that delivers no probe above pathMtu and loses fewer than
   MAX_LOST_MTU_PROBES of the others, it ends at a size that the path supports, at most MAX_MTU_DIFF + 1 below pathMtu.
   */
  lemma FindsPathMtu(start: nat, top: nat, pathMtu: nat, acks: nat -> bool)
    requires start <= pathMtu <= top
    requires var probes := RunSearch(Init(start, top), top, acks, 0).probes;
             && (forall p :: p in probes && p.acked ==> p.size <= pathMtu)
             && LostUpTo(probes, pathMtu) < MAX_LOST_MTU_PROBES
    ensures var r := RunSearch(Init(start, top), top, acks, 0).final;
            pathMtu - (MAX_MTU_DIFF + 1) <= r.min <= pathMtu
  {
    var f := Init(start, top);
    UpperBoundIs(f);
    SearchIsJustified(f, start, top, acks, 0, []);
    var r := RunSearch(f, top, acks, 0);
    assert [] + r.probes == r.probes;
    var bound := UpperBound(r.final);
    if bound < pathMtu {
      LostUpToMonotone(r.probes, bound, pathMtu);
    }
  }

  // ---------------------------------------------------------------- the finder

  class MtuFinder {
    var lastProbeTime: int
    /** The size of the probe in flight, INVALID if there is none. */
    var inFlight: int
    var min: nat
    const lost: array<int>
    var lastProbeWasLost: bool
    /** Counts resets; an 8-bit counter in the source. */
    var generation: nat

    ghost function View(): Finder
      reads this, lost
    {
      Finder(min, lost[..], lastProbeWasLost)
    }

    ghost predicate Ready()
      reads this, lost
    {
      lost.Length == MAX_LOST_MTU_PROBES && lost[0] != INVALID && generation < 256
    }

    constructor (start: nat, max: nat)
      ensures fresh(lost) && Ready() && View() == Init(start, max) && inFlight == INVALID && generation == 0
    {
      lost := new int[MAX_LOST_MTU_PROBES](i => if i == 0 then max else INVALID);
      min, inFlight, lastProbeTime, lastProbeWasLost, generation := start, INVALID, 0, false, 0;
      new;
      assert lost[..] == [max, INVALID, INVALID];
    }

    method Max() returns (m: int)
      requires Ready()
      ensures m == UpperBound(View())
    {
      for i := 1 to lost.Length
        invariant 1 <= i && MaxFrom(lost[..], i) == MaxFrom(lost[..], 1)
      {
        if lost[i] == INVALID {
          return lost[i - 1];
        }
      }
      return lost[lost.Length - 1];
    }

    method IsDone() returns (done: bool)
      requires Ready()
      ensures done <==> Done(View())
    {
      var m := Max();
      done := m - min <= MAX_MTU_DIFF + 1;
    }

    /** A probe is due when none is in flight, the search goes on and enough time has passed. */
    method ShouldSendProbe(now: int, probeDelay: int) returns (should: bool)
      requires Ready()
      ensures should <==>
                lastProbeTime != 0 && inFlight == INVALID && !Done(View()) && now >= lastProbeTime + probeDelay
    {
      if lastProbeTime == 0 {
        return false;
      }
      var done := IsDone();
      if inFlight != INVALID || done {
        return false;
      }
      return now >= lastProbeTime + probeDelay;
    }

    method GetPing(now: int) returns (size: int, ackGeneration: nat)
      requires Ready()
      modifies this`lastProbeTime, this`inFlight
      ensures size == ProbeSize(View()) && inFlight == size && ackGeneration == generation && lastProbeTime == now
    {
      if lastProbeWasLost {
        size := (min + lost[0]) / 2;
      } else {
        var m := Max();
        size := (min + m) / 2;
      }
      lastProbeTime, inFlight, ackGeneration := now, size, generation;
    }

    /** The search starts over; probes sent before are ignored from now on. */
    method Reset(start: nat, max: nat)
      requires Ready()
      modifies this, lost
      ensures Ready() && View() == Init(start, max) && inFlight == INVALID
      ensures generation == (old(generation) + 1) % 256 && generation != old(generation)
    {
      generation := (generation + 1) % 256;
      lastProbeTime, lastProbeWasLost, inFlight, min := 0, false, INVALID, start;
      for i := 0 to lost.Length
        modifies lost
        invariant forall k :: 0 <= k < i ==> lost[k] == if k == 0 then max else INVALID
      {
        lost[i] := if i == 0 then max else INVALID;
      }
      assert lost[..] == [max, INVALID, INVALID];
    }

    method OnAcked(ackGeneration: nat)
      requires Ready() && (ackGeneration == generation ==> inFlight >= 0)
      modifies this`inFlight, this`min, this`lastProbeWasLost, lost
      ensures ackGeneration != generation ==> View() == old(View()) && inFlight == old(inFlight)
      ensures ackGeneration == generation ==> View() == Acked(old(View()), old(inFlight)) && inFlight == INVALID
    {
      if ackGeneration != generation {
        return;
      }
      var size: nat := inFlight;
      ghost var before := lost[..];
      inFlight, min, lastProbeWasLost := INVALID, size, false;
      var j := 0;
      var i := 0;
      while i < lost.Length
        invariant i <= lost.Length && j == 0
        invariant FirstAbove(before, size, i) == FirstAbove(before, size, 0)
      {
        if size < lost[i] {
          j := i;
          break;
        }
        i := i + 1;
      }
      assert FirstAbove(before, size, 0) == i && (i < lost.Length ==> j == i);
      if j > 0 {
        for k := 0 to lost.Length
          modifies lost
          invariant forall m :: 0 <= m < k ==> lost[m] == if m + j < |before| then before[m + j] else INVALID
          invariant forall m :: k <= m < lost.Length ==> lost[m] == before[m]
        {
          lost[k] := if k + j < lost.Length then lost[k + j] else INVALID;
        }
        assert lost[..] == ShiftLeft(before, j);
      } else {
        assert ShiftLeft(before, 0) == before;
      }
    }

    method OnLost(ackGeneration: nat)
      requires Ready() && (ackGeneration == generation ==> inFlight >= 0)
      modifies this`inFlight, this`lastProbeWasLost, lost
      ensures ackGeneration != generation ==> View() == old(View()) && inFlight == old(inFlight)
      ensures ackGeneration == generation ==> View() == Lost(old(View()), old(inFlight)) && inFlight == INVALID
    {
      if ackGeneration != generation {
        return;
      }
      var size: nat := inFlight;
      ghost var before := lost[..];
      lastProbeWasLost, inFlight := true, INVALID;
      var i := 0;
      while i < lost.Length
        modifies lost
        invariant i <= lost.Length && lost[..] == before
        invariant FirstAbove(before, size, i) == FirstAbove(before, size, 0)
      {
        if size < lost[i] {
          forall k | i < k < lost.Length {
            lost[k] := lost[k - 1];
          }
          lost[i] := size;
          assert lost[..] == InsertAt(before, i, size);
          return;
        }
        i := i + 1;
      }
    }

    /** One probe and its outcome. */
    method ProbeOnce(acked: bool, ghost top: nat)
      requires Ready() && Valid(View(), top) && !Done(View())
      modifies this, lost
      ensures Ready() && generation == old(generation)
      ensures ProbeSize(old(View())) >= 0 && View() == Resolve(old(View()), acked)
    {
      hide Acked, Lost;
      ProbeIsInside(View(), top);
      ghost var f := View();
      var size, g := GetPing(0);
      if acked {
        OnAcked(g);
      } else {
        OnLost(g);
      }
      ProbeMakesProgress(f, top, acked);
    }

    /** Drives a search to its end, with an arbitrary outcome for every probe. */
    method Discover(acks: nat -> bool, ghost top: nat)
      requires Ready() && Valid(View(), top)
      modifies this, lost
      ensures View() == RunSearch(old(View()), top, acks, 0).final
    {
      hide Acked, Lost, Copies, PaddedSum, Unused, Done, UpperBound, ProbeSize;
      var k := 0;
      ghost var goal := RunSearch(View(), top, acks, 0).final;
      var done := IsDone();
      while !done
        invariant Ready() && Valid(View(), top) && (done <==> Done(View()))
        invariant RunSearch(View(), top, acks, k).final == goal
        decreases top - min, UpperBound(View()), Copies(View()), PaddedSum(View(), top), lastProbeWasLost,
                  Unused(View())
      {
        ProbeMakesProgress(View(), top, acks(k));
        ProbeOnce(acks(k), top);
        k := k + 1;
        done := IsDone();
      }
    }
  }
}
