/** The frame sorter as the object the streams hold: each method updates the queue and the gap list in place. */
module FrameQueue {
  import opened Common
  import opened GapList
  import opened FrameSorting

  /** Same outcome, apart from the callbacks already invoked. */
  ghost predicate Continues(a: Replacement, b: Replacement) {
    a.queue == b.queue && a.pos == b.pos && a.replaced == b.replaced && a.duplicate == b.duplicate && a.cut == b.cut
  }

  lemma ReplaceStep(q: Queue, pos: nat, end: nat, replaced: bool)
    requires pos in q
    requires end - pos > |q[pos].data| || (replaced && end - pos == |q[pos].data|)
    ensures |(q - {pos}).Keys| < |q.Keys|
    ensures var r, r' := Replace(q, pos, end, replaced), Replace(q - {pos}, pos + |q[pos].data|, end, true);
            Continues(r', r) && r.released == CallbackList(q[pos].doneCb) + r'.released
  {
    assert (q - {pos}).Keys == q.Keys - {pos};
  }

  lemma ReplaceStops(q: Queue, pos: nat, end: nat, replaced: bool)
    requires pos in q ==> !(end - pos > |q[pos].data| || (replaced && end - pos == |q[pos].data|))
    ensures Replace(q, pos, end, replaced) ==
            if pos in q then Replacement(q, [], pos, replaced, !replaced, replaced)
            else Replacement(q, [], pos, replaced, false, false)
  {
  }

  lemma DropAt<T>(before: seq<T>, all: seq<T>, m: nat)
    requires m < |all|
    ensures var s := before + all[m..];
            s[|before|] == all[m] && s[..|before|] + s[|before| + 1..] == before + all[m + 1..]
  {
  }

  lemma SplitAt<T>(before: seq<T>, all: seq<T>, m: nat)
    requires m < |all|
    ensures var s := before + all[m..]; s[|before|] == all[m] && s == before + [all[m]] + all[m + 1..]
  {
  }

  lemma Reassociate<T>(a: seq<T>, b: seq<T>, c: seq<T>, d: seq<T>)
    ensures a + b + c + d == a + (b + c) + d
  {
  }

  lemma GapOrder(before: seq<Gap>, all: seq<Gap>, m: nat, j: nat)
    requires GapsOk(all) && m <= j < |all|
    ensures var gaps := before + all[m..];
            |before| < |gaps| && (gaps[|before|].end < all[j].start <==> m < j)
  {
    DropAt(before, all, m);
  }

  lemma DropBehindStep(q: Queue, all: seq<Gap>, m: nat, j: nat)
    requires m < j <= |all|
    ensures var d, r := DropBehind(q, all[m..j]), DropRun(q, all[m].end);
            var d' := DropBehind(r.queue, all[m + 1..j]);
            d.queue == d'.queue && d.released == r.released + d'.released
  {
    assert all[m..j][1..] == all[m + 1..j];
  }

  lemma DropBehindNothing(q: Queue, all: seq<Gap>, j: nat)
    requires j <= |all|
    ensures DropBehind(q, all[j..j]) == Dropped(q, [], 0)
  {
  }

  lemma CutEnd(s: Sorter, i: nat, j: nat, offset: nat, end0: nat, rep: Replacement)
    requires GapsOk(s.gaps) && Located(s.gaps, i, j, offset, end0)
    requires offset <= rep.pos <= end0 && (rep.cut ==> rep.replaced)
    ensures i <= j < |s.gaps|
    ensures var end := if rep.cut then rep.pos else end0;
            StoredStart(s, offset, i, rep) <= StoredEnd(s, offset, end0, i, j, rep) <= end <= end0
    ensures s.gaps[i].start < end0
  {
    assert i < j ==> s.gaps[i].end < s.gaps[j].start;
  }

  lemma {:induction false} ReplaceDuplicate(q: Queue, pos: nat, end: nat)
    requires pos <= end
    ensures var r := Replace(q, pos, end, false); r.duplicate ==> r.queue == q && r.released == []
  {
    if pos in q {
      var n: nat := |q[pos].data|;
      if end - pos > n {
        ReplaceBounds(q - {pos}, pos + n, end, true);
      }
    }
  }

  lemma GapsNotEmpty(gaps: seq<Gap>)
    requires GapsOk(gaps)
    ensures |gaps| > 0
  {
  }

  /** The source's test for a frame without missing bytes comes down to: it ends before gap i. */
  lemma LocateIsSound(gaps: seq<Gap>, offset: nat, end: nat)
    requires GapsOk(gaps) && offset < end < MAX_BYTE_COUNT && gaps[0].start < end
    ensures var i := StartGap(gaps, offset, 0);
            var j := EndGap(gaps, end, i);
            && i < |gaps| && 0 <= j < |gaps|
            && (j != i && end <= gaps[i].start ==> gaps[i].end >= gaps[j].start)
            && (end > gaps[i].start ==> Located(gaps, i, j, offset, end))
  {
    var i := StartGap(gaps, offset, 0);
    assert i > 0 ==> gaps[i - 1].end < gaps[i].start;
  }

  /** The outcome of an inner push that is not found to be a duplicate, field by field. */
  lemma TryPushShape(s: Sorter, data: seq<byte>, offset: nat, doneCb: Option<nat>, i: nat, j: nat, rep: Replacement)
    requires |s.gaps| > 0 && data != [] && s.gaps[0].start < offset + |data|
    requires i == StartGap(s.gaps, offset, 0) && j == EndGap(s.gaps, offset + |data|, i)
    requires s.gaps[i].start < offset + |data| && i <= j < |s.gaps|
    requires rep == Replace(s.queue, offset, offset + |data|, false)
    ensures var p, end := TryPush(s, data, offset, doneCb), offset + |data|;
            if rep.duplicate then p == Pushed(Duplicate, s, []) else
              && p.released == rep.released + Cleared(s, i, j, rep).released +
                               (if Copied(s, offset, end, i, j, rep) then CallbackList(doneCb) else [])
              && p.sorter.gaps == NewGaps(s, offset, end, i, j, rep)
              && if |p.sorter.gaps| > MAX_STREAM_FRAME_SORTER_GAPS then
                   p.result == TooManyGaps && p.sorter.queue == Cleared(s, i, j, rep).queue
                 else
                   p.result == Accepted && p.sorter.queue == NewSorter(s, data, offset, doneCb, i, j, rep).queue
  {
    hide Replace, NewGaps, Cleared, Copied, StoredStart, StoredEnd, NewEntry;
  }

  lemma TryPushReceived(s: Sorter, data: seq<byte>, offset: nat, doneCb: Option<nat>)
    requires |s.gaps| > 0
    requires || data == [] || offset + |data| <= s.gaps[0].start
             || offset + |data| <= s.gaps[StartGap(s.gaps, offset, 0)].start
    ensures TryPush(s, data, offset, doneCb) == Pushed(Duplicate, s, [])
  {
  }

  lemma TiledGaps(s: Sorter)
    requires Tiled(s)
    ensures GapsOk(s.gaps)
  {
  }

  lemma TryPushReadPos(s: Sorter, data: seq<byte>, offset: nat, doneCb: Option<nat>)
    requires |s.gaps| > 0
    ensures TryPush(s, data, offset, doneCb).sorter.readPos == s.readPos
    ensures TryPush(s, data, offset, doneCb).result.Duplicate? ==> TryPush(s, data, offset, doneCb).released == []
  {
  }

  /** Is there a run of entries from pos on that holds n bytes? */
  predicate PeekLen(q: Queue, pos: nat, n: nat)
    decreases n
  {
    || n == 0
    || (pos in q
        && (n <= |q[pos].data| || (|q[pos].data| > 0 && PeekLen(q, pos + |q[pos].data|, n - |q[pos].data|))))
  }

  function PeekValue(q: Queue, pos: nat, n: nat): seq<byte>
    decreases n
  {
    if n == 0 || pos !in q then [] else
      if n <= |q[pos].data| || |q[pos].data| == 0 then Part(q[pos].data, 0, n)
      else q[pos].data + PeekValue(q, pos + |q[pos].data|, n - |q[pos].data|)
  }

  /** Only entries at or behind pos matter. */
  lemma {:induction false} PeekFrame(q: Queue, k: nat, pos: nat, n: nat)
    requires k < pos
    ensures PeekLen(q - {k}, pos, n) == PeekLen(q, pos, n)
    ensures PeekValue(q - {k}, pos, n) == PeekValue(q, pos, n)
    decreases n
  {
    if n > 0 && pos in q && 0 < |q[pos].data| < n {
      PeekFrame(q, k, pos + |q[pos].data|, n - |q[pos].data|);
    }
  }

  lemma {:induction false} PeekUpTo(q: Queue, pos: nat, n: nat)
    requires EntriesOk(q)
    ensures Peek(q, pos, n) == if PeekLen(q, pos, n) then Some(PeekValue(q, pos, n)) else None
    decreases n
  {
    if n > 0 && pos in q && |q[pos].data| < n {
      var pos', n' := pos + |q[pos].data|, n - |q[pos].data|;
      PeekUpTo(q - {pos}, pos', n');
      PeekFrame(q, pos, pos', n');
    }
  }

  lemma PeekStep(q: Queue, pos: nat, n: nat)
    requires EntriesOk(q) && n > 0
    ensures pos !in q ==> !PeekLen(q, pos, n)
    ensures pos in q ==> |q[pos].data| > 0
    ensures pos in q && n <= |q[pos].data| ==> PeekLen(q, pos, n) && PeekValue(q, pos, n) == q[pos].data[..n]
    ensures pos in q && n > |q[pos].data| ==>
              var pos', n' := pos + |q[pos].data|, n - |q[pos].data|;
              && PeekLen(q, pos, n) == PeekLen(q, pos', n')
              && PeekValue(q, pos, n) == q[pos].data + PeekValue(q, pos', n')
  {
  }

  lemma PeekNothing(q: Queue, pos: nat)
    ensures PeekLen(q, pos, 0) && PeekValue(q, pos, 0) == []
  {
  }

  class FrameSorter {
    var queue: Queue
    var readPos: nat
    var gaps: seq<Gap>
    /** The callbacks invoked so far, in order. */
    var released: seq<nat>

    ghost function View(): Sorter
      reads this
    {
      Sorter(queue, readPos, gaps)
    }

    ghost predicate Valid()
      reads this
    {
      Tiled(View())
    }

    constructor ()
      ensures Valid() && View() == Sorter(map[], 0, [Gap(0, MAX_BYTE_COUNT)]) && released == []
    {
      queue, readPos, gaps, released := map[], 0, [Gap(0, MAX_BYTE_COUNT)], [];
      new;
      assert gaps[0] == Gap(0, MAX_BYTE_COUNT);
    }

    method Release(cb: Option<nat>)
      modifies this`released
      ensures released == old(released) + CallbackList(cb)
    {
      if cb.Some? {
        released := released + [cb.value];
      }
    }

    /** The panic behind the loop is unreachable: the last gap is open-ended. */
    method FindStartGap(offset: nat) returns (i: nat, inGap: bool)
      requires GapsOk(gaps) && offset < MAX_BYTE_COUNT
      ensures i == StartGap(gaps, offset, 0)
      ensures inGap <==> gaps[i].start <= offset
    {
      i, inGap := 0, false;
      while i < |gaps|
        invariant i <= |gaps| && (i > 0 ==> gaps[i - 1].end < offset)
        invariant i < |gaps| ==> StartGap(gaps, offset, i) == StartGap(gaps, offset, 0)
      {
        if gaps[i].start <= offset <= gaps[i].end {
          return i, true;
        }
        if offset < gaps[i].start {
          return i, false;
        }
        i := i + 1;
      }
      assert false;
    }

    /** Returns i - 1 when the frame ends before gap i. */
    method FindEndGap(i: nat, offset: nat) returns (j: int, inGap: bool)
      requires GapsOk(gaps) && i < |gaps| && offset < MAX_BYTE_COUNT
      ensures j == EndGap(gaps, offset, i)
      ensures inGap <==> j >= i && offset < gaps[j].end
    {
      j, inGap := i, false;
      while j < |gaps|
        invariant i <= j <= |gaps| && (j > i ==> gaps[j - 1].end <= offset)
        invariant j < |gaps| && (j == i || gaps[j].start <= offset) ==>
                    EndGap(gaps, offset, j) == EndGap(gaps, offset, i)
        invariant i < j < |gaps| && offset < gaps[j].start ==> EndGap(gaps, offset, i) == j - 1
      {
        if gaps[j].start <= offset < gaps[j].end {
          return j, true;
        }
        if offset < gaps[j].start {
          return j - 1, false;
        }
        j := j + 1;
      }
      assert false;
    }

    /** Deletes consecutive entries starting at p, releasing their buffers. */
    method DeleteConsecutive(p: nat)
      modifies this`queue, this`released
      ensures queue == DropRun(old(queue), p).queue
      ensures released == old(released) + DropRun(old(queue), p).released
    {
      var pos: nat := p;
      ghost var d := DropRun(queue, p);
      while pos in queue
        invariant DropRun(queue, pos).queue == d.queue
        invariant released + DropRun(queue, pos).released == old(released) + d.released
        decreases |queue.Keys|
      {
        var oldEntry := queue[pos];
        assert (queue - {pos}).Keys == queue.Keys - {pos};
        queue := queue - {pos};
        Release(oldEntry.doneCb);
        pos := pos + |oldEntry.data|;
      }
    }

    /** The first loop of push: entries that the frame covers are replaced, starting at start. */
    method ReplaceEntries(start: nat, end: nat) returns (pos: nat, replaced: bool, duplicate: bool, cut: bool)
      modifies this`queue, this`released
      ensures var r := Replace(old(queue), start, end, false);
              && queue == r.queue && released == old(released) + r.released
              && pos == r.pos && replaced == r.replaced && duplicate == r.duplicate && cut == r.cut
    {
      hide Replace;
      pos, replaced, duplicate, cut := start, false, false, false;
      ghost var r := Replace(queue, start, end, false);
      while pos in queue
        invariant Continues(Replace(queue, pos, end, replaced), r)
        invariant released + Replace(queue, pos, end, replaced).released == old(released) + r.released
        invariant !duplicate && !cut
        decreases |queue.Keys|
      {
        var oldEntry := queue[pos];
        var oldEntryLen := |oldEntry.data|;
        if end - pos > oldEntryLen || (replaced && end - pos == oldEntryLen) {
          ReplaceStep(queue, pos, end, replaced);
          queue := queue - {pos};
          pos := pos + oldEntryLen;
          replaced := true;
          Release(oldEntry.doneCb);
        } else {
          ReplaceStops(queue, pos, end, replaced);
          return pos, replaced, !replaced, replaced;
        }
      }
      ReplaceStops(queue, pos, end, replaced);
    }

    /** What the frame does to the gap it starts in; next is where the following gap is now. */
    method TrimStartGap(i: nat, start: nat, end: nat, replaced: bool) returns (adjusted: bool, next: nat)
      requires i < |gaps|
      modifies this`gaps
      ensures var piece := StartPiece(old(gaps)[i], start, end, replaced);
              gaps == old(gaps)[..i] + piece + old(gaps)[i + 1..] && next == i + |piece|
      ensures adjusted <==> start > old(gaps)[i].start && !replaced
    {
      adjusted, next := false, i + 1;
      if start <= gaps[i].start {
        if end >= gaps[i].end {
          gaps := gaps[..i] + gaps[i + 1..];
          next := i;
        } else {
          gaps := gaps[i := Gap(end, gaps[i].end)];
        }
      } else if !replaced {
        gaps := gaps[i := Gap(gaps[i].start, start)];
        adjusted := true;
      }
    }

    /** Removes the gap at n, and the entries between it and the next gap. */
    method DeleteGap(n: nat, ghost before: seq<Gap>, ghost all: seq<Gap>, ghost m: nat)
      requires m < |all| && n == |before| && gaps == before + all[m..]
      modifies this`queue, this`gaps, this`released
      ensures gaps == before + all[m + 1..]
      ensures queue == DropRun(old(queue), all[m].end).queue
      ensures released == old(released) + DropRun(old(queue), all[m].end).released
    {
      DropAt(before, all, m);
      DeleteConsecutive(gaps[n].end);
      gaps := gaps[..n] + gaps[n + 1..];
    }

    /** The frame reaches from gap i into gap j: the gaps between them and all entries in the way disappear. */
    method DeleteBetween(n: nat, startGapEnd: nat, endGapStart: nat,
                         ghost before: seq<Gap>, ghost all: seq<Gap>, ghost i: nat, ghost j: nat)
      requires GapsOk(all) && i < j < |all| && n == |before| && gaps == before + all[i + 1..]
      requires startGapEnd == all[i].end && endGapStart == all[j].start
      modifies this`queue, this`gaps, this`released
      ensures gaps == before + all[j..]
      ensures queue == DropBehind(old(queue), all[i..j]).queue
      ensures released == old(released) + DropBehind(old(queue), all[i..j]).released
    {
      hide DropBehind, DropRun, GapsOk;
      ghost var d := DropBehind(queue, all[i..j]);
      ghost var m := i + 1;
      DropBehindStep(queue, all, i, j);
      DeleteConsecutive(startGapEnd);
      GapOrder(before, all, m, j);
      while gaps[n].end < endGapStart
        invariant i < m <= j && n < |gaps| && (gaps[n].end < endGapStart <==> m < j)
        invariant gaps == before + all[m..]
        invariant DropBehind(queue, all[m..j]).queue == d.queue
        invariant released + DropBehind(queue, all[m..j]).released == old(released) + d.released
        decreases j - m
      {
        DropBehindStep(queue, all, m, j);
        DeleteGap(n, before, all, m);
        m := m + 1;
        GapOrder(before, all, m, j);
      }
      DropBehindNothing(queue, all, j);
    }

    /** What the frame does to the gap it ends in, which is at n unless it is also the start gap. */
    method TrimEndGap(n: nat, end: nat, endGapEnd: nat, same: bool, adjusted: bool,
                      ghost before: seq<Gap>, ghost after: seq<Gap>)
      requires n == |before| && (same ==> gaps == before + after)
      requires !same ==> n < |gaps| && gaps == before + [gaps[n]] + after && gaps[n].end == endGapEnd
      modifies this`gaps
      ensures gaps == before + (if end != endGapEnd && (!same || adjusted) then [Gap(end, endGapEnd)] else []) + after
    {
      if end == endGapEnd {
        if !same {
          gaps := gaps[..n] + gaps[n + 1..];
        }
      } else {
        if same && adjusted {
          gaps := gaps[..n] + [Gap(end, endGapEnd)] + gaps[n..];
        } else if !same {
          gaps := gaps[n := Gap(end, gaps[n].end)];
        }
      }
    }

    /**
     The gap list is updated for a frame that is now [start, end); returns where the frame ends after the last cut.
     */
    method UpdateGaps(i: nat, j: nat, start: nat, end: nat, replaced: bool, endsInGap: bool, ghost s: Sorter)
      returns (end': nat)
      requires GapsOk(s.gaps) && i <= j < |s.gaps| && gaps == s.gaps
      requires end > s.gaps[j].end ==> !endsInGap
      modifies this`queue, this`gaps, this`released
      ensures end' == FinalEnd(s.gaps[j], start, end)
      ensures gaps == s.gaps[..i] +
                      (StartPiece(s.gaps[i], start, end, replaced) + EndPiece(s, i, j, start, end', replaced)) +
                      s.gaps[j + 1..]
      ensures i == j ==> queue == old(queue) && released == old(released)
      ensures i < j ==> queue == DropBehind(old(queue), s.gaps[i..j]).queue
      ensures i < j ==> released == old(released) + DropBehind(old(queue), s.gaps[i..j]).released
    {
      hide DropBehind, GapsOk;
      var same := i == j;
      var startGapEnd, endGapStart, endGapEnd := gaps[i].end, gaps[j].start, gaps[j].end;
      var adjusted, next := TrimStartGap(i, start, end, replaced);
      ghost var before := s.gaps[..i] + StartPiece(s.gaps[i], start, end, replaced);
      if !same {
        DeleteBetween(next, startGapEnd, endGapStart, before, s.gaps, i, j);
        SplitAt(before, s.gaps, j);
      }
      end' := end;
      if !endsInGap && start != endGapEnd && end > endGapEnd {
        end' := endGapEnd;
      }
      ghost var after := s.gaps[j + 1..];
      TrimEndGap(next, end', endGapEnd, same, adjusted, before, after);
      Reassociate(s.gaps[..i], StartPiece(s.gaps[i], start, end, replaced),
                  EndPiece(s, i, j, start, end', replaced), after);
    }

    /** Cuts the frame at an entry that reaches further, and at the gap if it starts before it. */
    method CutFrame(data: seq<byte>, offset: nat, gapStart: nat, startsInGap: bool, pos: nat, replaced: bool, cut: bool)
      returns (rest: seq<byte>, start: nat, end: nat, wasCut: bool)
      requires offset <= pos <= offset + |data| && (cut ==> replaced)
      requires startsInGap <==> gapStart <= offset
      requires gapStart <= offset + |data|
      ensures end == if cut then pos else offset + |data|
      ensures start == if !startsInGap && !replaced then gapStart else offset
      ensures offset <= start <= end && rest == data[start - offset..end - offset]
      ensures wasCut <==> cut || start != offset
    {
      rest, start, end, wasCut := data, offset, offset + |data|, cut;
      if cut {
        rest, end := rest[..pos - start], pos;
      }
      if !startsInGap && !replaced {
        rest, start, wasCut := rest[gapStart - start..], gapStart, true;
      }
    }

    /** Shortens the frame to the part that is stored, and updates gaps and queue for it. */
    method ShortenFrame(data: seq<byte>, offset: nat, i: nat, j: nat, startsInGap: bool, endsInGap: bool,
                        pos: nat, replaced: bool, cut: bool, ghost s: Sorter, ghost rep: Replacement)
      returns (rest: seq<byte>, start: nat, ghost end: nat, wasCut: bool)
      requires GapsOk(s.gaps) && Located(s.gaps, i, j, offset, offset + |data|)
      requires gaps == s.gaps && queue == rep.queue
      requires rep.pos == pos && rep.replaced == replaced && rep.cut == cut
      requires offset <= pos <= offset + |data| && (cut ==> replaced)
      requires startsInGap <==> s.gaps[i].start <= offset
      requires endsInGap <==> offset + |data| < s.gaps[j].end
      modifies this`queue, this`gaps, this`released
      ensures start == StoredStart(s, offset, i, rep) && end == StoredEnd(s, offset, offset + |data|, i, j, rep)
      ensures offset <= start <= end <= offset + |data| && rest == data[start - offset..end - offset]
      ensures wasCut && |rest| < MIN_STREAM_FRAME_BUFFER_SIZE <==> Copied(s, offset, offset + |data|, i, j, rep)
      ensures gaps == NewGaps(s, offset, offset + |data|, i, j, rep)
      ensures queue == Cleared(s, i, j, rep).queue
      ensures released == old(released) + Cleared(s, i, j, rep).released
    {
      hide DropBehind, GapsOk, StartPiece, EndPiece;
      CutEnd(s, i, j, offset, offset + |data|, rep);
      var end': nat;
      rest, start, end', wasCut := CutFrame(data, offset, gaps[i].start, startsInGap, pos, replaced, cut);
      var end'' := UpdateGaps(i, j, start, end', replaced, endsInGap, s);
      if end'' != end' {
        rest, wasCut := rest[..end'' - start], true;
      }
      end := end'';
    }

    /** The part of push behind the duplicate checks. */
    method InsertFrame(data: seq<byte>, offset: nat, doneCb: Option<nat>, i: nat, j: nat, startsInGap: bool,
                       endsInGap: bool, pos: nat, replaced: bool, cut: bool, ghost s: Sorter, ghost rep: Replacement)
      returns (r: PushResult)
      requires GapsOk(s.gaps) && Located(s.gaps, i, j, offset, offset + |data|)
      requires gaps == s.gaps && queue == rep.queue
      requires rep.pos == pos && rep.replaced == replaced && rep.cut == cut
      requires offset <= pos <= offset + |data| && (cut ==> replaced)
      requires startsInGap <==> s.gaps[i].start <= offset
      requires endsInGap <==> offset + |data| < s.gaps[j].end
      modifies this`queue, this`gaps, this`released
      ensures gaps == NewGaps(s, offset, offset + |data|, i, j, rep)
      ensures released == old(released) + Cleared(s, i, j, rep).released +
                          (if Copied(s, offset, offset + |data|, i, j, rep) then CallbackList(doneCb) else [])
      ensures if |gaps| > MAX_STREAM_FRAME_SORTER_GAPS then
                r == TooManyGaps && queue == Cleared(s, i, j, rep).queue
              else
                r == Accepted && queue == NewSorter(s, data, offset, doneCb, i, j, rep).queue
    {
      hide NewGaps, Cleared, Copied, StoredStart, StoredEnd, GapsOk;
      var cb := doneCb;
      var rest, start, end, wasCut :=
        ShortenFrame(data, offset, i, j, startsInGap, endsInGap, pos, replaced, cut, s, rep);
      if wasCut && |rest| < MIN_STREAM_FRAME_BUFFER_SIZE {
        Release(cb);
        cb := None;
      }
      if |gaps| > MAX_STREAM_FRAME_SORTER_GAPS {
        return TooManyGaps;
      }
      assert NewEntry(s, data, offset, doneCb, i, j, rep) == Entry(rest, cb);
      queue := queue[start := Entry(rest, cb)];
      r := Accepted;
    }

    /** The checks in front of a push: is every byte of the frame known to have been received? */
    method Locate(offset: nat, end: nat) returns (received: bool, i: nat, j: nat, startsInGap: bool, endsInGap: bool)
      requires GapsOk(gaps) && end < MAX_BYTE_COUNT
      ensures received <==> offset >= end || end <= gaps[0].start || end <= gaps[StartGap(gaps, offset, 0)].start
      ensures !received ==>
                && i == StartGap(gaps, offset, 0) && j == EndGap(gaps, end, i)
                && Located(gaps, i, j, offset, end)
                && (startsInGap <==> gaps[i].start <= offset)
                && (endsInGap <==> end < gaps[j].end)
    {
      hide StartGap, EndGap, Located, GapsOk;
      GapsNotEmpty(gaps);
      received, i, j, startsInGap, endsInGap := true, 0, 0, false, false;
      if offset >= end {
        return;
      }
      if end <= gaps[0].start {
        return;
      }
      LocateIsSound(gaps, offset, end);
      i, startsInGap := FindStartGap(offset);
      var endGap, inGap := FindEndGap(i, end);
      var same := i == endGap;
      if (same && end <= gaps[i].start) || (!same && gaps[i].end >= gaps[endGap].start && end <= gaps[i].start) {
        return;
      }
      received, j, endsInGap := false, endGap, inGap;
    }

    /** The inner push, in place; it computes exactly what TryPush says. */
    method TryPushFrame(data: seq<byte>, offset: nat, doneCb: Option<nat>) returns (r: PushResult)
      requires GapsOk(gaps) && offset + |data| < MAX_BYTE_COUNT
      modifies this`queue, this`gaps, this`released
      ensures var p := TryPush(old(View()), data, offset, doneCb);
              && r == p.result && released == old(released) + p.released
              && queue == p.sorter.queue && gaps == p.sorter.gaps
    {
      hide GapsOk, StartGap, EndGap, Replace, TryPush, NewSorter, NewGaps, Cleared, Copied, StoredStart, StoredEnd;
      ghost var s := View();
      GapsNotEmpty(gaps);
      var received, i, j, startsInGap, endsInGap := Locate(offset, offset + |data|);
      if received {
        TryPushReceived(s, data, offset, doneCb);
        return Duplicate;
      }
      ghost var rep := Replace(queue, offset, offset + |data|, false);
      ReplaceBounds(queue, offset, offset + |data|, false);
      ReplaceDuplicate(queue, offset, offset + |data|);
      TryPushShape(s, data, offset, doneCb, i, j, rep);
      var pos, replaced, duplicate, cut := ReplaceEntries(offset, offset + |data|);
      if duplicate {
        return Duplicate;
      }
      r := InsertFrame(data, offset, doneCb, i, j, startsInGap, endsInGap, pos, replaced, cut, s, rep);
    }

    /** Push: unless there are too many gaps, the tiling is kept and exactly the frame's bytes stop missing. */
    method PushFrame(data: seq<byte>, offset: nat, doneCb: Option<nat>) returns (r: PushResult)
      requires Valid() && offset + |data| < MAX_BYTE_COUNT
      modifies this`queue, this`gaps, this`released
      ensures var p := Push(old(View()), data, offset, doneCb);
              r == p.result && View() == p.sorter && released == old(released) + p.released
      ensures !r.TooManyGaps? ==> Valid() && PushOutcome(old(View()), data, offset, View())
    {
      hide TryPush, Tiled;
      ghost var s := View();
      TiledGaps(s);
      TryPushReadPos(s, data, offset, doneCb);
      PushIsCorrect(s, data, offset, doneCb);
      r := TryPushFrame(data, offset, doneCb);
      if r.Duplicate? {
        Release(doneCb);
      }
    }

    method PopFrame() returns (offset: nat, entry: Option<Entry>)
      requires Valid()
      modifies this`queue, this`readPos
      ensures var p := Pop(old(View())); View() == p.sorter && offset == p.offset && entry == p.entry
      ensures Valid() && gaps == old(gaps)
      ensures entry.Some? <==> old(readPos) < gaps[0].start
    {
      PopIsCorrect(View());
      offset, entry := readPos, None;
      if readPos in queue {
        entry := Some(queue[readPos]);
        queue := queue - {readPos};
        readPos := readPos + |entry.value.data|;
        if gaps[0].end <= readPos {
          assert false;
        }
      }
    }

    /** First checks that there is enough consecutive data, then copies it. */
    method PeekBytes(offset: nat, n: nat) returns (p: Option<seq<byte>>)
      requires EntriesOk(queue)
      ensures p == Peek(queue, offset, n)
    {
      hide PeekLen, PeekValue, EntriesOk;
      PeekUpTo(queue, offset, n);
      var pos: nat, remaining: nat := offset, n;
      while remaining > 0
        invariant PeekLen(queue, pos, remaining) <==> PeekLen(queue, offset, n)
        decreases remaining
      {
        PeekStep(queue, pos, remaining);
        if pos !in queue {
          return None;
        }
        var entryLen := |queue[pos].data|;
        if remaining <= entryLen {
          break;
        }
        remaining := remaining - entryLen;
        pos := pos + entryLen;
      }
      PeekNothing(queue, pos);
      pos := offset;
      var copied: seq<byte> := [];
      while |copied| < n
        invariant |copied| <= n && PeekLen(queue, pos, n - |copied|)
        invariant copied + PeekValue(queue, pos, n - |copied|) == PeekValue(queue, offset, n)
        decreases n - |copied|
      {
        PeekStep(queue, pos, n - |copied|);
        var data := queue[pos].data;
        var m := if |data| <= n - |copied| then |data| else n - |copied|;
        PeekNothing(queue, pos + |data|);
        copied := copied + data[..m];
        pos := pos + |data|;
      }
      PeekNothing(queue, pos);
      assert copied + [] == copied;
      p := Some(copied);
    }
  }
}
