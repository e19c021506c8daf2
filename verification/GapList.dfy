/**
 The list of offsets a frame sorter has not received yet, and what removing an interval from it
 means. Subtract is the reference; Spliced is the shape that the sorter's list surgery produces.
 */
module GapList {
  import opened Common

  /** The half-open interval [start, end) of offsets not received yet. */
  datatype Gap = Gap(start: nat, end: nat)

  /** Gaps are non-empty, sorted and never touch; the last one is open-ended. */
  predicate GapsOk(gaps: seq<Gap>) {
    && |gaps| > 0
    && (forall i :: 0 <= i < |gaps| ==> gaps[i].start < gaps[i].end)
    && (forall i, j :: 0 <= i < j < |gaps| ==> gaps[i].end < gaps[j].start)
    && gaps[|gaps| - 1].end == MAX_BYTE_COUNT
  }

  ghost predicate InGaps(gaps: seq<Gap>, x: nat) {
    exists i :: 0 <= i < |gaps| && gaps[i].start <= x < gaps[i].end
  }

  /** The part of a gap below a. */
  function LeftOf(g: Gap, a: nat): seq<Gap> {
    if g.start < Min(g.end, a) then [Gap(g.start, Min(g.end, a))] else []
  }

  /** The part of a gap from b on. */
  function RightOf(g: Gap, b: nat): seq<Gap> {
    if Max(g.start, b) < g.end then [Gap(Max(g.start, b), g.end)] else []
  }

  /** What is left of one gap once [a, b) has been received. */
  function Cut(g: Gap, a: nat, b: nat): seq<Gap> {
    LeftOf(g, a) + RightOf(g, b)
  }

  /** Reference definition of the gap list once [a, b) has been received. */
  function Subtract(gaps: seq<Gap>, a: nat, b: nat): seq<Gap> {
    if gaps == [] then [] else Cut(gaps[0], a, b) + Subtract(gaps[1..], a, b)
  }

  lemma {:induction false} SubtractMisses(g: seq<Gap>, a: nat, b: nat)
    requires a < b
    requires forall i :: 0 <= i < |g| ==> g[i].start < g[i].end && (g[i].end <= a || b <= g[i].start)
    ensures Subtract(g, a, b) == g
  {
    if g != [] {
      SubtractMisses(g[1..], a, b);
      assert Cut(g[0], a, b) == [g[0]];
    }
  }

  lemma {:induction false} InGapsConcat(g: seq<Gap>, h: seq<Gap>, x: nat)
    ensures InGaps(g + h, x) <==> InGaps(g, x) || InGaps(h, x)
  {
    var s := g + h;
    if InGaps(g, x) {
      var i :| 0 <= i < |g| && g[i].start <= x < g[i].end;
      assert s[i] == g[i];
    }
    if InGaps(h, x) {
      var i :| 0 <= i < |h| && h[i].start <= x < h[i].end;
      assert s[|g| + i] == h[i];
    }
    if InGaps(s, x) {
      var i :| 0 <= i < |s| && s[i].start <= x < s[i].end;
      if i < |g| {
        assert g[i] == s[i];
      } else {
        assert h[i - |g|] == s[i];
      }
    }
  }

  /** Subtract means set difference: exactly the bytes of [a, b) leave the gaps. */
  lemma {:induction false} SubtractIsDifference(gaps: seq<Gap>, a: nat, b: nat, x: nat)
    requires a < b
    ensures InGaps(Subtract(gaps, a, b), x) <==> InGaps(gaps, x) && !(a <= x < b)
  {
    if gaps != [] {
      var g := gaps[0];
      SubtractIsDifference(gaps[1..], a, b, x);
      InGapsConcat(Cut(g, a, b), Subtract(gaps[1..], a, b), x);
      InGapsConcat([g], gaps[1..], x);
      assert [g] + gaps[1..] == gaps;
      assert [g][0] == g;
      CutIsDifference(g, a, b, x);
    }
  }

  lemma CutIsDifference(g: Gap, a: nat, b: nat, x: nat)
    requires a < b
    ensures InGaps(Cut(g, a, b), x) <==> InGaps([g], x) && !(a <= x < b)
  {
    var left, right := LeftOf(g, a), RightOf(g, b);
    InGapsConcat(left, right, x);
    assert InGaps([g], x) <==> g.start <= x < g.end by {
      assert [g][0] == g;
    }
    assert InGaps(left, x) <==> g.start <= x < Min(g.end, a) by {
      if left != [] { assert left[0] == Gap(g.start, Min(g.end, a)); }
    }
    assert InGaps(right, x) <==> Max(g.start, b) <= x < g.end by {
      if right != [] { assert right[0] == Gap(Max(g.start, b), g.end); }
    }
  }

  /** Sorted, separated intervals, all at or above lo; GapsOk without the open end. */
  predicate Separated(gaps: seq<Gap>, lo: nat) {
    && (forall i :: 0 <= i < |gaps| ==> lo <= gaps[i].start < gaps[i].end)
    && (forall i, j :: 0 <= i < j < |gaps| ==> gaps[i].end < gaps[j].start)
  }

  lemma SeparatedConcat(g: seq<Gap>, h: seq<Gap>, lo: nat, mid: nat)
    requires Separated(g, lo) && Separated(h, mid) && lo <= mid
    requires forall i :: 0 <= i < |g| ==> g[i].end < mid
    ensures Separated(g + h, lo)
  {
  }

  lemma CutSeparated(g: Gap, lo: nat, a: nat, b: nat)
    requires lo <= g.start < g.end && a < b
    ensures Separated(Cut(g, a, b), lo)
    ensures forall i :: 0 <= i < |Cut(g, a, b)| ==> Cut(g, a, b)[i].end <= g.end
  {
  }

  lemma {:induction false} SubtractSeparated(gaps: seq<Gap>, lo: nat, a: nat, b: nat)
    requires Separated(gaps, lo) && a < b
    ensures Separated(Subtract(gaps, a, b), lo)
  {
    hide Cut;
    if gaps != [] {
      var g := gaps[0];
      SubtractSeparated(gaps[1..], g.end + 1, a, b);
      CutSeparated(g, lo, a, b);
      SeparatedConcat(Cut(g, a, b), Subtract(gaps[1..], a, b), lo, g.end + 1);
    }
  }

  lemma {:induction false} SubtractLast(gaps: seq<Gap>, a: nat, b: nat)
    requires |gaps| > 0 && gaps[|gaps| - 1].start < gaps[|gaps| - 1].end && b < gaps[|gaps| - 1].end
    ensures var r := Subtract(gaps, a, b); |r| > 0 && r[|r| - 1].end == gaps[|gaps| - 1].end
  {
    if |gaps| > 1 {
      SubtractLast(gaps[1..], a, b);
    } else {
      assert gaps[1..] == [];
    }
  }

  lemma SubtractGapsOk(gaps: seq<Gap>, a: nat, b: nat)
    requires GapsOk(gaps) && a < b < MAX_BYTE_COUNT
    ensures GapsOk(Subtract(gaps, a, b))
    ensures Subtract(gaps, a, b)[0].start >= gaps[0].start
  {
    assert Separated(gaps, gaps[0].start);
    SubtractSeparated(gaps, gaps[0].start, a, b);
    SubtractLast(gaps, a, b);
  }

  /** Gap i holds or follows `start`, gap j is the last one that begins at or before `end`. */
  predicate Located(gaps: seq<Gap>, i: nat, j: nat, start: nat, end: nat) {
    && i <= j < |gaps|
    && start < end
    && start <= gaps[i].end
    && gaps[i].start < end
    && (i > 0 ==> gaps[i - 1].end < start)
    && gaps[j].start <= end
    && (j + 1 < |gaps| ==> end < gaps[j + 1].start)
  }

  /** The list surgery of a push in closed form: keep, trim left, trim right, keep. */
  function Spliced(gaps: seq<Gap>, i: nat, j: nat, a: nat, b: nat): seq<Gap>
    requires i <= j < |gaps|
  {
    gaps[..i] + (LeftOf(gaps[i], a) + RightOf(gaps[j], b)) + gaps[j + 1..]
  }

  /** The frame may be shortened to [a, b) as long as no missing byte is cut away. */
  predicate Trimmed(gaps: seq<Gap>, i: nat, j: nat, start: nat, end: nat, a: nat, b: nat)
    requires i <= j < |gaps|
  {
    && start <= a < b <= end
    && (a == start || (start < a && a == gaps[i].start))
    && (b == end || b == gaps[j].end || (i == j && a == gaps[i].end))
  }

  lemma TrimmedEnds(gaps: seq<Gap>, i: nat, j: nat, start: nat, end: nat, a: nat, b: nat)
    requires GapsOk(gaps) && Located(gaps, i, j, start, end) && Trimmed(gaps, i, j, start, end, a, b)
    ensures LeftOf(gaps[i], a) == LeftOf(gaps[i], start)
    ensures RightOf(gaps[j], b) == RightOf(gaps[j], end)
  {
  }

  lemma SplicedCons(gaps: seq<Gap>, i: nat, j: nat, a: nat, b: nat)
    requires 0 < i <= j < |gaps|
    ensures Spliced(gaps, i, j, a, b) == [gaps[0]] + Spliced(gaps[1..], i - 1, j - 1, a, b)
  {
    var rest := gaps[1..];
    assert rest[i - 1] == gaps[i] && rest[j - 1] == gaps[j];
    assert gaps[..i] == [gaps[0]] + rest[..i - 1];
    assert gaps[j + 1..] == rest[j..];
  }

  lemma SplicedTail(gaps: seq<Gap>, j: nat, a: nat, b: nat)
    requires 0 < j < |gaps| && a <= gaps[1].start
    ensures Spliced(gaps, 0, j, a, b) == LeftOf(gaps[0], a) + Spliced(gaps[1..], 0, j - 1, a, b)
  {
    var rest := gaps[1..];
    assert rest[0] == gaps[1] && rest[j - 1] == gaps[j];
    assert LeftOf(rest[0], a) == [];
    assert gaps[j + 1..] == rest[j..];
  }

  lemma SplicedOne(gaps: seq<Gap>, a: nat, b: nat)
    requires |gaps| > 0
    ensures Spliced(gaps, 0, 0, a, b) == Cut(gaps[0], a, b) + gaps[1..]
  {
    assert gaps[..0] == [];
  }

  lemma SubtractBefore(gaps: seq<Gap>, i: nat, j: nat, start: nat, end: nat)
    requires 0 < i <= j < |gaps| && gaps[0].start < gaps[0].end <= start < end
    requires Subtract(gaps[1..], start, end) == Spliced(gaps[1..], i - 1, j - 1, start, end)
    ensures Subtract(gaps, start, end) == Spliced(gaps, i, j, start, end)
  {
    assert Cut(gaps[0], start, end) == [gaps[0]];
    SplicedCons(gaps, i, j, start, end);
  }

  lemma SubtractFirst(gaps: seq<Gap>, j: nat, start: nat, end: nat)
    requires 0 < j < |gaps| && gaps[0].start < gaps[0].end <= end && start <= gaps[1].start
    requires Subtract(gaps[1..], start, end) == Spliced(gaps[1..], 0, j - 1, start, end)
    ensures Subtract(gaps, start, end) == Spliced(gaps, 0, j, start, end)
  {
    assert Cut(gaps[0], start, end) == LeftOf(gaps[0], start);
    SplicedTail(gaps, j, start, end);
  }

  lemma SubtractOnly(gaps: seq<Gap>, start: nat, end: nat)
    requires Separated(gaps, 0) && |gaps| > 0 && start < end
    requires |gaps| > 1 ==> end <= gaps[1].start
    ensures Subtract(gaps, start, end) == Spliced(gaps, 0, 0, start, end)
  {
    SubtractMisses(gaps[1..], start, end);
    SplicedOne(gaps, start, end);
  }

  /** Gaps before i and after j survive, those strictly between vanish, i and j are trimmed. */
  lemma {:induction false} SubtractIsSpliced(gaps: seq<Gap>, i: nat, j: nat, start: nat, end: nat)
    requires Separated(gaps, 0) && i <= j < |gaps| && start < end
    requires i > 0 ==> gaps[i - 1].end <= start
    requires start <= gaps[i].end && gaps[j].start <= end
    requires j + 1 < |gaps| ==> end <= gaps[j + 1].start
    ensures Subtract(gaps, start, end) == Spliced(gaps, i, j, start, end)
  {
    hide Subtract, Spliced;
    if i > 0 {
      SubtractIsSpliced(gaps[1..], i - 1, j - 1, start, end);
      SubtractBefore(gaps, i, j, start, end);
    } else if j > 0 {
      SubtractIsSpliced(gaps[1..], 0, j - 1, start, end);
      SubtractFirst(gaps, j, start, end);
    } else {
      SubtractOnly(gaps, start, end);
    }
  }

  lemma SplicedIsSubtract(gaps: seq<Gap>, i: nat, j: nat, start: nat, end: nat, a: nat, b: nat)
    requires GapsOk(gaps) && Located(gaps, i, j, start, end) && Trimmed(gaps, i, j, start, end, a, b)
    ensures Spliced(gaps, i, j, a, b) == Subtract(gaps, start, end)
  {
    SubtractIsSpliced(gaps, i, j, start, end);
    TrimmedEnds(gaps, i, j, start, end, a, b);
  }
}
