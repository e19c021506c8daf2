/**
 How a client sends its ClientHello out of order: it leaves out two cuts, one in the host name and one in the
 Encrypted Client Hello extension, and sends them last.
 */
module Scrambling {
  import opened Common
  import opened Varint
  import opened ClientHello
  import opened StreamFrames
  import opened ReliableSending

  /** A part that is left out at first; start is -1 where there is none. */
  datatype Cut = Cut(start: int, end: int) {
    predicate Live() { start != -1 }
  }

  const NO_CUT: Cut := Cut(-1, -1)

  /** The data to send, where sending goes on, and while the ClientHello is scrambled its end and its cuts. */
  datatype Scrambler = Scrambler(buf: seq<byte>, offset: nat, scramble: bool, end: int, cut0: Cut, cut1: Cut)

  /** How much data a CRYPTO frame of the given size holds. */
  function MaxCryptoLen(offset: nat, maxSize: nat): nat {
    var headerLen := 1 + VarintLen(offset) + 1;
    if headerLen > maxSize then 0
    else
      var n := maxSize - headerLen;
      if VarintLen(n) != 1 then n - 1 else n
  }

  datatype Popped = Popped(s: Scrambler, f: Option<StreamFrame>)

  function Slice(buf: seq<byte>, a: int, b: int): seq<byte> {
    if 0 <= a <= b <= |buf| then buf[a..b] else []
  }

  function PopPlain(s: Scrambler, maxLen: nat): Popped {
    var n := Min(MaxCryptoLen(s.offset, maxLen), |s.buf|);
    if n <= 0 then Popped(s, None)
    else Popped(s.(buf := s.buf[n..], offset := s.offset + n), Some(StreamFrame(s.offset, s.buf[..n], false)))
  }

  /** The first cut that starts ahead. */
  function NextCut(s: Scrambler): Cut {
    if s.cut0.Live() && s.cut0.start > s.offset then s.cut0
    else if s.cut1.Live() && s.cut1.start > s.offset then s.cut1
    else NO_CUT
  }

  /** Sends up to the next cut, and skips the cut. */
  function PopAhead(s: Scrambler, maxLen: nat): Popped {
    var cut := NextCut(s);
    var stop := if cut.Live() then cut.start else s.end;
    var n := Min(MaxCryptoLen(s.offset, maxLen), stop - s.offset);
    if n <= 0 then Popped(s, None)
    else
      var o := s.offset + n;
      var f := StreamFrame(s.offset, Slice(s.buf, s.offset, o), false);
      Popped(s.(offset := if o == cut.start && cut.end >= 0 then cut.end else o), Some(f))
  }

  function Shrink(c: Cut, n: int): Cut {
    if c.start + n == c.end then NO_CUT else Cut(c.start + n, c.end)
  }

  /** Everything up to the end of the ClientHello was sent. */
  function Finish(s: Scrambler): Scrambler {
    s.(buf := Slice(s.buf, s.end, |s.buf|), end := -1, scramble := false)
  }

  function FinishIfDone(s: Scrambler): Scrambler {
    if s.cut0.Live() || s.cut1.Live() then s else Finish(s)
  }

  /** Sends from the first cut that is left. */
  function PopCut(s: Scrambler, maxLen: nat): Popped {
    var c := if s.cut0.Live() then s.cut0 else s.cut1;
    if !c.Live() || c.start < 0 then Popped(FinishIfDone(s), None)
    else
      var n := Min(MaxCryptoLen(c.start, maxLen), c.end - c.start);
      if n <= 0 then Popped(s, None)
      else
        var s' := if s.cut0.Live() then s.(cut0 := Shrink(c, n)) else s.(cut1 := Shrink(c, n));
        Popped(FinishIfDone(s'), Some(StreamFrame(c.start, Slice(s.buf, c.start, c.start + n), false)))
  }

  function Pop(s: Scrambler, maxLen: nat): Popped {
    if !s.scramble then PopPlain(s, maxLen)
    else if s.offset == s.end then PopCut(s, maxLen)
    else PopAhead(s, maxLen)
  }

  function Append(s: Scrambler, p: seq<byte>): Scrambler { s.(buf := s.buf + p) }

  // ---------------------------------------------------------------- writing

  /** The comparison the source sorts the cuts with. */
  function Compare(a: Cut, b: Cut): int {
    if a.start == -1 then 1 else if a.start > b.start then 1 else -1
  }

  /** Sorting two cuts swaps them where the second compares as less than the first. */
  function SortCuts(s: Scrambler): Scrambler {
    if Compare(s.cut1, s.cut0) < 0 then s.(cut0 := s.cut1, cut1 := s.cut0) else s
  }

  /**
   The whole ClientHello has been written; the host name is at sniPos, the ECH extension at echPos (-1 where there is
   none).
   */
  function Begin(s: Scrambler, sniPos: int, sniLen: nat, echPos: int): Scrambler {
    var end := |s.buf|;
    var sni := Cut(sniPos + sniLen / 2, sniPos + sniLen);
    var ech := if echPos > 0 then Cut(echPos + 1, Min(echPos + 17, end)) else s.cut1;
    SortCuts(s.(end := end, cut0 := sni, cut1 := ech))
  }

  /** What the result of parsing does to the stream. */
  function AfterParsing(s: Scrambler, r: Parsed): Scrambler {
    match r
    case Found(sniPos, sniLen, echPos) =>
      if sniPos == -1 && echPos == -1 then s.(scramble := false) else Begin(s, sniPos, sniLen, echPos)
    case _ => s
  }

  /** Appends the data; while there is no first cut, looks for a ClientHello and cuts it. */
  function WriteData(s: Scrambler, p: seq<byte>): Scrambler {
    if s.scramble && !s.cut0.Live() then AfterParsing(Append(s, p), Parse(s.buf + p)) else Append(s, p)
  }

  predicate HasData(s: Scrambler) {
    !(s.scramble && s.offset == 0 && s.cut0.start == -1) && s.buf != []
  }

  /** Nothing was popped yet, and no ClientHello was found yet. */
  predicate Fresh(s: Scrambler) {
    s.scramble && s.offset == 0 && s.cut0 == NO_CUT && s.cut1 == NO_CUT
  }

  // ---------------------------------------------------------------- what holds while popping

  predicate CutOk(c: Cut, end: int) { c == NO_CUT || 0 <= c.start < c.end <= end }

  /** A ClientHello is being scrambled: its cuts are not empty and lie within it. */
  predicate Active(s: Scrambler) {
    && s.scramble && s.offset <= s.end <= |s.buf|
    && CutOk(s.cut0, s.end) && CutOk(s.cut1, s.end)
    && (s.cut0.Live() || s.cut1.Live())
  }

  function InCut(c: Cut, x: nat): nat { if c.Live() && c.start <= x < c.end then 1 else 0 }

  /** The data written so far: what is buffered, and behind the ClientHello what has left the buffer. */
  ghost predicate Buffers(s: Scrambler, written: seq<byte>) {
    if s.scramble then s.buf == written else s.offset <= |written| && s.buf == written[s.offset..]
  }

  ghost predicate AllPieces(sent: seq<StreamFrame>, written: seq<byte>) {
    forall i :: 0 <= i < |sent| ==> sent[i].End() <= |written| && sent[i].data == written[sent[i].offset..sent[i].End()]
  }

  /** Every octet before the offset was sent or is in a cut that is left; none behind it was. */
  ghost predicate Covered(s: Scrambler, sent: seq<StreamFrame>) {
    forall x: nat ::
      && (x < s.offset ==> Count(sent, x) + InCut(s.cut0, x) + InCut(s.cut1, x) >= 1)
      && (x >= s.offset ==> Count(sent, x) == 0)
  }

  ghost predicate Invariant(s: Scrambler, sent: seq<StreamFrame>, written: seq<byte>) {
    && (if s.scramble then Active(s) else !s.cut0.Live() && !s.cut1.Live())
    && Buffers(s, written) && AllPieces(sent, written) && Covered(s, sent)
  }

  lemma CountSnoc(sent: seq<StreamFrame>, f: StreamFrame, x: nat)
    ensures Count(sent + [f], x) == Count(sent, x) + Covers(f, x)
  {
    CountConcat(sent, [f], x);
    CountOne(f, x);
  }

  function Sent(sent: seq<StreamFrame>, f: Option<StreamFrame>): seq<StreamFrame> {
    if f.Some? then sent + [f.value] else sent
  }

  lemma PopPlainKeeps(s: Scrambler, maxLen: nat, sent: seq<StreamFrame>, written: seq<byte>)
    requires Invariant(s, sent, written) && !s.scramble
    ensures var p := PopPlain(s, maxLen); Invariant(p.s, Sent(sent, p.f), written)
  {
    hide Count, MaxCryptoLen;
    var p := PopPlain(s, maxLen);
    if p.f.Some? {
      var n := |p.f.value.data|;
      SliceOfSlice(written, s.offset, |written|, 0, n);
      assert written[s.offset..][n..] == written[s.offset + n..];
      forall x: nat ensures Count(sent + [p.f.value], x) == Count(sent, x) + Covers(p.f.value, x) {
        CountSnoc(sent, p.f.value, x);
      }
    }
  }

  lemma PopAheadKeeps(s: Scrambler, maxLen: nat, sent: seq<StreamFrame>, written: seq<byte>)
    requires Invariant(s, sent, written) && s.scramble && s.offset != s.end
    ensures var p := PopAhead(s, maxLen);
            && Invariant(p.s, Sent(sent, p.f), written)
            && p.s.scramble && p.s.cut0 == s.cut0 && p.s.cut1 == s.cut1 && p.s.end == s.end
            && (p.f.Some? <==> MaxCryptoLen(s.offset, maxLen) > 0)
            && (p.f.Some? ==> p.f.value.offset == s.offset && s.offset < p.f.value.End() <= p.s.offset)
  {
    hide Count, MaxCryptoLen;
    var p := PopAhead(s, maxLen);
    if p.f.Some? {
      forall x: nat ensures Count(sent + [p.f.value], x) == Count(sent, x) + Covers(p.f.value, x) {
        CountSnoc(sent, p.f.value, x);
      }
    }
  }

  lemma PopCutKeeps(s: Scrambler, maxLen: nat, sent: seq<StreamFrame>, written: seq<byte>)
    requires Invariant(s, sent, written) && s.scramble && s.offset == s.end
    ensures var p := PopCut(s, maxLen);
            && Invariant(p.s, Sent(sent, p.f), written) && p.s.offset == s.offset
            && (p.f.Some? <==> MaxCryptoLen((if s.cut0.Live() then s.cut0 else s.cut1).start, maxLen) > 0)
            && forall x: nat :: Count(Sent(sent, p.f), x) + InCut(p.s.cut0, x) + InCut(p.s.cut1, x)
                                == Count(sent, x) + InCut(s.cut0, x) + InCut(s.cut1, x)
  {
    hide Count, MaxCryptoLen;
    var p := PopCut(s, maxLen);
    if p.f.Some? {
      forall x: nat ensures Count(sent + [p.f.value], x) == Count(sent, x) + Covers(p.f.value, x) {
        CountSnoc(sent, p.f.value, x);
      }
    }
  }

  /** Popping loses nothing: every frame holds the octets written at its offset, and what was left out is in a cut. */
  lemma PopKeepsInvariant(s: Scrambler, maxLen: nat, sent: seq<StreamFrame>, written: seq<byte>)
    requires Invariant(s, sent, written)
    ensures var p := Pop(s, maxLen); Invariant(p.s, Sent(sent, p.f), written)
  {
    hide Invariant, PopPlain, PopAhead, PopCut;
    if !s.scramble {
      PopPlainKeeps(s, maxLen, sent, written);
    } else if s.offset == s.end {
      PopCutKeeps(s, maxLen, sent, written);
    } else {
      PopAheadKeeps(s, maxLen, sent, written);
    }
  }

  /** More may be written at any time. */
  lemma AppendKeepsInvariant(s: Scrambler, p: seq<byte>, sent: seq<StreamFrame>, written: seq<byte>)
    requires Invariant(s, sent, written)
    ensures Invariant(Append(s, p), sent, written + p)
  {
    hide Count;
    var w := written + p;
    assert !s.scramble ==> w[s.offset..] == written[s.offset..] + p;
    forall i | 0 <= i < |sent| ensures sent[i].End() <= |w| && sent[i].data == w[sent[i].offset..sent[i].End()] {
      assert w[sent[i].offset..sent[i].End()] == written[sent[i].offset..sent[i].End()];
    }
  }

  // ---------------------------------------------------------------- every octet once

  /** Octets of a cut that was skipped already. */
  function Skipped(s: Scrambler, c: Cut, x: nat): nat { if c.end <= s.offset then InCut(c, x) else 0 }

  /** The cuts are apart, in order, and each is still ahead or was skipped as a whole. */
  predicate Clean(s: Scrambler) {
    && (s.cut0.Live() && s.cut1.Live() ==> s.cut0.end < s.cut1.start)
    && (s.cut0.Live() ==> s.cut0.end <= s.offset || s.offset < s.cut0.start)
    && (s.cut1.Live() ==> s.cut1.end <= s.offset || s.offset < s.cut1.start)
  }

  ghost predicate Exact(s: Scrambler, sent: seq<StreamFrame>) {
    forall x: nat :: Count(sent, x) + Skipped(s, s.cut0, x) + Skipped(s, s.cut1, x) == if x < s.offset then 1 else 0
  }

  /** Where the cuts are apart, no octet is sent twice. */
  lemma PopKeepsExact(s: Scrambler, maxLen: nat, sent: seq<StreamFrame>, written: seq<byte>)
    requires Invariant(s, sent, written) && Clean(s) && Exact(s, sent)
    ensures var p := Pop(s, maxLen); Clean(p.s) && Exact(p.s, Sent(sent, p.f))
  {
    hide Count, MaxCryptoLen, AllPieces, Covered;
    var p := Pop(s, maxLen);
    if p.f.Some? {
      forall x: nat ensures Count(sent + [p.f.value], x) == Count(sent, x) + Covers(p.f.value, x) {
        CountSnoc(sent, p.f.value, x);
      }
    }
  }

  /**
   Octet y will be sent twice, or has been: the second cut starts at y, within the first cut or right behind it, or the
   first cut starts with the stream, so that it is not skipped.
   */
  ghost predicate Doubled(s: Scrambler, sent: seq<StreamFrame>, y: nat) {
    || Count(sent, y) + InCut(s.cut0, y) + InCut(s.cut1, y) >= 2
    || (s.scramble && s.cut0.Live() && s.cut1.Live() && s.cut1.start == s.cut0.end == y
        && (s.offset < s.cut0.start || s.offset == y))
    || (s.scramble && s.cut0.Live() && s.cut0.start == s.offset == y == 0)
  }

  lemma PopKeepsDoubled(s: Scrambler, maxLen: nat, sent: seq<StreamFrame>, written: seq<byte>, y: nat)
    requires Invariant(s, sent, written) && Doubled(s, sent, y)
    ensures var p := Pop(s, maxLen); Doubled(p.s, Sent(sent, p.f), y)
  {
    hide Count, MaxCryptoLen, AllPieces, Covered;
    var p := Pop(s, maxLen);
    if p.f.Some? {
      CountSnoc(sent, p.f.value, y);
    }
  }

  // ---------------------------------------------------------------- a ClientHello and what becomes of it

  /** A ClientHello about to be sent: both cuts in order, or only the first. */
  predicate Begun(s: Scrambler) {
    Active(s) && s.offset == 0 && s.cut0.Live() && (s.cut1.Live() ==> s.cut0.start <= s.cut1.start)
  }

  /** The cuts are neither overlapping nor adjacent, and the first octet is in none. */
  predicate Apart(s: Scrambler) {
    s.cut0.start > 0 && (s.cut1.Live() ==> s.cut0.end < s.cut1.start)
  }

  /** The stream right after its ClientHello was found and cut. */
  predicate IsHello(s0: Scrambler) {
    && Begun(s0) && s0.end == |s0.buf| && Parse(s0.buf).Found?
    && s0 == AfterParsing(s0.(cut0 := NO_CUT, cut1 := NO_CUT), Parse(s0.buf))
  }

  predicate IsPart(whole: Cut, c: Cut) { !c.Live() || (whole.Live() && whole.start <= c.start && c.end == whole.end) }

  /** What is left of the cuts of s0; the first is used up only once everything else was sent. */
  predicate FromHello(s0: Scrambler, s: Scrambler) {
    s.scramble ==>
      && s0.buf <= s.buf && s.end == s0.end && IsPart(s0.cut0, s.cut0) && IsPart(s0.cut1, s.cut1)
      && (!s.cut0.Live() ==> s.offset == s.end)
  }

  /** The buffer holds a ClientHello again only if nothing was written behind it. */
  lemma SameHello(d: seq<byte>, b: seq<byte>)
    requires Parse(d).Found? && d <= b && Parse(b).Found?
    ensures b == d
  {
    assert MessageLen(b) == MessageLen(d);
  }

  /** Writing nothing while the second cut is sent: the ClientHello is found again. */
  predicate CutsAgain(s: Scrambler, p: seq<byte>) {
    s.scramble && !s.cut0.Live() && Parse(s.buf + p).Found?
  }

  lemma CuttingAgain(s0: Scrambler, s: Scrambler, p: seq<byte>)
    requires IsHello(s0) && FromHello(s0, s) && Active(s) && CutsAgain(s, p)
    ensures p == [] && s.buf == s0.buf && WriteData(s, p) == s.(cut0 := s0.cut0, cut1 := s0.cut1)
  {
    hide Parse;
    SameHello(s0.buf, s.buf + p);
    assert |s.buf + p| == |s.buf| + |p|;
    assert p == [];
    assert s.buf + p == s.buf;
  }

  datatype Event = PopFrame(maxLen: nat) | Write(p: seq<byte>)

  /** The state, the frames sent and the data written. */
  datatype Run = Run(s: Scrambler, sent: seq<StreamFrame>, written: seq<byte>)

  function Next(r: Run, e: Event): Run {
    match e
    case PopFrame(maxLen) => var p := Pop(r.s, maxLen); Run(p.s, Sent(r.sent, p.f), r.written)
    case Write(p) => Run(WriteData(r.s, p), r.sent, r.written + p)
  }

  function Final(r: Run, es: seq<Event>): Run
    decreases |es|
  {
    if es == [] then r else Final(Next(r, es[0]), es[1..])
  }

  /** How often the ClientHello is found and cut again. */
  function Recuts(r: Run, es: seq<Event>): nat
    decreases |es|
  {
    if es == [] then 0
    else (if es[0].Write? && CutsAgain(r.s, es[0].p) then 1 else 0) + Recuts(Next(r, es[0]), es[1..])
  }

  ghost predicate RunOk(s0: Scrambler, r: Run) {
    Invariant(r.s, r.sent, r.written) && FromHello(s0, r.s)
  }

  lemma PopKeepsParts(s0: Scrambler, s: Scrambler, maxLen: nat, sent: seq<StreamFrame>, written: seq<byte>)
    requires Invariant(s, sent, written) && FromHello(s0, s)
    ensures FromHello(s0, Pop(s, maxLen).s)
  {
    hide MaxCryptoLen, AllPieces, Covered, Buffers;
  }

  lemma WriteKeepsRun(s0: Scrambler, r: Run, p: seq<byte>)
    requires IsHello(s0) && RunOk(s0, r)
    ensures RunOk(s0, Next(r, Write(p)))
  {
    hide Parse, AllPieces, Count;
    if CutsAgain(r.s, p) {
      CuttingAgain(s0, r.s, p);
      assert r.written + p == r.written;
    } else {
      AppendKeepsInvariant(r.s, p, r.sent, r.written);
    }
  }

  /** Cutting again makes the first octet of the first cut come twice; otherwise writing leaves the cuts alone. */
  lemma WriteKeepsExact(s0: Scrambler, r: Run, p: seq<byte>)
    requires IsHello(s0) && RunOk(s0, r)
    ensures var r' := Next(r, Write(p));
            if !CutsAgain(r.s, p)
            then Clean(r'.s) == Clean(r.s) && Exact(r'.s, r'.sent) == Exact(r.s, r.sent)
            else Apart(s0) ==> 0 <= s0.cut0.start && Doubled(r'.s, r'.sent, s0.cut0.start)
    ensures forall y: nat :: Doubled(r.s, r.sent, y) ==> Doubled(Next(r, Write(p)).s, Next(r, Write(p)).sent, y)
  {
    hide Parse, AllPieces, Count;
    if CutsAgain(r.s, p) {
      CuttingAgain(s0, r.s, p);
      if Apart(s0) {
        var y: nat := s0.cut0.start;
        assert y < r.s.offset && InCut(r.s.cut1, y) == 0;
      }
    } else {
      AppendChangesNothing(r.s, p, r.sent);
    }
  }

  lemma AppendChangesNothing(s: Scrambler, p: seq<byte>, sent: seq<StreamFrame>)
    ensures Clean(Append(s, p)) == Clean(s) && Exact(Append(s, p), sent) == Exact(s, sent)
    ensures forall y: nat :: Doubled(Append(s, p), sent, y) == Doubled(s, sent, y)
  {
    hide Count;
    var s' := Append(s, p);
    assert forall x: nat :: Skipped(s', s.cut0, x) == Skipped(s, s.cut0, x);
    assert forall x: nat :: Skipped(s', s.cut1, x) == Skipped(s, s.cut1, x);
  }

  lemma EventKeeps(s0: Scrambler, r: Run, e: Event)
    requires IsHello(s0) && RunOk(s0, r)
    ensures RunOk(s0, Next(r, e))
    ensures Clean(r.s) && Exact(r.s, r.sent) && Recuts(r, [e]) == 0 ==>
              Clean(Next(r, e).s) && Exact(Next(r, e).s, Next(r, e).sent)
    ensures forall y: nat :: Doubled(r.s, r.sent, y) ==> Doubled(Next(r, e).s, Next(r, e).sent, y)
    ensures Apart(s0) && Recuts(r, [e]) > 0 ==> exists y: nat :: Doubled(Next(r, e).s, Next(r, e).sent, y)
  {
    hide Invariant, Clean, Exact, Doubled, Pop, IsHello, FromHello, WriteData, CutsAgain, Apart;
    assert Recuts(r, [e]) == if e.Write? && CutsAgain(r.s, e.p) then 1 else 0 by {
      assert [e][0] == e && [e][1..] == [];
    }
    match e {
      case PopFrame(maxLen) =>
        PopKeepsInvariant(r.s, maxLen, r.sent, r.written);
        PopKeepsParts(s0, r.s, maxLen, r.sent, r.written);
        if Clean(r.s) && Exact(r.s, r.sent) {
          PopKeepsExact(r.s, maxLen, r.sent, r.written);
        }
        forall y: nat | Doubled(r.s, r.sent, y) ensures Doubled(Next(r, e).s, Next(r, e).sent, y) {
          PopKeepsDoubled(r.s, maxLen, r.sent, r.written, y);
        }
      case Write(p) =>
        WriteKeepsRun(s0, r, p);
        WriteKeepsExact(s0, r, p);
    }
  }

  lemma RecutsCons(r: Run, es: seq<Event>)
    requires es != []
    ensures Recuts(r, es) == Recuts(r, [es[0]]) + Recuts(Next(r, es[0]), es[1..])
  {
    assert [es[0]][1..] == [];
  }

  lemma {:induction false} RunKeeps(s0: Scrambler, r: Run, es: seq<Event>)
    requires IsHello(s0) && RunOk(s0, r)
    ensures RunOk(s0, Final(r, es))
    ensures Clean(r.s) && Exact(r.s, r.sent) && Recuts(r, es) == 0 ==> Exact(Final(r, es).s, Final(r, es).sent)
    ensures forall y: nat :: Doubled(r.s, r.sent, y) ==> Doubled(Final(r, es).s, Final(r, es).sent, y)
    ensures Apart(s0) && Recuts(r, es) > 0 ==> exists y: nat :: Doubled(Final(r, es).s, Final(r, es).sent, y)
    decreases |es|
  {
    hide Clean, Exact, Doubled, RunOk, Next, IsHello, Apart;
    if es != [] {
      RecutsCons(r, es);
      hide Recuts;
      EventKeeps(s0, r, es[0]);
      RunKeeps(s0, Next(r, es[0]), es[1..]);
    }
  }

  /**
   Scrambling loses nothing: once it is over, whatever was popped and written meanwhile, every octet before the offset
   was sent with the right content, and sending goes on right there. Every octet was sent exactly once if and only if
   the cuts are apart, and nothing empty was written while only the second cut was left.
   */
  lemma ScramblingIsLossless(s0: Scrambler, es: seq<Event>)
    requires IsHello(s0) && !Final(Run(s0, [], s0.buf), es).s.scramble
    ensures var r := Final(Run(s0, [], s0.buf), es);
            && r.s.offset <= |r.written| && r.s.buf == r.written[r.s.offset..]
            && AllPieces(r.sent, r.written)
            && (forall x: nat :: x < r.s.offset ==> Count(r.sent, x) >= 1)
            && (forall x: nat :: x >= r.s.offset ==> Count(r.sent, x) == 0)
            && ((forall x: nat :: x < r.s.offset ==> Count(r.sent, x) == 1) <==>
                  Apart(s0) && Recuts(Run(s0, [], s0.buf), es) == 0)
  {
    hide Final, Recuts, Parse, AfterParsing;
    var r0 := Run(s0, [], s0.buf);
    var r := Final(r0, es);
    NothingSent();
    RunKeeps(s0, r0, es);
    if !Apart(s0) {
      var y: nat := if s0.cut0.start == 0 then 0 else s0.cut1.start;
      assert Doubled(s0, [], y);
      DoubledMeans(r, y);
    } else if Recuts(r0, es) > 0 {
      var y: nat :| Doubled(r.s, r.sent, y);
      DoubledMeans(r, y);
    } else {
      assert forall x: nat :: Skipped(r.s, r.s.cut0, x) == 0 && Skipped(r.s, r.s.cut1, x) == 0;
    }
  }

  lemma DoubledMeans(r: Run, y: nat)
    requires Invariant(r.s, r.sent, r.written) && !r.s.scramble && Doubled(r.s, r.sent, y)
    ensures y < r.s.offset && Count(r.sent, y) != 1
  {
    hide Count;
  }

  lemma NothingSent()
    ensures forall x: nat :: Count([], x) == 0
  {
  }

  // ---------------------------------------------------------------- popping ends the scrambling

  function Length(c: Cut): int { if c.Live() then c.end - c.start else 0 }

  /** The octets that are still to be sent out of order. */
  function Left(s: Scrambler): int {
    if s.scramble then s.end - s.offset + Length(s.cut0) + Length(s.cut1) else 0
  }

  /** Where the next frame starts while scrambling. */
  function NextOffset(s: Scrambler): int {
    if s.offset != s.end then s.offset else if s.cut0.Live() then s.cut0.start else s.cut1.start
  }

  /** Every frame brings the end nearer. There is none exactly if it has no room for data; then nothing changes. */
  lemma PopMakesProgress(s: Scrambler, maxLen: nat, sent: seq<StreamFrame>, written: seq<byte>)
    requires Invariant(s, sent, written) && s.scramble
    ensures 0 < Left(s) && 0 <= NextOffset(s)
    ensures var p := Pop(s, maxLen);
            && (p.f.Some? <==> MaxCryptoLen(NextOffset(s), maxLen) > 0)
            && (if p.f.Some? then 0 <= Left(p.s) < Left(s) else p.s == s)
  {
    hide Covered, AllPieces, Buffers, MaxCryptoLen;
  }

  /** A frame of eleven octets has room for data at every offset. */
  lemma ElevenIsEnough(offset: nat, maxLen: nat)
    requires maxLen > 10
    ensures MaxCryptoLen(offset, maxLen) > 0
  {
  }

  lemma PlainStaysPlain(r: Run, e: Event)
    requires !r.s.scramble
    ensures !Next(r, e).s.scramble
  {
  }

  lemma WriteLeaves(s0: Scrambler, r: Run, p: seq<byte>)
    requires IsHello(s0) && RunOk(s0, r) && r.s.scramble
    ensures Left(Next(r, Write(p)).s) <= if CutsAgain(r.s, p) then Left(s0) else Left(r.s)
  {
    hide Parse;
    if CutsAgain(r.s, p) {
      CuttingAgain(s0, r.s, p);
    }
  }

  /**
   The frames sent while scrambling are at most as many as there were octets left, at first and after each new cut.
   */
  lemma {:induction false} FramesWhileScrambling(s0: Scrambler, r: Run, es: seq<Event>)
    requires IsHello(s0) && RunOk(s0, r) && Final(r, es).s.scramble
    ensures r.s.scramble && 0 < Left(Final(r, es).s)
    ensures |Final(r, es).sent| + Left(Final(r, es).s) <= |r.sent| + Left(r.s) + Recuts(r, es) * Left(s0)
    decreases |es|
  {
    hide Invariant, Pop, IsHello, FromHello, WriteData, CutsAgain, Left;
    if es == [] {
      PopMakesProgress(r.s, 0, r.sent, r.written);
    } else {
      var r1 := Next(r, es[0]);
      EventKeeps(s0, r, es[0]);
      FramesWhileScrambling(s0, r1, es[1..]);
      if !r.s.scramble {
        PlainStaysPlain(r, es[0]);
        assert false;
      }
      match es[0] {
        case PopFrame(maxLen) =>
          PopMakesProgress(r.s, maxLen, r.sent, r.written);
        case Write(p) =>
          PopMakesProgress(r.s, 0, r.sent, r.written);
          WriteLeaves(s0, r, p);
          OneMoreTime(Recuts(r1, es[1..]), Left(s0));
      }
    }
  }

  lemma OneMoreTime(n: nat, k: int)
    ensures (1 + n) * k == k + n * k
  {
  }

  /** So scrambling is over once that many frames were sent, however small they were. */
  lemma PoppingEndsScrambling(s0: Scrambler, es: seq<Event>)
    requires IsHello(s0)
    ensures var r0 := Run(s0, [], s0.buf);
            |Final(r0, es).sent| >= (1 + Recuts(r0, es)) * Left(s0) ==> !Final(r0, es).s.scramble
  {
    hide Final, Recuts, Parse, AfterParsing;
    var r0 := Run(s0, [], s0.buf);
    NothingSent();
    if Final(r0, es).s.scramble {
      FramesWhileScrambling(s0, r0, es);
      OneMoreTime(Recuts(r0, es), Left(s0));
    }
  }

  lemma {:induction false} CanEnd(s0: Scrambler, r: Run) returns (es: seq<Event>)
    requires IsHello(s0) && RunOk(s0, r)
    ensures !Final(r, es).s.scramble
    decreases Left(r.s)
  {
    hide Invariant, Pop, IsHello, FromHello, MaxCryptoLen, Left;
    if !r.s.scramble {
      es := [];
    } else {
      var e := PopFrame(11);
      PopMakesProgress(r.s, 11, r.sent, r.written);
      ElevenIsEnough(NextOffset(r.s), 11);
      EventKeeps(s0, r, e);
      var rest := CanEnd(s0, Next(r, e));
      es := [e] + rest;
      assert es[0] == e && es[1..] == rest;
    }
  }

  // ---------------------------------------------------------------- which ClientHellos are scrambled

  /** There is a host name that is not empty, or an ECH extension and, instead of a host name, another name to cut. */
  predicate CanCut(r: Parsed)
    requires r.Found?
  {
    if r.sniPos != -1 then r.sniLen > 0 else r.echPos != -1 && r.sniLen >= 2
  }

  /** The positions lie within n octets; a host name in front of the ECH extension ends before it. */
  predicate Located(n: nat, r: Parsed)
    requires r.Found?
  {
    && r.sniLen <= n
    && (r.sniPos == -1 || (0 < r.sniPos && r.sniPos + r.sniLen <= n))
    && (r.echPos == -1 || (0 < r.echPos && r.echPos + 4 <= n))
    && (r.sniPos != -1 && r.echPos != -1 ==> r.sniPos + r.sniLen <= r.echPos || r.echPos < r.sniPos)
  }

  lemma ParsedIsLocated(d: seq<byte>)
    requires Parse(d).Found?
    ensures Located(|d|, Parse(d))
  {
    hide Parse, HostNameAt, ExtensionAt;
    var sniExt := ParsedIsThere(d);
  }

  /** What a new stream is after a ClientHello was written to it. */
  lemma FirstWrite(s: Scrambler, d: seq<byte>)
    requires Fresh(s) && s.buf == [] && Parse(d).Found? && (Parse(d).sniPos != -1 || Parse(d).echPos != -1)
    ensures var r := Parse(d); WriteData(s, d) == Begin(s.(buf := d), r.sniPos, r.sniLen, r.echPos)
    ensures Located(|d|, Parse(d))
  {
    hide Parse, Begin, Located;
    ParsedIsLocated(d);
    assert s.buf + d == d;
  }

  /** Where the positions are inside the data, the cuts are. */
  lemma CutsAreInside(s: Scrambler, r: Parsed)
    requires Fresh(s) && r.Found? && Located(|s.buf|, r) && CanCut(r)
    ensures var b := Begin(s, r.sniPos, r.sniLen, r.echPos);
            Begun(b) && b.end == |b.buf| && b.buf == s.buf && HasData(b)
  {
  }

  lemma BeginAgain(s: Scrambler, r: Parsed)
    requires Fresh(s) && r.Found?
    ensures var b := Begin(s, r.sniPos, r.sniLen, r.echPos);
            Begin(b.(cut0 := NO_CUT, cut1 := NO_CUT), r.sniPos, r.sniLen, r.echPos) == b
  {
  }

  lemma HelloHasBegun(s: Scrambler, d: seq<byte>)
    requires Fresh(s) && s.buf == [] && Parse(d).Found? && CanCut(Parse(d))
    ensures var b := WriteData(s, d); IsHello(b) && b.buf == d && HasData(b)
  {
    hide Parse, WriteData, HasData, Begin, Begun, Located;
    FirstWrite(s, d);
    CutsAreInside(s.(buf := d), Parse(d));
    BeginAgain(s.(buf := d), Parse(d));
  }

  /** Writing a ClientHello to a new stream begins the scrambling, if there is something to cut. */
  lemma HelloBegins(s: Scrambler, d: seq<byte>)
    requires Fresh(s) && s.buf == [] && Parse(d).Found? && CanCut(Parse(d))
    ensures var b := WriteData(s, d); IsHello(b) && b.buf == d && HasData(b) && RunOk(b, Run(b, [], d))
  {
    hide Parse, WriteData, HasData, AfterParsing;
    HelloHasBegun(s, d);
    NothingSent();
  }

  /**
   With a host name, the cuts are apart exactly if the ECH extension does not come first, or ends its cut well before.
   */
  lemma HostNameApart(s: Scrambler, d: seq<byte>)
    requires Fresh(s) && s.buf == [] && Parse(d).Found? && Parse(d).sniPos != -1 && Parse(d).sniLen > 0
    ensures var r := Parse(d);
            Apart(WriteData(s, d)) <==> r.echPos == -1 || r.sniPos < r.echPos || r.echPos + 17 < r.sniPos + r.sniLen / 2
  {
    hide Parse, WriteData;
    FirstWrite(s, d);
  }

  /**
   A ClientHello with a host name of positive length is sent: nothing is lost, the scrambling ends, and every octet is
   sent exactly once if and only if the cuts are apart and nothing empty is written while only the second cut is left.
   */
  lemma HelloIsSent(s: Scrambler, d: seq<byte>, es: seq<Event>)
    requires Fresh(s) && s.buf == [] && Parse(d).Found? && Parse(d).sniPos != -1 && Parse(d).sniLen > 0
    ensures var r0 := Run(WriteData(s, d), [], d);
            var r, p := Final(r0, es), Parse(d);
            && (|r.sent| >= (1 + Recuts(r0, es)) * Left(r0.s) ==> !r.s.scramble)
            && (!r.s.scramble ==>
                  && r.s.offset <= |r.written| && r.s.buf == r.written[r.s.offset..]
                  && AllPieces(r.sent, r.written)
                  && (forall x: nat :: x < r.s.offset ==> Count(r.sent, x) >= 1)
                  && (forall x: nat :: x >= r.s.offset ==> Count(r.sent, x) == 0)
                  && ((forall x: nat :: x < r.s.offset ==> Count(r.sent, x) == 1) <==>
                      && (p.echPos == -1 || p.sniPos < p.echPos || p.echPos + 17 < p.sniPos + p.sniLen / 2)
                      && Recuts(r0, es) == 0))
  {
    hide Parse, WriteData, IsHello, Final, Recuts, Left, Fresh, Apart, Count, AllPieces;
    HelloBegins(s, d);
    HostNameApart(s, d);
    var r0 := Run(WriteData(s, d), [], d);
    PoppingEndsScrambling(r0.s, es);
    if !Final(r0, es).s.scramble {
      ScramblingIsLossless(r0.s, es);
    }
  }

  /** While only a part of the ClientHello was written, it is only buffered; so it may be written in parts. */
  lemma PartIsBuffered(s: Scrambler, p: seq<byte>, d: seq<byte>)
    requires Fresh(s) && s.buf + p <= d && s.buf + p != d && Parse(d).Found?
    ensures WriteData(s, p) == Append(s, p) && Fresh(WriteData(s, p)) && !HasData(WriteData(s, p))
  {
    var b := s.buf + p;
    assert 4 <= |b| ==> MessageLen(b) == MessageLen(d);
    assert !Parse(b).Found?;
  }

  function WriteAll(s: Scrambler, ps: seq<seq<byte>>): Scrambler
    decreases |ps|
  {
    if ps == [] then s else WriteAll(WriteData(s, ps[0]), ps[1..])
  }

  function Flatten(ps: seq<seq<byte>>): seq<byte> {
    if ps == [] then [] else ps[0] + Flatten(ps[1..])
  }

  lemma {:induction false} FlattenIsNotEmpty(ps: seq<seq<byte>>)
    requires ps != [] && ps[|ps| - 1] != []
    ensures Flatten(ps) != []
  {
    if |ps| > 1 {
      FlattenIsNotEmpty(ps[1..]);
    }
  }

  /** Once its last octet is there, a ClientHello written in parts is as one written at once. */
  lemma {:induction false} HelloInParts(s: Scrambler, ps: seq<seq<byte>>, d: seq<byte>)
    requires Fresh(s) && ps != [] && ps[|ps| - 1] != [] && s.buf + Flatten(ps) == d && Parse(d).Found?
    ensures WriteAll(s, ps) == WriteData(s.(buf := []), d)
    decreases |ps|
  {
    hide Parse;
    var rest := ps[1..];
    assert s.buf + Flatten(ps) == (s.buf + ps[0]) + Flatten(rest);
    if rest == [] {
      assert s.buf + ps[0] == d && [] + d == d;
    } else {
      FlattenIsNotEmpty(rest);
      assert |s.buf + ps[0]| < |d|;
      PartIsBuffered(s, ps[0], d);
      HelloInParts(Append(s, ps[0]), rest, d);
    }
  }

  // ---------------------------------------------------------------- an ECH extension and nothing to cut in the names

  /** Later writes leave it that there is nothing to send. */
  ghost predicate Silent(s: Scrambler, d: seq<byte>) {
    && s.scramble && s.offset == 0 && d <= s.buf
    && s.cut0.start == -1 && s.cut1.start > 0
  }

  lemma {:induction false} SilentForEver(s: Scrambler, d: seq<byte>, ps: seq<seq<byte>>)
    requires Silent(s, d) && Parse(d).Found? && Parse(d).sniPos == -1 && Parse(d).echPos > 0 && Parse(d).sniLen < 2
    ensures !HasData(WriteAll(s, ps))
    decreases |ps|
  {
    hide Parse;
    if ps != [] {
      var b := s.buf + ps[0];
      if Parse(b).Found? {
        SameHello(d, b);
      }
      SilentForEver(WriteData(s, ps[0]), d, ps[1..]);
    }
  }

  lemma {:induction false} TalksForEver(s: Scrambler, ps: seq<seq<byte>>)
    requires s.cut0.Live() && s.buf != []
    ensures HasData(WriteAll(s, ps))
    decreases |ps|
  {
    if ps != [] {
      TalksForEver(WriteData(s, ps[0]), ps[1..]);
    }
  }

  /**
   A ClientHello with an ECH extension but without a host name: the comparison leaves the missing cut in front, and
   there never is any data to send, whatever is written later. With a host name, or another name of at least two
   octets, there is.
   */
  lemma EchAloneNeverBegins(s: Scrambler, d: seq<byte>, ps: seq<seq<byte>>)
    requires Fresh(s) && s.buf == [] && Parse(d).Found? && Parse(d).echPos != -1
    ensures HasData(WriteAll(WriteData(s, d), ps)) <==> Parse(d).sniPos != -1 || Parse(d).sniLen >= 2
  {
    hide Parse, WriteData, WriteAll, HasData;
    FirstWrite(s, d);
    if Parse(d).sniPos == -1 && Parse(d).sniLen < 2 {
      SilentForEver(WriteData(s, d), d, ps);
    } else {
      TalksForEver(WriteData(s, d), ps);
    }
  }

  lemma EchHelloIsNeverSent(s: Scrambler, ps: seq<seq<byte>>)
    requires Fresh(s) && s.buf == []
    ensures !HasData(WriteAll(WriteData(s, EchHello()), ps))
  {
    hide Parse, EchHello;
    EchHelloParsed();
    EchAloneNeverBegins(s, EchHello(), ps);
  }

  // ---------------------------------------------------------------- an empty host name

  predicate EmptyCut(c: Cut) { c.Live() && c.start == c.end }

  /** An empty cut is never taken off. */
  ghost predicate Endless(s: Scrambler, d: seq<byte>) {
    s.scramble && d <= s.buf && (EmptyCut(s.cut0) || EmptyCut(s.cut1))
  }

  lemma EventKeepsEndless(r: Run, e: Event, d: seq<byte>)
    requires Endless(r.s, d) && Parse(d).Found? && Parse(d).sniPos > 0 && Parse(d).sniLen == 0
    ensures Endless(Next(r, e).s, d)
  {
    hide Parse, MaxCryptoLen;
    if e.Write? && Parse(r.s.buf + e.p).Found? {
      SameHello(d, r.s.buf + e.p);
    }
  }

  lemma {:induction false} EndlessForEver(r: Run, es: seq<Event>, d: seq<byte>)
    requires Endless(r.s, d) && Parse(d).Found? && Parse(d).sniPos > 0 && Parse(d).sniLen == 0
    ensures Final(r, es).s.scramble
    decreases |es|
  {
    hide Parse, Next;
    if es != [] {
      EventKeepsEndless(r, es[0], d);
      EndlessForEver(Next(r, es[0]), es[1..], d);
    }
  }

  /** The scrambling of a ClientHello with a host name never ends, on no run, exactly if the host name is empty. */
  lemma EmptyHostNameNeverEnds(s: Scrambler, d: seq<byte>)
    requires Fresh(s) && s.buf == [] && Parse(d).Found? && Parse(d).sniPos != -1
    ensures (forall es :: Final(Run(WriteData(s, d), [], d), es).s.scramble) <==> Parse(d).sniLen == 0
  {
    hide Parse, Final, WriteData, IsHello, RunOk;
    FirstWrite(s, d);
    var r0 := Run(WriteData(s, d), [], d);
    if Parse(d).sniLen == 0 {
      forall es ensures Final(r0, es).s.scramble {
        EndlessForEver(r0, es, d);
      }
    } else {
      HelloBegins(s, d);
      var es := CanEnd(r0.s, r0);
    }
  }

  lemma EmptyNameHelloNeverEnds(s: Scrambler, es: seq<Event>)
    requires Fresh(s) && s.buf == []
    ensures Final(Run(WriteData(s, EmptyNameHello()), [], EmptyNameHello()), es).s.scramble
  {
    hide Parse, EmptyNameHello, Final;
    EmptyNameHelloParsed();
    EmptyHostNameNeverEnds(s, EmptyNameHello());
  }
}
