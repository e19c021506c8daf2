/** The stream of Initial CRYPTO data of a client, which scrambles its ClientHello. */
module CryptoStreams {
  import opened Common
  import opened StreamFrames
  import opened Scrambling
  import opened ClientHello

  /** A cut that can be sliced. */
  predicate CutSafe(c: Cut, end: int) { c.start == -1 || 0 <= c.start <= c.end <= end }

  predicate Safe(s: Scrambler) {
    s.scramble ==> s.offset <= s.end <= |s.buf| && CutSafe(s.cut0, s.end) && CutSafe(s.cut1, s.end)
  }

  lemma PopIsSafe(s: Scrambler, maxLen: nat)
    requires Safe(s)
    ensures Safe(Pop(s, maxLen).s)
  {
    hide MaxCryptoLen;
  }

  lemma WriteIsSafe(s: Scrambler, p: seq<byte>)
    requires Safe(s)
    ensures Safe(WriteData(s, p))
  {
    if Parse(s.buf + p).Found? {
      var sniExt := ParsedIsThere(s.buf + p);
    }
    hide Parse;
  }

  class InitialCryptoStream {
    var writeBuf: seq<byte>
    var writeOffset: nat
    var scramble: bool
    var end: int
    const cuts: array<Cut>

    ghost function View(): Scrambler
      requires cuts.Length == 2
      reads this, cuts
    {
      Scrambler(writeBuf, writeOffset, scramble, end, cuts[0], cuts[1])
    }

    ghost predicate Valid()
      reads this, cuts
    {
      cuts.Length == 2 && Safe(View())
    }

    constructor (isClient: bool)
      ensures Valid() && fresh(cuts)
      ensures View() == Scrambler([], 0, isClient, 0, NO_CUT, NO_CUT)
    {
      writeBuf, writeOffset, scramble, end := [], 0, isClient, 0;
      cuts := new Cut[2](i => NO_CUT);
    }

    method HasMoreData() returns (r: bool)
      requires Valid()
      ensures r == HasData(View())
    {
      if scramble && writeOffset == 0 && cuts[0].start == -1 {
        return false;
      }
      return |writeBuf| > 0;
    }

    /**
     Appends the data. While there is no first cut, it looks for a ClientHello and cuts it; a malformed one is an error.
     Once it has been found, data behind it is only appended.
     */
    method Write(p: seq<byte>) returns (ok: bool)
      requires Valid()
      modifies this, cuts
      ensures Valid() && View() == WriteData(old(View()), p)
      ensures ok == !(old(scramble) && old(cuts[0]).start == -1 && Parse(writeBuf).Malformed?)
    {
      hide Parse, Begin, Safe;
      WriteIsSafe(View(), p);
      writeBuf := writeBuf + p;
      if !scramble {
        return true;
      }
      ok := true;
      if cuts[0].start == -1 {
        var found := FindSNIAndECH(writeBuf);
        match found {
          case Incomplete =>
          case Malformed => ok := false;
          case Found(sniPos, sniLen, echPos) =>
            if sniPos == -1 && echPos == -1 {
              scramble := false;
            } else {
              CutHello(sniPos, sniLen, echPos);
            }
        }
      }
    }

    method CutHello(sniPos: int, sniLen: nat, echPos: int)
      requires cuts.Length == 2
      modifies this`end, cuts
      ensures View() == Begin(old(View()), sniPos, sniLen, echPos)
    {
      end := |writeBuf|;
      cuts[0] := Cut(sniPos + sniLen / 2, sniPos + sniLen);
      if echPos > 0 {
        var start := echPos + 1;
        cuts[1] := Cut(start, Min(start + 16, end));
      }
      if Compare(cuts[1], cuts[0]) < 0 {
        cuts[0], cuts[1] := cuts[1], cuts[0];
      }
    }

    method PopCryptoFrame(maxLen: nat) returns (f: Option<StreamFrame>)
      requires Valid()
      modifies this, cuts
      ensures Valid() && Popped(View(), f) == Pop(old(View()), maxLen)
    {
      hide MaxCryptoLen;
      PopIsSafe(View(), maxLen);
      if !scramble {
        var n := Min(MaxCryptoLen(writeOffset, maxLen), |writeBuf|);
        if n <= 0 {
          return None;
        }
        f := Some(StreamFrame(writeOffset, writeBuf[..n], false));
        writeBuf := writeBuf[n..];
        writeOffset := writeOffset + n;
        return;
      }
      if writeOffset == end {
        f := PopFromCuts(maxLen);
        return;
      }
      var nextCut := NO_CUT;
      for i := 0 to 2
        invariant nextCut == NO_CUT
        invariant forall j :: 0 <= j < i ==> !(cuts[j].Live() && cuts[j].start > writeOffset)
      {
        if cuts[i].start == -1 {
          continue;
        }
        if cuts[i].start > writeOffset {
          nextCut := cuts[i];
          break;
        }
      }
      assert nextCut == NextCut(View());
      var maxOffset := nextCut.start;
      if maxOffset == -1 {
        maxOffset := end;
      }
      var n := Min(MaxCryptoLen(writeOffset, maxLen), maxOffset - writeOffset);
      if n <= 0 {
        return None;
      }
      f := Some(StreamFrame(writeOffset, writeBuf[writeOffset..writeOffset + n], false));
      writeOffset := writeOffset + n;
      if writeOffset == nextCut.start {
        writeOffset := nextCut.end;
      }
    }

    /** Sends from the first cut that is left; behind the last one the scrambling is over. */
    method PopFromCuts(maxLen: nat) returns (f: Option<StreamFrame>)
      requires Valid() && scramble && writeOffset == end
      modifies this`writeBuf, this`end, this`scramble, cuts
      ensures Popped(View(), f) == PopCut(old(View()), maxLen)
    {
      hide MaxCryptoLen;
      var foundCuts := false;
      f := None;
      ghost var s := View();
      ghost var p := PopCut(s, maxLen);
      for i := 0 to 2
        invariant unchanged(this)
        invariant f.None? ==> !foundCuts && cuts[..] == old(cuts[..]) && forall j :: 0 <= j < i ==> !cuts[j].Live()
        invariant f.Some? ==> i > 0 && p.f == f && FinishIfDone(View()) == p.s
        invariant f.Some? ==> foundCuts == exists j :: 0 <= j < i && cuts[j].Live()
      {
        var c := cuts[i];
        if c.start == -1 {
          continue;
        }
        foundCuts := true;
        if f.Some? {
          break;
        }
        var n := Min(MaxCryptoLen(c.start, maxLen), c.end - c.start);
        if n <= 0 {
          return None;
        }
        f := Some(StreamFrame(c.start, writeBuf[c.start..c.start + n], false));
        cuts[i] := Cut(c.start + n, c.end);
        if cuts[i].start == c.end {
          cuts[i] := NO_CUT;
          foundCuts := false;
        }
      }
      if !foundCuts {
        writeBuf := writeBuf[end..];
        end := -1;
        scramble := false;
      }
    }
  }
}
