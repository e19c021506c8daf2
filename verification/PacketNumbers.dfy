/**
 Packet numbers on the wire: truncation, width choice and reconstruction (section 17.1 and appendix A.3 of RFC 9000).
 */
module PacketNumbers {
  import opened Bits
  import opened Common
  import opened Octets

  const PN_LIMIT: nat := 0x4000_0000_0000_0000

  predicate ValidLen(n: int) {
    1 <= n <= 4
  }

  /** Half of the range that n octets can tell apart. */
  function HalfWindow(n: nat): nat
    requires ValidLen(n)
  {
    if n == 1 then 0x80 else if n == 2 then 0x8000 else if n == 3 then 0x80_0000 else 0x8000_0000
  }

  function Window(n: nat): nat
    requires ValidLen(n)
  {
    2 * HalfWindow(n)
  }

  lemma WindowIsPower(n: nat)
    requires ValidLen(n)
    ensures Window(n) == Pow256(n)
  {
    assert Pow256(1) == 0x100 && Pow256(2) == 0x1_0000 && Pow256(3) == 0x100_0000;
    assert Pow256(4) == 256 * Pow256(3);
  }

  /** The width a sender uses, given the largest packet number it knows to be acknowledged. */
  function ChoosePacketNumberLen(pn: nat, largestAcked: Option<nat>): Result<nat> {
    if largestAcked.None? then Ok(4)
    else if pn <= largestAcked.value then Err
    else
      var gap := pn - largestAcked.value;
      if gap < 0x80 then Ok(1)
      else if gap < 0x8000 then Ok(2)
      else if gap < 0x80_0000 then Ok(3)
      else if gap < 0x8000_0000 then Ok(4)
      else Err
  }

  /** The width is the smallest whose half window exceeds the gap; there is an error exactly when there is none. */
  lemma ChosenLenIsMinimal(pn: nat, acked: nat)
    ensures var r := ChoosePacketNumberLen(pn, Some(acked));
            && (r.Ok? <==> acked < pn && pn - acked < HalfWindow(4))
            && (r.Ok? ==> ValidLen(r.value) && forall n: nat :: ValidLen(n) ==>
                  (pn - acked < HalfWindow(n) <==> r.value <= n))
  {
  }

  function TruncatePacketNumber(pn: nat, n: nat): (t: nat)
    ensures ValidLen(n) ==> t < Window(n)
  {
    if n == 1 then pn % 0x100
    else if n == 2 then pn % 0x1_0000
    else if n == 3 then pn % 0x100_0000
    else if n == 4 then pn % 0x1_0000_0000
    else 0
  }

  /** The largest multiple of the window that does not exceed e. */
  function RoundDown(e: nat, n: nat): nat
    requires ValidLen(n)
  {
    if n == 1 then e / 0x100 * 0x100
    else if n == 2 then e / 0x1_0000 * 0x1_0000
    else if n == 3 then e / 0x100_0000 * 0x100_0000
    else e / 0x1_0000_0000 * 0x1_0000_0000
  }

  /** The reconstruction in div/mod form; truncated comes from n octets, so it is below the window. */
  function DecodePacketNumber(largestAcked: nat, truncated: nat, n: nat): nat
    requires ValidLen(n) ==> truncated < Window(n)
  {
    if !ValidLen(n) then 0 else
      var win, half, expected := Window(n), HalfWindow(n), largestAcked + 1;
      var candidate := RoundDown(expected, n) + truncated;
      if candidate <= expected - half && candidate + win < PN_LIMIT then candidate + win
      else if candidate > expected + half && candidate >= win then candidate - win
      else candidate
  }

  /** The candidate is right, or off by one window in a way that the comparison with the expectation shows. */
  predicate IsNear(e: nat, pn: nat, c: int, half: nat) {
    c == pn || (c == pn - 2 * half && c <= e - half) || (c == pn + 2 * half && c > e + half)
  }

  lemma Near1(e: nat, pn: nat)
    requires e - 0x80 < pn <= e + 0x80
    ensures IsNear(e, pn, e / 0x100 * 0x100 + pn % 0x100, 0x80)
  {
  }

  lemma Near2(e: nat, pn: nat)
    requires e - 0x8000 < pn <= e + 0x8000
    ensures IsNear(e, pn, e / 0x1_0000 * 0x1_0000 + pn % 0x1_0000, 0x8000)
  {
  }

  lemma Near3(e: nat, pn: nat)
    requires e - 0x80_0000 < pn <= e + 0x80_0000
    ensures IsNear(e, pn, e / 0x100_0000 * 0x100_0000 + pn % 0x100_0000, 0x80_0000)
  {
  }

  lemma Near4(e: nat, pn: nat)
    requires e - 0x8000_0000 < pn <= e + 0x8000_0000
    ensures IsNear(e, pn, e / 0x1_0000_0000 * 0x1_0000_0000 + pn % 0x1_0000_0000, 0x8000_0000)
  {
  }

  lemma CandidateIsNear(e: nat, pn: nat, n: nat)
    requires ValidLen(n) && e - HalfWindow(n) < pn <= e + HalfWindow(n)
    ensures IsNear(e, pn, RoundDown(e, n) + TruncatePacketNumber(pn, n), HalfWindow(n))
  {
    hide IsNear;
    if n == 1 { Near1(e, pn); } else if n == 2 { Near2(e, pn); } else if n == 3 { Near3(e, pn); } else { Near4(e, pn); }
  }

  /** A receiver whose expectation is within half a window of the packet number recovers it exactly. */
  lemma DecodeIsExact(largestAcked: nat, pn: nat, n: nat)
    requires ValidLen(n) && pn < PN_LIMIT
    requires largestAcked + 1 - HalfWindow(n) < pn <= largestAcked + 1 + HalfWindow(n)
    ensures DecodePacketNumber(largestAcked, TruncatePacketNumber(pn, n), n) == pn
  {
    hide RoundDown, TruncatePacketNumber;
    CandidateIsNear(largestAcked + 1, pn, n);
  }

  /**
   The width the sender chooses is enough for every receiver that has seen the acknowledged packet but is not yet half
   a window past this one.
   */
  lemma ChosenLenIsDecodable(pn: nat, acked: nat, largestReceived: nat)
    requires ChoosePacketNumberLen(pn, Some(acked)).Ok? && pn < PN_LIMIT
    requires acked <= largestReceived
    requires largestReceived + 1 < pn + HalfWindow(ChoosePacketNumberLen(pn, Some(acked)).value)
    ensures var n := ChoosePacketNumberLen(pn, Some(acked)).value;
            DecodePacketNumber(largestReceived, TruncatePacketNumber(pn, n), n) == pn
  {
    DecodeIsExact(largestReceived, pn, ChoosePacketNumberLen(pn, Some(acked)).value);
  }

  // The source works on words: masks, bit clearing and shifts. The width of the word is a parameter here, 64 in the
  // source.

  lemma WindowIsShift(n: nat)
    requires ValidLen(n)
    ensures Window(n) == Pow2(8 * n)
  {
    assert Pow2(8) == 0x100 by {
      assert Pow2(4) == 16;
    }
    assert Pow2(16) == 0x1_0000 by {
      assert Pow2(12) == 16 * Pow2(8);
    }
    assert Pow2(24) == 0x100_0000 by {
      assert Pow2(20) == 16 * Pow2(16);
    }
    assert Pow2(32) == 0x1_0000_0000 by {
      assert Pow2(28) == 16 * Pow2(24);
    }
  }

  function BitwiseTruncate(bits: nat, pn: nat, n: nat): nat {
    if ValidLen(n) then AndBits(bits, pn, Pow2(8 * n) - 1) else 0
  }

  /** The mask keeps the remainder by the window. */
  lemma BitwiseTruncateIsTruncate(bits: nat, pn: nat, n: nat)
    requires ValidLen(n) ==> 8 * n <= bits
    ensures BitwiseTruncate(bits, pn, n) == TruncatePacketNumber(pn, n)
  {
    if ValidLen(n) {
      LowBits(bits, 8 * n, pn);
      WindowIsShift(n);
    }
  }

  function BitwiseDecode(bits: nat, largestAcked: nat, truncated: nat, n: nat): nat {
    if !ValidLen(n) then 0 else
      var win, expected := Pow2(8 * n), largestAcked + 1;
      var half := win / 2;
      var candidate := OrBits(bits, AndNotBits(bits, expected, win - 1), truncated);
      if candidate <= expected - half && candidate + win < PN_LIMIT then candidate + win
      else if candidate > expected + half && candidate >= win then candidate - win
      else candidate
  }

  /** On words that hold the expectation, the bitwise reconstruction is the one in div/mod form, for every width. */
  lemma BitwiseDecodeIsDecode(bits: nat, largestAcked: nat, truncated: nat, n: nat)
    requires ValidLen(n) ==> truncated < Window(n) && 8 * n <= bits && largestAcked + 1 < Pow2(bits)
    ensures BitwiseDecode(bits, largestAcked, truncated, n) == DecodePacketNumber(largestAcked, truncated, n)
  {
    hide Pow2, OrBits, AndNotBits;
    if ValidLen(n) {
      WindowIsShift(n);
      ReplaceLowBits(bits, 8 * n, largestAcked + 1, truncated);
      assert RoundDown(largestAcked + 1, n) == largestAcked + 1 - (largestAcked + 1) % Window(n);
    }
  }

  /** t shifted right by i octets. */
  function ShiftRight(t: nat, i: nat): nat {
    if i == 0 then t else ShiftRight(t / 256, i - 1)
  }

  lemma {:induction false} ShiftRightStep(t: nat, i: nat)
    ensures ShiftRight(t, i + 1) == ShiftRight(t, i) / 256
  {
    if i > 0 {
      ShiftRightStep(t / 256, i - 1);
    }
  }

  /** Appends the truncated number one octet at a time. */
  method AppendPacketNumber(b: seq<byte>, pn: nat, n: nat) returns (r: seq<byte>)
    ensures r == if ValidLen(n) then b + BigEndian(TruncatePacketNumber(pn, n), n) else b
  {
    r := b;
    if !ValidLen(n) {
      return;
    }
    var t := TruncatePacketNumber(pn, n);
    var i := n;
    while i > 0
      invariant 0 <= i <= n && r == b + BigEndian(ShiftRight(t, i), n - i)
      decreases i
    {
      i := i - 1;
      ShiftRightStep(t, i);
      r := r + [ShiftRight(t, i) % 256];
    }
  }
}
