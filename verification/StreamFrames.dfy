/** STREAM frames and how much of one fits a packet. */
module StreamFrames {
  import opened Common
  import opened Varint

  const MAX_PACKET_BUFFER_SIZE: nat := 1452

  datatype StreamFrame = StreamFrame(offset: nat, data: seq<byte>, fin: bool) {
    function End(): nat { offset + |data| }
  }

  /** Type, stream ID and offset; the length field comes behind them. */
  function HeaderLen(id: nat, offset: nat): nat {
    1 + VarintLen(id) + (if offset != 0 then VarintLen(offset) else 0)
  }

  function Length(id: nat, f: StreamFrame): nat {
    HeaderLen(id, f.offset) + VarintLen(|f.data|) + |f.data|
  }

  function MaxDataLen(id: nat, offset: nat, maxSize: nat): nat {
    var headerLen := HeaderLen(id, offset) + 1;
    if headerLen > maxSize then 0
    else
      var n := maxSize - headerLen;
      if VarintLen(n) != 1 then n - 1 else n
  }

  /** As many octets as MaxDataLen allows fit the budget, exactly while their length takes at most two octets. */
  lemma MaxDataLenFits(id: nat, offset: nat, maxSize: nat, f: StreamFrame)
    requires f.offset == offset && 0 < |f.data| <= MaxDataLen(id, offset, maxSize)
    ensures |f.data| <= MAX_VARINT_2 ==> Length(id, f) <= maxSize
    ensures |f.data| == MaxDataLen(id, offset, maxSize) ==> (Length(id, f) <= maxSize <==> |f.data| <= MAX_VARINT_2)
  {
  }

  /** More octets than MaxDataLen allows never fit. */
  lemma MaxDataLenIsMaximal(id: nat, maxSize: nat, f: StreamFrame)
    requires |f.data| > MaxDataLen(id, f.offset, maxSize)
    ensures Length(id, f) > maxSize
  {
  }

  datatype Split = Whole | TooSmall | Parts(first: StreamFrame, rest: StreamFrame)

  /** The split point lies inside the frame exactly when the budget is too small even with a two-octet length. */
  lemma SplitPointIsInside(id: nat, f: StreamFrame, maxSize: nat)
    requires maxSize < Length(id, f) && MaxDataLen(id, f.offset, maxSize) > 0
    ensures MaxDataLen(id, f.offset, maxSize) < |f.data| <==> maxSize < HeaderLen(id, f.offset) + 2 + |f.data|
    ensures |f.data| <= MAX_VARINT_2 ==> maxSize < HeaderLen(id, f.offset) + 2 + |f.data|
  {
  }

  /** A frame of 16384 octets for which the split point lies behind the data. */
  lemma SplitPointCanBeOutside(f: StreamFrame)
    requires f.offset == 0 && |f.data| == 16384
    ensures |f.data| + 5 < Length(0, f) && MaxDataLen(0, 0, |f.data| + 5) > |f.data|
  {
  }

  function MaybeSplitOff(id: nat, f: StreamFrame, maxSize: nat): Split
    requires |f.data| <= MAX_VARINT_2
  {
    if maxSize >= Length(id, f) then Whole
    else
      var n := MaxDataLen(id, f.offset, maxSize);
      if n == 0 then TooSmall
      else
        SplitPointIsInside(id, f, maxSize);
        Parts(StreamFrame(f.offset, f.data[..n], false), StreamFrame(f.offset + n, f.data[n..], f.fin))
  }

  /** The parts fit, are not empty and together are the frame; the FIN stays on the second. */
  lemma SplitIsExact(id: nat, f: StreamFrame, maxSize: nat)
    requires |f.data| <= MAX_VARINT_2
    ensures match MaybeSplitOff(id, f, maxSize)
            case Whole => Length(id, f) <= maxSize
            case TooSmall => Length(id, f) > maxSize
            case Parts(a, b) =>
              && a.data != [] && b.data != [] && a.data + b.data == f.data
              && a.offset == f.offset && b.offset == a.End() && b.End() == f.End()
              && !a.fin && b.fin == f.fin
              && Length(id, a) <= maxSize < Length(id, f)
  {
    var n := MaxDataLen(id, f.offset, maxSize);
    if maxSize < Length(id, f) && n > 0 {
      SplitPointIsInside(id, f, maxSize);
      MaxDataLenFits(id, f.offset, maxSize, StreamFrame(f.offset, f.data[..n], false));
    }
  }
}
