/** Initial, Handshake and 1-RTT packets: Seal builds and protects one, Open takes it apart again. */
module Packets {
  import opened Common
  import opened Octets
  import opened Varint
  import opened PacketNumbers
  import opened HeaderProtection

  const QUIC_VERSION_1: nat := 1
  /** Initial and Handshake packets always use four octets for the packet number. */
  const LONG_PN_LEN: nat := 4
  /** Lengths are capped so that they fit a 32-bit int. */
  const MAX_LENGTH: nat := 0x7FFF_FFFF

  // ---------------------------------------------------------------- field readers

  /** A field and the position behind it. */
  datatype Field<T> = Field(value: T, pos: nat)

  function ReadUint32(b: seq<byte>, pos: nat): Result<Field<nat>> {
    if pos + 4 > |b| then Err else Ok(Field(FromBigEndian(b[pos..pos + 4]), pos + 4))
  }

  function ReadCID(b: seq<byte>, pos: nat): Result<Field<seq<byte>>> {
    if pos + 1 > |b| then Err else
      var l := b[pos];
      if pos + 1 + l > |b| then Err else Ok(Field(b[pos + 1..pos + 1 + l], pos + 1 + l))
  }

  function ReadVarintBytes(b: seq<byte>, pos: nat): Result<Field<seq<byte>>>
    requires pos <= |b|
  {
    var r := ReadVarint(b[pos..]);
    if r.Err? || r.value.value > MAX_LENGTH then Err else
      var start := pos + r.value.n;
      var end := start + r.value.value;
      if end > |b| then Err else Ok(Field(b[start..end], end))
  }

  /** b has the given octets at pos, and more behind them. */
  predicate At(b: seq<byte>, pos: nat, field: seq<byte>) {
    pos + |field| <= |b| && b[pos..pos + |field|] == field
  }

  lemma AtConcat(b: seq<byte>, pos: nat, x: seq<byte>, y: seq<byte>)
    requires At(b, pos, x + y)
    ensures At(b, pos, x) && At(b, pos + |x|, y)
  {
    var f := x + y;
    var s := b[pos..pos + |f|];
    assert s[..|x|] == x && s[|x|..] == y;
    SliceOfSlice(b, pos, pos + |f|, 0, |x|);
    SliceOfSlice(b, pos, pos + |f|, |x|, |f|);
  }

  lemma ReadCIDAt(b: seq<byte>, pos: nat, cid: seq<byte>)
    requires |cid| <= 255 && At(b, pos, [|cid|] + cid)
    ensures ReadCID(b, pos) == Ok(Field(cid, pos + 1 + |cid|))
  {
    AtConcat(b, pos, [|cid|], cid);
    assert b[pos] == b[pos..pos + 1][0] == |cid|;
  }

  lemma ReadVarintAt(b: seq<byte>, pos: nat, v: nat)
    requires v <= MAX_VARINT && At(b, pos, Encoding(v))
    ensures pos <= |b| && ReadVarint(b[pos..]) == Ok(Read(v, VarintLen(v))) && |Encoding(v)| == VarintLen(v)
  {
    var e := Encoding(v);
    ReadAfterAppend(v, b[pos + |e|..]);
    assert b[pos..] == e + b[pos + |e|..];
  }

  lemma ReadVarintBytesAt(b: seq<byte>, pos: nat, data: seq<byte>)
    requires |data| <= MAX_VARINT && At(b, pos, Encoding(|data|) + data)
    ensures pos <= |b|
    ensures ReadVarintBytes(b, pos) ==
            if |data| <= MAX_LENGTH then Ok(Field(data, pos + |Encoding(|data|)| + |data|)) else Err
  {
    AtConcat(b, pos, Encoding(|data|), data);
    ReadVarintAt(b, pos, |data|);
  }

  // ---------------------------------------------------------------- long headers

  datatype Opened = Opened(pn: nat, payload: seq<byte>)

  /** Encrypts the payload behind a header that ends with the length field, and protects the header. */
  function SealLong(k: Keys, header: seq<byte>, pn: nat, payload: seq<byte>): Result<seq<byte>> {
    var hdr := header + BigEndian(pn, LONG_PN_LEN);
    ApplyHeaderProtection(k, hdr + k.seal(pn, hdr, payload), |header|, LONG_PN_LEN, true)
  }

  /** What both long-header readers do once they have read the length field. */
  function OpenLong(k: Keys, packet: seq<byte>, pnOffset: nat, length: nat): Result<Opened> {
    var r := RemoveHeaderProtection(k, packet, pnOffset, true);
    if r.Err? then Err else
      var b := r.value.packet;
      if b[0] % 4 + 1 != LONG_PN_LEN then Err
      else if LONG_PN_LEN > length then Err
      else if length > |packet| - pnOffset then Err
      else if length > MAX_LENGTH then Err
      else
        var headerEnd := pnOffset + LONG_PN_LEN;
        var payload := k.open(r.value.pn, b[..headerEnd], b[headerEnd..pnOffset + length]);
        if payload.Err? then Err else Ok(Opened(r.value.pn, payload.value))
  }

  lemma OpenLongAfterSeal(k: Keys, header: seq<byte>, pn: nat, payload: seq<byte>)
    requires Sound(k) && header != [] && header[0] % 4 == 3 && pn <= 0xFFFF_FFFF
    ensures var p := SealLong(k, header, pn, payload);
            var length := LONG_PN_LEN + |payload| + TAG_LEN;
            && p.Ok?
            && |p.value| == |header| + length
            && p.value[0] / 16 == header[0] / 16
            && p.value[1..|header|] == header[1..]
            && OpenLong(k, p.value, |header|, length) == if length <= MAX_LENGTH then Ok(Opened(pn, payload)) else Err
  {
    hide RemoveHeaderProtection, Masked;
    var hdr := header + BigEndian(pn, LONG_PN_LEN);
    var ct := k.seal(pn, hdr, payload);
    var b := hdr + ct;
    assert |ct| == |payload| + TAG_LEN && k.open(pn, hdr, ct) == Ok(payload);
    assert |k.mask(Sample(b, |header|))| == SAMPLE_LEN;
    RemoveUndoesApply(k, b, |header|, LONG_PN_LEN, true);
    var n := |header|;
    assert b[n..n + 4] == BigEndian(pn, 4);
    assert b[1..n] == header[1..];
    assert b[..n + 4] == hdr && b[n + 4..] == ct;
    assert Pow256(4) == 0x1_0000_0000 by { WindowIsPower(4); }
    FromToBigEndian(pn, 4);
    var p := SealLong(k, header, pn, payload);
    assert p.Ok?;
    assert |p.value| == |b|;
    assert RemoveHeaderProtection(k, p.value, n, true) == Ok(Unmasked(b, pn));
    assert b[0] == header[0];
    assert p.value[1..n] == header[1..];
    assert b[n + 4..n + 4 + |payload| + TAG_LEN] == ct;
  }

  function CIDField(cid: seq<byte>): seq<byte>
    requires |cid| <= 255
  {
    [|cid|] + cid
  }

  /** Behind the first octet the protected packet still holds the header fields. */
  lemma HeaderIsAt(p: seq<byte>, header: seq<byte>, fields: seq<byte>)
    requires header != [] && header == [header[0]] + fields && |header| <= |p| && p[1..|header|] == header[1..]
    ensures At(p, 1, fields)
  {
    assert header[1..] == fields;
  }

  /** Version, connection IDs, further fields and length are found where they were put. */
  lemma LongFieldsAt(p: seq<byte>, dcid: seq<byte>, scid: seq<byte>, more: seq<byte>, length: nat)
    requires |dcid| <= 255 && |scid| <= 255 && length <= MAX_VARINT
    requires At(p, 1, BigEndian(QUIC_VERSION_1, 4) + (CIDField(dcid) + (CIDField(scid) + more)) + Encoding(length))
    ensures ReadUint32(p, 1) == Ok(Field(QUIC_VERSION_1, 5))
    ensures ReadCID(p, 5) == Ok(Field(dcid, 5 + |CIDField(dcid)|))
    ensures var pos := 5 + |CIDField(dcid)|;
            && ReadCID(p, pos) == Ok(Field(scid, pos + |CIDField(scid)|))
            && At(p, pos + |CIDField(scid)|, more)
            && var lengthPos := pos + |CIDField(scid)| + |more|;
               && lengthPos <= |p|
               && ReadVarint(p[lengthPos..]) == Ok(Read(length, |Encoding(length)|))
  {
    hide Encoding, ReadVarint, ReadCID, ReadUint32, At;
    var v, d, c, l := BigEndian(QUIC_VERSION_1, 4), CIDField(dcid), CIDField(scid), Encoding(length);
    AtConcat(p, 1, v + (d + (c + more)), l);
    AtConcat(p, 1, v, d + (c + more));
    AtConcat(p, 5, d, c + more);
    AtConcat(p, 5 + |d|, c, more);
    ReadVersionAt(p, 1);
    ReadCIDAt(p, 5, dcid);
    ReadCIDAt(p, 5 + |d|, scid);
    ReadVarintAt(p, 5 + |d| + |c| + |more|, length);
  }

  // ---------------------------------------------------------------- Initial packets

  /** The fields between the first octet and the length field. */
  function InitialFields(dcid: seq<byte>, scid: seq<byte>, token: seq<byte>): seq<byte>
    requires |dcid| <= 255 && |scid| <= 255 && |token| <= MAX_VARINT
  {
    BigEndian(QUIC_VERSION_1, 4) + (CIDField(dcid) + (CIDField(scid) + (Encoding(|token|) + token)))
  }

  function SealInitial(initialKeys: seq<byte> -> Keys, dcid: seq<byte>, scid: seq<byte>, token: seq<byte>,
                       pn: nat, payload: seq<byte>): Result<seq<byte>>
  {
    var length := LONG_PN_LEN + |payload| + TAG_LEN;
    if pn > 0xFFFF_FFFF || |dcid| == 0 then Err
    else if |dcid| > 255 || |scid| > 255 || |token| > MAX_VARINT || length > MAX_VARINT then Err
    else
      SealLong(initialKeys(dcid), [0xC3] + InitialFields(dcid, scid, token) + Encoding(length), pn, payload)
  }

  datatype Initial = Initial(version: nat, scid: seq<byte>, token: seq<byte>, content: Opened)

  function OpenInitial(initialKeys: seq<byte> -> Keys, dcid: seq<byte>, packet: seq<byte>): Result<Initial> {
    if |dcid| == 0 || |packet| < 1 then Err
    else if packet[0] / 128 == 0 || packet[0] / 64 % 2 == 0 || packet[0] / 16 % 4 != 0 then Err
    else
      var version := ReadUint32(packet, 1);
      if version.Err? || version.value.value != QUIC_VERSION_1 then Err else
        var sent := ReadCID(packet, version.value.pos);
        if sent.Err? then Err else
          var scid := ReadCID(packet, sent.value.pos);
          if scid.Err? then Err else
            var token := ReadVarintBytes(packet, scid.value.pos);
            if token.Err? then Err else
              var length := ReadVarint(packet[token.value.pos..]);
              if length.Err? then Err else
                var pnOffset := token.value.pos + length.value.n;
                var content := OpenLong(initialKeys(dcid), packet, pnOffset, length.value.value);
                if content.Err? then Err
                else Ok(Initial(version.value.value, scid.value.value, token.value.value, content.value))
  }

  lemma ReadVersionAt(b: seq<byte>, pos: nat)
    requires At(b, pos, BigEndian(QUIC_VERSION_1, 4))
    ensures ReadUint32(b, pos) == Ok(Field(QUIC_VERSION_1, pos + 4))
  {
    WindowIsPower(4);
    FromToBigEndian(QUIC_VERSION_1, 4);
  }

  /**
   An Initial packet is sealed exactly when its fields fit, and opening it gives back what was sealed, exactly when
   the lengths are below the cap.
   */
  lemma InitialRoundTrip(initialKeys: seq<byte> -> Keys, dcid: seq<byte>, scid: seq<byte>, token: seq<byte>,
                         pn: nat, payload: seq<byte>)
    requires Sound(initialKeys(dcid))
    ensures var length := LONG_PN_LEN + |payload| + TAG_LEN;
            var p := SealInitial(initialKeys, dcid, scid, token, pn, payload);
            && (p.Ok? <==>
                  && pn <= 0xFFFF_FFFF && 0 < |dcid| <= 255 && |scid| <= 255
                  && |token| <= MAX_VARINT && length <= MAX_VARINT)
            && var fits := |token| <= MAX_LENGTH && length <= MAX_LENGTH;
               var expected := if fits then Ok(Initial(QUIC_VERSION_1, scid, token, Opened(pn, payload))) else Err;
               p.Ok? ==> OpenInitial(initialKeys, dcid, p.value) == expected
  {
    hide SealLong, OpenLong, Encoding, ReadVarint, ReadVarintBytes, ReadCID, ReadUint32, At, Sound, BigEndian;
    var length := LONG_PN_LEN + |payload| + TAG_LEN;
    if pn <= 0xFFFF_FFFF && 0 < |dcid| <= 255 && |scid| <= 255 && |token| <= MAX_VARINT && length <= MAX_VARINT {
      var fields := InitialFields(dcid, scid, token);
      var header := [0xC3] + fields + Encoding(length);
      OpenLongAfterSeal(initialKeys(dcid), header, pn, payload);
      var p := SealInitial(initialKeys, dcid, scid, token, pn, payload).value;
      HeaderIsAt(p, header, fields + Encoding(length));
      LongFieldsAt(p, dcid, scid, Encoding(|token|) + token, length);
      ReadVarintBytesAt(p, 5 + |CIDField(dcid)| + |CIDField(scid)|, token);
    }
  }

  // ---------------------------------------------------------------- Handshake packets

  function SealHandshake(k: Keys, dcid: seq<byte>, scid: seq<byte>, pn: nat, payload: seq<byte>): Result<seq<byte>> {
    var length := LONG_PN_LEN + |payload| + TAG_LEN;
    if pn > 0xFFFF_FFFF || |dcid| > 255 || |scid| > 255 || length > MAX_VARINT then Err
    else
      var fields := BigEndian(QUIC_VERSION_1, 4) + (CIDField(dcid) + (CIDField(scid) + []));
      SealLong(k, [0xE3] + fields + Encoding(length), pn, payload)
  }

  datatype Handshake = Handshake(version: nat, scid: seq<byte>, content: Opened)

  function OpenHandshake(k: Keys, expectedDCID: seq<byte>, packet: seq<byte>): Result<Handshake> {
    if |packet| < 1 then Err
    else if packet[0] / 128 == 0 || packet[0] / 64 % 2 == 0 || packet[0] / 16 % 4 != 2 then Err
    else
      var version := ReadUint32(packet, 1);
      if version.Err? || version.value.value != QUIC_VERSION_1 then Err else
        var dcid := ReadCID(packet, version.value.pos);
        if dcid.Err? || dcid.value.value != expectedDCID then Err else
          var scid := ReadCID(packet, dcid.value.pos);
          if scid.Err? then Err else
            var length := ReadVarint(packet[scid.value.pos..]);
            if length.Err? then Err else
              var content := OpenLong(k, packet, scid.value.pos + length.value.n, length.value.value);
              if content.Err? then Err else Ok(Handshake(version.value.value, scid.value.value, content.value))
  }

  /** The same for Handshake packets; a receiver that expects another connection ID rejects the packet. */
  lemma HandshakeRoundTrip(k: Keys, dcid: seq<byte>, scid: seq<byte>, pn: nat, payload: seq<byte>,
                           expectedDCID: seq<byte>)
    requires Sound(k)
    ensures var length := LONG_PN_LEN + |payload| + TAG_LEN;
            var p := SealHandshake(k, dcid, scid, pn, payload);
            && (p.Ok? <==> pn <= 0xFFFF_FFFF && |dcid| <= 255 && |scid| <= 255 && length <= MAX_VARINT)
            && var fits := expectedDCID == dcid && length <= MAX_LENGTH;
               var expected := if fits then Ok(Handshake(QUIC_VERSION_1, scid, Opened(pn, payload))) else Err;
               p.Ok? ==> OpenHandshake(k, expectedDCID, p.value) == expected
  {
    hide SealLong, OpenLong, Encoding, ReadVarint, ReadCID, ReadUint32, At, Sound, BigEndian;
    var length := LONG_PN_LEN + |payload| + TAG_LEN;
    if pn <= 0xFFFF_FFFF && |dcid| <= 255 && |scid| <= 255 && length <= MAX_VARINT {
      var fields := BigEndian(QUIC_VERSION_1, 4) + (CIDField(dcid) + (CIDField(scid) + []));
      var header := [0xE3] + fields + Encoding(length);
      OpenLongAfterSeal(k, header, pn, payload);
      var p := SealHandshake(k, dcid, scid, pn, payload).value;
      HeaderIsAt(p, header, fields + Encoding(length));
      LongFieldsAt(p, dcid, scid, [], length);
    }
  }

  // ---------------------------------------------------------------- 1-RTT packets

  function FirstOctet1RTT(pnLen: nat, keyPhase: bool): byte
    requires ValidLen(pnLen)
  {
    0x40 + (pnLen - 1) + (if keyPhase then 0x08 else 0)
  }

  function Seal1RTT(k: Keys, dcid: seq<byte>, pn: nat, pnLen: nat, keyPhase: bool,
                    payload: seq<byte>): Result<seq<byte>> {
    if !ValidLen(pnLen) || |dcid| == 0 then Err
    else ApplyHeaderProtection(k, Plain1RTT(k, dcid, pn, pnLen, keyPhase, payload), 1 + |dcid|, pnLen, false)
  }

  /** What the receiver takes the packet number for. */
  function Reconstruct(largestAcked: Option<nat>, truncated: nat, pnLen: nat): nat
    requires ValidLen(pnLen) ==> truncated < Window(pnLen)
  {
    if largestAcked.None? then truncated else DecodePacketNumber(largestAcked.value, truncated, pnLen)
  }

  function Open1RTT(k: Keys, expectedDCID: seq<byte>, largestAcked: Option<nat>, packet: seq<byte>): Result<Opened> {
    var pnOffset := 1 + |expectedDCID|;
    if |expectedDCID| == 0 || |packet| < 1 || packet[0] / 128 != 0 || pnOffset > |packet| then Err
    else if packet[1..pnOffset] != expectedDCID || pnOffset >= |packet| then Err
    else
      var r := RemoveHeaderProtection(k, packet, pnOffset, false);
      if r.Err? then Err else
        assert |r.value.packet| == |packet| && r.value.pn < Window(r.value.packet[0] % 4 + 1) by {
          UnmaskedNumberFits(k, packet, pnOffset, false);
          WindowIsPower(r.value.packet[0] % 4 + 1);
        }
        var b, pnLen := r.value.packet, r.value.packet[0] % 4 + 1;
        var headerEnd := pnOffset + pnLen;
        if headerEnd > |b| || |b| - headerEnd < TAG_LEN then Err else
          var pn := Reconstruct(largestAcked, r.value.pn, pnLen);
          var payload := k.open(pn, b[..headerEnd], b[headerEnd..]);
          if payload.Err? then Err else Ok(Opened(pn, payload.value))
  }

  /** The packet before header protection. */
  function Plain1RTT(k: Keys, dcid: seq<byte>, pn: nat, pnLen: nat, keyPhase: bool, payload: seq<byte>): seq<byte>
    requires ValidLen(pnLen)
  {
    var hdr := [FirstOctet1RTT(pnLen, keyPhase)] + dcid + BigEndian(TruncatePacketNumber(pn, pnLen), pnLen);
    hdr + k.seal(pn, hdr, payload)
  }

  lemma Plain1RTTFields(k: Keys, dcid: seq<byte>, pn: nat, pnLen: nat, keyPhase: bool, payload: seq<byte>)
    requires Sound(k) && ValidLen(pnLen)
    ensures var b, n := Plain1RTT(k, dcid, pn, pnLen, keyPhase, payload), 1 + |dcid|;
            && |b| == n + pnLen + |payload| + TAG_LEN
            && b[0] / 32 == 2 && b[0] % 4 + 1 == pnLen && b[1..n] == dcid
            && FromBigEndian(b[n..n + pnLen]) == TruncatePacketNumber(pn, pnLen)
            && k.open(pn, b[..n + pnLen], b[n + pnLen..]) == Ok(payload)
  {
    var t, n := TruncatePacketNumber(pn, pnLen), 1 + |dcid|;
    var hdr := [FirstOctet1RTT(pnLen, keyPhase)] + dcid + BigEndian(t, pnLen);
    var ct := k.seal(pn, hdr, payload);
    assert |ct| == |payload| + TAG_LEN && k.open(pn, hdr, ct) == Ok(payload);
    var b := Plain1RTT(k, dcid, pn, pnLen, keyPhase, payload);
    assert b == hdr + ct;
    assert b[1..n] == dcid && b[n..n + pnLen] == BigEndian(t, pnLen);
    assert b[..n + pnLen] == hdr && b[n + pnLen..] == ct;
    WindowIsPower(pnLen);
    FromToBigEndian(t, pnLen);
  }

  lemma Protected1RTT(k: Keys, dcid: seq<byte>, pn: nat, pnLen: nat, keyPhase: bool, payload: seq<byte>)
    requires Sound(k) && ValidLen(pnLen) && |dcid| > 0 && pnLen + |payload| >= 4
    ensures var p := Seal1RTT(k, dcid, pn, pnLen, keyPhase, payload);
            var b, n := Plain1RTT(k, dcid, pn, pnLen, keyPhase, payload), 1 + |dcid|;
            && p.Ok? && |p.value| == |b| && p.value[0] / 32 == 2 && p.value[1..n] == dcid
            && RemoveHeaderProtection(k, p.value, n, false) == Ok(Unmasked(b, TruncatePacketNumber(pn, pnLen)))
  {
    hide RemoveHeaderProtection, Masked;
    var b, n := Plain1RTT(k, dcid, pn, pnLen, keyPhase, payload), 1 + |dcid|;
    Plain1RTTFields(k, dcid, pn, pnLen, keyPhase, payload);
    hide Plain1RTT;
    assert |k.mask(Sample(b, n))| == SAMPLE_LEN;
    RemoveUndoesApply(k, b, n, pnLen, false);
  }

  /**
   A 1-RTT packet can be sealed exactly when there is enough ciphertext for the header protection sample.
   A receiver that reconstructs the packet number recovers number and payload, for every packet number width and key
   phase.
   */
  lemma OneRTTRoundTrip(k: Keys, dcid: seq<byte>, pn: nat, pnLen: nat, keyPhase: bool, payload: seq<byte>,
                        largestAcked: Option<nat>)
    requires Sound(k)
    ensures var p := Seal1RTT(k, dcid, pn, pnLen, keyPhase, payload);
            && (p.Ok? <==> ValidLen(pnLen) && |dcid| > 0 && pnLen + |payload| >= 4)
            && (p.Ok? && Reconstruct(largestAcked, TruncatePacketNumber(pn, pnLen), pnLen) == pn ==>
                  Open1RTT(k, dcid, largestAcked, p.value) == Ok(Opened(pn, payload)))
  {
    hide RemoveHeaderProtection, Masked, TruncatePacketNumber, Reconstruct, BigEndian;
    if ValidLen(pnLen) && |dcid| > 0 {
      Plain1RTTFields(k, dcid, pn, pnLen, keyPhase, payload);
      if pnLen + |payload| >= 4 {
        Protected1RTT(k, dcid, pn, pnLen, keyPhase, payload);
      } else {
        assert !Sampled(Plain1RTT(k, dcid, pn, pnLen, keyPhase, payload), 1 + |dcid|);
      }
    }
  }

  /**
   In particular a sender that follows ChoosePacketNumberLen reaches every receiver that has received the acknowledged
   packet and is not yet half a window past this one, whatever else it has received; sealing fails exactly for
   payloads too short to sample.
   */
  lemma OneRTTReachesPeer(k: Keys, dcid: seq<byte>, pn: nat, acked: nat, received: nat, keyPhase: bool,
                          payload: seq<byte>)
    requires Sound(k) && |dcid| > 0 && pn < PN_LIMIT
    requires ChoosePacketNumberLen(pn, Some(acked)).Ok?
    requires acked <= received && received + 1 < pn + HalfWindow(ChoosePacketNumberLen(pn, Some(acked)).value)
    ensures var n := ChoosePacketNumberLen(pn, Some(acked)).value;
            var p := Seal1RTT(k, dcid, pn, n, keyPhase, payload);
            && (p.Ok? <==> n + |payload| >= 4)
            && (p.Ok? ==> Open1RTT(k, dcid, Some(received), p.value) == Ok(Opened(pn, payload)))
  {
    var n := ChoosePacketNumberLen(pn, Some(acked)).value;
    ChosenLenIsDecodable(pn, acked, received);
    OneRTTRoundTrip(k, dcid, pn, n, keyPhase, payload, Some(received));
  }

  /**
   Without feedback the sender uses four octets, and a receiver that has received nothing takes the truncated number
   as it is. The documentation calls four octets always decodable; they are exactly for packet numbers below 2^32.
   */
  lemma FirstPacketReachesPeer(k: Keys, dcid: seq<byte>, pn: nat, keyPhase: bool, payload: seq<byte>)
    requires Sound(k) && |dcid| > 0
    ensures ChoosePacketNumberLen(pn, None) == Ok(4)
    ensures Reconstruct(None, TruncatePacketNumber(pn, 4), 4) == pn <==> pn <= 0xFFFF_FFFF
    ensures var p := Seal1RTT(k, dcid, pn, 4, keyPhase, payload);
            p.Ok? && (pn <= 0xFFFF_FFFF ==> Open1RTT(k, dcid, None, p.value) == Ok(Opened(pn, payload)))
  {
    OneRTTRoundTrip(k, dcid, pn, 4, keyPhase, payload, None);
  }
}
