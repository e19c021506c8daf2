/** The packet functions as the source runs them: headers grow by appends, packets are masked and unmasked in place. */
module PacketIO {
  import opened Common
  import opened Octets
  import opened Varint
  import opened PacketNumbers
  import opened HeaderProtection
  import opened Packets

  /** Exclusive-ors the mask into the first octet and the packet number field. */
  method XorHeaderMask(buffer: array<byte>, mask: seq<byte>, pnOffset: nat, pnLen: nat, long: bool)
    requires 1 <= pnOffset && pnOffset + pnLen <= buffer.Length && pnLen < |mask|
    modifies buffer
    ensures buffer[..] == Masked(old(buffer[..]), mask, pnOffset, pnLen, long)
  {
    hide Xor, XorFirst;
    buffer[0] := XorFirst(buffer[0], mask[0], long);
    for i := 0 to pnLen
      invariant forall j :: 0 <= j < buffer.Length ==>
                  buffer[j] == if j < pnOffset + i then MaskedAt(old(buffer[..]), mask, pnOffset, pnLen, long, j)
                               else old(buffer[j])
    {
      buffer[pnOffset + i] := Xor(buffer[pnOffset + i], mask[1 + i]);
    }
  }

  method ProtectHeader(k: Keys, buffer: array<byte>, pnOffset: nat, pnLen: nat, long: bool) returns (ok: bool)
    modifies buffer
    ensures var r := ApplyHeaderProtection(k, old(buffer[..]), pnOffset, pnLen, long);
            ok == r.Ok? && buffer[..] == if ok then r.value else old(buffer[..])
  {
    if pnOffset < 1 || pnLen < 1 || pnLen > 4 || pnOffset + pnLen > buffer.Length {
      return false;
    }
    if pnOffset + 4 + SAMPLE_LEN > buffer.Length {
      return false;
    }
    var mask := k.mask(buffer[pnOffset + 4..pnOffset + 4 + SAMPLE_LEN]);
    assert Sample(buffer[..], pnOffset) == buffer[pnOffset + 4..pnOffset + 4 + SAMPLE_LEN];
    if |mask| <= 4 {
      return false;
    }
    XorHeaderMask(buffer, mask, pnOffset, pnLen, long);
    return true;
  }

  /** Unmasks the first octet, learns the packet number length from it, and unmasks the packet number. */
  method UnprotectHeader(k: Keys, buffer: array<byte>, pnOffset: nat, long: bool) returns (pn: Result<nat>)
    modifies buffer
    ensures var r := RemoveHeaderProtection(k, old(buffer[..]), pnOffset, long);
            && pn == (if r.Ok? then Ok(r.value.pn) else Err)
            && buffer[..] == if r.Ok? then r.value.packet else old(buffer[..])
    ensures pn.Ok? ==> pnOffset < buffer.Length
  {
    if pnOffset < 1 || pnOffset >= buffer.Length || pnOffset + 4 + SAMPLE_LEN > buffer.Length {
      return Err;
    }
    var mask := k.mask(buffer[pnOffset + 4..pnOffset + 4 + SAMPLE_LEN]);
    assert Sample(buffer[..], pnOffset) == buffer[pnOffset + 4..pnOffset + 4 + SAMPLE_LEN];
    if |mask| <= 4 {
      return Err;
    }
    var pnLen := XorFirst(buffer[0], mask[0], long) % 4 + 1;
    XorHeaderMask(buffer, mask, pnOffset, pnLen, long);
    var v := ReadBigEndian(buffer[pnOffset..pnOffset + pnLen]);
    assert buffer[..][pnOffset..pnOffset + pnLen] == buffer[pnOffset..pnOffset + pnLen];
    return Ok(v);
  }

  /** The last steps of every Seal: encrypt behind the header, then protect the header in place. */
  method Finish(k: Keys, hdr: seq<byte>, pn: nat, payload: seq<byte>, pnOffset: nat, pnLen: nat, long: bool)
    returns (r: Result<seq<byte>>)
    ensures r == ApplyHeaderProtection(k, hdr + k.seal(pn, hdr, payload), pnOffset, pnLen, long)
  {
    var ciphertext := k.seal(pn, hdr, payload);
    var plain := hdr + ciphertext;
    var packet := new byte[|plain|](i requires 0 <= i < |plain| => plain[i]);
    assert packet[..] == plain;
    var ok := ProtectHeader(k, packet, pnOffset, pnLen, long);
    return if ok then Ok(packet[..]) else Err;
  }

  method InitialHeader(dcid: seq<byte>, scid: seq<byte>, token: seq<byte>) returns (hdr: seq<byte>)
    requires |dcid| <= 255 && |scid| <= 255 && |token| <= MAX_VARINT
    ensures hdr == [0xC3] + InitialFields(dcid, scid, token)
  {
    hide Encoding, BigEndian;
    hdr := [0xC3];
    hdr := hdr + BigEndian(QUIC_VERSION_1, 4);
    hdr := hdr + CIDField(dcid);
    hdr := hdr + CIDField(scid);
    hdr := hdr + Encoding(|token|);
    hdr := hdr + token;
  }

  method SealInitialPacket(initialKeys: seq<byte> -> Keys, dcid: seq<byte>, scid: seq<byte>, token: seq<byte>,
                           pn: nat, payload: seq<byte>) returns (r: Result<seq<byte>>)
    ensures r == SealInitial(initialKeys, dcid, scid, token, pn, payload)
  {
    if pn > 0xFFFF_FFFF || |dcid| == 0 {
      return Err;
    }
    if |dcid| > 255 || |scid| > 255 || |token| > MAX_VARINT {
      return Err;
    }
    var length := LONG_PN_LEN + |payload| + TAG_LEN;
    if length > MAX_VARINT {
      return Err;
    }
    hide ApplyHeaderProtection, Encoding, BigEndian, InitialFields;
    var hdr := InitialHeader(dcid, scid, token);
    hdr := hdr + Encoding(length);
    var pnOffset := |hdr|;
    hdr := hdr + BigEndian(pn, LONG_PN_LEN);
    r := Finish(initialKeys(dcid), hdr, pn, payload, pnOffset, LONG_PN_LEN, true);
  }

  method SealHandshakePacket(k: Keys, dcid: seq<byte>, scid: seq<byte>, pn: nat, payload: seq<byte>)
    returns (r: Result<seq<byte>>)
    ensures r == SealHandshake(k, dcid, scid, pn, payload)
  {
    var length := LONG_PN_LEN + |payload| + TAG_LEN;
    if pn > 0xFFFF_FFFF || |dcid| > 255 || |scid| > 255 || length > MAX_VARINT {
      return Err;
    }
    hide ApplyHeaderProtection, Encoding, BigEndian;
    var hdr := [0xE3];
    hdr := hdr + BigEndian(QUIC_VERSION_1, 4);
    hdr := hdr + [|dcid|] + dcid;
    hdr := hdr + [|scid|] + scid;
    hdr := hdr + Encoding(length);
    assert hdr == [0xE3] + (BigEndian(QUIC_VERSION_1, 4) + (CIDField(dcid) + (CIDField(scid) + []))) + Encoding(length);
    var pnOffset := |hdr|;
    hdr := hdr + BigEndian(pn, LONG_PN_LEN);
    r := Finish(k, hdr, pn, payload, pnOffset, LONG_PN_LEN, true);
  }

  method Seal1RTTPacket(k: Keys, dcid: seq<byte>, pn: nat, pnLen: nat, keyPhase: bool, payload: seq<byte>)
    returns (r: Result<seq<byte>>)
    ensures r == Seal1RTT(k, dcid, pn, pnLen, keyPhase, payload)
  {
    if !ValidLen(pnLen) || |dcid| == 0 {
      return Err;
    }
    hide ApplyHeaderProtection;
    var hdr := [FirstOctet1RTT(pnLen, keyPhase)];
    hdr := hdr + dcid;
    var pnOffset := |hdr|;
    hdr := AppendPacketNumber(hdr, pn, pnLen);
    r := Finish(k, hdr, pn, payload, pnOffset, pnLen, false);
  }

  method OpenLongPacket(k: Keys, packet: array<byte>, pnOffset: nat, length: nat) returns (r: Result<Opened>)
    modifies packet
    ensures r == OpenLong(k, old(packet[..]), pnOffset, length)
  {
    hide RemoveHeaderProtection;
    var pn := UnprotectHeader(k, packet, pnOffset, true);
    if pn.Err? {
      return Err;
    }
    var pnLen := packet[0] % 4 + 1;
    if pnLen != LONG_PN_LEN || pnLen > length || length > packet.Length - pnOffset || length > MAX_LENGTH {
      return Err;
    }
    var headerEnd := pnOffset + pnLen;
    assert packet[..][..headerEnd] == packet[..headerEnd];
    assert packet[..][headerEnd..pnOffset + length] == packet[headerEnd..pnOffset + length];
    var payload := k.open(pn.value, packet[..headerEnd], packet[headerEnd..pnOffset + length]);
    if payload.Err? {
      return Err;
    }
    return Ok(Opened(pn.value, payload.value));
  }

  method OpenInitialPacket(initialKeys: seq<byte> -> Keys, dcid: seq<byte>, packet: array<byte>)
    returns (r: Result<Initial>)
    modifies packet
    ensures r == OpenInitial(initialKeys, dcid, old(packet[..]))
  {
    hide OpenLong, ReadVarint, ReadVarintBytes;
    if |dcid| == 0 || packet.Length < 1 {
      return Err;
    }
    if packet[0] / 128 == 0 || packet[0] / 64 % 2 == 0 || packet[0] / 16 % 4 != 0 {
      return Err;
    }
    var b := packet[..];
    var pos := 1;
    var version := ReadUint32(b, pos);
    if version.Err? || version.value.value != QUIC_VERSION_1 {
      return Err;
    }
    pos := version.value.pos;
    var sent := ReadCID(b, pos);
    if sent.Err? {
      return Err;
    }
    pos := sent.value.pos;
    var scid := ReadCID(b, pos);
    if scid.Err? {
      return Err;
    }
    pos := scid.value.pos;
    var token := ReadVarintBytes(b, pos);
    if token.Err? {
      return Err;
    }
    pos := token.value.pos;
    TokenEnds(b, scid.value.pos);
    var length := ReadVarintOctets(b[pos..]);
    if length.Err? {
      return Err;
    }
    pos := pos + length.value.n;
    var content := OpenLongPacket(initialKeys(dcid), packet, pos, length.value.value);
    if content.Err? {
      return Err;
    }
    return Ok(Initial(version.value.value, scid.value.value, token.value.value, content.value));
  }

  lemma TokenEnds(b: seq<byte>, pos: nat)
    requires pos <= |b| && ReadVarintBytes(b, pos).Ok?
    ensures ReadVarintBytes(b, pos).value.pos <= |b|
  {
  }

  method OpenHandshakePacket(k: Keys, expectedDCID: seq<byte>, packet: array<byte>) returns (r: Result<Handshake>)
    modifies packet
    ensures r == OpenHandshake(k, expectedDCID, old(packet[..]))
  {
    hide OpenLong, ReadVarint;
    if packet.Length < 1 {
      return Err;
    }
    if packet[0] / 128 == 0 || packet[0] / 64 % 2 == 0 || packet[0] / 16 % 4 != 2 {
      return Err;
    }
    var b := packet[..];
    var pos := 1;
    var version := ReadUint32(b, pos);
    if version.Err? || version.value.value != QUIC_VERSION_1 {
      return Err;
    }
    pos := version.value.pos;
    var dcid := ReadCID(b, pos);
    if dcid.Err? || dcid.value.value != expectedDCID {
      return Err;
    }
    pos := dcid.value.pos;
    var scid := ReadCID(b, pos);
    if scid.Err? {
      return Err;
    }
    pos := scid.value.pos;
    var length := ReadVarintOctets(b[pos..]);
    if length.Err? {
      return Err;
    }
    pos := pos + length.value.n;
    var content := OpenLongPacket(k, packet, pos, length.value.value);
    if content.Err? {
      return Err;
    }
    return Ok(Handshake(version.value.value, scid.value.value, content.value));
  }

  method Open1RTTPacket(k: Keys, expectedDCID: seq<byte>, largestAcked: Option<nat>, packet: array<byte>)
    returns (r: Result<Opened>)
    modifies packet
    ensures r == Open1RTT(k, expectedDCID, largestAcked, old(packet[..]))
  {
    hide RemoveHeaderProtection, Reconstruct;
    var pnOffset := 1 + |expectedDCID|;
    if |expectedDCID| == 0 || packet.Length < 1 || packet[0] / 128 != 0 || pnOffset > packet.Length {
      return Err;
    }
    assert packet[..][1..pnOffset] == packet[1..pnOffset];
    if packet[1..pnOffset] != expectedDCID || pnOffset >= packet.Length {
      return Err;
    }
    var truncated := UnprotectHeader(k, packet, pnOffset, false);
    if truncated.Err? {
      return Err;
    }
    var pnLen := packet[0] % 4 + 1;
    var headerEnd := pnOffset + pnLen;
    if headerEnd > packet.Length || packet.Length - headerEnd < TAG_LEN {
      return Err;
    }
    assert truncated.value < Window(pnLen) by {
      UnmaskedNumberFits(k, old(packet[..]), pnOffset, false);
      WindowIsPower(pnLen);
    }
    var pn := Reconstruct(largestAcked, truncated.value, pnLen);
    assert packet[..][..headerEnd] == packet[..headerEnd] && packet[..][headerEnd..] == packet[headerEnd..];
    var payload := k.open(pn, packet[..headerEnd], packet[headerEnd..]);
    if payload.Err? {
      return Err;
    }
    return Ok(Opened(pn, payload.value));
  }

  // ---------------------------------------------------------------- CRYPTO frames

  const FRAME_TYPE_CRYPTO: nat := 0x06
  const MAX_CRYPTO_FRAME_LEN: nat := 0x100_0000

  function AppendCryptoFrame(b: seq<byte>, offset: nat, data: seq<byte>): Result<seq<byte>> {
    if offset > MAX_VARINT || |data| > MAX_VARINT then Err
    else Ok(b + (Encoding(FRAME_TYPE_CRYPTO) + (Encoding(offset) + (Encoding(|data|) + data))))
  }

  datatype CryptoFrame = CryptoFrame(offset: nat, data: seq<byte>, n: nat)

  function ReadCryptoFrame(b: seq<byte>): Result<CryptoFrame> {
    var ft := ReadVarint(b);
    if ft.Err? || ft.value.value != FRAME_TYPE_CRYPTO || ft.value.n > |b| then Err else
      var offset := ReadVarint(b[ft.value.n..]);
      if offset.Err? || ft.value.n + offset.value.n > |b| then Err else
        var pos := ft.value.n + offset.value.n;
        var length := ReadVarint(b[pos..]);
        if length.Err? || pos + length.value.n > |b| then Err else
          var start := pos + length.value.n;
          if |b| - start < length.value.value || length.value.value > MAX_CRYPTO_FRAME_LEN then Err
          else Ok(CryptoFrame(offset.value.value, b[start..start + length.value.value], start + length.value.value))
  }

  /** Where the fields of a frame are found. */
  lemma CryptoFrameFields(offset: nat, data: seq<byte>, rest: seq<byte>, b: seq<byte>)
    requires offset <= MAX_VARINT && |data| <= MAX_VARINT && b == AppendCryptoFrame([], offset, data).value + rest
    ensures var t, o, l := |Encoding(FRAME_TYPE_CRYPTO)|, |Encoding(offset)|, |Encoding(|data|)|;
            && ReadVarint(b) == Ok(Read(FRAME_TYPE_CRYPTO, t))
            && t + o + l + |data| <= |b|
            && ReadVarint(b[t..]) == Ok(Read(offset, o))
            && ReadVarint(b[t + o..]) == Ok(Read(|data|, l))
            && b[t + o + l..t + o + l + |data|] == data
  {
    hide Encoding, ReadVarint, At;
    var t, o, l := Encoding(FRAME_TYPE_CRYPTO), Encoding(offset), Encoding(|data|);
    var f := t + (o + (l + data));
    assert AppendCryptoFrame([], offset, data).value == f;
    FrameIsAt(f, rest);
    AtConcat(b, 0, t, o + (l + data));
    AtConcat(b, |t|, o, l + data);
    AtConcat(b, |t| + |o|, l, data);
    ReadVarintAt(b, 0, FRAME_TYPE_CRYPTO);
    assert b[0..] == b;
    ReadVarintAt(b, |t|, offset);
    ReadVarintAt(b, |t| + |o|, |data|);
    AtIs(b, |t| + |o| + |l|, data);
  }

  /** A CRYPTO frame is read back whatever follows it, exactly when its data is within the cap. */
  lemma CryptoFrameRoundTrip(offset: nat, data: seq<byte>, rest: seq<byte>)
    requires offset <= MAX_VARINT && |data| <= MAX_VARINT
    ensures var f := AppendCryptoFrame([], offset, data).value;
            var expected := if |data| <= MAX_CRYPTO_FRAME_LEN then Ok(CryptoFrame(offset, data, |f|)) else Err;
            ReadCryptoFrame(f + rest) == expected
  {
    hide Encoding, ReadVarint;
    var f := AppendCryptoFrame([], offset, data).value;
    CryptoFrameFields(offset, data, rest, f + rest);
  }

  lemma FrameIsAt(f: seq<byte>, rest: seq<byte>)
    ensures At(f + rest, 0, f)
  {
    assert (f + rest)[0..|f|] == f;
  }

  lemma AtIs(b: seq<byte>, pos: nat, field: seq<byte>)
    requires At(b, pos, field)
    ensures pos + |field| <= |b| && b[pos..pos + |field|] == field
  {
  }
}
