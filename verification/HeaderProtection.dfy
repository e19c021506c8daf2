/**
 QUIC header protection (section 5.4 of RFC 9001): the first octet and the packet number are masked by a sample of the
 ciphertext.
 */
module HeaderProtection {
  import opened Bits
  import opened Common
  import opened Octets

  const SAMPLE_LEN: nat := 16
  const TAG_LEN: nat := 16

  /** Packet protection keys, by what they compute: the AEAD in both directions, and the header mask of a sample. */
  datatype Keys = Keys(seal: (nat, seq<byte>, seq<byte>) -> seq<byte>,
                       open: (nat, seq<byte>, seq<byte>) -> Result<seq<byte>>,
                       mask: seq<byte> -> seq<byte>)

  /** Decryption undoes encryption under the same packet number and header; the tag and the mask have their sizes. */
  ghost predicate Sound(k: Keys) {
    && (forall pn: nat, payload, header ::
          |k.seal(pn, header, payload)| == |payload| + TAG_LEN &&
          k.open(pn, header, k.seal(pn, header, payload)) == Ok(payload))
    && (forall sample :: |sample| == SAMPLE_LEN ==> |k.mask(sample)| == SAMPLE_LEN)
  }

  // ---------------------------------------------------------------- exclusive or

  lemma PowersOfTwo()
    ensures Pow2(4) == 16 && Pow2(5) == 32 && Pow2(8) == 256
  {
    assert Pow2(2) == 4 && Pow2(3) == 8 && Pow2(4) == 16 && Pow2(5) == 32 && Pow2(6) == 64 && Pow2(7) == 128;
  }

  function Xor(a: byte, b: byte): byte {
    XorBound(8, a, b);
    PowersOfTwo();
    XorBits(8, a, b)
  }

  lemma XorIsInvolution(a: byte, b: byte)
    ensures Xor(Xor(a, b), b) == a
  {
    hide XorBits;
    PowersOfTwo();
    XorTwice(8, a, b);
  }

  function MaskedBits(long: bool): nat {
    if long then 4 else 5
  }

  /** The low bits of the first octet that are masked: those of 0x0f in a long header, of 0x1f in a short one. */
  function XorLow(a: nat, m: nat, long: bool): (x: nat)
    ensures x < if long then 16 else 32
  {
    PowersOfTwo();
    XorBound(MaskedBits(long), a, m);
    XorBits(MaskedBits(long), a, m)
  }

  /** a ^ (m & 0x0f), or a ^ (m & 0x1f): the high bits stay. */
  function XorFirst(a: byte, m: byte, long: bool): byte {
    if long then a / 16 * 16 + XorLow(a % 16, m % 16, long) else a / 32 * 32 + XorLow(a % 32, m % 32, long)
  }

  lemma XorLowIsInvolution(a: nat, m: nat, long: bool)
    requires a < if long then 16 else 32
    ensures XorLow(XorLow(a, m, long), m, long) == a
  {
    hide XorBits;
    PowersOfTwo();
    XorTwice(MaskedBits(long), a, m);
  }

  lemma XorFirstIsInvolution(a: byte, m: byte, long: bool)
    ensures XorFirst(XorFirst(a, m, long), m, long) == a
    ensures XorFirst(a, m, long) / 32 == a / 32
    ensures long ==> XorFirst(a, m, long) / 16 == a / 16
  {
    hide XorLow;
    XorLowIsInvolution(if long then a % 16 else a % 32, if long then m % 16 else m % 32, long);
  }

  // ---------------------------------------------------------------- masking a packet

  /** Octet i of the packet once mask has been applied to the first octet and to pnLen octets at pnOffset. */
  function MaskedAt(b: seq<byte>, mask: seq<byte>, pnOffset: nat, pnLen: nat, long: bool, i: nat): byte
    requires i < |b| && pnLen < |mask|
  {
    if i == 0 then XorFirst(b[0], mask[0], long)
    else if pnOffset <= i < pnOffset + pnLen then Xor(b[i], mask[1 + i - pnOffset])
    else b[i]
  }

  function Masked(b: seq<byte>, mask: seq<byte>, pnOffset: nat, pnLen: nat, long: bool): (r: seq<byte>)
    requires pnLen < |mask|
    ensures |r| == |b|
  {
    seq(|b|, i requires 0 <= i < |b| => MaskedAt(b, mask, pnOffset, pnLen, long, i))
  }

  predicate Sampled(b: seq<byte>, pnOffset: nat) {
    pnOffset + 4 + SAMPLE_LEN <= |b|
  }

  function Sample(b: seq<byte>, pnOffset: nat): seq<byte>
    requires Sampled(b, pnOffset)
  {
    b[pnOffset + 4..pnOffset + 4 + SAMPLE_LEN]
  }

  function ApplyHeaderProtection(k: Keys, b: seq<byte>, pnOffset: nat, pnLen: nat, long: bool): Result<seq<byte>> {
    if pnOffset < 1 || !(1 <= pnLen <= 4) || pnOffset + pnLen > |b| then Err
    else if !Sampled(b, pnOffset) then Err
    else
      var mask := k.mask(Sample(b, pnOffset));
      if |mask| <= 4 then Err else Ok(Masked(b, mask, pnOffset, pnLen, long))
  }

  /** The unmasked packet and the packet number field. */
  datatype Unmasked = Unmasked(packet: seq<byte>, pn: nat)

  function RemoveHeaderProtection(k: Keys, b: seq<byte>, pnOffset: nat, long: bool): Result<Unmasked> {
    if pnOffset < 1 || pnOffset >= |b| || !Sampled(b, pnOffset) then Err
    else
      var mask := k.mask(Sample(b, pnOffset));
      if |mask| <= 4 then Err else
        var pnLen := XorFirst(b[0], mask[0], long) % 4 + 1;
        var packet := Masked(b, mask, pnOffset, pnLen, long);
        Ok(Unmasked(packet, FromBigEndian(packet[pnOffset..pnOffset + pnLen])))
  }

  /** The packet number field has the length that the unmasked first octet says. */
  lemma UnmaskedNumberFits(k: Keys, b: seq<byte>, pnOffset: nat, long: bool)
    requires RemoveHeaderProtection(k, b, pnOffset, long).Ok?
    ensures var r := RemoveHeaderProtection(k, b, pnOffset, long).value;
            && |r.packet| == |b| && pnOffset + 4 + SAMPLE_LEN <= |b|
            && r.pn < Pow256(r.packet[0] % 4 + 1)
  {
    var mask := k.mask(Sample(b, pnOffset));
    var pnLen := XorFirst(b[0], mask[0], long) % 4 + 1;
    var packet := Masked(b, mask, pnOffset, pnLen, long);
    FromBigEndianBound(packet[pnOffset..pnOffset + pnLen]);
    assert packet[0] == MaskedAt(b, mask, pnOffset, pnLen, long, 0);
  }

  /**
   Removing undoes applying: the sample is not touched by the mask, so the receiver computes the same mask,
   and the packet number length comes back with the first octet.
   */
  lemma RemoveUndoesApply(k: Keys, b: seq<byte>, pnOffset: nat, pnLen: nat, long: bool)
    requires Sound(k) && b != [] && b[0] % 4 + 1 == pnLen
    requires ApplyHeaderProtection(k, b, pnOffset, pnLen, long).Ok?
    ensures var p := ApplyHeaderProtection(k, b, pnOffset, pnLen, long).value;
            && RemoveHeaderProtection(k, p, pnOffset, long) ==
                 Ok(Unmasked(b, FromBigEndian(b[pnOffset..pnOffset + pnLen])))
            && p[0] / 32 == b[0] / 32 && (long ==> p[0] / 16 == b[0] / 16)
            && p[1..pnOffset] == b[1..pnOffset]
  {
    var mask := k.mask(Sample(b, pnOffset));
    var p := Masked(b, mask, pnOffset, pnLen, long);
    MaskedTwice(b, mask, pnOffset, pnLen, long);
    assert Sample(p, pnOffset) == Sample(b, pnOffset);
    XorFirstIsInvolution(b[0], mask[0], long);
  }

  lemma MaskedTwice(b: seq<byte>, mask: seq<byte>, pnOffset: nat, pnLen: nat, long: bool)
    requires pnOffset >= 1 && pnLen < |mask|
    ensures Masked(Masked(b, mask, pnOffset, pnLen, long), mask, pnOffset, pnLen, long) == b
  {
    hide Xor, XorFirst;
    var p := Masked(b, mask, pnOffset, pnLen, long);
    var r := Masked(p, mask, pnOffset, pnLen, long);
    forall i | 0 <= i < |b| ensures r[i] == b[i] {
      assert p[i] == MaskedAt(b, mask, pnOffset, pnLen, long, i);
      assert r[i] == MaskedAt(p, mask, pnOffset, pnLen, long, i);
      if i == 0 {
        XorFirstIsInvolution(b[0], mask[0], long);
      } else if pnOffset <= i < pnOffset + pnLen {
        XorIsInvolution(b[i], mask[1 + i - pnOffset]);
      }
    }
  }
}
