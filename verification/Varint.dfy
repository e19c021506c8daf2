/** Variable-length integers (section 16 of RFC 9000), in their shortest form only. */
module Varint {
  import opened Common
  import opened Octets

  const MAX_VARINT: nat := 0x3FFF_FFFF_FFFF_FFFF
  const MAX_VARINT_1: nat := 63
  const MAX_VARINT_2: nat := 16383
  const MAX_VARINT_4: nat := 1073741823

  /** The number of octets of the shortest encoding. */
  function VarintLen(v: nat): nat {
    if v <= MAX_VARINT_1 then 1 else if v <= MAX_VARINT_2 then 2 else if v <= MAX_VARINT_4 then 4 else 8
  }

  /** The octets as the source writes them, case by case. */
  function Encoding(v: nat): seq<byte>
    requires v <= MAX_VARINT
  {
    if v <= MAX_VARINT_1 then [v]
    else if v <= MAX_VARINT_2 then [v / 0x100 + 0x40, v % 0x100]
    else if v <= MAX_VARINT_4 then
      [v / 0x100_0000 + 0x80, v / 0x1_0000 % 0x100, v / 0x100 % 0x100, v % 0x100]
    else
      [v / 0x100_0000_0000_0000 + 0xC0, v / 0x1_0000_0000_0000 % 0x100,
       v / 0x100_0000_0000 % 0x100, v / 0x1_0000_0000 % 0x100,
       v / 0x100_0000 % 0x100, v / 0x1_0000 % 0x100, v / 0x100 % 0x100, v % 0x100]
  }

  function LengthOf(first: byte): nat {
    if first < 0x40 then 1 else if first < 0x80 then 2 else if first < 0xC0 then 4 else 8
  }

  /** A value and the number of octets it took. */
  datatype Read = Read(value: nat, n: nat)

  function ReadVarint(b: seq<byte>): Result<Read> {
    if |b| == 0 then Err else
      var length := LengthOf(b[0]);
      if |b| < length then Err else
        var v := FromBigEndian([b[0] % 0x40] + b[1..length]);
        if VarintLen(v) < length then Err else Ok(Read(v, length))
  }

  /** What the length bits add to the first octet of an encoding of n octets. */
  function LengthBits(n: nat): nat {
    if n == 1 then 0 else if n == 2 then 0x40 else if n == 4 then 0x80 else 0xC0
  }

  lemma Octets2(v: nat)
    ensures BigEndian(v, 2) == [v / 0x100 % 0x100, v % 0x100]
  {
    assert BigEndian(v / 0x100, 1) == [v / 0x100 % 0x100];
  }

  lemma Octets4(v: nat)
    ensures BigEndian(v, 4) == [v / 0x100_0000 % 0x100, v / 0x1_0000 % 0x100, v / 0x100 % 0x100, v % 0x100]
  {
    var w := v / 0x1_0000;
    Octets2(w);
    assert v / 0x100 / 0x100 == w && w / 0x100 == v / 0x100_0000;
    assert BigEndian(v, 4) == BigEndian(v / 0x100, 3) + [v % 0x100];
    assert BigEndian(v / 0x100, 3) == BigEndian(w, 2) + [v / 0x100 % 0x100];
  }

  lemma BigEndianSplit4(v: nat)
    ensures BigEndian(v, 8) == BigEndian(v / 0x1_0000_0000, 4) + BigEndian(v, 4)
  {
    var a, b, c, d := v / 0x100, v / 0x1_0000, v / 0x100_0000, v / 0x1_0000_0000;
    assert a / 0x100 == b && b / 0x100 == c && c / 0x100 == d;
    assert BigEndian(v, 8) == BigEndian(d, 4) + [c % 0x100] + [b % 0x100] + [a % 0x100] + [v % 0x100] by {
      assert BigEndian(v, 8) == BigEndian(a, 7) + [v % 0x100];
      assert BigEndian(a, 7) == BigEndian(b, 6) + [a % 0x100];
      assert BigEndian(b, 6) == BigEndian(c, 5) + [b % 0x100];
      assert BigEndian(c, 5) == BigEndian(d, 4) + [c % 0x100];
    }
    Octets4(v);
  }

  /** The encoding of v in n octets is the plain big-endian number with the length bits on top. */
  predicate HasLengthBits(v: nat, n: nat)
    requires v <= MAX_VARINT && n > 0
  {
    var plain := BigEndian(v, n);
    plain[0] < 0x40 && Encoding(v) == [plain[0] + LengthBits(n)] + plain[1..]
  }

  lemma HighHalf(v: nat)
    ensures var high := v / 0x1_0000_0000;
            && high / 0x100_0000 == v / 0x100_0000_0000_0000
            && high / 0x1_0000 == v / 0x1_0000_0000_0000
            && high / 0x100 == v / 0x100_0000_0000
  {
  }

  lemma Octets8(v: nat)
    ensures BigEndian(v, 8) ==
            [v / 0x100_0000_0000_0000 % 0x100, v / 0x1_0000_0000_0000 % 0x100,
             v / 0x100_0000_0000 % 0x100, v / 0x1_0000_0000 % 0x100,
             v / 0x100_0000 % 0x100, v / 0x1_0000 % 0x100, v / 0x100 % 0x100, v % 0x100]
  {
    hide BigEndian;
    BigEndianSplit4(v);
    Octets4(v);
    Octets4(v / 0x1_0000_0000);
    HighHalf(v);
  }

  lemma Encoding8(v: nat)
    requires MAX_VARINT_4 < v <= MAX_VARINT
    ensures HasLengthBits(v, 8)
  {
    hide BigEndian;
    Octets8(v);
    assert v / 0x100_0000_0000_0000 < 0x40;
  }

  lemma Encoding4(v: nat)
    requires MAX_VARINT_2 < v <= MAX_VARINT_4
    ensures HasLengthBits(v, 4)
  {
    Octets4(v);
  }

  lemma Encoding2(v: nat)
    requires MAX_VARINT_1 < v <= MAX_VARINT_2
    ensures HasLengthBits(v, 2)
  {
    Octets2(v);
  }

  lemma EncodingIsBigEndian(v: nat)
    requires v <= MAX_VARINT
    ensures HasLengthBits(v, VarintLen(v))
  {
    hide HasLengthBits;
    if v <= MAX_VARINT_1 {
      Encoding1(v);
    } else if v <= MAX_VARINT_2 {
      Encoding2(v);
    } else if v <= MAX_VARINT_4 {
      Encoding4(v);
    } else {
      Encoding8(v);
    }
  }

  lemma Encoding1(v: nat)
    requires v <= MAX_VARINT_1
    ensures HasLengthBits(v, 1)
  {
    assert BigEndian(v, 1) == [v];
  }

  lemma PowBounds(n: nat)
    requires n == 1 || n == 2 || n == 4 || n == 8
    ensures n == 1 ==> 64 * Pow256(n - 1) == MAX_VARINT_1 + 1
    ensures n == 2 ==> 64 * Pow256(n - 1) == MAX_VARINT_2 + 1
    ensures n == 4 ==> 64 * Pow256(n - 1) == MAX_VARINT_4 + 1
    ensures n == 8 ==> 64 * Pow256(n - 1) == MAX_VARINT + 1
  {
    assert Pow256(3) == 0x100_0000;
    assert Pow256(7) == 0x100_0000 * 0x1_0000_0000 by {
      assert Pow256(7) == 256 * Pow256(6) && Pow256(6) == 256 * Pow256(5) && Pow256(5) == 256 * Pow256(4);
      assert Pow256(4) == 256 * Pow256(3);
    }
  }

  lemma PowStep(n: nat)
    requires n > 0
    ensures Pow256(n) == 256 * Pow256(n - 1)
  {
  }

  lemma {:induction false} FirstOctet(b: seq<byte>)
    requires b != [] && b[0] < 0x40
    ensures FromBigEndian(b) < 64 * Pow256(|b| - 1)
  {
    if |b| == 1 {
      assert b[..0] == [];
    } else {
      FirstOctet(b[..|b| - 1]);
    }
  }

  /** Every value up to MAX_VARINT is read back from its encoding, whatever follows. */
  lemma ReadAfterAppend(v: nat, rest: seq<byte>)
    requires v <= MAX_VARINT
    ensures |Encoding(v)| == VarintLen(v)
    ensures ReadVarint(Encoding(v) + rest) == Ok(Read(v, VarintLen(v)))
  {
    hide Encoding, FromBigEndian, BigEndian, Pow256;
    var n := VarintLen(v);
    var plain, b := BigEndian(v, n), Encoding(v) + rest;
    EncodingIsBigEndian(v);
    PowBounds(n);
    assert v < Pow256(n) by { PowStep(n); }
    FromToBigEndian(v, n);
    assert LengthOf(b[0]) == n && b[0] % 0x40 == plain[0];
    assert [b[0] % 0x40] + b[1..n] == plain;
  }

  /** Encodings are unique: whatever is accepted is the encoding of its value, octet for octet. */
  lemma AcceptedIsEncoding(b: seq<byte>)
    requires ReadVarint(b).Ok?
    ensures var r := ReadVarint(b).value;
            r.value <= MAX_VARINT && r.n == VarintLen(r.value) && r.n <= |b| && b[..r.n] == Encoding(r.value)
  {
    hide Encoding, FromBigEndian, BigEndian, Pow256;
    var n := LengthOf(b[0]);
    var plain := [b[0] % 0x40] + b[1..n];
    var v := FromBigEndian(plain);
    FirstOctet(plain);
    PowBounds(n);
    assert VarintLen(v) == n;
    ToFromBigEndian(plain);
    EncodingIsBigEndian(v);
    assert b[0] == b[0] % 0x40 + LengthBits(n);
    assert b[..n] == [b[0]] + b[1..n];
  }

  /** The loop of the source. */
  method ReadVarintOctets(b: seq<byte>) returns (r: Result<Read>)
    ensures r == ReadVarint(b)
  {
    if |b| == 0 {
      return Err;
    }
    var length := LengthOf(b[0]);
    if |b| < length {
      return Err;
    }
    var v: nat := b[0] % 0x40;
    ghost var masked := [b[0] % 0x40] + b[1..length];
    assert masked[..1] == [b[0] % 0x40];
    for i := 1 to length
      invariant v == FromBigEndian(masked[..i])
    {
      assert masked[..i + 1][..i] == masked[..i] && masked[i] == b[i];
      v := 256 * v + b[i];
    }
    assert masked[..length] == masked;
    if VarintLen(v) < length {
      return Err;
    }
    return Ok(Read(v, length));
  }
}
