/** Big-endian numbers, which every field of the packet codec is made of. */
module Octets {
  import opened Common

  function Pow256(n: nat): (p: nat)
    ensures p > 0
  {
    if n == 0 then 1 else 256 * Pow256(n - 1)
  }

  /** The low n octets of v, most significant first. */
  function BigEndian(v: nat, n: nat): (r: seq<byte>)
    ensures |r| == n
  {
    if n == 0 then [] else BigEndian(v / 256, n - 1) + [v % 256]
  }

  function FromBigEndian(b: seq<byte>): nat {
    if b == [] then 0 else 256 * FromBigEndian(b[..|b| - 1]) + b[|b| - 1]
  }

  lemma {:induction false} FromBigEndianBound(b: seq<byte>)
    ensures FromBigEndian(b) < Pow256(|b|)
  {
    if b != [] {
      FromBigEndianBound(b[..|b| - 1]);
    }
  }

  /** Reading back n octets of v gives v, if n octets are enough. */
  lemma {:induction false} FromToBigEndian(v: nat, n: nat)
    requires v < Pow256(n)
    ensures FromBigEndian(BigEndian(v, n)) == v
  {
    if n > 0 {
      FromToBigEndian(v / 256, n - 1);
      assert BigEndian(v, n)[..n - 1] == BigEndian(v / 256, n - 1);
    }
  }

  /** Octets are determined by the number they stand for. */
  lemma {:induction false} ToFromBigEndian(b: seq<byte>)
    ensures BigEndian(FromBigEndian(b), |b|) == b
  {
    if b != [] {
      var rest := b[..|b| - 1];
      ToFromBigEndian(rest);
      var v := FromBigEndian(b);
      assert v / 256 == FromBigEndian(rest) && v % 256 == b[|b| - 1];
    }
  }

  /** The loop that all readers of the codec use. */
  method ReadBigEndian(b: seq<byte>) returns (v: nat)
    ensures v == FromBigEndian(b)
  {
    v := 0;
    for i := 0 to |b|
      invariant v == FromBigEndian(b[..i])
    {
      assert b[..i + 1][..i] == b[..i];
      v := 256 * v + b[i];
    }
    assert b[..|b|] == b;
  }
}
