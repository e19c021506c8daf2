/** Types shared by every module of the model. */
module Common {

  /** An octet on the wire or in a stream. */
  type byte = b: nat | b < 256

  datatype Option<+T> = None | Some(value: T)

  /** The source's `(value, error)` returns; error texts are not modelled. */
  datatype Result<+T> = Ok(value: T) | Err

  /** protocol.MaxByteCount */
  const MAX_BYTE_COUNT: nat := 0x3FFF_FFFF_FFFF_FFFF

  function Min(a: int, b: int): int { if a <= b then a else b }

  function Max(a: int, b: int): int { if a >= b then a else b }

  lemma SliceOfSlice<T>(s: seq<T>, a: nat, b: nat, lo: nat, hi: nat)
    requires a <= b <= |s| && lo <= hi <= b - a
    ensures s[a..b][lo..hi] == s[a + lo..a + hi]
  {
    var t := s[a..b];
    var u, v := t[lo..hi], s[a + lo..a + hi];
    forall i | 0 <= i < |u| ensures u[i] == v[i] {
      assert u[i] == t[lo + i] == s[a + lo + i];
    }
  }

  lemma HasElement(s: set<int>)
    ensures s == {} || exists x :: x in s
  {
    if forall x :: x !in s {
      assert s == {};
    }
  }
}
