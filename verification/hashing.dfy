/** The rolling digest and the final digest comparison. SHA-1 itself is a
    parameter `sha1` of the functions that need a digest: the model relies
    only on it being a function of the bytes written since the last Reset. */
module Hashing {
  import opened Io

  type Digest = seq<Byte>

  /** A hash.Hash: since SHA-1 is incremental, its state is determined by
      the bytes written to it since it was created or last reset. */
  datatype Hasher = Hasher(fed: seq<Byte>) {

    /** hash.Write(b), which never fails. */
    function Write(b: seq<Byte>): Hasher {
      Hasher(fed + b)
    }

    /** hash.Reset(). */
    function Reset(): Hasher {
      Fresh
    }

    /** hash.Sum(nil). */
    function Sum(sha1: seq<Byte> -> Digest): Digest {
      sha1(fed)
    }
  }

  /** sha1.New(). */
  const Fresh: Hasher := Hasher([])

  /** The accumulator of subtle.ConstantTimeCompare over the first |x| byte
      pairs: the bitwise OR of x[i] ^ y[i]. */
  function DiffBits(x: seq<Byte>, y: seq<Byte>): bv8
    requires |x| == |y|
  {
    if |x| == 0 then 0
    else DiffBits(x[..|x| - 1], y[..|y| - 1]) | (x[|x| - 1] ^ y[|y| - 1])
  }

  /** No bit differs exactly when the sequences are equal. */
  lemma {:induction false} DiffBitsZeroIff(x: seq<Byte>, y: seq<Byte>)
    requires |x| == |y|
    ensures DiffBits(x, y) == 0 <==> x == y
  {
    if |x| > 0 {
      var k := |x| - 1;
      DiffBitsZeroIff(x[..k], y[..k]);
      assert x == x[..k] + [x[k]];
      assert y == y[..k] + [y[k]];
      if x == y {
        assert x[..k] == y[..k];
      }
    }
  }

  /** subtle.ConstantTimeCompare: 1 when the two digests are equal, 0
      otherwise, unequal lengths included. Its running time is not modelled. */
  function ConstantTimeCompare(x: Digest, y: Digest): (r: int)
    ensures r == 0 || r == 1
    ensures r == 1 <==> x == y
  {
    if |x| != |y| then 0
    else
      DiffBitsZeroIff(x, y);
      if DiffBits(x, y) == 0 then 1 else 0
  }
}
