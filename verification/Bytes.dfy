// Raw memory: bytes, big-endian numbers and the cut-or-pad rule used for buffers.
module Bytes {
  newtype Byte = b: int | 0 <= b < 256

  function Pow256(width: nat): nat {
    if width == 0 then 1 else 256 * Pow256(width - 1)
  }

  // Big-endian representation of n in exactly `width` bytes (high digits are dropped).
  function ToBigEndian(n: nat, width: nat): (s: seq<Byte>)
    ensures |s| == width
  {
    if width == 0 then [] else ToBigEndian(n / 256, width - 1) + [(n % 256) as Byte]
  }

  function FromBigEndian(s: seq<Byte>): nat {
    if s == [] then 0 else 256 * FromBigEndian(s[..|s| - 1]) + s[|s| - 1] as int
  }

  lemma {:induction false} BigEndianRoundTrip(n: nat, width: nat)
    requires n < Pow256(width)
    ensures FromBigEndian(ToBigEndian(n, width)) == n
  {
    if width > 0 {
      BigEndianRoundTrip(n / 256, width - 1);
      assert ToBigEndian(n, width)[..width - 1] == ToBigEndian(n / 256, width - 1);
    }
  }

  function Zeros(n: nat): (s: seq<Byte>)
    ensures |s| == n
    ensures forall i :: 0 <= i < n ==> s[i] == 0
  {
    seq(n, _ => 0)
  }

  // `data` cut to `size` bytes, or extended to it with explicit zeros.
  function Fit(data: seq<Byte>, size: nat): (s: seq<Byte>)
    ensures |s| == size
    ensures forall i :: 0 <= i < size ==> s[i] == if i < |data| then data[i] else 0
  {
    if |data| >= size then data[..size] else data + Zeros(size - |data|)
  }
}
