/** Byte sequences: the model's `byte[]`, files and stream contents. */
module ByteSeq {

  type Byte = bv8
  type Bytes = seq<Byte>

  function Min(a: int, b: int): (m: int) {
    if a <= b then a else b
  }

  /** A freshly allocated .NET `byte[n]`: every element is zero. */
  function Zeros(n: nat): (z: Bytes)
    ensures |z| == n
    ensures forall i | 0 <= i < n :: z[i] == 0
  {
    seq(n, _ => 0 as Byte)
  }

  /** The bytes of a sequence of writes, in the order they were made. */
  function Flatten(chunks: seq<Bytes>): (s: Bytes) {
    if |chunks| == 0 then [] else Flatten(chunks[..|chunks| - 1]) + chunks[|chunks| - 1]
  }

  lemma FlattenAppend(chunks: seq<Bytes>, c: Bytes)
    ensures Flatten(chunks + [c]) == Flatten(chunks) + c
  {
    assert (chunks + [c])[..|chunks|] == chunks;
  }

  lemma ZerosAppend(n: nat)
    ensures Zeros(n) + [0] == Zeros(n + 1)
  {
  }
}
