/**
 * `AdjustKeySize`: the lossy, deterministic map from any key to a key of the
 * smallest legal AES size. It appears twice in the program, as a static method of
 * `Program` and as a private static method of `CryptoService`, with the same body;
 * it is defined once here.
 */
module KeySize {
  import opened ByteSeq
  import opened Wrappers
  import opened Aes

  /** `validKeySize / 8`: the length of every adjusted key. */
  const KeyBytes: nat := MinKeySizeBits / 8

  /**
   * `Buffer.BlockCopy(src, srcOffset, dst, dstOffset, count)` on byte arrays: the
   * `count` bytes at `srcOffset` replace those at `dstOffset`; nothing else changes.
   */
  function BlockCopy(src: Bytes, srcOffset: nat, dst: Bytes, dstOffset: nat, count: nat): (r: Bytes)
    requires srcOffset + count <= |src| && dstOffset + count <= |dst|
    ensures |r| == |dst|
    ensures forall i | 0 <= i < |r| ::
      r[i] == if dstOffset <= i < dstOffset + count then src[srcOffset + i - dstOffset] else dst[i]
  {
    dst[..dstOffset] + src[srcOffset..srcOffset + count] + dst[dstOffset + count..]
  }

  /**
   * A key shorter than 16 bytes is right-aligned in 16 zero bytes, a longer one
   * is cut to its first 16 bytes, and a 16-byte key is returned as is.
   */
  function AdjustKeySize(key: Bytes): (r: Bytes)
    ensures |r| == KeyBytes
    ensures LegalKeyLength(|r|)
    ensures |key| < KeyBytes ==>
      (forall i | 0 <= i < KeyBytes - |key| :: r[i] == 0) &&
      (forall i | 0 <= i < |key| :: r[KeyBytes - |key| + i] == key[i])
    ensures |key| >= KeyBytes ==> r == key[..KeyBytes]
  {
    if |key| * 8 < MinKeySizeBits then
      var bytesToAdd := MinKeySizeBits / 8 - |key|;
      BlockCopy(key, 0, Zeros(MinKeySizeBits / 8), bytesToAdd, |key|)
    else if |key| * 8 > MinKeySizeBits then
      BlockCopy(key, 0, Zeros(MinKeySizeBits / 8), 0, MinKeySizeBits / 8)
    else
      key
  }

  /** The short-key result is exactly the zero padding followed by the key. */
  lemma ShortKeyIsPaddedOnTheLeft(key: Bytes)
    requires |key| < KeyBytes
    ensures AdjustKeySize(key) == Zeros(KeyBytes - |key|) + key
  {
    var r := AdjustKeySize(key);
    var z := Zeros(KeyBytes - |key|) + key;
    assert |r| == |z|;
    forall i | 0 <= i < |r|
      ensures r[i] == z[i]
    {
      if i >= KeyBytes - |key| {
        assert r[KeyBytes - |key| + (i - (KeyBytes - |key|))] == key[i - (KeyBytes - |key|)];
      }
    }
  }

  /** Adjusting twice is adjusting once: an adjusted key is a 16-byte key, which is left alone. */
  lemma AdjustIdempotent(key: Bytes)
    ensures AdjustKeySize(AdjustKeySize(key)) == AdjustKeySize(key)
  {
  }

  /** The keys `AdjustKeySize` leaves unchanged are exactly the 16-byte keys, so every 16-byte key is reachable. */
  lemma FixedPointsAreSixteenByteKeys(key: Bytes)
    ensures AdjustKeySize(key) == key <==> |key| == KeyBytes
  {
  }

  /** Two keys of 16 bytes or more collide exactly when their first 16 bytes agree. */
  lemma LongKeysCollideIffSamePrefix(a: Bytes, b: Bytes)
    requires |a| >= KeyBytes && |b| >= KeyBytes
    ensures AdjustKeySize(a) == AdjustKeySize(b) <==> a[..KeyBytes] == b[..KeyBytes]
  {
  }

  /** Among keys of one length up to 16 bytes, adjustment loses nothing. */
  lemma SameLengthShortKeysDistinct(a: Bytes, b: Bytes)
    requires |a| == |b| <= KeyBytes
    ensures AdjustKeySize(a) == AdjustKeySize(b) <==> a == b
  {
    if AdjustKeySize(a) == AdjustKeySize(b) && |a| < KeyBytes {
      forall i | 0 <= i < |a|
        ensures a[i] == b[i]
      {
        assert AdjustKeySize(a)[KeyBytes - |a| + i] == a[i];
        assert AdjustKeySize(b)[KeyBytes - |b| + i] == b[i];
      }
    }
  }

  /** A leading zero byte is invisible: a short key and the same key with a zero in front collide. */
  lemma LeadingZeroCollides(key: Bytes)
    requires |key| < KeyBytes
    ensures AdjustKeySize([0] + key) == AdjustKeySize(key)
  {
    ShortKeyIsPaddedOnTheLeft(key);
    if |[0] + key| < KeyBytes {
      ShortKeyIsPaddedOnTheLeft([0] + key);
      assert Zeros(KeyBytes - |key| - 1) + ([0] + key) == (Zeros(KeyBytes - |key| - 1) + [0]) + key;
      ZerosAppend(KeyBytes - |key| - 1);
    } else {
      assert ([0] + key)[..KeyBytes] == [0] + key;
    }
  }

  // ---------------------------------------------------------------------------
  // The code as written computes `key.Length * 8` in 32-bit signed arithmetic.

  const Int32Modulus: int := 0x1_0000_0000

  /** Two's-complement wrap-around of a C# `int` product. */
  function WrapInt32(x: int): (w: int)
    ensures -0x8000_0000 <= w < 0x8000_0000
    ensures (w - x) % Int32Modulus == 0
  {
    var m := x % Int32Modulus;
    if m >= 0x8000_0000 then m - Int32Modulus else m
  }

  datatype KeyError = ArgumentOutOfRange

  /**
   * `AdjustKeySize` with the C# `int` arithmetic of its guards: the length
   * tests use `key.Length * 8` wrapped to 32 bits, and `Buffer.BlockCopy` throws
   * when the computed destination offset is negative.
   */
  function AdjustKeySizeInt32(key: Bytes): (r: Result<Bytes, KeyError>)
    requires |key| < 0x8000_0000
    ensures r.Success? ==> |r.value| == KeyBytes || r.value == key
  {
    var bits := WrapInt32(|key| * 8);
    if bits < MinKeySizeBits then
      var bytesToAdd := MinKeySizeBits / 8 - |key|;
      if bytesToAdd < 0 then Failure(ArgumentOutOfRange)
      else Success(BlockCopy(key, 0, Zeros(MinKeySizeBits / 8), bytesToAdd, |key|))
    else if bits > MinKeySizeBits then
      Success(BlockCopy(key, 0, Zeros(MinKeySizeBits / 8), 0, MinKeySizeBits / 8))
    else
      Success(key)
  }

  /** Below 2^28 bytes the product does not wrap and the code agrees with `AdjustKeySize`. */
  lemma Int32AgreesBelowWrap(key: Bytes)
    requires |key| < 0x1000_0000
    ensures AdjustKeySizeInt32(key) == Success(AdjustKeySize(key))
  {
  }

  /** A key of 2^28 bytes makes `key.Length * 8` negative: the short-key branch runs and throws. */
  lemma Int32WrapThrows(key: Bytes)
    requires |key| == 0x1000_0000
    ensures AdjustKeySizeInt32(key).Failure?
  {
    assert WrapInt32(|key| * 8) == -0x8000_0000;
  }

  /** A key of 2^29 + 16 bytes wraps to exactly 128 bits and is returned unadjusted, at an illegal length. */
  lemma Int32WrapKeepsIllegalKey(key: Bytes)
    requires |key| == 0x2000_0010
    ensures AdjustKeySizeInt32(key) == Success(key)
    ensures !LegalKeyLength(|key|)
  {
    assert WrapInt32(|key| * 8) == 128;
  }
}
