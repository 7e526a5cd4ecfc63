/**
 * The parts of .NET's `Aes` the program relies on: its legal key sizes, its
 * 128-bit block (and hence IV) size, and the CFB/PKCS#7 transform, which is
 * kept abstract.
 */
module Aes {
  import opened ByteSeq

  /** `Aes.LegalKeySizes[0]`: 128 to 256 bits in steps of 64 (AES, FIPS 197 section 5). */
  const MinKeySizeBits: nat := 128
  const MaxKeySizeBits: nat := 256
  const KeySizeStepBits: nat := 64

  /** `BlockSize = 128`; the IV is one block. */
  const BlockSizeBits: nat := 128
  const IvBytes: nat := BlockSizeBits / 8

  /** A key length, in bytes, that the `Aes.Key` setter accepts (16, 24 or 32). */
  predicate LegalKeyLength(n: nat) {
    var bits := n * 8;
    MinKeySizeBits <= bits <= MaxKeySizeBits && (bits - MinKeySizeBits) % KeySizeStepBits == 0
  }

  /** An initialisation vector as `GenerateIV` produces it: exactly one block. */
  type Iv = s: Bytes | |s| == IvBytes witness Zeros(IvBytes)

  /**
   * The encryptor/decryptor pair a `CryptoStream` applies, as functions of the
   * key, the IV and the whole byte stream written to it. AES internals, CFB
   * feedback and PKCS#7 padding are not modelled.
   */
  datatype Cipher = Cipher(encrypt: (Bytes, Bytes, Bytes) -> Bytes, decrypt: (Bytes, Bytes, Bytes) -> Bytes)

  /** The one fact assumed of the cipher: with a legal key and a one-block IV, decryption undoes encryption. */
  ghost predicate Inverse(c: Cipher) {
    forall key: Bytes, iv: Bytes, p: Bytes | LegalKeyLength(|key|) && |iv| == IvBytes ::
      c.decrypt(key, iv, c.encrypt(key, iv, p)) == p
  }
}
