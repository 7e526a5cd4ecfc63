/**
 * The encrypted file format, `IV || ciphertext`, and the two byte-level
 * transforms: encryption writes the IV and then pumps the plaintext through the
 * encryptor; decryption reads one block as the IV and pumps the rest through
 * the decryptor.
 */
module Framing {
  import opened ByteSeq
  import opened Aes
  import opened Streams

  /** The bytes of an encrypted file: the raw IV, then the cipher output. */
  function Frame(iv: Iv, ciphertext: Bytes): (file: Bytes) {
    iv + ciphertext
  }

  /**
   * What decryption takes from a file: `Read` into a zeroed 16-byte buffer with
   * its count ignored, so a file shorter than one block yields its bytes
   * followed by zeros as the IV and an empty ciphertext; otherwise the first 16
   * bytes and the rest.
   */
  function SplitFrame(file: Bytes): (parts: (Iv, Bytes))
    ensures |file| >= IvBytes ==> parts.0 == file[..IvBytes] && parts.1 == file[IvBytes..]
    ensures |file| < IvBytes ==> parts.0[..|file|] == file && parts.0[|file|..] == Zeros(IvBytes - |file|)
    ensures |file| < IvBytes ==> parts.1 == []
  {
    if |file| >= IvBytes then (file[..IvBytes], file[IvBytes..])
    else (file + Zeros(IvBytes - |file|), [])
  }

  /** Splitting a framed file gives back the IV and the ciphertext. */
  lemma SplitFrameInverts(iv: Iv, ciphertext: Bytes)
    ensures SplitFrame(Frame(iv, ciphertext)) == (iv, ciphertext)
  {
    assert Frame(iv, ciphertext)[..IvBytes] == iv;
    assert Frame(iv, ciphertext)[IvBytes..] == ciphertext;
  }

  /** Every file of at least one block is the frame of its own IV and ciphertext. */
  lemma FrameInvertsSplit(file: Bytes)
    requires |file| >= IvBytes
    ensures Frame(SplitFrame(file).0, SplitFrame(file).1) == file
  {
  }

  /** The contents `EncryptFile` writes for `plain`. */
  function EncryptedImage(c: Cipher, key: Bytes, iv: Iv, plain: Bytes): (file: Bytes) {
    Frame(iv, c.encrypt(key, iv, plain))
  }

  /** The contents `DecryptFile` writes for `file`. */
  function DecryptedImage(c: Cipher, key: Bytes, file: Bytes): (plain: Bytes) {
    var (iv, ciphertext) := SplitFrame(file);
    c.decrypt(key, iv, ciphertext)
  }

  /** With a legal key and an inverse cipher pair, decrypting the encrypted image restores the plaintext. */
  lemma DecryptedImageInverts(c: Cipher, key: Bytes, iv: Iv, plain: Bytes)
    requires Inverse(c) && LegalKeyLength(|key|)
    ensures DecryptedImage(c, key, EncryptedImage(c, key, iv, plain)) == plain
  {
    SplitFrameInverts(iv, c.encrypt(key, iv, plain));
  }

  /**
   * The body of `EncryptFile` once its streams are open: the IV is written to
   * the output first, the input is copied through the encryptor in chunks, and
   * disposing the `CryptoStream` appends the encryptor's output. The result is
   * the IV followed by the encryption of the whole input, whatever the chunking.
   */
  method EncryptStream(c: Cipher, key: Bytes, iv: Iv, input: Bytes) returns (output: Bytes, chunks: seq<Bytes>)
    ensures |output| >= IvBytes && output[..IvBytes] == iv
    ensures output[IvBytes..] == c.encrypt(key, iv, input)
    ensures Flatten(chunks) == input
    ensures forall i | 0 <= i < |chunks| :: 0 < |chunks[i]| <= BufferSize
    ensures forall i | 0 <= i < |chunks| - 1 :: |chunks[i]| == BufferSize
  {
    output := iv;
    var rest;
    chunks, rest := Pump(FileReader(input, 0));
    assert input[0..] == input;
    output := output + c.encrypt(key, iv, Flatten(chunks));
  }

  /**
   * The body of `DecryptFile` once its streams are open: one `Read` of 16 bytes
   * into a zeroed buffer whose count is ignored becomes the IV, and the rest of
   * the input is copied through the decryptor in chunks.
   */
  method DecryptStream(c: Cipher, key: Bytes, input: Bytes) returns (output: Bytes, iv: Iv, chunks: seq<Bytes>)
    ensures (iv, Flatten(chunks)) == SplitFrame(input)
    ensures Flatten(chunks) == input[Min(IvBytes, |input|)..]
    ensures output == c.decrypt(key, iv, Flatten(chunks))
    ensures forall i | 0 <= i < |chunks| :: 0 < |chunks[i]| <= BufferSize
    ensures forall i | 0 <= i < |chunks| - 1 :: |chunks[i]| == BufferSize
  {
    var ivBuffer := new Byte[IvBytes](_ => 0);
    assert ivBuffer[..] == Zeros(IvBytes);
    var _, reader := Read(FileReader(input, 0), ivBuffer);
    iv := ivBuffer[..];
    var rest;
    chunks, rest := Pump(reader);
    if |input| < IvBytes {
      assert iv[..|input|] == input;
      assert iv[|input|..] == Zeros(IvBytes - |input|);
      assert iv == iv[..|input|] + iv[|input|..];
    } else {
      assert iv == input[..IvBytes];
    }
    output := c.decrypt(key, iv, Flatten(chunks));
  }
}
