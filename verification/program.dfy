/**
 * `Program.Main`: adjust the UTF-8 bytes of a fixed key string, encrypt
 * `original_file.txt` to `encrypted_file.bin`, then decrypt that to
 * `decrypted_file.txt`.
 */
module Program {
  import opened ByteSeq
  import opened Wrappers
  import opened Aes
  import opened KeySize
  import opened Framing
  import opened FileCrypto

  const InputFile: Path := "original_file.txt"
  const EncryptedFile: Path := "encrypted_file.bin"
  const DecryptedFile: Path := "decrypted_file.txt"
  const KeyText: string := "chave_de_criptografia"

  predicate IsAscii(s: string) {
    forall i | 0 <= i < |s| :: s[i] < 128 as char
  }

  /** `Encoding.UTF8.GetBytes` on text made only of ASCII characters: one byte per character, its code. */
  function AsciiBytes(s: string): (b: Bytes)
    requires IsAscii(s)
    ensures |b| == |s|
    ensures forall i | 0 <= i < |s| :: b[i] as int == s[i] as int
  {
    seq(|s|, i requires 0 <= i < |s| => (s[i] as int) as Byte)
  }

  /** The 21-byte example key is cut to its first 16 bytes, "chave_de_criptog". */
  lemma ExampleKeyIsTruncated()
    ensures IsAscii(KeyText)
    ensures AdjustKeySize(AsciiBytes(KeyText)) == AsciiBytes("chave_de_criptog")
  {
    assert AsciiBytes(KeyText)[..KeyBytes] == AsciiBytes(KeyText[..KeyBytes]);
    assert KeyText[..KeyBytes] == "chave_de_criptog";
  }

  /**
   * `Main`, with `iv` the IV `GenerateIV` returns. It fails only when the input
   * file is missing. Otherwise the encrypted file is the IV followed by the
   * encryption of the input under the adjusted key, the decrypted file holds
   * the original contents, and no other file changes.
   */
  method Run(c: Cipher, fs: FileSystem, iv: Iv) returns (r: Result<FileSystem, CryptoError>)
    requires Inverse(c)
    ensures r.Failure? <==> InputFile !in fs
    ensures r.Failure? ==> r == Failure(FileNotFound(InputFile))
    ensures r.Success? ==>
      && r.value.Keys == fs.Keys + {EncryptedFile, DecryptedFile}
      && |r.value[EncryptedFile]| >= IvBytes
      && r.value[EncryptedFile][..IvBytes] == iv
      && r.value[EncryptedFile][IvBytes..] == c.encrypt(AdjustKeySize(AsciiBytes(KeyText)), iv, fs[InputFile])
      && r.value[DecryptedFile] == fs[InputFile]
      && (forall p | p in fs && p != EncryptedFile && p != DecryptedFile :: r.value[p] == fs[p])
  {
    assert IsAscii(KeyText);
    var keyBytes := AdjustKeySize(AsciiBytes(KeyText));
    var encrypted := EncryptFile(c, fs, InputFile, EncryptedFile, keyBytes, iv);
    if encrypted.Failure? {
      return encrypted;
    }
    EncryptThenDecrypt(c, fs, InputFile, EncryptedFile, DecryptedFile, keyBytes, iv);
    r := DecryptFile(c, encrypted.value, EncryptedFile, DecryptedFile, keyBytes);
  }
}
