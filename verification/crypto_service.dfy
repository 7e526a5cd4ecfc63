/**
 * `CryptoService`: the same encryption and decryption as the static methods of
 * `Program`, with the key adjusted once, in the constructor, and kept in the
 * `readonly` field `_key`.
 */
module Service {
  import opened ByteSeq
  import opened Wrappers
  import opened Aes
  import opened KeySize
  import opened Framing
  import opened FileCrypto

  /** The state of an instance: its `_key`. */
  datatype ServiceState = ServiceState(key: Bytes)

  /** An instance as the constructor leaves it: `_key` always holds a 16-byte key. */
  type CryptoService = s: ServiceState | |s.key| == KeyBytes witness ServiceState(Zeros(KeyBytes))

  /** `new CryptoService(key)`: stores the adjusted key, a legal 16-byte AES key. */
  function Create(key: Bytes): (s: CryptoService)
    ensures |s.key| == KeyBytes && LegalKeyLength(|s.key|)
    ensures s.key == AdjustKeySize(key)
  {
    ServiceState(AdjustKeySize(key))
  }

  /**
   * `EncryptFile(inputFile, outputFile)`: the static `EncryptFile` with the
   * stored key, which therefore fails only for a missing input.
   */
  method EncryptFile(svc: CryptoService, c: Cipher, fs: FileSystem, inputFile: Path, outputFile: Path, iv: Iv)
    returns (r: Result<FileSystem, CryptoError>)
    requires inputFile != outputFile
    ensures r == EncryptFileSpec(c, fs, inputFile, outputFile, svc.key, iv)
    ensures r.Failure? <==> inputFile !in fs
    ensures r.Failure? ==> r == Failure(FileNotFound(inputFile))
  {
    r := FileCrypto.EncryptFile(c, fs, inputFile, outputFile, svc.key, iv);
  }

  /** `DecryptFile(inputFile, outputFile)`: the static `DecryptFile` with the stored key. */
  method DecryptFile(svc: CryptoService, c: Cipher, fs: FileSystem, inputFile: Path, outputFile: Path)
    returns (r: Result<FileSystem, CryptoError>)
    requires inputFile != outputFile
    ensures r == DecryptFileSpec(c, fs, inputFile, outputFile, svc.key)
    ensures r.Failure? <==> inputFile !in fs
    ensures r.Failure? ==> r == Failure(FileNotFound(inputFile))
  {
    r := FileCrypto.DecryptFile(c, fs, inputFile, outputFile, svc.key);
  }

  /**
   * One instance encrypts a file and decrypts the result back: the encrypted
   * file is the IV followed by the encryption of the original under the stored
   * key, the decrypted file equals the original, and no other file changes.
   */
  method EncryptThenDecrypt(svc: CryptoService, c: Cipher, fs: FileSystem, plainFile: Path, encFile: Path, outFile: Path, iv: Iv)
    returns (r: Result<FileSystem, CryptoError>)
    requires Inverse(c)
    requires plainFile != encFile && encFile != outFile
    ensures r.Failure? <==> plainFile !in fs
    ensures r.Failure? ==> r == Failure(FileNotFound(plainFile))
    ensures r.Success? ==>
      && r.value.Keys == fs.Keys + {encFile, outFile}
      && |r.value[encFile]| >= IvBytes
      && r.value[encFile][..IvBytes] == iv
      && r.value[encFile][IvBytes..] == c.encrypt(svc.key, iv, fs[plainFile])
      && r.value[outFile] == fs[plainFile]
      && (forall p | p in fs && p != encFile && p != outFile :: r.value[p] == fs[p])
  {
    var encrypted := EncryptFile(svc, c, fs, plainFile, encFile, iv);
    if encrypted.Failure? {
      return encrypted;
    }
    FileCrypto.EncryptThenDecrypt(c, fs, plainFile, encFile, outFile, svc.key, iv);
    r := DecryptFile(svc, c, encrypted.value, encFile, outFile);
  }
}
