/**
 * `EncryptFile` and `DecryptFile` over a file system: set the AES key (which
 * throws for an illegal length), open the input (which throws when it does not
 * exist), create or truncate the output, and run the byte-level transform.
 * Both the static methods of `Program` and the methods of `CryptoService` are
 * this one definition.
 */
module FileCrypto {
  import opened ByteSeq
  import opened Wrappers
  import opened Aes
  import opened Framing

  type Path = string

  /** The files the program can see, by path. */
  type FileSystem = map<Path, Bytes>

  /** The exceptions the two operations can raise. */
  datatype CryptoError =
    | KeyInvalid               // `aesAlg.Key = key` with an illegal key length
    | FileNotFound(path: Path) // `new FileStream(inputFile, FileMode.Open, ...)`

  /**
   * The outcome of `EncryptFile(inputFile, outputFile, key)` when `GenerateIV`
   * yields `iv`. It fails exactly for an illegal key (checked first) or a
   * missing input; on success the output file is the IV followed by the
   * encryption of the input, it is the only file written, and every other file
   * is unchanged.
   */
  function EncryptFileSpec(c: Cipher, fs: FileSystem, inputFile: Path, outputFile: Path, key: Bytes, iv: Iv)
    : (r: Result<FileSystem, CryptoError>)
    ensures r.Failure? <==> !LegalKeyLength(|key|) || inputFile !in fs
    ensures !LegalKeyLength(|key|) ==> r == Failure(KeyInvalid)
    ensures LegalKeyLength(|key|) && inputFile !in fs ==> r == Failure(FileNotFound(inputFile))
    ensures r.Success? ==>
      && r.value.Keys == fs.Keys + {outputFile}
      && |r.value[outputFile]| >= IvBytes
      && r.value[outputFile][..IvBytes] == iv
      && r.value[outputFile][IvBytes..] == c.encrypt(key, iv, fs[inputFile])
      && SplitFrame(r.value[outputFile]) == (iv, c.encrypt(key, iv, fs[inputFile]))
      && (forall p | p in fs && p != outputFile :: r.value[p] == fs[p])
  {
    if !LegalKeyLength(|key|) then Failure(KeyInvalid)
    else if inputFile !in fs then Failure(FileNotFound(inputFile))
    else
      SplitFrameInverts(iv, c.encrypt(key, iv, fs[inputFile]));
      Success(fs[outputFile := EncryptedImage(c, key, iv, fs[inputFile])])
  }

  /**
   * The outcome of `DecryptFile(inputFile, outputFile, key)`. It fails exactly
   * for an illegal key or a missing input; on success the output holds the
   * decryption of everything after the first 16 bytes under those 16 bytes as
   * IV, and no other file changes. A file shorter than 16 bytes is not
   * rejected: its bytes, padded with zeros, become the IV of an empty ciphertext.
   */
  function DecryptFileSpec(c: Cipher, fs: FileSystem, inputFile: Path, outputFile: Path, key: Bytes)
    : (r: Result<FileSystem, CryptoError>)
    ensures r.Failure? <==> !LegalKeyLength(|key|) || inputFile !in fs
    ensures !LegalKeyLength(|key|) ==> r == Failure(KeyInvalid)
    ensures LegalKeyLength(|key|) && inputFile !in fs ==> r == Failure(FileNotFound(inputFile))
    ensures r.Success? ==>
      && r.value.Keys == fs.Keys + {outputFile}
      && (forall p | p in fs && p != outputFile :: r.value[p] == fs[p])
    ensures r.Success? && |fs[inputFile]| >= IvBytes ==>
      r.value[outputFile] == c.decrypt(key, fs[inputFile][..IvBytes], fs[inputFile][IvBytes..])
    ensures r.Success? && |fs[inputFile]| < IvBytes ==>
      r.value[outputFile] == c.decrypt(key, fs[inputFile] + Zeros(IvBytes - |fs[inputFile]|), [])
  {
    if !LegalKeyLength(|key|) then Failure(KeyInvalid)
    else if inputFile !in fs then Failure(FileNotFound(inputFile))
    else Success(fs[outputFile := DecryptedImage(c, key, fs[inputFile])])
  }

  /**
   * Encrypting a file and then decrypting the result with the same legal key
   * reproduces the original contents, and the decrypted file is the only other
   * file touched.
   */
  lemma EncryptThenDecrypt(c: Cipher, fs: FileSystem, plainFile: Path, encFile: Path, outFile: Path, key: Bytes, iv: Iv)
    requires Inverse(c) && LegalKeyLength(|key|)
    requires plainFile in fs
    ensures EncryptFileSpec(c, fs, plainFile, encFile, key, iv).Success?
    ensures var e := EncryptFileSpec(c, fs, plainFile, encFile, key, iv).value;
      var d := DecryptFileSpec(c, e, encFile, outFile, key);
      d.Success? && d.value[outFile] == fs[plainFile]
  {
    DecryptedImageInverts(c, key, iv, fs[plainFile]);
  }

  /**
   * `EncryptFile`. The key is set before any file is opened, so an illegal key
   * wins over a missing input. Opening the same path for reading and for
   * writing is excluded.
   */
  method EncryptFile(c: Cipher, fs: FileSystem, inputFile: Path, outputFile: Path, key: Bytes, iv: Iv)
    returns (r: Result<FileSystem, CryptoError>)
    requires inputFile != outputFile
    ensures r == EncryptFileSpec(c, fs, inputFile, outputFile, key, iv)
  {
    if !LegalKeyLength(|key|) {
      return Failure(KeyInvalid);
    }
    if inputFile !in fs {
      return Failure(FileNotFound(inputFile));
    }
    var output, _ := EncryptStream(c, key, iv, fs[inputFile]);
    assert output == output[..IvBytes] + output[IvBytes..];
    r := Success(fs[outputFile := output]);
  }

  /** `DecryptFile`, with the same error order as `EncryptFile`. */
  method DecryptFile(c: Cipher, fs: FileSystem, inputFile: Path, outputFile: Path, key: Bytes)
    returns (r: Result<FileSystem, CryptoError>)
    requires inputFile != outputFile
    ensures r == DecryptFileSpec(c, fs, inputFile, outputFile, key)
  {
    if !LegalKeyLength(|key|) {
      return Failure(KeyInvalid);
    }
    if inputFile !in fs {
      return Failure(FileNotFound(inputFile));
    }
    var output, _, _ := DecryptStream(c, key, fs[inputFile]);
    r := Success(fs[outputFile := output]);
  }
}
