# FileEncryptor core in Dafny

A model of the encryption core of FileEncryptor, a .NET command-line tool that
encrypts files with AES. The model covers four things:

- **Key adjustment.** `AdjustKeySize` turns any key into a 16-byte AES-128 key. It
  pads short keys on the left with zeros and cuts long keys to their first 16 bytes.
- **Encrypted-file layout.** An encrypted file is the raw 16-byte IV followed by
  the cipher output.
- **Copy loops.** `EncryptFile` and `DecryptFile` move data through the cipher
  stream 1024 bytes at a time.
- **Round trip.** `Main` encrypts a file and then decrypts the result with the
  same key. `CryptoService` does the same operations with a key adjusted once
  in its constructor.

The program holds this logic twice: as static methods of `Program` and as
methods of `CryptoService`. The model defines it once. `Program.Run` (which
models `Main`) and the `Service` module both call that one definition.

Modules, leaf first:

- `Wrappers`: `Result`, which stands for the exceptions the code throws.
- `ByteSeq`: bytes as `bv8`, zero-filled buffers, and the concatenation of
  written chunks.
- `Aes`: the legal key sizes of .NET's `Aes` (128 to 256 bits in steps of 64)
  and the 128-bit block and IV size. It also holds the cipher as a pair of
  function values `encrypt(key, iv, bytes)` and `decrypt(key, iv, bytes)`. The
  one thing assumed about them is the predicate `Inverse`: with a legal key
  and a 16-byte IV, `decrypt` undoes `encrypt`. Each round-trip result takes
  this predicate as a precondition. It is not an axiom.
- `KeySize`: `AdjustKeySize` and its properties. It also holds the version with
  C#'s 32-bit `int` arithmetic (see Findings).
- `Streams`: reading a regular file into a reused buffer, and the copy loop.
- `Framing`: the `IV || ciphertext` layout and the two transforms at the byte level.
- `FileCrypto`: `EncryptFile` and `DecryptFile` over a file system, which is a
  map from path to contents. This includes their exceptions.
- `Program`: `Main`.
- `Service`: the `CryptoService` class.

Facts about the code that shape the model:

- The cipher mode is CFB (src/CLI/Program.cs:31). It sits inside the abstract cipher.
- Decryption ignores the count returned by the `Read` of the IV
  (src/CLI/Program.cs:64-66). A file shorter than one block is therefore not
  rejected: its bytes, padded with zeros, become the IV, and the ciphertext is empty.
- The key in `Main`, `"chave_de_criptografia"`, is 21 bytes long (src/CLI/Program.cs:12).

## Model

| member | source | states |
|---|---|---|
| KeySize.AdjustKeySize | src/CLI/Program.cs:83-104 | The result is always 16 bytes long (`validKeySize / 8`), which is a legal AES key length, including for the empty key. For a short key, the leading `16 - len` bytes are zero and byte `16 - len + i` is `key[i]`. A key of 16 bytes or more gives its first 16 bytes. |
| KeySize.BlockCopy | src/CLI/Program.cs:93-99 | `Buffer.BlockCopy` into a buffer: the copied range takes the source bytes, and every other byte keeps its old value. |
| KeySize.ShortKeyIsPaddedOnTheLeft | src/CLI/Services/CryptoService.cs:68-73 | A short key gives exactly `16 - len` zero bytes followed by the key. |
| KeySize.LongKeysCollideIffSamePrefix | src/CLI/Services/CryptoService.cs:75-80 | Two keys of at least 16 bytes give the same adjusted key if and only if their first 16 bytes agree. |
| KeySize.FixedPointsAreSixteenByteKeys | src/CLI/Services/CryptoService.cs:63-83 | A key is returned unchanged if and only if it is 16 bytes long. So every 16-byte key is a possible result. |
| KeySize.AdjustIdempotent | src/CLI/Program.cs:96-103 | Adjusting an adjusted key changes nothing. |
| KeySize.SameLengthShortKeysDistinct | src/CLI/Program.cs:89-94 | Two keys of the same length, at most 16 bytes, give the same adjusted key if and only if they are equal. |
| KeySize.LeadingZeroCollides | src/CLI/Program.cs:89-94 | A short key and the same key with a zero byte in front give the same adjusted key. |
| KeySize.AdjustKeySizeInt32 | src/CLI/Program.cs:87-103 | The code as written, with `key.Length * 8` wrapped to 32 bits. On success it returns either a 16-byte key or the input unchanged. |
| KeySize.Int32AgreesBelowWrap | src/CLI/Program.cs:89-96 | For keys shorter than 2^28 bytes, the as-written code returns exactly what `AdjustKeySize` returns. |
| KeySize.Int32WrapThrows | src/CLI/Program.cs:89-93 | For a key of 2^28 bytes, the as-written code takes the short-key branch with a negative offset, and `BlockCopy` throws. |
| KeySize.Int32WrapKeepsIllegalKey | src/CLI/Program.cs:96-103 | For a key of 2^29 + 16 bytes, the as-written code returns the key unchanged, at a length AES does not accept. |
| Streams.Pump | src/CLI/Program.cs:41-47 | The copy loop writes chunks that are each 1 to 1024 bytes long. Every chunk but the last is full. The chunks, joined in order, are exactly the unread rest of the input. The loop stops only at end of file. |
| Streams.Read | src/CLI/Program.cs:44 | `FileStream.Read` on a regular file returns `min(1024, remaining)` bytes and puts them at the front of the buffer. The rest of the buffer is unchanged. |
| Framing.SplitFrame | src/CLI/Program.cs:64-66 | For a file of at least 16 bytes, the IV is the first 16 bytes and the rest is the ciphertext. A shorter file is not rejected: its bytes followed by zeros become the IV, and the ciphertext is empty. |
| Framing.SplitFrameInverts | src/CLI/Services/CryptoService.cs:27 | Splitting `IV || ciphertext` gives back that IV and that ciphertext. |
| Framing.FrameInvertsSplit | src/CLI/Services/CryptoService.cs:48-50 | Every file of at least 16 bytes equals its split parts joined back together. |
| Framing.DecryptedImageInverts | src/CLI/Program.cs:15-21 | With a legal key and an inverse cipher, decrypting the encrypted contents gives back the plaintext. |
| Framing.EncryptStream | src/CLI/Program.cs:29-47 | The output is the 16-byte IV followed by the encryption of the whole input, so the IV comes before any cipher output. The chunks fed to the encryptor are the input in order, each at most 1024 bytes. |
| Framing.DecryptStream | src/CLI/Program.cs:61-78 | The IV is the first 16 bytes, zero-padded for a short file. The decryptor receives exactly the bytes after them, in order and in chunks of at most 1024. The output is their decryption under that IV. |
| FileCrypto.EncryptFileSpec | src/CLI/Program.cs:24-50 | Encryption fails if and only if the key length is illegal or the input file is missing. An illegal key gives `KeyInvalid`; a legal key with a missing input gives `FileNotFound` of that path. On success, the output file is at least 16 bytes long: its first 16 bytes are the IV and the rest is the encryption of the input, so splitting it gives back exactly those two parts. No other file changes. |
| FileCrypto.DecryptFileSpec | src/CLI/Program.cs:52-81 | Decryption fails if and only if the key is illegal or the input is missing. An illegal key gives `KeyInvalid`; a legal key with a missing input gives `FileNotFound` of that path. On success, the output is the decryption of the input after its first 16 bytes, under those 16 bytes as IV; a short input gives the decryption of an empty ciphertext under a zero-padded IV. No other file changes. |
| FileCrypto.EncryptThenDecrypt | src/CLI/Services/CryptoService.cs:14-61 | Encrypting a file and decrypting the result with the same legal key gives back the original contents. |
| FileCrypto.EncryptFile | src/CLI/Program.cs:24-50 | The imperative encryption, with its copy loop, gives exactly the outcome `EncryptFileSpec` describes. |
| FileCrypto.DecryptFile | src/CLI/Program.cs:52-81 | The imperative decryption gives exactly the outcome `DecryptFileSpec` describes. |
| Program.AsciiBytes | src/CLI/Program.cs:15 | UTF-8 encoding of ASCII text gives one byte per character, equal to the character's code. |
| Program.ExampleKeyIsTruncated | src/CLI/Program.cs:12-15 | The example key is ASCII. It is adjusted to its first 16 bytes, `"chave_de_criptog"`. |
| Program.Run | src/CLI/Program.cs:6-22 | `Main` fails if and only if `original_file.txt` is missing, and then with `FileNotFound` of that path. Otherwise `encrypted_file.bin` is the generated IV followed by the encryption of the input under the adjusted key, and `decrypted_file.txt` holds the original contents. These two are the only files written; every other file is unchanged. |
| Service.Create | src/CLI/Services/CryptoService.cs:8-12 | The constructor stores the adjusted key, which is 16 bytes long and a legal AES key. |
| Service.EncryptFile | src/CLI/Services/CryptoService.cs:14-36 | The instance method is the static encryption with the stored key. Since that key is always legal, it fails only when the input is missing, with `FileNotFound` of that path. |
| Service.DecryptFile | src/CLI/Services/CryptoService.cs:38-61 | The instance method is the static decryption with the stored key. It fails only when the input is missing, with `FileNotFound` of that path. |
| Service.EncryptThenDecrypt | src/CLI/Services/CryptoService.cs:9-61 | One instance encrypts and then decrypts. The encrypted file is the IV followed by the encryption of the original under the stored key, and the decrypted file holds the original contents. No other file changes. |

## Left out

- AES itself, CFB feedback and PKCS#7 padding are done by .NET's `Aes` and
  `CryptoStream`. They appear only as the functions `encrypt` and `decrypt` and
  the `Inverse` predicate. Ciphertext lengths and padding errors are therefore
  not modelled. A decryption that throws, for example because of a wrong key,
  appears as some output. No padding error is modelled.
- `GenerateIV` is random. Its result is a parameter of any 16-byte value.
- Opening, creating, truncating and disposing files: files are entries of a
  map from path to contents. Only the missing-input exception is modelled.
  Other I/O failures, such as a missing output directory, are not.
- Paths are compared as strings. A file reached through two different path
  strings (`a.txt` and `./a.txt`, an absolute path, a symbolic link, a case
  variant) is not modelled, and the same string for input and output is
  excluded by a precondition. Opening one file for both reading and writing
  depends on the platform's file-sharing behaviour.
- `FileStream.Read` on a regular file is modelled as returning
  `min(count, remaining)`. Streams that return fewer bytes than available
  are not modelled.
- UTF-8 encoding is modelled only for ASCII text, which covers the key in `Main`.
- Service.Create: the constructor is modelled over the corrected `AdjustKeySize`
  (see Findings). As written, a key of 2^28 bytes makes the constructor throw,
  and a key of 2^29 + 16 bytes is stored unchanged, so every later
  `EncryptFile` and `DecryptFile` throws when it sets `aesAlg.Key`.
- Service.Create: for a 16-byte key, `AdjustKeySize` returns the caller's own
  array, and the constructor stores that array as `_key`. A later change the
  caller makes to that array changes the key the instance uses. The model holds
  `_key` as an immutable value and does not model this aliasing.
- The factories, the interfaces and `Settings` hold no logic. Batch processing,
  suffix naming, overwrite policy and exit codes do not appear in the modelled
  code.

## Findings

| source | as written | input that shows it | evidently intended | confidence | as-written member | corrected member |
|---|---|---|---|---|---|---|
| src/CLI/Program.cs:89-103 (also src/CLI/Services/CryptoService.cs:68-82) | `key.Length * 8` is C# `int` arithmetic and wraps around for keys of 2^28 bytes or more | a key of 2^28 bytes takes the short-key branch with a negative offset, and `Buffer.BlockCopy` throws; a key of 2^29 + 16 bytes is returned unchanged and rejected by `Aes.Key` | every key longer than 16 bytes is cut to its first 16 bytes | not executed; medium (keys that large are unusual) | KeySize.AdjustKeySizeInt32, with KeySize.Int32WrapThrows and KeySize.Int32WrapKeepsIllegalKey | KeySize.AdjustKeySize |
