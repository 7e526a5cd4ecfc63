/**
 * The read side of a `FileStream` opened on a regular file, and the copy loop
 * both `EncryptFile` and `DecryptFile` run: read at most 1024 bytes into a
 * reused buffer and write the bytes read to the `CryptoStream`, until `Read`
 * returns 0.
 */
module Streams {
  import opened ByteSeq

  /** `new byte[1024]`: the copy loop's buffer. */
  const BufferSize: nat := 1024

  /** An open input file: its contents and the current read position. */
  datatype FileReader = FileReader(data: Bytes, pos: nat) {

    predicate Valid() {
      pos <= |data|
    }

    function Remaining(): (n: nat)
      requires Valid()
    {
      |data| - pos
    }
  }

  /**
   * `fsInput.Read(buffer, 0, buffer.Length)` on a regular file: copies the next
   * `min(buffer.Length, remaining)` bytes to the front of `buffer`, leaves the
   * rest of the buffer as it was, advances the position and returns the count;
   * 0 means end of file.
   */
  method Read(r: FileReader, buffer: array<Byte>) returns (n: nat, r': FileReader)
    requires r.Valid()
    modifies buffer
    ensures n == Min(buffer.Length, r.Remaining())
    ensures r' == r.(pos := r.pos + n) && r'.Valid()
    ensures buffer[..n] == r.data[r.pos..r.pos + n]
    ensures buffer[n..] == old(buffer[n..])
  {
    n := Min(buffer.Length, r.Remaining());
    var i := 0;
    while i < n
      invariant 0 <= i <= n
      invariant forall j | 0 <= j < i :: buffer[j] == r.data[r.pos + j]
      invariant forall j | i <= j < buffer.Length :: buffer[j] == old(buffer[j])
    {
      buffer[i] := r.data[r.pos + i];
      i := i + 1;
    }
    r' := r.(pos := r.pos + n);
  }

  /**
   * The copy loop. `chunks` are the arguments of the successive
   * `cryptoStream.Write(buffer, 0, bytesRead)` calls. Every chunk is non-empty
   * and at most 1024 bytes, all but the last are full, together they are exactly
   * the unread rest of the file in order, and the loop ends at end of file.
   */
  method Pump(r: FileReader) returns (chunks: seq<Bytes>, r': FileReader)
    requires r.Valid()
    ensures Flatten(chunks) == r.data[r.pos..]
    ensures forall i | 0 <= i < |chunks| :: 0 < |chunks[i]| <= BufferSize
    ensures forall i | 0 <= i < |chunks| - 1 :: |chunks[i]| == BufferSize
    ensures r' == r.(pos := |r.data|)
  {
    var buffer := new Byte[BufferSize];
    var reader := r;
    chunks := [];
    while true
      invariant reader == r.(pos := reader.pos) && reader.Valid() && r.pos <= reader.pos
      invariant Flatten(chunks) == r.data[r.pos..reader.pos]
      invariant forall i | 0 <= i < |chunks| :: 0 < |chunks[i]| <= BufferSize
      invariant forall i | 0 <= i < |chunks| - 1 :: |chunks[i]| == BufferSize
      invariant |chunks| > 0 && |chunks[|chunks| - 1]| < BufferSize ==> reader.pos == |r.data|
      decreases |r.data| - reader.pos
    {
      var bytesRead, next := Read(reader, buffer);
      if bytesRead == 0 {
        break;
      }
      var chunk := buffer[..bytesRead];
      FlattenAppend(chunks, chunk);
      assert r.data[r.pos..reader.pos] + chunk == r.data[r.pos..next.pos];
      chunks := chunks + [chunk];
      reader := next;
    }
    r' := reader;
  }
}
