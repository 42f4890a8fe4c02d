/**
 * The three kinds of stream the engines use, held in memory: a forward-only reader
 * (`Stream.Read`, `BinaryReader.ReadBytes`), an appending writer (`BinaryWriter.Write`)
 * and a seekable file (`FileStream` with `Seek`, `Read`, `Write` and `SetLength`).
 */
module Streams {
  import opened Bytes
  import opened Results

  /** The content of a file after writing `data` at offset `at`: a gap past the old end reads as zeros. */
  function Overwrite(x: seq<byte>, at: nat, data: seq<byte>): (r: seq<byte>)
    ensures |r| == if at + |data| <= |x| then |x| else at + |data|
    ensures forall j :: 0 <= j < |r| ==>
              r[j] == if j < at then (if j < |x| then x[j] else 0)
                      else if j < at + |data| then data[j - at]
                      else x[j]
  {
    var before := if at <= |x| then x[..at] else x + Zeros(at - |x|);
    var after := if at + |data| <= |x| then x[at + |data|..] else [];
    before + data + after
  }

  /** Writing at the end of a file appends. */
  lemma OverwriteAtEnd(x: seq<byte>, data: seq<byte>)
    ensures Overwrite(x, |x|, data) == x + data
  {
    assert x[..|x|] == x;
    assert x + data + [] == x + data;
  }

  /** The content of a file after `SetLength(n)`: cut short, or extended with zeros. */
  function Resize(x: seq<byte>, n: nat): (r: seq<byte>)
    ensures |r| == n
    ensures forall j :: 0 <= j < n ==> r[j] == if j < |x| then x[j] else 0
  {
    if n <= |x| then x[..n] else x + Zeros(n - |x|)
  }

  /** A stream read front to back; `remaining` is what has not been read yet. */
  class ByteReader {
    var remaining: seq<byte>

    constructor (content: seq<byte>)
      ensures remaining == content
    {
      remaining := content;
    }

    /** `BinaryReader.ReadBytes(count)`: up to `count` bytes, fewer only at the end of the stream. */
    method ReadBytes(count: nat) returns (b: seq<byte>)
      modifies this
      ensures b == Take(old(remaining), count)
      ensures remaining == Drop(old(remaining), count)
    {
      b := Take(remaining, count);
      remaining := Drop(remaining, count);
    }

    /** `Stream.Read(buffer, 0, buffer.Length)`: fills a prefix of `buffer`, leaves the rest as it was. */
    method Read(buffer: array<byte>) returns (n: nat)
      modifies this, buffer
      ensures n == Min(buffer.Length, |old(remaining)|)
      ensures buffer[..n] == old(remaining)[..n]
      ensures buffer[n..] == old(buffer[n..])
      ensures remaining == old(remaining)[n..]
    {
      n := Min(buffer.Length, |remaining|);
      forall i | 0 <= i < n {
        buffer[i] := remaining[i];
      }
      remaining := remaining[n..];
    }
  }

  /** An output stream that only ever grows at its end. */
  class ByteWriter {
    var data: seq<byte>

    constructor ()
      ensures data == []
    {
      data := [];
    }

    method Write(bytes: seq<byte>)
      modifies this
      ensures data == old(data) + bytes
    {
      data := data + bytes;
    }
  }

  /** A random-access file: its bytes and the cursor. */
  class FileStream {
    var content: seq<byte>
    var position: nat

    constructor (content: seq<byte>)
      ensures this.content == content && position == 0
    {
      this.content := content;
      position := 0;
    }

    /** `Seek(offset, SeekOrigin.Current)`; moving before the start throws. */
    method Seek(offset: int) returns (o: Outcome)
      modifies this
      ensures content == old(content)
      ensures old(position) + offset < 0 ==> o == Fail(SeekBeforeBegin) && position == old(position)
      ensures old(position) + offset >= 0 ==> o == Pass && position == old(position) + offset
    {
      if position + offset < 0 {
        o := Fail(SeekBeforeBegin);
      } else {
        position := position + offset;
        o := Pass;
      }
    }

    /** `Read(buffer, 0, count)`: the bytes at the cursor, fewer only at the end of the file. */
    method Read(count: nat) returns (b: seq<byte>)
      modifies this
      ensures content == old(content)
      ensures b == Take(Drop(old(content), old(position)), count)
      ensures position == old(position) + |b|
    {
      b := Take(Drop(content, position), count);
      position := position + |b|;
    }

    /** `Write(buffer, 0, |data|)`: overwrites at the cursor and moves past what was written. */
    method Write(data: seq<byte>)
      modifies this
      ensures content == Overwrite(old(content), old(position), data)
      ensures position == old(position) + |data|
    {
      content := Overwrite(content, position, data);
      position := position + |data|;
    }

    /** `SetLength(n)`; a cursor past the new end is moved back to it. */
    method SetLength(n: nat)
      modifies this
      ensures content == Resize(old(content), n)
      ensures position == Min(old(position), n)
    {
      content := Resize(content, n);
      position := Min(position, n);
    }
  }
}
