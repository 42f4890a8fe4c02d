# BulkSync in Dafny

BulkSync is an rsync-style tool for large files, with four engines that each turn streams into other streams:

- **signature** reads a file in fixed blocks of `BLOCK_SIZE` = 16384 bytes. It writes the header `BSSIG01`, then one 20-byte SHA-1 digest per block, with short blocks zero-padded to a full block before hashing. It ends with the little-endian 32-bit length of the final short block. A file always ends in one short block, which is empty when the file length is a multiple of the block size.
- **delta** reads a new file block by block, in step with the signature of an old file. When block `i` has the same digest and the same length as the signature's entry `i`, its length is added to a running skip. Any other block is flushed as a record `(skip, size, literal bytes)`. A skip that comes within one block of `Int32.MaxValue` is flushed on its own. The final short block always ends with a flush. Records with a zero skip and no literal are never written.
- **patch** opens the old file with its cursor at the start. For each record it seeks forward (or back) by the skip, then overwrites with the literal. At the end it truncates the file at the cursor.
- **reverse delta** reads the old file and a delta meant for it. For each forward record it writes a record with the same skip whose payload is the old bytes the literal will overwrite. Both skip and size are clamped to the old file's end, and once the cursor reaches that end no further delta records are read. If the delta runs out first, the rest of the old file is written as literal records of at most one block each.

## Structure

Each module follows a source file. The engines are methods whose loops follow the source's loops. Each method is proved against a function that describes the whole output.

- **results.dfy** holds the error kinds, one for each exception the engines throw.
- **bytes.dfy** holds bytes and the little-endian `Int32` codec behind `BinaryWriter.Write(int)`, `BitConverter.ToInt32` and `BinaryReader.ReadInt32`.
- **streams.dfy** models the .NET streams used:
  - `ByteReader` is an input stream;
  - `ByteWriter` is an output stream;
  - `FileStream` is a seekable file with a cursor. Writes past the end grow the file, and `SetLength` truncates or zero-extends it.
- **format.dfy** holds the constants of `Program.cs`, the block split and the padding.
- **signature.dfy** holds `SignatureOf`, which describes the signature file, and the `Run` loop.
- **delta_format.dfy** holds the record encoding: the `WriteBlock` that `Delta.cs` and `ReverseDelta.cs` share, and the record reader that `Patch.cs` and `ReverseDelta.cs` share.
- **delta.dfy** holds the class `DeltaEncoder`, with the source's fields `sigBlockLength`, `sigBlockHash` and `sigUndoBuffer`, plus the functions that describe its output.
- **patch.dfy** holds `PatchOf` and its loop.
- **reverse_delta.dfy** holds `ReverseOf` and its loop.
- **rebuild.dfy** and **roundtrip.dfy** hold the properties that relate the engines to each other:
  - forward correctness;
  - the reverse round trip;
  - the full cycle that the test suite runs.

SHA-1 is a parameter `h`. `Format.Hash` takes its result as the 20-byte digest.

The forced skip-only flush comes after the block's match decision (`Delta.cs:145-149`), and `Delta.Advance` does the same.

## Model

| member | source | states |
|---|---|---|
| `Bytes.DecodeEncodeInt32` | BulkSync/Delta.cs:105-106 | the four bytes written for any 32-bit integer read back as that integer |
| `Bytes.EncodeDecodeInt32` | BulkSync/Patch.cs:52-53 | any four bytes read as an integer are written back as the same four bytes |
| `Format.Hash` | BulkSync/Signature.cs:55 | a digest is always `HASH_SIZE` bytes, and it is the hasher's own result whenever that has 20 bytes |
| `Format.Block` | BulkSync/Signature.cs:49 | block `i` is the slice of the input at `16384 * i` and holds at most `BLOCK_SIZE` bytes |
| `Format.BlockSizes` | BulkSync/Signature.cs:50-62 | a block is short exactly when it is the last one, and the last one holds `length mod 16384` bytes and ends the input |
| `Format.BlockRead` | BulkSync/Delta.cs:127 | reading `BLOCK_SIZE` bytes from the start of block `i` yields block `i`, and after a full block the stream stands at block `i + 1` |
| `Format.PaddedBuffer` | BulkSync/Signature.cs:49-53 | a buffer holding the bytes read followed by zeros is the padded block, whatever it held before |
| `Format.PadInjective` | BulkSync/Delta.cs:135 | two blocks of the same length with the same padded form are equal, so the length comparison makes the padding harmless |
| `Signature.SignatureLength` | BulkSync/Signature.cs:42-61 | the signature has the header, `length / 16384 + 1` digests and a 4-byte trailer |
| `Signature.SignatureDigest` | BulkSync/Signature.cs:47-56 | digest `i` of the signature is the hash of block `i` padded with zeros |
| `Signature.SignatureTrailer` | BulkSync/Signature.cs:58-61 | the last four bytes of the signature encode the length of the final short block |
| `Signature.ReadPadded` | BulkSync/Signature.cs:49-53 | one read yields up to `BLOCK_SIZE` bytes, leaves the zero-padded block in the buffer and consumes exactly those bytes |
| `Signature.WriteDigest` | BulkSync/Signature.cs:49-56 | one round appends the digest of the next padded block and consumes that block |
| `Signature.Run` | BulkSync/Signature.cs:40-65 | the output gains exactly `SignatureOf(h, input)` and the input is consumed |
| `Streams.ByteReader.ReadBytes` | BulkSync/Patch.cs:47 | `ReadBytes(n)` returns the next `n` bytes, or fewer at the end of the stream, and consumes them |
| `Streams.ByteReader.Read` | BulkSync/Delta.cs:127 | `Read` fills the buffer's prefix with the next bytes, returns their count and leaves the rest of the buffer untouched |
| `Streams.ByteWriter.Write` | BulkSync/Signature.cs:35-38 | writing appends exactly the given bytes |
| `Streams.FileStream.Seek` | BulkSync/Patch.cs:65 | a relative seek moves the cursor and fails only when it would move before the start |
| `Streams.FileStream.Read` | BulkSync/ReverseDelta.cs:120 | a file read returns up to `count` bytes at the cursor and advances the cursor past them |
| `Streams.FileStream.Write` | BulkSync/Patch.cs:68 | a write overwrites at the cursor, grows the file (zero-filling any gap) and advances the cursor |
| `Streams.FileStream.SetLength` | BulkSync/Patch.cs:72 | the file is truncated or zero-extended to the new length |
| `Streams.Overwrite` | BulkSync/Patch.cs:68 | the result keeps the old bytes outside the written range, holds the data inside it, and has zeros in any gap |
| `Streams.OverwriteAtEnd` | BulkSync/ReverseDelta.cs:87 | writing at the end of a file appends |
| `DeltaFormat.Emit` | BulkSync/Delta.cs:98-104 | nothing is written exactly when the skip and the size are both zero, and otherwise one record is written that fits the format |
| `DeltaFormat.RecordBytes` | BulkSync/Delta.cs:105-110 | a record takes 8 header bytes plus its literal |
| `DeltaFormat.WriteBlock` | BulkSync/Delta.cs:98-111 | the output gains the encoding of `Emit(skip, bytes[..size])`; `ReverseDelta.cs:49-62` is the same code |
| `DeltaFormat.ParseRecord` | BulkSync/Patch.cs:47-63 | the record stream ends exactly at end of input; a skip or size field cut short, a size above `BLOCK_SIZE` or below zero, and a short literal are each errors |
| `DeltaFormat.ParseRecordBytes` | BulkSync/Patch.cs:47-63 | reading back what `WriteBlock` wrote gives the same record and leaves the rest of the stream |
| `DeltaFormat.ParseRecordSound` | BulkSync/Patch.cs:47-63 | every record parsed is exactly the encoding of what was read |
| `DeltaFormat.ReadRecord` | BulkSync/ReverseDelta.cs:78-103 | the reading method gives `ParseRecord`'s record or error and consumes exactly the record's bytes |
| `Delta.InitSigOf` | BulkSync/Delta.cs:52-60 | the signature reader fails exactly when the header is missing, and otherwise holds the first field read ahead |
| `Delta.ReadSigStep` | BulkSync/Delta.cs:62-96 | after the final length the entry is empty with length 0; a look-ahead of the wrong size is invalid data; a next field of any size but 20 or 4 is invalid data; a final length of `BLOCK_SIZE` or more is an invalid length |
| `Delta.Advance` | BulkSync/Delta.cs:135-149 | one block keeps the pending skip below `Int32.MaxValue - BLOCK_SIZE`, emits only encodable records, and accounts for every byte; any literal is the whole block at the old skip |
| `Delta.EncodeFrom` | BulkSync/Delta.cs:123-156 | encoding the rest of the input emits encodable, well-formed records whose total length is the pending skip plus the bytes left |
| `Delta.DeltaRecords` | BulkSync/Delta.cs:113-159 | a delta that can be produced covers exactly the new input's length |
| `Delta.DeltaOf` | BulkSync/Delta.cs:113-159 | a produced delta starts with `BSDELTA01` |
| `Delta.InitSigOfSignature` | BulkSync/Delta.cs:52-60 | reading a genuine signature's header always succeeds and leaves the reader before digest 0 |
| `Delta.ReadSigAt` | BulkSync/Delta.cs:62-96 | on a genuine signature, read `i` gives block `i`'s digest and length and moves to entry `i + 1` |
| `Delta.EncodeAtSignature` | BulkSync/Delta.cs:123-156 | against a genuine signature, encoding depends only on which blocks match, and never fails |
| `Delta.DeltaAtSignature` | BulkSync/Delta.cs:113-159 | against a genuine signature the delta always succeeds and is determined by the matched-block pattern |
| `Delta.SelfMatched` | BulkSync/Delta.cs:135 | every block of a file matches its own signature |
| `Delta.IdentityFrom` | BulkSync/Delta.cs:135-154 | when every remaining block matches, only skip records are emitted |
| `Delta.Identity` | BulkSync/Delta.cs:135-154 | the delta of a file against its own signature has no literal and covers the file's length |
| `Delta.DeltaEncoder.constructor` | BulkSync/Delta.cs:14-24 | the encoder starts with no signature entry read |
| `Delta.DeltaEncoder.InitSig` | BulkSync/Delta.cs:52-60 | the method fails or sets the look-ahead exactly as `InitSigOf` says |
| `Delta.DeltaEncoder.ReadSig` | BulkSync/Delta.cs:62-96 | the fields `sigBlockHash`, `sigBlockLength` and `sigUndoBuffer` and the signature stream move exactly as `ReadSigStep` says |
| `Delta.DeltaEncoder.Round` | BulkSync/Delta.cs:125-155 | one pass of the loop reads the next signature entry and block, writes `Advance`'s records, and returns the new skip |
| `Delta.DeltaEncoder.Run` | BulkSync/Delta.cs:113-159 | the delta stream gains exactly `DeltaOf(h, signature, input)`, or the run fails with its error; a bad signature header fails before anything is written or read from the input |
| `Patch.ApplyRecord` | BulkSync/Patch.cs:65-69 | a record fails only by seeking before the start, and otherwise moves the cursor by skip plus literal |
| `Patch.Finish` | BulkSync/Patch.cs:72 | the final file is cut or zero-extended to the cursor and keeps its bytes before it |
| `Patch.PatchOf` | BulkSync/Patch.cs:35-41 | a delta without the `BSDELTA01` header is rejected |
| `Patch.HeaderOnly` | BulkSync/Patch.cs:37-72 | a delta with no records truncates the file at the cursor, so from the start it empties the file |
| `Patch.PatchEncoded` | BulkSync/Patch.cs:45-70 | patching with encoded records is the same as replaying the records themselves |
| `Patch.ReplayAppend` | BulkSync/Patch.cs:45-70 | replaying two record lists one after the other is the same as replaying them joined |
| `Patch.ReplayForward` | BulkSync/Patch.cs:65-69 | records that never seek back always apply, move the cursor by their total, and leave the bytes before the cursor alone |
| `Patch.Apply` | BulkSync/Patch.cs:65-69 | the file and cursor change exactly as `ApplyRecord` says |
| `Patch.Run` | BulkSync/Patch.cs:35-73 | the target ends exactly as `PatchOf(delta, target)` says, or the run fails with its error; a bad delta header leaves the target and its cursor untouched |
| `ReverseDelta.ReverseStep` | BulkSync/ReverseDelta.cs:105-122 | one record is reversed by clamping skip and size to the old file's end. It fails only by seeking before the start. The records written carry the old file's bytes at their position, and an encodable record stays encodable, so the `(int)` casts at lines 109 and 117 are exact |
| `ReverseDelta.TailRecords` | BulkSync/ReverseDelta.cs:79-89 | the rest of the old file is sent as non-empty literal records with zero skips that reach its end |
| `ReverseDelta.ReverseFrom` | BulkSync/ReverseDelta.cs:76-123 | the reverse records fit the format, end exactly at the old file's end, and are empty when the cursor is already there |
| `ReverseDelta.ReverseOf` | BulkSync/ReverseDelta.cs:64-72 | a delta without the header is rejected, and a reverse delta starts with the header |
| `ReverseDelta.CopyChunk` | BulkSync/ReverseDelta.cs:83-87 | one chunk of at most `BLOCK_SIZE` bytes of the old file is copied into one literal record |
| `ReverseDelta.CopyTail` | BulkSync/ReverseDelta.cs:81-88 | the inner loop writes exactly `TailRecords` and leaves the cursor at the old file's end |
| `ReverseDelta.ReverseRecord` | BulkSync/ReverseDelta.cs:105-122 | the method writes and moves the cursor exactly as `ReverseStep` says |
| `ReverseDelta.Run` | BulkSync/ReverseDelta.cs:64-124 | the old file is unchanged and the output gains exactly `ReverseOf(delta, old, cursor)`, or the run fails with its error; a bad delta header writes nothing |
| `Rebuild.RecordOnMerged` | BulkSync/Patch.cs:65-69 | a record that skips bytes the old and new files share, and writes new bytes, extends the rebuilt prefix of the new file |
| `Rebuild.ReproducesReplay` | BulkSync/Patch.cs:45-70 | a record list that reproduces the new file from `p` to `q` replays the old file with prefix `c[..p]` into the old file with prefix `c[..q]` |
| `Rebuild.SkipToEnd` | BulkSync/Delta.cs:151-154 | the final skip flush carries the rebuild on to the new file's end |
| `Rebuild.AdvanceReproduces` | BulkSync/Delta.cs:135-149 | each block's records reproduce the new file over the block when a match means the old file agrees there |
| `RoundTrip.PatchForward` | BulkSync/Patch.cs:35-73 | patching with records that never seek back always succeeds |
| `RoundTrip.MatchedBlock` | BulkSync/Delta.cs:135 | without a hash collision, a matched block is byte-equal to the old file's block at the same place |
| `RoundTrip.ForwardRound` | BulkSync/Delta.cs:125-155 | each pass of the delta loop keeps the invariant that the records so far rebuild the new file up to the pending skip |
| `RoundTrip.ForwardFrom` | BulkSync/Delta.cs:123-156 | the records from block `i` on rebuild the new file to its end |
| `RoundTrip.ForwardBlocks` | BulkSync/Patch.cs:35-73 | the encoded records turn the old file into the new one when every matched block is found in the old file |
| `RoundTrip.Forward` | BulkSyncNUnit/Test.cs:86-90 | without hash collisions, patching the old file with the delta against its signature gives the new file exactly |
| `RoundTrip.TailRestores` | BulkSync/ReverseDelta.cs:78-90 | the tail records restore a truncated old file |
| `RoundTrip.ReverseApply` | BulkSync/ReverseDelta.cs:105-122 | a reverse record puts the old bytes back over what the forward record wrote |
| `RoundTrip.RoundTripFrom` | BulkSync/ReverseDelta.cs:76-123 | from the cursor on, the reverse records restore the old file over the forward patch's output |
| `RoundTrip.ReverseRoundTrip` | BulkSyncNUnit/Test.cs:88-92 | for every delta whose skips are non-negative, patching with the delta and then with its reverse gives the old file back |
| `RoundTrip.FullCircle` | BulkSyncNUnit/Test.cs:86-92 | the test's whole cycle succeeds, yields the new file barring a collision, and then yields the old file back unconditionally |

## Left out

- The constructors' file and console opening, `Dispose`, `CommandLineOptions` and `Main` are left out. They do I/O or parse arguments. The engines take their streams as parameters.
- SHA-1 is not modelled; the hash is a parameter `h`. `Format.Hash` takes any result of the wrong size as twenty zero bytes, which SHA-1 never produces.
- `Stream.Read` is taken to fill the buffer unless the stream ends. A pipe that returns short reads mid-stream would cut blocks differently, and that is not modelled.
- What an engine had already written when it throws is not described. Each `Run` states only the error.
- `Debug.Assert` in `ReverseDelta.cs` is not modelled. The model reads what is there, which is what those assertions expect.
- File positions are `long` in .NET and unbounded naturals here. Cursors beyond `Int64` range are not modelled.
- RoundTrip.Forward: assumes that no compared block pair collides under the hash (`NoCollision`). A 20-byte digest cannot be collision-free on all 16384-byte blocks, so the program's unconditional promise of forward correctness holds only with this caveat.
- RoundTrip.ReverseRoundTrip: covers deltas whose skips are non-negative and whose records are encodable. The delta engine produces only those, and `RoundTrip.FullCircle` covers them without any condition.
- Patch.Run and Patch.PatchOf: the target cursor is a parameter. `File.OpenWrite` puts it at 0, and the round-trip lemmas start there.
- Delta.DeltaEncoder.Run, Patch.Run, ReverseDelta.Run: on a failure after the header check, the output written before the error is not stated.
- The exception types (`InvalidDataException`, `EndOfStreamException`, `IOException`) become values of `Results.Error`.
- Literal payloads read into the reused `buffer` in `Patch.cs` and `ReverseDelta.cs` are modelled as fresh byte sequences. The signature and delta engines keep the array.
