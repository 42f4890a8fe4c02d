/**
 * The delta file's records: `(skip, size, literal bytes)` with skip and size as 4-byte
 * integers. `WriteBlock` writes one (and writes nothing for `skip == 0 && size == 0`); the patch
 * and reverse-delta engines read them back one at a time until the stream is exhausted.
 */
module DeltaFormat {
  import opened Bytes
  import opened Results
  import opened Format
  import opened Streams

  /** Advance the cursor by `skip` bytes, then write `data` there. */
  datatype Record = Record(skip: int, data: seq<byte>)

  /** A record whose fields fit the format: an `int` skip and at most one block of literal bytes. */
  predicate Encodable(r: Record) {
    IsInt32(r.skip) && |r.data| <= BLOCK_SIZE
  }

  predicate AllEncodable(rs: seq<Record>) {
    forall k :: 0 <= k < |rs| ==> Encodable(rs[k])
  }

  /** Records with a non-negative skip only ever move the cursor forward. */
  predicate NonNegativeSkips(rs: seq<Record>) {
    forall k :: 0 <= k < |rs| ==> rs[k].skip >= 0
  }

  /** The records `WriteBlock(skip, |data|, data)` emits: none when there is nothing to say. */
  function Emit(skip: int, data: seq<byte>): (rs: seq<Record>)
    ensures rs == [] <==> skip == 0 && |data| == 0
    ensures rs != [] ==> rs == [Record(skip, data)]
    ensures IsInt32(skip) && |data| <= BLOCK_SIZE ==> AllEncodable(rs)
  {
    if skip == 0 && |data| == 0 then [] else [Record(skip, data)]
  }

  /** The bytes of one record. */
  function RecordBytes(r: Record): (b: seq<byte>)
    requires Encodable(r)
    ensures |b| == 8 + |r.data|
  {
    EncodeInt32(r.skip) + EncodeInt32(|r.data|) + r.data
  }

  /** The bytes of a record stream (the delta file after its header). */
  function RecordsBytes(rs: seq<Record>): seq<byte>
    requires AllEncodable(rs)
  {
    if rs == [] then [] else RecordBytes(rs[0]) + RecordsBytes(rs[1..])
  }

  /** How far a record stream moves the cursor: the sum of `skip + size`. */
  function Total(rs: seq<Record>): int {
    if rs == [] then 0 else rs[0].skip + |rs[0].data| + Total(rs[1..])
  }

  datatype Parsed = Parsed(record: Record, rest: seq<byte>)

  /**
   * Reading one record from the unread part `d` of a delta: `None` when not a single byte is
   * left; otherwise the skip field, the size field (at most BLOCK_SIZE, not negative) and
   * exactly `size` literal bytes must all be there.
   */
  function ParseRecord(d: seq<byte>): (r: Result<Option<Parsed>>)
    ensures r == Success(None) <==> d == []
    ensures r.Success? && r.value.Some? ==>
              Encodable(r.value.value.record) && |r.value.value.rest| + 8 <= |d|
    ensures 0 < |d| < 8 ==> r == Failure(TruncatedField)
    ensures |d| >= 8 ==>
              var size := DecodeInt32(d[4..8]);
              (size > BLOCK_SIZE ==> r == Failure(LiteralTooLarge)) &&
              (size < 0 ==> r == Failure(NegativeLiteralSize)) &&
              (0 <= size <= BLOCK_SIZE && |d| - 8 < size ==> r == Failure(TruncatedLiteral))
  {
    if |d| == 0 then Success(None)
    else if |d| < 4 then Failure(TruncatedField)
    else if |d| < 8 then Failure(TruncatedField)
    else
      var skip := DecodeInt32(d[..4]);
      var size := DecodeInt32(d[4..8]);
      if size > BLOCK_SIZE then Failure(LiteralTooLarge)
      else if size < 0 then Failure(NegativeLiteralSize)
      else if |d| - 8 < size then Failure(TruncatedLiteral)
      else Success(Some(Parsed(Record(skip, d[8..8 + size]), d[8 + size..])))
  }

  /** Reading back what `WriteBlock` wrote gives the record and leaves what follows. */
  lemma ParseRecordBytes(r: Record, rest: seq<byte>)
    requires Encodable(r)
    ensures ParseRecord(RecordBytes(r) + rest) == Success(Some(Parsed(r, rest)))
  {
    var d := RecordBytes(r) + rest;
    assert d[..4] == EncodeInt32(r.skip);
    assert d[4..8] == EncodeInt32(|r.data|);
    assert d[8..8 + |r.data|] == r.data;
    assert d[8 + |r.data|..] == rest;
    DecodeEncodeInt32(r.skip);
    DecodeEncodeInt32(|r.data|);
  }

  /** Conversely, whatever reads as a record is that record's bytes followed by the rest. */
  lemma ParseRecordSound(d: seq<byte>)
    requires ParseRecord(d).Success? && ParseRecord(d).value.Some?
    ensures d == RecordBytes(ParseRecord(d).value.value.record) + ParseRecord(d).value.value.rest
  {
    EncodeDecodeInt32(d[..4]);
    EncodeDecodeInt32(d[4..8]);
    var p := ParseRecord(d).value.value;
    assert d == d[..4] + d[4..8] + d[8..8 + |p.record.data|] + p.rest;
  }

  lemma {:induction false} RecordsBytesAppend(a: seq<Record>, b: seq<Record>)
    requires AllEncodable(a) && AllEncodable(b)
    ensures AllEncodable(a + b)
    ensures RecordsBytes(a + b) == RecordsBytes(a) + RecordsBytes(b)
  {
    if a == [] {
      assert a + b == b;
    } else {
      assert (a + b)[0] == a[0];
      assert (a + b)[1..] == a[1..] + b;
      RecordsBytesAppend(a[1..], b);
    }
  }

  lemma {:induction false} TotalAppend(a: seq<Record>, b: seq<Record>)
    ensures Total(a + b) == Total(a) + Total(b)
  {
    if a == [] {
      assert a + b == b;
    } else {
      assert (a + b)[0] == a[0];
      assert (a + b)[1..] == a[1..] + b;
      TotalAppend(a[1..], b);
    }
  }

  /**
   * The record reader both the patch and the reverse-delta loops run: `ReadBytes(4)` for the
   * skip (nothing read means the records are over), `ReadInt32` for the size, the size
   * checks, then `Read` of the literal bytes.
   */
  method ReadRecord(delta: ByteReader) returns (r: Result<Option<Record>>)
    modifies delta
    ensures match ParseRecord(old(delta.remaining))
              case Failure(e) => r == Failure(e)
              case Success(None) => r == Success(None) && delta.remaining == []
              case Success(Some(p)) => r == Success(Some(p.record)) && delta.remaining == p.rest
  {
    ghost var d := delta.remaining;
    var skipField := delta.ReadBytes(4);
    if |skipField| == 0 {
      return Success(None);
    }
    if |skipField| < 4 {
      return Failure(TruncatedField);
    }
    var skip := DecodeInt32(skipField);
    var sizeField := delta.ReadBytes(4);
    if |sizeField| < 4 {
      return Failure(TruncatedField);
    }
    assert skipField == d[..4] && sizeField == d[4..8];
    var size := DecodeInt32(sizeField);
    if size > BLOCK_SIZE {
      return Failure(LiteralTooLarge);
    }
    if size < 0 {
      return Failure(NegativeLiteralSize);
    }
    var literal := delta.ReadBytes(size);
    if |literal| != size {
      return Failure(TruncatedLiteral);
    }
    assert literal == d[8..8 + size] && delta.remaining == d[8 + size..];
    return Success(Some(Record(skip, literal)));
  }

  /**
   * `WriteBlock(skipBytes, size, bytes)` of the delta and reverse-delta engines: the skip, the
   * size and the first `size` bytes of the block buffer, and nothing at all when both numbers
   * are zero.
   */
  method WriteBlock(out: ByteWriter, skipBytes: int, size: int, bytes: seq<byte>)
    requires IsInt32(skipBytes) && 0 <= size <= |bytes| <= BLOCK_SIZE
    modifies out
    ensures out.data == old(out.data) + RecordsBytes(Emit(skipBytes, bytes[..size]))
  {
    if skipBytes == 0 && size == 0 {
      return;
    }
    ghost var before := out.data;
    ghost var r := Record(skipBytes, bytes[..size]);
    assert RecordsBytes(Emit(skipBytes, bytes[..size])) == RecordBytes(r) by {
      assert Emit(skipBytes, bytes[..size]) == [r];
      assert RecordsBytes([r]) == RecordBytes(r) + RecordsBytes([]);
    }
    out.Write(EncodeInt32(skipBytes));
    out.Write(EncodeInt32(size));
    if size != 0 {
      out.Write(bytes[..size]);
    }
    assert out.data == before + (EncodeInt32(skipBytes) + EncodeInt32(size) + bytes[..size]);
  }

  /** Puts `out` in front of a successful result and passes a failure through. */
  function Prepend(out: seq<Record>, r: Result<seq<Record>>): (p: Result<seq<Record>>)
    ensures p.Success? <==> r.Success?
    ensures p.Success? ==> p.value == out + r.value
  {
    match r
    case Success(rs) => Success(out + rs)
    case Failure(e) => Failure(e)
  }

  lemma PrependAppend(a: seq<Record>, b: seq<Record>, r: Result<seq<Record>>)
    ensures Prepend(a, Prepend(b, r)) == Prepend(a + b, r)
  {
    if r.Success? {
      assert a + (b + r.value) == a + b + r.value;
    }
  }
}
