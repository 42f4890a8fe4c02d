/**
 * Reverse-delta generation: given the old file and a delta meant for it, the records that undo
 * the delta. Each record keeps the delta's skip and, instead of the literal, carries the old
 * file's bytes at the place the literal goes; both are clamped to the old file's end, and
 * records stop once the cursor reaches it. When the delta runs out first, the rest of the old
 * file is sent in literal chunks of at most BLOCK_SIZE bytes.
 */
module ReverseDelta {
  import opened Bytes
  import opened Results
  import opened Streams
  import opened Format
  import opened DeltaFormat

  /** What one delta record turns into: the reverse records written and the cursor after it. */
  datatype Reversed = Reversed(out: seq<Record>, position: nat)

  /**
   * One delta record `r` read with the old file `a`'s cursor at `p`: a skip reaching the end is
   * cut to end there, the seek may not go before the start, a size reaching past the end is cut
   * to end there, and the old bytes under the literal are read.
   */
  function ReverseStep(a: seq<byte>, p: nat, r: Record): (s: Result<Reversed>)
    requires p < |a|
    ensures s.Success? <==> p + r.skip >= 0
    ensures s.Failure? ==> s.error == SeekBeforeBegin
    ensures s.Success? ==> s.value.position <= |a| && p + Total(s.value.out) == s.value.position
    ensures s.Success? && Encodable(r) ==> AllEncodable(s.value.out)
    ensures s.Success? && r.skip >= 0 ==> NonNegativeSkips(s.value.out)
    ensures s.Success? ==> forall k :: 0 <= k < |s.value.out| ==>
              0 <= p + s.value.out[k].skip &&
              p + s.value.out[k].skip + |s.value.out[k].data| <= |a| &&
              s.value.out[k].data == a[p + s.value.out[k].skip .. p + s.value.out[k].skip + |s.value.out[k].data|]
  {
    var skip := if p + r.skip >= |a| then |a| - p else r.skip;
    if p + skip < 0 then Failure(SeekBeforeBegin)
    else
      var at := p + skip;
      var size := if at + |r.data| > |a| then |a| - at else |r.data|;
      Success(Reversed(Emit(skip, a[at..at + size]), at + size))
  }

  /** Literal records of the old file from `p` to its end, at most BLOCK_SIZE bytes each. */
  function TailRecords(a: seq<byte>, p: nat): (rs: seq<Record>)
    ensures AllEncodable(rs) && NonNegativeSkips(rs)
    ensures p + Total(rs) == if p < |a| then |a| else p
    ensures forall k :: 0 <= k < |rs| ==> rs[k].skip == 0 && |rs[k].data| > 0
    decreases |a| - p
  {
    if p >= |a| then []
    else
      var n := Min(|a| - p, BLOCK_SIZE);
      var rest := TailRecords(a, p + n);
      TotalAppend([Record(0, a[p..p + n])], rest);
      assert Emit(0, a[p..p + n]) == [Record(0, a[p..p + n])];
      Emit(0, a[p..p + n]) + rest
  }

  /**
   * The reverse records for the unread delta records `d`, with the old file's cursor at `p`:
   * nothing once the cursor is at the end; the tail of the old file when `d` is used up;
   * otherwise the reverse of the next record, then of the ones after it.
   */
  function ReverseFrom(d: seq<byte>, a: seq<byte>, p: nat): (res: Result<seq<Record>>)
    ensures res.Success? ==> AllEncodable(res.value)
    ensures res.Success? ==> p + Total(res.value) == if p < |a| then |a| else p
    ensures p >= |a| ==> res == Success([])
    decreases |d|
  {
    if p >= |a| then Success([])
    else
      var next :- ParseRecord(d);
      match next
      case None => Success(TailRecords(a, p))
      case Some(parsed) =>
        var step :- ReverseStep(a, p, parsed.record);
        var tail :- ReverseFrom(parsed.rest, a, step.position);
        RecordsBytesAppend(step.out, tail);
        TotalAppend(step.out, tail);
        Success(step.out + tail)
  }

  /** The reverse delta `ReverseDelta.Run` writes for `delta` and the old file `a` opened at `p`. */
  function ReverseOf(delta: seq<byte>, a: seq<byte>, p: nat): (r: Result<seq<byte>>)
    ensures Take(delta, |DELTA_HEADER|) != DELTA_HEADER ==> r == Failure(InvalidDeltaHeader)
    ensures r.Success? ==> |r.value| >= |DELTA_HEADER| && r.value[..|DELTA_HEADER|] == DELTA_HEADER
  {
    if Take(delta, |DELTA_HEADER|) != DELTA_HEADER then Failure(InvalidDeltaHeader)
    else
      var rs :- ReverseFrom(Drop(delta, |DELTA_HEADER|), a, p);
      Success(DELTA_HEADER + RecordsBytes(rs))
  }

  /** `ReverseFrom` past the header check, spelled out. */
  lemma ReverseOfRecords(delta: seq<byte>, a: seq<byte>, p: nat)
    requires Take(delta, |DELTA_HEADER|) == DELTA_HEADER
    ensures ReverseOf(delta, a, p) == match ReverseFrom(Drop(delta, |DELTA_HEADER|), a, p)
                                     case Success(rs) => Success(DELTA_HEADER + RecordsBytes(rs))
                                     case Failure(e) => Failure(e)
  {
  }

  /** One round of `ReverseFrom` with a record to read, spelled out. */
  lemma ReverseRound(d: seq<byte>, a: seq<byte>, p: nat)
    requires p < |a| && ParseRecord(d).Success? && ParseRecord(d).value.Some?
    ensures var parsed := ParseRecord(d).value.value;
            ReverseFrom(d, a, p) == match ReverseStep(a, p, parsed.record)
                                    case Success(step) => Prepend(step.out, ReverseFrom(parsed.rest, a, step.position))
                                    case Failure(e) => Failure(e)
  {
  }

  /** The drain loop's output so far, `before`, then one chunk's record, then the records of the rest. */
  lemma TailStep(before: seq<byte>, a: seq<byte>, p: nat, q: nat)
    requires p < |a| && q == p + Min(|a| - p, BLOCK_SIZE)
    ensures before + RecordsBytes([Record(0, a[p..q])]) + RecordsBytes(TailRecords(a, q)) ==
            before + RecordsBytes(TailRecords(a, p))
  {
    assert TailRecords(a, p) == [Record(0, a[p..q])] + TailRecords(a, q);
    RecordsBytesAppend([Record(0, a[p..q])], TailRecords(a, q));
    Associative(before, RecordsBytes([Record(0, a[p..q])]), RecordsBytes(TailRecords(a, q)));
  }

  /** One round of the drain loop: read at most BLOCK_SIZE bytes of the old file and send them. */
  method CopyChunk(target: FileStream, reverseDelta: ByteWriter)
    requires target.position < |target.content|
    modifies target, reverseDelta
    ensures target.content == old(target.content)
    ensures target.position == old(target.position) + Min(|target.content| - old(target.position), BLOCK_SIZE)
    ensures reverseDelta.data == old(reverseDelta.data) + RecordsBytes([Record(0, target.content[old(target.position)..target.position])])
  {
    ghost var p := target.position;
    var sizeRemaining := Min(|target.content| - target.position, BLOCK_SIZE);
    var chunk := target.Read(sizeRemaining);
    assert chunk[..sizeRemaining] == chunk;
    WriteBlock(reverseDelta, 0, sizeRemaining, chunk);
    assert Emit(0, chunk) == [Record(0, chunk)];
  }

  /** The drain loop of `ReverseDelta.Run`: the rest of the old file in chunks of at most BLOCK_SIZE. */
  method CopyTail(target: FileStream, reverseDelta: ByteWriter)
    modifies target, reverseDelta
    ensures target.content == old(target.content)
    ensures target.position == if old(target.position) < |target.content| then |target.content| else old(target.position)
    ensures reverseDelta.data == old(reverseDelta.data) + RecordsBytes(TailRecords(target.content, old(target.position)))
  {
    ghost var a := target.content;
    ghost var p0 := target.position;
    while target.position < |target.content|
      invariant target.content == a
      invariant if p0 < |a| then p0 <= target.position <= |a| else target.position == p0
      invariant reverseDelta.data + RecordsBytes(TailRecords(a, target.position)) ==
                old(reverseDelta.data) + RecordsBytes(TailRecords(a, p0))
      decreases |a| - target.position
    {
      ghost var p := target.position;
      ghost var before := reverseDelta.data;
      CopyChunk(target, reverseDelta);
      TailStep(before, a, p, target.position);
    }
    assert RecordsBytes(TailRecords(a, target.position)) == [];
    assert reverseDelta.data + [] == reverseDelta.data;
  }

  /** Nothing more to add. */
  lemma PrependNothing(rs: seq<Record>)
    ensures Prepend(rs, Success([])) == Success(rs)
  {
    assert rs + [] == rs;
  }

  /**
   * One delta record reversed against the old file: the clamped skip, the seek, the clamped
   * size, the read of the old bytes and `WriteBlock` of the reverse record.
   */
  method ReverseRecord(target: FileStream, reverseDelta: ByteWriter, r: Record) returns (o: Outcome)
    requires Encodable(r) && target.position < |target.content|
    modifies target, reverseDelta
    ensures target.content == old(target.content)
    ensures match ReverseStep(target.content, old(target.position), r)
            case Success(step) =>
              o == Pass && target.position == step.position &&
              reverseDelta.data == old(reverseDelta.data) + RecordsBytes(step.out)
            case Failure(e) => o == Fail(e)
  {
    ghost var a := target.content;
    ghost var p := target.position;
    var skipBytes := r.skip;
    if target.position + skipBytes >= |target.content| {
      skipBytes := |target.content| - target.position;
    }
    o := target.Seek(skipBytes);
    if o.Fail? {
      return;
    }
    var sizeBytes := |r.data|;
    if target.position + sizeBytes > |target.content| {
      sizeBytes := |target.content| - target.position;
    }
    ghost var at := target.position;
    var bytes := target.Read(sizeBytes);
    assert bytes == a[at..at + sizeBytes];
    assert bytes[..sizeBytes] == bytes;
    assert ReverseStep(a, p, r) == Success(Reversed(Emit(skipBytes, bytes), at + sizeBytes));
    WriteBlock(reverseDelta, skipBytes, sizeBytes, bytes);
  }

  /**
   * `ReverseDelta.Run`: checks the delta header and writes it, then reverses record after record
   * while the old file's cursor is before its end, copying the rest of the file when the delta
   * runs out first. The old file is only read.
   */
  method Run(target: FileStream, delta: ByteReader, reverseDelta: ByteWriter) returns (o: Outcome)
    modifies target, delta, reverseDelta
    ensures target.content == old(target.content)
    ensures match ReverseOf(old(delta.remaining), old(target.content), old(target.position))
            case Success(bytes) => o == Pass && reverseDelta.data == old(reverseDelta.data) + bytes
            case Failure(e) => o == Fail(e)
    ensures Take(old(delta.remaining), |DELTA_HEADER|) != DELTA_HEADER ==>
              reverseDelta.data == old(reverseDelta.data) && target.position == old(target.position)
  {
    ghost var d := delta.remaining;
    ghost var a := target.content;
    ghost var p0 := target.position;
    var header := delta.ReadBytes(|DELTA_HEADER|);
    if header != DELTA_HEADER {
      return Fail(InvalidDeltaHeader);
    }
    ReverseOfRecords(d, a, p0);
    reverseDelta.Write(DELTA_HEADER);
    ghost var emitted: seq<Record> := [];
    ghost var whole := ReverseFrom(delta.remaining, a, p0);
    assert Prepend(emitted, whole) == whole by {
      if whole.Success? {
        assert [] + whole.value == whole.value;
      }
    }
    assert RecordsBytes(emitted) == [];
    while target.position < |target.content|
      invariant target.content == a
      invariant AllEncodable(emitted)
      invariant reverseDelta.data == old(reverseDelta.data) + DELTA_HEADER + RecordsBytes(emitted)
      invariant whole == Prepend(emitted, ReverseFrom(delta.remaining, a, target.position))
      decreases |delta.remaining|
    {
      ghost var rest := delta.remaining;
      ghost var p := target.position;
      var next := ReadRecord(delta);
      if next.Failure? {
        return Fail(next.error);
      }
      ghost var before := reverseDelta.data;
      if next.value.None? {
        CopyTail(target, reverseDelta);
        ghost var tail := TailRecords(a, p);
        assert ReverseFrom(rest, a, p) == Success(tail);
        RecordsBytesAppend(emitted, tail);
        Associative(old(reverseDelta.data) + DELTA_HEADER, RecordsBytes(emitted), RecordsBytes(tail));
        emitted := emitted + tail;
        assert whole == Success(emitted);
        break;
      }
      ReverseRound(rest, a, p);
      o := ReverseRecord(target, reverseDelta, next.value.value);
      if o.Fail? {
        return;
      }
      ghost var step := ReverseStep(a, p, next.value.value).value;
      RecordsBytesAppend(emitted, step.out);
      Associative(old(reverseDelta.data) + DELTA_HEADER, RecordsBytes(emitted), RecordsBytes(step.out));
      PrependAppend(emitted, step.out, ReverseFrom(delta.remaining, a, target.position));
      emitted := emitted + step.out;
    }
    PrependNothing(emitted);
    assert whole == Success(emitted);
    Associative(old(reverseDelta.data), DELTA_HEADER, RecordsBytes(emitted));
    return Pass;
  }
}
