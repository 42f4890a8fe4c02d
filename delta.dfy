/**
 * Delta generation: the new input is cut into blocks like the signature's file, and block `i`
 * is compared with the signature's entry `i` (digest of the zero-padded block and the block's
 * length). Matching blocks accumulate into one skip; any other block is sent as a literal.
 */
module Delta {
  import opened Bytes
  import opened Results
  import opened Streams
  import opened Format
  import opened DeltaFormat
  import opened Signature

  /** Where the signature reader stands: the unread signature and the look-ahead field read ahead of it. */
  datatype SigCursor = SigCursor(rest: seq<byte>, undo: Option<seq<byte>>)

  /** One signature entry: the expected digest (none once the signature is used up) and block length. */
  datatype SigEntry = SigEntry(hash: Option<seq<byte>>, length: int)

  datatype SigRead = SigRead(cursor: SigCursor, entry: SigEntry)

  /** `Delta.InitSig`: the header must be there; the first digest field is read ahead. */
  function InitSigOf(sig: seq<byte>): (r: Result<SigCursor>)
    ensures r.Failure? <==> Take(sig, |SIG_HEADER|) != SIG_HEADER
    ensures r.Failure? ==> r.error == InvalidSignatureHeader
    ensures r.Success? ==> r.value.undo.Some? && sig == SIG_HEADER + r.value.undo.value + r.value.rest
  {
    if Take(sig, |SIG_HEADER|) != SIG_HEADER then Failure(InvalidSignatureHeader)
    else
      var body := Drop(sig, |SIG_HEADER|);
      Success(SigCursor(Drop(body, HASH_SIZE), Some(Take(body, HASH_SIZE))))
  }

  /**
   * `Delta.ReadSig`: past the end of the signature there is no entry; otherwise the field read
   * ahead must be a digest, and the next field decides the block's length: another digest means
   * a full block, four bytes are the final block's length (below BLOCK_SIZE), anything else is
   * malformed.
   */
  function ReadSigStep(c: SigCursor): (r: Result<SigRead>)
    ensures c.undo.None? ==> r == Success(SigRead(c, SigEntry(None, 0)))
    ensures r.Success? && r.value.entry.hash.Some? ==>
              |r.value.entry.hash.value| == HASH_SIZE && r.value.entry.length <= BLOCK_SIZE &&
              |r.value.cursor.rest| <= |c.rest|
    ensures r.Success? && c.undo.Some? ==> r.value.entry.hash == c.undo
    ensures c.undo.Some? && |c.undo.value| != HASH_SIZE ==> r == Failure(InvalidSignatureData)
    ensures c.undo.Some? && |c.undo.value| == HASH_SIZE ==>
              var next := Take(c.rest, HASH_SIZE);
              (|next| != HASH_SIZE && |next| != 4 ==> r == Failure(InvalidSignatureData)) &&
              (|next| == 4 && DecodeInt32(next) >= BLOCK_SIZE ==> r == Failure(InvalidSignatureLength))
  {
    match c.undo
    case None => Success(SigRead(c, SigEntry(None, 0)))
    case Some(u) =>
      if |u| != HASH_SIZE then Failure(InvalidSignatureData)
      else
        var next := Take(c.rest, HASH_SIZE);
        var rest := Drop(c.rest, HASH_SIZE);
        if |next| == HASH_SIZE then Success(SigRead(SigCursor(rest, Some(next)), SigEntry(Some(u), BLOCK_SIZE)))
        else if |next| == 4 then
          var length := DecodeInt32(next);
          if length >= BLOCK_SIZE then Failure(InvalidSignatureLength)
          else Success(SigRead(SigCursor(rest, None), SigEntry(Some(u), length)))
        else Failure(InvalidSignatureData)
  }

  /** A block is reused when the entry has a digest, the digests agree and so do the lengths. */
  predicate Matches(h: Hasher, e: SigEntry, b: seq<byte>)
    requires |b| <= BLOCK_SIZE
  {
    e.hash.Some? && Hash(h, Pad(b)) == e.hash.value && |b| == e.length
  }

  /** The records of a stream: literal-free records make a copy skip, nothing is empty. */
  predicate WellFormed(rs: seq<Record>) {
    forall k :: 0 <= k < |rs| ==> rs[k].skip >= 0 && (rs[k].skip > 0 || |rs[k].data| > 0)
  }

  /** What one round leaves behind: the records it writes and the skip it carries on. */
  datatype Step = Step(out: seq<Record>, skip: int)

  /**
   * One round's bookkeeping for block `b`: a matched block extends the skip; any other block is
   * written as a literal after the pending skip. A skip that reaches `Int32.MaxValue -
   * BLOCK_SIZE` is then written out on its own, so that the next addition cannot overflow.
   */
  function Advance(matched: bool, skip: int, b: seq<byte>): (st: Step)
    requires 0 <= skip < INT32_MAX - BLOCK_SIZE && |b| <= BLOCK_SIZE
    ensures 0 <= st.skip < INT32_MAX - BLOCK_SIZE
    ensures AllEncodable(st.out) && WellFormed(st.out)
    ensures Total(st.out) + st.skip == skip + |b|
    ensures forall k :: 0 <= k < |st.out| ==> st.out[k].data == [] || st.out[k] == Record(skip, b)
  {
    var skip1 := if matched then skip + |b| else 0;
    var out1 := if matched then [] else Emit(skip, b);
    if skip1 >= INT32_MAX - BLOCK_SIZE then
      Appended(out1, Emit(skip1, []));
      Step(out1 + Emit(skip1, []), 0)
    else
      Step(out1, skip1)
  }

  /**
   * The delta records written for the unread input `r`, with `skip` matched bytes not yet
   * written and the signature reader at `c`: one signature entry and one block per round;
   * after the first short block the pending skip is written and the records end.
   */
  function EncodeFrom(h: Hasher, c: SigCursor, r: seq<byte>, skip: int): (res: Result<seq<Record>>)
    requires 0 <= skip < INT32_MAX - BLOCK_SIZE
    ensures res.Success? ==> AllEncodable(res.value) && WellFormed(res.value)
    ensures res.Success? ==> Total(res.value) == skip + |r|
    decreases |r|
  {
    var step :- ReadSigStep(c);
    var b := Take(r, BLOCK_SIZE);
    var st := Advance(Matches(h, step.entry, b), skip, b);
    if |b| < BLOCK_SIZE then
      Appended(st.out, Emit(st.skip, []));
      Success(st.out + Emit(st.skip, []))
    else
      var tail := EncodeFrom(h, step.cursor, r[BLOCK_SIZE..], st.skip);
      if tail.Success? then
        Appended(st.out, tail.value);
        Success(st.out + tail.value)
      else
        Failure(tail.error)
  }

  /** One round of `EncodeFrom`, spelled out. */
  lemma EncodeRound(h: Hasher, c: SigCursor, r: seq<byte>, skip: int)
    requires 0 <= skip < INT32_MAX - BLOCK_SIZE
    ensures ReadSigStep(c).Failure? ==> EncodeFrom(h, c, r, skip) == Failure(ReadSigStep(c).error)
    ensures ReadSigStep(c).Success? ==>
              var step := ReadSigStep(c).value;
              var b := Take(r, BLOCK_SIZE);
              var st := Advance(Matches(h, step.entry, b), skip, b);
              EncodeFrom(h, c, r, skip) ==
                if |b| < BLOCK_SIZE then Success(st.out + Emit(st.skip, []))
                else Prepend(st.out, EncodeFrom(h, step.cursor, r[BLOCK_SIZE..], st.skip))
  {
  }

  /** Concatenation keeps the record properties and adds the totals. */
  lemma Appended(a: seq<Record>, b: seq<Record>)
    ensures AllEncodable(a) && AllEncodable(b) ==> AllEncodable(a + b)
    ensures WellFormed(a) && WellFormed(b) ==> WellFormed(a + b)
    ensures Total(a + b) == Total(a) + Total(b)
  {
    TotalAppend(a, b);
    if AllEncodable(a) && AllEncodable(b) {
      assert forall k :: 0 <= k < |a + b| ==> (a + b)[k] == if k < |a| then a[k] else b[k - |a|];
    }
  }

  /** The records of `Delta.Run` for a signature and a new input. */
  function DeltaRecords(h: Hasher, sig: seq<byte>, input: seq<byte>): (r: Result<seq<Record>>)
    ensures r.Success? ==> AllEncodable(r.value) && WellFormed(r.value) && Total(r.value) == |input|
  {
    var c :- InitSigOf(sig);
    EncodeFrom(h, c, input, 0)
  }

  /** The delta file `Delta.Run` writes. */
  function DeltaOf(h: Hasher, sig: seq<byte>, input: seq<byte>): (r: Result<seq<byte>>)
    ensures r.Success? ==> |r.value| >= |DELTA_HEADER| && r.value[..|DELTA_HEADER|] == DELTA_HEADER
  {
    var rs :- DeltaRecords(h, sig, input);
    Success(DELTA_HEADER + RecordsBytes(rs))
  }

  /** The delta file from the records, once the signature header has been accepted. */
  lemma DeltaOfRecords(h: Hasher, sig: seq<byte>, input: seq<byte>, c: SigCursor)
    requires InitSigOf(sig) == Success(c)
    ensures DeltaOf(h, sig, input) == match EncodeFrom(h, c, input, 0)
                                      case Success(rs) => Success(DELTA_HEADER + RecordsBytes(rs))
                                      case Failure(e) => Failure(e)
  {
  }

  /**
   * Where the signature reader stands, for the signature of the old file `a`, when it is about
   * to read entry `i`: the digest of block `i` read ahead and the fields after it, or nothing
   * once every entry has been read.
   */
  function CursorAt(h: Hasher, a: seq<byte>, i: nat): SigCursor {
    if i < BlockCount(|a|) then
      var r := a[16384 * i..];
      FieldsHead(h, r);
      SigCursor(Fields(h, r)[20..], Some(Digest(h, r)))
    else
      SigCursor([], None)
  }

  /** Entry `i` of the old file's signature: block `i`'s padded digest and its length. */
  function EntryAt(h: Hasher, a: seq<byte>, i: nat): SigEntry {
    if i < BlockCount(|a|) then SigEntry(Some(Hash(h, Pad(Block(a, i)))), |Block(a, i)|)
    else SigEntry(None, 0)
  }

  /** `InitSig` accepts a signature `Signature.Run` wrote and stands before its first entry. */
  lemma InitSigOfSignature(h: Hasher, a: seq<byte>)
    ensures InitSigOf(SignatureOf(h, a)) == Success(CursorAt(h, a, 0))
  {
    var f := Fields(h, a);
    FieldsHead(h, a);
    assert a[16384 * 0..] == a;
    var sig := SIG_HEADER + f;
    assert Take(sig, |SIG_HEADER|) == SIG_HEADER;
    assert Drop(sig, |SIG_HEADER|) == f;
  }

  /**
   * `ReadSig` on a signature `Signature.Run` wrote yields entry `i` of it and moves to entry
   * `i + 1`; past the last entry it yields no digest and stays put.
   */
  lemma ReadSigAt(h: Hasher, a: seq<byte>, i: nat)
    ensures ReadSigStep(CursorAt(h, a, i)) == Success(SigRead(CursorAt(h, a, i + 1), EntryAt(h, a, i)))
  {
    if i < BlockCount(|a|) {
      var r := a[16384 * i..];
      FieldsHead(h, r);
      BlockRead(a, i);
      BlockSizes(a, i);
      if |r| >= BLOCK_SIZE {
        var g := Fields(h, r[BLOCK_SIZE..]);
        FieldsHead(h, r[BLOCK_SIZE..]);
        assert r[BLOCK_SIZE..] == a[16384 * (i + 1)..];
        assert Take(g, HASH_SIZE) == Digest(h, r[BLOCK_SIZE..]);
        assert Drop(g, HASH_SIZE) == g[20..];
      } else {
        var e := EncodeInt32(|r|);
        DecodeEncodeInt32(|r|);
        assert Take(e, HASH_SIZE) == e && Drop(e, HASH_SIZE) == [];
      }
    }
  }

  /** Which blocks of the new input `c` the delta loop finds in the old file `a`'s signature. */
  function MatchedBlocks(h: Hasher, a: seq<byte>, c: seq<byte>): (ms: seq<bool>)
    ensures |ms| == BlockCount(|c|)
    ensures forall i :: 0 <= i < |ms| ==> ms[i] == Matches(h, EntryAt(h, a, i), Block(c, i))
  {
    seq(BlockCount(|c|), i requires 0 <= i < BlockCount(|c|) => Matches(h, EntryAt(h, a, i), Block(c, i)))
  }

  /**
   * The records of the delta loop from block `i` of the new input `c` on, with `k` matched
   * bytes pending, when `ms[j]` says whether block `j` is found in the signature.
   */
  function EncodeBlocks(ms: seq<bool>, c: seq<byte>, i: nat, k: int): seq<Record>
    requires |ms| == BlockCount(|c|) && i < |ms| && 0 <= k < INT32_MAX - BLOCK_SIZE
    decreases |c| - 16384 * i
  {
    var b := Block(c, i);
    var st := Advance(ms[i], k, b);
    BlockSizes(c, i);
    if |b| < BLOCK_SIZE then st.out + Emit(st.skip, [])
    else st.out + EncodeBlocks(ms, c, i + 1, st.skip)
  }

  /** One round of the delta loop on a signature `Signature.Run` wrote, at block `i`. */
  lemma RoundAtSignature(h: Hasher, a: seq<byte>, c: seq<byte>, i: nat, k: int, m: bool)
    requires i < BlockCount(|c|) && 0 <= k < INT32_MAX - BLOCK_SIZE
    requires m == Matches(h, EntryAt(h, a, i), Block(c, i))
    ensures var b := Block(c, i);
            var st := Advance(m, k, b);
            EncodeFrom(h, CursorAt(h, a, i), c[16384 * i..], k) ==
              if |b| < BLOCK_SIZE then Success(st.out + Emit(st.skip, []))
              else Prepend(st.out, EncodeFrom(h, CursorAt(h, a, i + 1), c[16384 * (i + 1)..], st.skip))
  {
    var r := c[16384 * i..];
    ReadSigAt(h, a, i);
    EncodeRound(h, CursorAt(h, a, i), r, k);
    BlockRead(c, i);
    BlockSizes(c, i);
    if |Block(c, i)| == BLOCK_SIZE {
      assert r[BLOCK_SIZE..] == c[16384 * (i + 1)..];
    }
  }

  /**
   * On a signature `Signature.Run` wrote, the delta loop never fails and compares block `i` of
   * the new input with entry `i` of the signature, for every `i`.
   */
  lemma {:induction false} EncodeAtSignature(h: Hasher, a: seq<byte>, c: seq<byte>, i: nat, k: int)
    requires i < BlockCount(|c|) && 0 <= k < INT32_MAX - BLOCK_SIZE
    ensures EncodeFrom(h, CursorAt(h, a, i), c[16384 * i..], k) ==
            Success(EncodeBlocks(MatchedBlocks(h, a, c), c, i, k))
    decreases |c| - 16384 * i
  {
    var ms := MatchedBlocks(h, a, c);
    RoundAtSignature(h, a, c, i, k, ms[i]);
    BlockSizes(c, i);
    var b := Block(c, i);
    var st := Advance(ms[i], k, b);
    if |b| == BLOCK_SIZE {
      EncodeAtSignature(h, a, c, i + 1, st.skip);
    }
  }

  /** Records that only copy: no literal bytes at all. */
  predicate CopyOnly(rs: seq<Record>) {
    forall k :: 0 <= k < |rs| ==> rs[k].data == []
  }

  /** Every block of a file is found in the file's own signature. */
  lemma SelfMatched(h: Hasher, a: seq<byte>)
    ensures forall i :: 0 <= i < BlockCount(|a|) ==> MatchedBlocks(h, a, a)[i]
  {
    forall i | 0 <= i < BlockCount(|a|) ensures MatchedBlocks(h, a, a)[i] {
      assert Matches(h, EntryAt(h, a, i), Block(a, i));
    }
  }

  /** When every block from `i` on is found, the delta loop copies only. */
  lemma {:induction false} IdentityFrom(ms: seq<bool>, c: seq<byte>, i: nat, skip: int)
    requires |ms| == BlockCount(|c|) && i < |ms| && 0 <= skip < INT32_MAX - BLOCK_SIZE
    requires forall j :: i <= j < |ms| ==> ms[j]
    ensures CopyOnly(EncodeBlocks(ms, c, i, skip))
    decreases |c| - 16384 * i
  {
    var b := Block(c, i);
    var st := Advance(true, skip, b);
    assert CopyOnly(st.out);
    BlockSizes(c, i);
    if |b| == BLOCK_SIZE {
      IdentityFrom(ms, c, i + 1, st.skip);
    }
  }

  /**
   * The delta of any input `c` against a signature `Signature.Run` wrote for `a` succeeds: it
   * compares block `i` of `c` with block `i` of `a`, for every `i`.
   */
  lemma DeltaAtSignature(h: Hasher, a: seq<byte>, c: seq<byte>)
    ensures DeltaRecords(h, SignatureOf(h, a), c) == Success(EncodeBlocks(MatchedBlocks(h, a, c), c, 0, 0))
  {
    InitSigOfSignature(h, a);
    assert c[16384 * 0..] == c;
    EncodeAtSignature(h, a, c, 0, 0);
  }

  /**
   * The delta of a file against its own signature succeeds and holds no literal bytes: its
   * records only skip, `|a|` bytes in all. No assumption on the hash is needed.
   */
  lemma Identity(h: Hasher, a: seq<byte>)
    ensures DeltaRecords(h, SignatureOf(h, a), a).Success?
    ensures CopyOnly(DeltaRecords(h, SignatureOf(h, a), a).value)
    ensures Total(DeltaRecords(h, SignatureOf(h, a), a).value) == |a|
  {
    DeltaAtSignature(h, a, a);
    SelfMatched(h, a);
    IdentityFrom(MatchedBlocks(h, a, a), a, 0, 0);
  }

  /**
   * The delta engine: the new input, the old file's signature and the delta being written, and
   * the signature reader's state (`sigBlockLength`, `sigBlockHash`, `sigUndoBuffer`).
   */
  class DeltaEncoder {
    const input: ByteReader
    const signature: ByteReader
    const delta: ByteWriter
    var sigBlockLength: int
    var sigBlockHash: Option<seq<byte>>
    var sigUndoBuffer: Option<seq<byte>>

    constructor (input: ByteReader, signature: ByteReader, delta: ByteWriter)
      ensures this.input == input && this.signature == signature && this.delta == delta
      ensures sigBlockLength == 0 && sigBlockHash == None && sigUndoBuffer == None
    {
      this.input := input;
      this.signature := signature;
      this.delta := delta;
      sigBlockLength := 0;
      sigBlockHash := None;
      sigUndoBuffer := None;
    }

    /** The signature reader's state. */
    ghost function Cursor(): SigCursor
      reads this, signature
    {
      SigCursor(signature.remaining, sigUndoBuffer)
    }

    /** `Delta.InitSig`: checks the signature header and reads the first digest field ahead. */
    method InitSig() returns (o: Outcome)
      modifies this, signature
      ensures match InitSigOf(old(signature.remaining))
              case Success(c) => o == Pass && Cursor() == c
              case Failure(e) => o == Fail(e)
    {
      var header := signature.ReadBytes(|SIG_HEADER|);
      if header != SIG_HEADER {
        return Fail(InvalidSignatureHeader);
      }
      var undo := signature.ReadBytes(HASH_SIZE);
      sigUndoBuffer := Some(undo);
      return Pass;
    }

    /** `Delta.ReadSig`: moves to the next signature entry. */
    method ReadSig() returns (o: Outcome)
      modifies this, signature
      ensures match ReadSigStep(old(Cursor()))
              case Success(s) =>
                o == Pass && Cursor() == s.cursor && sigBlockHash == s.entry.hash && sigBlockLength == s.entry.length
              case Failure(e) => o == Fail(e)
    {
      if sigUndoBuffer.None? {
        sigBlockLength := 0;
        sigBlockHash := None;
        return Pass;
      }
      if |sigUndoBuffer.value| != HASH_SIZE {
        return Fail(InvalidSignatureData);
      }
      sigBlockHash := sigUndoBuffer;
      var next := signature.ReadBytes(HASH_SIZE);
      sigUndoBuffer := Some(next);
      if |next| == HASH_SIZE {
        sigBlockLength := BLOCK_SIZE;
      } else if |next| == 4 {
        sigBlockLength := DecodeInt32(next);
        if sigBlockLength >= BLOCK_SIZE {
          return Fail(InvalidSignatureLength);
        }
        sigUndoBuffer := None;
      } else {
        return Fail(InvalidSignatureData);
      }
      return Pass;
    }

    /**
     * One round of the `Delta.Run` loop up to the end-of-input check: next signature entry,
     * read and pad one block, compare its hash and length with the entry, then extend the skip
     * or write the pending skip and the block as a literal, and flush a skip about to overflow.
     */
    method Round(h: Hasher, buffer: array<byte>, skipBytes: int) returns (o: Outcome, size: nat, skipAfter: int)
      requires input != signature && buffer.Length == BLOCK_SIZE
      requires 0 <= skipBytes < INT32_MAX - BLOCK_SIZE
      modifies this, input, signature, delta, buffer
      ensures match ReadSigStep(old(Cursor()))
              case Failure(e) => o == Fail(e)
              case Success(step) =>
                var b := Take(old(input.remaining), BLOCK_SIZE);
                var st := Advance(Matches(h, step.entry, b), skipBytes, b);
                o == Pass && Cursor() == step.cursor && size == |b| && skipAfter == st.skip &&
                input.remaining == Drop(old(input.remaining), BLOCK_SIZE) &&
                delta.data == old(delta.data) + RecordsBytes(st.out)
    {
      ghost var c := Cursor();
      ghost var r := input.remaining;
      size, skipAfter := 0, 0;
      o := ReadSig();
      if o.Fail? {
        return;
      }
      ghost var step := ReadSigStep(c).value;
      size := ReadPadded(input, buffer);
      var hash := Hash(h, buffer[..]);
      ghost var b := Take(r, BLOCK_SIZE);
      PadPrefix(b);
      ghost var matched := Matches(h, step.entry, b);
      ghost var out1: seq<Record>;
      if sigBlockHash.Some? && hash == sigBlockHash.value && size == sigBlockLength {
        assert matched;
        skipAfter := skipBytes + size;
        out1 := [];
      } else {
        assert !matched;
        WriteBlock(delta, skipBytes, size, buffer[..]);
        skipAfter := 0;
        out1 := Emit(skipBytes, b);
      }
      ghost var st := Advance(matched, skipBytes, b);
      assert delta.data == old(delta.data) + RecordsBytes(out1);
      if skipAfter >= INT32_MAX - BLOCK_SIZE {
        ghost var flush := Emit(skipAfter, []);
        assert st.out == out1 + flush && st.skip == 0;
        WriteBlock(delta, skipAfter, 0, buffer[..]);
        RecordsBytesAppend(out1, flush);
        Associative(old(delta.data), RecordsBytes(out1), RecordsBytes(flush));
        skipAfter := 0;
      } else {
        assert st.out == out1 && st.skip == skipAfter;
      }
    }

    /**
     * `Delta.Run`: the signature header, the delta header, then rounds until the short final
     * block, after which the pending skip is written.
     */
    method Run(h: Hasher) returns (o: Outcome)
      requires input != signature
      modifies this, input, signature, delta
      ensures match DeltaOf(h, old(signature.remaining), old(input.remaining))
              case Success(bytes) => o == Pass && delta.data == old(delta.data) + bytes
              case Failure(e) => o == Fail(e)
      ensures Take(old(signature.remaining), |SIG_HEADER|) != SIG_HEADER ==>
                delta.data == old(delta.data) && input.remaining == old(input.remaining)
    {
      ghost var s := input.remaining;
      ghost var sig := signature.remaining;
      o := InitSig();
      if o.Fail? {
        return;
      }
      ghost var c0 := Cursor();
      DeltaOfRecords(h, sig, s, c0);
      delta.Write(DELTA_HEADER);
      var buffer := new byte[BLOCK_SIZE];
      var skipBytes := 0;
      ghost var emitted: seq<Record> := [];
      assert Prepend(emitted, EncodeFrom(h, c0, s, 0)) == EncodeFrom(h, c0, s, 0) by {
        if EncodeFrom(h, c0, s, 0).Success? {
          assert [] + EncodeFrom(h, c0, s, 0).value == EncodeFrom(h, c0, s, 0).value;
        }
      }
      assert RecordsBytes(emitted) == [];
      while true
        invariant 0 <= skipBytes < INT32_MAX - BLOCK_SIZE
        invariant AllEncodable(emitted)
        invariant delta.data == old(delta.data) + DELTA_HEADER + RecordsBytes(emitted)
        invariant EncodeFrom(h, c0, s, 0) == Prepend(emitted, EncodeFrom(h, Cursor(), input.remaining, skipBytes))
        invariant buffer.Length == BLOCK_SIZE
        decreases |input.remaining|
      {
        ghost var c := Cursor();
        ghost var r := input.remaining;
        ghost var skip := skipBytes;
        EncodeRound(h, c, r, skip);
        var size;
        o, size, skipBytes := Round(h, buffer, skipBytes);
        if o.Fail? {
          assert DeltaOf(h, sig, s) == Failure(o.error);
          return;
        }
        ghost var step := ReadSigStep(c).value;
        ghost var b := Take(r, BLOCK_SIZE);
        ghost var st := Advance(Matches(h, step.entry, b), skip, b);
        RecordsBytesAppend(emitted, st.out);
        Associative(old(delta.data) + DELTA_HEADER, RecordsBytes(emitted), RecordsBytes(st.out));
        if size < buffer.Length {
          ghost var last := Emit(skipBytes, []);
          var block := buffer[..];
          assert IsInt32(skipBytes) && |block| == BLOCK_SIZE;
          WriteBlock(delta, skipBytes, 0, block);
          RecordsBytesAppend(emitted + st.out, last);
          Associative(old(delta.data) + DELTA_HEADER, RecordsBytes(emitted + st.out), RecordsBytes(last));
          Associative(emitted, st.out, last);
          assert EncodeFrom(h, c0, s, 0) == Success(emitted + (st.out + last));
          emitted := emitted + st.out + last;
          Associative(old(delta.data), DELTA_HEADER, RecordsBytes(emitted));
          assert DeltaOf(h, sig, s) == Success(DELTA_HEADER + RecordsBytes(emitted));
          break;
        }
        PrependAppend(emitted, st.out, EncodeFrom(h, Cursor(), input.remaining, skipBytes));
        emitted := emitted + st.out;
        assert input.remaining == r[BLOCK_SIZE..];
      }
    }
  }
}
