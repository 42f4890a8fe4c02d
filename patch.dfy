/**
 * Patching: the delta's records are applied in place to the target file. Each record moves the
 * file cursor by its skip (relative to the current position) and writes its literal bytes
 * there; when the records run out, the file is cut (or extended) to the cursor.
 */
module Patch {
  import opened Bytes
  import opened Results
  import opened Streams
  import opened Format
  import opened DeltaFormat

  /** The target file while it is being patched. */
  datatype FileState = FileState(content: seq<byte>, position: nat)

  /**
   * One record applied: `Seek(skip, SeekOrigin.Current)`, which fails before the start of the
   * file, then `Write` of the literal bytes, which is not issued for an empty literal.
   */
  function ApplyRecord(f: FileState, r: Record): (g: Result<FileState>)
    ensures g.Success? <==> f.position + r.skip >= 0
    ensures g.Failure? ==> g.error == SeekBeforeBegin
    ensures g.Success? ==> g.value.position == f.position + r.skip + |r.data|
  {
    if f.position + r.skip < 0 then Failure(SeekBeforeBegin)
    else
      var at := f.position + r.skip;
      if |r.data| == 0 then Success(FileState(f.content, at))
      else Success(FileState(Overwrite(f.content, at, r.data), at + |r.data|))
  }

  /** A sequence of records applied one after the other, stopping at the first failed seek. */
  function Replay(rs: seq<Record>, f: FileState): Result<FileState> {
    if rs == [] then Success(f)
    else
      var g :- ApplyRecord(f, rs[0]);
      Replay(rs[1..], g)
  }

  /** `SetLength(Position)`: the file ends where the last record left the cursor. */
  function Finish(f: FileState): (g: FileState)
    ensures |g.content| == g.position == f.position
    ensures g.content[..Min(f.position, |f.content|)] == f.content[..Min(f.position, |f.content|)]
  {
    FileState(Resize(f.content, f.position), f.position)
  }

  /** The patch loop on the record bytes `d` (the delta after its header), from file state `f`. */
  function PatchFrom(d: seq<byte>, f: FileState): Result<FileState>
    decreases |d|
  {
    var next :- ParseRecord(d);
    match next
    case None => Success(Finish(f))
    case Some(p) =>
      var g :- ApplyRecord(f, p.record);
      PatchFrom(p.rest, g)
  }

  /** One record of the patch loop, spelled out. */
  lemma PatchStep(d: seq<byte>, f: FileState)
    requires ParseRecord(d).Success? && ParseRecord(d).value.Some?
    ensures var p := ParseRecord(d).value.value;
            PatchFrom(d, f) == match ApplyRecord(f, p.record)
                               case Success(g) => PatchFrom(p.rest, g)
                               case Failure(e) => Failure(e)
  {
  }

  /** `Patch.Run` on the whole delta: the header, then the records. */
  function PatchOf(delta: seq<byte>, f: FileState): (r: Result<FileState>)
    ensures Take(delta, |DELTA_HEADER|) != DELTA_HEADER ==> r == Failure(InvalidDeltaHeader)
  {
    if Take(delta, |DELTA_HEADER|) != DELTA_HEADER then Failure(InvalidDeltaHeader)
    else PatchFrom(Drop(delta, |DELTA_HEADER|), f)
  }

  /** A delta with no records truncates the target at the cursor: from the start, to empty. */
  lemma HeaderOnly(f: FileState)
    ensures PatchOf(DELTA_HEADER, f) == Success(FileState(Resize(f.content, f.position), f.position))
    ensures PatchOf(DELTA_HEADER, FileState(f.content, 0)) == Success(FileState([], 0))
  {
    assert Take(DELTA_HEADER, |DELTA_HEADER|) == DELTA_HEADER;
    assert Drop(DELTA_HEADER, |DELTA_HEADER|) == [];
  }

  /** Patching with encoded records is replaying them, then setting the length. */
  lemma {:induction false} PatchEncoded(rs: seq<Record>, f: FileState)
    requires AllEncodable(rs)
    ensures PatchFrom(RecordsBytes(rs), f) == match Replay(rs, f)
                                               case Success(g) => Success(Finish(g))
                                               case Failure(e) => Failure(e)
    decreases |rs|
  {
    if rs == [] {
      assert RecordsBytes(rs) == [];
    } else {
      assert AllEncodable(rs[1..]) by {
        forall k | 0 <= k < |rs[1..]| ensures Encodable(rs[1..][k]) {
          assert rs[1..][k] == rs[k + 1];
        }
      }
      ParseRecordBytes(rs[0], RecordsBytes(rs[1..]));
      match ApplyRecord(f, rs[0])
      case Failure(e) =>
      case Success(g) => PatchEncoded(rs[1..], g);
    }
  }

  /** Replaying `a + b` is replaying `a`, then `b` from where `a` left the file. */
  lemma {:induction false} ReplayAppend(a: seq<Record>, b: seq<Record>, f: FileState)
    ensures Replay(a + b, f) == match Replay(a, f)
                                case Success(g) => Replay(b, g)
                                case Failure(e) => Failure(e)
    decreases |a|
  {
    if a == [] {
      assert a + b == b;
    } else {
      assert (a + b)[0] == a[0];
      assert (a + b)[1..] == a[1..] + b;
      match ApplyRecord(f, a[0])
      case Failure(e) =>
      case Success(g) => ReplayAppend(a[1..], b, g);
    }
  }

  /**
   * With non-negative skips a replay cannot fail, ends `Total(rs)` bytes further on, never
   * shortens the file and never touches the bytes before the cursor it started from.
   */
  lemma {:induction false} ReplayForward(rs: seq<Record>, f: FileState)
    requires NonNegativeSkips(rs)
    ensures Replay(rs, f).Success?
    ensures Replay(rs, f).value.position == f.position + Total(rs)
    ensures |Replay(rs, f).value.content| >= |f.content|
    ensures forall j :: 0 <= j < f.position && j < |f.content| ==> Replay(rs, f).value.content[j] == f.content[j]
    decreases |rs|
  {
    if rs != [] {
      var g := ApplyRecord(f, rs[0]).value;
      assert NonNegativeSkips(rs[1..]) by {
        forall k | 0 <= k < |rs[1..]| ensures rs[1..][k].skip >= 0 {
          assert rs[1..][k] == rs[k + 1];
        }
      }
      ReplayForward(rs[1..], g);
    }
  }

  /** One record applied to the target file: the relative seek, then the literal if there is one. */
  method Apply(target: FileStream, r: Record) returns (o: Outcome)
    modifies target
    ensures match ApplyRecord(FileState(old(target.content), old(target.position)), r)
            case Success(g) => o == Pass && target.content == g.content && target.position == g.position
            case Failure(e) => o == Fail(e)
  {
    o := target.Seek(r.skip);
    if o.Fail? {
      return;
    }
    if |r.data| != 0 {
      target.Write(r.data);
    }
  }

  /**
   * `Patch.Run`: checks the header, then reads record after record (skip, size, literal) and
   * applies each, and finally sets the file's length to the cursor.
   */
  method Run(delta: ByteReader, target: FileStream) returns (o: Outcome)
    modifies delta, target
    ensures match PatchOf(old(delta.remaining), FileState(old(target.content), old(target.position)))
            case Success(f) => o == Pass && target.content == f.content && target.position == f.position
            case Failure(e) => o == Fail(e)
    ensures Take(old(delta.remaining), |DELTA_HEADER|) != DELTA_HEADER ==>
              target.content == old(target.content) && target.position == old(target.position)
  {
    ghost var d := delta.remaining;
    ghost var f0 := FileState(target.content, target.position);
    var header := delta.ReadBytes(|DELTA_HEADER|);
    if header != DELTA_HEADER {
      return Fail(InvalidDeltaHeader);
    }
    while true
      invariant PatchOf(d, f0) == PatchFrom(delta.remaining, FileState(target.content, target.position))
      decreases |delta.remaining|
    {
      ghost var rest := delta.remaining;
      ghost var f := FileState(target.content, target.position);
      var next := ReadRecord(delta);
      if next.Failure? {
        return Fail(next.error);
      }
      if next.value.None? {
        break;
      }
      var r := next.value.value;
      PatchStep(rest, f);
      o := Apply(target, r);
      if o.Fail? {
        return;
      }
    }
    target.SetLength(target.position);
    return Pass;
  }
}
