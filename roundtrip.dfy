/**
 * What the four engines achieve together: patching the old file with the delta computed
 * against its signature rebuilds the new input, and patching the result with the reverse delta
 * gives the old file back.
 */
module RoundTrip {
  import opened Bytes
  import opened Results
  import opened Streams
  import opened Format
  import opened DeltaFormat
  import opened Signature
  import opened Delta
  import opened Patch
  import opened ReverseDelta
  import opened Rebuild

  // ---------------------------------------------------------------------------------------
  // Patching with records that never seek backwards
  // ---------------------------------------------------------------------------------------

  /** Records that never seek backwards move the cursor forwards. */
  lemma {:induction false} TotalNonNegative(rs: seq<Record>)
    requires NonNegativeSkips(rs)
    ensures Total(rs) >= 0
    decreases |rs|
  {
    if rs != [] {
      assert NonNegativeSkips(rs[1..]) by {
        forall k | 0 <= k < |rs[1..]| ensures rs[1..][k].skip >= 0 {
          assert rs[1..][k] == rs[k + 1];
        }
      }
      TotalNonNegative(rs[1..]);
    }
  }

  /** The file a forward replay of `rs` from `(x, p)` leaves behind, once its length is set. */
  function Forwarded(rs: seq<Record>, x: seq<byte>, p: nat): (b: seq<byte>)
    requires NonNegativeSkips(rs)
    ensures |b| == p + Total(rs) >= p
  {
    TotalNonNegative(rs);
    ReplayForward(rs, FileState(x, p));
    Finish(Replay(rs, FileState(x, p)).value).content
  }

  /** Patching with encoded records that never seek backwards succeeds, with the replayed file. */
  lemma PatchForward(rs: seq<Record>, a: seq<byte>)
    requires AllEncodable(rs) && NonNegativeSkips(rs)
    ensures var b := Forwarded(rs, a, 0);
            PatchOf(DELTA_HEADER + RecordsBytes(rs), FileState(a, 0)) == Success(FileState(b, |b|))
  {
    var d := DELTA_HEADER + RecordsBytes(rs);
    assert Take(d, |DELTA_HEADER|) == DELTA_HEADER && Drop(d, |DELTA_HEADER|) == RecordsBytes(rs);
    ReplayForward(rs, FileState(a, 0));
    PatchEncoded(rs, FileState(a, 0));
  }

  // ---------------------------------------------------------------------------------------
  // Forward: Patch(old, Delta(Signature(old), new)) == new
  // ---------------------------------------------------------------------------------------

  /**
   * Equal digests of equally long padded blocks mean equal blocks, for the block pairs the
   * delta engine compares. A 20-byte hash cannot be injective on 16384-byte blocks, so this is
   * an assumption on the two files, not on the hash.
   */
  predicate NoCollision(h: Hasher, a: seq<byte>, c: seq<byte>) {
    forall i: nat :: i < BlockCount(|a|) && i < BlockCount(|c|) ==>
      (|Block(a, i)| == |Block(c, i)| && Hash(h, Pad(Block(a, i))) == Hash(h, Pad(Block(c, i))) ==>
         Block(a, i) == Block(c, i))
  }

  /** A block the delta engine matches against the old file's signature is that file's block too. */
  lemma MatchedBlock(h: Hasher, a: seq<byte>, c: seq<byte>, i: nat)
    requires NoCollision(h, a, c) && i < BlockCount(|c|)
    ensures var b := Block(c, i);
            Matches(h, EntryAt(h, a, i), b) ==> 16384 * i + |b| <= |a| && a[16384 * i..16384 * i + |b|] == b
  {
    var b := Block(c, i);
    if Matches(h, EntryAt(h, a, i), b) {
      assert i < BlockCount(|a|);
      assert Block(a, i) == b;
    }
  }

  /** Every block of the new input `c` that `ms` marks as found sits at the same place in `a`. */
  predicate FoundInOld(ms: seq<bool>, a: seq<byte>, c: seq<byte>)
    requires |ms| == BlockCount(|c|)
  {
    forall i :: 0 <= i < |ms| && ms[i] ==>
      16384 * i + |Block(c, i)| <= |a| && a[16384 * i..16384 * i + |Block(c, i)|] == Block(c, i)
  }

  /** Without collisions, every block the delta engine matches is found in the old file. */
  lemma MatchedFound(h: Hasher, a: seq<byte>, c: seq<byte>)
    requires NoCollision(h, a, c)
    ensures FoundInOld(MatchedBlocks(h, a, c), a, c)
  {
    forall i | 0 <= i < BlockCount(|c|) {
      MatchedBlock(h, a, c, i);
    }
  }

  /** One round of the delta loop over blocks, spelled out. */
  lemma BlocksRound(ms: seq<bool>, c: seq<byte>, i: nat, k: int)
    requires |ms| == BlockCount(|c|) && i < |ms| && 0 <= k < INT32_MAX - BLOCK_SIZE
    ensures var b := Block(c, i);
            var st := Advance(ms[i], k, b);
            b == c[16384 * i..16384 * i + |b|] &&
            (|b| < BLOCK_SIZE ==> 16384 * i + |b| == |c| && EncodeBlocks(ms, c, i, k) == st.out + Emit(st.skip, [])) &&
            (|b| >= BLOCK_SIZE ==> 16384 * i + |b| == 16384 * (i + 1) && i + 1 < |ms| &&
                                   EncodeBlocks(ms, c, i, k) == st.out + EncodeBlocks(ms, c, i + 1, st.skip))
  {
    BlockSizes(c, i);
  }

  /**
   * One block of the delta, with the new input rebuilt up to `p` and the `k` shared bytes
   * after it pending: the records `out` of round `i` rebuild it up to `p1`, where the new
   * pending skip of `skip` shared bytes begins, and the rest of the delta follows them.
   */
  lemma ForwardRound(ms: seq<bool>, a: seq<byte>, c: seq<byte>, i: nat, k: int, p: nat)
      returns (out: seq<Record>, skip: int, p1: nat, last: bool)
    requires |ms| == BlockCount(|c|) && i < |ms|
    requires ms[i] ==> 16384 * i + |Block(c, i)| <= |a| && a[16384 * i..16384 * i + |Block(c, i)|] == Block(c, i)
    requires 0 <= k < INT32_MAX - BLOCK_SIZE && p + k == 16384 * i
    requires Agree(a, c, p, 16384 * i)
    ensures 0 <= skip < INT32_MAX - BLOCK_SIZE && Reproduces(a, c, p, out, p1)
    ensures last ==> p1 <= |c| && Agree(a, c, p1, |c|) && EncodeBlocks(ms, c, i, k) == out + Emit(|c| - p1, [])
    ensures !last ==> i + 1 < |ms| && p1 + skip == 16384 * (i + 1) && Agree(a, c, p1, 16384 * (i + 1)) &&
                      EncodeBlocks(ms, c, i, k) == out + EncodeBlocks(ms, c, i + 1, skip)
  {
    var b := Block(c, i);
    AdvanceReproduces(a, c, p, 16384 * i, k, b, ms[i]);
    BlocksRound(ms, c, i, k);
    var st := Advance(ms[i], k, b);
    out, skip, p1, last := st.out, st.skip, 16384 * i + |b| - st.skip, |b| < BLOCK_SIZE;
    if last {
      assert 16384 * i + |b| == |c|;
      assert skip == |c| - p1;
    } else {
      assert 16384 * i + |b| == 16384 * (i + 1);
    }
  }

  /**
   * From block `i` on, with the new input rebuilt up to `p` and the `k` shared bytes after it
   * pending, the delta records rebuild the rest of the new input.
   */
  lemma {:induction false} ForwardFrom(ms: seq<bool>, a: seq<byte>, c: seq<byte>, i: nat, k: int, p: nat)
    requires |ms| == BlockCount(|c|) && FoundInOld(ms, a, c)
    requires i < |ms| && 0 <= k < INT32_MAX - BLOCK_SIZE && p + k == 16384 * i
    requires Agree(a, c, p, 16384 * i)
    ensures Reproduces(a, c, p, EncodeBlocks(ms, c, i, k), |c|)
    decreases |c| - 16384 * i
  {
    var out, skip, p1, last := ForwardRound(ms, a, c, i, k, p);
    if last {
      SkipToEnd(a, c, p, out, p1);
    } else {
      ForwardFrom(ms, a, c, i + 1, skip, p1);
      ReproducesAppend(a, c, p, out, p1, EncodeBlocks(ms, c, i + 1, skip), |c|);
    }
  }

  /**
   * Forward correctness: unless two compared blocks collide, patching the old file `a` with
   * the delta of the new input `c` against `a`'s signature turns `a` into `c`.
   */
  lemma Forward(h: Hasher, a: seq<byte>, c: seq<byte>)
    requires NoCollision(h, a, c)
    ensures DeltaOf(h, SignatureOf(h, a), c).Success?
    ensures PatchOf(DeltaOf(h, SignatureOf(h, a), c).value, FileState(a, 0)) == Success(FileState(c, |c|))
  {
    DeltaAtSignature(h, a, c);
    var ms := MatchedBlocks(h, a, c);
    assert NonNegativeSkips(EncodeBlocks(ms, c, 0, 0));
    MatchedFound(h, a, c);
    ForwardBlocks(ms, a, c);
  }

  /** Patching `a` with the delta loop's records, when every matched block is found in `a`, gives `c`. */
  lemma ForwardBlocks(ms: seq<bool>, a: seq<byte>, c: seq<byte>)
    requires |ms| == BlockCount(|c|) && FoundInOld(ms, a, c)
    requires var rs := EncodeBlocks(ms, c, 0, 0); AllEncodable(rs) && NonNegativeSkips(rs)
    ensures PatchOf(DELTA_HEADER + RecordsBytes(EncodeBlocks(ms, c, 0, 0)), FileState(a, 0)) == Success(FileState(c, |c|))
  {
    var rs := EncodeBlocks(ms, c, 0, 0);
    ForwardFrom(ms, a, c, 0, 0, 0);
    assert Merged(c, a, 0) == a;
    ReproducesReplay(a, c, 0, rs, |c|);
    PatchForward(rs, a);
    assert Resize(Merged(c, a, |c|), |c|) == c;
  }

  // ---------------------------------------------------------------------------------------
  // Reverse: Patch(Patch(old, delta), ReverseDelta(old, delta)) == old
  // ---------------------------------------------------------------------------------------

  /** A patch that ends with the old file `a` in front of the cursor, and the cursor at its end. */
  predicate Restores(g: Result<FileState>, a: seq<byte>) {
    g.Success? && g.value.position == |a| && |a| <= |g.value.content| && g.value.content[..|a|] == a
  }

  /** The records after the first of a well-formed stream are well-formed too. */
  lemma RestOfRecords(rs: seq<Record>)
    requires rs != [] && AllEncodable(rs) && NonNegativeSkips(rs)
    ensures AllEncodable(rs[1..]) && NonNegativeSkips(rs[1..])
    ensures RecordsBytes(rs) == RecordBytes(rs[0]) + RecordsBytes(rs[1..])
  {
    forall k | 0 <= k < |rs[1..]| ensures Encodable(rs[1..][k]) && rs[1..][k].skip >= 0 {
      assert rs[1..][k] == rs[k + 1];
    }
  }

  /**
   * The first forward record leaves alone the bytes it skips over, and nothing after it writes
   * before its literal: in the patched file they are still those of `x`.
   */
  lemma ForwardStep(rs: seq<Record>, x: seq<byte>, p: nat)
    requires rs != [] && NonNegativeSkips(rs)
    ensures NonNegativeSkips(rs[1..])
    ensures ApplyRecord(FileState(x, p), rs[0]).Success?
    ensures var g := ApplyRecord(FileState(x, p), rs[0]).value;
            Forwarded(rs, x, p) == Forwarded(rs[1..], g.content, g.position)
    ensures var g := ApplyRecord(FileState(x, p), rs[0]).value;
            |x| <= |g.content| && forall j :: g.position <= j < |x| ==> g.content[j] == x[j]
    ensures p + rs[0].skip + |rs[0].data| <= |Forwarded(rs, x, p)|
    ensures forall j :: p <= j < p + rs[0].skip && j < |x| ==> Forwarded(rs, x, p)[j] == x[j]
  {
    assert NonNegativeSkips(rs[1..]) by {
      forall k | 0 <= k < |rs[1..]| ensures rs[1..][k].skip >= 0 {
        assert rs[1..][k] == rs[k + 1];
      }
    }
    TotalNonNegative(rs[1..]);
    var g := ApplyRecord(FileState(x, p), rs[0]).value;
    ReplayForward(rs[1..], g);
    var f := Replay(rs[1..], g).value;
    forall j | p <= j < p + rs[0].skip && j < |x|
      ensures Forwarded(rs, x, p)[j] == x[j]
    {
      assert g.content[j] == x[j];
      assert f.content[j] == g.content[j];
      var m := Min(f.position, |f.content|);
      assert j < m;
      assert Finish(f).content[..m][j] == f.content[..m][j];
    }
  }

  /** Bytes `b` shares with `a` just after `p` may count as rebuilt already. */
  lemma SharedPrefix(a: seq<byte>, b: seq<byte>, p: nat, q: nat)
    requires p <= q <= |a| && q <= |b|
    requires forall j :: p <= j < q ==> b[j] == a[j]
    ensures a[..p] + b[p..] == a[..q] + b[q..]
  {
    var z := a[..p] + b[p..];
    assert forall j :: 0 <= j < |z| ==> z[j] == (a[..q] + b[q..])[j];
  }

  /** Writing `a`'s own bytes from `q` to `e` over a file rebuilt from `a` up to `q`. */
  lemma WriteOld(a: seq<byte>, b: seq<byte>, q: nat, e: nat)
    requires q <= e <= |a| && e <= |b|
    ensures Overwrite(a[..q] + b[q..], q, a[q..e]) == a[..e] + b[e..]
  {
    var w := Overwrite(a[..q] + b[q..], q, a[q..e]);
    assert forall j :: 0 <= j < |w| ==> w[j] == (a[..e] + b[e..])[j];
  }

  /**
   * One reverse record on the file rebuilt from `a` up to `p`: the skip passes bytes `b` shares
   * with `a`, the literal writes `a`'s bytes up to `e`.
   */
  lemma ReverseApply(a: seq<byte>, b: seq<byte>, p: nat, skip: nat, e: nat)
    requires p + skip <= e <= |a| && e <= |b|
    requires forall j :: p <= j < p + skip ==> b[j] == a[j]
    ensures Replay(Emit(skip, a[p + skip..e]), FileState(a[..p] + b[p..], p)) ==
            Success(FileState(a[..e] + b[e..], e))
  {
    SharedPrefix(a, b, p, p + skip);
    var rs := Emit(skip, a[p + skip..e]);
    if rs != [] {
      assert rs[1..] == [];
      WriteOld(a, b, p + skip, e);
    }
  }

  /** One tail record writes the next `n` bytes of `a` over a file holding `a` up to `p`. */
  lemma TailHead(a: seq<byte>, p: nat, n: nat)
    requires p < |a| && n == Min(|a| - p, BLOCK_SIZE)
    ensures Replay(TailRecords(a, p), FileState(a[..p], p))
         == Replay(TailRecords(a, p + n), FileState(a[..p + n], p + n))
  {
    assert a[..p] + a[p..p + n] == a[..p + n];
    OverwriteAtEnd(a[..p], a[p..p + n]);
    var r := Record(0, a[p..p + n]);
    assert TailRecords(a, p) == [r] + TailRecords(a, p + n);
    ReplayAppend([r], TailRecords(a, p + n), FileState(a[..p], p));
    assert Replay([r], FileState(a[..p], p)) == Success(FileState(a[..p + n], p + n));
  }

  /** The tail records write the rest of `a` over a file that holds `a` up to `p`. */
  lemma {:induction false} TailRestores(a: seq<byte>, p: nat)
    requires p <= |a|
    ensures Replay(TailRecords(a, p), FileState(a[..p], p)) == Success(FileState(a, |a|))
    decreases |a| - p
  {
    if p == |a| {
      assert a[..p] == a;
    } else {
      var n := Min(|a| - p, BLOCK_SIZE);
      TailHead(a, p, n);
      TailRestores(a, p + n);
    }
  }

  /**
   * The first record of `rs` reversed against `a` at `p`: the skip and the literal are cut to
   * end at `a`'s end, and the reverse delta goes on from `e`, where the literal ends.
   */
  lemma ReverseFirst(rs: seq<Record>, a: seq<byte>, p: nat) returns (out: seq<Record>, skip: nat, e: nat)
    requires rs != [] && AllEncodable(rs) && NonNegativeSkips(rs) && p < |a|
    ensures AllEncodable(rs[1..]) && NonNegativeSkips(rs[1..])
    ensures skip <= rs[0].skip && p + skip <= e <= |a| && e <= p + rs[0].skip + |rs[0].data|
    ensures out == Emit(skip, a[p + skip..e])
    ensures e < |a| ==> skip == rs[0].skip && e == p + rs[0].skip + |rs[0].data|
    ensures ReverseFrom(RecordsBytes(rs), a, p) == Prepend(out, ReverseFrom(RecordsBytes(rs[1..]), a, e))
  {
    RestOfRecords(rs);
    ParseRecordBytes(rs[0], RecordsBytes(rs[1..]));
    ReverseRound(RecordsBytes(rs), a, p);
    out, skip, e := ClampedStep(a, p, rs[0]);
  }

  /** A record that never seeks backwards, reversed against `a` at `p`, clamped to `a`'s end. */
  lemma ClampedStep(a: seq<byte>, p: nat, r: Record) returns (out: seq<Record>, skip: nat, e: nat)
    requires p < |a| && r.skip >= 0
    ensures skip <= r.skip && p + skip <= e <= |a| && e <= p + r.skip + |r.data|
    ensures out == Emit(skip, a[p + skip..e])
    ensures e < |a| ==> skip == r.skip && e == p + r.skip + |r.data|
    ensures ReverseStep(a, p, r) == Success(Reversed(out, e))
  {
    skip := if p + r.skip >= |a| then |a| - p else r.skip;
    var at := p + skip;
    e := if at + |r.data| > |a| then |a| else at + |r.data|;
    out := Emit(skip, a[at..e]);
  }

  /**
   * The first record of `rs` reversed against `a` at `p`: the reverse records `out` it turns
   * into take the file rebuilt from `a` up to `p` to the file rebuilt up to `e`; unless the
   * reversal stopped at the end of `a`, the forward replay is then at `e` too, over a file `g`
   * that still agrees with `a` from `e` on.
   */
  lemma RecordStep(rs: seq<Record>, a: seq<byte>, x: seq<byte>, p: nat) returns (out: seq<Record>, e: nat, g: FileState)
    requires rs != [] && AllEncodable(rs) && NonNegativeSkips(rs)
    requires p < |a| <= |x| && forall j :: p <= j < |a| ==> x[j] == a[j]
    ensures AllEncodable(rs[1..]) && NonNegativeSkips(rs[1..])
    ensures ReverseFrom(RecordsBytes(rs), a, p) == Prepend(out, ReverseFrom(RecordsBytes(rs[1..]), a, e))
    ensures Forwarded(rs, x, p) == Forwarded(rs[1..], g.content, g.position)
    ensures e <= |a|
    ensures var b := Forwarded(rs, x, p);
            e <= |b| && Replay(out, FileState(a[..p] + b[p..], p)) == Success(FileState(a[..e] + b[e..], e))
    ensures e < |a| ==> e == g.position && |a| <= |g.content| && forall j :: e <= j < |a| ==> g.content[j] == a[j]
  {
    var skip;
    out, skip, e := ReverseFirst(rs, a, p);
    ForwardStep(rs, x, p);
    g := ApplyRecord(FileState(x, p), rs[0]).value;
    var b := Forwarded(rs, x, p);
    assert forall j :: p <= j < p + skip ==> b[j] == a[j];
    ReverseApply(a, b, p, skip, e);
  }

  /**
   * The reverse delta of the encoded records `rs`, made against the old file `a` from `p` on,
   * rebuilds `a` over the file the forward replay of `rs` produced, once `a` has been restored
   * up to `p`. The forward replay starts from `x`, which agrees with `a` from `p` on.
   */
  lemma {:induction false} RoundTripFrom(rs: seq<Record>, a: seq<byte>, x: seq<byte>, p: nat)
    requires AllEncodable(rs) && NonNegativeSkips(rs)
    requires p <= |a| <= |x| && forall j :: p <= j < |a| ==> x[j] == a[j]
    ensures ReverseFrom(RecordsBytes(rs), a, p).Success?
    ensures var b := Forwarded(rs, x, p);
            Restores(Replay(ReverseFrom(RecordsBytes(rs), a, p).value, FileState(a[..p] + b[p..], p)), a)
    decreases |rs|
  {
    var b := Forwarded(rs, x, p);
    if p == |a| {
      assert (a[..p] + b[p..])[..|a|] == a;
    } else if rs == [] {
      assert RecordsBytes(rs) == [];
      assert a[..p] + b[p..] == a[..p];
      TailRestores(a, p);
      assert a[..|a|] == a;
    } else {
      var out, e, g := RecordStep(rs, a, x, p);
      if e < |a| {
        RoundTripFrom(rs[1..], a, g.content, g.position);
      } else {
        assert (a[..e] + b[e..])[..|a|] == a;
      }
      ReplayAppend(out, ReverseFrom(RecordsBytes(rs[1..]), a, e).value, FileState(a[..p] + b[p..], p));
    }
  }

  /**
   * The reverse round trip: patching the old file `a`, opened at its start, with a delta of
   * encodable records that never seek backwards gives a file `b`; the reverse delta made from
   * `a` and that delta exists, and patching `b` with it gives `a` back.
   */
  lemma ReverseRoundTrip(rs: seq<Record>, a: seq<byte>)
    requires AllEncodable(rs) && NonNegativeSkips(rs)
    ensures var d := DELTA_HEADER + RecordsBytes(rs);
            PatchOf(d, FileState(a, 0)).Success? && ReverseOf(d, a, 0).Success? &&
            PatchOf(ReverseOf(d, a, 0).value, FileState(PatchOf(d, FileState(a, 0)).value.content, 0)) ==
            Success(FileState(a, |a|))
  {
    var d := DELTA_HEADER + RecordsBytes(rs);
    PatchForward(rs, a);
    var b := Forwarded(rs, a, 0);
    RoundTripFrom(rs, a, a, 0);
    assert Take(d, |DELTA_HEADER|) == DELTA_HEADER && Drop(d, |DELTA_HEADER|) == RecordsBytes(rs);
    ReverseOfRecords(d, a, 0);
    var rev := ReverseFrom(RecordsBytes(rs), a, 0).value;
    var d2 := DELTA_HEADER + RecordsBytes(rev);
    assert Take(d2, |DELTA_HEADER|) == DELTA_HEADER && Drop(d2, |DELTA_HEADER|) == RecordsBytes(rev);
    assert a[..0] + b[0..] == b;
    PatchEncoded(rev, FileState(b, 0));
    var w := Replay(rev, FileState(b, 0)).value;
    assert Resize(w.content, |a|) == a by {
      assert forall j :: 0 <= j < |a| ==> w.content[..|a|][j] == w.content[j];
    }
  }

  /**
   * The cycle the test suite runs: the signature of the old file `a`, the delta of the new file
   * `c` against it, the reverse delta from `a` and that delta, then `a` patched with the delta
   * and the result patched with the reverse delta. Every step succeeds, the first patch gives
   * `c` unless two compared blocks collide, and the second one always gives `a` back.
   */
  lemma FullCircle(h: Hasher, a: seq<byte>, c: seq<byte>)
    ensures DeltaOf(h, SignatureOf(h, a), c).Success?
    ensures var d := DeltaOf(h, SignatureOf(h, a), c).value;
            PatchOf(d, FileState(a, 0)).Success? && ReverseOf(d, a, 0).Success? &&
            (NoCollision(h, a, c) ==> PatchOf(d, FileState(a, 0)) == Success(FileState(c, |c|))) &&
            PatchOf(ReverseOf(d, a, 0).value, FileState(PatchOf(d, FileState(a, 0)).value.content, 0)) ==
            Success(FileState(a, |a|))
  {
    DeltaAtSignature(h, a, c);
    var rs := DeltaRecords(h, SignatureOf(h, a), c).value;
    assert NonNegativeSkips(rs);
    ReverseRoundTrip(rs, a);
    if NoCollision(h, a, c) {
      Forward(h, a, c);
    }
  }
}
