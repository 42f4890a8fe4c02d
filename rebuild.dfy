/**
 * How a patch rebuilds the new input over the old file, record by record: the target holds
 * the new input up to the cursor and the old file after it, and each record of a forward delta
 * either skips bytes the two files share or writes the new input's own bytes.
 */
module Rebuild {
  import opened Bytes
  import opened Results
  import opened Streams
  import opened Format
  import opened DeltaFormat
  import opened Delta
  import opened Patch

  /** The old file `a` and the new input `c` agree on `[lo, hi)`. */
  predicate Agree(a: seq<byte>, c: seq<byte>, lo: nat, hi: nat) {
    lo <= hi <= |c| && (lo < hi ==> hi <= |a|) && forall j :: lo <= j < hi ==> a[j] == c[j]
  }

  /** The target while it is being patched: the new input up to `p`, the old file after it. */
  function Merged(c: seq<byte>, a: seq<byte>, p: nat): (m: seq<byte>)
    requires p <= |c|
    ensures |m| == if p <= |a| then |a| else p
  {
    if p <= |a| then c[..p] + a[p..] else c[..p]
  }

  /**
   * Record `r`, applied at position `p`, carries on rebuilding the new input: its skip is
   * non-negative and passes over bytes both files share, its literal is the new input's bytes
   * where it is written.
   */
  predicate RecordReproduces(a: seq<byte>, c: seq<byte>, p: nat, r: Record) {
    r.skip >= 0 && p + r.skip + |r.data| <= |c| && Agree(a, c, p, p + r.skip) &&
    forall j :: 0 <= j < |r.data| ==> r.data[j] == c[p + r.skip + j]
  }

  /**
   * Where records `rs`, applied from position `p`, have rebuilt the new input to over the old
   * file, or nothing if one of them does not carry on rebuilding it.
   */
  function RebuiltTo(a: seq<byte>, c: seq<byte>, p: nat, rs: seq<Record>): Option<nat>
    decreases |rs|
  {
    if rs == [] then Some(p)
    else if RecordReproduces(a, c, p, rs[0]) then RebuiltTo(a, c, p + rs[0].skip + |rs[0].data|, rs[1..])
    else None
  }

  /** Records `rs`, applied from position `p`, rebuild the new input up to `q` over the old file. */
  predicate Reproduces(a: seq<byte>, c: seq<byte>, p: nat, rs: seq<Record>, q: nat) {
    RebuiltTo(a, c, p, rs) == Some(q)
  }

  /** Skipping over shared bytes leaves the target as it would be after copying them. */
  lemma MergedSkip(a: seq<byte>, c: seq<byte>, p: nat, q: nat)
    requires Agree(a, c, p, q)
    ensures Merged(c, a, p) == Merged(c, a, q)
  {
    if p < q {
      assert forall j :: 0 <= j < |Merged(c, a, p)| ==> Merged(c, a, p)[j] == Merged(c, a, q)[j];
    }
  }

  /** Writing the new input's bytes at `q` extends the rebuilt part. */
  lemma MergedWrite(a: seq<byte>, c: seq<byte>, q: nat, n: nat)
    requires q + n <= |c|
    ensures Overwrite(Merged(c, a, q), q, c[q..q + n]) == Merged(c, a, q + n)
  {
    var w := Overwrite(Merged(c, a, q), q, c[q..q + n]);
    assert |w| == |Merged(c, a, q + n)|;
    assert forall j :: 0 <= j < |w| ==> w[j] == Merged(c, a, q + n)[j];
  }

  /** Applying a reproducing record to the partly rebuilt target rebuilds it further. */
  lemma RecordOnMerged(a: seq<byte>, c: seq<byte>, p: nat, r: Record)
    requires RecordReproduces(a, c, p, r)
    ensures ApplyRecord(FileState(Merged(c, a, p), p), r) ==
            Success(FileState(Merged(c, a, p + r.skip + |r.data|), p + r.skip + |r.data|))
  {
    var at := p + r.skip;
    var n := |r.data|;
    MergedSkip(a, c, p, at);
    if n == 0 {
      assert ApplyRecord(FileState(Merged(c, a, p), p), r) == Success(FileState(Merged(c, a, at), at));
    } else {
      assert r.data == c[at..at + n];
      MergedWrite(a, c, at, n);
      assert ApplyRecord(FileState(Merged(c, a, p), p), r) ==
             Success(FileState(Overwrite(Merged(c, a, at), at, c[at..at + n]), at + n));
    }
  }

  /** Replaying reproducing records takes the target from `Merged(p)` to `Merged(q)`. */
  lemma {:induction false} ReproducesReplay(a: seq<byte>, c: seq<byte>, p: nat, rs: seq<Record>, q: nat)
    requires Reproduces(a, c, p, rs, q) && p <= |c|
    ensures q <= |c|
    ensures Replay(rs, FileState(Merged(c, a, p), p)) == Success(FileState(Merged(c, a, q), q))
    decreases |rs|
  {
    if rs != [] {
      var r := rs[0];
      RecordOnMerged(a, c, p, r);
      ReproducesReplay(a, c, p + r.skip + |r.data|, rs[1..], q);
    }
  }

  lemma {:induction false} ReproducesAppend(a: seq<byte>, c: seq<byte>, p: nat, xs: seq<Record>, q: nat, ys: seq<Record>, s: nat)
    requires Reproduces(a, c, p, xs, q) && Reproduces(a, c, q, ys, s)
    ensures Reproduces(a, c, p, xs + ys, s)
    decreases |xs|
  {
    if xs == [] {
      assert xs + ys == ys;
    } else {
      assert (xs + ys)[0] == xs[0];
      assert (xs + ys)[1..] == xs[1..] + ys;
      var r := xs[0];
      ReproducesAppend(a, c, p + r.skip + |r.data|, xs[1..], q, ys, s);
    }
  }

  /** A lone skip over the shared bytes from `p` to `q`. */
  lemma SkipReproduces(a: seq<byte>, c: seq<byte>, p: nat, q: nat)
    requires p <= q && Agree(a, c, p, q)
    ensures Reproduces(a, c, p, Emit(q - p, []), q)
  {
    var rs := Emit(q - p, []);
    if rs != [] {
      assert rs[1..] == [];
      assert RecordReproduces(a, c, p, rs[0]);
    }
  }

  /** Records that rebuild up to `q` and a final skip over shared bytes rebuild all of `c`. */
  lemma SkipToEnd(a: seq<byte>, c: seq<byte>, p: nat, rs: seq<Record>, q: nat)
    requires Reproduces(a, c, p, rs, q) && q <= |c| && Agree(a, c, q, |c|)
    ensures Reproduces(a, c, p, rs + Emit(|c| - q, []), |c|)
  {
    SkipReproduces(a, c, q, |c|);
    ReproducesAppend(a, c, p, rs, q, Emit(|c| - q, []), |c|);
  }

  /**
   * One round of the delta loop, independent of the signature: block `b` sits at `q` in the new
   * input, the `k` bytes from `p` to `q` are shared and pending; a matched block must also sit
   * at `q` in the old file. The records written reproduce the new input up to where the
   * pending skip (now `st.skip` bytes, all shared) begins.
   */
  lemma AdvanceReproduces(a: seq<byte>, c: seq<byte>, p: nat, q: nat, k: int, b: seq<byte>, matched: bool)
    requires 0 <= k < INT32_MAX - BLOCK_SIZE && p + k == q && |b| <= BLOCK_SIZE
    requires q + |b| <= |c| && b == c[q..q + |b|] && Agree(a, c, p, q)
    requires matched ==> q + |b| <= |a| && a[q..q + |b|] == b
    ensures var st := Advance(matched, k, b);
            st.skip <= q + |b| &&
            Reproduces(a, c, p, st.out, q + |b| - st.skip) &&
            Agree(a, c, q + |b| - st.skip, q + |b|)
  {
    var st := Advance(matched, k, b);
    var e := q + |b|;
    if matched {
      assert Agree(a, c, p, e) by {
        forall j | q <= j < e ensures a[j] == c[j] {
          assert a[j] == a[q..e][j - q] && c[j] == c[q..e][j - q];
        }
      }
      if k + |b| >= INT32_MAX - BLOCK_SIZE {
        SkipReproduces(a, c, p, e);
        assert st.out == Emit(e - p, []);
      }
    } else {
      var out1 := Emit(k, b);
      if out1 != [] {
        assert out1[1..] == [];
        assert RecordReproduces(a, c, p, out1[0]);
      }
      assert st.out == out1;
    }
  }
}
