/**
 * Signature generation: the header, then the digest of every block of the input (the last,
 * short or empty, block zero-padded), then that last block's true length.
 */
module Signature {
  import opened Bytes
  import opened Format
  import opened Streams

  /** The digest of the next block of the unread input `r`, hashed in a zero-padded buffer. */
  function Digest(h: Hasher, r: seq<byte>): (d: seq<byte>)
    ensures |d| == HASH_SIZE
  {
    Hash(h, Pad(Take(r, BLOCK_SIZE)))
  }

  /**
   * The signature fields for the unread input `r`: the next block's digest, then either the
   * digests of the blocks after it or, when that block is short, its length.
   */
  function Fields(h: Hasher, r: seq<byte>): seq<byte>
    decreases |r|
  {
    Digest(h, r) + if |r| < BLOCK_SIZE then EncodeInt32(|r|) else Fields(h, r[BLOCK_SIZE..])
  }

  /** The signature file of a stream `s`. */
  function SignatureOf(h: Hasher, s: seq<byte>): seq<byte> {
    SIG_HEADER + Fields(h, s)
  }

  lemma {:induction false} FieldsLength(h: Hasher, r: seq<byte>)
    ensures |Fields(h, r)| == 20 * (|r| / 16384 + 1) + 4
    decreases |r|
  {
    if |r| >= BLOCK_SIZE {
      FieldsLength(h, r[BLOCK_SIZE..]);
      DivStep(|r|);
    }
  }

  /** The fields of an unread input shorter than a block: its digest and its length. */
  lemma FieldsShort(h: Hasher, r: seq<byte>)
    requires |r| < BLOCK_SIZE
    ensures Fields(h, r) == Digest(h, r) + EncodeInt32(|r|)
  {
  }

  /** The fields of an unread input of a block or more: its first digest, then the fields of the rest. */
  lemma FieldsFull(h: Hasher, r: seq<byte>)
    requires |r| >= BLOCK_SIZE
    ensures Fields(h, r) == Digest(h, r) + Fields(h, r[BLOCK_SIZE..])
  {
  }

  /** The fields are the first block's digest, then what follows that block's digest. */
  lemma FieldsHead(h: Hasher, r: seq<byte>)
    ensures |Fields(h, r)| >= 24
    ensures Fields(h, r)[..20] == Digest(h, r)
    ensures Fields(h, r)[20..] == if |r| < BLOCK_SIZE then EncodeInt32(|r|) else Fields(h, r[BLOCK_SIZE..])
  {
    FieldsLength(h, r);
    var d := Digest(h, r);
    if |r| < BLOCK_SIZE {
      FieldsShort(h, r);
      var e := EncodeInt32(|r|);
      assert (d + e)[..20] == d && (d + e)[20..] == e;
    } else {
      FieldsFull(h, r);
      var g := Fields(h, r[BLOCK_SIZE..]);
      assert (d + g)[..20] == d && (d + g)[20..] == g;
    }
  }

  /** The fields begin with the digest of the first block. */
  lemma FieldsFirstDigest(h: Hasher, r: seq<byte>)
    ensures 20 <= |Fields(h, r)|
    ensures Fields(h, r)[0..20] == Hash(h, Pad(Block(r, 0)))
  {
    var d := Digest(h, r);
    BlockRead(r, 0);
    assert r[16384 * 0..] == r;
    if |r| < BLOCK_SIZE {
      FieldsShort(h, r);
      assert (d + EncodeInt32(|r|))[0..20] == d;
    } else {
      FieldsFull(h, r);
      assert (d + Fields(h, r[BLOCK_SIZE..]))[0..20] == d;
    }
  }

  /** Digest `i` of the fields is that of block `i` of `r`. */
  lemma {:induction false} FieldsDigest(h: Hasher, r: seq<byte>, i: nat)
    requires i < BlockCount(|r|)
    ensures 20 * i + 20 <= |Fields(h, r)|
    ensures Fields(h, r)[20 * i .. 20 * i + 20] == Hash(h, Pad(Block(r, i)))
    decreases i, 1
  {
    if i == 0 {
      FieldsFirstDigest(h, r);
    } else {
      FieldsLaterDigest(h, r, i);
    }
  }

  /** Digest `i` past the first is digest `i - 1` of the fields after the first block. */
  lemma {:induction false} FieldsLaterDigest(h: Hasher, r: seq<byte>, i: nat)
    requires 1 <= i < BlockCount(|r|)
    ensures 20 * i + 20 <= |Fields(h, r)|
    ensures Fields(h, r)[20 * i .. 20 * i + 20] == Hash(h, Pad(Block(r, i)))
    decreases i, 0
  {
    BlockCountStep(|r|);
    FieldsDigest(h, r[BLOCK_SIZE..], i - 1);
    DigestShift(h, r, i);
  }

  /** Digest `i - 1` of the fields after the first block is digest `i` of the fields. */
  lemma DigestShift(h: Hasher, r: seq<byte>, i: nat)
    requires |r| >= BLOCK_SIZE && 1 <= i < BlockCount(|r|)
    requires 20 * (i - 1) + 20 <= |Fields(h, r[BLOCK_SIZE..])|
    requires Fields(h, r[BLOCK_SIZE..])[20 * (i - 1) .. 20 * (i - 1) + 20] == Hash(h, Pad(Block(r[BLOCK_SIZE..], i - 1)))
    ensures 20 * i + 20 <= |Fields(h, r)|
    ensures Fields(h, r)[20 * i .. 20 * i + 20] == Hash(h, Pad(Block(r, i)))
  {
    var g := Fields(h, r[BLOCK_SIZE..]);
    FieldsFull(h, r);
    SliceOfAppend(Digest(h, r), g, 20 * i, 20 * i + 20);
    BlockShift(r, i);
  }

  lemma {:induction false} FieldsEnd(h: Hasher, r: seq<byte>)
    ensures |Fields(h, r)| >= 4
    ensures Fields(h, r)[|Fields(h, r)| - 4..] == EncodeInt32(|r| % 16384)
    decreases |r|
  {
    var d := Digest(h, r);
    if |r| >= BLOCK_SIZE {
      FieldsFull(h, r);
      FieldsEnd(h, r[BLOCK_SIZE..]);
      DivStep(|r|);
      var g := Fields(h, r[BLOCK_SIZE..]);
      SliceOfAppend(d, g, |d + g| - 4, |d + g|);
    } else {
      FieldsShort(h, r);
      var e := EncodeInt32(|r|);
      SliceOfAppend(d, e, |d + e| - 4, |d + e|);
    }
  }

  /**
   * The signature's length: the header, exactly `|s| / BLOCK_SIZE + 1` digests (one even for an
   * empty stream), and a 4-byte length.
   */
  lemma SignatureLength(h: Hasher, s: seq<byte>)
    ensures |SignatureOf(h, s)| == |SIG_HEADER| + 20 * (|s| / 16384 + 1) + 4
  {
    FieldsLength(h, s);
  }

  /** Digest `i` of the signature is the hash of block `i` padded with zeros to BLOCK_SIZE. */
  lemma SignatureDigest(h: Hasher, s: seq<byte>, i: nat)
    requires i < BlockCount(|s|)
    ensures |SIG_HEADER| + 20 * i + 20 <= |SignatureOf(h, s)|
    ensures SignatureOf(h, s)[|SIG_HEADER| + 20 * i .. |SIG_HEADER| + 20 * i + 20] == Hash(h, Pad(Block(s, i)))
  {
    FieldsDigest(h, s, i);
    SliceOfAppend(SIG_HEADER, Fields(h, s), |SIG_HEADER| + 20 * i, |SIG_HEADER| + 20 * i + 20);
  }

  /**
   * The signature ends with the true length of the final block, `|s| mod BLOCK_SIZE`, which is
   * therefore always below BLOCK_SIZE.
   */
  lemma SignatureTrailer(h: Hasher, s: seq<byte>)
    ensures |SignatureOf(h, s)| >= 4
    ensures var n := |SignatureOf(h, s)|;
            DecodeInt32(SignatureOf(h, s)[n - 4..]) == |s| % 16384 == |Block(s, BlockCount(|s|) - 1)|
    ensures var n := |SignatureOf(h, s)|;
            0 <= DecodeInt32(SignatureOf(h, s)[n - 4..]) < BLOCK_SIZE
  {
    FieldsEnd(h, s);
    BlockSizes(s, BlockCount(|s|) - 1);
    var f := Fields(h, s);
    assert SignatureOf(h, s) == SIG_HEADER + f;
    SliceOfAppend(SIG_HEADER, f, |SIG_HEADER + f| - 4, |SIG_HEADER + f|);
    assert (SIG_HEADER + f)[|SIG_HEADER + f| - 4..] == (SIG_HEADER + f)[|SIG_HEADER + f| - 4..|SIG_HEADER + f|];
    assert f[|f| - 4..] == f[|f| - 4..|f|];
    DecodeEncodeInt32(|s| % 16384);
  }

  /**
   * One block read into the reused buffer, the buffer's tail cleared after a short read: the
   * buffer then holds the padded block.
   */
  method ReadPadded(input: ByteReader, buffer: array<byte>) returns (size: nat)
    requires buffer.Length == BLOCK_SIZE
    modifies input, buffer
    ensures size == |Take(old(input.remaining), BLOCK_SIZE)|
    ensures buffer[..] == Pad(Take(old(input.remaining), BLOCK_SIZE))
    ensures input.remaining == Drop(old(input.remaining), BLOCK_SIZE)
  {
    ghost var r := input.remaining;
    size := input.Read(buffer);
    if size < buffer.Length {
      forall j | size <= j < buffer.Length {
        buffer[j] := 0;
      }
    }
    PaddedBuffer(buffer[..], Take(r, BLOCK_SIZE));
  }

  /** The first half of one round of the signature loop: read, pad, hash and write one block's digest. */
  method WriteDigest(h: Hasher, input: ByteReader, buffer: array<byte>, signature: ByteWriter) returns (size: nat)
    requires buffer.Length == BLOCK_SIZE
    modifies input, buffer, signature
    ensures size == |Take(old(input.remaining), BLOCK_SIZE)|
    ensures input.remaining == Drop(old(input.remaining), BLOCK_SIZE)
    ensures signature.data == old(signature.data) + Digest(h, old(input.remaining))
  {
    size := ReadPadded(input, buffer);
    var hash := Hash(h, buffer[..]);
    signature.Write(hash);
  }

  /** After the digest of a short block, the signature goes on with that block's length and ends. */
  lemma AppendShortFields(h: Hasher, r: seq<byte>, before: seq<byte>)
    requires |r| < BLOCK_SIZE
    ensures before + Digest(h, r) + EncodeInt32(|r|) == before + Fields(h, r)
  {
    FieldsShort(h, r);
    Associative(before, Digest(h, r), EncodeInt32(|r|));
  }

  /** After the digest of a full block, the signature goes on with the fields of what follows it. */
  lemma AppendFullFields(h: Hasher, r: seq<byte>, before: seq<byte>)
    requires |r| >= BLOCK_SIZE
    ensures before + Digest(h, r) + Fields(h, r[BLOCK_SIZE..]) == before + Fields(h, r)
  {
    FieldsFull(h, r);
    Associative(before, Digest(h, r), Fields(h, r[BLOCK_SIZE..]));
  }

  /**
   * `Signature.Run`: reads the input a block at a time into one reused buffer, writes the
   * buffer's hash, and after the first short block writes that block's length and stops.
   */
  method Run(h: Hasher, input: ByteReader, signature: ByteWriter)
    modifies input, signature
    ensures signature.data == old(signature.data) + SignatureOf(h, old(input.remaining))
    ensures input.remaining == []
  {
    ghost var s := input.remaining;
    signature.Write(SIG_HEADER);
    var buffer := new byte[BLOCK_SIZE];
    while true
      invariant signature.data + Fields(h, input.remaining) == old(signature.data) + SignatureOf(h, s)
      invariant buffer.Length == BLOCK_SIZE
      decreases |input.remaining|
    {
      ghost var r := input.remaining;
      ghost var before := signature.data;
      var size := WriteDigest(h, input, buffer, signature);
      if size < buffer.Length {
        signature.Write(EncodeInt32(size));
        AppendShortFields(h, r, before);
        break;
      }
      assert input.remaining == r[BLOCK_SIZE..];
      AppendFullFields(h, r, before);
    }
  }
}
