/**
 * The constants shared by all four engines, the fixed-size blocks the input is cut into,
 * and the content hash they are compared by.
 */
module Format {
  import opened Bytes

  // Products, quotients and remainders below write these two values out as literals, so that
  // the solver sees linear arithmetic.
  const BLOCK_SIZE: nat := 16384
  const HASH_SIZE: nat := 20
  /** "BSSIG01" in ASCII. */
  const SIG_HEADER: seq<byte> := [66, 83, 83, 73, 71, 48, 49]
  /** "BSDELTA01" in ASCII. */
  const DELTA_HEADER: seq<byte> := [66, 83, 68, 69, 76, 84, 65, 48, 49]

  /** The content hash (SHA-1 in the program), taken as a parameter. */
  type Hasher = seq<byte> -> seq<byte>

  /**
   * The HASH_SIZE-byte digest of `buffer`. SHA-1 always yields HASH_SIZE bytes; a hasher that
   * does not is read as giving zeros, so that every digest has the width the formats rely on.
   */
  function Hash(h: Hasher, buffer: seq<byte>): (d: seq<byte>)
    ensures |d| == HASH_SIZE
    ensures |h(buffer)| == HASH_SIZE ==> d == h(buffer)
  {
    var x := h(buffer);
    if |x| == HASH_SIZE then x else Zeros(HASH_SIZE)
  }

  /** How many blocks a stream of `n` bytes is cut into: the last one is always short, possibly empty. */
  function BlockCount(n: nat): nat {
    n / 16384 + 1
  }

  /** Dropping one block drops one from the block count. */
  lemma DivStep(n: int)
    requires n >= 16384
    ensures (n - 16384) / 16384 == n / 16384 - 1
    ensures (n - 16384) % 16384 == n % 16384
  {
  }

  /** Block `i` of `s`: what the `i`-th read of BLOCK_SIZE bytes returns. */
  function Block(s: seq<byte>, i: nat): (b: seq<byte>)
    requires i < BlockCount(|s|)
    ensures |b| <= BLOCK_SIZE && 16384 * i + |b| <= |s|
    ensures b == s[16384 * i .. 16384 * i + |b|]
  {
    s[16384 * i .. Min(16384 * (i + 1), |s|)]
  }

  /**
   * Reading blocks stops at the right place: every block but the last is full, and the last
   * one, short or empty, holds the final `|s| mod BLOCK_SIZE` bytes.
   */
  lemma BlockSizes(s: seq<byte>, i: nat)
    requires i < BlockCount(|s|)
    ensures |Block(s, i)| < BLOCK_SIZE <==> i == BlockCount(|s|) - 1
    ensures i == BlockCount(|s|) - 1 ==> |Block(s, i)| == |s| % 16384 && 16384 * i + |Block(s, i)| == |s|
  {
  }

  /** The unread input at block `i` begins with that block; a full block is followed by block `i + 1`. */
  lemma BlockRead(s: seq<byte>, i: nat)
    requires i < BlockCount(|s|)
    ensures Take(s[16384 * i..], BLOCK_SIZE) == Block(s, i)
    ensures |Block(s, i)| == BLOCK_SIZE ==> s[16384 * i..][BLOCK_SIZE..] == s[16384 * (i + 1)..]
  {
  }

  /** The buffer a block is hashed in: its bytes, then zeros up to BLOCK_SIZE. */
  function Pad(b: seq<byte>): (p: seq<byte>)
    requires |b| <= BLOCK_SIZE
    ensures |p| == BLOCK_SIZE
  {
    b + Zeros(BLOCK_SIZE - |b|)
  }

  /** The padded buffer begins with the block. */
  lemma PadPrefix(b: seq<byte>)
    requires |b| <= BLOCK_SIZE
    ensures Pad(b)[..|b|] == b
  {
  }

  /** Dropping one block drops one from the block count. */
  lemma BlockCountStep(n: nat)
    requires n >= 16384
    ensures BlockCount(n - 16384) == BlockCount(n) - 1
  {
    DivStep(n);
  }

  /** Block `i` of a stream, past the first, is block `i - 1` of what follows its first block. */
  lemma BlockShift(s: seq<byte>, i: nat)
    requires |s| >= BLOCK_SIZE && 1 <= i < BlockCount(|s|)
    ensures i - 1 < BlockCount(|s| - 16384)
    ensures Block(s, i) == Block(s[BLOCK_SIZE..], i - 1)
  {
  }

  /** A full-size buffer holding `b` and then only zeros is the padded block, whatever it held before. */
  lemma PaddedBuffer(buffer: seq<byte>, b: seq<byte>)
    requires |buffer| == BLOCK_SIZE && |b| <= BLOCK_SIZE
    requires buffer[..|b|] == b
    requires forall j :: |b| <= j < BLOCK_SIZE ==> buffer[j] == 0
    ensures buffer == Pad(b)
  {
    assert forall j :: 0 <= j < BLOCK_SIZE ==> buffer[j] == Pad(b)[j];
  }

  /** Padding loses nothing once the true length is known. */
  lemma PadInjective(a: seq<byte>, b: seq<byte>)
    requires |a| <= BLOCK_SIZE && |b| <= BLOCK_SIZE
    requires |a| == |b| && Pad(a) == Pad(b)
    ensures a == b
  {
    assert a == Pad(a)[..|a|];
  }
}
