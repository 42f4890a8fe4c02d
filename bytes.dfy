/** Bytes, byte-string helpers and the 4-byte little-endian integers of both file formats. */
module Bytes {

  type byte = x: int | 0 <= x < 256

  const INT32_MIN: int := -0x8000_0000
  const INT32_MAX: int := 0x7fff_ffff

  /** The values a C# `int` can hold. */
  predicate IsInt32(x: int) {
    INT32_MIN <= x <= INT32_MAX
  }

  function Min(a: int, b: int): int {
    if a <= b then a else b
  }

  function Zeros(n: nat): (z: seq<byte>)
    ensures |z| == n
    ensures forall i :: 0 <= i < n ==> z[i] == 0
  {
    seq(n, _ => 0)
  }

  lemma Associative<T>(a: seq<T>, b: seq<T>, c: seq<T>)
    ensures a + b + c == a + (b + c)
  {
  }

  /** A slice of a concatenation that lies in its second part. */
  lemma SliceOfAppend(a: seq<byte>, b: seq<byte>, lo: int, hi: int)
    requires |a| <= lo <= hi <= |a| + |b|
    ensures (a + b)[lo..hi] == b[lo - |a|..hi - |a|]
  {
  }

  /** What a read of `n` bytes returns from a stream whose unread part is `s`. */
  function Take(s: seq<byte>, n: nat): (r: seq<byte>)
    ensures |r| == Min(n, |s|)
    ensures r == s[..|r|]
  {
    s[..Min(n, |s|)]
  }

  /** What is left unread after a read of `n` bytes. */
  function Drop(s: seq<byte>, n: nat): (r: seq<byte>)
    ensures s == Take(s, n) + r
  {
    s[Min(n, |s|)..]
  }

  /** The `n` least significant base-256 digits of `u`, least significant first. */
  function LittleEndian(u: nat, n: nat): (b: seq<byte>)
    ensures |b| == n
  {
    if n == 0 then [] else [u % 0x100] + LittleEndian(u / 0x100, n - 1)
  }

  /** `BitConverter.GetBytes(int)`: two's complement, least significant byte first. */
  function EncodeInt32(x: int): (b: seq<byte>)
    requires IsInt32(x)
    ensures |b| == 4
  {
    LittleEndian(if x < 0 then x + 0x1_0000_0000 else x, 4)
  }

  /** The value of little-endian base-256 digits. */
  function LittleEndianValue(b: seq<byte>): (u: nat)
  {
    if b == [] then 0 else b[0] + 0x100 * LittleEndianValue(b[1..])
  }

  function Pow256(n: nat): (p: nat)
    ensures p > 0
  {
    if n == 0 then 1 else 0x100 * Pow256(n - 1)
  }

  /** `BitConverter.ToInt32(b, 0)` and `BinaryReader.ReadInt32` on four bytes. */
  function DecodeInt32(b: seq<byte>): (x: int)
    requires |b| == 4
    ensures IsInt32(x)
  {
    LittleEndianValueBound(b);
    var u := LittleEndianValue(b);
    if u >= 0x8000_0000 then u - 0x1_0000_0000 else u
  }

  lemma {:induction false} LittleEndianValueBound(b: seq<byte>)
    ensures LittleEndianValue(b) < Pow256(|b|)
  {
    if b != [] {
      LittleEndianValueBound(b[1..]);
    }
  }

  /** Digits taken from a value below 256^n give that value back. */
  lemma {:induction false} LittleEndianRoundTrip(u: nat, n: nat)
    requires u < Pow256(n)
    ensures LittleEndianValue(LittleEndian(u, n)) == u
  {
    if n > 0 {
      assert u / 0x100 < Pow256(n - 1);
      LittleEndianRoundTrip(u / 0x100, n - 1);
      var b := LittleEndian(u, n);
      assert b[1..] == LittleEndian(u / 0x100, n - 1);
    }
  }

  /** The digits of a value read from digits are those digits. */
  lemma {:induction false} LittleEndianDigits(b: seq<byte>)
    ensures LittleEndian(LittleEndianValue(b), |b|) == b
  {
    if b != [] {
      var u := LittleEndianValue(b);
      assert u % 0x100 == b[0] && u / 0x100 == LittleEndianValue(b[1..]);
      LittleEndianDigits(b[1..]);
    }
  }

  lemma DecodeEncodeInt32(x: int)
    requires IsInt32(x)
    ensures DecodeInt32(EncodeInt32(x)) == x
  {
    assert Pow256(4) == 0x1_0000_0000;
    LittleEndianRoundTrip(if x < 0 then x + 0x1_0000_0000 else x, 4);
  }

  lemma EncodeDecodeInt32(b: seq<byte>)
    requires |b| == 4
    ensures EncodeInt32(DecodeInt32(b)) == b
  {
    assert Pow256(4) == 0x1_0000_0000;
    LittleEndianValueBound(b);
    LittleEndianDigits(b);
  }
}
