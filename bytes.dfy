/** Byte strings and the optional-value wrapper shared by every module. */
module Bytes {

  /** One octet, as Python's `bytes` items are. */
  type byte = b: int | 0 <= b < 256

  /** The conventional Some/None wrapper; `None` stands for a failed read or a raise. */
  datatype Option<+T> = None | Some(value: T)

  /** `s` with the bytes from `at` onwards replaced by `chunk`: what a memcpy into a
      fixed-size store leaves behind. */
  function Overwrite(s: seq<byte>, at: nat, chunk: seq<byte>): (r: seq<byte>)
    requires at + |chunk| <= |s|
    ensures |r| == |s|
    ensures r[at..at + |chunk|] == chunk
  {
    s[..at] + chunk + s[at + |chunk|..]
  }

  /** The bytes from `from` up to the end of the written chunk: what was there before
      the write position, then the chunk. */
  lemma OverwriteSlice(s: seq<byte>, at: nat, chunk: seq<byte>, from: nat)
    requires from <= at && at + |chunk| <= |s|
    ensures Overwrite(s, at, chunk)[from..at + |chunk|] == s[from..at] + chunk
  {
    var r := Overwrite(s, at, chunk);
    assert r[from..at + |chunk|] == r[from..at] + r[at..at + |chunk|];
    assert r[from..at] == s[from..at];
  }

  /** Where a store holds (a prefix of) a byte string, every part of it is found at
      the corresponding offset of the store. */
  lemma SliceOfPrefix(s: seq<byte>, p: nat, q: nat, bs: seq<byte>, i: nat, j: nat)
    requires p <= q <= |s| && s[p..q] <= bs && i <= j <= q - p
    ensures s[p + i..p + j] == bs[i..j]
  {
    forall k | 0 <= k < j - i
      ensures s[p + i..p + j][k] == bs[i..j][k]
    {
      assert s[p + i..p + j][k] == s[p..q][i + k] == bs[i + k];
    }
  }

  /** A store holding a + b from p holds a from p and b right after it. */
  lemma SliceSplit(s: seq<byte>, p: nat, q: nat, a: seq<byte>, b: seq<byte>)
    requires p <= q <= |s| && s[p..q] == a + b
    ensures s[p..p + |a|] == a && s[p + |a|..q] == b
  {
    forall k | 0 <= k < |a|
      ensures s[p..p + |a|][k] == a[k]
    {
      assert s[p..p + |a|][k] == s[p..q][k] == (a + b)[k];
    }
    forall k | 0 <= k < |b|
      ensures s[p + |a|..q][k] == b[k]
    {
      assert s[p + |a|..q][k] == s[p..q][|a| + k] == (a + b)[|a| + k];
    }
  }

  /** 256 to the power n: the range of an n-byte unsigned integer. */
  function Pow256(n: nat): (r: nat)
    ensures r >= 1
  {
    if n == 0 then 1 else 256 * Pow256(n - 1)
  }

  /** The unsigned big-endian value of a byte string (Python's `int.from_bytes(bs)`). */
  function FromBigEndian(bs: seq<byte>): (n: nat)
    ensures n < Pow256(|bs|)
  {
    if bs == [] then 0
    else
      var hi := FromBigEndian(bs[..|bs| - 1]);
      assert hi * 256 + 256 <= Pow256(|bs| - 1) * 256;
      hi * 256 + bs[|bs| - 1]
  }

  /** The leading byte of a big-endian number weighs 256^(number of bytes after it). */
  lemma {:induction false} FromBigEndianCons(b: byte, rest: seq<byte>)
    ensures FromBigEndian([b] + rest) == b * Pow256(|rest|) + FromBigEndian(rest)
  {
    if rest != [] {
      var init := rest[..|rest| - 1];
      assert ([b] + rest)[..|rest|] == [b] + init;
      FromBigEndianCons(b, init);
      assert b * Pow256(|rest|) == 256 * (b * Pow256(|init|));
    }
  }

  /** The n-byte big-endian rendering of v (v is taken modulo 256^n). */
  function ToBigEndian(v: nat, n: nat): (r: seq<byte>)
    ensures |r| == n
  {
    if n == 0 then [] else ToBigEndian(v / 256, n - 1) + [v % 256]
  }

  /** Rendering and reading back an integer that fits is the identity. */
  lemma {:induction false} FromToBigEndian(v: nat, n: nat)
    requires v < Pow256(n)
    ensures FromBigEndian(ToBigEndian(v, n)) == v
  {
    if n > 0 {
      var r := ToBigEndian(v, n);
      assert r[..n - 1] == ToBigEndian(v / 256, n - 1);
      assert v / 256 < Pow256(n - 1);
      FromToBigEndian(v / 256, n - 1);
    }
  }

  /** The leading byte of a rendering is small when the value is: it is v / 256^(n-1). */
  lemma {:induction false} ToBigEndianLeading(v: nat, n: nat)
    requires 1 <= n && v < 64 * Pow256(n - 1)
    ensures ToBigEndian(v, n)[0] < 64
  {
    if n > 1 {
      assert ToBigEndian(v, n)[0] == ToBigEndian(v / 256, n - 1)[0];
      assert v / 256 < 64 * Pow256(n - 2);
      ToBigEndianLeading(v / 256, n - 1);
    }
  }

  /** The six low bits of a byte (`b & 0x3f`). */
  function Low6(b: byte): (r: byte)
    ensures r < 64
  {
    if b < 64 then b else if b < 128 then b - 64 else if b < 192 then b - 128 else b - 192
  }

  /** Only the last byte of a big-endian number decides its six low bits, because 256
      is a multiple of 64. */
  lemma FromBigEndianLow6(bs: seq<byte>)
    requires |bs| > 0
    ensures FromBigEndian(bs) % 64 == Low6(bs[|bs| - 1])
  {
    var hi := FromBigEndian(bs[..|bs| - 1]);
    var lo := bs[|bs| - 1];
    var t := if lo < 64 then 0 else if lo < 128 then 1 else if lo < 192 then 2 else 3;
    assert FromBigEndian(bs) == 64 * (4 * hi + t) + Low6(lo);
    ModOfMultiple(FromBigEndian(bs), 4 * hi + t, Low6(lo));
  }

  lemma ModOfMultiple(x: nat, q: nat, r: nat)
    requires r < 64 && x == 64 * q + r
    ensures x % 64 == r
  {
  }
}
