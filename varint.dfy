/** QUIC variable-length integers (section 16 of RFC 9000), as the QUIC buffer's
    `push_uint_var` writes them and `pull_uint_var` reads them. The two most significant
    bits of the first byte give the encoded width (1, 2, 4 or 8 bytes); the remaining
    bits and the following bytes hold the value, big-endian. */
module Varint {
  import opened Bytes

  /** The largest encodable value, 2^62 - 1; `push_uint_var` raises above it. */
  const MaxValue: nat := 0x3fff_ffff_ffff_ffff

  /** Encoded width of a value: the smallest of 1, 2, 4, 8 bytes that holds it. */
  function Length(v: nat): (n: nat)
    requires v <= MaxValue
    ensures n == 1 || n == 2 || n == 4 || n == 8
    ensures v < 64 * Pow256(n - 1)
  {
    assert Pow256(1) == 256 && Pow256(3) == 0x100_0000 && Pow256(7) == 0x100_0000_0000_0000;
    if v <= 0x3f then 1 else if v <= 0x3fff then 2 else if v <= 0x3fff_ffff then 4 else 8
  }

  /** Width announced by a first byte: 1 << (first >> 6). The two top bits of the byte
      are exactly the prefix Tag(n) that Encode gives an n-byte encoding. */
  function WidthOf(first: byte): (n: nat)
    ensures n == 1 || n == 2 || n == 4 || n == 8
    ensures first == Tag(n) + Low6(first)
  {
    if first < 64 then 1 else if first < 128 then 2 else if first < 192 then 4 else 8
  }

  /** The two-bit width prefix of an n-byte encoding, already shifted into place. */
  function Tag(n: nat): byte
  {
    if n == 1 then 0 else if n == 2 then 64 else if n == 4 then 128 else 192
  }

  /** `push_uint_var(v)`: the big-endian value with the width prefix or-ed into its
      first byte. Its first byte announces exactly its own length. */
  function Encode(v: nat): (r: seq<byte>)
    requires v <= MaxValue
    ensures |r| == Length(v)
    ensures WidthOf(r[0]) == |r|
  {
    var n := Length(v);
    var be := ToBigEndian(v, n);
    ToBigEndianLeading(v, n);
    [be[0] + Tag(n)] + be[1..]
  }

  /** A value below 64 is its own one-byte encoding. */
  lemma EncodeSmall(v: nat)
    requires v < 64
    ensures Encode(v) == [v]
  {
    assert ToBigEndian(v, 1) == ToBigEndian(v / 256, 0) + [v % 256] == [v];
  }

  /** The value of an n-byte encoding at p: the width prefix masked off the first byte
      (`& 0x3f`), then the following bytes, big-endian. */
  function MaskedAt(s: seq<byte>, p: nat, n: nat): nat
    requires 1 <= n && p + n <= |s|
  {
    if n == 1 then Low6(s[p]) else MaskedAt(s, p, n - 1) * 256 + s[p + n - 1]
  }

  /** The outcome of reading one varint: the value and the position after it, or the
      BufferReadError raised when the read would pass the end of the store. */
  datatype PullResult = ReadError | Pulled(value: nat, next: nat)

  /** `pull_uint_var` on a store `s` at position `p`: the value and the position after it,
      or ReadError when the first byte or the announced width lies past the
      end of the store. Nothing but the store's capacity bounds the read. */
  function Pull(s: seq<byte>, p: nat): (r: PullResult)
    ensures r.Pulled? ==> p < |s| && r.next == p + WidthOf(s[p]) <= |s|
    ensures r.ReadError? ==> p >= |s| || p + WidthOf(s[p]) > |s|
  {
    if p + 1 > |s| then ReadError
    else
      var w := WidthOf(s[p]);
      if p + w > |s| then ReadError
      else Pulled(MaskedAt(s, p, w), p + w)
  }

  /** The value field of an n-byte encoding at p: the prefix bits masked off the first
      byte, then the remaining bytes big-endian. */
  lemma {:induction false} MaskedAtBigEndian(s: seq<byte>, p: nat, n: nat)
    requires 1 <= n && p + n <= |s|
    ensures MaskedAt(s, p, n) == FromBigEndian([Low6(s[p])] + s[p + 1..p + n])
  {
    if n > 1 {
      var bs := [Low6(s[p])] + s[p + 1..p + n];
      assert bs[..|bs| - 1] == [Low6(s[p])] + s[p + 1..p + n - 1];
      MaskedAtBigEndian(s, p, n - 1);
    }
  }

  /** Decoding what Encode wrote, wherever it sits in a store and whatever follows it,
      yields the value back and stops right after the encoding. */
  lemma PullEncoded(s: seq<byte>, p: nat, v: nat)
    requires v <= MaxValue
    requires p + Length(v) <= |s| && s[p..p + Length(v)] == Encode(v)
    ensures Pull(s, p) == Pulled(v, p + Length(v))
  {
    var n := Length(v);
    var be := ToBigEndian(v, n);
    ToBigEndianLeading(v, n);
    assert s[p] == Encode(v)[0] == be[0] + Tag(n);
    assert s[p + 1..p + n] == Encode(v)[1..] == be[1..];
    assert [Low6(s[p])] + s[p + 1..p + n] == be;
    MaskedAtBigEndian(s, p, n);
    assert v < Pow256(n) by {
      assert Pow256(n) == 256 * Pow256(n - 1);
    }
    FromToBigEndian(v, n);
  }
}
