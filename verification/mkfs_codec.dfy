/**
 * The on-disk byte order of mkfs/mkfs.c: every multi-byte field of the file
 * system image is stored least-significant byte first (the RISC-V order),
 * whatever the byte order of the host that builds the image.  A block is a
 * sequence of bytes; a FAT block is read as consecutive 32-bit words.
 */
module MkfsCodec {
  import opened MkfsLayout

  /** An unsigned 8-bit value. */
  newtype byte = x: int | 0 <= x < 256

  /** The largest value of a C `uint` plus one. */
  const U32: nat := 0x1_0000_0000

  /** The number a little-endian byte string denotes. */
  function DecodeLE(b: seq<byte>): nat
  {
    if b == [] then 0 else b[0] as nat + 256 * DecodeLE(b[1..])
  }

  function Pow256(n: nat): (p: nat)
    ensures p > 0
  {
    if n == 0 then 1 else 256 * Pow256(n - 1)
  }

  /** The `n` low bytes of `x`, least significant first. */
  function EncodeLE(x: nat, n: nat): (b: seq<byte>)
    ensures |b| == n
  {
    if n == 0 then [] else [(x % 256) as byte] + EncodeLE(x / 256, n - 1)
  }

  /** Encoding a value that fits in `n` bytes and decoding it gives the value back. */
  lemma {:induction false} DecodeEncode(x: nat, n: nat)
    requires x < Pow256(n)
    ensures DecodeLE(EncodeLE(x, n)) == x
  {
    if n > 0 {
      var b := EncodeLE(x, n);
      var q, r := x / 256, x % 256;
      assert x == 256 * q + r && r < 256;
      assert q < Pow256(n - 1);
      assert b[1..] == EncodeLE(q, n - 1);
      DecodeEncode(q, n - 1);
    }
  }

  /** Every `n`-byte string is the encoding of the value it denotes. */
  lemma {:induction false} EncodeDecode(b: seq<byte>)
    ensures DecodeLE(b) < Pow256(|b|) && EncodeLE(DecodeLE(b), |b|) == b
  {
    if b != [] {
      EncodeDecode(b[1..]);
      var d, b0, t := DecodeLE(b), b[0] as nat, DecodeLE(b[1..]);
      assert d == t * 256 + b0;
      DivMod(d, 256, t, b0);
      assert EncodeLE(d, |b|) == [(d % 256) as byte] + EncodeLE(d / 256, |b| - 1);
    }
  }

  /** `xshort(x)`: the two bytes of a 16-bit value, low byte first. */
  function XShort(x: nat): (b: seq<byte>)
    requires x < 0x1_0000
    ensures |b| == 2 && DecodeLE(b) == x
  {
    DecodeEncode(x, 2);
    EncodeLE(x, 2)
  }

  /** `xint(x)`: the four bytes of a 32-bit value, low byte first. */
  function XInt(x: nat): (b: seq<byte>)
    requires x < U32
    ensures |b| == 4 && DecodeLE(b) == x
  {
    DecodeEncode(x, 4);
    EncodeLE(x, 4)
  }

  /** Four bytes always denote a 32-bit value, and encoding it gives the bytes back. */
  lemma XIntOfDecode(b: seq<byte>)
    requires |b| == 4
    ensures DecodeLE(b) < U32 && XInt(DecodeLE(b)) == b
  {
    EncodeDecode(b);
  }

  /** Four bytes, least significant first, denote this value. */
  lemma DecodeFour(c: seq<byte>)
    requires |c| == 4
    ensures DecodeLE(c) == c[0] as nat + 256 * c[1] as nat + 65536 * c[2] as nat + 16777216 * c[3] as nat
  {
    var c1 := c[1..];
    var c2 := c1[1..];
    var c3 := c2[1..];
    assert c3[1..] == [];
    assert DecodeLE(c3) == c[3] as nat;
    assert DecodeLE(c2) == c[2] as nat + 256 * c[3] as nat;
    assert DecodeLE(c1) == c[1] as nat + 256 * c[2] as nat + 65536 * c[3] as nat;
  }

  /**
   * Word `k` of a block read as an array of 32-bit words: bytes
   * `4k .. 4k + 3`, least significant first (`DecodeLE` of those bytes,
   * see `WordAtDecode`).
   */
  function WordAt(b: seq<byte>, k: nat): (w: nat)
    requires 4 * k + 4 <= |b|
    ensures w < U32
  {
    b[4 * k] as nat + 256 * b[4 * k + 1] as nat + 65536 * b[4 * k + 2] as nat + 16777216 * b[4 * k + 3] as nat
  }

  /** A word is the little-endian value of its four bytes. */
  lemma WordAtDecode(b: seq<byte>, k: nat)
    requires 4 * k + 4 <= |b|
    ensures WordAt(b, k) == DecodeLE(b[4 * k .. 4 * k + 4])
  {
    DecodeFour(b[4 * k .. 4 * k + 4]);
  }

  /**
   * The block `b` with word `k` replaced by `v` (an assignment `buf[k] = v`
   * to a block read into a `uint` array): word `k` reads back as `v`, every
   * other word and the length are kept.
   */
  function SetWord(b: seq<byte>, k: nat, v: nat): (r: seq<byte>)
    requires 4 * k + 4 <= |b| && v < U32
    ensures |r| == |b| && WordAt(r, k) == v
    ensures forall j: nat :: 4 * j + 4 <= |b| && j != k ==> WordAt(r, j) == WordAt(b, j)
  {
    var x := XInt(v);
    DecodeFour(x);
    var r := b[..4 * k] + x + b[4 * k + 4..];
    assert r[4 * k] == x[0] && r[4 * k + 1] == x[1] && r[4 * k + 2] == x[2] && r[4 * k + 3] == x[3];
    forall j: nat | 4 * j + 4 <= |b| && j != k
      ensures WordAt(r, j) == WordAt(b, j)
    {
      assert r[4 * j] == b[4 * j] && r[4 * j + 1] == b[4 * j + 1];
      assert r[4 * j + 2] == b[4 * j + 2] && r[4 * j + 3] == b[4 * j + 3];
    }
    r
  }

  /** The bytes of an array of 32-bit words, as the host writes them out. */
  function EncodeWords(ws: seq<nat>): (r: seq<byte>)
    requires forall i :: 0 <= i < |ws| ==> ws[i] < U32
    ensures |r| == 4 * |ws|
    ensures forall k :: 0 <= k < |ws| ==> WordAt(r, k) == ws[k]
  {
    if ws == [] then []
    else
      var rest := EncodeWords(ws[1..]);
      var x := XInt(ws[0]);
      DecodeFour(x);
      var r := x + rest;
      forall k | 1 <= k < |ws|
        ensures WordAt(r, k) == ws[k]
      {
        assert r[4 * k] == rest[4 * (k - 1)] && r[4 * k + 1] == rest[4 * (k - 1) + 1];
        assert r[4 * k + 2] == rest[4 * (k - 1) + 2] && r[4 * k + 3] == rest[4 * (k - 1) + 3];
        assert WordAt(rest, k - 1) == ws[1..][k - 1];
      }
      r
  }

  /** Bit `k` of `x`. */
  predicate Bit(x: nat, k: nat)
  {
    if k == 0 then x % 2 == 1 else Bit(x / 2, k - 1)
  }

  /** `x | (1 << k)`, built bit by bit: bit `k` is set and the lower bits are those of `x`. */
  function SetBitOf(x: nat, k: nat): nat
  {
    if k == 0 then (if x % 2 == 1 then x else x + 1)
    else 2 * SetBitOf(x / 2, k - 1) + x % 2
  }

  /** Setting a bit below bit `n` of a value below `2^n` stays below `2^n`. */
  lemma {:induction false} SetBitBound(x: nat, k: nat, n: nat)
    requires k < n && x < Pow2(n)
    ensures SetBitOf(x, k) < Pow2(n)
  {
    var p := Pow2(n - 1);
    assert Pow2(n) == 2 * p;
    if k > 0 {
      assert x / 2 < p;
      SetBitBound(x / 2, k - 1, n - 1);
      assert SetBitOf(x, k) == 2 * SetBitOf(x / 2, k - 1) + x % 2;
    } else {
      assert x % 2 == 0 ==> x + 1 < 2 * p;
    }
  }

  function Pow2(n: nat): (p: nat)
    ensures p > 0
  {
    if n == 0 then 1 else 2 * Pow2(n - 1)
  }

  /** `b | (1 << k)` on a byte, for `k < 8`. */
  function OrBit(b: byte, k: nat): (r: byte)
    requires k < 8
  {
    assert Pow2(8) == 256;
    SetBitBound(b as nat, k, 8);
    SetBitOf(b as nat, k) as byte
  }

  /** `x | (1 << k)` sets bit `k` of `x` and leaves every other bit alone. */
  lemma {:induction false} BitOfSet(x: nat, k: nat, m: nat)
    ensures Bit(SetBitOf(x, k), m) <==> (m == k || Bit(x, m))
  {
    if k > 0 && m > 0 {
      BitOfSet(x / 2, k - 1, m - 1);
    }
  }

  /** No bit of 0 is set. */
  lemma {:induction false} BitOfZero(k: nat)
    ensures !Bit(0, k)
  {
    if k > 0 {
      BitOfZero(k - 1);
    }
  }

  /** Bit `i` of a byte string, counting from the low bit of byte 0. */
  predicate BitSet(b: seq<byte>, i: nat)
    requires i < 8 * |b|
  {
    Bit(b[i / 8] as nat, i % 8)
  }

  /** `buf[i/8] |= 1 << (i%8)` sets bit `i` of a bitmap and no other bit. */
  lemma SetBit(b: seq<byte>, i: nat, j: nat)
    requires i < 8 * |b| && j < 8 * |b|
    ensures BitSet(b[i / 8 := OrBit(b[i / 8], i % 8)], j) <==> (j == i || BitSet(b, j))
  {
    BitOfSet(b[i / 8] as nat, i % 8, j % 8);
    if j / 8 == i / 8 && j % 8 == i % 8 {
      assert j == i;
    }
  }
}
