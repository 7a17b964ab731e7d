/**
 * Bytes and big-endian bit strings.
 *
 * The UUID is a fixed 16-byte array. Its three textual codecs (hex, base32,
 * base64url) all read those bytes as one bit string, most significant bit
 * first, and cut it into digits of 4, 5 or 6 bits; the decoders glue the
 * digits back together and keep the leading whole bytes. This module holds
 * that common ground: bytes <-> bits, bits <-> k-bit digit values, and
 * big-endian byte strings <-> natural numbers.
 */
module Bits {

  /** Go's `byte`. */
  type byte = bv8

  /** Go's `[16]byte`, the storage of a UUID. */
  type Block = s: seq<byte> | |s| == 16 witness seq(16, _ => 0)

  function Bit(b: bool): nat { if b then 1 else 0 }

  function Pow2(k: nat): (r: nat)
    ensures r >= 1
  {
    if k == 0 then 1 else 2 * Pow2(k - 1)
  }

  /** The eight bits of `x`, most significant first. */
  function ByteBits(x: byte): (r: seq<bool>)
    ensures |r| == 8
  {
    [x & 0x80 != 0, x & 0x40 != 0, x & 0x20 != 0, x & 0x10 != 0,
     x & 0x08 != 0, x & 0x04 != 0, x & 0x02 != 0, x & 0x01 != 0]
  }

  /** The byte whose bits, most significant first, are `p`. */
  function BitsByte(p: seq<bool>): (x: byte)
    requires |p| == 8
    ensures ByteBits(x) == p
  {
    var x := OrBits(p);
    BitsOfOr(x, p);
    x
  }

  /** The byte with bit `7 - i` set exactly when `p[i]` holds. */
  function OrBits(p: seq<bool>): (x: byte)
    requires |p| == 8
    ensures x & 0x80 != 0 <==> p[0]
    ensures x & 0x40 != 0 <==> p[1]
    ensures x & 0x20 != 0 <==> p[2]
    ensures x & 0x10 != 0 <==> p[3]
    ensures x & 0x08 != 0 <==> p[4]
    ensures x & 0x04 != 0 <==> p[5]
    ensures x & 0x02 != 0 <==> p[6]
    ensures x & 0x01 != 0 <==> p[7]
  {
    (if p[0] then 0x80 else 0) | (if p[1] then 0x40 else 0) |
    (if p[2] then 0x20 else 0) | (if p[3] then 0x10 else 0) |
    (if p[4] then 0x08 else 0) | (if p[5] then 0x04 else 0) |
    (if p[6] then 0x02 else 0) | (if p[7] then 0x01 else 0)
  }

  lemma BitsOfOr(x: byte, p: seq<bool>)
    requires |p| == 8
    requires x & 0x80 != 0 <==> p[0]
    requires x & 0x40 != 0 <==> p[1]
    requires x & 0x20 != 0 <==> p[2]
    requires x & 0x10 != 0 <==> p[3]
    requires x & 0x08 != 0 <==> p[4]
    requires x & 0x04 != 0 <==> p[5]
    requires x & 0x02 != 0 <==> p[6]
    requires x & 0x01 != 0 <==> p[7]
    ensures ByteBits(x) == p
  {
  }

  lemma ByteBitsInverse(x: byte)
    ensures BitsByte(ByteBits(x)) == x
  {
  }

  /** The bytes of `bs` as one bit string. */
  function BytesToBits(bs: seq<byte>): (r: seq<bool>)
    ensures |r| == 8 * |bs|
  {
    if bs == [] then [] else ByteBits(bs[0]) + BytesToBits(bs[1..])
  }

  /** The leading whole bytes of `p`; a trailing partial byte is dropped. */
  function BitsToBytes(p: seq<bool>): (r: seq<byte>)
    ensures |r| == |p| / 8
    decreases |p|
  {
    if |p| < 8 then [] else [BitsByte(p[..8])] + BitsToBytes(p[8..])
  }

  lemma {:induction false} BytesToBitsAppend(a: seq<byte>, b: seq<byte>)
    ensures BytesToBits(a + b) == BytesToBits(a) + BytesToBits(b)
  {
    if a == [] {
      assert a + b == b;
    } else {
      assert (a + b)[1..] == a[1..] + b;
      BytesToBitsAppend(a[1..], b);
    }
  }

  lemma {:induction false} BitsToBytesAppend(p: seq<bool>, q: seq<bool>, n: nat)
    requires |p| == 8 * n
    ensures BitsToBytes(p + q) == BitsToBytes(p) + BitsToBytes(q)
  {
    if n == 0 {
      assert p + q == q;
    } else {
      assert (p + q)[..8] == p[..8];
      assert (p + q)[8..] == p[8..] + q;
      BitsToBytesAppend(p[8..], q, n - 1);
    }
  }

  /** Reading bytes as bits and back loses nothing. */
  lemma {:induction false} BytesBitsInverse(bs: seq<byte>)
    ensures BitsToBytes(BytesToBits(bs)) == bs
  {
    if bs != [] {
      var p := BytesToBits(bs);
      assert p[..8] == ByteBits(bs[0]);
      assert p[8..] == BytesToBits(bs[1..]);
      ByteBitsInverse(bs[0]);
      BytesBitsInverse(bs[1..]);
    }
  }

  /** Whole bytes read back as bits give the bit string back. */
  lemma {:induction false} BitsBytesInverse(p: seq<bool>, n: nat)
    requires |p| == 8 * n
    ensures BytesToBits(BitsToBytes(p)) == p
  {
    if n > 0 {
      var r := BitsToBytes(p);
      assert r[0] == BitsByte(p[..8]) && r[1..] == BitsToBytes(p[8..]);
      BitsBytesInverse(p[8..], n - 1);
      assert p == p[..8] + p[8..];
    }
  }

  /** The big-endian value of a bit string. */
  function Value(p: seq<bool>): (v: nat)
    ensures v < Pow2(|p|)
  {
    if p == [] then 0 else 2 * Value(p[..|p| - 1]) + Bit(p[|p| - 1])
  }

  /** The low `k` bits of `v`, most significant first. */
  function NatBits(v: nat, k: nat): (r: seq<bool>)
    ensures |r| == k
  {
    if k == 0 then [] else NatBits(v / 2, k - 1) + [v % 2 == 1]
  }

  lemma {:induction false} ValueOfNatBits(v: nat, k: nat)
    requires v < Pow2(k)
    ensures Value(NatBits(v, k)) == v
  {
    if k > 0 {
      var r := NatBits(v, k);
      assert r[..k - 1] == NatBits(v / 2, k - 1);
      ValueOfNatBits(v / 2, k - 1);
    }
  }

  lemma {:induction false} NatBitsOfValue(p: seq<bool>)
    ensures NatBits(Value(p), |p|) == p
  {
    if p != [] {
      var q := p[..|p| - 1];
      NatBitsOfValue(q);
      assert Value(p) / 2 == Value(q);
      assert p == q + [p[|p| - 1]];
    }
  }

  lemma Value4(p: seq<bool>)
    requires |p| == 4
    ensures Value(p) == 8 * Bit(p[0]) + 4 * Bit(p[1]) + 2 * Bit(p[2]) + Bit(p[3])
  {
    assert p[..3][..2] == p[..2];
    assert p[..2][..1] == p[..1];
    assert p[..1][..0] == [];
    assert Value(p[..1]) == Bit(p[0]);
    assert Value(p[..2]) == 2 * Bit(p[0]) + Bit(p[1]);
    assert Value(p[..3]) == 4 * Bit(p[0]) + 2 * Bit(p[1]) + Bit(p[2]);
  }

  /** The two 4-bit digits of a byte are its high and low nibble. */
  lemma NibbleValues(x: byte)
    ensures Value(ByteBits(x)[..4]) == (x >> 4) as int
    ensures Value(ByteBits(x)[4..]) == (x & 0xf) as int
  {
    Value4(ByteBits(x)[..4]);
    Value4(ByteBits(x)[4..]);
  }

  /** A 4-bit value written as bits is the low half of that value's byte. */
  lemma NatBitsNibble(v: nat)
    requires v < 16
    ensures NatBits(v, 4) == ByteBits(v as byte)[4..]
  {
    var p := NatBits(v, 4);
    assert p == [(v / 8) % 2 == 1, (v / 4) % 2 == 1, (v / 2) % 2 == 1, v % 2 == 1];
  }

  /** Two nibbles joined into one byte: its bits are theirs, high nibble first. */
  lemma NibblePair(hi: nat, lo: nat)
    requires hi < 16 && lo < 16
    ensures ByteBits(((hi as byte) << 4) | (lo as byte)) == ByteBits(hi as byte)[4..] + ByteBits(lo as byte)[4..]
  {
    assert hi as byte < 16 && lo as byte < 16;
  }

  /** The `k`-bit digit values of `p`, read left to right; a trailing partial digit is dropped. */
  function Chunks(p: seq<bool>, k: nat): (r: seq<nat>)
    requires 0 < k
    ensures forall i | 0 <= i < |r| :: r[i] < Pow2(k)
    decreases |p|
  {
    if |p| < k then [] else [Value(p[..k])] + Chunks(p[k..], k)
  }

  /** Digit values glued back into one bit string, `k` bits each. */
  function Unchunk(vs: seq<nat>, k: nat): (r: seq<bool>)
  {
    if vs == [] then [] else NatBits(vs[0], k) + Unchunk(vs[1..], k)
  }

  lemma {:induction false} UnchunkLength(vs: seq<nat>, k: nat)
    ensures |Unchunk(vs, k)| == k * |vs|
  {
    if vs != [] {
      UnchunkLength(vs[1..], k);
      assert k * |vs| == k + k * |vs[1..]|;
    }
  }

  lemma {:induction false} ChunksLength(p: seq<bool>, k: nat, n: nat)
    requires 0 < k && n * k <= |p| < (n + 1) * k
    ensures |Chunks(p, k)| == n
    decreases n
  {
    if n > 0 {
      assert n * k == (n - 1) * k + k;
      ChunksLength(p[k..], k, n - 1);
    } else {
      assert |p| < k;
    }
  }

  lemma {:induction false} UnchunkAppend(a: seq<nat>, b: seq<nat>, k: nat)
    ensures Unchunk(a + b, k) == Unchunk(a, k) + Unchunk(b, k)
  {
    if a == [] {
      assert a + b == b;
    } else {
      assert (a + b)[1..] == a[1..] + b;
      UnchunkAppend(a[1..], b, k);
    }
  }

  lemma {:induction false} ChunksAppend(a: seq<bool>, b: seq<bool>, k: nat, n: nat)
    requires 0 < k && |a| == n * k
    ensures Chunks(a + b, k) == Chunks(a, k) + Chunks(b, k)
    decreases n
  {
    if n == 0 {
      assert a + b == b;
    } else {
      assert n * k == (n - 1) * k + k;
      assert (a + b)[..k] == a[..k];
      assert (a + b)[k..] == a[k..] + b;
      ChunksAppend(a[k..], b, k, n - 1);
    }
  }

  /** Cutting a bit string into digits and gluing them back gives the same bits. */
  lemma {:induction false} UnchunkChunks(p: seq<bool>, k: nat, n: nat)
    requires 0 < k && |p| == n * k
    ensures Unchunk(Chunks(p, k), k) == p
    decreases n
  {
    if n > 0 {
      assert n * k == (n - 1) * k + k;
      UnchunkChunks(p[k..], k, n - 1);
      NatBitsOfValue(p[..k]);
      assert p == p[..k] + p[k..];
    }
  }

  /** Gluing digits that fit in `k` bits and cutting again gives the same digits. */
  lemma {:induction false} ChunksUnchunk(vs: seq<nat>, k: nat)
    requires 0 < k
    requires forall i | 0 <= i < |vs| :: vs[i] < Pow2(k)
    ensures Chunks(Unchunk(vs, k), k) == vs
  {
    if vs != [] {
      var p := Unchunk(vs, k);
      UnchunkLength(vs[1..], k);
      assert p[..k] == NatBits(vs[0], k);
      assert p[k..] == Unchunk(vs[1..], k);
      ValueOfNatBits(vs[0], k);
      ChunksUnchunk(vs[1..], k);
    }
  }

  /** The big-endian value of a byte string (Go's `big.Int.SetBytes`). */
  function FromBE(bs: seq<byte>): nat
  {
    if bs == [] then 0 else 256 * FromBE(bs[..|bs| - 1]) + bs[|bs| - 1] as int
  }

  function Pow256(k: nat): (r: nat)
    ensures r >= 1
  {
    if k == 0 then 1 else 256 * Pow256(k - 1)
  }

  /** The `k`-byte big-endian form of `n`, which must fit (Go's `big.Int.FillBytes`). */
  function ToBE(n: nat, k: nat): (r: seq<byte>)
    requires n < Pow256(k)
    ensures |r| == k
  {
    if k == 0 then [] else ToBE(n / 256, k - 1) + [(n % 256) as byte]
  }

  lemma {:induction false} FromBEBound(bs: seq<byte>)
    ensures FromBE(bs) < Pow256(|bs|)
  {
    if bs != [] {
      FromBEBound(bs[..|bs| - 1]);
    }
  }

  lemma {:induction false} FromBEToBE(n: nat, k: nat)
    requires n < Pow256(k)
    ensures FromBE(ToBE(n, k)) == n
  {
    if k > 0 {
      var r := ToBE(n, k);
      assert r[..k - 1] == ToBE(n / 256, k - 1);
      FromBEToBE(n / 256, k - 1);
      ByteOfNat(n % 256);
      assert FromBE(r) == 256 * (n / 256) + n % 256;
    }
  }

  lemma ByteOfNat(v: nat)
    requires v < 256
    ensures (v as byte) as int == v
  {
    assert v % 256 == v;
  }

  lemma {:induction false} ToBEFromBE(bs: seq<byte>)
    ensures FromBE(bs) < Pow256(|bs|) && ToBE(FromBE(bs), |bs|) == bs
  {
    FromBEBound(bs);
    if bs != [] {
      var q := bs[..|bs| - 1];
      ToBEFromBE(q);
      assert FromBE(bs) / 256 == FromBE(q);
      assert bs == q + [bs[|bs| - 1]];
    }
  }

  /** The bits of byte `i` sit at positions `8i` to `8i + 8`. */
  lemma {:induction false} BytesToBitsAt(bs: seq<byte>, i: nat)
    requires i < |bs|
    ensures BytesToBits(bs)[8 * i..8 * i + 8] == ByteBits(bs[i])
  {
    var h := ByteBits(bs[0]);
    var t := BytesToBits(bs[1..]);
    assert BytesToBits(bs) == h + t;
    if i == 0 {
      assert (h + t)[..8] == h;
    } else {
      BytesToBitsAt(bs[1..], i - 1);
      assert (h + t)[8 * i..8 * i + 8] == t[8 * (i - 1)..8 * (i - 1) + 8];
    }
  }

  /** Big-endian values of concatenated bit strings. */
  lemma {:induction false} ValueAppend(p: seq<bool>, q: seq<bool>)
    ensures Value(p + q) == Value(p) * Pow2(|q|) + Value(q)
  {
    if q == [] {
      assert p + q == p;
    } else {
      var q' := q[..|q| - 1];
      var b := q[|q| - 1];
      assert (p + q)[..|p + q| - 1] == p + q';
      assert (p + q)[|p + q| - 1] == b;
      ValueAppend(p, q');
      var a, w := Value(p), Pow2(|q'|);
      assert Pow2(|q|) == 2 * w;
      assert Value(q) == 2 * Value(q') + Bit(b);
      calc {
        Value(p + q);
        2 * Value(p + q') + Bit(b);
        2 * (a * w + Value(q')) + Bit(b);
        { MulShift(2, a, w); }
        a * (2 * w) + Value(q);
      }
    }
  }

  /** Big-endian values of concatenated byte strings. */
  lemma {:induction false} FromBEAppend(x: seq<byte>, y: seq<byte>)
    ensures FromBE(x + y) == FromBE(x) * Pow256(|y|) + FromBE(y)
  {
    if y == [] {
      assert x + y == x;
    } else {
      var y' := y[..|y| - 1];
      var l := y[|y| - 1];
      assert (x + y)[..|x + y| - 1] == x + y';
      assert (x + y)[|x + y| - 1] == l;
      FromBEAppend(x, y');
      var a, w := FromBE(x), Pow256(|y'|);
      assert Pow256(|y|) == 256 * w;
      assert FromBE(y) == 256 * FromBE(y') + l as int;
      calc {
        FromBE(x + y);
        256 * FromBE(x + y') + l as int;
        256 * (a * w + FromBE(y')) + l as int;
        { MulShift(256, a, w); }
        a * (256 * w) + FromBE(y);
      }
    }
  }

  lemma MulShift(c: int, a: int, w: int)
    ensures c * (a * w) == a * (c * w)
  {
  }

  /** Go's `binary.BigEndian.Uint32` on four bytes. */
  function Uint32BE(a: byte, b: byte, c: byte, d: byte): bv32
  {
    (a as bv32 << 24) | (b as bv32 << 16) | (c as bv32 << 8) | d as bv32
  }

  /** Go's `binary.BigEndian.PutUint32`: the four bytes of `w`, most significant first. */
  function PutUint32BE(w: bv32): (r: seq<byte>)
    ensures |r| == 4
  {
    [(w >> 24) as byte, ((w >> 16) & 0xff) as byte, ((w >> 8) & 0xff) as byte, (w & 0xff) as byte]
  }

  /** Writing a word read from four bytes gives the same four bytes. */
  lemma PutUint32BEInverse(a: byte, b: byte, c: byte, d: byte)
    ensures PutUint32BE(Uint32BE(a, b, c, d)) == [a, b, c, d]
  {
  }

  /** A 16-byte block is its four 4-byte words, in order. */
  lemma Quarters(s: seq<byte>, o0: seq<byte>, o1: seq<byte>, o2: seq<byte>, o3: seq<byte>)
    requires |s| == 16 && s[0..4] == o0 && s[4..8] == o1 && s[8..12] == o2 && s[12..16] == o3
    ensures s == o0 + o1 + o2 + o3
  {
    assert s == s[0..4] + s[4..8] + s[8..12] + s[12..16];
  }
}
