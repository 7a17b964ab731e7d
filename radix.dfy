/**
 * The three RFC 4648 encodings the package uses, without padding:
 * hex (section 8, lower-case out, either case in), base32 with the standard
 * alphabet (section 6) and base64 with the URL and filename safe alphabet
 * (section 5).
 *
 * Each one is a regrouping of bits: the bytes are read as one big-endian bit
 * string, zero bits are appended up to a whole digit, and the string is cut
 * into 4-, 5- or 6-bit digits. Decoding glues the digit bits back together and
 * keeps the leading whole bytes; like Go's non-strict decoders it does not
 * insist that the leftover bits are zero.
 */
module Radix {
  import opened Bits
  import opened Text
  import opened Outcomes

  datatype Alphabet = Hex | Base32 | Base64Url

  /** Bits per digit. */
  function Width(a: Alphabet): (k: nat)
    ensures 4 <= k <= 6
  {
    match a
    case Hex => 4
    case Base32 => 5
    case Base64Url => 6
  }

  /** The character for digit value `v`. */
  function Digit(a: Alphabet, v: nat): achar
    requires v < Pow2(Width(a))
  {
    match a
    case Hex =>
      assert Pow2(4) == 16;
      if v < 10 then ('0' as int + v) as char else ('a' as int + v - 10) as char
    case Base32 =>
      assert Pow2(5) == 32;
      if v < 26 then ('A' as int + v) as char else ('2' as int + v - 26) as char
    case Base64Url =>
      assert Pow2(6) == 64;
      if v < 26 then ('A' as int + v) as char
      else if v < 52 then ('a' as int + v - 26) as char
      else if v < 62 then ('0' as int + v - 52) as char
      else if v == 62 then '-'
      else '_'
  }

  /** The digit value of `c`, if `c` belongs to the alphabet. */
  function DigitValue(a: Alphabet, c: achar): Option<nat>
  {
    match a
    case Hex =>
      if '0' <= c <= '9' then Some(c as int - '0' as int)
      else if 'a' <= c <= 'f' then Some(c as int - 'a' as int + 10)
      else if 'A' <= c <= 'F' then Some(c as int - 'A' as int + 10)
      else None
    case Base32 =>
      if 'A' <= c <= 'Z' then Some(c as int - 'A' as int)
      else if '2' <= c <= '7' then Some(c as int - '2' as int + 26)
      else None
    case Base64Url =>
      if 'A' <= c <= 'Z' then Some(c as int - 'A' as int)
      else if 'a' <= c <= 'z' then Some(c as int - 'a' as int + 26)
      else if '0' <= c <= '9' then Some(c as int - '0' as int + 52)
      else if c == '-' then Some(62)
      else if c == '_' then Some(63)
      else None
  }

  /** Every digit reads back as its own value. */
  lemma DigitValueOfDigit(a: Alphabet, v: nat)
    requires v < Pow2(Width(a))
    ensures DigitValue(a, Digit(a, v)) == Some(v)
  {
    assert Pow2(4) == 16 && Pow2(5) == 32 && Pow2(6) == 64;
  }

  /**
   * A character that decodes is a digit of the alphabet: the very digit for
   * base32 and base64url, and for hex the digit up to case.
   */
  lemma DigitOfDigitValue(a: Alphabet, c: achar)
    requires DigitValue(a, c).Some?
    ensures DigitValue(a, c).value < Pow2(Width(a))
    ensures a != Hex ==> Digit(a, DigitValue(a, c).value) == c
    ensures a == Hex ==> Digit(a, DigitValue(a, c).value) == LowerChar(c)
  {
    assert Pow2(4) == 16 && Pow2(5) == 32 && Pow2(6) == 64;
  }

  /** Base32 and base64url digits are case-exact: two different characters never have the same value. */
  lemma DigitValueInjective(a: Alphabet, c: achar, d: achar)
    requires a != Hex && DigitValue(a, c).Some? && c != d
    ensures DigitValue(a, c) != DigitValue(a, d)
  {
    DigitOfDigitValue(a, c);
    if DigitValue(a, d).Some? {
      DigitOfDigitValue(a, d);
    }
  }

  /** Hex digits are written in lower case and base32 digits in upper case; neither is a dash. */
  lemma DigitCase(a: Alphabet, v: nat)
    requires v < Pow2(Width(a))
    ensures a == Hex ==> LowerChar(Digit(a, v)) == Digit(a, v) && Digit(a, v) != '-'
    ensures a == Base32 ==> UpperChar(Digit(a, v)) == Digit(a, v)
  {
    assert Pow2(4) == 16 && Pow2(5) == 32 && Pow2(6) == 64;
    if a == Hex {
      assert '0' <= Digit(a, v) <= '9' || 'a' <= Digit(a, v) <= 'f';
    } else if a == Base32 {
      assert '2' <= Digit(a, v) <= '7' || 'A' <= Digit(a, v) <= 'Z';
    }
  }

  /** Hex digits decode the same in either case. */
  lemma HexValueUpper(c: achar)
    ensures DigitValue(Hex, UpperChar(c)) == DigitValue(Hex, c)
  {
  }

  /** The characters for a sequence of digit values. */
  function Digits(a: Alphabet, vs: seq<nat>): (s: Text)
    requires forall i | 0 <= i < |vs| :: vs[i] < Pow2(Width(a))
    ensures |s| == |vs|
  {
    seq(|vs|, i requires 0 <= i < |vs| => Digit(a, vs[i]))
  }

  /** The digit values of `s`, or None when some character is not in the alphabet. */
  function Values(a: Alphabet, s: Text): (r: Option<seq<nat>>)
    ensures r.Some? <==> forall i | 0 <= i < |s| :: DigitValue(a, s[i]).Some?
    ensures r.Some? ==> |r.value| == |s| && forall i | 0 <= i < |s| :: r.value[i] == DigitValue(a, s[i]).value
  {
    if forall i | 0 <= i < |s| :: DigitValue(a, s[i]).Some?
    then Some(seq(|s|, i requires 0 <= i < |s| => DigitValue(a, s[i]).value))
    else None
  }

  /** Written digits read back as the same values. */
  lemma ValuesOfDigits(a: Alphabet, vs: seq<nat>)
    requires forall i | 0 <= i < |vs| :: vs[i] < Pow2(Width(a))
    ensures Values(a, Digits(a, vs)) == Some(vs)
  {
    var s := Digits(a, vs);
    forall i | 0 <= i < |vs|
      ensures DigitValue(a, s[i]) == Some(vs[i])
    {
      DigitValueOfDigit(a, vs[i]);
    }
    assert Values(a, s).Some?;
    assert Values(a, s).value == vs;
  }

  /** The number of zero bits that complete `n` bits to a whole number of digits. */
  function PadBits(a: Alphabet, n: nat): (z: nat)
    ensures z < Width(a) && (n + z) % Width(a) == 0
  {
    match a
    case Hex => RoundUp4(n); (4 - n % 4) % 4
    case Base32 => RoundUp5(n); (5 - n % 5) % 5
    case Base64Url => RoundUp6(n); (6 - n % 6) % 6
  }

  lemma RoundUp4(n: nat)
    ensures (n + (4 - n % 4) % 4) % 4 == 0
  {
  }

  lemma RoundUp5(n: nat)
    ensures (n + (5 - n % 5) % 5) % 5 == 0
  {
  }

  lemma RoundUp6(n: nat)
    ensures (n + (6 - n % 6) % 6) % 6 == 0
  {
  }

  /** `p` followed by zero bits up to a whole digit. */
  function Padded(a: Alphabet, p: seq<bool>): (r: seq<bool>)
    ensures |r| % Width(a) == 0 && |p| <= |r| < |p| + Width(a)
    ensures r[..|p|] == p
  {
    var r := p + seq(PadBits(a, |p|), _ => false);
    assert r[..|p|] == p;
    r
  }

  /** Unpadded RFC 4648 text for `bs` (Go's `EncodeToString` with `NoPadding`, and `hex.Encode`). */
  function Encode(a: Alphabet, bs: seq<byte>): (s: Text)
  {
    Digits(a, Chunks(Padded(a, BytesToBits(bs)), Width(a)))
  }

  /**
   * Go's non-strict decoders for unpadded text: every character must be in the
   * alphabet and the bits after the last whole byte must be fewer than one
   * digit (odd hex and base64 lengths 1 mod 4 are refused, as Go refuses
   * them); the leading whole bytes are the result. Base32 lengths 1, 3 and 6
   * mod 8 are refused here too, where Go's unpadded base32 decoder drops the
   * partial group instead; the parsers only pass 26 base32 digits.
   */
  function Decode(a: Alphabet, s: Text): (r: Option<seq<byte>>)
    ensures r.Some? <==> Values(a, s).Some? && (Width(a) * |s|) % 8 < Width(a)
  {
    match Values(a, s)
    case None => None
    case Some(vs) =>
      if (Width(a) * |s|) % 8 >= Width(a) then None
      else
        UnchunkLength(vs, Width(a));
        Some(BitsToBytes(Unchunk(vs, Width(a))))
  }

  /** `n` bytes encode to the ceiling of 8n/k digits: 32 hex digits, 26 base32 or 22 base64 digits for a UUID. */
  lemma EncodeLength(a: Alphabet, bs: seq<byte>)
    ensures |Encode(a, bs)| == (8 * |bs| + Width(a) - 1) / Width(a)
    ensures |Encode(a, bs)| * Width(a) == |Padded(a, BytesToBits(bs))|
  {
    var k := Width(a);
    var p := Padded(a, BytesToBits(bs));
    var n := |p| / k;
    assert |p| == n * k;
    ChunksLength(p, k, n);
  }

  /** Decoding what was encoded gives the bytes back. */
  lemma DecodeEncode(a: Alphabet, bs: seq<byte>)
    ensures Decode(a, Encode(a, bs)) == Some(bs)
  {
    var k := Width(a);
    var bits := BytesToBits(bs);
    var p := Padded(a, bits);
    var vs := Chunks(p, k);
    var s := Encode(a, bs);
    EncodeLength(a, bs);
    ValuesOfDigits(a, vs);
    var tail := p[|bits|..];
    ModSmall(k * |s|, |bs|, |tail|);
    UnchunkChunks(p, k, |s|);
    assert Decode(a, s) == Some(BitsToBytes(p));
    BytesOfPadded(bits, tail, bs);
  }

  lemma ModSmall(x: int, m: int, t: int)
    requires 0 <= t < 8 && x == 8 * m + t
    ensures x % 8 == t
  {
  }

  lemma BytesOfPadded(bits: seq<bool>, tail: seq<bool>, bs: seq<byte>)
    requires bits == BytesToBits(bs) && |tail| < 8
    ensures BitsToBytes(bits + tail) == bs
  {
    BitsToBytesAppend(bits, tail, |bs|);
    assert BitsToBytes(tail) == [];
    BytesBitsInverse(bs);
    assert BitsToBytes(bits + tail) == bs + [];
  }

  /** Hex encoding one byte more appends its two nibbles' digits. */
  lemma HexEncodeSnoc(bs: seq<byte>, x: byte)
    ensures Encode(Hex, bs + [x]) == Encode(Hex, bs) + [Digit(Hex, (x >> 4) as int), Digit(Hex, (x & 0xf) as int)]
  {
    EncodeAppend(Hex, bs, [x]);
    HexEncodeByte(x);
  }

  /** One byte is two hex digits, high nibble first. */
  lemma HexEncodeByte(x: byte)
    ensures Encode(Hex, [x]) == [Digit(Hex, (x >> 4) as int), Digit(Hex, (x & 0xf) as int)]
  {
    var q := ByteBits(x);
    assert BytesToBits([x]) == q;
    assert Padded(Hex, q) == q;
    assert q[4..][..4] == q[4..];
    assert Chunks(q[4..][4..], 4) == [];
    assert Chunks(q[4..], 4) == [Value(q[4..])];
    assert Chunks(q, 4) == [Value(q[..4]), Value(q[4..])];
    NibbleValues(x);
  }

  /** The hex text of `n` bytes has two digits per byte. */
  lemma HexEncodeLength(bs: seq<byte>)
    ensures |Encode(Hex, bs)| == 2 * |bs|
  {
    EncodeLength(Hex, bs);
  }

  /** Hex digits of a pair `c`, `d` decode to the byte `c << 4 | d`. */
  lemma HexDecodeSnoc(s: Text, c: achar, d: achar)
    requires Decode(Hex, s).Some?
    requires DigitValue(Hex, c).Some? && DigitValue(Hex, d).Some?
    ensures Decode(Hex, s + [c, d]).Some?
    ensures Decode(Hex, s + [c, d]).value
            == Decode(Hex, s).value + [((DigitValue(Hex, c).value as byte) << 4) | (DigitValue(Hex, d).value as byte)]
  {
    var vs := Values(Hex, s).value;
    var hi := DigitValue(Hex, c).value;
    var lo := DigitValue(Hex, d).value;
    var t := s + [c, d];
    ValuesSnoc(s, c, d);
    HexLength(|s|);
    HexLength(|t|);
    DecodeValues(Hex, s);
    DecodeValues(Hex, t);
    HexBitsSnoc(vs, hi, lo);
  }

  /** Two more 4-bit digits after an even number of them add one byte. */
  lemma HexBitsSnoc(vs: seq<nat>, hi: nat, lo: nat)
    requires |vs| % 2 == 0 && hi < 16 && lo < 16
    ensures BitsToBytes(Unchunk(vs + [hi, lo], 4)) == BitsToBytes(Unchunk(vs, 4)) + [((hi as byte) << 4) | (lo as byte)]
  {
    UnchunkAppend(vs, [hi, lo], 4);
    UnchunkLength(vs, 4);
    BitsToBytesAppend(Unchunk(vs, 4), Unchunk([hi, lo], 4), |vs| / 2);
    HexPair(hi, lo);
  }

  lemma DecodeValues(a: Alphabet, s: Text)
    requires Decode(a, s).Some?
    ensures Values(a, s).Some? && Decode(a, s).value == BitsToBytes(Unchunk(Values(a, s).value, Width(a)))
  {
  }

  /** A decodable text gives as many bytes as its digits hold whole bytes. */
  lemma DecodeLength(a: Alphabet, s: Text)
    requires Decode(a, s).Some?
    ensures |Decode(a, s).value| == Width(a) * |s| / 8
  {
    DecodeValues(a, s);
    UnchunkLength(Values(a, s).value, Width(a));
  }

  /** Replacing one digit of a decodable text by another digit keeps it decodable, to as many bytes. */
  lemma DecodeSubst(a: Alphabet, s: Text, j: nat, c: achar)
    requires Decode(a, s).Some? && j < |s| && DigitValue(a, c).Some?
    ensures Decode(a, s[j := c]).Some? && |Decode(a, s[j := c]).value| == |Decode(a, s).value|
  {
    var s' := s[j := c];
    DecodeValues(a, s);
    forall i | 0 <= i < |s'|
      ensures DigitValue(a, s'[i]).Some?
    {
      if i != j {
        assert s'[i] == s[i];
      }
    }
    DecodeLength(a, s);
    DecodeLength(a, s');
  }

  /** Hex text decodes only at even length. */
  lemma HexLength(n: nat)
    ensures (4 * n) % 8 < 4 <==> n % 2 == 0
  {
  }

  lemma ValuesSnoc(s: Text, c: achar, d: achar)
    requires Values(Hex, s).Some?
    requires DigitValue(Hex, c).Some? && DigitValue(Hex, d).Some?
    ensures Values(Hex, s + [c, d]) == Some(Values(Hex, s).value + [DigitValue(Hex, c).value, DigitValue(Hex, d).value])
  {
    var t := s + [c, d];
    assert forall i | 0 <= i < |s| :: t[i] == s[i];
    assert t[|s|] == c && t[|s| + 1] == d;
    assert Values(Hex, t).Some?;
    var vs := Values(Hex, s).value;
    var ws := vs + [DigitValue(Hex, c).value, DigitValue(Hex, d).value];
    var r := Values(Hex, t).value;
    assert |r| == |ws|;
    assert forall i | 0 <= i < |t| :: r[i] == ws[i];
    assert r == ws;
  }

  /** Two hex digit values glued into bits make the one byte `hi << 4 | lo`. */
  lemma HexPair(hi: nat, lo: nat)
    requires hi < 16 && lo < 16
    ensures BitsToBytes(Unchunk([hi, lo], 4)) == [((hi as byte) << 4) | (lo as byte)]
  {
    assert [hi, lo][1..] == [lo];
    assert Unchunk([lo], 4) == NatBits(lo, 4) + Unchunk([], 4);
    var q := Unchunk([hi, lo], 4);
    assert q == NatBits(hi, 4) + NatBits(lo, 4);
    NatBitsNibble(hi);
    NatBitsNibble(lo);
    var x := ((hi as byte) << 4) | (lo as byte);
    NibblePair(hi, lo);
    ByteBitsInverse(x);
    assert q[..8] == ByteBits(x);
    assert q[8..] == [];
  }

  /** Empty hex text decodes to no bytes. */
  lemma HexDecodeEmpty()
    ensures Decode(Hex, []) == Some([])
  {
    assert Values(Hex, []) == Some([]);
  }

  /** Digit `i` of a bit string cut into `k`-bit digits is the value of bits `ik` to `ik + k`. */
  lemma {:induction false} ChunksAt(p: seq<bool>, k: nat, i: nat)
    requires 0 < k && i * k + k <= |p|
    ensures i < |Chunks(p, k)| && Chunks(p, k)[i] == Value(p[i * k..i * k + k])
    decreases i
  {
    if i > 0 {
      var j := (i - 1) * k;
      assert i * k == j + k;
      ChunksAt(p[k..], k, i - 1);
      assert p[k..][j..j + k] == p[j + k..j + k + k];
    }
  }

  /** Character `i` of an encoding is the digit for bits `ik` to `ik + k` of the padded bit string. */
  lemma EncodeAt(a: Alphabet, bs: seq<byte>, i: nat)
    requires i < |Encode(a, bs)|
    ensures var p := Padded(a, BytesToBits(bs));
            i * Width(a) + Width(a) <= |p| &&
            Encode(a, bs)[i] == Digit(a, Value(p[i * Width(a)..i * Width(a) + Width(a)]))
  {
    var k := Width(a);
    var p := Padded(a, BytesToBits(bs));
    EncodeLength(a, bs);
    assert i * k + k <= |Encode(a, bs)| * k by {
      assert i + 1 <= |Encode(a, bs)|;
      MulMono(i + 1, |Encode(a, bs)|, k);
    }
    ChunksAt(p, k, i);
  }

  lemma MulMono(x: nat, y: nat, k: nat)
    requires x <= y
    ensures x * k <= y * k
  {
  }

  /** When the first part fills whole digits, encoding a concatenation concatenates the encodings. */
  lemma EncodeAppend(a: Alphabet, x: seq<byte>, y: seq<byte>)
    requires (8 * |x|) % Width(a) == 0
    ensures Encode(a, x + y) == Encode(a, x) + Encode(a, y)
  {
    var k := Width(a);
    var px := BytesToBits(x);
    var py := BytesToBits(y);
    BytesToBitsAppend(x, y);
    PaddedAppend(a, px, py);
    ChunksAppend(px, Padded(a, py), k, |px| / k);
    DigitsAppend(a, Chunks(px, k), Chunks(Padded(a, py), k));
  }

  lemma PaddedAppend(a: Alphabet, p: seq<bool>, q: seq<bool>)
    requires |p| % Width(a) == 0
    ensures Padded(a, p) == p && Padded(a, p + q) == p + Padded(a, q)
  {
    assert PadBits(a, |p|) == 0;
    assert Padded(a, p) == p + [];
    PadBitsShift(a, |p|, |q|);
    var z := seq(PadBits(a, |q|), _ => false);
    assert Padded(a, p + q) == (p + q) + z;
    assert (p + q) + z == p + (q + z);
  }

  lemma DigitsAppend(a: Alphabet, u: seq<nat>, v: seq<nat>)
    requires forall i | 0 <= i < |u| :: u[i] < Pow2(Width(a))
    requires forall i | 0 <= i < |v| :: v[i] < Pow2(Width(a))
    ensures Digits(a, u + v) == Digits(a, u) + Digits(a, v)
  {
  }

  lemma PadBitsShift(a: Alphabet, n: nat, m: nat)
    requires n % Width(a) == 0
    ensures PadBits(a, n + m) == PadBits(a, m)
  {
    var k := Width(a);
    var j := n / k;
    assert n == j * k;
    assert n + m == (j + m / k) * k + m % k;
    ModUnique(n + m, k, j + m / k, m % k);
  }

  /** A remainder below `k` is the remainder of division by `k`. */
  lemma ModUnique(x: nat, k: nat, q: nat, r: nat)
    requires 0 < k && r < k && x == q * k + r
    ensures x % k == r
  {
    var d := q - x / k;
    assert d * k == x % k - r;
  }

  /** Zero bytes encode to zero digits only. */
  lemma EncodeZeros(a: Alphabet, n: nat)
    ensures Encode(a, seq(n, _ => 0x00)) == seq(|Encode(a, seq(n, _ => 0x00))|, _ => Digit(a, 0))
  {
    var k := Width(a);
    var zs: seq<byte> := seq(n, _ => 0x00);
    ZeroBits(n);
    var p := Padded(a, BytesToBits(zs));
    assert p == seq(|p|, _ => false);
    var m := |p| / k;
    assert |p| == m * k;
    ConstChunks(false, k, m);
    ConstValue(false, k);
  }

  /** Bytes of all ones whose bits fill whole digits encode to the highest digit only. */
  lemma EncodeOnes(a: Alphabet, n: nat)
    requires (8 * n) % Width(a) == 0
    ensures Encode(a, seq(n, _ => 0xff)) == seq(|Encode(a, seq(n, _ => 0xff))|, _ => Digit(a, Pow2(Width(a)) - 1))
  {
    var k := Width(a);
    var q := BytesToBits(seq(n, _ => 0xff));
    OneBits(n);
    PadBitsZero(a, 8 * n);
    assert Padded(a, q) == q;
    var m := ExactQuotient(8 * n, k);
    assert q == seq(m * k, _ => true);
    ConstChunks(true, k, m);
    ConstValue(true, k);
  }

  lemma PadBitsZero(a: Alphabet, n: nat)
    requires n % Width(a) == 0
    ensures PadBits(a, n) == 0
  {
  }

  /** The quotient of an exact division. */
  lemma ExactQuotient(x: nat, k: nat) returns (m: nat)
    requires 0 < k && x % k == 0
    ensures x == m * k
  {
    m := x / k;
  }

  lemma {:induction false} ZeroBits(n: nat)
    ensures BytesToBits(seq(n, _ => 0x00)) == seq(8 * n, _ => false)
  {
    if n > 0 {
      var zs: seq<byte> := seq(n, _ => 0x00);
      assert zs[1..] == seq(n - 1, _ => 0x00);
      ZeroBits(n - 1);
    }
  }

  lemma {:induction false} OneBits(n: nat)
    ensures BytesToBits(seq(n, _ => 0xff)) == seq(8 * n, _ => true)
  {
    if n > 0 {
      var os: seq<byte> := seq(n, _ => 0xff);
      assert os[1..] == seq(n - 1, _ => 0xff);
      OneBits(n - 1);
    }
  }

  lemma {:induction false} ConstChunks(b: bool, k: nat, m: nat)
    requires 0 < k
    ensures Chunks(seq(m * k, _ => b), k) == seq(m, _ => Value(seq(k, _ => b)))
    decreases m
  {
    var p := seq(m * k, _ => b);
    if m > 0 {
      assert m * k == (m - 1) * k + k;
      assert p[..k] == seq(k, _ => b);
      assert p[k..] == seq((m - 1) * k, _ => b);
      ConstChunks(b, k, m - 1);
    } else {
      assert |p| == 0;
    }
  }

  lemma {:induction false} ConstValue(b: bool, k: nat)
    ensures Value(seq(k, _ => b)) == if b then Pow2(k) - 1 else 0
  {
    if k > 0 {
      assert seq(k, _ => b)[..k - 1] == seq(k - 1, _ => b);
      ConstValue(b, k - 1);
    }
  }

  /**
   * Decoding the encoding of a 16-byte block with its last character
   * replaced by any character of the alphabet: bytes 0 to 14 come back, and so
   * do the leading `Width(a)` bits of byte 15, which the earlier characters
   * carry; the last character only reaches the low bits of byte 15.
   */
  lemma DecodeLastDigit(a: Alphabet, bs: seq<byte>, c: achar)
    requires |bs| == 16 && DigitValue(a, c).Some?
    ensures |Encode(a, bs)| > 0
    ensures var s := Encode(a, bs);
            var r := Decode(a, s[..|s| - 1] + [c]);
            r.Some? && |r.value| == 16 && r.value[..15] == bs[..15] &&
            ByteBits(r.value[15])[..Width(a)] == ByteBits(bs[15])[..Width(a)]
  {
    var k := Width(a);
    var s := Encode(a, bs);
    var p := Padded(a, BytesToBits(bs));
    var n := EncodeShape(a, bs);
    DigitOfDigitValue(a, c);
    var x := DigitValue(a, c).value;
    var t := s[..n - 1] + [c];
    LastDigitValues(a, Chunks(p, k), c);
    LastDigitBits(p, k, n, x);
    var q := p[..120 + k] + NatBits(x, k);
    assert Decode(a, t) == Some(BitsToBytes(q));
    LastByteKept(bs, p, q, k);
  }

  /** The encoding of 16 bytes: 32, 26 or 22 digits, the last one holding the final `Width(a)` or fewer bits. */
  lemma EncodeShape(a: Alphabet, bs: seq<byte>) returns (n: nat)
    requires |bs| == 16
    ensures n == |Encode(a, bs)| && n > 0 && (Width(a) * n) % 8 < Width(a)
    ensures var p := Padded(a, BytesToBits(bs));
            |p| == n * Width(a) && 120 + Width(a) == (n - 1) * Width(a) && 128 <= |p| < 128 + Width(a)
  {
    EncodeLength(a, bs);
    EncodeLength16(a, bs);
    n := |Encode(a, bs)|;
  }

  /** Sixteen bytes are 32 hex digits, 26 base32 digits or 22 base64 digits. */
  lemma EncodeLength16(a: Alphabet, bs: seq<byte>)
    requires |bs| == 16
    ensures |Encode(a, bs)| == match a case Hex => 32 case Base32 => 26 case Base64Url => 22
  {
    EncodeLength(a, bs);
    match a
    case Hex => assert |Encode(a, bs)| == 32;
    case Base32 => assert |Encode(a, bs)| == 26;
    case Base64Url => assert |Encode(a, bs)| == 22;
  }

  /** Digits with the last one replaced by `c` read as the same values with the last one replaced by `c`'s. */
  lemma LastDigitValues(a: Alphabet, vs: seq<nat>, c: achar)
    requires 0 < |vs| && DigitValue(a, c).Some?
    requires forall i | 0 <= i < |vs| :: vs[i] < Pow2(Width(a))
    ensures var s := Digits(a, vs);
            Values(a, s[..|s| - 1] + [c]) == Some(vs[..|vs| - 1] + [DigitValue(a, c).value])
  {
    var n := |vs|;
    var s := Digits(a, vs);
    DigitOfDigitValue(a, c);
    var ws := vs[..n - 1] + [DigitValue(a, c).value];
    var t := s[..n - 1] + [c];
    assert forall i | 0 <= i < n - 1 :: t[i] == Digits(a, ws)[i];
    assert DigitValue(a, t[n - 1]) == Some(ws[n - 1]);
    ValuesOfDigitsUpToCase(a, ws, t);
  }

  /** Gluing all digits of `p` but the last, then `x`, gives the leading bits of `p` followed by `x`'s bits. */
  lemma LastDigitBits(p: seq<bool>, k: nat, n: nat, x: nat)
    requires 0 < k && 0 < n && |p| == n * k
    ensures |Chunks(p, k)| == n
    ensures Unchunk(Chunks(p, k)[..n - 1] + [x], k) == p[..(n - 1) * k] + NatBits(x, k)
  {
    var vs := Chunks(p, k);
    PrefixOfChunks(p, k, n);
    UnchunkAppend(vs[..n - 1], [x], k);
    assert Unchunk([x], k) == NatBits(x, k) + Unchunk([], k);
  }

  /** A text whose characters read as `ws`, character by character, decodes its values to `ws`. */
  lemma ValuesOfDigitsUpToCase(a: Alphabet, ws: seq<nat>, t: Text)
    requires forall i | 0 <= i < |ws| :: ws[i] < Pow2(Width(a))
    requires |t| == |ws|
    requires forall i | 0 <= i < |ws| :: t[i] == Digits(a, ws)[i] || DigitValue(a, t[i]) == Some(ws[i])
    ensures Values(a, t) == Some(ws)
  {
    forall i | 0 <= i < |ws|
      ensures DigitValue(a, t[i]) == Some(ws[i])
    {
      DigitValueOfDigit(a, ws[i]);
    }
    assert Values(a, t).Some?;
    assert Values(a, t).value == ws;
  }

  /** All digits but the last of a cut bit string glue back to its leading bits. */
  lemma PrefixOfChunks(p: seq<bool>, k: nat, n: nat)
    requires 0 < k && 0 < n && |p| == n * k
    ensures |Chunks(p, k)| == n
    ensures Unchunk(Chunks(p, k)[..n - 1], k) == p[..(n - 1) * k]
  {
    ChunksLength(p, k, n);
    var vs := Chunks(p, k);
    UnchunkChunks(p, k, n);
    SplitLast(vs);
    UnchunkAppend(vs[..n - 1], [vs[n - 1]], k);
    UnchunkLength(vs[..n - 1], k);
    PrefixOfAppend(Unchunk(vs[..n - 1], k), Unchunk([vs[n - 1]], k), p);
  }

  lemma SplitLast<T>(s: seq<T>)
    requires |s| > 0
    ensures s == s[..|s| - 1] + [s[|s| - 1]]
  {
  }

  lemma PrefixOfAppend<T>(x: seq<T>, y: seq<T>, p: seq<T>)
    requires p == x + y
    ensures p[..|x|] == x
  {
  }

  lemma LastByteKept(bs: seq<byte>, p: seq<bool>, q: seq<bool>, k: nat)
    requires |bs| == 16 && 0 < k <= 6
    requires |p| >= 128 && p[..128] == BytesToBits(bs)
    requires |q| >= 128 && |q| < 136
    requires q[..120 + k] == p[..120 + k]
    ensures BitsToBytes(q) == bs[..15] + [BitsByte(q[120..128])]
    ensures |BitsToBytes(q)| == 16
    ensures ByteBits(BitsToBytes(q)[15])[..k] == ByteBits(bs[15])[..k]
  {
    LeadingBytesBits(bs, p);
    assert q[..120] == q[..120 + k][..120];
    assert p[..120] == p[..120 + k][..120];
    WholeBytesThenOne(bs[..15], q);
    assert q[120..128][..k] == q[..120 + k][120..];
    assert p[120..128][..k] == p[..120 + k][120..];
  }

  /**
   * Two texts whose decodings agree on their first `m` bytes have the same
   * digit at every position whose bits lie inside those bytes.
   */
  lemma DecodedDigitsAgree(a: Alphabet, s: Text, s': Text, m: nat, j: nat)
    requires Decode(a, s).Some? && Decode(a, s').Some?
    requires m <= |Decode(a, s).value| && m <= |Decode(a, s').value|
    requires Decode(a, s).value[..m] == Decode(a, s').value[..m]
    requires j * Width(a) + Width(a) <= 8 * m
    ensures j < |s| && j < |s'| && DigitValue(a, s[j]) == DigitValue(a, s'[j])
  {
    DigitInLeadingBytes(a, s, m, j);
    DigitInLeadingBytes(a, s', m, j);
  }

  /**
   * Digit `j` of a decodable text is the value of bits `jk` to `jk + k` of its
   * first `m` decoded bytes, when those bits lie inside them.
   */
  lemma DigitInLeadingBytes(a: Alphabet, s: Text, m: nat, j: nat)
    requires Decode(a, s).Some? && m <= |Decode(a, s).value|
    requires j * Width(a) + Width(a) <= 8 * m
    ensures var p := BytesToBits(Decode(a, s).value[..m]);
            j < |s| && j * Width(a) + Width(a) <= |p| &&
            DigitValue(a, s[j]) == Some(Value(p[j * Width(a)..j * Width(a) + Width(a)]))
  {
    var k := Width(a);
    var q := LeadingBits(a, s, m);
    var lo: nat := j * k by { MulMono(0, j, k); }
    ChunksAt(q, k, j);
    SliceOfPrefix(q, 8 * m, lo, lo + k);
  }

  /** A slice of a prefix is the same slice of the whole. */
  lemma SliceOfPrefix<T>(q: seq<T>, n: nat, i: nat, j: nat)
    requires i <= j <= n <= |q|
    ensures q[..n][i..j] == q[i..j]
  {
  }

  /**
   * The glued digit bits of a decodable text: their first `8m` bits are
   * those of the first `m` decoded bytes, and cut again they are the digits.
   */
  lemma LeadingBits(a: Alphabet, s: Text, m: nat) returns (q: seq<bool>)
    requires Decode(a, s).Some? && m <= |Decode(a, s).value|
    ensures 8 * m <= |q| && q[..8 * m] == BytesToBits(Decode(a, s).value[..m])
    ensures |Chunks(q, Width(a))| == |s|
    ensures forall i | 0 <= i < |s| :: DigitValue(a, s[i]) == Some(Chunks(q, Width(a))[i])
  {
    var k := Width(a);
    var vs := Values(a, s).value;
    q := Unchunk(vs, k);
    UnchunkLength(vs, k);
    forall i | 0 <= i < |vs|
      ensures vs[i] < Pow2(k)
    {
      DigitOfDigitValue(a, s[i]);
    }
    ChunksUnchunk(vs, k);
    var bs := Decode(a, s).value;
    assert bs == BitsToBytes(q);
    assert q == q[..8 * m] + q[8 * m..];
    BitsToBytesAppend(q[..8 * m], q[8 * m..], m);
    assert bs[..m] == BitsToBytes(q[..8 * m]);
    BitsBytesInverse(q[..8 * m], m);
  }

  /** The first 128 bits of `p` are the bits of bytes 0 to 14 and then those of byte 15. */
  lemma LeadingBytesBits(bs: seq<byte>, p: seq<bool>)
    requires |bs| == 16 && |p| >= 128 && p[..128] == BytesToBits(bs)
    ensures p[..120] == BytesToBits(bs[..15]) && p[120..128] == ByteBits(bs[15])
  {
    BytesToBitsAppend(bs[..15], [bs[15]]);
    assert bs == bs[..15] + [bs[15]];
    assert p[..120] == p[..128][..120];
    assert p[120..128] == p[..128][120..];
  }

  /** Bits of 15 whole bytes followed by 8 to 15 more bits read back as those bytes and one more. */
  lemma WholeBytesThenOne(hs: seq<byte>, q: seq<bool>)
    requires |hs| == 15 && 128 <= |q| < 136 && q[..120] == BytesToBits(hs)
    ensures BitsToBytes(q) == hs + [BitsByte(q[120..128])]
  {
    assert q == q[..120] + q[120..];
    BitsToBytesAppend(q[..120], q[120..], 15);
    BytesBitsInverse(hs);
    var t := q[120..];
    assert BitsToBytes(t) == [BitsByte(t[..8])] + BitsToBytes(t[8..]);
    assert BitsToBytes(t[8..]) == [];
  }
}
