/**
 * The UUID value type: sixteen bytes laid out as in RFC 9562, with the
 * version in the high nibble of byte 6 (section 4.2) and the variant in the
 * top bits of byte 8 (section 4.1), and its textual forms.
 *
 * The canonical form is lower-case hex with dashes after hex digits 8, 12, 16
 * and 20. The two compact forms are NCName-safe: a version letter `'A' + v`,
 * then the bytes after "shifting" (the version nibble dropped, the variant
 * nibble of byte 8 moved to the end) in unpadded base32 (25 characters) or
 * base64url (21 characters).
 */
module Uuid {
  import opened Bits
  import opened Text
  import opened Radix
  import opened Doc

  /** Go's `UUID struct{ b [16]byte }`: a value, compared with `==`. */
  datatype UUID = UUID(b: Block)
  {
    /** The version: the high nibble of byte 6. */
    function Version(): (v: nat)
      ensures v < 16 && v == b[6] as int / 16
    {
      (b[6] >> 4) as int
    }

    /** The version as a byte is the high nibble of byte 6 again. */
    lemma VersionByte()
      ensures Version() as byte == b[6] >> 4
    {
      ByteOfNat(Version());
    }

    /** The variant: the top two bits of byte 8. */
    function Variant(): (v: nat)
      ensures v < 4 && v == b[8] as int / 64
    {
      (b[8] >> 6) as int
    }

    /** A copy of the sixteen bytes; a UUID is a value, so changing the copy cannot change `this`. */
    function Bytes(): (r: seq<byte>)
      ensures |r| == 16 && forall i | 0 <= i < 16 :: r[i] == b[i]
    {
      b
    }

    /** `String`: the canonical form, written into a 36-character buffer piece by piece. */
    method String() returns (s: Text)
      ensures s == Canonical(b)
    {
      var buf := new achar[36](_ => '\0');
      buf[8], buf[13], buf[18], buf[23] := '-', '-', '-', '-';
      ghost var d0 := buf[..];
      HexEncodeInto(buf, 0, b[0..4]);
      ghost var d1 := buf[..];
      HexEncodeInto(buf, 9, b[4..6]);
      ghost var d2 := buf[..];
      HexEncodeInto(buf, 14, b[6..8]);
      ghost var d3 := buf[..];
      HexEncodeInto(buf, 19, b[8..10]);
      ghost var d4 := buf[..];
      HexEncodeInto(buf, 24, b[10..]);
      s := buf[..];
      GroupsWritten(b, d0, d1, d2, d3, d4, s);
    }

    /** `MarshalJSON`: the canonical form in double quotes. */
    method MarshalJSON() returns (j: Text)
      ensures j == ['"'] + Canonical(b) + ['"']
    {
      var s := String();
      j := ['"'] + s + ['"'];
    }

    /** `shifted`: the repacked bytes, computed on four big-endian 32-bit words. */
    method Shifted() returns (out: Block)
      ensures out == Repack(b)
    {
      var w0, w1, w2, w3 := Uint32BE(b[0], b[1], b[2], b[3]), Uint32BE(b[4], b[5], b[6], b[7]),
                            Uint32BE(b[8], b[9], b[10], b[11]), Uint32BE(b[12], b[13], b[14], b[15]);
      PutUint32BEInverse(b[0], b[1], b[2], b[3]);
      ShiftWord1(b[4], b[5], b[6], b[7], b[8], b[9], b[10], b[11], w1, w2);
      ShiftWord2(b[8], b[9], b[10], b[11], b[12], b[13], b[14], b[15], w2, w3);
      ShiftWord3(b[8], b[9], b[10], b[11], b[12], b[13], b[14], b[15], w2, w3);
      var variant := (w2 & 0xf000_0000) >> 24;
      w1 := (w1 & 0xffff_0000) | ((w1 & 0x0000_0fff) << 4) | ((w2 & 0x0fff_ffff) >> 24);
      w2 := ((w2 & 0x00ff_ffff) << 8) | (w3 >> 24);
      w3 := (w3 << 8) | variant;
      RepackConcat(b, PutUint32BE(w0), PutUint32BE(w1), PutUint32BE(w2), PutUint32BE(w3));
      out := PutUint32BE(w0) + PutUint32BE(w1) + PutUint32BE(w2) + PutUint32BE(w3);
    }

    /** `Compact32`: the version letter, then 25 base32 characters of the shifted bytes with byte 15 moved down one bit. */
    method Compact32() returns (s: Text)
      ensures s == Compact32Text(b)
    {
      var t := Shifted();
      t := t[15 := t[15] >> 1];
      EncodeLength16(Base32, t);
      s := [VersionLetter(Version())] + Encode(Base32, t)[0..25];
    }

    /** `Compact64`: the version letter, then 21 base64url characters of the shifted bytes with byte 15 moved down two bits. */
    method Compact64() returns (s: Text)
      ensures s == Compact64Text(b)
    {
      var t := Shifted();
      t := t[15 := t[15] >> 2];
      EncodeLength16(Base64Url, t);
      s := [VersionLetter(Version())] + Encode(Base64Url, t)[0..21];
    }

    /** `IsNil`: compares with the Nil bytes. */
    function IsNil(): (r: bool)
      ensures r <==> forall i | 0 <= i < 16 :: b[i] == 0x00
    {
      b == BytesNil
    }

    /** `IsMax`: compares with the Max bytes. */
    function IsMax(): (r: bool)
      ensures r <==> forall i | 0 <= i < 16 :: b[i] == 0xff
    {
      b == BytesMax
    }
  }

  /** `Nil()`: the all-zero UUID. */
  function Nil(): (u: UUID)
    ensures u.IsNil() && !u.IsMax() && u.Version() == VersionNil && u.Variant() == 0
  {
    UUID(BytesNil)
  }

  /** `Max()`: the all-ones UUID, version 15 and variant 3. */
  function Max(): (u: UUID)
    ensures u.IsMax() && !u.IsNil() && u.Version() == VersionMax && u.Variant() == 3
  {
    UUID(BytesMax)
  }

  /** The hex digit of the high nibble of `x`. */
  function HexHi(x: byte): achar
  {
    Digit(Hex, (x >> 4) as int)
  }

  /** The hex digit of the low nibble of `x`. */
  function HexLo(x: byte): achar
  {
    Digit(Hex, (x & 0x0f) as int)
  }

  /** `hex.Encode`: writes the lower-case hex digits of `src` at `dst[off..]`, two per byte, and nothing else. */
  method HexEncodeInto(dst: array<achar>, off: nat, src: seq<byte>)
    requires off + 2 * |src| <= dst.Length
    modifies dst
    ensures dst[..] == old(dst[..off]) + Encode(Hex, src) + old(dst[off + 2 * |src|..])
  {
    var i := 0;
    while i < |src|
      invariant 0 <= i <= |src|
      invariant forall j | 0 <= j < i :: dst[off + 2 * j] == HexHi(src[j]) && dst[off + 2 * j + 1] == HexLo(src[j])
      invariant forall k | 0 <= k < dst.Length && !(off <= k < off + 2 * i) :: dst[k] == old(dst[k])
    {
      dst[off + 2 * i] := HexHi(src[i]);
      dst[off + 2 * i + 1] := HexLo(src[i]);
      i := i + 1;
    }
    HexLayout(dst[off..off + 2 * |src|], src);
    Overwritten(dst[..], old(dst[..]), off, off + 2 * |src|);
  }

  /** A text that differs from `o` only in `[i..j]` is `o` with that stretch replaced. */
  lemma Overwritten(d: Text, o: Text, i: nat, j: nat)
    requires |d| == |o| && i <= j <= |d|
    requires forall k | 0 <= k < |d| && !(i <= k < j) :: d[k] == o[k]
    ensures d == o[..i] + d[i..j] + o[j..]
  {
  }

  /** What `hex.Encode` writes is the hex encoding: text laid out digit pair by digit pair is `Encode(Hex, src)`. */
  lemma HexLayout(s: Text, src: seq<byte>)
    requires |s| == 2 * |src|
    requires forall j | 0 <= j < |src| :: s[2 * j] == HexHi(src[j]) && s[2 * j + 1] == HexLo(src[j])
    ensures s == Encode(Hex, src)
  {
    HexEncodeLength(src);
    forall i | 0 <= i < |s|
      ensures s[i] == Encode(Hex, src)[i]
    {
      var j := i / 2;
      HexEncodeAt(src, j);
      assert i == 2 * j || i == 2 * j + 1;
    }
  }

  /**
   * The five `hex.Encode` calls of `String`, each writing one group and
   * leaving the rest of the buffer alone, leave the canonical text behind.
   */
  lemma GroupsWritten(b: Block, d0: Text, d1: Text, d2: Text, d3: Text, d4: Text, d5: Text)
    requires |d0| == 36 && d0[8] == '-' && d0[13] == '-' && d0[18] == '-' && d0[23] == '-'
    requires |d1| == |d2| == |d3| == |d4| == 36
    requires d1 == d0[..0] + Encode(Hex, b[0..4]) + d0[8..]
    requires d2 == d1[..9] + Encode(Hex, b[4..6]) + d1[13..]
    requires d3 == d2[..14] + Encode(Hex, b[6..8]) + d2[18..]
    requires d4 == d3[..19] + Encode(Hex, b[8..10]) + d3[23..]
    requires d5 == d4[..24] + Encode(Hex, b[10..]) + d4[36..]
    ensures d5 == Canonical(b)
  {
    HexEncodeLength(b[0..4]);
    HexEncodeLength(b[4..6]);
    HexEncodeLength(b[6..8]);
    HexEncodeLength(b[8..10]);
    HexEncodeLength(b[10..]);
    Spliced(d1, d0[..0], Encode(Hex, b[0..4]), d0[8..]);
    Spliced(d2, d1[..9], Encode(Hex, b[4..6]), d1[13..]);
    Spliced(d3, d2[..14], Encode(Hex, b[6..8]), d2[18..]);
    Spliced(d4, d3[..19], Encode(Hex, b[8..10]), d3[23..]);
    Spliced(d5, d4[..24], Encode(Hex, b[10..]), d4[36..]);
    KeptBefore(d2, d1, 9, 0, 8);
    KeptBefore(d3, d2, 14, 0, 8);
    KeptBefore(d4, d3, 19, 0, 8);
    KeptBefore(d5, d4, 24, 0, 8);
    KeptBefore(d3, d2, 14, 9, 13);
    KeptBefore(d4, d3, 19, 9, 13);
    KeptBefore(d5, d4, 24, 9, 13);
    KeptBefore(d4, d3, 19, 14, 18);
    KeptBefore(d5, d4, 24, 14, 18);
    KeptBefore(d5, d4, 24, 19, 23);
    KeptAfter(d1, d0, 8, 8, 24);
    KeptAfter(d2, d1, 13, 13, 24);
    KeptAfter(d3, d2, 18, 18, 24);
    KeptAfter(d4, d3, 23, 23, 24);
    KeptBefore(d2, d1, 9, 8, 9);
    KeptBefore(d3, d2, 14, 8, 14);
    KeptBefore(d4, d3, 19, 8, 19);
    KeptBefore(d5, d4, 24, 8, 24);
    CanonicalFromGroups(d5, b);
  }

  /** The three parts of a text glued together can be cut out again. */
  lemma Spliced(d: Text, x: Text, e: Text, y: Text)
    requires d == x + e + y
    ensures d[..|x|] == x && d[|x|..|x| + |e|] == e && d[|x| + |e|..] == y
  {
  }

  /** Two texts that agree below `n` agree on every stretch `[i..j]` below `n`. */
  lemma KeptBefore(x: Text, y: Text, n: nat, i: nat, j: nat)
    requires n <= |x| && n <= |y| && x[..n] == y[..n] && i <= j <= n
    ensures x[i..j] == y[i..j] && forall k | i <= k < j :: x[k] == y[k]
  {
    assert x[i..j] == x[..n][i..j] && y[i..j] == y[..n][i..j];
  }

  /** Two texts of one length that agree from `n` on agree at every position from `i` to `j`. */
  lemma KeptAfter(x: Text, y: Text, n: nat, i: nat, j: nat)
    requires |x| == |y| && n <= i <= j <= |x| && x[n..] == y[n..]
    ensures forall k | i <= k < j :: x[k] == y[k]
  {
    forall k | i <= k < j
      ensures x[k] == y[k]
    {
      assert x[k] == x[n..][k - n] && y[k] == y[n..][k - n];
    }
  }

  /** The canonical text: groups of 8, 4, 4, 4 and 12 hex digits of the sixteen bytes, joined by dashes. */
  function Canonical(b: Block): (s: Text)
    ensures |s| == 36
  {
    HexEncodeLength(b);
    Dashed(Encode(Hex, b))
  }

  /** Thirty-two hex digits with dashes after the 8th, 12th, 16th and 20th. */
  function Dashed(h: Text): (s: Text)
    requires |h| == 32
    ensures |s| == 36
  {
    h[..8] + ['-'] + h[8..12] + ['-'] + h[12..16] + ['-'] + h[16..20] + ['-'] + h[20..]
  }

  /** Where hex digit `i` lands in the dashed text. */
  function DigitPos(i: nat): nat
  {
    i + (if i < 8 then 0 else if i < 12 then 1 else if i < 16 then 2 else if i < 20 then 3 else 4)
  }

  /** Where the two hex digits of byte `j` start in the canonical text. */
  function HexPos(j: nat): nat
  {
    DigitPos(2 * j)
  }

  /** The dashed text has its dashes at 8, 13, 18 and 23 and hex digit `i` at `DigitPos(i)`. */
  lemma DashedLayout(h: Text)
    requires |h| == 32
    ensures Dashed(h)[8] == '-' && Dashed(h)[13] == '-' && Dashed(h)[18] == '-' && Dashed(h)[23] == '-'
    ensures forall i | 0 <= i < 32 :: Dashed(h)[DigitPos(i)] == h[i]
  {
    var s := Dashed(h);
    forall i | 0 <= i < 32
      ensures s[DigitPos(i)] == h[i]
    {
      if i < 8 {
      } else if i < 12 {
        assert s[DigitPos(i)] == h[8..12][i - 8];
      } else if i < 16 {
        assert s[DigitPos(i)] == h[12..16][i - 12];
      } else if i < 20 {
        assert s[DigitPos(i)] == h[16..20][i - 16];
      } else {
        assert s[DigitPos(i)] == h[20..][i - 20];
      }
    }
  }

  /**
   * The canonical text has dashes at 8, 13, 18 and 23, and byte `j`'s two
   * lower-case hex digits, high nibble first, at `HexPos(j)`.
   */
  lemma CanonicalLayout(b: Block)
    ensures Canonical(b)[8] == '-' && Canonical(b)[13] == '-' && Canonical(b)[18] == '-' && Canonical(b)[23] == '-'
    ensures forall j | 0 <= j < 16 :: Canonical(b)[HexPos(j)] == HexHi(b[j]) && Canonical(b)[HexPos(j) + 1] == HexLo(b[j])
  {
    var h := Encode(Hex, b);
    HexEncodeLength(b);
    DashedLayout(h);
    forall j | 0 <= j < 16
      ensures Canonical(b)[HexPos(j)] == HexHi(b[j]) && Canonical(b)[HexPos(j) + 1] == HexLo(b[j])
    {
      HexEncodeAt(b, j);
      assert DigitPos(2 * j + 1) == HexPos(j) + 1;
    }
  }

  /** Every position of the canonical text is a dash or one of the two digits of some byte. */
  lemma CanonicalPositions(i: nat)
    requires i < 36 && i != 8 && i != 13 && i != 18 && i != 23
    ensures exists j | 0 <= j < 16 :: i == HexPos(j) || i == HexPos(j) + 1
  {
    var j := if i < 8 then i / 2 else if i < 13 then (i - 1) / 2 else if i < 18 then (i - 2) / 2
             else if i < 23 then (i - 3) / 2 else (i - 4) / 2;
    assert i == HexPos(j) || i == HexPos(j) + 1;
  }

  /** The hex text of a block is the hex text of its five dash-separated groups, joined. */
  lemma EncodeGroups(b: Block)
    ensures Encode(Hex, b) == Encode(Hex, b[0..4]) + Encode(Hex, b[4..6]) + Encode(Hex, b[6..8])
                              + Encode(Hex, b[8..10]) + Encode(Hex, b[10..])
  {
    EncodeAppend(Hex, b[8..10], b[10..]);
    assert b[8..] == b[8..10] + b[10..];
    EncodeAppend(Hex, b[6..8], b[8..]);
    assert b[6..] == b[6..8] + b[8..];
    EncodeAppend(Hex, b[4..6], b[6..]);
    assert b[4..] == b[4..6] + b[6..];
    EncodeAppend(Hex, b[0..4], b[4..]);
    assert b == b[0..4] + b[4..];
  }

  /** Thirty-six characters with dashes at 8, 13, 18 and 23 are the dashed form of the other 32. */
  lemma DashedGroups(s: Text, h: Text)
    requires |s| == 36 && s[8] == '-' && s[13] == '-' && s[18] == '-' && s[23] == '-'
    requires h == s[0..8] + s[9..13] + s[14..18] + s[19..23] + s[24..]
    ensures Dashed(h) == s
  {
    assert h[..8] == s[0..8];
    assert h[8..12] == s[9..13];
    assert h[12..16] == s[14..18];
    assert h[16..20] == s[19..23];
    assert h[20..] == s[24..];
    assert s == s[0..8] + [s[8]] + s[9..13] + [s[13]] + s[14..18] + [s[18]] + s[19..23] + [s[23]] + s[24..];
  }

  /** Dashes at 8, 13, 18 and 23 and each group's hex text in between make the canonical text. */
  lemma CanonicalFromGroups(s: Text, b: Block)
    requires |s| == 36 && s[8] == '-' && s[13] == '-' && s[18] == '-' && s[23] == '-'
    requires s[0..8] == Encode(Hex, b[0..4]) && s[9..13] == Encode(Hex, b[4..6]) && s[14..18] == Encode(Hex, b[6..8])
    requires s[19..23] == Encode(Hex, b[8..10]) && s[24..] == Encode(Hex, b[10..])
    ensures s == Canonical(b)
  {
    EncodeGroups(b);
    DashedGroups(s, Encode(Hex, b));
  }

  /** Any 36 characters with the canonical layout of `b` are `Canonical(b)`. */
  lemma CanonicalFromLayout(s: Text, b: Block)
    requires |s| == 36 && s[8] == '-' && s[13] == '-' && s[18] == '-' && s[23] == '-'
    requires forall j | 0 <= j < 16 :: s[HexPos(j)] == HexHi(b[j]) && s[HexPos(j) + 1] == HexLo(b[j])
    ensures s == Canonical(b)
  {
    CanonicalLayout(b);
    forall i | 0 <= i < 36
      ensures s[i] == Canonical(b)[i]
    {
      if i != 8 && i != 13 && i != 18 && i != 23 {
        CanonicalPositions(i);
      }
    }
  }

  /** The hex digits of byte `j` are characters `2j` and `2j + 1` of the hex text. */
  lemma {:induction false} HexEncodeAt(bs: seq<byte>, j: nat)
    requires j < |bs|
    ensures |Encode(Hex, bs)| == 2 * |bs|
    ensures Encode(Hex, bs)[2 * j] == HexHi(bs[j])
    ensures Encode(Hex, bs)[2 * j + 1] == HexLo(bs[j])
    decreases |bs|
  {
    HexEncodeLength(bs);
    var init := bs[..|bs| - 1];
    assert bs == init + [bs[|bs| - 1]];
    HexEncodeSnoc(init, bs[|bs| - 1]);
    HexEncodeLength(init);
    if j < |bs| - 1 {
      HexEncodeAt(init, j);
    }
  }

  /** Removing the dashes from the canonical text leaves the plain hex text of all sixteen bytes. */
  lemma CanonicalWithoutDashes(b: Block)
    ensures RemoveDashes(Canonical(b)) == Encode(Hex, b)
  {
    HexEncodeLength(b);
    NoDash(b);
    assert forall i | 0 <= i < 32 :: RemoveDashes(Encode(Hex, b))[i] != '-';
    DashedWithoutDashes(Encode(Hex, b));
  }

  /** Dropping the four dashes of `Dashed(h)` gives `h` back when `h` has no dash of its own. */
  lemma DashedWithoutDashes(h: Text)
    requires |h| == 32 && forall i | 0 <= i < 32 :: h[i] != '-'
    ensures RemoveDashes(Dashed(h)) == h
  {
    var e0, e1, e2, e3, e4 := h[..8], h[8..12], h[12..16], h[16..20], h[20..];
    RemoveDashesNone(e0);
    RemoveDashesNone(e1);
    RemoveDashesNone(e2);
    RemoveDashesNone(e3);
    RemoveDashesNone(e4);
    var x1: Text := e0 + ['-'] + e1;
    RemoveDashJoin(e0, e1);
    var x2: Text := x1 + ['-'] + e2;
    RemoveDashJoin(x1, e2);
    var x3: Text := x2 + ['-'] + e3;
    RemoveDashJoin(x2, e3);
    RemoveDashJoin(x3, e4);
    assert Dashed(h) == x3 + ['-'] + e4;
    PrefixJoin(h, 8, 12);
    PrefixJoin(h, 12, 16);
    PrefixJoin(h, 16, 20);
    PrefixJoin(h, 20, 32);
    assert h[..32] == h;
  }

  lemma PrefixJoin<T>(s: seq<T>, j: nat, k: nat)
    requires j <= k <= |s|
    ensures s[..j] + s[j..k] == s[..k]
  {
  }

  /** A dash between two texts disappears and the texts' own dashes go as they would alone. */
  lemma RemoveDashJoin(x: Text, y: Text)
    ensures RemoveDashes(x + ['-'] + y) == RemoveDashes(x) + RemoveDashes(y)
  {
    RemoveDashesAppend(x + ['-'], y);
    RemoveDashesAppend(x, ['-']);
    assert ['-'][1..] == [];
  }

  /** Hex text has no dash in it. */
  lemma NoDash(bs: seq<byte>)
    ensures RemoveDashes(Encode(Hex, bs)) == Encode(Hex, bs)
  {
    var s := Encode(Hex, bs);
    forall i | 0 <= i < |s|
      ensures s[i] != '-'
    {
      var k := Chunks(Padded(Hex, BytesToBits(bs)), 4)[i];
      DigitCase(Hex, k);
    }
    RemoveDashesNone(s);
  }

  /**
   * The repacked bytes of `shifted`: bytes 0 to 5 kept, the version nibble of
   * byte 6 dropped and the nibbles of bytes 6 to 8 moved up by one, bytes 9 to
   * 15 moved up by one byte, and byte 8's variant nibble placed in the high
   * nibble of the last byte.
   */
  function Repack(b: Block): (r: Block)
  {
    b[..6] + [(b[6] << 4) | (b[7] >> 4), (b[7] << 4) | (b[8] & 0x0f)] + b[9..] + [b[8] & 0xf0]
  }

  /** The repacked block byte by byte. */
  lemma RepackBytes(b: Block)
    ensures Repack(b) == [b[0], b[1], b[2], b[3], b[4], b[5], (b[6] << 4) | (b[7] >> 4), (b[7] << 4) | (b[8] & 0x0f),
                          b[9], b[10], b[11], b[12], b[13], b[14], b[15], b[8] & 0xf0]
  {
  }

  /** What `shifted` promises: bytes 0 to 5 unchanged, byte 8's top nibble at the top of byte 15, whose low nibble is zero. */
  lemma RepackLayout(b: Block)
    ensures Repack(b)[..6] == b[..6]
    ensures Repack(b)[15] >> 4 == b[8] >> 4 && Repack(b)[15] & 0x0f == 0
    ensures Repack(b)[6] >> 4 == b[6] & 0x0f
  {
  }

  /** Four byte groups that spell the repacked block, in order, concatenate to it. */
  lemma RepackConcat(b: Block, o0: seq<byte>, o1: seq<byte>, o2: seq<byte>, o3: seq<byte>)
    requires o0 == [b[0], b[1], b[2], b[3]]
    requires o1 == [b[4], b[5], (b[6] << 4) | (b[7] >> 4), (b[7] << 4) | (b[8] & 0x0f)]
    requires o2 == [b[9], b[10], b[11], b[12]]
    requires o3 == [b[13], b[14], b[15], b[8] & 0xf0]
    ensures o0 + o1 + o2 + o3 == Repack(b)
  {
    RepackBytes(b);
  }

  /** The second word after `shifted`'s update, written out as bytes. */
  lemma ShiftWord1(b4: byte, b5: byte, b6: byte, b7: byte, b8: byte, b9: byte, b10: byte, b11: byte, w1: bv32, w2: bv32)
    requires w1 == Uint32BE(b4, b5, b6, b7) && w2 == Uint32BE(b8, b9, b10, b11)
    ensures PutUint32BE((w1 & 0xffff_0000) | ((w1 & 0x0000_0fff) << 4) | ((w2 & 0x0fff_ffff) >> 24))
            == [b4, b5, (b6 << 4) | (b7 >> 4), (b7 << 4) | (b8 & 0x0f)]
  {
  }

  /** The third word after `shifted`'s update, written out as bytes. */
  lemma ShiftWord2(b8: byte, b9: byte, b10: byte, b11: byte, b12: byte, b13: byte, b14: byte, b15: byte, w2: bv32, w3: bv32)
    requires w2 == Uint32BE(b8, b9, b10, b11) && w3 == Uint32BE(b12, b13, b14, b15)
    ensures PutUint32BE(((w2 & 0x00ff_ffff) << 8) | (w3 >> 24)) == [b9, b10, b11, b12]
  {
  }

  /** The last word after `shifted`'s update, written out as bytes. */
  lemma ShiftWord3(b8: byte, b9: byte, b10: byte, b11: byte, b12: byte, b13: byte, b14: byte, b15: byte, w2: bv32, w3: bv32)
    requires w2 == Uint32BE(b8, b9, b10, b11) && w3 == Uint32BE(b12, b13, b14, b15)
    ensures PutUint32BE((w3 << 8) | ((w2 & 0xf000_0000) >> 24)) == [b13, b14, b15, b8 & 0xf0]
  {
  }

  /** The block that `Compact32` encodes: the repacked bytes with byte 15 moved down one bit. */
  function Bookend32(b: Block): Block
  {
    Repack(b)[15 := Repack(b)[15] >> 1]
  }

  /** The block that `Compact64` encodes: the repacked bytes with byte 15 moved down two bits. */
  function Bookend64(b: Block): Block
  {
    Repack(b)[15 := Repack(b)[15] >> 2]
  }

  /** The compact base32 text: 26 characters led by the version letter. */
  function Compact32Text(b: Block): (s: Text)
    ensures |s| == 26 && s[0] == VersionLetter(UUID(b).Version())
  {
    EncodeLength16(Base32, Bookend32(b));
    [VersionLetter(UUID(b).Version())] + Encode(Base32, Bookend32(b))[0..25]
  }

  /** The compact base64url text: 22 characters led by the version letter. */
  function Compact64Text(b: Block): (s: Text)
    ensures |s| == 22 && s[0] == VersionLetter(UUID(b).Version())
  {
    EncodeLength16(Base64Url, Bookend64(b));
    [VersionLetter(UUID(b).Version())] + Encode(Base64Url, Bookend64(b))[0..21]
  }

  /** `bytes.Compare`: -1, 0 or 1 as `x` sorts before, equal to or after `y`; a proper prefix sorts first. */
  function LexCompare(x: seq<byte>, y: seq<byte>): (r: int)
    ensures -1 <= r <= 1
  {
    if x == [] then (if y == [] then 0 else -1)
    else if y == [] then 1
    else if x[0] < y[0] then -1
    else if x[0] > y[0] then 1
    else LexCompare(x[1..], y[1..])
  }

  /** `bytes.Compare` answers 0 exactly on equal byte strings. */
  lemma {:induction false} LexCompareZero(x: seq<byte>, y: seq<byte>)
    ensures LexCompare(x, y) == 0 <==> x == y
  {
    if x != [] && y != [] && x[0] == y[0] {
      LexCompareZero(x[1..], y[1..]);
      assert x == [x[0]] + x[1..] && y == [y[0]] + y[1..];
    }
  }

  /** `Compare`: orders by the first eight bytes only (timestamp and rand_a of a version 7 UUID). */
  function Compare(a: UUID, b: UUID): (r: int)
    ensures -1 <= r <= 1
  {
    LexCompare(a.b[..8], b.b[..8])
  }

  function Sign(n: int): int
  {
    if n < 0 then -1 else if n > 0 then 1 else 0
  }

  /** Swapping the arguments of `bytes.Compare` negates the result. */
  lemma {:induction false} LexCompareAntisymmetric(x: seq<byte>, y: seq<byte>)
    ensures LexCompare(x, y) == -LexCompare(y, x)
  {
    if x != [] && y != [] && x[0] == y[0] {
      LexCompareAntisymmetric(x[1..], y[1..]);
    }
  }

  /** On byte strings of one length, `bytes.Compare` is the order of their big-endian values. */
  lemma {:induction false} LexCompareValue(x: seq<byte>, y: seq<byte>)
    requires |x| == |y|
    ensures LexCompare(x, y) == Sign(FromBE(x) - FromBE(y))
  {
    if x != [] {
      var n := |x|;
      LexCompareValue(x[..n - 1], y[..n - 1]);
      LexCompareSnoc(x, y);
      SignSnoc(FromBE(x[..n - 1]), FromBE(y[..n - 1]), x[n - 1], y[n - 1]);
    }
  }

  /** `bytes.Compare` of two strings of one length: the leading parts decide, and the last bytes break a tie. */
  lemma {:induction false} LexCompareSnoc(x: seq<byte>, y: seq<byte>)
    requires |x| == |y| && x != []
    ensures var n := |x|; var c := LexCompare(x[..n - 1], y[..n - 1]);
            LexCompare(x, y) == if c != 0 then c else if x[n - 1] < y[n - 1] then -1 else if x[n - 1] > y[n - 1] then 1 else 0
  {
    var n := |x|;
    if n == 1 {
      assert x[1..] == [] && y[1..] == [];
    } else if x[0] == y[0] {
      LexCompareSnoc(x[1..], y[1..]);
      assert x[1..][..n - 2] == x[..n - 1][1..] && y[1..][..n - 2] == y[..n - 1][1..];
    }
  }

  /** Two values one byte longer compare by their leading parts first, and then by the last bytes. */
  lemma SignSnoc(a: int, b: int, c: byte, d: byte)
    ensures Sign((256 * a + c as int) - (256 * b + d as int))
            == if Sign(a - b) != 0 then Sign(a - b) else if c < d then -1 else if c > d then 1 else 0
  {
    ByteOrder(c, d);
  }

  lemma ByteOrder(a: byte, b: byte)
    ensures (a < b <==> a as int < b as int) && (a > b <==> a as int > b as int)
  {
  }

  /**
   * `Compare` is 0 exactly when the first eight bytes agree, is reflexive,
   * and swapping its arguments negates it.
   */
  lemma CompareProperties(a: UUID, b: UUID)
    ensures Compare(a, b) == 0 <==> a.b[..8] == b.b[..8]
    ensures Compare(a, a) == 0
    ensures Compare(a, b) == -Compare(b, a)
  {
    LexCompareZero(a.b[..8], b.b[..8]);
    LexCompareZero(a.b[..8], a.b[..8]);
    LexCompareAntisymmetric(a.b[..8], b.b[..8]);
  }

  /** `Compare` is the order of the big-endian values of the first eight bytes. */
  lemma CompareValue(a: UUID, b: UUID)
    ensures Compare(a, b) == Sign(FromBE(a.b[..8]) - FromBE(b.b[..8]))
  {
    LexCompareValue(a.b[..8], b.b[..8]);
  }

  /**
   * The canonical text of a block whose sixteen bytes are all `x` is any
   * 36 characters with dashes at 8, 13, 18 and 23 and `x`'s two (equal) hex
   * digits everywhere else.
   */
  lemma CanonicalOfConst(b: Block, x: byte, s: Text)
    requires forall i | 0 <= i < 16 :: b[i] == x
    requires |s| == 36 && s[8] == '-' && s[13] == '-' && s[18] == '-' && s[23] == '-'
    requires forall i | 0 <= i < 36 && i != 8 && i != 13 && i != 18 && i != 23 :: s[i] == HexHi(x) == HexLo(x)
    ensures Canonical(b) == s
  {
    forall j | 0 <= j < 16
      ensures s[HexPos(j)] == HexHi(b[j]) && s[HexPos(j) + 1] == HexLo(b[j])
    {
      assert HexPos(j) != 8 && HexPos(j) != 13 && HexPos(j) != 18 && HexPos(j) != 23;
    }
    CanonicalFromLayout(s, b);
  }

  /** The Nil constants are the canonical and JSON forms of `Nil()`. */
  lemma NilCanonicalForm()
    ensures Canonical(BytesNil) == NilCanonical
    ensures ['"'] + Canonical(BytesNil) + ['"'] == NilJSON
  {
    assert HexHi(0x00) == '0' && HexLo(0x00) == '0';
    CanonicalOfConst(BytesNil, 0x00, NilCanonical);
  }

  /** The Max constants are the canonical and JSON forms of `Max()`. */
  lemma MaxCanonicalForm()
    ensures Canonical(BytesMax) == MaxCanonical
    ensures ['"'] + Canonical(BytesMax) + ['"'] == MaxJSON
  {
    assert HexHi(0xff) == 'f' && HexLo(0xff) == 'f';
    CanonicalOfConst(BytesMax, 0xff, MaxCanonical);
  }

  /** Sixteen zero bytes are 26 base32 digits 'A'. */
  lemma ZerosBase32()
    ensures Encode(Base32, seq(16, _ => 0x00)) == seq(26, _ => 'A')
  {
    EncodeZeros(Base32, 16);
    EncodeLength16(Base32, seq(16, _ => 0x00));
    assert Digit(Base32, 0) == 'A';
  }

  /** Sixteen zero bytes are 22 base64url digits 'A'. */
  lemma ZerosBase64()
    ensures Encode(Base64Url, seq(16, _ => 0x00)) == seq(22, _ => 'A')
  {
    EncodeZeros(Base64Url, 16);
    EncodeLength16(Base64Url, seq(16, _ => 0x00));
    assert Digit(Base64Url, 0) == 'A';
  }

  /** Nil's block is unchanged by either compact form's adjustment. */
  lemma NilBookends()
    ensures Bookend32(BytesNil) == seq(16, _ => 0x00) && Bookend64(BytesNil) == seq(16, _ => 0x00)
  {
    RepackBytes(BytesNil);
  }

  /** Nil's version letter is 'A'. */
  lemma NilLetter()
    ensures VersionLetter(UUID(BytesNil).Version()) == 'A'
  {
  }

  /** A run of `c` with its last character dropped and `c` put in front is the same run. */
  lemma RunCons(c: achar, n: nat)
    requires n > 0
    ensures [c] + seq(n, _ => c)[0..n - 1] == seq(n, _ => c)
  {
  }

  /** The Nil constant is the compact base32 form of `Nil()`. */
  lemma NilCompact32Form()
    ensures Compact32Text(BytesNil) == NilCompact32
  {
    NilBookends();
    ZerosBase32();
    CompactConstantShapes();
    NilLetter();
    RunCons('A', 26);
  }

  /** The Nil constant is the compact base64url form of `Nil()`. */
  lemma NilCompact64Form()
    ensures Compact64Text(BytesNil) == NilCompact64
  {
    NilBookends();
    ZerosBase64();
    CompactConstantShapes();
    NilLetter();
    RunCons('A', 22);
  }

  /** Max's block after `Compact32`'s adjustment: fifteen 0xff bytes, then 0x78. */
  lemma MaxBookend32()
    ensures Bookend32(BytesMax) == seq(15, _ => 0xff) + [0x78]
  {
    RepackBytes(BytesMax);
  }

  /** Max's block after `Compact64`'s adjustment: fifteen 0xff bytes, then 0x3c. */
  lemma MaxBookend64()
    ensures Bookend64(BytesMax) == seq(15, _ => 0xff) + [0x3c]
  {
    RepackBytes(BytesMax);
  }

  /** Fifteen 0xff bytes are 24 base32 digits '7'. */
  lemma OnesBase32()
    ensures Encode(Base32, seq(15, _ => 0xff)) == seq(24, _ => '7')
  {
    EncodeOnes(Base32, 15);
    EncodeLength(Base32, seq(15, _ => 0xff));
    assert Pow2(5) == 32;
    assert Digit(Base32, 31) == '7';
  }

  /** Fifteen 0xff bytes are 20 base64url digits '_'. */
  lemma OnesBase64()
    ensures Encode(Base64Url, seq(15, _ => 0xff)) == seq(20, _ => '_')
  {
    EncodeOnes(Base64Url, 15);
    EncodeLength(Base64Url, seq(15, _ => 0xff));
    assert Pow2(6) == 64;
    assert Digit(Base64Url, 63) == '_';
  }

  /** The Max constant is the compact base32 form of `Max()`. */
  lemma MaxCompact32Form()
    ensures Compact32Text(BytesMax) == MaxCompact32
  {
    var ones: seq<byte> := seq(15, _ => 0xff);
    MaxBookend32();
    EncodeAppend(Base32, ones, [0x78]);
    OnesBase32();
    Base32Bookend();
    var t := seq(24, _ => '7') + ['P', 'A'];
    assert Encode(Base32, Bookend32(BytesMax)) == t;
    assert t[0..25] == seq(24, _ => '7') + ['P'];
    CompactConstantShapes();
  }

  /** The Max constant is the compact base64url form of `Max()`. */
  lemma MaxCompact64Form()
    ensures Compact64Text(BytesMax) == MaxCompact64
  {
    var ones: seq<byte> := seq(15, _ => 0xff);
    MaxBookend64();
    EncodeAppend(Base64Url, ones, [0x3c]);
    OnesBase64();
    Base64Bookend();
    var t := seq(20, _ => '_') + ['P', 'A'];
    assert Encode(Base64Url, Bookend64(BytesMax)) == t;
    assert t[0..21] == seq(20, _ => '_') + ['P'];
    CompactConstantShapes();
  }

  /** A single byte whose padded bits make exactly two digits encodes as those two digits. */
  lemma OneByteTwoDigits(a: Alphabet, x: byte)
    requires |Padded(a, BytesToBits([x]))| == 2 * Width(a)
    ensures var p := Padded(a, BytesToBits([x]));
            Encode(a, [x]) == [Digit(a, Value(p[..Width(a)])), Digit(a, Value(p[Width(a)..]))]
  {
    var p, k := Padded(a, BytesToBits([x])), Width(a);
    EncodeLength(a, [x]);
    EncodeAt(a, [x], 0);
    EncodeAt(a, [x], 1);
    assert p[0 * k..0 * k + k] == p[..k];
    assert p[1 * k..1 * k + k] == p[k..];
  }

  /** The bits of 0x78 padded to whole base32 digits. */
  lemma PaddedBookend32()
    ensures Padded(Base32, BytesToBits([0x78])) == [false, true, true, true, true] + seq(5, _ => false)
  {
    assert BytesToBits([0x78]) == ByteBits(0x78) + BytesToBits([]);
  }

  /** The bits of 0x3c padded to whole base64url digits. */
  lemma PaddedBookend64()
    ensures Padded(Base64Url, BytesToBits([0x3c])) == [false, false, true, true, true, true] + seq(6, _ => false)
  {
    assert BytesToBits([0x3c]) == ByteBits(0x3c) + BytesToBits([]);
  }

  /** The last byte of Max's compact base32 block, 0x78, encodes as "PA". */
  lemma Base32Bookend()
    ensures Encode(Base32, [0x78]) == ['P', 'A']
  {
    var p := Padded(Base32, BytesToBits([0x78]));
    PaddedBookend32();
    OneByteTwoDigits(Base32, 0x78);
    assert p[..5] == [false, true, true, true, true] && p[5..] == seq(5, _ => false);
    ValueOf01111();
    ConstValue(false, 5);
  }

  lemma ValueOf01111()
    ensures Value([false, true, true, true, true]) == 15
  {
    var q := [true, true, true, true];
    Value4(q);
    ValueAppend([false], q);
    assert [false] + q == [false, true, true, true, true];
    assert [false][..0] == [];
  }

  /** The last byte of Max's compact base64url block, 0x3c, encodes as "PA". */
  lemma Base64Bookend()
    ensures Encode(Base64Url, [0x3c]) == ['P', 'A']
  {
    var p := Padded(Base64Url, BytesToBits([0x3c]));
    PaddedBookend64();
    OneByteTwoDigits(Base64Url, 0x3c);
    assert p[..6] == [false, false, true, true, true, true] && p[6..] == seq(6, _ => false);
    ValueOf001111();
    ConstValue(false, 6);
  }

  lemma ValueOf001111()
    ensures Value([false, false, true, true, true, true]) == 15
  {
    var q := [true, true, true, true];
    Value4(q);
    ValueAppend([false, false], q);
    assert [false, false] + q == [false, false, true, true, true, true];
    assert [false, false][..1] == [false];
    assert [false][..0] == [];
  }
}
