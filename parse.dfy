/**
 * The parsers: the canonical hex form (with or without a `urn:uuid:`
 * prefix) and the two compact forms, all writing into the caller's 16-byte
 * target, and `unshift`, which undoes the byte repacking of the compact
 * encoders.
 *
 * Every parser except the length switch panics on malformed input rather than
 * returning an error; the model keeps the two outcomes apart. Each method is
 * tied to a function that says which outcome it reaches and what the target
 * then holds; the round trips are proved about those functions.
 */
module Parse {
  import opened Bits
  import opened Text
  import opened Outcomes
  import opened Radix
  import opened Doc
  import opened Uuid

  /**
   * The bytes `unshift` leaves: bytes 0 to 5 kept, `v` as the version nibble
   * of byte 6, the nibbles of bytes 6 and 7 moved down by one, byte 8 rebuilt
   * from the high nibble of byte 15 and the low nibble of byte 7, and bytes 8
   * to 14 moved down by one byte.
   */
  function Unshifted(t: Block, v: byte): (r: Block)
    requires v < 16
  {
    [t[0], t[1], t[2], t[3], t[4], t[5], (v << 4) | (t[6] >> 4), (t[6] << 4) | (t[7] >> 4),
     (t[15] & 0xf0) | (t[7] & 0x0f), t[8], t[9], t[10], t[11], t[12], t[13], t[14]]
  }

  /** `unshift` keeps bytes 0 to 5 and writes `v` as the version. */
  lemma UnshiftedLayout(t: Block, v: byte)
    requires v < 16
    ensures Unshifted(t, v)[..6] == t[..6]
    ensures UUID(Unshifted(t, v)).Version() == v as nat
  {
  }

  /** `unshift` undoes `shifted`: given the version, the repacked bytes give the UUID back. */
  lemma UnshiftRepack(b: Block)
    ensures Unshifted(Repack(b), (b[6] >> 4)) == b
  {
    RepackBytes(b);
    RepackedNibbles(b[6], b[7], b[8]);
  }

  /** Bytes 6, 7 and 8 as `shifted` repacks them and `unshift` takes them apart again. */
  lemma RepackedNibbles(b6: byte, b7: byte, b8: byte)
    ensures ((b6 >> 4) << 4) | (((b6 << 4) | (b7 >> 4)) >> 4) == b6
    ensures (((b6 << 4) | (b7 >> 4)) << 4) | (((b7 << 4) | (b8 & 0x0f)) >> 4) == b7
    ensures ((b8 & 0xf0) & 0xf0) | (((b7 << 4) | (b8 & 0x0f)) & 0x0f) == b8
  {
  }

  /**
   * And `shifted` undoes `unshift` on every block it can produce, that is,
   * every block whose last byte has a zero low nibble.
   */
  lemma RepackUnshift(t: Block, v: byte)
    requires v < 16 && t[15] & 0x0f == 0
    ensures Repack(Unshifted(t, v)) == t
  {
    var u := Unshifted(t, v);
    RepackBytes(u);
    UnshiftedNibbles(t[6], t[7], t[15], v);
    assert Repack(u) == t;
  }

  /** Bytes 6, 7 and 8 as `unshift` writes them and `shifted` puts them back together. */
  lemma UnshiftedNibbles(t6: byte, t7: byte, t15: byte, v: byte)
    requires v < 16 && t15 & 0x0f == 0
    ensures ((((v << 4) | (t6 >> 4)) << 4) | (((t6 << 4) | (t7 >> 4)) >> 4)) == t6
    ensures ((((t6 << 4) | (t7 >> 4)) << 4) | (((t15 & 0xf0) | (t7 & 0x0f)) & 0x0f)) == t7
    ensures ((t15 & 0xf0) | (t7 & 0x0f)) & 0xf0 == t15
  {
  }

  /** `unshift` reads bytes 0 to 14 and only the high nibble of byte 15. */
  lemma UnshiftedTopNibble(t: Block, t': Block, v: byte)
    requires v < 16 && t[..15] == t'[..15] && t[15] & 0xf0 == t'[15] & 0xf0
    ensures Unshifted(t, v) == Unshifted(t', v)
  {
    assert forall i | 0 <= i < 15 :: t[i] == t'[i];
  }

  /**
   * With the version fixed, `unshift` tells two targets apart exactly when
   * they differ in bytes 0 to 14 or in the high nibble of byte 15.
   */
  lemma UnshiftedInjective(x: Block, y: Block, v: byte)
    requires v < 16
    ensures Unshifted(x, v) == Unshifted(y, v) <==> x[..15] == y[..15] && x[15] & 0xf0 == y[15] & 0xf0
  {
    if Unshifted(x, v) == Unshifted(y, v) {
      var x0 := TopNibbleOnly(x, v);
      var y0 := TopNibbleOnly(y, v);
      assert x0 == y0;
    }
    if x[..15] == y[..15] && x[15] & 0xf0 == y[15] & 0xf0 {
      UnshiftedTopNibble(x, y, v);
    }
  }

  /** The target with the low nibble of byte 15 cleared, which `shifted` gets back from what `unshift` wrote. */
  lemma TopNibbleOnly(x: Block, v: byte) returns (x0: Block)
    requires v < 16
    ensures x0[..15] == x[..15] && x0[15] == x[15] & 0xf0
    ensures Repack(Unshifted(x, v)) == x0
  {
    x0 := x[15 := x[15] & 0xf0];
    assert x[..15] == x0[..15];
    UnshiftedTopNibble(x, x0, v);
    RepackUnshift(x0, v);
  }

  /** What a parser returns, once the target it wrote is set aside. */
  function Status(o: Outcome<Block>): (r: Outcome<()>)
    ensures (r.Ok? <==> o.Ok?) && (r.Err? <==> o.Err?)
  {
    match o
    case Ok(_) => Ok(())
    case Err => Err
    case Panic => Panic
  }

  /** The target after the leading bytes are overwritten with `bs`. */
  function Written(t: Block, bs: seq<byte>): (r: Block)
    requires |bs| <= 16
    ensures r[..|bs|] == bs && r[|bs|..] == t[|bs|..]
  {
    bs + t[|bs|..]
  }

  /**
   * `parseCanon`: the dashes are dropped wherever they stand and the rest is
   * read as hex, in either case, into the target. A character outside the hex
   * digits, an odd number of digits, or more than 32 digits (the seventeenth
   * byte is out of the target's range) all panic; fewer than 32 digits fill
   * only the leading bytes.
   */
  function CanonTarget(t: Block, src: Text): (r: Outcome<Block>)
    ensures !r.Err?
  {
    match Decode(Hex, RemoveDashes(src))
    case None => Panic
    case Some(bs) => if |bs| > 16 then Panic else Ok(Written(t, bs))
  }

  /**
   * The end of both compact parsers: decode `body` into the target, move byte
   * 15 up by `k` bits, then `unshift` with version `v`.
   */
  function CompactTarget(t: Block, a: Alphabet, body: Text, v: byte, k: nat): (r: Outcome<Block>)
    requires v < 16 && k < 8
    ensures !r.Err?
  {
    match Decode(a, body)
    case None => Panic
    case Some(bs) =>
      if |bs| > 16 then Panic
      else
        var w := Written(t, bs);
        Ok(Unshifted(w[15 := w[15] << k], v))
  }

  /** The character appended to a compact form before decoding: `P` for the Max version, `A` otherwise. */
  function Pad(v: Version): (c: achar)
    ensures c == 'A' || c == 'P'
  {
    if v == VersionMax then 'P' else 'A'
  }

  /**
   * `parseCompact32`: upper-cased; the leading letter picks the version (an
   * empty text or a letter outside the table panics); the remaining
   * characters and the pad are base32 for the bookended bytes.
   */
  function Compact32Target(t: Block, src: Text): (r: Outcome<Block>)
    ensures !r.Err?
  {
    var u := Upper(src);
    if |u| == 0 || u[0] !in VersionsNCNameTable then Panic
    else
      var v := VersionsNCNameTable[u[0]];
      CompactTarget(t, Base32, (u + [Pad(v)])[1..], v as byte, 1)
  }

  /**
   * `parseCompact64`: the leading letter picks the version (in upper case
   * only), character 21 is upper-cased (a text of 21 characters or fewer has
   * none and panics), and the remaining characters and the pad are base64url
   * for the bookended bytes.
   */
  function Compact64Target(t: Block, src: Text): (r: Outcome<Block>)
    ensures !r.Err?
  {
    if |src| == 0 || src[0] !in VersionsNCNameTable || |src| <= 21 then Panic
    else
      var v := VersionsNCNameTable[src[0]];
      var s := src[21 := UpperChar(src[21])];
      CompactTarget(t, Base64Url, (s + [Pad(v)])[1..], v as byte, 2)
  }

  /**
   * `parseString`: the length picks the form, and any other length is the one
   * error it returns; the 9 characters ahead of a 45-character form are not
   * looked at.
   */
  function StringTarget(t: Block, src: Text): (r: Outcome<Block>)
    ensures r.Err? <==> |src| !in {22, 26, 36, 45}
  {
    if |src| == 26 then Compact32Target(t, src)
    else if |src| == 22 then Compact64Target(t, src)
    else if |src| == 36 then CanonTarget(t, src)
    else if |src| == 45 then CanonTarget(t, src[9..])
    else Err
  }

  /**
   * The library decoders (`hex.Decode`, and `Decode` of base32 and base64url)
   * writing into `dst`: an error for malformed text, a panic when the bytes do
   * not fit, and otherwise the bytes, copied one by one to the front of `dst`.
   * The error is decided over the whole text first: `hex.Decode`, which goes
   * pair by pair, would instead panic on more than 32 digits before reaching
   * a later bad character. Every caller turns both outcomes into a panic.
   */
  method DecodeInto(dst: array<byte>, a: Alphabet, src: Text) returns (r: Outcome<nat>)
    modifies dst
    ensures r.Err? <==> Decode(a, src).None?
    ensures r.Panic? <==> Decode(a, src).Some? && |Decode(a, src).value| > dst.Length
    ensures r.Ok? ==> r.value == |Decode(a, src).value| && dst[..] == Decode(a, src).value + old(dst[r.value..])
  {
    var d := Decode(a, src);
    if d.None? {
      return Err;
    }
    var bs := d.value;
    if |bs| > dst.Length {
      return Panic;
    }
    var i := 0;
    while i < |bs|
      invariant 0 <= i <= |bs|
      invariant dst[..i] == bs[..i]
      invariant dst[i..] == old(dst[i..])
    {
      dst[i] := bs[i];
      i := i + 1;
      assert dst[i..] == old(dst[i..]);
    }
    assert dst[..] == dst[..|bs|] + dst[|bs|..];
    return Ok(|bs|);
  }

  /** `parseCanon` on the target array. */
  method ParseCanon(tgt: array<byte>, src: Text) returns (r: Outcome<()>)
    requires tgt.Length == 16
    modifies tgt
    ensures r == Status(CanonTarget(old(tgt[..]), src))
    ensures r.Ok? ==> tgt[..] == CanonTarget(old(tgt[..]), src).value
  {
    var n := DecodeInto(tgt, Hex, RemoveDashes(src));
    if !n.Ok? {
      return Panic;
    }
    return Ok(());
  }

  /** The decode, bookend and unshift steps both compact parsers share, on the target array. */
  method FinishCompact(tgt: array<byte>, a: Alphabet, body: Text, version: Version, k: nat) returns (r: Outcome<()>)
    requires tgt.Length == 16 && version < 16 && k < 8
    modifies tgt
    ensures r == Status(CompactTarget(old(tgt[..]), a, body, version as byte, k))
    ensures r.Ok? ==> tgt[..] == CompactTarget(old(tgt[..]), a, body, version as byte, k).value
  {
    ghost var t := tgt[..];
    var n := DecodeInto(tgt, a, body);
    if !n.Ok? {
      return Panic;
    }
    Bookend(tgt, k);
    Unshift(tgt, version as bv32);
    VersionNibble(version);
    return Ok(());
  }

  /** `tgt[15] <<= k`: moves the last byte back up over the bits the compact encoders dropped. */
  method Bookend(tgt: array<byte>, k: nat)
    requires tgt.Length == 16 && k < 8
    modifies tgt
    ensures tgt[..] == old(tgt[..])[15 := old(tgt[15]) << k]
  {
    tgt[15] := tgt[15] << k;
  }

  /** `unshift`'s `version &= 0xf` keeps a version below 16 as it is. */
  lemma VersionNibble(v: Version)
    requires v < 16
    ensures (v as bv32 & 0xf) as byte == v as byte
  {
  }

  /** `parseCompact32` on the target array. */
  method ParseCompact32(tgt: array<byte>, src: Text) returns (r: Outcome<()>)
    requires tgt.Length == 16
    modifies tgt
    ensures r == Status(Compact32Target(old(tgt[..]), src))
    ensures r.Ok? ==> tgt[..] == Compact32Target(old(tgt[..]), src).value
  {
    var s := Upper(src);
    if |s| == 0 || s[0] !in VersionsNCNameTable {
      return Panic;
    }
    var version := VersionsNCNameTable[s[0]];
    var pad: achar := 'A';
    if version == VersionMax {
      pad := 'P';
    }
    s := s + [pad];
    r := FinishCompact(tgt, Base32, s[1..], version, 1);
  }

  /** `parseCompact64` on the target array. */
  method ParseCompact64(tgt: array<byte>, src: Text) returns (r: Outcome<()>)
    requires tgt.Length == 16
    modifies tgt
    ensures r == Status(Compact64Target(old(tgt[..]), src))
    ensures r.Ok? ==> tgt[..] == Compact64Target(old(tgt[..]), src).value
  {
    if |src| == 0 || src[0] !in VersionsNCNameTable || |src| <= 21 {
      return Panic;
    }
    var version := VersionsNCNameTable[src[0]];
    var s := src[21 := UpperChar(src[21])];
    var pad: achar := 'A';
    if version == VersionMax {
      pad := 'P';
    }
    s := s + [pad];
    r := FinishCompact(tgt, Base64Url, s[1..], version, 2);
  }

  /** `parseString` on the target array. */
  method ParseString(tgt: array<byte>, src: Text) returns (r: Outcome<()>)
    requires tgt.Length == 16
    modifies tgt
    ensures r == Status(StringTarget(old(tgt[..]), src))
    ensures r.Ok? ==> tgt[..] == StringTarget(old(tgt[..]), src).value
    ensures r.Err? ==> tgt[..] == old(tgt[..])
  {
    if |src| == 26 {
      r := ParseCompact32(tgt, src);
    } else if |src| == 22 {
      r := ParseCompact64(tgt, src);
    } else if |src| == 36 {
      r := ParseCanon(tgt, src);
    } else if |src| == 45 {
      r := ParseCanon(tgt, src[9..]);
    } else {
      r := Err;
    }
  }

  /** The argument types `Parse` is instantiated with. */
  datatype Source = FromString(s: Text) | FromBytes(bs: seq<byte>) | FromRunes(rs: seq<char>) | FromArray(a: Block)

  /**
   * `Parse`: a string goes to `parseString` with a zero target; a byte or rune
   * slice fails the `t.(string)` assertion and panics; a `[16]byte` matches a
   * case with no statements and gives the Nil UUID without error.
   */
  function ParseOutcome(src: Source): (r: Outcome<UUID>)
  {
    match src
    case FromString(s) =>
      (match StringTarget(BytesNil, s)
       case Ok(t) => Ok(UUID(t))
       case Err => Err
       case Panic => Panic)
    case FromArray(_) => Ok(Nil())
    case _ => Panic
  }

  /** `Parse` on a fresh zero UUID. */
  method Parse(src: Source) returns (r: Outcome<UUID>)
    ensures r == ParseOutcome(src)
  {
    var tgt := new byte[16](_ => 0);
    assert tgt[..] == BytesNil;
    match src {
      case FromString(s) =>
        var e := ParseString(tgt, s);
        if e.Ok? {
          r := Ok(UUID(tgt[..]));
        } else if e.Err? {
          r := Err;
        } else {
          r := Panic;
        }
      case FromArray(_) =>
        r := Ok(UUID(tgt[..]));
      case FromBytes(_) =>
        r := Panic;
      case FromRunes(_) =>
        r := Panic;
    }
  }

  /**
   * Every text form the package writes parses back to its UUID: the canonical
   * and URN forms for every UUID, the compact forms for the supported versions.
   */
  lemma ParseRoundTrips(b: Block)
    ensures ParseOutcome(FromString(Canonical(b))) == Ok(UUID(b))
    ensures ParseOutcome(FromString("urn:uuid:" + Canonical(b))) == Ok(UUID(b))
    ensures UUID(b).Version() in {VersionNil, Version4, Version7, VersionMax} ==>
              ParseOutcome(FromString(Compact32Text(b))) == Ok(UUID(b)) &&
              ParseOutcome(FromString(Compact64Text(b))) == Ok(UUID(b))
  {
    CanonRoundTrip(BytesNil, b);
    UrnRoundTrip(BytesNil, b);
    if UUID(b).Version() in {VersionNil, Version4, Version7, VersionMax} {
      Compact32RoundTrip(BytesNil, b);
      Compact64RoundTrip(BytesNil, b);
    }
  }

  /** `unshift`: reads the target as four big-endian words, updates them, and writes them back. */
  method Unshift(tgt: array<byte>, version: bv32)
    requires tgt.Length == 16
    modifies tgt
    ensures tgt[..] == Unshifted(old(tgt[..]), (version & 0xf) as byte)
  {
    var w0, w1, w2, w3 := UnshiftWords(tgt[..], version);
    PutWord(tgt, 0, w0);
    ghost var o0 := tgt[0..4];
    PutWord(tgt, 4, w1);
    ghost var o1 := tgt[4..8];
    PutWord(tgt, 8, w2);
    ghost var o2 := tgt[8..12];
    PutWord(tgt, 12, w3);
    Quarters(tgt[..], o0, o1, o2, tgt[12..16]);
  }

  /**
   * The word arithmetic of `unshift`: the four words of `t` after the
   * update, whose big-endian bytes are the unshifted block.
   */
  method UnshiftWords(t: Block, version: bv32) returns (w0: bv32, w1: bv32, w2: bv32, w3: bv32)
    ensures PutUint32BE(w0) + PutUint32BE(w1) + PutUint32BE(w2) + PutUint32BE(w3) == Unshifted(t, (version & 0xf) as byte)
  {
    var v := version & 0xf;
    w0, w1, w2, w3 := Uint32BE(t[0], t[1], t[2], t[3]), Uint32BE(t[4], t[5], t[6], t[7]),
                      Uint32BE(t[8], t[9], t[10], t[11]), Uint32BE(t[12], t[13], t[14], t[15]);
    var variant := (w3 & 0xf0) << 24;
    PutUint32BEInverse(t[0], t[1], t[2], t[3]);
    UnshiftWord1(t[4], t[5], t[6], t[7], v, w1);
    UnshiftWord2(t[4], t[5], t[6], t[7], t[8], t[9], t[10], t[11], t[12], t[13], t[14], t[15], w1, w2, w3, variant);
    UnshiftWord3(t[8], t[9], t[10], t[11], t[12], t[13], t[14], t[15], w2, w3);
    // Go shifts and ors in place; each word's new value is written here as one expression.
    w3 := (w3 >> 8) | ((w2 & 0xff) << 24);
    w2 := (w2 >> 8) | ((w1 & 0xf) << 24) | variant;
    w1 := (w1 & 0xffff_0000) | (v << 12) | ((w1 >> 4) & 0xfff);
    UnshiftConcat(t, v as byte, PutUint32BE(w0), PutUint32BE(w1), PutUint32BE(w2), PutUint32BE(w3));
  }

  /** `binary.BigEndian.PutUint32(dst[off:off+4], w)`: the four bytes of `w` at `off`, nothing else changed. */
  method PutWord(dst: array<byte>, off: nat, w: bv32)
    requires off + 4 <= dst.Length
    modifies dst
    ensures dst[off..off + 4] == PutUint32BE(w)
    ensures forall i | 0 <= i < dst.Length && !(off <= i < off + 4) :: dst[i] == old(dst[i])
  {
    var bs := PutUint32BE(w);
    dst[off], dst[off + 1], dst[off + 2], dst[off + 3] := bs[0], bs[1], bs[2], bs[3];
  }

  /** Four byte groups that spell the unshifted block, in order, concatenate to it. */
  lemma UnshiftConcat(t: Block, v: byte, o0: seq<byte>, o1: seq<byte>, o2: seq<byte>, o3: seq<byte>)
    requires v < 16
    requires o0 == [t[0], t[1], t[2], t[3]]
    requires o1 == [t[4], t[5], (v << 4) | (t[6] >> 4), (t[6] << 4) | (t[7] >> 4)]
    requires o2 == [(t[15] & 0xf0) | (t[7] & 0x0f), t[8], t[9], t[10]]
    requires o3 == [t[11], t[12], t[13], t[14]]
    ensures o0 + o1 + o2 + o3 == Unshifted(t, v)
  {
  }

  /** The second word after `unshift`'s update, written out as bytes. */
  lemma UnshiftWord1(t4: byte, t5: byte, t6: byte, t7: byte, v: bv32, w1: bv32)
    requires v < 16 && w1 == Uint32BE(t4, t5, t6, t7)
    ensures PutUint32BE((w1 & 0xffff_0000) | (v << 12) | ((w1 >> 4) & 0xfff))
            == [t4, t5, ((v as byte) << 4) | (t6 >> 4), (t6 << 4) | (t7 >> 4)]
  {
  }

  /** The third word after `unshift`'s update, written out as bytes. */
  lemma UnshiftWord2(t4: byte, t5: byte, t6: byte, t7: byte, t8: byte, t9: byte, t10: byte, t11: byte,
                     t12: byte, t13: byte, t14: byte, t15: byte, w1: bv32, w2: bv32, w3: bv32, variant: bv32)
    requires w1 == Uint32BE(t4, t5, t6, t7) && w2 == Uint32BE(t8, t9, t10, t11) && w3 == Uint32BE(t12, t13, t14, t15)
    requires variant == (w3 & 0xf0) << 24
    ensures PutUint32BE((w2 >> 8) | ((w1 & 0xf) << 24) | variant) == [(t15 & 0xf0) | (t7 & 0x0f), t8, t9, t10]
  {
  }

  /** The last word after `unshift`'s update, written out as bytes. */
  lemma UnshiftWord3(t8: byte, t9: byte, t10: byte, t11: byte, t12: byte, t13: byte, t14: byte, t15: byte,
                     w2: bv32, w3: bv32)
    requires w2 == Uint32BE(t8, t9, t10, t11) && w3 == Uint32BE(t12, t13, t14, t15)
    ensures PutUint32BE((w3 >> 8) | ((w2 & 0xff) << 24)) == [t11, t12, t13, t14]
  {
  }

  /** The leading five bits of `y` are those of `r >> 1`, so shifting `y` back up restores `r`'s high nibble. */
  lemma TopBits5(y: byte, r: byte)
    requires ByteBits(y)[..5] == ByteBits(r >> 1)[..5]
    ensures (y << 1) & 0xf0 == r & 0xf0
  {
    var x := r >> 1;
    var p, q := ByteBits(y), ByteBits(x);
    assert p[1] == q[1] && p[2] == q[2] && p[3] == q[3] && p[4] == q[4] by {
      assert p[..5] == q[..5];
    }
    Agree78(y, x);
    MaskShift(y, x, 0x78, 1);
  }

  /** Bytes that agree on bits 6 to 3 agree under the mask 0x78. */
  lemma Agree78(y: byte, x: byte)
    requires (y & 0x40 != 0) == (x & 0x40 != 0) && (y & 0x20 != 0) == (x & 0x20 != 0)
    requires (y & 0x10 != 0) == (x & 0x10 != 0) && (y & 0x08 != 0) == (x & 0x08 != 0)
    ensures y & 0x78 == x & 0x78
  {
  }

  /** Bytes that agree on bits 5 to 2 agree under the mask 0x3c. */
  lemma Agree3c(y: byte, x: byte)
    requires (y & 0x20 != 0) == (x & 0x20 != 0) && (y & 0x10 != 0) == (x & 0x10 != 0)
    requires (y & 0x08 != 0) == (x & 0x08 != 0) && (y & 0x04 != 0) == (x & 0x04 != 0)
    ensures y & 0x3c == x & 0x3c
  {
  }

  /** Bits of `y` and `x` that agree under a mask still agree when both are shifted up and the top nibble kept. */
  lemma MaskShift(y: byte, x: byte, m: byte, k: bv3)
    requires y & m == x & m && (m << k) & 0xf0 == 0xf0
    ensures (y << k) & 0xf0 == (x << k) & 0xf0
  {
  }

  /** The leading six bits of `y` are those of `r >> 2`, so shifting `y` back up restores `r`'s high nibble. */
  lemma TopBits6(y: byte, r: byte)
    requires ByteBits(y)[..6] == ByteBits(r >> 2)[..6]
    ensures (y << 2) & 0xf0 == r & 0xf0
  {
    var x := r >> 2;
    var p, q := ByteBits(y), ByteBits(x);
    assert p[2] == q[2] && p[3] == q[3] && p[4] == q[4] && p[5] == q[5] by {
      assert p[..6] == q[..6];
    }
    Agree3c(y, x);
    MaskShift(y, x, 0x3c, 2);
  }

  /**
   * Whatever base32 digit is appended, the 25 characters after the version
   * letter of `Compact32` decode, bookend and unshift back to the UUID: the
   * appended digit only reaches bits that `unshift` ignores.
   */
  lemma Compact32AnyPad(t: Block, b: Block, c: achar)
    requires DigitValue(Base32, c).Some?
    ensures CompactTarget(t, Base32, Compact32Text(b)[1..] + [c], b[6] >> 4, 1) == Ok(b)
  {
    var d := Compact32Decoded(b, c);
    assert Written(t, d) == d;
    TopBits5(d[15], Repack(b)[15]);
    BookendUnshift(b, d, 1);
  }

  /**
   * Bytes that agree with the repacked UUID on bytes 0 to 14 and, once byte 15
   * is shifted up by `k`, on its high nibble, unshift back to the UUID.
   */
  lemma BookendUnshift(b: Block, d: seq<byte>, k: nat)
    requires |d| == 16 && k < 8 && d[..15] == Repack(b)[..15] && (d[15] << k) & 0xf0 == Repack(b)[15] & 0xf0
    ensures Unshifted(d[15 := d[15] << k], b[6] >> 4) == b
  {
    UnshiftedTopNibble(d[15 := d[15] << k], Repack(b), b[6] >> 4);
    UnshiftRepack(b);
  }

  /** What the base32 decoder makes of `Compact32`'s digits with any digit appended. */
  lemma Compact32Decoded(b: Block, c: achar) returns (d: seq<byte>)
    requires DigitValue(Base32, c).Some?
    ensures Decode(Base32, Compact32Text(b)[1..] + [c]) == Some(d) && |d| == 16
    ensures d[..15] == Repack(b)[..15] && ByteBits(d[15])[..5] == ByteBits(Repack(b)[15] >> 1)[..5]
  {
    var s, bk := Compact32Text(b), Bookend32(b);
    var e := Encode(Base32, bk);
    EncodeLength16(Base32, bk);
    assert s[1..] + [c] == e[..25] + [c];
    DecodeLastDigit(Base32, bk, c);
    d := Decode(Base32, e[..25] + [c]).value;
  }

  /** Base32 digits are upper case, so upper-casing an encoding changes nothing. */
  lemma UpperBase32(bs: seq<byte>)
    ensures Upper(Encode(Base32, bs)) == Encode(Base32, bs)
  {
    var e := Encode(Base32, bs);
    forall i | 0 <= i < |e|
      ensures UpperChar(e[i]) == e[i]
    {
      EncodeAt(Base32, bs, i);
      var p := Padded(Base32, BytesToBits(bs));
      DigitCase(Base32, Value(p[i * 5..i * 5 + 5]));
    }
  }

  /**
   * `parseCompact32` gives back every UUID of a supported version from its
   * `Compact32` text, and so does `parseString`, whatever the target held.
   */
  lemma Compact32RoundTrip(t: Block, b: Block)
    requires UUID(b).Version() in {VersionNil, Version4, Version7, VersionMax}
    ensures Compact32Target(t, Compact32Text(b)) == Ok(b)
    ensures StringTarget(t, Compact32Text(b)) == Ok(b)
  {
    var s, v := Compact32Text(b), UUID(b).Version();
    EncodeLength16(Base32, Bookend32(b));
    UpperBase32(Bookend32(b));
    assert Upper(s) == s by {
      forall i | 1 <= i < 26
        ensures UpperChar(s[i]) == s[i]
      {
        assert s[i] == Encode(Base32, Bookend32(b))[i - 1];
      }
    }
    NCNameTableInvertsLetter(v);
    UUID(b).VersionByte();
    assert Upper(s)[0] == s[0] == VersionLetter(v);
    var body: Text := s[1..] + [Pad(v)];
    assert (s + [Pad(v)])[1..] == body;
    Compact32AnyPad(t, b, Pad(v));
    assert Compact32Target(t, s) == CompactTarget(t, Base32, body, b[6] >> 4, 1);
  }

  /** `parseCompact32` upper-cases first, so lower-casing its input changes nothing. */
  lemma Compact32IgnoresCase(t: Block, src: Text)
    ensures Compact32Target(t, Lower(src)) == Compact32Target(t, src)
  {
    UpperLower(src);
  }

  /**
   * Whatever base64url digit is appended, the 21 characters after the version
   * letter of `Compact64` decode, bookend and unshift back to the UUID.
   */
  lemma Compact64AnyPad(t: Block, b: Block, c: achar)
    requires DigitValue(Base64Url, c).Some?
    ensures CompactTarget(t, Base64Url, Compact64Text(b)[1..] + [c], b[6] >> 4, 2) == Ok(b)
  {
    var d := Compact64Decoded(b, c);
    assert Written(t, d) == d;
    TopBits6(d[15], Repack(b)[15]);
    BookendUnshift(b, d, 2);
  }

  /** What the base64url decoder makes of `Compact64`'s digits with any digit appended. */
  lemma Compact64Decoded(b: Block, c: achar) returns (d: seq<byte>)
    requires DigitValue(Base64Url, c).Some?
    ensures Decode(Base64Url, Compact64Text(b)[1..] + [c]) == Some(d) && |d| == 16
    ensures d[..15] == Repack(b)[..15] && ByteBits(d[15])[..6] == ByteBits(Repack(b)[15] >> 2)[..6]
  {
    var s, bk := Compact64Text(b), Bookend64(b);
    var e := Encode(Base64Url, bk);
    EncodeLength16(Base64Url, bk);
    assert s[1..] + [c] == e[..21] + [c];
    DecodeLastDigit(Base64Url, bk, c);
    d := Decode(Base64Url, e[..21] + [c]).value;
  }

  /**
   * Character 21 of a `Compact64` text, the one `parseCompact64` upper-cases,
   * carries the two zero bits at the top of the bookended byte 15, so it is
   * one of `A` to `P` and upper-casing leaves it alone.
   */
  lemma Compact64LastChar(b: Block)
    ensures !IsLower(Compact64Text(b)[21])
  {
    var bk := Bookend64(b);
    var e := Encode(Base64Url, bk);
    EncodeLength16(Base64Url, bk);
    assert Compact64Text(b)[21] == e[20];
    EncodeAt(Base64Url, bk, 20);
    var p := Padded(Base64Url, BytesToBits(bk));
    LeadingBytesBits(bk, p);
    var q := p[120..126];
    assert q == ByteBits(bk[15])[..6];
    TopTwoClear(Repack(b)[15]);
    assert q == [false, false] + q[2..];
    ValueAppend([false, false], q[2..]);
    assert [false, false] == seq(2, _ => false);
    ConstValue(false, 2);
  }

  /** A byte shifted down by two has its two top bits clear. */
  lemma TopTwoClear(x: byte)
    ensures ByteBits(x >> 2)[0] == false && ByteBits(x >> 2)[1] == false
  {
  }

  /**
   * `parseCompact64` gives back every UUID of a supported version from its
   * `Compact64` text, and so does `parseString`, whatever the target held.
   */
  lemma Compact64RoundTrip(t: Block, b: Block)
    requires UUID(b).Version() in {VersionNil, Version4, Version7, VersionMax}
    ensures Compact64Target(t, Compact64Text(b)) == Ok(b)
    ensures StringTarget(t, Compact64Text(b)) == Ok(b)
  {
    var s, v := Compact64Text(b), UUID(b).Version();
    Compact64LastChar(b);
    assert s[21 := UpperChar(s[21])] == s;
    NCNameTableInvertsLetter(v);
    UUID(b).VersionByte();
    assert s[0] == VersionLetter(v);
    var body: Text := s[1..] + [Pad(v)];
    assert (s + [Pad(v)])[1..] == body;
    Compact64AnyPad(t, b, Pad(v));
    assert Compact64Target(t, s) == CompactTarget(t, Base64Url, body, b[6] >> 4, 2);
  }

  /**
   * Both compact parsers panic on a leading letter outside A, E, H and P;
   * `parseCompact32` upper-cases it first, `parseCompact64` does not.
   */
  lemma CompactBadLetter(t: Block, src: Text)
    requires |src| > 0
    ensures UpperChar(src[0]) !in {'A', 'E', 'H', 'P'} ==> Compact32Target(t, src) == Panic
    ensures src[0] !in {'A', 'E', 'H', 'P'} ==> Compact64Target(t, src) == Panic
  {
    NCNameTableKeys();
  }

  /**
   * `parseCompact64` upper-cases character 21 only: any other digit of the
   * body (characters 1 to 20) replaced by a different base64url digit, such
   * as the same letter in the other case, still parses, to different bytes.
   */
  lemma Compact64CaseSensitive(t: Block, src: Text, i: nat, c: achar)
    requires |src| == 22 && Compact64Target(t, src).Ok?
    requires 1 <= i <= 20 && DigitValue(Base64Url, c).Some? && c != src[i]
    ensures Compact64Target(t, src[i := c]).Ok?
    ensures Compact64Target(t, src[i := c]).value != Compact64Target(t, src).value
  {
    var src' := src[i := c];
    var body, v := Compact64Unfold(t, src);
    var body', v' := Compact64Unfold(t, src');
    Compact64BodySubst(src, i, c, Pad(v as nat));
    Base64DigitSensitive(t, body, v, i - 1, c);
  }

  /** Character `i` of a compact base64 text, for `i` from 1 to 20, is digit `i - 1` of the body handed to the decoder. */
  lemma Compact64BodySubst(src: Text, i: nat, c: achar, p: achar)
    requires |src| == 22 && 1 <= i <= 20
    ensures var body := (src[21 := UpperChar(src[21])] + [p])[1..];
            body[i - 1] == src[i] &&
            (src[i := c][21 := UpperChar(src[i := c][21])] + [p])[1..] == body[i - 1 := c]
  {
  }

  /** A base64url body of 22 digits: one of digits 0 to 19 replaced by another digit changes the UUID. */
  lemma Base64DigitSensitive(t: Block, body: Text, v: byte, j: nat, c: achar)
    requires v < 16 && |body| == 22 && CompactTarget(t, Base64Url, body, v, 2).Ok?
    requires j < 20 && DigitValue(Base64Url, c).Some? && c != body[j]
    ensures CompactTarget(t, Base64Url, body[j := c], v, 2).Ok?
    ensures CompactTarget(t, Base64Url, body[j := c], v, 2).value != CompactTarget(t, Base64Url, body, v, 2).value
  {
    DigitValueInjective(Base64Url, c, body[j]);
    CompactOkDecodes(t, Base64Url, body, v, 2);
    DecodeLength(Base64Url, body);
    assert Width(Base64Url) == 6;
    CompactDigitSensitive(t, Base64Url, body, v, 2, j, c);
  }

  /** The compact parsers succeed exactly when the body decodes to at most 16 bytes. */
  lemma CompactOkDecodes(t: Block, a: Alphabet, body: Text, v: byte, k: nat)
    requires v < 16 && k < 8
    ensures CompactTarget(t, a, body, v, k).Ok? <==> Decode(a, body).Some? && |Decode(a, body).value| <= 16
  {
  }

  /** A 22-character text with a known leading letter, as `parseCompact64` hands it to the decoder. */
  lemma Compact64Unfold(t: Block, src: Text) returns (body: Text, v: byte)
    requires |src| == 22 && (src[0] in VersionsNCNameTable || Compact64Target(t, src).Ok?)
    ensures src[0] in VersionsNCNameTable && v < 16 && v as nat == VersionsNCNameTable[src[0]]
    ensures body == (src[21 := UpperChar(src[21])] + [Pad(v as nat)])[1..] && |body| == 22
    ensures Compact64Target(t, src) == CompactTarget(t, Base64Url, body, v, 2)
  {
    NCNameTableKeys();
    var n := VersionsNCNameTable[src[0]];
    v := n as byte;
    body := (src[21 := UpperChar(src[21])] + [Pad(n)])[1..];
  }

  /**
   * In a body that decodes to 16 bytes, a digit whose bits lie in bytes 0 to
   * 14 decides the result: a different digit value there gives a different
   * UUID.
   */
  lemma CompactDigitSensitive(t: Block, a: Alphabet, body: Text, v: byte, k: nat, j: nat, c: achar)
    requires v < 16 && k < 8 && Decode(a, body).Some? && |Decode(a, body).value| == 16
    requires j < |body| && j * Width(a) + Width(a) <= 120
    requires DigitValue(a, c).Some? && DigitValue(a, c) != DigitValue(a, body[j])
    ensures CompactTarget(t, a, body[j := c], v, k).Ok? && CompactTarget(t, a, body, v, k).Ok?
    ensures CompactTarget(t, a, body[j := c], v, k).value != CompactTarget(t, a, body, v, k).value
  {
    var body' := body[j := c];
    DecodeSubst(a, body, j, c);
    if CompactTarget(t, a, body', v, k) == CompactTarget(t, a, body, v, k) {
      CompactSameLead(t, a, body, body', v, k);
      DecodedDigitsAgree(a, body, body', 15, j);
      assert false;
    }
  }

  /** Two bodies of 16 bytes that give the same UUID decode to the same bytes 0 to 14. */
  lemma CompactSameLead(t: Block, a: Alphabet, body: Text, body': Text, v: byte, k: nat)
    requires v < 16 && k < 8 && Decode(a, body).Some? && Decode(a, body').Some?
    requires |Decode(a, body).value| == 16 && |Decode(a, body').value| == 16
    requires CompactTarget(t, a, body, v, k) == CompactTarget(t, a, body', v, k)
    ensures Decode(a, body).value[..15] == Decode(a, body').value[..15]
  {
    var bs := CompactWhole(t, a, body, v, k);
    var bs' := CompactWhole(t, a, body', v, k);
    ShiftedLastSameLead(bs, bs', v, k);
  }

  /** A body that decodes to 16 bytes leaves nothing of the old target. */
  lemma CompactWhole(t: Block, a: Alphabet, body: Text, v: byte, k: nat) returns (bs: Block)
    requires v < 16 && k < 8 && Decode(a, body).Some? && |Decode(a, body).value| == 16
    ensures bs == Decode(a, body).value
    ensures CompactTarget(t, a, body, v, k) == Ok(Unshifted(bs[15 := bs[15] << k], v))
  {
    bs := Decode(a, body).value;
    assert Written(t, bs) == bs;
  }

  /** Bytes 0 to 14 survive moving byte 15 up and `unshift`. */
  lemma ShiftedLastSameLead(bs: Block, bs': Block, v: byte, k: nat)
    requires v < 16 && k < 8
    requires Unshifted(bs[15 := bs[15] << k], v) == Unshifted(bs'[15 := bs'[15] << k], v)
    ensures bs[..15] == bs'[..15]
  {
    var w := bs[15 := bs[15] << k];
    var w' := bs'[15 := bs'[15] << k];
    UnshiftedInjective(w, w', v);
    assert bs[..15] == w[..15] && bs'[..15] == w'[..15];
  }

  /** Hex digits decode the same in either case. */
  lemma HexDecodeUpper(s: Text)
    ensures Decode(Hex, Upper(s)) == Decode(Hex, s)
  {
    forall i | 0 <= i < |s|
      ensures DigitValue(Hex, Upper(s)[i]) == DigitValue(Hex, s[i])
    {
      HexValueUpper(s[i]);
    }
    if Values(Hex, s).Some? {
      assert Values(Hex, Upper(s)).value == Values(Hex, s).value;
    }
  }

  /** `parseCanon` reads upper-case hex as it reads lower-case hex. */
  lemma CanonIgnoresCase(t: Block, src: Text)
    ensures CanonTarget(t, Upper(src)) == CanonTarget(t, src)
  {
    RemoveDashesUpper(src);
    HexDecodeUpper(RemoveDashes(src));
  }

  /** `parseCanon` and `parseString` give back every UUID from its canonical text, whatever the target held. */
  lemma CanonRoundTrip(t: Block, b: Block)
    ensures CanonTarget(t, Canonical(b)) == Ok(b)
    ensures StringTarget(t, Canonical(b)) == Ok(b)
  {
    CanonicalWithoutDashes(b);
    DecodeEncode(Hex, b);
    assert Written(t, b) == b;
  }

  /** `parseString` drops the first 9 characters of a 45-character text unread, so any prefix works like `urn:uuid:`. */
  lemma UrnPrefixIgnored(t: Block, prefix: Text, src: Text)
    requires |prefix| == 9 && |src| == 36
    ensures StringTarget(t, prefix + src) == StringTarget(t, src)
  {
    assert (prefix + src)[9..] == src;
  }

  /** The URN form: `urn:uuid:` ahead of the canonical text parses to the same UUID. */
  lemma UrnRoundTrip(t: Block, b: Block)
    ensures StringTarget(t, "urn:uuid:" + Canonical(b)) == Ok(b)
  {
    UrnPrefixIgnored(t, "urn:uuid:", Canonical(b));
    CanonRoundTrip(t, b);
  }
}
