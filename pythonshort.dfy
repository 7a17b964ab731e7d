/**
 * The Python ShortUUID form: the 128-bit value as a fixed-width, 22-digit
 * base-57 numeral over an alphabet without the look-alike characters 0, 1,
 * I, O and l, most significant digit first.
 */
module PythonShort {
  import opened Bits
  import opened Outcomes
  import opened Text
  import opened Uuid

  /** The base and the alphabet size (the arithmetic below writes it as the literal 57). */
  const FiftySeven: nat := 57
  const PythonShortLen: nat := 22

  /** `b57encRef`: digit `i` is written as `EncRef[i]`; six runs of consecutive characters. */
  const EncRef: seq<achar> :=
    ['2', '3', '4', '5', '6', '7', '8', '9'] +
    ['A', 'B', 'C', 'D', 'E', 'F', 'G', 'H'] +
    ['J', 'K', 'L', 'M', 'N'] +
    ['P', 'Q', 'R', 'S', 'T', 'U', 'V', 'W', 'X', 'Y', 'Z'] +
    ['a', 'b', 'c', 'd', 'e', 'f', 'g', 'h', 'i', 'j', 'k'] +
    ['m', 'n', 'o', 'p', 'q', 'r', 's', 't', 'u', 'v', 'w', 'x', 'y', 'z']

  /** `b57decRef`: the string the decoder searches for each character's digit value. */
  const DecRef: Text := "23456789" + "ABCDEFGH" + "JKLMN" + "PQRSTUVWXYZ" + "abcdefghijk" + "mnopqrstuvwxyz"

  /** The short forms of `Max()` and `Nil()`, which the decoder recognises before decoding. */
  const MaxPythonShort: Text := "oZEq7ovRbLq6UnGMPwc8B5"
  const NilPythonShort: Text := "2222222222222222222222"

  function Pow57(k: nat): (r: nat)
    ensures r >= 1
  {
    if k == 0 then 1 else 57 * Pow57(k - 1)
  }

  /** `pythonShortBase`: 22 zero digits, which the encoder overwrites from the right. */
  function PythonShortBase(): (r: Text)
    ensures |r| == PythonShortLen && forall i | 0 <= i < |r| :: r[i] == EncRef[0]
  {
    ['2', '2', '2', '2', '2'] +
    ['2', '2', '2', '2', '2'] +
    ['2', '2', '2', '2', '2'] +
    ['2', '2', '2', '2', '2'] +
    ['2', '2']
  }

  /** A reference for the alphabet: the digit `i` as six runs of consecutive character codes. */
  function DigitChar(i: nat): (c: achar)
    requires i < FiftySeven
  {
    if i < 8 then ('2' as int + i) as char
    else if i < 16 then ('A' as int + i - 8) as char
    else if i < 21 then ('J' as int + i - 16) as char
    else if i < 32 then ('P' as int + i - 21) as char
    else if i < 43 then ('a' as int + i - 32) as char
    else ('m' as int + i - 43) as char
  }

  /** The inverse of `DigitChar`: the digit a character stands for, or -1. */
  function DigitIndex(c: achar): (i: int)
    ensures -1 <= i < FiftySeven
    ensures i >= 0 ==> DigitChar(i) == c
  {
    if '2' <= c <= '9' then c as int - '2' as int
    else if 'A' <= c <= 'H' then c as int - 'A' as int + 8
    else if 'J' <= c <= 'N' then c as int - 'J' as int + 16
    else if 'P' <= c <= 'Z' then c as int - 'P' as int + 21
    else if 'a' <= c <= 'k' then c as int - 'a' as int + 32
    else if 'm' <= c <= 'z' then c as int - 'm' as int + 43
    else -1
  }

  /** `DigitIndex` undoes `DigitChar`. */
  lemma DigitCharInverse(j: nat)
    requires j < FiftySeven
    ensures DigitIndex(DigitChar(j)) == j
  {
  }

  /** Both alphabets spell out `DigitChar`, so they agree position by position. */
  lemma AlphabetsAgree()
    ensures |EncRef| == |DecRef| == FiftySeven
    ensures forall i | 0 <= i < FiftySeven :: EncRef[i] == DecRef[i] == DigitChar(i)
  {
  }

  /** Digit `r` of `b57encRef` is `DigitChar(r)`. */
  lemma EncDigit(r: nat)
    requires r < FiftySeven
    ensures EncRef[r] == DigitChar(r)
  {
    AlphabetsAgree();
  }

  /** `strings.IndexRune`: the first position of `c` in `s`, or -1 when it does not occur. */
  function IndexRune(s: seq<char>, c: char): (i: int)
    ensures -1 <= i < |s|
    ensures i == -1 <==> c !in s
    ensures i >= 0 ==> s[i] == c && c !in s[..i]
  {
    if s == [] then -1
    else if s[0] == c then 0
    else
      var j := IndexRune(s[1..], c);
      assert j >= 0 ==> s[..j + 1] == [s[0]] + s[1..][..j];
      if j == -1 then -1 else j + 1
  }

  /** Searching the decoding alphabet finds exactly the digit the reference assigns. */
  lemma IndexRuneDigit(c: achar)
    ensures IndexRune(DecRef, c) == DigitIndex(c)
  {
    AlphabetsAgree();
    var i := IndexRune(DecRef, c);
    if i >= 0 {
      assert DecRef[i] == DigitChar(i);
      DigitCharInverse(i);
    }
    if DigitIndex(c) >= 0 {
      assert DecRef[DigitIndex(c)] == c;
    }
  }

  /** The early-exit test of the encoding loop: the code as written looks at `q.Int64()`, the low 64 bits. */
  datatype ZeroTest = Low64 | Whole

  predicate Stops(test: ZeroTest, q: nat)
  {
    match test
    case Low64 => q % 0x1_0000_0000_0000_0000 == 0
    case Whole => q == 0
  }

  /**
   * The `width` rightmost digits `ToPythonShort` writes for `q`: the last digit
   * is `q % 57`, and the digits before it are those of `q / 57`, unless the
   * early exit stops the loop, which leaves the zero digits of the base.
   */
  function ShortDigits(q: nat, width: nat, test: ZeroTest): (s: Text)
    requires width <= PythonShortLen
    ensures |s| == width && forall i | 0 <= i < width :: DigitIndex(s[i]) >= 0
  {
    if width == 0 then []
    else if Stops(test, q / 57) then PythonShortBase()[..width - 1] + [DigitChar(q % 57)]
    else ShortDigits(q / 57, width - 1, test) + [DigitChar(q % 57)]
  }

  /**
   * `ToPythonShort`: divides the value by 57 in place, writing remainders right
   * to left into the base, until the early-exit test fires or all 22 digits
   * are written. `test` selects the test: `Low64` as the code is written,
   * `Whole` the intended `q == 0`.
   */
  method ToPythonShort(u: UUID, test: ZeroTest) returns (s: Text)
    ensures |s| == PythonShortLen && forall i | 0 <= i < |s| :: s[i] in EncRef
    ensures s == ShortDigits(FromBE(u.b), PythonShortLen, test)
  {
    var out := new achar[PythonShortLen](_ => '2');
    assert out[..] == PythonShortBase();
    var q: nat := FromBE(u.b);
    ghost var q0 := q;
    var i := PythonShortLen as int - 1;
    while i > -1
      invariant -1 <= i < PythonShortLen
      invariant ShortDigits(q0, PythonShortLen, test) == ShortDigits(q, i + 1, test) + out[i + 1..]
      invariant out[..i + 1] == PythonShortBase()[..i + 1]
    {
      var r := q % 57;
      ghost var before := q;
      q := q / 57;
      out[i] := EncRef[r];
      EncDigit(r);
      if Stops(test, q) {
        assert out[..] == out[..i] + [DigitChar(r)] + out[i + 1..];
        assert ShortDigits(before, i + 1, test) == out[..i] + [DigitChar(r)];
        break;
      }
      assert out[i..] == [DigitChar(r)] + out[i + 1..];
      i := i - 1;
    }
    s := out[..];
    DigitsInAlphabet(s);
  }

  /** Text made of digits is made of characters of `b57encRef`. */
  lemma DigitsInAlphabet(s: Text)
    requires forall j | 0 <= j < |s| :: DigitIndex(s[j]) >= 0
    ensures forall j | 0 <= j < |s| :: s[j] in EncRef
  {
    AlphabetsAgree();
    forall j | 0 <= j < |s|
      ensures s[j] in EncRef
    {
      assert EncRef[DigitIndex(s[j])] == s[j];
    }
  }

  /** The value of a numeral over the decoding alphabet, most significant digit first; None if a character is not a digit. */
  function ShortValue(s: Text): Option<nat>
  {
    if s == [] then Some(0)
    else
      var i := DigitIndex(s[|s| - 1]);
      match ShortValue(s[..|s| - 1])
      case None => None
      case Some(n) => if i == -1 then None else Some(n * 57 + i)
  }

  /** `FromPythonShort`: the result, or Err for `(Nil(), false)`, or Panic where `FillBytes` panics. */
  function FromShort(ps: Text): (r: Outcome<UUID>)
    ensures var t := TrimSpace(ps);
            (r.Err? <==> |t| != PythonShortLen || ShortValue(t).None?)
            && (r.Panic? <==> |t| == PythonShortLen && ShortValue(t).Some? && ShortValue(t).value >= Pow256(16))
            && (r.Ok? ==> ShortValue(t) == Some(FromBE(r.value.b)))
  {
    ShortcutsAgree();
    var t := TrimSpace(ps);
    if |t| != PythonShortLen then Err
    else if t == MaxPythonShort then Ok(Max())
    else if t == NilPythonShort then Ok(Nil())
    else match ShortValue(t)
      case None => Err
      case Some(n) => if n >= Pow256(16) then Panic else (FromBEToBE(n, 16); Ok(UUID(ToBE(n, 16))))
  }

  /**
   * `FromPythonShort`: trims, checks the length and the two literal forms,
   * then accumulates `n * 57 + digit` left to right and fills sixteen bytes.
   */
  method FromPythonShort(ps: Text) returns (r: Outcome<UUID>)
    ensures r == FromShort(ps)
  {
    var s := TrimSpace(ps);
    if |s| != PythonShortLen {
      return Err;
    }
    if s == MaxPythonShort {
      return Ok(Max());
    }
    if s == NilPythonShort {
      return Ok(Nil());
    }
    var v := Accumulate(s);
    if v.None? {
      return Err;
    }
    if v.value >= Pow256(16) {
      return Panic;
    }
    return Ok(UUID(ToBE(v.value, 16)));
  }

  /** The loop of `FromPythonShort`: `n * 57 + digit` left to right, stopping at the first character that is not a digit. */
  method Accumulate(s: Text) returns (r: Option<nat>)
    ensures r == ShortValue(s)
  {
    var n: nat := 0;
    var k := 0;
    while k < |s|
      invariant 0 <= k <= |s|
      invariant ShortValue(s[..k]) == Some(n)
    {
      var i := Lookup(s[k]);
      if i == -1 {
        NonDigitStops(s, k);
        return None;
      }
      ValueStep(s, k, n, i);
      n := n * 57 + i;
      k := k + 1;
    }
    assert s[..k] == s;
    return Some(n);
  }

  /** `strings.IndexRune(pythonShortBase, c)`: the digit `c` stands for, or -1. */
  method Lookup(c: achar) returns (i: int)
    ensures i == DigitIndex(c)
  {
    i := IndexRune(DecRef, c);
    IndexRuneDigit(c);
  }

  /** Zero digits are worth zero. */
  lemma {:induction false} ZerosValue(w: nat)
    requires w <= PythonShortLen
    ensures ShortValue(PythonShortBase()[..w]) == Some(0)
  {
    assert DigitIndex('2') == 0;
    if w > 0 {
      ZerosValue(w - 1);
      assert PythonShortBase()[..w][..w - 1] == PythonShortBase()[..w - 1];
    }
  }

  /** The digits written for `q`, when no early exit cuts them short, are worth `q`. */
  lemma {:induction false} DigitsValue(q: nat, w: nat)
    requires w <= PythonShortLen && q < Pow57(w)
    ensures ShortValue(ShortDigits(q, w, Whole)) == Some(q)
  {
    if w > 0 {
      var s := ShortDigits(q, w, Whole);
      var p := s[..w - 1];
      assert s == p + [DigitChar(q % 57)];
      if q / 57 == 0 {
        ZerosValue(w - 1);
        assert p == PythonShortBase()[..w - 1];
      } else {
        DigitsValue(q / 57, w - 1);
        assert p == ShortDigits(q / 57, w - 1, Whole);
      }
      DigitCharInverse(q % 57);
      ValueSnoc(p, DigitChar(q % 57), q / 57);
    }
  }

  /** A numeral has a value exactly when every character is a digit. */
  lemma {:induction false} ShortValueDefined(s: Text)
    ensures ShortValue(s).Some? <==> forall i | 0 <= i < |s| :: DigitIndex(s[i]) >= 0
  {
    if s != [] {
      var p := s[..|s| - 1];
      ShortValueDefined(p);
      assert forall i | 0 <= i < |p| :: p[i] == s[i];
    }
  }

  /** One more digit of `s` read: the value so far times 57 plus the digit. */
  lemma ValueStep(s: Text, k: nat, n: nat, i: nat)
    requires k < |s| && i == DigitIndex(s[k]) && ShortValue(s[..k]) == Some(n)
    ensures ShortValue(s[..k + 1]) == Some(n * 57 + i)
  {
    assert s[..k + 1] == s[..k] + [s[k]];
    ValueSnoc(s[..k], s[k], n);
  }

  /** A character outside the alphabet anywhere in `s` leaves it without a value. */
  lemma NonDigitStops(s: Text, k: nat)
    requires k < |s| && DigitIndex(s[k]) == -1
    ensures ShortValue(s) == None
  {
    ShortValueDefined(s);
  }

  /** Appending a digit multiplies the value by 57 and adds the digit. */
  lemma ValueSnoc(p: Text, c: achar, n: nat)
    requires DigitIndex(c) >= 0 && ShortValue(p) == Some(n)
    ensures ShortValue(p + [c]) == Some(n * 57 + DigitIndex(c))
  {
    assert (p + [c])[..|p|] == p;
  }

  /** Every UUID value has 22 base-57 digits: 2^128 is below 57^22. */
  lemma ValueFits()
    ensures Pow256(16) == 0x1_0000_0000_0000_0000_0000_0000_0000_0000 <= Pow57(PythonShortLen)
  {
    assert Pow256(1) == 256;
    assert Pow256(2) == 65536;
    assert Pow256(3) == 16777216;
    assert Pow256(4) == 4294967296;
    assert Pow256(5) == 1099511627776;
    assert Pow256(6) == 281474976710656;
    assert Pow256(7) == 72057594037927936;
    assert Pow256(8) == 18446744073709551616;
    assert Pow256(9) == 4722366482869645213696;
    assert Pow256(10) == 1208925819614629174706176;
    assert Pow256(11) == 309485009821345068724781056;
    assert Pow256(12) == 79228162514264337593543950336;
    assert Pow256(13) == 20282409603651670423947251286016;
    assert Pow256(14) == 5192296858534827628530496329220096;
    assert Pow256(15) == 1329227995784915872903807060280344576;
    assert Pow256(16) == 340282366920938463463374607431768211456;
    assert Pow57(1) == 57;
    assert Pow57(2) == 3249;
    assert Pow57(3) == 185193;
    assert Pow57(4) == 10556001;
    assert Pow57(5) == 601692057;
    assert Pow57(6) == 34296447249;
    assert Pow57(7) == 1954897493193;
    assert Pow57(8) == 111429157112001;
    assert Pow57(9) == 6351461955384057;
    assert Pow57(10) == 362033331456891249;
    assert Pow57(11) == 20635899893042801193;
    assert Pow57(12) == 1176246293903439668001;
    assert Pow57(13) == 67046038752496061076057;
    assert Pow57(14) == 3821624208892275481335249;
    assert Pow57(15) == 217832579906859702436109193;
    assert Pow57(16) == 12416457054691003038858224001;
    assert Pow57(17) == 707738052117387173214918768057;
    assert Pow57(18) == 40341068970691068873250369779249;
    assert Pow57(19) == 2299440931329390925775271077417193;
    assert Pow57(20) == 131068133085775282769190451412780001;
    assert Pow57(21) == 7470883585889191117843855730528460057;
    assert Pow57(22) == 425840364395683893717099776640122223249;
  }

  /** The 22 zero digits are the short form of Nil, under either early-exit test. */
  lemma NilShortForm(test: ZeroTest)
    ensures ShortDigits(0, PythonShortLen, test) == NilPythonShort
  {
  }

  /** The Max literal is the short form of 2^128 - 1, under either early-exit test. */
  lemma MaxShortForm(test: ZeroTest)
    ensures ShortDigits(Pow256(16) - 1, PythonShortLen, test) == MaxPythonShort
  {
    ValueFits();
    assert ShortDigits(45, 1, test) == "o";
    assert ShortDigits(2596, 2, test) == "oZ";
    assert ShortDigits(147984, 3, test) == "oZE";
    assert ShortDigits(8435135, 4, test) == "oZEq";
    assert ShortDigits(480802700, 5, test) == "oZEq7";
    assert ShortDigits(27405753945, 6, test) == "oZEq7o";
    assert ShortDigits(1562127974917, 7, test) == "oZEq7ov";
    assert ShortDigits(89041294570292, 8, test) == "oZEq7ovR";
    assert ShortDigits(5075353790506677, 9, test) == "oZEq7ovRb";
    assert ShortDigits(289295166058880607, 10, test) == "oZEq7ovRbL";
    assert ShortDigits(16489824465356194646, 11, test) == "oZEq7ovRbLq";
    assert ShortDigits(939919994525303094826, 12, test) == "oZEq7ovRbLq6";
    assert ShortDigits(53575439687942276405108, 13, test) == "oZEq7ovRbLq6U";
    assert ShortDigits(3053800062212709755091200, 14, test) == "oZEq7ovRbLq6Un";
    assert ShortDigits(174066603546124456040198414, 15, test) == "oZEq7ovRbLq6UnG";
    assert ShortDigits(9921796402129093994291309617, 16, test) == "oZEq7ovRbLq6UnGM";
    assert ShortDigits(565542394921358357674604648190, 17, test) == "oZEq7ovRbLq6UnGMP";
    assert ShortDigits(32235916510517426387452464946883, 18, test) == "oZEq7ovRbLq6UnGMPw";
    assert ShortDigits(1837447241099493304084790501972365, 19, test) == "oZEq7ovRbLq6UnGMPwc";
    assert ShortDigits(104734492742671118332833058612424811, 20, test) == "oZEq7ovRbLq6UnGMPwc8";
    assert ShortDigits(5969866086332253744971484340908214236, 21, test) == "oZEq7ovRbLq6UnGMPwc8B";
    assert ShortDigits(340282366920938463463374607431768211455, 22, test) == "oZEq7ovRbLq6UnGMPwc8B5";
  }

  /** The literal forms the decoder short-circuits are worth exactly Max and Nil. */
  lemma ShortcutsAgree()
    ensures ShortValue(MaxPythonShort) == Some(Pow256(16) - 1) && FromBE(Max().b) == Pow256(16) - 1
    ensures ShortValue(NilPythonShort) == Some(0) && FromBE(Nil().b) == 0
  {
    ValueFits();
    MaxShortForm(Whole);
    DigitsValue(Pow256(16) - 1, PythonShortLen);
    NilShortForm(Whole);
    DigitsValue(0, PythonShortLen);
    AllBytes(0x00, 16);
    AllBytes(0xff, 16);
    assert Max().b == seq(16, _ => 0xff);
    assert Nil().b == seq(16, _ => 0x00);
  }

  /** Sixteen equal bytes: zero for 0x00, 2^128 - 1 for 0xff. */
  lemma {:induction false} AllBytes(x: byte, k: nat)
    requires x == 0x00 || x == 0xff
    ensures FromBE(seq(k, _ => x)) == if x == 0x00 then 0 else Pow256(k) - 1
  {
    if k > 0 {
      AllBytes(x, k - 1);
      assert seq(k, _ => x)[..k - 1] == seq(k - 1, _ => x);
    }
  }

  /** 57^w - 1, the largest numeral of `w` digits, is all 'z'. */
  lemma {:induction false} TopValue(s: Text)
    requires forall i | 0 <= i < |s| :: s[i] == 'z'
    ensures ShortValue(s) == Some(Pow57(|s|) - 1)
  {
    if s != [] {
      var p := s[..|s| - 1];
      TopValue(p);
      assert s == p + ['z'];
      ValueSnoc(p, 'z', Pow57(|p|) - 1);
    }
  }

  /** `FillBytes` can panic: 22 'z' digits are worth more than 128 bits hold. */
  lemma PanicReachable(ps: Text)
    requires |ps| == PythonShortLen && forall i | 0 <= i < |ps| :: ps[i] == 'z'
    ensures FromShort(ps) == Panic
  {
    TopValue(ps);
    ValueFits();
    TrimSpaceNoop(ps);
  }

  /** A 22-character input with a character outside the alphabet, such as '0', is rejected. */
  lemma NonDigitRejected(ps: Text, k: nat)
    requires |TrimSpace(ps)| == PythonShortLen && k < PythonShortLen && DigitIndex(TrimSpace(ps)[k]) == -1
    ensures FromShort(ps) == Err
  {
    ShortValueDefined(TrimSpace(ps));
  }

  /** Surrounding white space is ignored. */
  lemma FromShortTrims(pre: Text, s: Text, post: Text)
    requires forall i | 0 <= i < |pre| :: IsSpace(pre[i])
    requires forall i | 0 <= i < |post| :: IsSpace(post[i])
    requires s == [] || (!IsSpace(s[0]) && !IsSpace(s[|s| - 1]))
    ensures FromShort(pre + s + post) == FromShort(s)
  {
    TrimSpaceStrips(pre, s, post);
    TrimSpaceNoop(s);
  }

  /** The short form decodes to the UUID it was made from, with the intended early exit. */
  lemma ShortRoundTrip(u: UUID)
    ensures FromShort(ShortDigits(FromBE(u.b), PythonShortLen, Whole)) == Ok(u)
  {
    var v := FromBE(u.b);
    ToBEFromBE(u.b);
    ValueFits();
    var s := ShortDigits(v, PythonShortLen, Whole);
    DigitsValue(v, PythonShortLen);
    TrimSpaceNoop(s);
    var r := FromShort(s);
    ToBEFromBE(r.value.b);
  }

  /**
   * A quotient of the encoding loop that is a nonzero multiple of 2^64 stops
   * the loop as written before the digits run out.
   */
  predicate FalseStop(q: nat, w: nat)
  {
    w > 0 && q / 57 != 0 && (Stops(Low64, q / 57) || FalseStop(q / 57, w - 1))
  }

  /** Without such a quotient, both early-exit tests write the same digits. */
  lemma {:induction false} TestsAgree(q: nat, w: nat)
    requires w <= PythonShortLen && !FalseStop(q, w)
    ensures ShortDigits(q, w, Low64) == ShortDigits(q, w, Whole)
  {
    if w > 0 && q / 57 != 0 {
      TestsAgree(q / 57, w - 1);
    }
  }

  /** The code as written round-trips every UUID none of whose quotients is a false stop. */
  lemma ShortRoundTripAsWritten(u: UUID)
    requires !FalseStop(FromBE(u.b), PythonShortLen)
    ensures FromShort(ShortDigits(FromBE(u.b), PythonShortLen, Low64)) == Ok(u)
  {
    TestsAgree(FromBE(u.b), PythonShortLen);
    ShortRoundTrip(u);
  }

  /** 00000000-0000-0039-0000-000000000000: the value 57 * 2^64. */
  const Collider: Block := [0x00, 0x00, 0x00, 0x00, 0x00, 0x00, 0x00, 0x39, 0x00, 0x00, 0x00, 0x00, 0x00, 0x00, 0x00, 0x00]

  /**
   * The early exit as written loses digits: the first quotient of 57 * 2^64
   * is 2^64, whose low 64 bits are zero, so the UUID encodes as the short
   * form of Nil and decodes as Nil.
   */
  lemma Low64Collision()
    ensures FromBE(Collider) == 57 * 0x1_0000_0000_0000_0000 && UUID(Collider) != Nil()
    ensures FalseStop(FromBE(Collider), PythonShortLen)
    ensures ShortDigits(FromBE(Collider), PythonShortLen, Low64) == NilPythonShort
    ensures FromShort(ShortDigits(FromBE(Collider), PythonShortLen, Low64)) == Ok(Nil())
  {
    ColliderValue();
    CollisionDigits(FromBE(Collider));
    NilShortTrimmed(ShortDigits(FromBE(Collider), PythonShortLen, Low64));
  }

  /** The Nil short form has no white space to trim. */
  lemma NilShortTrimmed(s: Text)
    requires s == NilPythonShort
    ensures TrimSpace(s) == s
  {
    assert s[0] == '2' && s[|s| - 1] == '2';
    TrimSpaceNoop(s);
  }

  /** 57 * 2^64 stops after its last digit, 0, under the low-64-bit test. */
  lemma CollisionDigits(q: nat)
    requires q == 57 * 0x1_0000_0000_0000_0000
    ensures FalseStop(q, PythonShortLen) && ShortDigits(q, PythonShortLen, Low64) == NilPythonShort
  {
    assert q / 57 == 0x1_0000_0000_0000_0000 && q % 57 == 0;
    assert Stops(Low64, q / 57);
  }

  /** The bytes of `Collider` read big-endian. */
  lemma ColliderValue()
    ensures FromBE(Collider) == 57 * 0x1_0000_0000_0000_0000
  {
    var hi, lo := Collider[..8], Collider[8..];
    assert Collider == hi + lo;
    assert hi == seq(7, _ => 0x00) + [0x39] && lo == seq(8, _ => 0x00);
    AllBytes(0x00, 7);
    AllBytes(0x00, 8);
    FromBEAppend(seq(7, _ => 0x00), [0x39]);
    FromBEAppend(hi, lo);
    assert Pow256(8) == 0x1_0000_0000_0000_0000;
  }
}
