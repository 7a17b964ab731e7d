/**
 * Go strings as the model sees them, and the `strings` helpers the package
 * calls (`ToUpper`, `ToLower`, `ReplaceAll(s, "-", "")`, `TrimSpace`).
 *
 * A Go string is a sequence of bytes; the model restricts text to ASCII, where
 * one character is one byte, so `len(s)` is `|s|` and the `strings` helpers act
 * character by character.
 */
module Text {

  /** An ASCII character: one byte of a Go string. */
  type achar = c: char | c as int < 128 witness 'A'

  type Text = seq<achar>

  predicate IsLower(c: achar) { 'a' <= c <= 'z' }

  predicate IsUpper(c: achar) { 'A' <= c <= 'Z' }

  /** `unicode.ToUpper` on an ASCII character. */
  function UpperChar(c: achar): (r: achar)
    ensures !IsLower(r)
    ensures IsLower(c) ==> r as int == c as int - 32
    ensures !IsLower(c) ==> r == c
  {
    if IsLower(c) then (c as int - 32) as char else c
  }

  /** `unicode.ToLower` on an ASCII character. */
  function LowerChar(c: achar): (r: achar)
    ensures !IsUpper(r)
    ensures IsUpper(c) ==> r as int == c as int + 32
    ensures !IsUpper(c) ==> r == c
  {
    if IsUpper(c) then (c as int + 32) as char else c
  }

  /** `strings.ToUpper` on ASCII text. */
  function Upper(s: Text): (r: Text)
    ensures |r| == |s| && forall i | 0 <= i < |s| :: r[i] == UpperChar(s[i])
  {
    seq(|s|, i requires 0 <= i < |s| => UpperChar(s[i]))
  }

  /** `strings.ToLower` on ASCII text. */
  function Lower(s: Text): (r: Text)
    ensures |r| == |s| && forall i | 0 <= i < |s| :: r[i] == LowerChar(s[i])
  {
    seq(|s|, i requires 0 <= i < |s| => LowerChar(s[i]))
  }

  /** Upper-casing forgets whatever case the text had. */
  lemma UpperLower(s: Text)
    ensures Upper(Lower(s)) == Upper(s)
  {
  }

  /** `strings.ReplaceAll(s, "-", "")`. */
  function RemoveDashes(s: Text): (r: Text)
    ensures |r| <= |s|
    ensures forall i | 0 <= i < |r| :: r[i] != '-'
  {
    if s == [] then []
    else if s[0] == '-' then RemoveDashes(s[1..])
    else [s[0]] + RemoveDashes(s[1..])
  }

  lemma {:induction false} RemoveDashesAppend(s: Text, t: Text)
    ensures RemoveDashes(s + t) == RemoveDashes(s) + RemoveDashes(t)
  {
    if s == [] {
      assert s + t == t;
    } else {
      assert (s + t)[1..] == s[1..] + t;
      RemoveDashesAppend(s[1..], t);
    }
  }

  /** Text without dashes is left as it is. */
  lemma {:induction false} RemoveDashesNone(s: Text)
    requires forall i | 0 <= i < |s| :: s[i] != '-'
    ensures RemoveDashes(s) == s
  {
    if s != [] {
      RemoveDashesNone(s[1..]);
    }
  }

  /** Removing dashes and changing case commute. */
  lemma {:induction false} RemoveDashesUpper(s: Text)
    ensures RemoveDashes(Upper(s)) == Upper(RemoveDashes(s))
  {
    if s != [] {
      assert Upper(s)[1..] == Upper(s[1..]);
      RemoveDashesUpper(s[1..]);
      if s[0] != '-' {
        assert Upper([s[0]] + RemoveDashes(s[1..])) == [UpperChar(s[0])] + Upper(RemoveDashes(s[1..]));
      }
    }
  }

  /** The ASCII characters `unicode.IsSpace` accepts: tab, newline, vertical tab, form feed, carriage return, space. */
  predicate IsSpace(c: achar)
  {
    c == '\t' || c == '\n' || c as int == 11 || c as int == 12 || c == '\r' || c == ' '
  }

  function TrimLeft(s: Text): (r: Text)
    ensures |r| <= |s| && r == s[|s| - |r|..]
    ensures r == [] || !IsSpace(r[0])
    ensures forall i | 0 <= i < |s| - |r| :: IsSpace(s[i])
  {
    if s != [] && IsSpace(s[0]) then TrimLeft(s[1..]) else s
  }

  function TrimRight(s: Text): (r: Text)
    ensures |r| <= |s| && r == s[..|r|]
    ensures r == [] || !IsSpace(r[|r| - 1])
    ensures forall i | |r| <= i < |s| :: IsSpace(s[i])
  {
    if s != [] && IsSpace(s[|s| - 1]) then TrimRight(s[..|s| - 1]) else s
  }

  /** `strings.TrimSpace`: the text with leading and trailing white space removed. */
  function TrimSpace(s: Text): (r: Text)
    ensures r == [] || (!IsSpace(r[0]) && !IsSpace(r[|r| - 1]))
    ensures exists i, j | 0 <= i <= j <= |s| ::
              (r == s[i..j] && (forall k | 0 <= k < i :: IsSpace(s[k])) && (forall k | j <= k < |s| :: IsSpace(s[k])))
  {
    var l := TrimLeft(s);
    var r := TrimRight(l);
    assert r == s[|s| - |l|..|s| - |l| + |r|];
    r
  }

  /** Text that neither starts nor ends with white space is its own trim. */
  lemma TrimSpaceNoop(s: Text)
    requires s == [] || (!IsSpace(s[0]) && !IsSpace(s[|s| - 1]))
    ensures TrimSpace(s) == s
  {
  }

  /** Leading white space before non-space text is removed. */
  lemma {:induction false} TrimLeftSpaces(pre: Text, s: Text)
    requires forall i | 0 <= i < |pre| :: IsSpace(pre[i])
    requires s == [] || !IsSpace(s[0])
    ensures TrimLeft(pre + s) == s
  {
    if pre != [] {
      assert (pre + s)[1..] == pre[1..] + s;
      TrimLeftSpaces(pre[1..], s);
    }
  }

  /** Trailing white space after non-space text is removed. */
  lemma {:induction false} TrimRightSpaces(s: Text, post: Text)
    requires forall i | 0 <= i < |post| :: IsSpace(post[i])
    requires s == [] || !IsSpace(s[|s| - 1])
    ensures TrimRight(s + post) == s
  {
    if post != [] {
      assert (s + post)[..|s + post| - 1] == s + post[..|post| - 1];
      TrimRightSpaces(s, post[..|post| - 1]);
    }
  }

  /** `TrimSpace` removes exactly the white space around text that neither starts nor ends with it. */
  lemma TrimSpaceStrips(pre: Text, s: Text, post: Text)
    requires forall i | 0 <= i < |pre| :: IsSpace(pre[i])
    requires forall i | 0 <= i < |post| :: IsSpace(post[i])
    requires s == [] || (!IsSpace(s[0]) && !IsSpace(s[|s| - 1]))
    ensures TrimSpace(pre + s + post) == s
  {
    if s == [] {
      var sp := pre + post;
      assert pre + s + post == sp + [];
      assert forall i | 0 <= i < |sp| :: IsSpace(sp[i]) by {
        forall i | 0 <= i < |sp|
          ensures IsSpace(sp[i])
        {
          if i >= |pre| {
            assert sp[i] == post[i - |pre|];
          }
        }
      }
      TrimLeftSpaces(sp, []);
    } else {
      assert pre + s + post == pre + (s + post);
      TrimLeftSpaces(pre, s + post);
      TrimRightSpaces(s, post);
    }
  }
}
