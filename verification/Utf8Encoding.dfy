/**
 What the chunker's byte-level text (`Utf8Text`) means in characters: the UTF-8 encoding of
 section 3 of RFC 3629, its character boundaries and its white space.
 */
module Utf8Encoding {
  import opened Utf8Text
  import opened CharText

  function EncodeChar(c: char): Bytes {
    var n := c as int;
    if n < 0x80 then [n as byte]
    else if n < 0x800 then [(0xC0 + n / 64) as byte, (0x80 + n % 64) as byte]
    else if n < 0x10000 then [(0xE0 + n / 4096) as byte, (0x80 + n / 64 % 64) as byte, (0x80 + n % 64) as byte]
    else [(0xF0 + n / 262144) as byte, (0x80 + n / 4096 % 64) as byte, (0x80 + n / 64 % 64) as byte, (0x80 + n % 64) as byte]
  }

  function EncodeText(s: string): Bytes {
    if s == [] then [] else EncodeText(s[..|s| - 1]) + EncodeChar(s[|s| - 1])
  }

  /** A character is one lead byte and at most three continuation bytes. */
  ghost predicate CharShape(r: Bytes) {
    && 1 <= |r| <= 4 && !IsContinuation(r[0]) && (|r| > 1 ==> r[0] >= 0xC0)
    && forall i :: 1 <= i < |r| ==> IsContinuation(r[i])
  }

  lemma EncodedShape(c: char)
    ensures CharShape(EncodeChar(c))
  {
  }

  lemma AsciiPush(p: Bytes, r: Bytes, i: nat)
    requires WellFormed(p) && CharShape(r) && i + 1 < |p + r| && (p + r)[i] < 0x80
    ensures !IsContinuation((p + r)[i + 1])
  {
    var s := p + r;
    if i + 1 < |p| {
      assert s[i] == p[i] && s[i + 1] == p[i + 1];
    } else {
      assert forall k :: |p| <= k < |s| ==> s[k] == r[k - |p|];
    }
  }

  lemma ShortPush(p: Bytes, r: Bytes, i: nat)
    requires WellFormed(p) && CharShape(r) && i + 3 < |p + r|
    requires IsContinuation((p + r)[i]) && IsContinuation((p + r)[i + 3])
    ensures !IsContinuation((p + r)[i + 1]) || !IsContinuation((p + r)[i + 2])
  {
    var s := p + r;
    if i + 3 < |p| {
      assert s[i] == p[i] && s[i + 1] == p[i + 1] && s[i + 2] == p[i + 2] && s[i + 3] == p[i + 3];
    } else {
      assert s[|p|] == r[0];
      assert i < |p|;
    }
  }

  lemma FirstPush(p: Bytes, r: Bytes)
    requires WellFormed(p) && CharShape(r)
    ensures p + r != [] && !IsContinuation((p + r)[0])
  {
    assert (p + r)[0] == if p == [] then r[0] else p[0];
  }

  ghost predicate AsciiComplete(s: Bytes) {
    forall i, j :: 0 <= i < |s| && j == i + 1 < |s| && s[i] < 0x80 ==> !IsContinuation(s[j])
  }

  ghost predicate AtMostFourBytes(s: Bytes) {
    forall i, j :: 0 <= i && j == i + 3 < |s| && IsContinuation(s[i]) && IsContinuation(s[j]) ==>
                     !IsContinuation(s[i + 1]) || !IsContinuation(s[i + 2])
  }

  lemma WellFormedWhen(s: Bytes)
    requires (s != [] ==> !IsContinuation(s[0])) && AsciiComplete(s) && AtMostFourBytes(s)
    ensures WellFormed(s)
  {
    hide IsContinuation;
  }

  lemma AsciiCompletePush(p: Bytes, r: Bytes)
    requires WellFormed(p) && CharShape(r)
    ensures AsciiComplete(p + r)
  {
    hide IsContinuation, CharShape, WellFormed;
    var s := p + r;
    forall i, j | 0 <= i < |s| && j == i + 1 < |s| && s[i] < 0x80 ensures !IsContinuation(s[j]) {
      AsciiPush(p, r, i);
    }
  }

  lemma AtMostFourPush(p: Bytes, r: Bytes)
    requires WellFormed(p) && CharShape(r)
    ensures AtMostFourBytes(p + r)
  {
    hide IsContinuation, CharShape, WellFormed;
    var s := p + r;
    forall i, j | 0 <= i && j == i + 3 < |s| && IsContinuation(s[i]) && IsContinuation(s[j])
      ensures !IsContinuation(s[i + 1]) || !IsContinuation(s[i + 2])
    {
      ShortPush(p, r, i);
    }
  }

  lemma WellFormedPush(p: Bytes, r: Bytes)
    requires WellFormed(p) && CharShape(r)
    ensures WellFormed(p + r)
  {
    hide *;
    FirstPush(p, r);
    AsciiCompletePush(p, r);
    AtMostFourPush(p, r);
    WellFormedWhen(p + r);
  }

  /** Every encoded text is well formed, so what is assumed of a text holds of all of them. */
  lemma {:induction false} TextWellFormed(s: string)
    ensures WellFormed(EncodeText(s))
  {
    if s != [] {
      hide EncodeChar, WellFormed;
      TextWellFormed(s[..|s| - 1]);
      EncodedShape(s[|s| - 1]);
      WellFormedPush(EncodeText(s[..|s| - 1]), EncodeChar(s[|s| - 1]));
    }
  }

  /** Byte `i` is where a character begins, or the end. */
  ghost predicate CharStart(s: string, i: int) { exists k :: 0 <= k <= |s| && |EncodeText(s[..k])| == i }

  lemma CharStartPush(s: string, c: char, i: int)
    ensures CharStart(s + [c], i) <==> CharStart(s, i) || i == |EncodeText(s + [c])|
  {
    hide EncodeText;
    var all := s + [c];
    assert all[..|all|] == all;
    assert forall k :: 0 <= k <= |s| ==> all[..k] == s[..k];
  }

  lemma {:induction false} CharStartInside(s: string, i: int)
    requires CharStart(s, i)
    ensures 0 <= i <= |EncodeText(s)|
  {
    if s != [] {
      var front, c := s[..|s| - 1], s[|s| - 1];
      assert s == front + [c];
      CharStartPush(front, c, i);
      if CharStart(front, i) {
        CharStartInside(front, i);
      }
    } else {
      assert s[..0] == [];
    }
  }

  lemma BoundaryPush(p: Bytes, r: Bytes, i: nat)
    requires CharShape(r) && i <= |p| + |r|
    ensures IsBoundary(p + r, i) <==> if i <= |p| then IsBoundary(p, i) else i == |p| + |r|
  {
    if |p| <= i < |p| + |r| {
      assert (p + r)[i] == r[i - |p|];
    }
  }

  lemma EncodeTextPush(s: string, c: char)
    ensures EncodeText(s + [c]) == EncodeText(s) + EncodeChar(c)
  {
    hide EncodeChar;
    assert (s + [c])[..|s|] == s;
  }

  /** The boundaries of an encoded text are exactly where its characters begin and end. */
  lemma {:induction false} BoundaryExactly(s: string, i: nat)
    requires i <= |EncodeText(s)|
    ensures IsBoundary(EncodeText(s), i) <==> CharStart(s, i)
  {
    if s == [] {
      assert s[..0] == [];
    } else {
      hide EncodeText, EncodeChar, IsBoundary, CharStart, CharShape;
      var front, c := s[..|s| - 1], s[|s| - 1];
      assert s == front + [c];
      EncodeTextPush(front, c);
      EncodedShape(c);
      CharStartPush(front, c, i);
      BoundaryPush(EncodeText(front), EncodeChar(c), i);
      if i <= |EncodeText(front)| {
        BoundaryExactly(front, i);
        NotEmpty(c);
      } else if CharStart(front, i) {
        CharStartInside(front, i);
      }
    }
  }

  lemma NotEmpty(c: char)
    ensures EncodeChar(c) != []
  {
  }

  /** A text begins with a white-space character exactly when its first character is Unicode
      white space, and then the whole of its encoding is recognised. */
  lemma WhitespaceExactly(c: char, rest: Bytes)
    ensures WsLen(EncodeChar(c) + rest) == if IsWhitespace(c) then |EncodeChar(c)| else 0
  {
    var n := c as int;
    var s := EncodeChar(c) + rest;
    if n < 0x80 {
      assert s[0] == n as byte;
    } else if n < 0x800 {
      assert s[0] == (0xC0 + n / 64) as byte && s[1] == (0x80 + n % 64) as byte;
    } else if n < 0x10000 {
      assert s[0] == (0xE0 + n / 4096) as byte && s[1] == (0x80 + n / 64 % 64) as byte && s[2] == (0x80 + n % 64) as byte;
    } else {
      assert s[0] == (0xF0 + n / 262144) as byte;
    }
  }
}
