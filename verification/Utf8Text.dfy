/**
 UTF-8 text as bytes: character boundaries, Unicode white space, newline
 counting and line splitting, as the chunker (src/chunker.rs) sees them.
 */
module Utf8Text {

  newtype byte = x: int | 0 <= x < 256

  type Bytes = seq<byte>

  const NEWLINE: byte := 10

  // ---- character boundaries ----

  predicate IsContinuation(b: byte) { 0x80 <= b < 0xC0 }

  /** What the proofs need of a Rust `&str`, and what UTF-8 guarantees: the text
      does not begin inside a character, a one-byte character is complete, and
      no character is longer than four bytes. */
  ghost predicate WellFormed(s: Bytes) {
    && (s != [] ==> !IsContinuation(s[0]))
    && (forall i, j :: 0 <= i < |s| && j == i + 1 < |s| && s[i] < 0x80 ==> !IsContinuation(s[j]))
    && (forall i, j :: 0 <= i && j == i + 3 < |s| && IsContinuation(s[i]) && IsContinuation(s[j]) ==>
          !IsContinuation(s[i + 1]) || !IsContinuation(s[i + 2]))
  }

  predicate IsBoundary(s: Bytes, i: int) {
    i == 0 || i == |s| || (0 < i < |s| && !IsContinuation(s[i]))
  }

  /** The greatest boundary at or below `i`. */
  function FloorBoundary(s: Bytes, i: nat): (r: nat)
    ensures r <= |s| && r <= i && IsBoundary(s, r)
    ensures forall k :: r < k <= i && k <= |s| ==> !IsBoundary(s, k)
  {
    if i >= |s| then |s| else if IsBoundary(s, i) then i else FloorBoundary(s, i - 1)
  }

  /** The least boundary at or above `i`. */
  function CeilBoundary(s: Bytes, i: nat): (r: nat)
    ensures r <= |s| && (i <= |s| ==> i <= r) && IsBoundary(s, r)
    ensures forall k :: i <= k < r ==> !IsBoundary(s, k)
    decreases |s| - i
  {
    if i >= |s| then |s| else if IsBoundary(s, i) then i else CeilBoundary(s, i + 1)
  }

  // ---- Unicode white space ----

  /** The encoded length of the white-space character `s` begins with; 0 if it
      begins with none. */
  function WsLen(s: Bytes): (n: nat)
    ensures n <= |s|
  {
    if |s| >= 1 && (9 <= s[0] <= 13 || s[0] == 32) then 1
    else if |s| >= 2 && s[0] == 0xC2 && (s[1] == 0x85 || s[1] == 0xA0) then 2
    else if |s| >= 3 && (
      || (s[0] == 0xE1 && s[1] == 0x9A && s[2] == 0x80)
      || (s[0] == 0xE2 && s[1] == 0x80
          && (0x80 <= s[2] <= 0x8A || s[2] == 0xA8 || s[2] == 0xA9 || s[2] == 0xAF))
      || (s[0] == 0xE2 && s[1] == 0x81 && s[2] == 0x9F)
      || (s[0] == 0xE3 && s[1] == 0x80 && s[2] == 0x80)) then 3
    else 0
  }

  /** `s.trim().is_empty()`: nothing but white space. */
  predicate Blank(s: Bytes) {
    s == [] || (WsLen(s) > 0 && Blank(s[WsLen(s)..]))
  }

  /** Byte `i` belongs to a white-space character of `s`. */
  ghost predicate InWhitespace(s: Bytes, i: int) {
    exists a :: 0 <= a <= i < |s| && i < a + WsLen(s[a..])
  }

  function TrimStart(s: Bytes): Bytes { if WsLen(s) == 0 then s else TrimStart(s[WsLen(s)..]) }

  /** Trimming cuts exactly the leading white space. */
  lemma {:induction false} TrimStartCuts(s: Bytes)
    ensures var r := TrimStart(s);
            |r| <= |s| && r == s[|s| - |r|..] && WsLen(r) == 0 && Blank(s[..|s| - |r|])
  {
    hide WsLen;
    if WsLen(s) == 0 {
      assert s[0..] == s && s[..0] == [];
    } else {
      hide Blank;
      TrimStartCuts(s[WsLen(s)..]);
      TrimStartStep(s, WsLen(s), TrimStart(s));
    }
  }

  lemma TrimStartStep(s: Bytes, w: nat, r: Bytes)
    requires w == WsLen(s) > 0 && |r| <= |s| - w && r == s[w..][|s| - w - |r|..]
    requires Blank(s[w..][..|s| - w - |r|])
    ensures r == s[|s| - |r|..] && Blank(s[..|s| - |r|])
  {
    var cut := s[..|s| - |r|];
    WsLenExtend(cut, s);
    hide WsLen;
    assert cut[w..] == s[w..][..|s| - w - |r|];
  }

  function TrimEnd(s: Bytes): (r: Bytes)
    ensures r <= s
  {
    var n := LastWsLen(s);
    if n == 0 then s else TrimEnd(s[..|s| - n])
  }

  /** `s` ends with a white-space character of `n` bytes. */
  predicate EndsWithWs(s: Bytes, n: nat) { n <= |s| && WsLen(s[|s| - n..]) == n }

  /** The encoded length of the white-space character `s` ends with; 0 if it ends with none. */
  function LastWsLen(s: Bytes): (n: nat)
    ensures EndsWithWs(s, n) || n == 0
  {
    if EndsWithWs(s, 1) then 1 else if EndsWithWs(s, 2) then 2 else if EndsWithWs(s, 3) then 3 else 0
  }

  function Trim(s: Bytes): Bytes { TrimEnd(TrimStart(s)) }

  /** The text ends in a white-space character. */
  ghost predicate EndsInWhitespace(s: Bytes) {
    exists a :: 0 <= a < |s| && WsLen(s[a..]) == |s| - a
  }

  lemma {:induction false} TrimEndCuts(s: Bytes)
    ensures TrimEnd(s) <= s && Blank(s[|TrimEnd(s)|..]) && !EndsInWhitespace(TrimEnd(s))
    decreases |s|
  {
    hide EndsInWhitespace, Blank, WsLen, LastWsLen;
    var n := LastWsLen(s);
    if n == 0 {
      assert s[|s|..] == [];
      BlankNothing();
      NoWhitespaceEnd(s);
    } else {
      var front, last := s[..|s| - n], s[|s| - n..];
      TrimEndCuts(front);
      var cut := |TrimEnd(s)|;
      assert s[cut..] == front[cut..] + last;
      BlankOne(last, n);
      BlankAppend(front[cut..], last);
    }
  }

  lemma BlankNothing()
    ensures Blank([])
  {
  }

  lemma BlankOne(s: Bytes, n: nat)
    requires n == |s| == WsLen(s) > 0
    ensures Blank(s)
  {
    assert s[n..] == [];
  }

  lemma NoWhitespaceEnd(s: Bytes)
    requires LastWsLen(s) == 0
    ensures !EndsInWhitespace(s)
  {
    forall a | 0 <= a < |s| ensures WsLen(s[a..]) != |s| - a {
      NoWhitespaceFrom(s, a);
    }
  }

  lemma NoWhitespaceFrom(s: Bytes, a: nat)
    requires LastWsLen(s) == 0 && a < |s|
    ensures WsLen(s[a..]) != |s| - a
  {
    hide *;
    WsLenShort(s[a..]);
    NotEnding(s);
    EndingFrom(s, a);
  }

  lemma NotEnding(s: Bytes)
    requires LastWsLen(s) == 0
    ensures !EndsWithWs(s, 1) && !EndsWithWs(s, 2) && !EndsWithWs(s, 3)
  {
    hide EndsWithWs;
  }

  lemma EndingFrom(s: Bytes, a: nat)
    requires a < |s|
    ensures EndsWithWs(s, |s| - a) <==> WsLen(s[a..]) == |s| - a
  {
    hide WsLen;
    assert s[|s| - (|s| - a)..] == s[a..];
  }

  lemma WsLenShort(s: Bytes)
    ensures WsLen(s) <= 3
  {
  }

  /** Trimming cuts white space, and only white space, off both ends. */
  lemma TrimCuts(s: Bytes)
    ensures exists a, b :: 0 <= a <= b <= |s| && Trim(s) == s[a..b] && Blank(s[..a]) && Blank(s[b..])
    ensures WsLen(Trim(s)) == 0 && !EndsInWhitespace(Trim(s))
  {
    hide WsLen, Blank, EndsInWhitespace, TrimStart, TrimEnd;
    TrimStartCuts(s);
    var r := TrimStart(s);
    TrimEndCuts(r);
    var a, b := |s| - |r|, |s| - |r| + |TrimEnd(r)|;
    assert Trim(s) == s[a..b] && s[b..] == r[|TrimEnd(r)|..];
    WsLenOfPrefix(Trim(s), r);
  }

  lemma WsLenOfPrefix(p: Bytes, s: Bytes)
    requires p <= s && WsLen(s) == 0
    ensures WsLen(p) == 0
  {
    if WsLen(p) > 0 {
      WsLenPrefix(p, s);
    }
  }

  /** A text after leading white space that does not itself begin with any is what is left. */
  lemma {:induction false} TrimStartOf(x: Bytes, y: Bytes)
    requires Blank(x) && WsLen(y) == 0
    ensures TrimStart(x + y) == y
    decreases |x|
  {
    if x == [] {
      assert x + y == y;
    } else {
      hide Blank;
      var w := WsLen(x);
      assert w > 0 && Blank(x[w..]) by { BlankStep(x); }
      WsLenPrefix(x, x + y);
      hide WsLen;
      assert (x + y)[w..] == x[w..] + y;
      TrimStartOf(x[w..], y);
    }
  }

  lemma BlankStep(x: Bytes)
    requires Blank(x) && x != []
    ensures WsLen(x) > 0 && Blank(x[WsLen(x)..])
  {
  }

  /** White space is recognised from its own bytes alone. */
  lemma WsLenExtend(p: Bytes, s: Bytes)
    requires p <= s && WsLen(s) <= |p|
    ensures WsLen(p) == WsLen(s)
  {
  }

  lemma WsLenPrefix(p: Bytes, s: Bytes)
    requires p <= s && WsLen(p) > 0
    ensures WsLen(s) == WsLen(p)
  {
  }

  lemma {:induction false} BlankAppend(x: Bytes, y: Bytes)
    requires Blank(x)
    ensures Blank(x + y) <==> Blank(y)
    decreases |x|
  {
    if x == [] {
      assert x + y == y;
    } else {
      var w := WsLen(x);
      WsLenPrefix(x, x + y);
      assert (x + y)[w..] == x[w..] + y;
      BlankAppend(x[w..], y);
    }
  }

  /** A newline is never part of a longer character, so blankness cuts there. */
  lemma {:induction false} BlankCutNewline(x: Bytes, y: Bytes)
    requires y != [] && y[0] == NEWLINE && Blank(x + y)
    ensures Blank(x)
    decreases |x|
  {
    if x != [] {
      var w := WsLen(x + y);
      if w > |x| {
        assert false;
      } else {
        WsLenExtend(x, x + y);
        assert (x + y)[w..] == x[w..] + y;
        BlankCutNewline(x[w..], y);
      }
    }
  }

  /** Every byte of a blank slice lies in a white-space character of the text. */
  lemma {:induction false} BlankInside(s: Bytes, lo: nat, hi: nat, i: nat)
    requires lo <= i < hi <= |s| && Blank(s[lo..hi])
    ensures InWhitespace(s, i)
    decreases hi - lo
  {
    var w := WsLen(s[lo..hi]);
    WsLenPrefix(s[lo..hi], s[lo..]);
    if i >= lo + w {
      assert s[lo..hi][w..] == s[lo + w..hi];
      BlankInside(s, lo + w, hi, i);
    }
  }

  // ---- newlines and lines ----

  function CountNewlines(s: Bytes): nat {
    if s == [] then 0
    else CountNewlines(s[..|s| - 1]) + (if s[|s| - 1] == NEWLINE then 1 else 0)
  }

  /** 1-indexed line of byte `i`. */
  function LineOf(s: Bytes, i: nat): nat
    requires i <= |s|
  {
    1 + CountNewlines(s[..i])
  }

  lemma {:induction false} CountNewlinesAppend(x: Bytes, y: Bytes)
    ensures CountNewlines(x + y) == CountNewlines(x) + CountNewlines(y)
  {
    if y == [] {
      assert x + y == x;
    } else {
      assert (x + y)[..|x + y| - 1] == x + y[..|y| - 1];
      CountNewlinesAppend(x, y[..|y| - 1]);
    }
  }

  lemma CountNewlinesMonotone(s: Bytes, i: nat, j: nat)
    requires i <= j <= |s|
    ensures CountNewlines(s[..i]) <= CountNewlines(s[..j])
  {
    assert s[..j] == s[..i] + s[i..j];
    CountNewlinesAppend(s[..i], s[i..j]);
  }

  lemma {:induction false} CountNewlinesNone(s: Bytes)
    requires NEWLINE !in s
    ensures CountNewlines(s) == 0
  {
    if s != [] {
      CountNewlinesNone(s[..|s| - 1]);
    }
  }

  function StripNewlines(s: Bytes): (r: Bytes)
    ensures NEWLINE !in r
  {
    if s == [] then []
    else StripNewlines(s[..|s| - 1]) + (if s[|s| - 1] == NEWLINE then [] else [s[|s| - 1]])
  }

  lemma {:induction false} StripNewlinesAppend(x: Bytes, y: Bytes)
    ensures StripNewlines(x + y) == StripNewlines(x) + StripNewlines(y)
  {
    if y == [] {
      assert x + y == x;
    } else {
      assert (x + y)[..|x + y| - 1] == x + y[..|y| - 1];
      StripNewlinesAppend(x, y[..|y| - 1]);
    }
  }

  lemma {:induction false} StripNewlinesNone(s: Bytes)
    requires NEWLINE !in s
    ensures StripNewlines(s) == s
  {
    if s != [] {
      StripNewlinesNone(s[..|s| - 1]);
      assert s == s[..|s| - 1] + [s[|s| - 1]];
    }
  }

  function Concat(xs: seq<Bytes>): Bytes {
    if xs == [] then [] else Concat(xs[..|xs| - 1]) + xs[|xs| - 1]
  }

  lemma ConcatPush(xs: seq<Bytes>, x: Bytes)
    ensures Concat(xs + [x]) == Concat(xs) + x
  {
    assert (xs + [x])[..|xs|] == xs;
  }

  /** `s.split('\n')`. */
  function Lines(s: Bytes): (ls: seq<Bytes>)
    ensures |ls| >= 1
    ensures forall i :: 0 <= i < |ls| ==> NEWLINE !in ls[i]
  {
    if s == [] then [[]]
    else
      var ls := Lines(s[..|s| - 1]);
      if s[|s| - 1] == NEWLINE then ls + [[]]
      else ls[..|ls| - 1] + [ls[|ls| - 1] + [s[|s| - 1]]]
  }

  /** Each line followed by a newline. */
  function Terminated(ls: seq<Bytes>): Bytes {
    if ls == [] then [] else Terminated(ls[..|ls| - 1]) + ls[|ls| - 1] + [NEWLINE]
  }

  lemma TerminatedPush(ls: seq<Bytes>, l: Bytes)
    ensures Terminated(ls + [l]) == Terminated(ls) + l + [NEWLINE]
  {
    assert (ls + [l])[..|ls|] == ls;
  }

  /** Splitting loses nothing: joining the lines with newlines gives the text back. */
  lemma {:induction false} LinesJoin(s: Bytes)
    ensures Terminated(Lines(s)) == s + [NEWLINE]
    ensures |Lines(s)| == CountNewlines(s) + 1
  {
    if s != [] {
      var p, c := s[..|s| - 1], s[|s| - 1];
      var ls := Lines(p);
      LinesJoin(p);
      assert s == p + [c];
      hide Terminated;
      if c == NEWLINE {
        TerminatedPush(ls, []);
      } else {
        JoinChar(ls, p, c);
      }
    } else {
      TerminatedPush([], []);
      assert Lines(s) == [] + [[]];
    }
  }

  /** One more character on the last line. */
  lemma JoinChar(ls: seq<Bytes>, p: Bytes, c: byte)
    requires ls != [] && Terminated(ls) == p + [NEWLINE]
    ensures Terminated(ls[..|ls| - 1] + [ls[|ls| - 1] + [c]]) == p + [c] + [NEWLINE]
  {
    hide Terminated;
    var front, last := ls[..|ls| - 1], ls[|ls| - 1];
    assert ls == front + [last];
    TerminatedPush(front, last);
    TerminatedPush(front, last + [c]);
    assert p == (p + [NEWLINE])[..|p|] == Terminated(front) + last;
  }

  lemma {:induction false} TerminatedAppend(x: seq<Bytes>, y: seq<Bytes>)
    ensures Terminated(x + y) == Terminated(x) + Terminated(y)
  {
    if y == [] {
      assert x + y == x;
    } else {
      assert (x + y)[..|x + y| - 1] == x + y[..|y| - 1];
      TerminatedAppend(x, y[..|y| - 1]);
    }
  }
}
