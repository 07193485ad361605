/**
 Stripping reasoning blocks from captured text (`strip_reasoning_blocks` in
 src/hygiene.rs). The scanning loop refines a grammar: a text has exactly one
 division into kept characters, closed blocks and an unclosed tail, and the loop
 returns the kept characters. Text is a sequence of characters, since every index
 the loop uses is a character boundary.
 */
module Hygiene {
  import opened Common
  import opened CharText

  const REASONING_TAGS: seq<string> := ["thinking", "think", "reasoning", "reflection", "analysis"]

  // ---- characters and substrings ----

  /** `to_ascii_lowercase`. */
  function Lower(s: string): (r: string)
    ensures |r| == |s| && forall i :: 0 <= i < |s| ==> r[i] == LowerChar(s[i])
  {
    seq(|s|, i requires 0 <= i < |s| => LowerChar(s[i]))
  }

  lemma LowerSlice(s: string, i: nat, j: nat)
    requires i <= j <= |s|
    ensures Lower(s[i..j]) == Lower(s)[i..j]
  {
  }

  predicate OccursAt(s: string, pat: string, k: int) {
    0 <= k && k + |pat| <= |s| && s[k..k + |pat|] == pat
  }

  /** `find`: the first occurrence. */
  function Find(s: string, pat: string): (r: Option<nat>)
    ensures r.Some? ==> OccursAt(s, pat, r.value) && forall j :: 0 <= j < r.value ==> !OccursAt(s, pat, j)
    ensures r.None? ==> forall j :: !OccursAt(s, pat, j)
  {
    if pat <= s then
      assert OccursAt(s, pat, 0);
      Some(0)
    else if s == [] then None
    else
      var r := Find(s[1..], pat);
      FindStep(s, pat, r);
      if r.Some? then Some(r.value + 1) else None
  }

  ghost predicate IsFirst(s: string, pat: string, r: Option<nat>) {
    match r
    case Some(k) => OccursAt(s, pat, k) && forall j :: 0 <= j < k ==> !OccursAt(s, pat, j)
    case None => forall j :: !OccursAt(s, pat, j)
  }

  lemma FindStep(s: string, pat: string, r: Option<nat>)
    requires s != [] && !(pat <= s) && IsFirst(s[1..], pat, r)
    ensures IsFirst(s, pat, if r.Some? then Some(r.value + 1) else None)
  {
    hide OccursAt;
    assert !OccursAt(s, pat, 0) by { OccursFirst(s, pat); }
    assert forall j :: j < 0 ==> !OccursAt(s, pat, j) by { OccursInside(s, pat); }
    forall j | 1 <= j ensures OccursAt(s, pat, j) <==> OccursAt(s[1..], pat, j - 1) {
      FindShift(s, pat, j);
    }
  }

  lemma OccursFirst(s: string, pat: string)
    ensures OccursAt(s, pat, 0) <==> pat <= s
  {
  }

  lemma OccursInside(s: string, pat: string)
    ensures forall j :: j < 0 ==> !OccursAt(s, pat, j)
  {
  }

  lemma FindShift(s: string, pat: string, j: int)
    requires s != [] && 1 <= j
    ensures OccursAt(s, pat, j) <==> OccursAt(s[1..], pat, j - 1)
  {
    if j + |pat| <= |s| {
      SliceOfSuffix(s, 1, j - 1, j - 1 + |pat|);
    }
  }

  lemma FindUnique(s: string, pat: string, k: nat)
    requires OccursAt(s, pat, k) && forall j :: 0 <= j < k ==> !OccursAt(s, pat, j)
    ensures Find(s, pat) == Some(k)
  {
  }

  // ---- tags ----

  /** Tag names have no character that could end a name. */
  predicate NameChars(tag: string) {
    forall i :: 0 <= i < |tag| ==> tag[i] != '>' && !IsWhitespace(tag[i])
  }

  ghost predicate GoodTags(tags: seq<string>) {
    forall t :: t in tags ==> NameChars(t)
  }

  function CloseTag(tag: string): string { "</" + tag + ">" }

  /** `o` is an open tag for `tag`: `<tag>`, or `<tag`, white space, and up to the first `>`. */
  predicate IsOpenTag(o: string, tag: string) {
    && |o| >= |tag| + 2
    && "<" + tag <= o
    && o[|o| - 1] == '>' && (forall i :: |tag| + 1 <= i < |o| - 1 ==> o[i] != '>')
    && (|o| == |tag| + 2 || IsWhitespace(o[|tag| + 1]))
  }

  /** The length of the open tag `s` begins with, for one tag name. */
  function MatchTag(s: string, tag: string): (r: Option<nat>)
    ensures r.Some? ==> r.value <= |s| && IsOpenTag(s[..r.value], tag)
    ensures r.None? ==> forall n :: 0 <= n <= |s| ==> !IsOpenTag(s[..n], tag)
  {
    var prefix := "<" + tag;
    if !(prefix <= s) || |s| == |prefix| then None
    else
      var after := s[|prefix|..];
      if after[0] == '>' then Some(|prefix| + 1)
      else if IsWhitespace(after[0]) then
        match FindChar(after, '>')
        case Some(gt) => Some(|prefix| + gt + 1)
        case None => None
      else None
  }

  datatype Open = Open(tag: string, len: nat)

  /** The first listed tag that opens at the start of `s`. */
  function MatchOpenTag(s: string, tags: seq<string>): (r: Option<Open>)
    ensures r.Some? ==> r.value.tag in tags && 2 <= r.value.len <= |s| && IsOpenTag(s[..r.value.len], r.value.tag)
    ensures r.None? ==> forall t, n :: t in tags && 0 <= n <= |s| ==> !IsOpenTag(s[..n], t)
  {
    if tags == [] then None
    else
      match MatchTag(s, tags[0])
      case Some(n) => Some(Open(tags[0], n))
      case None =>
        assert forall t :: t in tags ==> t == tags[0] || t in tags[1..];
        MatchOpenTag(s, tags[1..])
  }

  /** At most one name and one length open at a given place, so the order of the list does not matter. */
  lemma OpenUnique(s: string, t: string, n: nat, t': string, n': nat)
    requires n <= |s| && n' <= |s| && NameChars(t) && NameChars(t')
    requires IsOpenTag(s[..n], t) && IsOpenTag(s[..n'], t')
    ensures t == t' && n == n'
  {
    NameLength(s, t, n, t', n');
    NameLength(s, t', n', t, n);
    assert t == s[1..|t| + 1] && t' == s[1..|t'| + 1];
    OpenLength(s, t, n, n');
    OpenLength(s, t, n', n);
  }

  lemma OpenLength(s: string, t: string, n: nat, n': nat)
    requires n <= |s| && n' <= |s| && IsOpenTag(s[..n], t) && IsOpenTag(s[..n'], t)
    ensures n' <= n
  {
    assert s[..n][n - 1] == s[n - 1] == '>';
    forall i | |t| + 1 <= i < n' - 1 ensures s[i] != '>' {
      assert s[..n'][i] != '>';
    }
  }

  lemma NameLength(s: string, t: string, n: nat, t': string, n': nat)
    requires n <= |s| && n' <= |s| && NameChars(t')
    requires IsOpenTag(s[..n], t) && IsOpenTag(s[..n'], t')
    ensures |t'| <= |t|
  {
    var end := |t| + 1;
    assert s[..n][end] == s[end] && (s[end] == '>' || IsWhitespace(s[end]));
    forall i | 1 <= i <= |t'| ensures s[i] != '>' && !IsWhitespace(s[i]) {
      assert ("<" + t')[i] == s[..n'][i];
    }
  }

  // ---- the grammar ----

  datatype Segment =
    | Keep(c: char)
    | Block(tag: string, open: string, body: string, close: string)
    | Tail(tag: string, open: string, rest: string)

  function TextOf(seg: Segment): string {
    match seg
    case Keep(c) => [c]
    case Block(_, o, b, c) => o + b + c
    case Tail(_, o, r) => o + r
  }

  function Source(segs: seq<Segment>): string {
    if segs == [] then [] else TextOf(segs[0]) + Source(segs[1..])
  }

  function Kept(segs: seq<Segment>): string {
    if segs == [] then [] else (if segs[0].Keep? then [segs[0].c] else []) + Kept(segs[1..])
  }

  /** No tag opens at the start of `s`. */
  ghost predicate NoOpen(s: string, tags: seq<string>) {
    forall t, n :: t in tags && 0 <= n <= |s| ==> !IsOpenTag(Lower(s)[..n], t)
  }

  /** `segs` divides its text the way the documentation describes: a block runs from an open
      tag to the first matching close, an open tag without one takes the rest, and any
      other character is kept. */
  ghost predicate Divides(segs: seq<Segment>, tags: seq<string>) {
    segs != [] ==>
      && Divides(segs[1..], tags)
      && match segs[0]
         case Keep(_) => NoOpen(Source(segs), tags)
         case Block(t, o, b, c) =>
           && t in tags && IsOpenTag(Lower(o), t) && Lower(c) == CloseTag(t)
           && (forall j :: 0 <= j < |b| ==> !OccursAt(Lower(b + c), CloseTag(t), j))
         case Tail(t, o, r) =>
           && t in tags && IsOpenTag(Lower(o), t) && (forall j :: !OccursAt(Lower(r), CloseTag(t), j))
           && |segs| == 1
  }

  /** The division the scan computes. */
  function Scan(s: string, tags: seq<string>): seq<Segment>
    decreases |s|
  {
    if s == [] then []
    else match MatchOpenTag(Lower(s), tags)
      case None => [Keep(s[0])] + Scan(s[1..], tags)
      case Some(Open(tag, n)) =>
        match Find(Lower(s)[n..], CloseTag(tag))
        case None => [Tail(tag, s[..n], s[n..])]
        case Some(rel) => [BlockOf(s, tag, n, rel)] + Scan(s[BlockEnd(tag, n, rel)..], tags)
  }

  function BlockEnd(tag: string, n: nat, rel: nat): nat { n + rel + |CloseTag(tag)| }

  function BlockOf(s: string, tag: string, n: nat, rel: nat): Segment
    requires BlockEnd(tag, n, rel) <= |s|
  {
    Block(tag, s[..n], s[n..n + rel], s[n + rel..BlockEnd(tag, n, rel)])
  }

  function Strip(s: string, tags: seq<string>): string { Kept(Scan(s, tags)) }

  lemma ScanKeep(s: string, tags: seq<string>)
    requires s != [] && MatchOpenTag(Lower(s), tags).None?
    ensures Scan(s, tags) == [Keep(s[0])] + Scan(s[1..], tags)
  {
    hide MatchOpenTag, Lower;
  }

  lemma ScanTail(s: string, tags: seq<string>, tag: string, n: nat)
    requires s != [] && MatchOpenTag(Lower(s), tags) == Some(Open(tag, n)) && Find(Lower(s)[n..], CloseTag(tag)).None?
    ensures Scan(s, tags) == [Tail(tag, s[..n], s[n..])]
  {
    hide MatchOpenTag, Lower, Find;
  }

  lemma ScanBlock(s: string, tags: seq<string>, tag: string, n: nat, rel: nat)
    requires s != [] && MatchOpenTag(Lower(s), tags) == Some(Open(tag, n))
    requires Find(Lower(s)[n..], CloseTag(tag)) == Some(rel)
    ensures BlockEnd(tag, n, rel) <= |s|
    ensures Scan(s, tags) == [BlockOf(s, tag, n, rel)] + Scan(s[BlockEnd(tag, n, rel)..], tags)
  {
    hide MatchOpenTag, Lower, Find, IsOpenTag, CloseTag, BlockOf;
    assert OccursAt(Lower(s)[n..], CloseTag(tag), rel);
  }

  lemma BlockText(s: string, tag: string, n: nat, rel: nat)
    requires BlockEnd(tag, n, rel) <= |s|
    ensures TextOf(BlockOf(s, tag, n, rel)) + s[BlockEnd(tag, n, rel)..] == s
  {
    hide CloseTag;
  }

  lemma Cons(seg: Segment, rest: seq<Segment>)
    ensures Source([seg] + rest) == TextOf(seg) + Source(rest)
    ensures Kept([seg] + rest) == (if seg.Keep? then [seg.c] else []) + Kept(rest)
  {
    assert ([seg] + rest)[1..] == rest;
  }

  // ---- the loop ----

  method StripReasoningBlocks(text: string, tags: seq<string>) returns (out: string)
    ensures out == Strip(text, tags)
  {
    hide MatchOpenTag, Find, Lower, Strip, CloseTag;
    var lower := Lower(text);
    out := [];
    var i := 0;
    assert text[0..] == text && [] + Strip(text, tags) == Strip(text, tags);
    while i < |text|
      invariant 0 <= i <= |text|
      invariant out + Strip(text[i..], tags) == Strip(text, tags)
    {
      LowerSuffix(text, i);
      var m := MatchOpenTag(lower[i..], tags);
      if m.Some? {
        var afterOpen := i + m.value.len;
        var close := CloseTag(m.value.tag);
        assert lower[i..][m.value.len..] == lower[afterOpen..];
        var rel := Find(lower[afterOpen..], close);
        if rel.None? {
          TailKeepsNothing(text[i..], tags);
          assert out + [] == out;
          return;
        }
        var end := m.value.len + rel.value + |close|;
        BlockKeepsNothing(text[i..], tags, end);
        assert text[i..][end..] == text[i + end..];
        i := i + end;
      } else {
        KeepOne(text[i..], tags);
        assert text[i..][1..] == text[i + 1..];
        assert (out + [text[i]]) + Strip(text[i + 1..], tags) == out + ([text[i]] + Strip(text[i + 1..], tags));
        out := out + [text[i]];
        i := i + 1;
      }
    }
    StripNothing(tags);
    assert text[|text|..] == [];
    assert out + [] == out;
  }

  lemma LowerSuffix(s: string, i: nat)
    requires i <= |s|
    ensures Lower(s[i..]) == Lower(s)[i..]
  {
  }

  lemma StripNothing(tags: seq<string>)
    ensures Strip([], tags) == []
  {
  }

  lemma KeepOne(s: string, tags: seq<string>)
    requires s != [] && MatchOpenTag(Lower(s), tags).None?
    ensures Strip(s, tags) == [s[0]] + Strip(s[1..], tags)
  {
    hide MatchOpenTag, Lower, Scan, Kept;
    ScanKeep(s, tags);
    Cons(Keep(s[0]), Scan(s[1..], tags));
  }

  lemma BlockKeepsNothing(s: string, tags: seq<string>, end: nat)
    requires s != [] && MatchOpenTag(Lower(s), tags).Some?
    requires var m := MatchOpenTag(Lower(s), tags).value;
             var rel := Find(Lower(s)[m.len..], CloseTag(m.tag));
             rel.Some? && end == m.len + rel.value + |CloseTag(m.tag)|
    ensures end <= |s| && Strip(s, tags) == Strip(s[end..], tags)
  {
    hide MatchOpenTag, Find, Lower, Scan, Kept;
    var m := MatchOpenTag(Lower(s), tags).value;
    var rel := Find(Lower(s)[m.len..], CloseTag(m.tag)).value;
    ScanBlock(s, tags, m.tag, m.len, rel);
    Cons(Scan(s, tags)[0], Scan(s[end..], tags));
    assert [] + Strip(s[end..], tags) == Strip(s[end..], tags);
  }

  lemma TailKeepsNothing(s: string, tags: seq<string>)
    requires s != [] && MatchOpenTag(Lower(s), tags).Some?
    requires var m := MatchOpenTag(Lower(s), tags).value; Find(Lower(s)[m.len..], CloseTag(m.tag)).None?
    ensures Strip(s, tags) == []
  {
    hide MatchOpenTag, Find, Lower, Scan;
    var m := MatchOpenTag(Lower(s), tags).value;
    ScanTail(s, tags, m.tag, m.len);
    Cons(Tail(m.tag, s[..m.len], s[m.len..]), []);
    assert [Tail(m.tag, s[..m.len], s[m.len..])] + [] == [Tail(m.tag, s[..m.len], s[m.len..])];
  }

  // ---- the scan is the division ----

  lemma {:induction false} ScanSource(s: string, tags: seq<string>)
    ensures Source(Scan(s, tags)) == s
    decreases |s|
  {
    hide MatchOpenTag, Find, Lower, Scan, Source, CloseTag;
    hide IsOpenTag, OccursAt, BlockOf;
    if s == [] {
      ScanNothing(tags);
    } else {
      match MatchOpenTag(Lower(s), tags) {
        case None =>
          ScanKeep(s, tags);
          ScanSource(s[1..], tags);
          Cons(Keep(s[0]), Scan(s[1..], tags));
        case Some(Open(tag, n)) =>
          match Find(Lower(s)[n..], CloseTag(tag)) {
            case None =>
              ScanTail(s, tags, tag, n);
              ScanNothing(tags);
              var tail := Tail(tag, s[..n], s[n..]);
              Cons(tail, []);
              assert [tail] + [] == [tail] && TextOf(tail) == s;
            case Some(rel) =>
              var end := BlockEnd(tag, n, rel);
              ScanBlock(s, tags, tag, n, rel);
              ScanSource(s[end..], tags);
              Cons(BlockOf(s, tag, n, rel), Scan(s[end..], tags));
              BlockText(s, tag, n, rel);
          }
      }
    }
  }

  lemma ScanNothing(tags: seq<string>)
    ensures Scan([], tags) == [] && Source([]) == []
  {
  }

  /** Existence: every text has a division, the one the scan computes. */
  lemma {:induction false} ScanDivides(s: string, tags: seq<string>)
    ensures Divides(Scan(s, tags), tags)
    decreases |s|
  {
    hide MatchOpenTag, Find, IsOpenTag, Lower, Scan, Source, CloseTag, OccursAt;
    ScanSource(s, tags);
    if s == [] {
      ScanNothing(tags);
    } else {
      match MatchOpenTag(Lower(s), tags) {
        case None =>
          ScanKeep(s, tags);
          ScanDivides(s[1..], tags);
          assert Scan(s, tags)[1..] == Scan(s[1..], tags);
        case Some(Open(tag, n)) =>
          LowerSlice(s, 0, n);
          LowerSuffix(s, n);
          assert s[0..n] == s[..n] && Lower(s)[0..n] == Lower(s)[..n];
          match Find(Lower(s)[n..], CloseTag(tag)) {
            case None =>
              ScanTail(s, tags, tag, n);
              assert Scan(s, tags)[1..] == [];
              assert Divides([], tags);
            case Some(rel) =>
              var end := n + rel + |CloseTag(tag)|;
              ScanBlock(s, tags, tag, n, rel);
              ScanDivides(s[end..], tags);
              assert Scan(s, tags)[1..] == Scan(s[end..], tags);
              BlockFromFind(s, n, rel, CloseTag(tag));
          }
      }
    }
  }

  lemma SliceOfSuffix(x: string, n: nat, i: nat, j: nat)
    requires n <= |x| && i <= j <= |x| - n
    ensures x[n..][i..j] == x[n + i..n + j]
  {
  }

  lemma SliceOfSlice(x: string, n: nat, end: nat, i: nat, j: nat)
    requires n <= end <= |x| && i <= j <= end - n
    ensures x[n..end][i..j] == x[n + i..n + j]
  {
    assert forall k :: 0 <= k < j - i ==> x[n..end][i..j][k] == x[n + i + k];
  }

  lemma BlockFromFind(s: string, n: nat, rel: nat, close: string)
    requires n + rel + |close| <= |s|
    requires OccursAt(Lower(s)[n..], close, rel) && forall j :: 0 <= j < rel ==> !OccursAt(Lower(s)[n..], close, j)
    ensures var b, c := s[n..n + rel], s[n + rel..n + rel + |close|];
            Lower(c) == close && forall j :: 0 <= j < |b| ==> !OccursAt(Lower(b + c), close, j)
  {
    hide Lower;
    var end := n + rel + |close|;
    var b, c := s[n..n + rel], s[n + rel..end];
    LowerSlice(s, n + rel, end);
    LowerSlice(s, n, end);
    assert b + c == s[n..end];
    SliceOfSuffix(Lower(s), n, rel, rel + |close|);
    forall j | 0 <= j < |b| ensures !OccursAt(Lower(b + c), close, j) {
      SliceOfSuffix(Lower(s), n, j, j + |close|);
      SliceOfSlice(Lower(s), n, end, j, j + |close|);
      assert !OccursAt(Lower(s)[n..], close, j);
    }
  }

  /** Uniqueness: any division of a text is the one the scan computes. */
  lemma {:induction false} DivisionUnique(segs: seq<Segment>, tags: seq<string>)
    requires GoodTags(tags) && Divides(segs, tags)
    ensures Scan(Source(segs), tags) == segs
  {
    hide Scan, GoodTags, IsOpenTag, OccursAt, Lower, MatchOpenTag, Find, NoOpen;
    if segs == [] {
      ScanNothing(tags);
    } else {
      DivisionUnique(segs[1..], tags);
      var rest := Source(segs[1..]);
      assert segs == [segs[0]] + segs[1..];
      match segs[0] {
        case Keep(c) => UniqueKeep(c, rest, tags);
        case Block(t, o, b, c) => UniqueBlock(t, o, b, c, rest, tags);
        case Tail(t, o, r) =>
          assert segs[1..] == [] && Source(segs) == o + r;
          UniqueTail(t, o, r, tags);
      }
    }
  }

  lemma UniqueKeep(c: char, rest: string, tags: seq<string>)
    requires NoOpen([c] + rest, tags)
    ensures Scan([c] + rest, tags) == [Keep(c)] + Scan(rest, tags)
  {
    hide Scan, Lower, IsOpenTag;
    var s := [c] + rest;
    assert s[1..] == rest;
    ScanKeep(s, tags);
  }

  lemma UniqueBlock(t: string, o: string, b: string, c: string, rest: string, tags: seq<string>)
    requires GoodTags(tags) && t in tags && IsOpenTag(Lower(o), t) && Lower(c) == CloseTag(t)
    requires forall j :: 0 <= j < |b| ==> !OccursAt(Lower(b + c), CloseTag(t), j)
    ensures Scan(o + b + c + rest, tags) == [Block(t, o, b, c)] + Scan(rest, tags)
  {
    hide Scan, MatchOpenTag, Find, OccursAt;
    var s := o + b + c + rest;
    assert s[..|o|] == o && s[|o|..|o| + |b|] == b;
    assert s[|o| + |b|..|o| + |b| + |c|] == c && s[|o| + |b| + |c|..] == rest;
    OpensHere(s, tags, t, |o|, o);
    BlockFound(s, o, b, c, rest, CloseTag(t));
    ScanBlock(s, tags, t, |o|, |b|);
  }

  lemma UniqueTail(t: string, o: string, r: string, tags: seq<string>)
    requires GoodTags(tags) && t in tags && IsOpenTag(Lower(o), t)
    requires forall j :: !OccursAt(Lower(r), CloseTag(t), j)
    ensures Scan(o + r, tags) == [Tail(t, o, r)]
  {
    hide Scan, MatchOpenTag, OccursAt;
    var s := o + r;
    assert s[..|o|] == o && s[|o|..] == r;
    OpensHere(s, tags, t, |o|, o);
    LowerSuffix(s, |o|);
    ScanTail(s, tags, t, |o|);
  }

  lemma OpensHere(s: string, tags: seq<string>, t: string, n: nat, o: string)
    requires GoodTags(tags) && t in tags && n <= |s| && s[..n] == o && IsOpenTag(Lower(o), t)
    ensures MatchOpenTag(Lower(s), tags) == Some(Open(t, n))
  {
    hide IsOpenTag, MatchOpenTag, NameChars;
    LowerSlice(s, 0, n);
    assert s[0..n] == o && Lower(s)[0..n] == Lower(s)[..n];
    var m := MatchOpenTag(Lower(s), tags);
    assert m.Some?;
    OpenUnique(Lower(s), t, n, m.value.tag, m.value.len);
  }

  lemma BlockFound(s: string, o: string, b: string, c: string, rest: string, close: string)
    requires s == o + b + c + rest && Lower(c) == close
    requires forall j :: 0 <= j < |b| ==> !OccursAt(Lower(b + c), close, j)
    ensures Find(Lower(s)[|o|..], close) == Some(|b|)
  {
    hide Find, Lower;
    var l, end := Lower(s)[|o|..], |o| + |b| + |c|;
    LowerSlice(s, |o| + |b|, end);
    LowerSlice(s, |o|, end);
    assert s[|o| + |b|..end] == c && s[|o|..end] == b + c;
    SliceOfSuffix(Lower(s), |o|, |b|, |b| + |c|);
    forall j | 0 <= j < |b| ensures !OccursAt(l, close, j) {
      SliceOfSuffix(Lower(s), |o|, j, j + |close|);
      SliceOfSlice(Lower(s), |o|, end, j, j + |close|);
      assert !OccursAt(Lower(b + c), close, j);
    }
    FindUnique(l, close, |b|);
  }

  // ---- consequences ----

  /** The result does not depend on the order of the tag list. */
  lemma OrderIrrelevant(s: string, tags: seq<string>, tags': seq<string>)
    requires GoodTags(tags) && GoodTags(tags') && forall t :: t in tags <==> t in tags'
    ensures Strip(s, tags) == Strip(s, tags')
  {
    hide Scan, Divides;
    ScanSource(s, tags);
    ScanDivides(s, tags);
    SameTags(Scan(s, tags), tags, tags');
    DivisionUnique(Scan(s, tags), tags');
  }

  lemma {:induction false} SameTags(segs: seq<Segment>, tags: seq<string>, tags': seq<string>)
    requires Divides(segs, tags) && forall t :: t in tags <==> t in tags'
    ensures Divides(segs, tags')
  {
    hide IsOpenTag, OccursAt;
    if segs != [] {
      SameTags(segs[1..], tags, tags');
    }
  }

  ghost predicate Subsequence(a: string, b: string) {
    a == [] || (b != [] && ((a[0] == b[0] && Subsequence(a[1..], b[1..])) || Subsequence(a, b[1..])))
  }

  lemma {:induction false} SubsequenceSkip(a: string, p: string, b: string)
    requires Subsequence(a, b)
    ensures Subsequence(a, p + b)
  {
    if p == [] {
      assert p + b == b;
    } else {
      SubsequenceSkip(a, p[1..], b);
      assert (p + b)[1..] == p[1..] + b;
    }
  }

  lemma {:induction false} KeptSubsequence(segs: seq<Segment>)
    ensures Subsequence(Kept(segs), Source(segs))
  {
    if segs != [] {
      KeptSubsequence(segs[1..]);
      SubsequenceSkip(Kept(segs[1..]), TextOf(segs[0]), Source(segs[1..]));
      if segs[0].Keep? {
        assert Kept(segs) == [segs[0].c] + Kept(segs[1..]) && Source(segs) == [segs[0].c] + Source(segs[1..]);
        assert Kept(segs)[1..] == Kept(segs[1..]) && Source(segs)[1..] == Source(segs[1..]);
      } else {
        assert Kept(segs) == Kept(segs[1..]);
      }
    }
  }

  /** Stripping only deletes: the result is a subsequence of the text. */
  lemma StripDeletes(s: string, tags: seq<string>)
    ensures Subsequence(Strip(s, tags), s)
  {
    ScanSource(s, tags);
    KeptSubsequence(Scan(s, tags));
  }

  /** Text before the first `<` is untouched. */
  lemma {:induction false} StripPrefix(p: string, s: string, tags: seq<string>)
    requires '<' !in p
    ensures Strip(p + s, tags) == p + Strip(s, tags)
  {
    hide Strip, MatchOpenTag, Lower;
    if p == [] {
      assert p + s == s && p + Strip(s, tags) == Strip(s, tags);
    } else {
      StripPrefix(p[1..], s, tags);
      assert (p + s)[1..] == p[1..] + s;
      NoTagHere(p + s, tags);
      KeepOne(p + s, tags);
      assert [p[0]] + (p[1..] + Strip(s, tags)) == p + Strip(s, tags);
    }
  }

  lemma OpenStart(o: string, tag: string)
    requires IsOpenTag(o, tag)
    ensures o[0] == '<'
  {
    assert ("<" + tag)[0] == o[0];
  }

  lemma NoTagHere(s: string, tags: seq<string>)
    requires s != [] && s[0] != '<'
    ensures MatchOpenTag(Lower(s), tags).None?
  {
    var m := MatchOpenTag(Lower(s), tags);
    assert Lower(s)[0] == LowerChar(s[0]) != '<';
    hide IsOpenTag, MatchOpenTag;
    if m.Some? {
      OpenStart(Lower(s)[..m.value.len], m.value.tag);
    }
  }

  /** A leading block is dropped exactly, whatever its case and attributes. */
  lemma StripLeadingBlock(tag: string, o: string, b: string, c: string, rest: string, tags: seq<string>)
    requires GoodTags(tags) && tag in tags && IsOpenTag(Lower(o), tag) && Lower(c) == CloseTag(tag)
    requires forall j :: 0 <= j < |b| ==> !OccursAt(Lower(b + c), CloseTag(tag), j)
    ensures Strip(o + b + c + rest, tags) == Strip(rest, tags)
  {
    hide IsOpenTag, MatchOpenTag, Find, Lower;
    var s := o + b + c + rest;
    assert s[..|o|] == o;
    OpensHere(s, tags, tag, |o|, o);
    BlockFound(s, o, b, c, rest, CloseTag(tag));
    assert |c| == |CloseTag(tag)| by { assert |Lower(c)| == |c|; }
    BlockKeepsNothing(s, tags, |o| + |b| + |c|);
    assert s[|o| + |b| + |c|..] == rest;
  }

  /** A text is unchanged by stripping exactly when no tag opens anywhere in it. */
  lemma {:induction false} FixedPoint(s: string, tags: seq<string>)
    ensures Strip(s, tags) == s <==> forall i :: 0 <= i < |s| ==> NoOpen(s[i..], tags)
    decreases |s|
  {
    hide IsOpenTag, Find, MatchOpenTag, Strip, Lower;
    if s == [] {
      StripNothing(tags);
    } else if MatchOpenTag(Lower(s), tags).None? {
      KeepOne(s, tags);
      FixedPoint(s[1..], tags);
      assert s == [s[0]] + s[1..];
      assert NoOpen(s[0..], tags) by { assert s[0..] == s; }
      assert forall i :: 0 <= i < |s[1..]| ==> s[1..][i..] == s[i + 1..];
      assert forall i :: 1 <= i < |s| ==> s[i..] == s[1..][i - 1..];
    } else {
      var m := MatchOpenTag(Lower(s), tags).value;
      assert s[0..] == s && !NoOpen(s[0..], tags);
      StripShorter(s, tags);
    }
  }

  lemma {:induction false} KeptLength(segs: seq<Segment>)
    ensures |Kept(segs)| <= |Source(segs)|
  {
    if segs != [] {
      KeptLength(segs[1..]);
    }
  }

  lemma StripShorter(s: string, tags: seq<string>)
    requires s != [] && MatchOpenTag(Lower(s), tags).Some?
    ensures |Strip(s, tags)| < |s|
  {
    hide MatchOpenTag, Find;
    var segs := Scan(s, tags);
    ScanSource(s, tags);
    KeptLength(segs[1..]);
    assert TextOf(segs[0]) != [];
  }

  // ---- case ----

  lemma LowerPush(c: char, s: string)
    ensures Lower([c] + s) == [LowerChar(c)] + Lower(s)
  {
  }

  /** Stripping ignores ASCII case: texts that differ only in case lose the same characters. */
  lemma {:induction false} StripIgnoresCase(s: string, s': string, tags: seq<string>)
    requires Lower(s) == Lower(s')
    ensures Lower(Strip(s, tags)) == Lower(Strip(s', tags))
    decreases |s|
  {
    hide Strip, MatchOpenTag, Find, CloseTag, LowerChar;
    assert |s| == |s'|;
    if s == [] {
      assert s' == [];
    } else {
      var m := MatchOpenTag(Lower(s), tags);
      if m.None? {
        KeepOne(s, tags);
        KeepOne(s', tags);
        LowerSuffix(s, 1);
        LowerSuffix(s', 1);
        StripIgnoresCase(s[1..], s'[1..], tags);
        LowerPush(s[0], Strip(s[1..], tags));
        LowerPush(s'[0], Strip(s'[1..], tags));
        assert LowerChar(s[0]) == Lower(s)[0] == LowerChar(s'[0]);
      } else {
        var rel := Find(Lower(s)[m.value.len..], CloseTag(m.value.tag));
        if rel.None? {
          TailKeepsNothing(s, tags);
          TailKeepsNothing(s', tags);
        } else {
          var end := m.value.len + rel.value + |CloseTag(m.value.tag)|;
          BlockKeepsNothing(s, tags, end);
          BlockKeepsNothing(s', tags, end);
          LowerSuffix(s, end);
          LowerSuffix(s', end);
          StripIgnoresCase(s[end..], s'[end..], tags);
        }
      }
    }
  }

  /** With the server's tags: a block in capitals, closed in another case, with attributes. */
  lemma StripCapitalsExample()
    ensures Strip("<THINK a>b</Think>c", REASONING_TAGS) == "c"
  {
    hide REASONING_TAGS, IsOpenTag, GoodTags, Strip, Lower, OccursAt, CloseTag;
    var o, b, c, rest := "<THINK a>", "b", "</Think>", "c";
    ReasoningTagsGood();
    CapitalTags();
    StripLeadingBlock("think", o, b, c, rest, REASONING_TAGS);
    StripPrefix(rest, [], REASONING_TAGS);
    StripNothing(REASONING_TAGS);
    assert o + b + c + rest == "<THINK a>b</Think>c" && rest + [] == rest;
  }

  lemma CapitalTags()
    ensures "think" in REASONING_TAGS && IsOpenTag(Lower("<THINK a>"), "think")
    ensures Lower("</Think>") == CloseTag("think")
    ensures forall j :: 0 <= j < 1 ==> !OccursAt(Lower("b" + "</Think>"), CloseTag("think"), j)
  {
    assert REASONING_TAGS[1] == "think";
    assert Lower("<THINK a>") == "<think a>";
    assert Lower("b" + "</Think>")[0] == 'b' && CloseTag("think")[0] == '<';
    assert !OccursAt(Lower("b" + "</Think>"), CloseTag("think"), 0);
  }

  // ---- when stripping once is enough ----

  /** A tag opens at the start of `s`: its name, then `>`, or white space and a later `>`. */
  predicate OpensAt(s: string, t: string) {
    && "<" + t <= s && |t| + 1 < |s|
    && (s[|t| + 1] == '>' || (IsWhitespace(s[|t| + 1]) && '>' in s[|t| + 1..]))
  }

  lemma OpensExactly(s: string, t: string)
    ensures OpensAt(s, t) <==> exists n :: 0 <= n <= |s| && IsOpenTag(s[..n], t)
  {
    hide IsOpenTag;
    var m := MatchTag(s, t);
    if m.Some? {
      assert IsOpenTag(s[..m.value], t);
    }
  }

  lemma OpensSomewhere(s: string, tags: seq<string>)
    ensures NoOpen(s, tags) <==> forall t :: t in tags ==> !OpensAt(Lower(s), t)
  {
    hide IsOpenTag, OpensAt, Lower;
    forall t | t in tags ensures OpensAt(Lower(s), t) <==> exists n :: 0 <= n <= |s| && IsOpenTag(Lower(s)[..n], t) {
      OpensExactly(Lower(s), t);
    }
  }

  /** Among the next `m` segments something is removed. */
  ghost predicate Interrupted(segs: seq<Segment>, m: nat) {
    exists k :: 0 <= k < m && k < |segs| && !segs[k].Keep?
  }

  /** The characters kept from segment `j` on spell an open tag, and a block was removed from
      within its name. */
  ghost predicate Weld(segs: seq<Segment>, tags: seq<string>, j: int) {
    && 0 <= j < |segs| && segs[j].Keep?
    && exists t :: t in tags && OpensAt(Lower(Kept(segs[j..])), t) && Interrupted(segs[j..], |t| + 2)
  }

  /** While nothing is removed, what is kept is the text. */
  lemma {:induction false} KeptWhole(segs: seq<Segment>, m: nat)
    requires m <= |segs| && !Interrupted(segs, m)
    ensures m <= |Kept(segs)| && m <= |Source(segs)| && Kept(segs)[..m] == Source(segs)[..m]
    ensures Kept(segs)[m..] == Kept(segs[m..]) && Source(segs)[m..] == Source(segs[m..])
    decreases m
  {
    if m > 0 {
      var rest := segs[1..];
      StillWhole(segs, m);
      hide Interrupted, Kept, Source;
      KeptWhole(rest, m - 1);
      assert rest[m - 1..] == segs[m..];
      var c := segs[0].c;
      PushFront(c, Kept(rest), m);
      PushFront(c, Source(rest), m);
    } else {
      assert segs[0..] == segs;
    }
  }

  lemma StillWhole(segs: seq<Segment>, m: nat)
    requires 0 < m <= |segs| && !Interrupted(segs, m)
    ensures segs[0].Keep? && !Interrupted(segs[1..], m - 1)
    ensures Kept(segs) == [segs[0].c] + Kept(segs[1..]) && Source(segs) == [segs[0].c] + Source(segs[1..])
  {
    hide Kept, Source;
    assert forall k :: 0 <= k < |segs[1..]| ==> segs[1..][k] == segs[k + 1];
    assert segs[0].Keep?;
    assert segs == [segs[0]] + segs[1..];
    Cons(segs[0], segs[1..]);
  }

  lemma PushFront(c: char, s: string, m: nat)
    requires 0 < m <= |s| + 1
    ensures ([c] + s)[..m] == [c] + s[..m - 1] && ([c] + s)[m..] == s[m - 1..]
  {
  }

  lemma {:induction false} KeptOccurs(segs: seq<Segment>, c: char)
    requires c in Kept(segs)
    ensures c in Source(segs) && segs != []
  {
    if segs != [] {
      if c in Kept(segs[1..]) {
        KeptOccurs(segs[1..], c);
      } else {
        assert segs[0].Keep? && TextOf(segs[0]) == [c];
      }
    }
  }

  lemma {:induction false} KeptAtMost(segs: seq<Segment>)
    ensures |Kept(segs)| <= |segs|
  {
    if segs != [] {
      KeptAtMost(segs[1..]);
    }
  }

  lemma KeptFits(segs: seq<Segment>, m: nat)
    requires m <= |Kept(segs)|
    ensures m <= |segs|
  {
    KeptAtMost(segs);
  }

  /** A tag that opens in what is kept, with nothing removed from its name, opens in the text. */
  lemma UninterruptedOpens(segs: seq<Segment>, t: string)
    requires OpensAt(Lower(Kept(segs)), t) && !Interrupted(segs, |t| + 2)
    ensures OpensAt(Lower(Source(segs)), t)
  {
    hide Interrupted, Kept, Source, IsWhitespace, LowerChar;
    var m := |t| + 2;
    var kept, source := Kept(segs), Source(segs);
    KeptFits(segs, m);
    KeptWhole(segs, m);
    SameStart(kept, source, t);
    if Lower(kept)[m - 1] != '>' {
      LaterAngle(kept, m);
      KeptOccurs(segs[m..], '>');
      AngleStays(source, m);
    }
  }

  lemma LaterAngle(s: string, m: nat)
    requires 0 < m <= |s| && Lower(s)[m - 1] != '>' && '>' in Lower(s)[m - 1..]
    ensures '>' in s[m..]
  {
    var i :| m - 1 <= i < |s| && Lower(s)[i] == '>';
    assert s[m..][i - m] == s[i] == '>';
  }

  lemma AngleStays(s: string, m: nat)
    requires 0 < m <= |s| && '>' in s[m..]
    ensures '>' in Lower(s)[m - 1..]
  {
    var k :| 0 <= k < |s[m..]| && s[m..][k] == '>';
    assert Lower(s)[m - 1..][k + 1] == '>';
  }

  lemma SameStart(x: string, y: string, t: string)
    requires |t| + 2 <= |x| && |t| + 2 <= |y| && x[..|t| + 2] == y[..|t| + 2] && "<" + t <= Lower(x)
    ensures "<" + t <= Lower(y) && Lower(y)[|t| + 1] == Lower(x)[|t| + 1]
  {
    forall i | 0 <= i < |t| + 2 ensures x[i] == y[i] {
      assert x[..|t| + 2][i] == y[..|t| + 2][i];
    }
    assert Lower(y)[..|t| + 1] == Lower(x)[..|t| + 1] == "<" + t;
  }

  /** Every position of the kept text belongs to a kept segment. */
  lemma {:induction false} KeptFrom(segs: seq<Segment>, i: nat) returns (j: nat)
    requires i < |Kept(segs)|
    ensures j < |segs| && segs[j].Keep? && Kept(segs)[i..] == Kept(segs[j..])
  {
    var rest := segs[1..];
    if segs[0].Keep? && i == 0 {
      j := 0;
      assert segs[0..] == segs && Kept(segs)[0..] == Kept(segs);
    } else {
      var skip := if segs[0].Keep? then 1 else 0;
      var k := KeptFrom(rest, i - skip);
      j := k + 1;
      assert rest[k..] == segs[j..];
      assert Kept(segs)[i..] == Kept(rest)[i - skip..];
    }
  }

  lemma {:induction false} KeptTo(segs: seq<Segment>, j: nat) returns (i: nat)
    requires j < |segs| && segs[j].Keep?
    ensures i < |Kept(segs)| && Kept(segs)[i..] == Kept(segs[j..])
  {
    var rest := segs[1..];
    if j == 0 {
      i := 0;
      assert segs[0..] == segs && Kept(segs)[0..] == Kept(segs);
    } else {
      var k := KeptTo(rest, j - 1);
      i := if segs[0].Keep? then k + 1 else k;
      assert rest[j - 1..] == segs[j..];
      assert Kept(segs)[i..] == Kept(rest)[k..];
    }
  }

  lemma {:induction false} DividesFrom(segs: seq<Segment>, tags: seq<string>, j: nat)
    requires Divides(segs, tags) && j <= |segs|
    ensures Divides(segs[j..], tags)
    decreases j
  {
    if j > 0 {
      DividesFrom(segs[1..], tags, j - 1);
      assert segs[1..][j - 1..] == segs[j..];
    } else {
      assert segs[0..] == segs;
    }
  }

  lemma KeepNoOpen(segs: seq<Segment>, tags: seq<string>)
    requires Divides(segs, tags) && segs != [] && segs[0].Keep?
    ensures NoOpen(Source(segs), tags)
  {
  }

  /** The kept text opens no tag at segment `j` exactly when there is no weld there. */
  lemma OpenIsWeld(segs: seq<Segment>, tags: seq<string>, j: nat)
    requires Divides(segs, tags) && j < |segs| && segs[j].Keep?
    ensures NoOpen(Kept(segs[j..]), tags) <==> !Weld(segs, tags, j)
  {
    hide OpensAt, Lower, Kept, Source, Interrupted, NoOpen, Divides;
    var from := segs[j..];
    DividesFrom(segs, tags, j);
    KeepNoOpen(from, tags);
    OpensSomewhere(Kept(from), tags);
    OpensSomewhere(Source(from), tags);
    forall t | t in tags && OpensAt(Lower(Kept(from)), t) ensures Interrupted(from, |t| + 2) {
      if !Interrupted(from, |t| + 2) {
        UninterruptedOpens(from, t);
      }
    }
  }

  /** Stripping once is enough exactly when no removal welds a tag name together out of the
      kept characters on either side of it. */
  lemma StripOnceExactly(s: string, tags: seq<string>)
    ensures Strip(Strip(s, tags), tags) == Strip(s, tags) <==> forall j :: !Weld(Scan(s, tags), tags, j)
  {
    hide Scan, Kept, Divides, NoOpen, Weld;
    var segs := Scan(s, tags);
    var kept := Kept(segs);
    ScanDivides(s, tags);
    FixedPoint(kept, tags);
    if forall i :: 0 <= i < |kept| ==> NoOpen(kept[i..], tags) {
      forall j ensures !Weld(segs, tags, j) {
        WeldIsKept(segs, tags, j);
        if 0 <= j < |segs| && segs[j].Keep? {
          var i := KeptTo(segs, j);
          OpenIsWeld(segs, tags, j);
        }
      }
    }
    if forall j :: !Weld(segs, tags, j) {
      forall i | 0 <= i < |kept| ensures NoOpen(kept[i..], tags) {
        var j := KeptFrom(segs, i);
        OpenIsWeld(segs, tags, j);
      }
    }
  }

  lemma WeldIsKept(segs: seq<Segment>, tags: seq<string>, j: int)
    ensures Weld(segs, tags, j) ==> 0 <= j < |segs| && segs[j].Keep?
  {
  }

  /** No `<` is kept before a block that is removed. */
  ghost predicate AnglesLast(segs: seq<Segment>) {
    forall j, k :: 0 <= j < k < |segs| ==> segs[j] != Keep('<') || segs[k].Keep?
  }

  /** In particular once is enough when no `<` is kept before a block that is removed. */
  lemma StripOnce(s: string, tags: seq<string>)
    requires AnglesLast(Scan(s, tags))
    ensures Strip(Strip(s, tags), tags) == Strip(s, tags)
  {
    hide Scan, Strip;
    var segs := Scan(s, tags);
    forall j ensures !Weld(segs, tags, j) {
      WeldIsKept(segs, tags, j);
      if 0 <= j < |segs| && segs[j].Keep? {
        if segs[j].c == '<' {
          assert segs[j] == Keep('<') && forall k :: j < k < |segs| ==> segs[k].Keep?;
          forall m: nat ensures !Interrupted(segs[j..], m) {
            NotInterrupted(segs, j, m);
          }
        } else {
          NoAngle(segs[j..], tags);
        }
      }
    }
    StripOnceExactly(s, tags);
  }

  lemma NotInterrupted(segs: seq<Segment>, j: nat, m: nat)
    requires j < |segs| && forall k :: j <= k < |segs| ==> segs[k].Keep?
    ensures !Interrupted(segs[j..], m)
  {
  }

  lemma NoAngle(segs: seq<Segment>, tags: seq<string>)
    requires segs != [] && segs[0].Keep? && segs[0].c != '<'
    ensures forall t :: t in tags ==> !OpensAt(Lower(Kept(segs)), t)
  {
    forall t | t in tags ensures !OpensAt(Lower(Kept(segs)), t) {
      assert ("<" + t)[0] == '<' && Lower(Kept(segs))[0] == LowerChar(segs[0].c) != '<';
    }
  }

  /** The server's tag names. */
  lemma ReasoningTagsGood()
    ensures GoodTags(REASONING_TAGS)
    ensures forall t :: t in REASONING_TAGS ==> t != [] && t[0] != '<'
  {
    assert NameChars("thinking") && NameChars("think") && NameChars("reasoning");
    assert NameChars("reflection") && NameChars("analysis");
    hide NameChars;
  }

  /** With the server's tags, stripping once is not always enough. */
  lemma NotIdempotent()
    ensures exists s :: Strip(Strip(s, REASONING_TAGS), REASONING_TAGS) != Strip(s, REASONING_TAGS)
  {
    hide REASONING_TAGS, IsOpenTag, GoodTags, Strip, MatchOpenTag, Lower, Find, OccursAt, CloseTag;
    var tags := REASONING_TAGS;
    var o, c := "<think>", "</think>";
    var inner := o + [] + c + "think>";
    var s := "<" + inner;
    ReasoningTagsGood();
    ExampleTags();
    StripLeadingBlock("think", o, [], c, "think>", tags);
    StripPrefix("think>", [], tags);
    StripNothing(tags);
    assert "think>" + [] == "think>";
    ExampleNoOpen(s, inner);
    KeepOne(s, tags);
    assert s[1..] == inner;
    assert Strip(s, tags) == "<" + "think>" == o;
    assert o[..7] == o;
    OpensHere(o, tags, "think", 7, o);
    StripShorter(o, tags);
  }

  lemma ExampleTags()
    ensures "think" in REASONING_TAGS
    ensures Lower("<think>") == "<think>" && Lower("</think>") == CloseTag("think")
    ensures IsOpenTag("<think>", "think")
  {
    assert REASONING_TAGS[1] == "think";
  }

  lemma ExampleNoOpen(s: string, inner: string)
    requires s == "<" + inner && inner != [] && inner[0] == '<'
    ensures MatchOpenTag(Lower(s), REASONING_TAGS).None?
  {
    hide MatchOpenTag;
    ReasoningTagsGood();
    var low, m := Lower(s), MatchOpenTag(Lower(s), REASONING_TAGS);
    assert low[1] == '<';
    if m.Some? {
      SecondChar(low, m.value.len, m.value.tag);
    }
  }

  lemma SecondChar(s: string, n: nat, tag: string)
    requires 2 <= n <= |s| && IsOpenTag(s[..n], tag) && tag != []
    ensures s[1] == tag[0]
  {
    assert ("<" + tag)[1] == s[..n][1] == s[1];
  }
}
