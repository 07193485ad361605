/**
 Splitting a chunk over the hard cap (`split_oversized_code` in src/chunker.rs):
 body lines are packed greedily into pieces, and the pieces of a fenced block
 re-open its fence.
 */
module ChunkSplit {
  import opened Utf8Text
  import opened ChunkFlush
  import opened ChunkParts

  // ---- the shape of a chunk ----

  /** Backquote and tilde fences of three marks. */
  const TICKS: Bytes := [96, 96, 96]
  const TILDES: Bytes := [126, 126, 126]

  datatype Fence = Closed(opener: Bytes, closer: Bytes) | Unterminated(opener: Bytes) | Prose

  predicate IsFenced(text: Bytes) { TICKS <= text || TILDES <= text }

  /** The last line closes the block only when it starts, after white space, with the block's own marker. */
  predicate LastIsCloser(text: Bytes) {
    var marker := if TICKS <= text then TICKS else TILDES;
    var all := Lines(text);
    IsFenced(text) && |all| >= 2 && marker <= TrimStart(all[|all| - 1])
  }

  function FenceOf(text: Bytes): Fence {
    var all := Lines(text);
    if LastIsCloser(text) then Closed(all[0], all[|all| - 1])
    else if IsFenced(text) then Unterminated(all[0])
    else Prose
  }

  function Body(text: Bytes): seq<Bytes> {
    var all := Lines(text);
    if LastIsCloser(text) then all[1..|all| - 1]
    else if IsFenced(text) then all[1..]
    else all
  }

  /** A piece with its fence re-opened, and closed again when the block was. */
  function Wrap(f: Fence, piece: Bytes): Bytes {
    match f
    case Closed(op, cl) => op + [NEWLINE] + piece + cl
    case Unterminated(op) => op + [NEWLINE] + piece
    case Prose => piece
  }

  /** A piece's text without the re-opened fence. */
  function Unwrap(f: Fence, text: Bytes): Bytes {
    match f
    case Closed(op, cl) => if |op| + 1 + |cl| <= |text| then text[|op| + 1..|text| - |cl|] else []
    case Unterminated(op) => if |op| + 1 <= |text| then text[|op| + 1..] else []
    case Prose => text
  }

  function UnwrapAll(f: Fence, pieces: seq<Chunk>): Bytes {
    if pieces == [] then []
    else UnwrapAll(f, pieces[..|pieces| - 1]) + Unwrap(f, pieces[|pieces| - 1].text)
  }

  lemma UnwrapWrap(f: Fence, piece: Bytes)
    ensures Unwrap(f, Wrap(f, piece)) == piece
  {
  }

  function OpenerOf(f: Fence): Bytes { if f.Prose? then [] else f.opener }

  function CloserOf(f: Fence): Bytes { if f.Closed? then f.closer else [] }

  // ---- which fence a chunk has ----

  /** The text starts with the marker, and what follows its last newline is white space and
      then the same marker. */
  ghost predicate ClosedBy(text: Bytes, marker: Bytes) {
    && marker <= text
    && exists a: nat, w: nat ::
         && 0 < a <= w <= |text| && text[a - 1] == NEWLINE && NEWLINE !in text[a..]
         && Blank(text[a..w]) && marker <= text[w..]
  }

  /** Where the last line begins. */
  lemma LastLineOf(text: Bytes) returns (a: nat)
    ensures a <= |text| && NEWLINE !in text[a..] && Lines(text)[|Lines(text)| - 1] == text[a..]
    ensures if |Lines(text)| >= 2 then a > 0 && text[a - 1] == NEWLINE else a == 0
  {
    hide Lines, CountNewlines;
    var n := |Lines(text)| - 1;
    var b;
    a, b := LineIsSlice(text, n);
    assert text[a..b] == text[a..];
    LinesJoin(text);
    assert text == text[..a] + text[a..];
    CountNewlinesAppend(text[..a], text[a..]);
    CountNewlinesNone(text[a..]);
    if a == 0 {
      assert text[..a] == [];
      NoCount();
    } else {
      assert text[..a] == text[..a - 1] + [NEWLINE];
      CountPush(text[..a - 1], NEWLINE);
    }
  }

  lemma NoCount()
    ensures CountNewlines([]) == 0
  {
  }

  lemma LastLineUnique(text: Bytes, a: nat, a': nat)
    requires 0 < a <= |text| && a' <= |text| && text[a - 1] == NEWLINE
    requires NEWLINE !in text[a..] && NEWLINE !in text[a'..] && (a' == 0 || text[a' - 1] == NEWLINE)
    ensures a == a'
  {
    assert forall i :: a <= i < |text| ==> text[a..][i - a] == text[i];
    assert forall i :: a' <= i < |text| ==> text[a'..][i - a'] == text[i];
  }

  lemma MarkerAfterBlank(line: Bytes, marker: Bytes)
    requires marker == TICKS || marker == TILDES
    ensures marker <= TrimStart(line) <==> exists w: nat :: w <= |line| && Blank(line[..w]) && marker <= line[w..]
  {
    hide Blank, WsLen, TrimStart;
    TrimStartCuts(line);
    var r := TrimStart(line);
    if marker <= r {
      var w := |line| - |r|;
      assert Blank(line[..w]) && marker <= line[w..];
    }
    if w: nat :| w <= |line| && Blank(line[..w]) && marker <= line[w..] {
      MarkerIsSolid(line[w..], marker);
      assert line == line[..w] + line[w..];
      TrimStartOf(line[..w], line[w..]);
    }
  }

  lemma MarkerIsSolid(s: Bytes, marker: Bytes)
    requires (marker == TICKS || marker == TILDES) && marker <= s
    ensures WsLen(s) == 0
  {
    assert s[0] == marker[0];
  }

  lemma ClosedByLast(text: Bytes, marker: Bytes)
    requires marker == TICKS || marker == TILDES
    ensures var all := Lines(text);
            ClosedBy(text, marker) <==> marker <= text && |all| >= 2 && marker <= TrimStart(all[|all| - 1])
  {
    hide Lines, Blank, TrimStart;
    var all := Lines(text);
    var a := LastLineOf(text);
    var line := text[a..];
    MarkerAfterBlank(line, marker);
    if ClosedBy(text, marker) {
      var a': nat, w: nat :| 0 < a' <= w <= |text| && text[a' - 1] == NEWLINE && NEWLINE !in text[a'..]
        && Blank(text[a'..w]) && marker <= text[w..];
      LastLineUnique(text, a', a);
      assert line[..w - a] == text[a..w] && line[w - a..] == text[w..];
    }
    if marker <= text && |all| >= 2 && marker <= TrimStart(line) {
      var w: nat :| w <= |line| && Blank(line[..w]) && marker <= line[w..];
      assert text[a..a + w] == line[..w] && text[a + w..] == line[w..];
    }
  }

  /** Which chunks are closed blocks, unterminated blocks and prose, on the text alone; the
      closer is the last line and the opener the first. */
  lemma FenceExactly(text: Bytes)
    ensures FenceOf(text).Closed? <==> ClosedBy(text, TICKS) || ClosedBy(text, TILDES)
    ensures FenceOf(text).Prose? <==> !([96, 96, 96] <= text) && !([126, 126, 126] <= text)
    ensures !FenceOf(text).Prose? ==> FenceOf(text).opener == Lines(text)[0]
    ensures FenceOf(text).Closed? ==> FenceOf(text).closer == Lines(text)[|Lines(text)| - 1]
  {
    hide Lines, TrimStart, ClosedBy;
    ClosedByLast(text, TICKS);
    ClosedByLast(text, TILDES);
    assert TICKS[0] != TILDES[0];
  }

  // ---- greedy packing ----

  lemma SliceWellFormed(s: Bytes, i: nat, j: nat)
    requires WellFormed(s) && i <= j <= |s| && IsBoundary(s, i)
    ensures WellFormed(s[i..j])
  {
    SliceAscii(s, i, j);
    SliceShort(s, i, j);
  }

  /** The one-byte characters of a slice are complete. */
  lemma SliceAscii(s: Bytes, i: nat, j: nat)
    requires WellFormed(s) && i <= j <= |s|
    ensures forall k, l :: 0 <= k < |s[i..j]| && l == k + 1 < |s[i..j]| && s[i..j][k] < 0x80 ==> !IsContinuation(s[i..j][l])
  {
    var t := s[i..j];
    forall k, l | 0 <= k < |t| && l == k + 1 < |t| && t[k] < 0x80 ensures !IsContinuation(t[l]) {
      assert t[k] == s[i + k] && t[l] == s[i + k + 1];
    }
  }

  /** No character of a slice is longer than four bytes. */
  lemma SliceShort(s: Bytes, i: nat, j: nat)
    requires WellFormed(s) && i <= j <= |s|
    ensures var t := s[i..j];
            forall k, l :: 0 <= k && l == k + 3 < |t| && IsContinuation(t[k]) && IsContinuation(t[l]) ==>
              !IsContinuation(t[k + 1]) || !IsContinuation(t[k + 2])
  {
    var t := s[i..j];
    forall k, l | 0 <= k && l == k + 3 < |t| && IsContinuation(t[k]) && IsContinuation(t[l])
      ensures !IsContinuation(t[k + 1]) || !IsContinuation(t[k + 2])
    {
      assert t[k] == s[i + k] && t[k + 1] == s[i + k + 1] && t[k + 2] == s[i + k + 2] && t[l] == s[i + k + 3];
    }
  }

  /** A cut always makes progress: no character is longer than four bytes. */
  lemma CutPositive(s: Bytes, i: nat)
    requires WellFormed(s) && 0 < i <= |s| && (i == |s| || 4 <= i)
    ensures FloorBoundary(s, i) > 0
  {
    if i < |s| {
      assert IsBoundary(s, i) || IsBoundary(s, i - 1) || IsBoundary(s, i - 2) || IsBoundary(s, i - 3);
    }
  }

  /** `raw` holds the text of longest parts that follow each other from byte `a` to byte `b`. */
  ghost predicate Packed(body: seq<Bytes>, parts: seq<Part>, raw: seq<Bytes>, fenced: bool, a: nat, b: nat) {
    Tiles(body, parts, a, b) && AllLongest(body, parts) && raw == RenderAll(body, fenced, parts)
  }

  ghost predicate PackedBetween(body: seq<Bytes>, raw: seq<Bytes>, fenced: bool, a: nat, b: nat) {
    exists parts :: Packed(body, parts, raw, fenced, a, b)
  }

  lemma PackedNone(body: seq<Bytes>, fenced: bool, a: nat)
    ensures Packed(body, [], [], fenced, a, a)
  {
  }

  lemma PackedPush(body: seq<Bytes>, parts: seq<Part>, raw: seq<Bytes>, fenced: bool, a: nat, p: Part)
    requires Longest(body, p) && Packed(body, parts, raw, fenced, a, Start(body, p))
    ensures Packed(body, parts + [p], raw + [Render(body, fenced, p)], fenced, a, End(body, p))
  {
    hide Tiles, OkPart, Start, End, RenderAll, Render;
    TilesPush(body, parts, a, p);
    RenderAllPush(body, fenced, parts, p);
  }

  lemma PackedAppend(body: seq<Bytes>, x: seq<Part>, y: seq<Part>, raw: seq<Bytes>, cuts: seq<Bytes>, fenced: bool,
                     a: nat, b: nat, c: nat)
    requires Packed(body, x, raw, fenced, a, b) && Packed(body, y, cuts, fenced, b, c)
    ensures Packed(body, x + y, raw + cuts, fenced, a, c)
  {
    hide Tiles, Longest, Render, OkPart;
    TilesAppend(body, x, y, a, b, c);
    assert AllOk(body, x) && AllOk(body, y) by { AllOkTiles(body, x, a, b); AllOkTiles(body, y, b, c); }
  }

  /** Where line `l`, cut up to byte `off`, is left: past its newline once it is used up. */
  ghost function CutPlace(body: seq<Bytes>, l: nat, off: nat): nat
    requires l < |body| && off <= |body[l]|
  {
    Off(body, l) + off + (if off == |body[l]| then 1 else 0)
  }

  lemma CutNext(body: seq<Bytes>, l: nat, off: nat, cut: nat)
    requires l < |body| && TooLong(body[l]) && off < |body[l]| && IsBoundary(body[l], off)
    requires var rest := body[l][off..];
             cut == FloorBoundary(rest, if MAX_CODE_CHUNK_BYTES <= |rest| then MAX_CODE_CHUNK_BYTES else |rest|) && cut > 0
    ensures Longest(body, Cut(l, off, off + cut)) && Start(body, Cut(l, off, off + cut)) == CutPlace(body, l, off)
    ensures End(body, Cut(l, off, off + cut)) == CutPlace(body, l, off + cut) && IsBoundary(body[l], off + cut)
  {
    hide FloorBoundary, Longest;
    var line, rest := body[l], body[l][off..];
    forall k | 0 < k <= |rest| ensures IsBoundary(rest, k) <==> IsBoundary(line, off + k) {}
    assert OkPart(body, Cut(l, off, off + cut));
    forall k | off + cut < k <= |line| && k <= off + MAX_CODE_CHUNK_BYTES ensures !IsBoundary(line, k) {
      assert !IsBoundary(rest, k - off);
    }
    CutIsLongest(body, l, off, off + cut);
  }

  /** Cut a line longer than the cap by bytes, at character boundaries. */
  method CutLongLine(body: seq<Bytes>, l: nat, fenced: bool) returns (raw: seq<Bytes>)
    requires l < |body| && WellFormed(body[l]) && TooLong(body[l])
    ensures PackedBetween(body, raw, fenced, Off(body, l), Off(body, l + 1))
  {
    hide WellFormed, FloorBoundary, Packed, Longest, Off, CutPlace, IsBoundary;
    raw := [];
    ghost var parts: seq<Part> := [];
    var rest := body[l];
    ghost var off := 0;
    CutEnds(body, l);
    PackedNone(body, fenced, Off(body, l));
    while rest != []
      invariant off <= |body[l]| && rest == body[l][off..] && WellFormed(rest) && IsBoundary(body[l], off)
      invariant Packed(body, parts, raw, fenced, Off(body, l), CutPlace(body, l, off))
      decreases |rest|
    {
      var limit := if MAX_CODE_CHUNK_BYTES <= |rest| then MAX_CODE_CHUNK_BYTES else |rest|;
      CutPositive(rest, limit);
      var cut := FloorBoundary(rest, limit);
      CutNext(body, l, off, cut);
      PackedCut(body, parts, raw, fenced, l, off, cut);
      SliceWellFormed(rest, cut, |rest|);
      assert rest[cut..|rest|] == rest[cut..] == body[l][off + cut..];
      raw := raw + [if fenced then rest[..cut] + [NEWLINE] else rest[..cut]];
      parts, off := parts + [Cut(l, off, off + cut)], off + cut;
      rest := rest[cut..];
    }
  }

  lemma CutEnds(body: seq<Bytes>, l: nat)
    requires l < |body| && TooLong(body[l])
    ensures CutPlace(body, l, 0) == Off(body, l) && CutPlace(body, l, |body[l]|) == Off(body, l + 1)
    ensures IsBoundary(body[l], 0)
  {
  }

  lemma PackedCut(body: seq<Bytes>, parts: seq<Part>, raw: seq<Bytes>, fenced: bool, l: nat, off: nat, cut: nat)
    requires l < |body| && off + cut <= |body[l]| && Longest(body, Cut(l, off, off + cut))
    requires Packed(body, parts, raw, fenced, Off(body, l), Start(body, Cut(l, off, off + cut)))
    ensures var piece := body[l][off..][..cut];
            Packed(body, parts + [Cut(l, off, off + cut)], raw + [if fenced then piece + [NEWLINE] else piece], fenced,
                   Off(body, l), End(body, Cut(l, off, off + cut)))
  {
    hide Packed, IsBoundary, Off;
    PackedPush(body, parts, raw, fenced, Off(body, l), Cut(l, off, off + cut));
    var piece := body[l][off..][..cut];
    assert piece == body[l][off..off + cut] && piece + [] == piece;
  }

  /** The texts of the pieces, before fences: those of the parts, or one empty piece. */
  ghost function RawOf(body: seq<Bytes>, fenced: bool, parts: seq<Part>): (raw: seq<Bytes>)
    requires AllOk(body, parts)
    ensures raw != []
  {
    if parts == [] then [[]] else RenderAll(body, fenced, parts)
  }

  /** `raw` is the texts of the greedy partition. */
  ghost predicate GreedyPieces(body: seq<Bytes>, fenced: bool, parts: seq<Part>, raw: seq<Bytes>) {
    Greedy(body, parts) && raw == RawOf(body, fenced, parts)
  }

  /** State of the packing loop before line `i`: lines `from..i` are in the piece being filled. */
  ghost predicate Filling(body: seq<Bytes>, parts: seq<Part>, raw: seq<Bytes>, cur: Bytes, fenced: bool, from: nat, i: nat) {
    && from <= i <= |body| && Packed(body, parts, raw, fenced, 0, Off(body, from))
    && cur == Terminated(body[from..i]) && |cur| <= MAX_CODE_CHUNK_BYTES
  }

  /** Closing a piece at the end of the body, or at a line that does not fit. */
  lemma FillingFlush(body: seq<Bytes>, parts: seq<Part>, raw: seq<Bytes>, cur: Bytes, fenced: bool, from: nat, i: nat)
    requires Filling(body, parts, raw, cur, fenced, from, i) && cur != []
    requires i == |body| || |cur| + |body[i]| + 1 > MAX_CODE_CHUNK_BYTES
    ensures Filling(body, parts + [Whole(from, i)], raw + [cur], [], fenced, i, i)
  {
    hide Packed, Longest, Terminated, IsBoundary;
    OffSlice(body, from, i);
    OffOrdered(body, from, i);
    assert OkPart(body, Whole(from, i));
    WholeIsLongest(body, from, i);
    PackedPush(body, parts, raw, fenced, 0, Whole(from, i));
    FilledNothing();
    assert body[i..i] == [];
  }

  lemma FilledNothing()
    ensures Terminated([]) == []
  {
  }

  lemma FillingEmpty(body: seq<Bytes>, parts: seq<Part>, raw: seq<Bytes>, fenced: bool, from: nat, i: nat)
    requires Filling(body, parts, raw, [], fenced, from, i)
    ensures from == i
  {
    hide Packed;
    OffSlice(body, from, i);
    OffOrdered(body, from, i);
  }

  lemma FillingLine(body: seq<Bytes>, parts: seq<Part>, raw: seq<Bytes>, cur: Bytes, fenced: bool, from: nat, i: nat)
    requires Filling(body, parts, raw, cur, fenced, from, i) && i < |body|
    requires |cur| + |body[i]| + 1 <= MAX_CODE_CHUNK_BYTES
    ensures Filling(body, parts, raw, cur + body[i] + [NEWLINE], fenced, from, i + 1)
  {
    hide Packed, Terminated;
    assert body[from..i + 1] == body[from..i] + [body[i]];
    TerminatedPush(body[from..i], body[i]);
  }

  lemma FillingLong(body: seq<Bytes>, parts: seq<Part>, raw: seq<Bytes>, fenced: bool, i: nat, more: seq<Part>, cuts: seq<Bytes>)
    requires Filling(body, parts, raw, [], fenced, i, i) && i < |body|
    requires Packed(body, more, cuts, fenced, Off(body, i), Off(body, i + 1))
    ensures Filling(body, parts + more, raw + cuts, [], fenced, i + 1, i + 1)
  {
    hide Packed;
    PackedAppend(body, parts, more, raw, cuts, fenced, 0, Off(body, i), Off(body, i + 1));
    FilledNothing();
    assert body[i + 1..i + 1] == [];
  }

  lemma FillingStart(body: seq<Bytes>, fenced: bool)
    ensures Filling(body, [], [], [], fenced, 0, 0)
  {
    PackedNone(body, fenced, 0);
  }

  lemma FillingDone(body: seq<Bytes>, parts: seq<Part>, raw: seq<Bytes>, fenced: bool)
    requires Filling(body, parts, raw, [], fenced, |body|, |body|)
    ensures Greedy(body, parts) && raw == RenderAll(body, fenced, parts)
  {
    hide Longest, Tiles, Render;
  }

  /** The packing loop fills every piece as far as it can. */
  method PackBody(body: seq<Bytes>, fenced: bool) returns (raw: seq<Bytes>)
    requires forall i :: 0 <= i < |body| ==> WellFormed(body[i])
    ensures exists parts :: GreedyPieces(body, fenced, parts, raw)
  {
    hide WellFormed, Filling, Longest, Tiles, Packed, Off, Render;
    raw := [];
    ghost var parts: seq<Part> := [];
    var cur: Bytes := [];
    var curBytes: nat := 0;
    ghost var from := 0;
    FillingStart(body, fenced);
    for i := 0 to |body|
      invariant Filling(body, parts, raw, cur, fenced, from, i) && curBytes == |cur|
    {
      var line := body[i];
      var add := |line| + 1;
      if curBytes + add > MAX_CODE_CHUNK_BYTES {
        if cur != [] {
          FillingFlush(body, parts, raw, cur, fenced, from, i);
          raw, parts, from := raw + [cur], parts + [Whole(from, i)], i;
          cur := [];
        }
        curBytes := 0;
      }
      if add > MAX_CODE_CHUNK_BYTES {
        FillingEmpty(body, parts, raw, fenced, from, i);
        var cuts := CutLongLine(body, i, fenced);
        ghost var lo, hi := Off(body, i), Off(body, i + 1);
        ghost var more :| Packed(body, more, cuts, fenced, lo, hi);
        FillingLong(body, parts, raw, fenced, i, more, cuts);
        raw, parts, from := raw + cuts, parts + more, i + 1;
        continue;
      }
      FillingLine(body, parts, raw, cur, fenced, from, i);
      cur := cur + line + [NEWLINE];
      curBytes := curBytes + add;
    }
    if cur != [] {
      FillingFlush(body, parts, raw, cur, fenced, from, |body|);
      raw, parts, from := raw + [cur], parts + [Whole(from, |body|)], |body|;
    } else {
      FillingEmpty(body, parts, raw, fenced, from, |body|);
    }
    FillingDone(body, parts, raw, fenced);
    if raw == [] {
      raw := [[]];
    }
    assert GreedyPieces(body, fenced, parts, raw);
  }

  // ---- labelling the pieces ----

  /** Lines a piece is taken to span: its newlines, at least one. */
  function SpanLines(text: Bytes): (n: nat)
    ensures n >= 1
  {
    if CountNewlines(text) >= 1 then CountNewlines(text) else 1
  }

  /** The pieces keep the chunk's heading and their line spans follow each other without a gap. */
  ghost predicate Labelled(chunk: Chunk, pieces: seq<Chunk>) {
    && (pieces != [] ==> pieces[0].lineStart == chunk.lineStart)
    && (forall i :: 0 <= i < |pieces| ==>
          && pieces[i].headingPath == chunk.headingPath
          && pieces[i].lineEnd == pieces[i].lineStart + SpanLines(pieces[i].text) - 1)
    && (forall i, j :: 0 <= i && j == i + 1 < |pieces| ==> pieces[j].lineStart == pieces[i].lineEnd + 1)
  }

  /** The pieces carry these texts, each in the fence. */
  ghost predicate Texts(f: Fence, out: seq<Chunk>, raw: seq<Bytes>) {
    |out| == |raw| && forall i :: 0 <= i < |raw| ==> out[i].text == Wrap(f, raw[i])
  }

  method LabelPieces(chunk: Chunk, f: Fence, raw: seq<Bytes>) returns (out: seq<Chunk>)
    ensures Texts(f, out, raw) && Labelled(chunk, out)
  {
    hide Wrap, CountNewlines, Labelled;
    out := [];
    LabelledNone(chunk);
    var nextLine := chunk.lineStart;
    for i := 0 to |raw|
      invariant |out| == i
      invariant forall k :: 0 <= k < i ==> out[k].text == Wrap(f, raw[k])
      invariant Labelled(chunk, out)
      invariant nextLine == NextLine(chunk, out)
    {
      var text := Wrap(f, raw[i]);
      var lineEnd := nextLine + SpanLines(text) - 1;
      var piece := Chunk(text, chunk.headingPath, nextLine, lineEnd);
      LabelledPush(chunk, out, piece);
      out := out + [piece];
      nextLine := lineEnd + 1;
    }
  }

  lemma {:induction false} UnwrapTexts(f: Fence, out: seq<Chunk>, raw: seq<Bytes>)
    requires Texts(f, out, raw)
    ensures UnwrapAll(f, out) == Concat(raw)
    decreases |out|
  {
    if out != [] {
      hide Wrap, Unwrap;
      var n := |out| - 1;
      UnwrapTexts(f, out[..n], raw[..n]);
      UnwrapWrap(f, raw[n]);
    }
  }

  /** The chunk and the texts determine the labels. */
  lemma {:induction false} LabelsDetermined(chunk: Chunk, x: seq<Chunk>, y: seq<Chunk>, k: nat)
    requires Labelled(chunk, x) && Labelled(chunk, y) && |x| == |y| && k < |x|
    requires forall i :: 0 <= i < |x| ==> x[i].text == y[i].text
    ensures x[k] == y[k]
  {
    hide SpanLines;
    if k > 0 {
      LabelsDetermined(chunk, x, y, k - 1);
      assert x[k].lineStart == x[k - 1].lineEnd + 1 && y[k].lineStart == y[k - 1].lineEnd + 1;
    }
  }

  function NextLine(chunk: Chunk, pieces: seq<Chunk>): nat {
    if pieces == [] then chunk.lineStart else pieces[|pieces| - 1].lineEnd + 1
  }

  lemma LabelledNone(chunk: Chunk)
    ensures Labelled(chunk, [])
  {
  }

  lemma LabelledPush(chunk: Chunk, out: seq<Chunk>, piece: Chunk)
    requires Labelled(chunk, out)
    requires piece.headingPath == chunk.headingPath && piece.lineStart == NextLine(chunk, out)
    requires piece.lineEnd == piece.lineStart + SpanLines(piece.text) - 1
    ensures Labelled(chunk, out + [piece])
  {
    hide SpanLines;
    var all := out + [piece];
    assert forall i :: 0 <= i < |out| ==> all[i] == out[i];
    forall i, j | 0 <= i && j == i + 1 < |all| ensures all[j].lineStart == all[i].lineEnd + 1 {
      if j < |out| { assert out[j].lineStart == out[i].lineEnd + 1; }
    }
  }

  // ---- the split ----

  /** A piece is the fence around at most a capful of body, and a closer starts a line. */
  ghost predicate PieceText(f: Fence, text: Bytes) {
    var inner := Unwrap(f, text);
    && text == Wrap(f, inner)
    && |inner| <= MAX_CODE_CHUNK_BYTES + (if f.Prose? then 0 else 1)
    && (!f.Prose? && inner != [] ==> inner[|inner| - 1] == NEWLINE)
  }

  /** The pieces of a chunk: the greedy partition of its body, each part in the fence, with
      consecutive line spans. */
  ghost predicate SplitInto(chunk: Chunk, out: seq<Chunk>, parts: seq<Part>) {
    var f, body := FenceOf(chunk.text), Body(chunk.text);
    Greedy(body, parts) && Labelled(chunk, out) && Texts(f, out, RawOf(body, !f.Prose?, parts))
  }

  ghost predicate SplitOf(chunk: Chunk, out: seq<Chunk>) { exists parts :: SplitInto(chunk, out, parts) }

  lemma {:induction false} LineWellFormed(s: Bytes, i: nat)
    requires WellFormed(s) && i < |Lines(s)|
    ensures WellFormed(Lines(s)[i])
  {
    var a, b := LineIsSlice(s, i);
    SliceWellFormed(s, a, b);
  }

  lemma {:induction false} LineIsSlice(s: Bytes, i: nat) returns (a: nat, b: nat)
    requires i < |Lines(s)|
    ensures a <= b <= |s| && Lines(s)[i] == s[a..b]
    ensures a == 0 || s[a - 1] == NEWLINE
    ensures i == |Lines(s)| - 1 ==> b == |s|
  {
    if s == [] {
      return 0, 0;
    }
    var p, c := s[..|s| - 1], s[|s| - 1];
    LinesStep(s);
    hide Lines;
    if c == NEWLINE && i == |Lines(s)| - 1 {
      assert s[|s|..|s|] == [];
      return |s|, |s|;
    }
    a, b := LineIsSlice(p, i);
    if i == |Lines(s)| - 1 {
      SliceToEnd(s, a);
      b := |s|;
    } else {
      assert p[a..b] == s[a..b];
    }
  }

  lemma SliceToEnd(s: Bytes, a: nat)
    requires a < |s|
    ensures s[a..|s|] == s[..|s| - 1][a..|s| - 1] + [s[|s| - 1]]
  {
  }

  /** What one more byte does to the lines. */
  lemma LinesStep(s: Bytes)
    requires s != []
    ensures var ls, c := Lines(s[..|s| - 1]), s[|s| - 1];
            var n := |ls| - 1;
            if c == NEWLINE then Lines(s) == ls + [[]]
            else |Lines(s)| == |ls| && Lines(s)[..n] == ls[..n] && Lines(s)[n] == ls[n] + [c]
                 && forall i :: 0 <= i < n ==> Lines(s)[i] == ls[i]
  {
  }

  lemma BodyLines(text: Bytes)
    requires WellFormed(text)
    ensures forall i :: 0 <= i < |Body(text)| ==> NEWLINE !in Body(text)[i] && WellFormed(Body(text)[i])
  {
    hide WellFormed, IsFenced;
    forall i | 0 <= i < |Lines(text)| ensures WellFormed(Lines(text)[i]) {
      LineWellFormed(text, i);
    }
    var all, body := Lines(text), Body(text);
    forall i | 0 <= i < |body| ensures NEWLINE !in body[i] && WellFormed(body[i]) {
      assert body[i] == all[if IsFenced(text) then i + 1 else i];
    }
  }

  method SplitOversizedCode(chunk: Chunk) returns (out: seq<Chunk>)
    requires WellFormed(chunk.text)
    ensures SplitOf(chunk, out)
  {
    hide WellFormed, Labelled, FenceOf, Body, Longest, Tiles, RawOf;
    var f, body := FenceOf(chunk.text), Body(chunk.text);
    BodyLines(chunk.text);
    var raw := PackBody(body, !f.Prose?);
    ghost var parts :| GreedyPieces(body, !f.Prose?, parts, raw);
    out := LabelPieces(chunk, f, raw);
    assert SplitInto(chunk, out, parts);
  }

  // ---- what a split guarantees ----

  lemma CountTerminated(line: Bytes)
    requires NEWLINE !in line
    ensures CountNewlines(line + [NEWLINE]) == 1
  {
    CountNewlinesNone(line);
    assert (line + [NEWLINE])[..|line|] == line;
  }

  lemma {:induction false} StripTerminated(ls: seq<Bytes>)
    requires forall i :: 0 <= i < |ls| ==> NEWLINE !in ls[i]
    ensures StripNewlines(Terminated(ls)) == Concat(ls)
    ensures CountNewlines(Terminated(ls)) == |ls|
  {
    if ls != [] {
      hide StripNewlines, CountNewlines;
      var front, last := ls[..|ls| - 1], ls[|ls| - 1];
      StripTerminated(front);
      StripNewlinesTerminated(last);
      CountTerminated(last);
      assert Terminated(ls) == Terminated(front) + (last + [NEWLINE]);
      StripNewlinesAppend(Terminated(front), last + [NEWLINE]);
      CountNewlinesAppend(Terminated(front), last + [NEWLINE]);
    }
  }

  lemma {:induction false} ConcatAppend(x: seq<Bytes>, y: seq<Bytes>)
    ensures Concat(x + y) == Concat(x) + Concat(y)
  {
    if y == [] {
      assert x + y == x;
    } else {
      assert (x + y)[..|x + y| - 1] == x + y[..|y| - 1];
      ConcatAppend(x, y[..|y| - 1]);
    }
  }

  lemma LinesAreFenceAndBody(text: Bytes)
    ensures var f := FenceOf(text);
            && NEWLINE !in OpenerOf(f) && NEWLINE !in CloserOf(f)
            && Lines(text) == (if f.Prose? then [] else [f.opener]) + Body(text)
                              + (if f.Closed? then [f.closer] else [])
  {
    hide Lines, TrimStart, IsFenced;
    var all := Lines(text);
    NotCloser(text);
    if LastIsCloser(text) {
      FirstAndLast(all);
    } else if IsFenced(text) {
      assert all == [all[0]] + all[1..] + [];
    } else {
      assert all == [] + all + [];
    }
  }

  lemma FirstAndLast(all: seq<Bytes>)
    requires |all| >= 2
    ensures all == [all[0]] + all[1..|all| - 1] + [all[|all| - 1]]
  {
  }

  lemma FenceAndBody(text: Bytes)
    ensures StripNewlines(text) == OpenerOf(FenceOf(text)) + Concat(Body(text)) + CloserOf(FenceOf(text))
  {
    hide LastIsCloser, IsFenced;
    var f, body := FenceOf(text), Body(text);
    LinesJoin(text);
    StripTerminated(Lines(text));
    StripNewlinesAppend(text, [NEWLINE]);
    assert StripNewlines(text) == Concat(Lines(text));
    LinesAreFenceAndBody(text);
    var front: seq<Bytes> := if f.Prose? then [] else [f.opener];
    var back: seq<Bytes> := if f.Closed? then [f.closer] else [];
    ConcatAppend(front + body, back);
    ConcatAppend(front, body);
    assert Concat(front) == OpenerOf(f) && Concat(back) == CloserOf(f);
  }

  ghost predicate NoLongLine(body: seq<Bytes>) {
    forall i :: 0 <= i < |body| ==> !TooLong(body[i])
  }

  /** What the packing puts into the pieces, before fences. */
  lemma PackedText(body: seq<Bytes>, fenced: bool, parts: seq<Part>)
    requires Greedy(body, parts) && forall i :: 0 <= i < |body| ==> NEWLINE !in body[i]
    ensures AllOk(body, parts) && StripNewlines(Concat(RawOf(body, fenced, parts))) == Concat(body)
    ensures NoLongLine(body) ==> Concat(RawOf(body, fenced, parts)) == Terminated(body)
  {
    hide Longest, Tiles, Terminated, StripNewlines, RenderAll, Off, Concat, OkPart, NoLongLine, AllWhole;
    AllOkTiles(body, parts, 0, Off(body, |body|));
    RenderedIsBody(body, fenced, parts, Off(body, |body|));
    OffWhole(body);
    StripTerminated(body);
    assert Terminated(body)[..|Terminated(body)|] == Terminated(body);
    if parts == [] {
      NoPieces(body, fenced);
    }
    if NoLongLine(body) {
      NothingCut(body, parts);
    }
  }

  lemma NothingCut(body: seq<Bytes>, parts: seq<Part>)
    requires AllOk(body, parts) && NoLongLine(body)
    ensures AllWhole(parts)
  {
  }

  lemma NoPieces(body: seq<Bytes>, fenced: bool)
    ensures Concat(RawOf(body, fenced, [])) == [] == Concat(RenderAll(body, fenced, []))
  {
    ConcatPush([], []);
    var single: seq<Bytes> := [[]];
    assert single == [] + [[]];
  }

  /** Conservation: the pieces without their re-opened fences are the chunk, up
      to newlines; and byte for byte up to one final newline when the chunk is
      prose without an over-long line. */
  lemma SplitConserves(chunk: Chunk, out: seq<Chunk>)
    requires SplitOf(chunk, out)
    ensures var f := FenceOf(chunk.text);
            && StripNewlines(chunk.text) == OpenerOf(f) + StripNewlines(UnwrapAll(f, out)) + CloserOf(f)
            && (f.Prose? && NoLongLine(Body(chunk.text)) ==> UnwrapAll(f, out) == chunk.text + [NEWLINE])
  {
    hide FenceOf, Body, Labelled, Greedy, RawOf, StripNewlines, Concat, Terminated, UnwrapAll, Texts;
    var f, body := FenceOf(chunk.text), Body(chunk.text);
    var parts :| SplitInto(chunk, out, parts);
    FenceAndBody(chunk.text);
    ProseBody(chunk.text);
    BodyNoNewline(chunk.text);
    PackedText(body, !f.Prose?, parts);
    UnwrapTexts(f, out, RawOf(body, !f.Prose?, parts));
  }

  lemma BodyNoNewline(text: Bytes)
    ensures forall i :: 0 <= i < |Body(text)| ==> NEWLINE !in Body(text)[i]
  {
    hide IsFenced, LastIsCloser;
    LinesAreFenceAndBody(text);
  }

  lemma ProseBody(text: Bytes)
    ensures FenceOf(text).Prose? ==> Terminated(Body(text)) == text + [NEWLINE]
  {
    hide IsFenced, LastIsCloser, Terminated;
    LinesJoin(text);
    NotCloser(text);
  }

  lemma NotCloser(text: Bytes)
    ensures LastIsCloser(text) ==> IsFenced(text)
  {
  }

  /** The split is a function of the chunk: only one list of pieces is a split of it. */
  lemma SplitUnique(chunk: Chunk, x: seq<Chunk>, y: seq<Chunk>)
    requires SplitOf(chunk, x) && SplitOf(chunk, y)
    ensures x == y
  {
    hide Labelled, Greedy, RawOf, FenceOf, Body, Wrap;
    var p :| SplitInto(chunk, x, p);
    var q :| SplitInto(chunk, y, q);
    GreedyIsUnique(Body(chunk.text), p, q);
    forall k | 0 <= k < |x| ensures x[k] == y[k] {
      LabelsDetermined(chunk, x, y, k);
    }
  }

  /** No partition of the body into admissible parts has fewer pieces. */
  lemma SplitIsLeast(chunk: Chunk, out: seq<Chunk>, other: seq<Part>)
    requires SplitOf(chunk, out) && Partition(Body(chunk.text), other)
    ensures |out| <= if other == [] then 1 else |other|
  {
    hide Labelled, FenceOf, Body, Wrap, Longest, Tiles, Render;
    var p :| SplitInto(chunk, out, p);
    GreedyIsLeast(Body(chunk.text), p, other);
  }

  lemma RenderShape(body: seq<Bytes>, fenced: bool, p: Part)
    requires OkPart(body, p)
    ensures var piece := Render(body, fenced, p);
            && 0 < |piece| <= MAX_CODE_CHUNK_BYTES + (if fenced then 1 else 0)
            && (fenced ==> piece[|piece| - 1] == NEWLINE)
  {
    hide Off, IsBoundary;
    if p.Whole? {
      OffSlice(body, p.from, p.to);
    }
  }

  lemma PieceShape(f: Fence, body: seq<Bytes>, parts: seq<Part>, i: nat)
    requires AllOk(body, parts) && i < |RawOf(body, !f.Prose?, parts)|
    ensures PieceText(f, Wrap(f, RawOf(body, !f.Prose?, parts)[i]))
  {
    hide Wrap, Unwrap, OkPart, Render;
    if parts != [] {
      RenderShape(body, !f.Prose?, parts[i]);
    }
    UnwrapWrap(f, RawOf(body, !f.Prose?, parts)[i]);
  }

  lemma PieceBounds(f: Fence, t: Bytes)
    requires PieceText(f, t)
    ensures |t| <= MAX_CODE_CHUNK_BYTES + |OpenerOf(f)| + |CloserOf(f)| + (if f.Prose? then 0 else 2)
    ensures !f.Prose? ==> f.opener + [NEWLINE] <= t
    ensures f.Closed? ==> |f.closer| < |t| && t[|t| - |f.closer| - 1..] == [NEWLINE] + f.closer
  {
    if f.Closed? {
      var head := f.opener + [NEWLINE] + Unwrap(f, t);
      assert t == head + f.closer && head[|head| - 1] == NEWLINE;
      assert t[|head| - 1..] == [NEWLINE] + f.closer;
    }
  }

  /** Size: a fenced piece exceeds the cap by at most its opener, its closer and two
      newlines; a prose piece never does. Every fenced piece re-opens the block, and
      its closer starts a line. */
  lemma SplitBounds(chunk: Chunk, out: seq<Chunk>, i: nat)
    requires SplitOf(chunk, out) && i < |out|
    ensures var f, t := FenceOf(chunk.text), out[i].text;
            && |t| <= 8000 + |OpenerOf(f)| + |CloserOf(f)| + (if f.Prose? then 0 else 2)
            && (!f.Prose? ==> f.opener + [NEWLINE] <= t)
            && (f.Closed? ==> |f.closer| < |t| && t[|t| - |f.closer| - 1..] == [NEWLINE] + f.closer)
  {
    hide FenceOf, Body, Labelled, PieceText, Tiles, RawOf, Wrap;
    var parts :| SplitInto(chunk, out, parts);
    PieceShape(FenceOf(chunk.text), Body(chunk.text), parts, i);
    PieceBounds(FenceOf(chunk.text), out[i].text);
  }
}
