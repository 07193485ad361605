/**
 The line spans `split_oversized_code` (src/chunker.rs) gives its pieces, against the
 source lines the pieces come from.
 */
module ChunkSpans {
  import opened Utf8Text
  import opened ChunkFlush
  import opened ChunkParts
  import opened ChunkSplit

  // ---- the lines of a part ----

  function FirstLine(p: Part): nat { match p case Whole(a, _) => a case Cut(l, _, _) => l }

  function LastLine(p: Part): int { match p case Whole(_, b) => b - 1 case Cut(l, _, _) => l }

  /** Lines a part touches. */
  function Width(p: Part): int { LastLine(p) - FirstLine(p) + 1 }

  function Widths(parts: seq<Part>): int {
    if parts == [] then 0 else Widths(parts[..|parts| - 1]) + Width(parts[|parts| - 1])
  }

  /** A cut that leaves some of its line to the next part. */
  predicate Unfinished(body: seq<Bytes>, p: Part) { p.Cut? && p.line < |body| && p.hi < |body[p.line]| }

  function UnfinishedIn(body: seq<Bytes>, parts: seq<Part>): nat {
    if parts == [] then 0
    else UnfinishedIn(body, parts[..|parts| - 1]) + (if Unfinished(body, parts[|parts| - 1]) then 1 else 0)
  }

  /** The line the part after `p` begins in. */
  function LineAfter(body: seq<Bytes>, p: Part): int { if Unfinished(body, p) then LastLine(p) else LastLine(p) + 1 }

  /** A byte position has one line and one offset in it. */
  lemma PlaceUnique(body: seq<Bytes>, l: nat, x: nat, m: nat, y: nat)
    requires l <= |body| && m <= |body| && Off(body, l) + x == Off(body, m) + y
    requires (if l < |body| then x <= |body[l]| else x == 0) && (if m < |body| then y <= |body[m]| else y == 0)
    ensures l == m && x == y
  {
    if l < m {
      OffBetween(body, l, m);
    } else if m < l {
      OffBetween(body, m, l);
    }
  }

  lemma StartPlace(body: seq<Bytes>, p: Part) returns (x: nat)
    requires OkPart(body, p)
    ensures FirstLine(p) < |body| && x <= |body[FirstLine(p)]| && Start(body, p) == Off(body, FirstLine(p)) + x
    ensures p.Whole? ==> x == 0
    ensures p.Cut? ==> x == p.lo
  {
    x := if p.Whole? then 0 else p.lo;
  }

  lemma EndPlace(body: seq<Bytes>, p: Part) returns (x: nat)
    requires OkPart(body, p)
    ensures var l := LineAfter(body, p);
            && 0 <= l <= |body| && End(body, p) == Off(body, l) + x
            && (if l < |body| then x <= |body[l]| else x == 0)
    ensures x > 0 <==> Unfinished(body, p)
  {
    x := if Unfinished(body, p) then p.hi else 0;
  }

  lemma NextLineIs(body: seq<Bytes>, q: Part, p: Part)
    requires OkPart(body, q) && OkPart(body, p) && End(body, q) == Start(body, p)
    ensures LineAfter(body, q) == FirstLine(p)
    ensures !Unfinished(body, q) ==> Start(body, p) == Off(body, FirstLine(p))
  {
    hide OkPart, Start, End, FirstLine, LineAfter, Unfinished;
    var x := EndPlace(body, q);
    var y := StartPlace(body, p);
    PlaceUnique(body, LineAfter(body, q), x, FirstLine(p), y);
  }

  lemma StartsAtZero(body: seq<Bytes>, p: Part)
    requires OkPart(body, p) && Start(body, p) == 0
    ensures FirstLine(p) == 0
  {
    hide OkPart, Start, FirstLine;
    var y := StartPlace(body, p);
    ZeroOff(body);
    PlaceUnique(body, 0, 0, FirstLine(p), y);
  }

  /** The lines touched so far are those completed, plus one for each cut left unfinished. */
  lemma {:induction false} WidthsAdd(body: seq<Bytes>, parts: seq<Part>, b: nat)
    requires Tiles(body, parts, 0, b) && parts != []
    ensures Widths(parts) == LineAfter(body, parts[|parts| - 1]) + UnfinishedIn(body, parts)
    decreases |parts|
  {
    hide OkPart, Start, End, FirstLine, LastLine, Unfinished;
    var front, p := parts[..|parts| - 1], parts[|parts| - 1];
    if front != [] {
      var q := front[|front| - 1];
      WidthsAdd(body, front, Start(body, p));
      assert OkPart(body, q) && End(body, q) == Start(body, p);
      NextLineIs(body, q, p);
    } else {
      StartsAtZero(body, p);
      assert Widths(front) == 0 && UnfinishedIn(body, front) == 0;
    }
  }

  /** Before part `k`, the lines touched are those before its first line, plus the unfinished. */
  lemma WidthsBefore(body: seq<Bytes>, parts: seq<Part>, b: nat, k: nat)
    requires Tiles(body, parts, 0, b) && k < |parts|
    ensures Widths(parts[..k]) == FirstLine(parts[k]) + UnfinishedIn(body, parts[..k])
  {
    hide OkPart, Start, End, FirstLine, LastLine, Unfinished;
    TilesPrefix(body, parts, 0, b, k);
    var p := parts[k];
    if k > 0 {
      var q := parts[..k][k - 1];
      WidthsAdd(body, parts[..k], Start(body, p));
      assert OkPart(body, q) && End(body, q) == Start(body, p);
      NextLineIs(body, q, p);
    } else {
      StartsAtZero(body, p);
    }
  }

  // ---- the lines a piece is taken to span ----

  lemma CountWrapped(f: Fence, piece: Bytes)
    requires NEWLINE !in OpenerOf(f) && NEWLINE !in CloserOf(f)
    ensures CountNewlines(Wrap(f, piece)) == CountNewlines(piece) + (if f.Prose? then 0 else 1)
  {
    if !f.Prose? {
      CountNewlinesNone(OpenerOf(f));
      CountNewlinesNone(CloserOf(f));
      CountNewlinesAppend(f.opener, [NEWLINE]);
      CountNewlinesAppend(f.opener + [NEWLINE], piece);
      CountNewlinesAppend(f.opener + [NEWLINE] + piece, CloserOf(f));
      assert CountNewlines([NEWLINE]) == 1;
      assert Wrap(f, piece) == f.opener + [NEWLINE] + piece + CloserOf(f);
    }
  }

  lemma CountRendered(body: seq<Bytes>, fenced: bool, p: Part)
    requires OkPart(body, p) && forall i :: 0 <= i < |body| ==> NEWLINE !in body[i]
    ensures CountNewlines(Render(body, fenced, p)) == if p.Cut? && !fenced then 0 else Width(p)
  {
    hide CountNewlines, Off, IsBoundary, Terminated;
    match p {
      case Whole(a, b) => StripTerminated(body[a..b]);
      case Cut(l, lo, hi) =>
        var s := body[l][lo..hi];
        CountNewlinesNone(s);
        CountTerminated(s);
        assert s + [] == s;
    }
  }

  lemma SpanOfPart(f: Fence, body: seq<Bytes>, p: Part)
    requires OkPart(body, p) && forall i :: 0 <= i < |body| ==> NEWLINE !in body[i]
    requires NEWLINE !in OpenerOf(f) && NEWLINE !in CloserOf(f)
    ensures SpanLines(Wrap(f, Render(body, !f.Prose?, p))) == Width(p) + (if f.Prose? then 0 else 1)
  {
    hide CountNewlines, Render, Wrap, Off, IsBoundary;
    CountRendered(body, !f.Prose?, p);
    CountWrapped(f, Render(body, !f.Prose?, p));
  }

  /** Pieces and parts go together: the split of a chunk with a body. */
  lemma PartOfPiece(chunk: Chunk, out: seq<Chunk>, parts: seq<Part>, i: nat)
    requires SplitInto(chunk, out, parts) && parts != [] && i < |out|
    ensures |out| == |parts| && OkPart(Body(chunk.text), parts[i])
    ensures SpanLines(out[i].text) == Width(parts[i]) + (if FenceOf(chunk.text).Prose? then 0 else 1)
  {
    hide Labelled, Tiles, FenceOf, Body, SpanLines, Wrap, Render, OkPart;
    var f, body := FenceOf(chunk.text), Body(chunk.text);
    LinesAreFenceAndBody(chunk.text);
    BodyNoNewline(chunk.text);
    SpanOfPart(f, body, parts[i]);
  }

  lemma {:induction false} StartsAfter(chunk: Chunk, out: seq<Chunk>, parts: seq<Part>, i: nat)
    requires SplitInto(chunk, out, parts) && parts != [] && i < |out| == |parts|
    ensures out[i].lineStart == chunk.lineStart + Widths(parts[..i]) + (if FenceOf(chunk.text).Prose? then 0 else i)
  {
    hide Greedy, FenceOf, Body, Texts, Width, SpanLines, RawOf;
    if i > 0 {
      StartsAfter(chunk, out, parts, i - 1);
      PartOfPiece(chunk, out, parts, i - 1);
      assert parts[..i][..i - 1] == parts[..i - 1];
      assert out[i].lineStart == out[i - 1].lineEnd + 1;
    }
  }

  /** The span of every piece: it drifts from the source by one line for every earlier cut
      that left its line unfinished and, in a fenced block, one for every earlier piece. */
  lemma PieceSpans(chunk: Chunk, out: seq<Chunk>, parts: seq<Part>, i: nat)
    requires SplitInto(chunk, out, parts) && parts != [] && i < |out|
    ensures |out| == |parts|
    ensures var prose, drift := FenceOf(chunk.text).Prose?, UnfinishedIn(Body(chunk.text), parts[..i]);
            && out[i].lineStart == chunk.lineStart + FirstLine(parts[i]) + drift + (if prose then 0 else i)
            && out[i].lineEnd == chunk.lineStart + LastLine(parts[i]) + drift + (if prose then 0 else i + 1)
  {
    hide FenceOf, Body, Texts, SpanLines, RawOf, Tiles, FirstLine, LastLine, UnfinishedIn, AllLongest;
    PartOfPiece(chunk, out, parts, i);
    StartsAfter(chunk, out, parts, i);
    WidthsBefore(Body(chunk.text), parts, Off(Body(chunk.text), |Body(chunk.text)|), i);
  }

  // ---- when every span is right ----

  /** The source line the chunk ends on. */
  function EndOf(chunk: Chunk): nat { chunk.lineStart + CountNewlines(chunk.text) }

  lemma LinesInBody(text: Bytes)
    ensures CountNewlines(text)
         == |Body(text)| + (match FenceOf(text) case Prose => -1 case Unterminated(_) => 0 case Closed(_, _) => 1)
    ensures FenceOf(text).Prose? ==> Body(text) != []
  {
    hide LastIsCloser, IsFenced, Lines, CountNewlines;
    LinesJoin(text);
    LinesAreFenceAndBody(text);
  }

  lemma LastPartEnds(body: seq<Bytes>, parts: seq<Part>)
    requires Partition(body, parts) && parts != []
    ensures LastLine(parts[|parts| - 1]) == |body| - 1 && !Unfinished(body, parts[|parts| - 1])
  {
    hide OkPart, Start, End, Unfinished, LastLine;
    var p := parts[|parts| - 1];
    var x := EndPlace(body, p);
    PlaceUnique(body, LineAfter(body, p), x, |body|, 0);
  }

  lemma NoParts(body: seq<Bytes>)
    ensures Partition(body, []) <==> body == []
  {
    OffOrdered(body, 0, |body|);
  }

  /** A chunk with no body is one piece, its fence alone. */
  lemma BareSpan(chunk: Chunk, out: seq<Chunk>)
    requires SplitInto(chunk, out, [])
    ensures |out| == 1 && out[0].lineStart == out[0].lineEnd == chunk.lineStart
    ensures !FenceOf(chunk.text).Prose? && Body(chunk.text) == []
  {
    hide FenceOf, Body, Off, Wrap;
    NoParts(Body(chunk.text));
    LinesInBody(chunk.text);
    LinesAreFenceAndBody(chunk.text);
    CountWrapped(FenceOf(chunk.text), []);
  }

  /** How far the last piece ends from where the chunk does. */
  lemma SpanDrift(chunk: Chunk, out: seq<Chunk>, parts: seq<Part>)
    requires SplitInto(chunk, out, parts)
    ensures out != []
    ensures out[|out| - 1].lineEnd - EndOf(chunk)
         == UnfinishedIn(Body(chunk.text), parts)
            + (match FenceOf(chunk.text) case Prose => 0 case Unterminated(_) => |out| - 1 case Closed(_, _) => |out| - 2)
  {
    hide FenceOf, Body, Labelled, Texts, CountNewlines, RawOf, Tiles, AllLongest, LastLine, FirstLine, Unfinished, Off;
    LinesInBody(chunk.text);
    if parts == [] {
      BareSpan(chunk, out);
    } else {
      var n := |parts| - 1;
      PieceCount(chunk, out, parts);
      PieceSpans(chunk, out, parts, n);
      LastPartEnds(Body(chunk.text), parts);
    }
  }

  lemma PieceCount(chunk: Chunk, out: seq<Chunk>, parts: seq<Part>)
    requires SplitInto(chunk, out, parts)
    ensures |out| == if parts == [] then 1 else |parts|
  {
    hide FenceOf, Body, Labelled, Wrap, Longest, Tiles;
  }

  /** A piece's span is the source lines its text comes from: those of its part of the body,
      with the opener for the first piece and the closer for the last. */
  ghost predicate SpanRight(chunk: Chunk, out: seq<Chunk>, parts: seq<Part>, i: nat)
    requires i < |out| && (parts != [] ==> i < |parts|)
  {
    var f := FenceOf(chunk.text);
    var top := chunk.lineStart + (if f.Prose? then 0 else 1);
    && out[i].lineStart == (if i == 0 || parts == [] then chunk.lineStart else top + FirstLine(parts[i]))
    && out[i].lineEnd == (if f.Closed? && i == |out| - 1 then EndOf(chunk)
                          else if parts == [] then chunk.lineStart
                          else top + LastLine(parts[i]))
  }

  ghost predicate SpansRight(chunk: Chunk, out: seq<Chunk>, parts: seq<Part>) {
    forall i :: 0 <= i < |out| ==> (parts != [] ==> i < |parts|) && SpanRight(chunk, out, parts, i)
  }

  /** The spans in terms of the parts. */
  ghost predicate NoDrift(f: Fence, body: seq<Bytes>, parts: seq<Part>) {
    match f
    case Prose => UnfinishedIn(body, parts) == 0
    case Unterminated(_) => |parts| <= 1
    case Closed(_, _) => |parts| == 2 && !Unfinished(body, parts[0])
  }

  /** When piece `i` has its span right, in terms of the parts. */
  ghost predicate RightAt(f: Fence, body: seq<Bytes>, parts: seq<Part>, i: nat)
    requires i < |parts|
  {
    var drift := UnfinishedIn(body, parts[..i]);
    match f
    case Prose => drift == 0
    case Unterminated(_) => i == 0 && drift == 0
    case Closed(_, _) => |parts| >= 2 && drift == 0 && i == if i == |parts| - 1 then 1 else 0
  }

  lemma SpanRightWhen(chunk: Chunk, out: seq<Chunk>, parts: seq<Part>, i: nat)
    requires SplitInto(chunk, out, parts) && parts != [] && i < |out| == |parts|
    ensures SpanRight(chunk, out, parts, i) <==> RightAt(FenceOf(chunk.text), Body(chunk.text), parts, i)
  {
    hide FenceOf, Body, Labelled, Texts, CountNewlines, RawOf, Tiles, AllLongest, LastLine, FirstLine, Unfinished, Off, UnfinishedIn;
    LinesInBody(chunk.text);
    PieceSpans(chunk, out, parts, i);
    LastPartEnds(Body(chunk.text), parts);
    FirstStarts(Body(chunk.text), parts);
  }

  lemma FirstStarts(body: seq<Bytes>, parts: seq<Part>)
    requires Partition(body, parts) && parts != []
    ensures FirstLine(parts[0]) == 0 && UnfinishedIn(body, parts[..0]) == 0
  {
    hide OkPart, Start, End, FirstLine, Off, Unfinished;
    TilesPrefix(body, parts, 0, Off(body, |body|), 0);
    assert parts[..0] == [];
    StartsAtZero(body, parts[0]);
  }

  lemma {:induction false} UnfinishedPrefix(body: seq<Bytes>, parts: seq<Part>, i: nat)
    requires i <= |parts|
    ensures UnfinishedIn(body, parts[..i]) <= UnfinishedIn(body, parts)
    ensures i < |parts| && Unfinished(body, parts[i]) ==> UnfinishedIn(body, parts) > 0
    decreases |parts|
  {
    if i == |parts| {
      assert parts[..i] == parts;
    } else {
      var front := parts[..|parts| - 1];
      UnfinishedPrefix(body, front, i);
      assert front[..i] == parts[..i];
    }
  }

  lemma SpansRightWhen(chunk: Chunk, out: seq<Chunk>, parts: seq<Part>)
    requires SplitInto(chunk, out, parts)
    ensures SpansRight(chunk, out, parts) <==> NoDrift(FenceOf(chunk.text), Body(chunk.text), parts)
  {
    hide FenceOf, Body, Labelled, Texts, CountNewlines, RawOf, Tiles, AllLongest, LastLine, FirstLine, Unfinished, Off, SpanRight;
    PieceCount(chunk, out, parts);
    if parts == [] {
      BareRight(chunk, out);
    } else {
      var body, n := Body(chunk.text), |parts| - 1;
      FirstStarts(body, parts);
      LastPartEnds(body, parts);
      forall i | 0 <= i < |parts| ensures SpanRight(chunk, out, parts, i) <==> RightAt(FenceOf(chunk.text), body, parts, i) {
        SpanRightWhen(chunk, out, parts, i);
      }
      AllRightAt(FenceOf(chunk.text), body, parts);
    }
  }

  lemma BareRight(chunk: Chunk, out: seq<Chunk>)
    requires SplitInto(chunk, out, [])
    ensures !FenceOf(chunk.text).Prose?
    ensures SpansRight(chunk, out, []) <==> FenceOf(chunk.text).Unterminated?
  {
    hide FenceOf, Body, Labelled, Texts, CountNewlines, RawOf, Greedy;
    BareSpan(chunk, out);
    LinesInBody(chunk.text);
    assert SpansRight(chunk, out, []) <==> SpanRight(chunk, out, [], 0);
  }

  lemma AllRightAt(f: Fence, body: seq<Bytes>, parts: seq<Part>)
    requires parts != [] && !Unfinished(body, parts[|parts| - 1])
    ensures (forall i :: 0 <= i < |parts| ==> RightAt(f, body, parts, i)) <==> NoDrift(f, body, parts)
  {
    hide Unfinished;
    var n := |parts| - 1;
    assert parts[..0] == [];
    match f {
      case Prose =>
        assert RightAt(f, body, parts, n) <==> UnfinishedIn(body, parts) == 0;
        forall i | 0 <= i < |parts| ensures UnfinishedIn(body, parts[..i]) <= UnfinishedIn(body, parts) {
          UnfinishedPrefix(body, parts, i);
        }
      case Unterminated(_) =>
        assert RightAt(f, body, parts, 0);
        assert n > 0 ==> !RightAt(f, body, parts, 1);
      case Closed(_, _) =>
        if n == 1 {
          assert parts[..1][..0] == [];
          assert UnfinishedIn(body, parts[..1]) == if Unfinished(body, parts[0]) then 1 else 0;
          assert RightAt(f, body, parts, 0);
          assert RightAt(f, body, parts, 1) <==> !Unfinished(body, parts[0]);
        } else {
          assert !RightAt(f, body, parts, n);
        }
    }
  }

  // ---- the condition on the text ----

  /** These lines fit one piece. */
  predicate OnePiece(lines: seq<Bytes>) {
    |Terminated(lines)| <= 8000 + (if |lines| == 1 then 1 else 0)
  }

  /** These lines fit two pieces, divided at a line end, and not one. */
  ghost predicate TwoPieces(lines: seq<Bytes>) {
    !OnePiece(lines) && exists k :: 0 < k < |lines| && OnePiece(lines[..k]) && OnePiece(lines[k..])
  }

  /** The chunks whose pieces all get their source lines: prose without a line over the cap,
      an unterminated block that needs one piece, a closed block that needs two. */
  ghost predicate KeepsLines(text: Bytes) {
    match FenceOf(text)
    case Prose => forall i :: 0 <= i < |Body(text)| ==> |Body(text)[i]| <= 8000
    case Unterminated(_) => OnePiece(Body(text))
    case Closed(_, _) => TwoPieces(Body(text))
  }

  lemma LinesPart(body: seq<Bytes>, a: nat, b: nat) returns (p: Part)
    requires a < b <= |body| && OnePiece(body[a..b])
    ensures OkPart(body, p) && Start(body, p) == Off(body, a) && End(body, p) == Off(body, b)
  {
    OffSlice(body, a, b);
    if Off(body, b) - Off(body, a) <= MAX_CODE_CHUNK_BYTES {
      p := Whole(a, b);
    } else {
      assert b == a + 1;
      p := Cut(a, 0, |body[a]|);
    }
  }

  lemma PartLines(body: seq<Bytes>, p: Part, a: nat, b: nat)
    requires a <= |body| && b <= |body| && OkPart(body, p) && Start(body, p) == Off(body, a) && End(body, p) == Off(body, b)
    ensures a < b && OnePiece(body[a..b])
  {
    hide Terminated, IsBoundary;
    var x := StartPlace(body, p);
    PlaceUnique(body, FirstLine(p), x, a, 0);
    var y := EndPlace(body, p);
    PlaceUnique(body, LineAfter(body, p), y, b, 0);
    OffSlice(body, a, b);
  }

  lemma NoTiles(body: seq<Bytes>)
    ensures Tiles(body, [], 0, 0)
  {
  }

  lemma PartitionOfTwo(body: seq<Bytes>, p: Part, q: Part, k: nat)
    requires k <= |body| && OkPart(body, p) && Start(body, p) == 0 && End(body, p) == Off(body, k)
    requires OkPart(body, q) && Start(body, q) == Off(body, k) && End(body, q) == Off(body, |body|)
    ensures Partition(body, [p, q])
  {
    hide OkPart, Start, End, Tiles, Off;
    NoTiles(body);
    TilesPush(body, [], 0, p);
    assert [] + [p] == [p] && [p] + [q] == [p, q];
    TilesPush(body, [p], 0, q);
  }

  lemma PartitionOfOne(body: seq<Bytes>, p: Part)
    requires OkPart(body, p) && Start(body, p) == 0 && End(body, p) == Off(body, |body|)
    ensures Partition(body, [p])
  {
    hide OkPart, Start, End, Tiles, Off;
    NoTiles(body);
    TilesPush(body, [], 0, p);
    assert [] + [p] == [p];
  }

  lemma AtMostOnePart(body: seq<Bytes>, parts: seq<Part>)
    requires Greedy(body, parts)
    ensures |parts| <= 1 <==> OnePiece(body)
  {
    hide OkPart, Start, End, Longest, Tiles, OnePiece;
    ZeroOff(body);
    if body == [] {
      NoParts(body);
      GreedyIsLeast(body, parts, []);
      OneEmpty();
    } else if OnePiece(body) {
      assert body[0..|body|] == body;
      var p := LinesPart(body, 0, |body|);
      PartitionOfOne(body, p);
      GreedyIsLeast(body, parts, [p]);
    } else if |parts| == 1 {
      OnlyPart(body, parts);
    } else if parts == [] {
      NoParts(body);
    }
  }

  lemma OneEmpty()
    ensures OnePiece([])
  {
  }

  lemma OnlyPart(body: seq<Bytes>, parts: seq<Part>)
    requires Partition(body, parts) && |parts| == 1
    ensures OnePiece(body)
  {
    hide OkPart, Start, End, OnePiece;
    ZeroOff(body);
    StartOfFirst(body, parts, Start(body, parts[0]));
    PartLines(body, parts[0], 0, |body|);
    assert body[0..|body|] == body;
  }

  lemma ExactlyTwoParts(body: seq<Bytes>, parts: seq<Part>)
    requires Greedy(body, parts)
    ensures |parts| == 2 && !Unfinished(body, parts[0]) <==> TwoPieces(body)
  {
    hide OkPart, Start, End, Longest, Tiles, OnePiece, Unfinished;
    AtMostOnePart(body, parts);
    if |parts| == 2 && !Unfinished(body, parts[0]) {
      TwoPartsSplit(body, parts);
    }
    if TwoPieces(body) {
      var k :| 0 < k < |body| && OnePiece(body[..k]) && OnePiece(body[k..]);
      assert body[0..k] == body[..k] && body[k..|body|] == body[k..];
      ZeroOff(body);
      var p := LinesPart(body, 0, k);
      var q := LinesPart(body, k, |body|);
      PartitionOfTwo(body, p, q, k);
      GreedyIsLeast(body, parts, [p, q]);
      FirstPartFinished(body, parts, p, k);
    }
  }

  lemma TwoPartsSplit(body: seq<Bytes>, parts: seq<Part>)
    requires Partition(body, parts) && |parts| == 2 && !Unfinished(body, parts[0])
    ensures exists k :: 0 < k < |body| && OnePiece(body[..k]) && OnePiece(body[k..])
  {
    hide OkPart, Start, End, OnePiece, Unfinished, LineAfter;
    ZeroOff(body);
    var p, q := parts[0], parts[1];
    assert parts[..1][0] == p;
    assert Tiles(body, parts[..1], 0, Start(body, q));
    assert parts[..1][..0] == [];
    var x := EndPlace(body, p);
    var k := LineAfter(body, p);
    PartLines(body, p, 0, k);
    PartLines(body, q, k, |body|);
    assert body[0..k] == body[..k] && body[k..|body|] == body[k..];
  }

  lemma FirstPartFinished(body: seq<Bytes>, parts: seq<Part>, p: Part, k: nat)
    requires Greedy(body, parts) && parts != [] && 0 < k <= |body|
    requires OkPart(body, p) && Start(body, p) == 0 && End(body, p) == Off(body, k)
    ensures !Unfinished(body, parts[0])
  {
    hide Tiles;
    TilesPrefix(body, parts, 0, Off(body, |body|), 0);
    assert parts[..0] == [];
    var g := parts[0];
    assert Start(body, g) == 0 by { StartOfFirst(body, parts, Start(body, g)); }
    assert Longest(body, g);
    StartsAtZero(body, g);
    OffBetween(body, 0, k);
  }

  lemma StartOfFirst(body: seq<Bytes>, parts: seq<Part>, b: nat)
    requires Tiles(body, parts[..0], 0, b)
    ensures b == 0
  {
  }

  /** Some part holds the byte at `x`. */
  lemma {:induction false} Covering(body: seq<Bytes>, parts: seq<Part>, b: nat, x: nat) returns (i: nat)
    requires Tiles(body, parts, 0, b) && x < b
    ensures i < |parts| && OkPart(body, parts[i]) && Start(body, parts[i]) <= x < End(body, parts[i])
    decreases |parts|
  {
    hide OkPart, Start, End;
    i := |parts| - 1;
    if x < Start(body, parts[i]) {
      i := Covering(body, parts[..i], Start(body, parts[i]), x);
    }
  }

  /** A line over the cap is left unfinished by the part that begins it. */
  lemma OverlongIsUnfinished(body: seq<Bytes>, p: Part, l: nat)
    requires l < |body| && |body[l]| > MAX_CODE_CHUNK_BYTES
    requires OkPart(body, p) && Start(body, p) <= Off(body, l) < End(body, p)
    ensures Unfinished(body, p)
  {
    hide IsBoundary;
    match p {
      case Whole(a, b) =>
        OffOrdered(body, l, b);
        OffOrdered(body, l, a);
        OffBetween(body, a, l);
        OffBetween(body, l, b);
      case Cut(m, lo, hi) =>
        if m < l {
          OffBetween(body, m, l);
        } else if l < m {
          OffBetween(body, l, m);
        }
    }
  }

  ghost predicate NoneOver(body: seq<Bytes>) {
    forall i :: 0 <= i < |body| ==> |body[i]| <= MAX_CODE_CHUNK_BYTES
  }

  /** A longest part that starts a line leaves none unfinished, if no line is over the cap. */
  lemma WholeLineFinished(body: seq<Bytes>, p: Part)
    requires NoneOver(body) && Longest(body, p) && Start(body, p) == Off(body, FirstLine(p))
    ensures !Unfinished(body, p)
  {
    if p.Cut? {
      var whole := Cut(p.line, 0, |body[p.line]|);
      assert OkPart(body, whole) && Start(body, whole) == Start(body, p);
    }
  }

  lemma {:induction false} AllFinished(body: seq<Bytes>, parts: seq<Part>, b: nat)
    requires NoneOver(body) && Tiles(body, parts, 0, b) && AllLongest(body, parts)
    ensures UnfinishedIn(body, parts) == 0
    decreases |parts|
  {
    hide OkPart, Start, End, Longest, NoneOver, Off, FirstLine, Unfinished;
    if parts != [] {
      var front, p := parts[..|parts| - 1], parts[|parts| - 1];
      assert forall i :: 0 <= i < |front| ==> front[i] == parts[i];
      AllFinished(body, front, Start(body, p));
      if front != [] {
        NextLineIs(body, front[|front| - 1], p);
      } else {
        StartsAtZero(body, p);
        ZeroOff(body);
      }
      WholeLineFinished(body, p);
    }
  }

  lemma FinishedExactly(body: seq<Bytes>, parts: seq<Part>)
    requires Greedy(body, parts)
    ensures UnfinishedIn(body, parts) == 0 <==> NoneOver(body)
  {
    hide OkPart, Start, End, Longest, Tiles, UnfinishedIn, Unfinished;
    if NoneOver(body) {
      AllFinished(body, parts, Off(body, |body|));
    } else {
      var l :| 0 <= l < |body| && |body[l]| > MAX_CODE_CHUNK_BYTES;
      OffBetween(body, l, |body|);
      var i := Covering(body, parts, Off(body, |body|), Off(body, l));
      OverlongIsUnfinished(body, parts[i], l);
      UnfinishedPrefix(body, parts, i);
    }
  }

  /** Exactly when every piece of a split spans the source lines its text comes from. */
  lemma SpansRightExactly(chunk: Chunk, out: seq<Chunk>, parts: seq<Part>)
    requires SplitInto(chunk, out, parts)
    ensures SpansRight(chunk, out, parts) <==> KeepsLines(chunk.text)
  {
    hide FenceOf, Body, Labelled, Texts, SpansRight, RawOf, Tiles, Longest, OnePiece, TwoPieces, Off, UnfinishedIn, Unfinished;
    SpansRightWhen(chunk, out, parts);
    FinishedExactly(Body(chunk.text), parts);
    AtMostOnePart(Body(chunk.text), parts);
    ExactlyTwoParts(Body(chunk.text), parts);
  }

  // ---- a block that drifts ----

  lemma {:induction false} LinesPush(s: Bytes, line: Bytes)
    requires NEWLINE !in line
    ensures Lines(s + [NEWLINE] + line) == Lines(s) + [line]
    decreases |line|
  {
    var t := s + [NEWLINE] + line;
    if line == [] {
      assert t[..|t| - 1] == s;
    } else {
      var front := line[..|line| - 1];
      LinesPush(s, front);
      assert t[..|t| - 1] == s + [NEWLINE] + front;
      assert line == front + [line[|line| - 1]];
    }
  }

  /** A line of code, 7999 bytes long. */
  ghost function FullLine(): Bytes { seq(7999, _ => 97) }

  /** A closed block of three such lines. */
  ghost function DriftingText(): Bytes {
    TICKS + [NEWLINE] + FullLine() + [NEWLINE] + FullLine() + [NEWLINE] + FullLine() + [NEWLINE] + TICKS
  }

  lemma BlockLines(x: Bytes)
    requires NEWLINE !in x
    ensures Lines(TICKS + [NEWLINE] + x + [NEWLINE] + x + [NEWLINE] + x + [NEWLINE] + TICKS) == [TICKS, x, x, x, TICKS]
  {
    hide Lines;
    assert NEWLINE !in TICKS;
    var one := TICKS + [NEWLINE] + x;
    var two := one + [NEWLINE] + x;
    var three := two + [NEWLINE] + x;
    LinesNone(TICKS);
    LinesPush(TICKS, x);
    LinesPush(one, x);
    LinesPush(two, x);
    LinesPush(three, TICKS);
  }

  lemma ClosedBlock(text: Bytes)
    requires TICKS <= text && |Lines(text)| >= 2 && Lines(text)[|Lines(text)| - 1] == TICKS
    ensures FenceOf(text) == Closed(Lines(text)[0], TICKS) && Body(text) == Lines(text)[1..|Lines(text)| - 1]
  {
    hide Lines;
    assert TrimStart(TICKS) == TICKS;
    assert LastIsCloser(text);
  }

  lemma DriftingLines()
    ensures FenceOf(DriftingText()) == Closed(TICKS, TICKS)
    ensures Body(DriftingText()) == [FullLine(), FullLine(), FullLine()]
  {
    hide FullLine, Lines, FenceOf, Body;
    var x := FullLine();
    FullLineIs();
    BlockLines(x);
    ClosedBlock(DriftingText());
    assert [TICKS, x, x, x, TICKS][1..4] == [x, x, x];
  }

  lemma FullLineIs()
    ensures NEWLINE !in FullLine() && |FullLine()| == 7999
  {
  }

  lemma LinesNone(s: Bytes)
    requires NEWLINE !in s
    ensures Lines(s) == [s]
  {
    hide Lines, Terminated, CountNewlines;
    CountNewlinesNone(s);
    LinesJoin(s);
    var x := Lines(s)[0];
    assert Lines(s) == [] + [x];
    FilledNothing();
    TerminatedPush([], x);
    assert x == (x + [NEWLINE])[..|x|] == (s + [NEWLINE])[..|s|] == s;
  }

  lemma TerminatedRepeat(x: Bytes)
    ensures |Terminated([x, x])| == 2 * |x| + 2 && |Terminated([x, x, x])| == 3 * |x| + 3
  {
    hide Terminated;
    FilledNothing();
    TerminatedPush([], x);
    TerminatedPush([] + [x], x);
    TerminatedPush([] + [x] + [x], x);
    assert [] + [x] + [x] == [x, x] && [] + [x] + [x] + [x] == [x, x, x];
  }

  /** No split of that block gives every piece its source lines. */
  lemma SpanDriftExample(chunk: Chunk, out: seq<Chunk>, parts: seq<Part>)
    requires chunk.text == DriftingText() && SplitInto(chunk, out, parts)
    ensures !SpansRight(chunk, out, parts)
  {
    hide FullLine, Terminated, SplitInto, SpansRight;
    var x := FullLine();
    FullLineIs();
    TerminatedRepeat(x);
    DriftingLines();
    hide DriftingText, FenceOf, Body;
    var body := [x, x, x];
    assert body[1..] == [x, x] && body[..2] == [x, x];
    assert !TwoPieces(body);
    SpansRightExactly(chunk, out, parts);
  }
}
