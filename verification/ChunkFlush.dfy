/**
 Emitting one chunk from a pending byte range: blank-line trimming, verbatim
 slicing and line numbering (`flush_buf` and its helpers in src/chunker.rs).
 */
module ChunkFlush {
  import opened Common
  import opened Utf8Text

  datatype Chunk = Chunk(text: Bytes, headingPath: Bytes, lineStart: nat, lineEnd: nat)

  // ---- line table ----

  /** `lineStarts[k]` is where line `k + 1` begins, for every line of `content`. */
  ghost predicate LineTable(content: Bytes, lineStarts: seq<nat>) {
    && |lineStarts| == CountNewlines(content) + 1
    && lineStarts[0] == 0
    && (forall j, k :: 0 <= j < k < |lineStarts| ==> lineStarts[j] < lineStarts[k])
    && (forall k :: 1 <= k < |lineStarts| ==>
          && 1 <= lineStarts[k] <= |content|
          && content[lineStarts[k] - 1] == NEWLINE
          && CountNewlines(content[..lineStarts[k]]) == k)
  }

  lemma CountPush(s: Bytes, b: byte)
    ensures CountNewlines(s + [b]) == CountNewlines(s) + (if b == NEWLINE then 1 else 0)
  {
    assert (s + [b])[..|s|] == s;
  }

  lemma LineTableEmpty()
    ensures LineTable([], [0])
  {
  }

  lemma LineTablePush(s: Bytes, offsets: seq<nat>, b: byte)
    requires LineTable(s, offsets)
    ensures LineTable(s + [b], if b == NEWLINE then offsets + [|s| + 1] else offsets)
  {
    hide CountNewlines;
    var t := s + [b];
    CountPush(s, b);
    forall k | 1 <= k < |offsets| ensures CountNewlines(t[..offsets[k]]) == k && t[offsets[k] - 1] == NEWLINE {
      assert t[..offsets[k]] == s[..offsets[k]];
    }
    if b == NEWLINE {
      var all := offsets + [|s| + 1];
      assert t[..|t|] == t;
      assert forall k :: 0 <= k < |offsets| ==> all[k] == offsets[k] <= |s|;
    }
  }

  method LineStartOffsets(content: Bytes) returns (offsets: seq<nat>)
    ensures LineTable(content, offsets)
  {
    hide LineTable;
    offsets := [0];
    LineTableEmpty();
    for i := 0 to |content|
      invariant LineTable(content[..i], offsets)
    {
      assert content[..i + 1] == content[..i] + [content[i]];
      LineTablePush(content[..i], offsets, content[i]);
      if content[i] == NEWLINE {
        offsets := offsets + [i + 1];
      }
    }
    assert content[..|content|] == content;
  }

  datatype SearchResult = Found(index: nat) | Missing(insertAt: nat)

  /** `slice::binary_search` on a strictly increasing table, between `lo` and `hi`. */
  function BinarySearch(a: seq<nat>, key: nat, lo: nat, hi: nat): (r: SearchResult)
    requires lo <= hi <= |a|
    requires forall j, k :: 0 <= j < k < |a| ==> a[j] < a[k]
    requires forall k :: 0 <= k < lo ==> a[k] < key
    requires forall k :: hi <= k < |a| ==> key < a[k]
    ensures r.Found? ==> r.index < |a| && a[r.index] == key
    ensures r.Missing? ==> r.insertAt <= |a|
                           && (forall k :: 0 <= k < r.insertAt ==> a[k] < key)
                           && (forall k :: r.insertAt <= k < |a| ==> key < a[k])
    decreases hi - lo
  {
    if lo == hi then Missing(lo)
    else
      var mid := (lo + hi) / 2;
      if a[mid] == key then Found(mid)
      else if a[mid] < key then BinarySearch(a, key, mid + 1, hi)
      else BinarySearch(a, key, lo, mid)
  }

  function ByteToLine(lineStarts: seq<nat>, offset: nat): nat
    requires forall j, k :: 0 <= j < k < |lineStarts| ==> lineStarts[j] < lineStarts[k]
  {
    match BinarySearch(lineStarts, offset, 0, |lineStarts|)
    case Found(i) => i + 1
    case Missing(i) => i
  }

  lemma CountUpToNewline(s: Bytes, i: nat)
    requires i < |s| && s[i] == NEWLINE
    ensures CountNewlines(s[..i + 1]) == CountNewlines(s[..i]) + 1
  {
    assert s[..i + 1][..i] == s[..i];
  }

  /** The table lookup computes the line number: one more than the newlines before the byte. */
  lemma ByteToLineCounts(content: Bytes, lineStarts: seq<nat>, offset: nat)
    requires LineTable(content, lineStarts) && offset <= |content|
    ensures ByteToLine(lineStarts, offset) == LineOf(content, offset)
  {
    hide CountNewlines, BinarySearch;
    var r := ByteToLine(lineStarts, offset);
    assert r >= 1 && lineStarts[r - 1] <= offset;
    if r > 1 {
      CountNewlinesMonotone(content, lineStarts[r - 1], offset);
    }
    if r < |lineStarts| {
      var next := lineStarts[r];
      assert offset < next;
      CountUpToNewline(content, next - 1);
      CountNewlinesMonotone(content, offset, next - 1);
    } else {
      CountNewlinesMonotone(content, offset, |content|);
      assert content[..|content|] == content;
    }
  }

  // ---- slicing ----

  function SafeSlice(content: Bytes, start: nat, end: nat): Bytes {
    if start >= end || start >= |content| then []
    else
      var e := if end <= |content| then end else |content|;
      content[FloorBoundary(content, start)..CeilBoundary(content, e)]
  }

  lemma SafeSliceExact(content: Bytes, start: nat, end: nat)
    requires start <= end <= |content| && IsBoundary(content, start) && IsBoundary(content, end)
    ensures SafeSlice(content, start, end) == content[start..end]
  {
  }

  /** The position of the first newline in `[lo, hi)`, or `hi`. */
  function FindNewline(s: Bytes, lo: nat, hi: nat): (r: nat)
    requires lo <= hi <= |s|
    ensures lo <= r <= hi && (r < hi ==> s[r] == NEWLINE)
    ensures forall k :: lo <= k < r ==> s[k] != NEWLINE
    decreases hi - lo
  {
    if lo == hi || s[lo] == NEWLINE then lo else FindNewline(s, lo + 1, hi)
  }

  /** Where the last line of `s[lo..hi]` starts. */
  function LastLineStart(s: Bytes, lo: nat, hi: nat): (r: nat)
    requires lo <= hi <= |s|
    ensures lo <= r <= hi && (r > lo ==> s[r - 1] == NEWLINE)
    ensures forall k :: r <= k < hi ==> s[k] != NEWLINE
    decreases hi - lo
  {
    if lo == hi || s[hi - 1] == NEWLINE then hi else LastLineStart(s, lo, hi - 1)
  }

  // ---- trimming ----

  /** `[a, b)` is `[lo, hi)` without its leading and trailing blank lines: what is
      cut is blank and is cut at line ends, and the first and last lines kept are not blank. */
  ghost predicate TrimmedTo(c: Bytes, lo: nat, hi: nat, a: nat, b: nat) {
    && lo <= a < b <= hi <= |c|
    && Blank(c[lo..a]) && (a == lo || c[a - 1] == NEWLINE)
    && Blank(c[b..hi]) && (b == hi || c[b] == NEWLINE)
    && !Blank(c[a..FindNewline(c, a, b)])
    && !Blank(c[LastLineStart(c, a, b)..b])
  }

  /** `ch` is the chunk that flushing `[lo, hi)` under `heading` yields. */
  ghost predicate ChunkOf(c: Bytes, lo: nat, hi: nat, heading: Bytes, ch: Chunk) {
    exists a: nat, b: nat ::
      && TrimmedTo(c, lo, hi, a, b)
      && ch == Chunk(c[a..b], heading, LineOf(c, a), LineOf(c, b - 1))
  }

  /** A flush of a blank range emits nothing; any other appends one trimmed chunk. */
  ghost predicate Flushed(c: Bytes, lo: nat, hi: nat, heading: Bytes, before: seq<Chunk>, after: seq<Chunk>)
    requires lo <= hi <= |c|
  {
    if Blank(c[lo..hi]) then after == before
    else |after| == |before| + 1 && after[..|before|] == before
         && ChunkOf(c, lo, hi, heading, after[|before|])
  }

  lemma BlankTwo(c: Bytes, lo: nat, mid: nat, hi: nat)
    requires lo <= mid <= hi <= |c| && Blank(c[lo..mid])
    ensures Blank(c[lo..hi]) <==> Blank(c[mid..hi])
  {
    assert c[lo..hi] == c[lo..mid] + c[mid..hi];
    BlankAppend(c[lo..mid], c[mid..hi]);
  }

  lemma BlankLineEnd(c: Bytes, lo: nat, nl: nat, hi: nat)
    requires lo <= nl < hi <= |c| && c[nl] == NEWLINE && Blank(c[lo..hi])
    ensures Blank(c[lo..nl]) && Blank(c[nl..hi]) && Blank(c[nl + 1..hi])
  {
    assert c[lo..hi] == c[lo..nl] + c[nl..hi];
    BlankCutNewline(c[lo..nl], c[nl..hi]);
    BlankTwo(c, lo, nl, hi);
    assert c[nl..hi][1..] == c[nl + 1..hi];
  }

  lemma BlankNewline(c: Bytes, nl: nat, hi: nat)
    requires nl < hi <= |c| && c[nl] == NEWLINE
    ensures Blank(c[nl..hi]) <==> Blank(c[nl + 1..hi])
  {
    assert c[nl..hi][1..] == c[nl + 1..hi];
  }

  lemma BlankEmpty(c: Bytes, i: nat)
    requires i <= |c|
    ensures Blank(c[i..i])
  {
  }

  lemma BoundaryAfterNewline(content: Bytes, i: nat)
    requires WellFormed(content) && i < |content| && content[i] == NEWLINE
    ensures IsBoundary(content, i) && IsBoundary(content, i + 1)
  {
  }

  method TrimLeading(content: Bytes, lo: nat, hi: nat) returns (start: nat)
    requires WellFormed(content) && lo < hi <= |content|
    requires IsBoundary(content, lo) && IsBoundary(content, hi)
    ensures start >= hi <==> Blank(content[lo..hi])
    ensures start < hi ==>
              && lo <= start && IsBoundary(content, start)
              && Blank(content[lo..start]) && (start == lo || content[start - 1] == NEWLINE)
              && !Blank(content[start..FindNewline(content, start, hi)])
  {
    hide Blank, WellFormed, FloorBoundary, CeilBoundary, SafeSlice;
    BlankEmpty(content, lo);
    start := lo;
    while start < hi
      invariant lo <= start <= hi + 1
      invariant start <= hi ==>
                  && IsBoundary(content, start) && Blank(content[lo..start])
                  && (start == lo || content[start - 1] == NEWLINE)
      invariant start > hi ==> Blank(content[lo..hi])
    {
      var lineEnd := FindNewline(content, start, hi);
      if lineEnd < hi { BoundaryAfterNewline(content, lineEnd); }
      SafeSliceExact(content, start, lineEnd);
      if Blank(SafeSlice(content, start, lineEnd)) {
        BlankTwo(content, lo, start, lineEnd);
        if lineEnd < hi {
          BlankEmpty(content, lineEnd + 1);
          BlankNewline(content, lineEnd, lineEnd + 1);
          BlankTwo(content, lo, lineEnd, lineEnd + 1);
        }
        start := lineEnd + 1;
      } else {
        if Blank(content[lo..hi]) {
          BlankTwo(content, lo, start, hi);
          if lineEnd < hi {
            BlankLineEnd(content, start, lineEnd, hi);
          }
        }
        break;
      }
    }
  }

  method TrimTrailing(content: Bytes, start: nat, hi: nat) returns (end: nat)
    requires WellFormed(content) && start < hi <= |content|
    requires IsBoundary(content, start) && IsBoundary(content, hi)
    requires !Blank(content[start..FindNewline(content, start, hi)])
    ensures start < end <= hi && IsBoundary(content, end)
    ensures Blank(content[end..hi]) && (end == hi || content[end] == NEWLINE)
    ensures !Blank(content[start..FindNewline(content, start, end)])
    ensures !Blank(content[LastLineStart(content, start, end)..end])
  {
    hide Blank, WellFormed, FloorBoundary, CeilBoundary, SafeSlice;
    BlankEmpty(content, start);
    BlankEmpty(content, hi);
    end := hi;
    ghost var firstEnd := FindNewline(content, start, hi);
    while true
      invariant start < firstEnd <= end <= hi && IsBoundary(content, end)
      invariant Blank(content[end..hi]) && (end == hi || content[end] == NEWLINE)
      invariant FindNewline(content, start, end) == firstEnd
      decreases end
    {
      var lastLine := LastLineStart(content, start, end);
      if lastLine > start { BoundaryAfterNewline(content, lastLine - 1); }
      SafeSliceExact(content, lastLine, end);
      if lastLine == start {
        // No newline left: this is the first line, which was kept because it is
        // not blank, so the single-line drop of the original cannot happen here.
        assert !Blank(SafeSlice(content, start, end));
        break;
      }
      if !Blank(SafeSlice(content, lastLine, end)) {
        break;
      }
      BlankTwo(content, lastLine, end, hi);
      BlankNewline(content, lastLine - 1, hi);
      end := lastLine - 1;
    }
  }

  lemma EmitChunk(c: Bytes, lo: nat, hi: nat, heading: Bytes, chunks: seq<Chunk>, a: nat, b: nat)
    requires TrimmedTo(c, lo, hi, a, b) && !Blank(c[lo..hi])
    ensures Flushed(c, lo, hi, heading, chunks,
                    chunks + [Chunk(c[a..b], heading, LineOf(c, a), LineOf(c, b - 1))])
  {
  }

  /** Flush the pending range `[chunkStart, chunkEnd)`. */
  method FlushBuf(content: Bytes, lineStarts: seq<nat>, chunkStart: Option<nat>, chunkEnd: nat,
                  heading: Bytes, chunks: seq<Chunk>)
    returns (chunkStart': Option<nat>, chunks': seq<Chunk>)
    requires WellFormed(content) && LineTable(content, lineStarts)
    requires chunkStart.Some? && chunkStart.value < chunkEnd ==>
               chunkEnd <= |content| && IsBoundary(content, chunkStart.value) && IsBoundary(content, chunkEnd)
    ensures chunkStart' == None
    ensures if chunkStart.Some? && chunkStart.value < chunkEnd
            then Flushed(content, chunkStart.value, chunkEnd, heading, chunks, chunks')
            else chunks' == chunks
  {
    hide Blank, WellFormed, FloorBoundary, CeilBoundary, SafeSlice, ByteToLine, ChunkOf;
    if chunkStart.None? || chunkStart.value >= chunkEnd {
      return None, chunks;
    }
    var lo := chunkStart.value;
    var start := TrimLeading(content, lo, chunkEnd);
    if start >= chunkEnd {
      return None, chunks;
    }
    var end := TrimTrailing(content, start, chunkEnd);
    // The last line kept is not blank, so the range never ends in a newline and
    // the original's final single-newline strip has nothing to do.
    BlankEmpty(content, end);
    assert content[end - 1] != NEWLINE;
    SafeSliceExact(content, start, end);
    ByteToLineCounts(content, lineStarts, start);
    ByteToLineCounts(content, lineStarts, end - 1);
    var chunk := Chunk(SafeSlice(content, start, end), heading,
                       ByteToLine(lineStarts, start), ByteToLine(lineStarts, end - 1));
    EmitChunk(content, lo, chunkEnd, heading, chunks, start, end);
    return None, chunks + [chunk];
  }

  // ---- what trimming means ----

  /** Trimming drops only white space: every byte of the flushed range is in the
      chunk's slice or belongs to a white-space character. */
  lemma TrimKeepsText(c: Bytes, lo: nat, hi: nat, a: nat, b: nat, i: nat)
    requires TrimmedTo(c, lo, hi, a, b) && lo <= i < hi
    ensures a <= i < b || InWhitespace(c, i)
  {
    if i < a {
      BlankInside(c, lo, a, i);
    } else if i >= b {
      BlankInside(c, b, hi, i);
    }
  }

  /** Two trims of the same range start at the same byte ... */
  lemma TrimStartUnique(c: Bytes, lo: nat, hi: nat, a: nat, b: nat, a': nat, b': nat)
    requires TrimmedTo(c, lo, hi, a, b) && TrimmedTo(c, lo, hi, a', b')
    ensures a' <= a
  {
    if a < a' {
      BlankTwo(c, lo, a, a');
      var e := FindNewline(c, a, b);
      if e < a' {
        if e == b == hi { assert false; }
        BlankLineEnd(c, a, e, a');
      }
    }
  }

  /** ... and end at the same byte, so the chunk of a range is determined. */
  lemma TrimUnique(c: Bytes, lo: nat, hi: nat, a: nat, b: nat, a': nat, b': nat)
    requires TrimmedTo(c, lo, hi, a, b) && TrimmedTo(c, lo, hi, a', b')
    ensures a == a' && b == b'
  {
    TrimStartUnique(c, lo, hi, a, b, a', b');
    TrimStartUnique(c, lo, hi, a', b', a, b);
    if b < b' {
      TrimEndUnique(c, a, b, hi, b');
    } else if b' < b {
      TrimEndUnique(c, a, b', hi, b);
    }
  }

  lemma TrimEndUnique(c: Bytes, a: nat, b: nat, hi: nat, b': nat)
    requires a < b < b' <= hi <= |c| && c[b] == NEWLINE && Blank(c[b..hi])
    requires b' == hi || c[b'] == NEWLINE
    ensures Blank(c[LastLineStart(c, a, b')..b'])
  {
    var l := LastLineStart(c, a, b');
    BlankLineEnd(c, b, l - 1, hi);
    if b' < hi {
      BlankLineEnd(c, l, b', hi);
    }
  }
}
