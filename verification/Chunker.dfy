/**
 The Markdown chunker's event loop (`chunk_markdown` in src/chunker.rs). The
 parser is an arbitrary stream of events with byte ranges; the loop grows a
 pending range, flushes it at headings and at the soft cap, and tracks the
 heading stack and the code-block depth.
 */
module Chunker {
  import opened Common
  import opened Utf8Text
  import opened ChunkFlush
  import opened ChunkParts
  import opened ChunkSplit

  datatype Kind =
    | HeadingStart(level: nat)
    | HeadingEnd
    | CodeStart
    | CodeEnd
    | Text(text: Bytes)
    | Other

  datatype Event = Event(kind: Kind, start: nat, end: nat)

  datatype Heading = Heading(level: nat, title: Bytes)

  /** A pending range at the moment it is flushed, with the breadcrumb it gets. */
  datatype Flush = Flush(lo: nat, hi: nat, heading: Bytes)

  datatype State = State(
    chunkStart: Option<nat>, chunkEnd: nat,
    inHeading: bool, level: Option<nat>, title: Bytes,
    codeDepth: nat, stack: seq<Heading>, crumb: Bytes,
    flushes: seq<Flush>)

  /** Non-empty ranges lie in the text, on character boundaries. */
  ghost predicate ValidRange(content: Bytes, e: Event) {
    e.start < e.end ==> e.end <= |content| && IsBoundary(content, e.start) && IsBoundary(content, e.end)
  }

  ghost predicate ValidEvents(content: Bytes, events: seq<Event>) {
    forall i :: 0 <= i < |events| ==> ValidRange(content, events[i])
  }

  // ---- breadcrumbs ----

  const SEPARATOR: Bytes := [32, 62, 32]

  function Breadcrumb(stack: seq<Heading>): Bytes {
    if |stack| == 0 then []
    else if |stack| == 1 then stack[0].title
    else Breadcrumb(stack[..|stack| - 1]) + SEPARATOR + stack[|stack| - 1].title
  }

  /** `retain(|l| l < level)`. */
  function Retain(stack: seq<Heading>, level: nat): seq<Heading> {
    if stack == [] then []
    else Retain(stack[..|stack| - 1], level)
         + (if stack[|stack| - 1].level < level then [stack[|stack| - 1]] else [])
  }

  function PushHeading(stack: seq<Heading>, h: Heading): seq<Heading> {
    if h.title == [] then stack else Retain(stack, h.level) + [h]
  }

  // ---- the loop as a transition function ----

  function Extend(st: State, start: nat, end: nat): State {
    if start >= end then st
    else match st.chunkStart
      case None => st.(chunkStart := Some(start), chunkEnd := end)
      case Some(cs) => st.(chunkStart := Some(if start < cs then start else cs),
                           chunkEnd := if end > st.chunkEnd then end else st.chunkEnd)
  }

  function FlushState(st: State): State {
    match st.chunkStart
    case None => st
    case Some(lo) =>
      if lo >= st.chunkEnd then st.(chunkStart := None)
      else st.(chunkStart := None, flushes := st.flushes + [Flush(lo, st.chunkEnd, st.crumb)])
  }

  function EndHeading(st: State): State {
    var name := Trim(st.title);
    var closed := st.(level := None, title := [], inHeading := false);
    if st.level.Some? && name != [] then
      var stack := PushHeading(st.stack, Heading(st.level.value, name));
      closed.(stack := stack, crumb := Breadcrumb(stack))
    else closed
  }

  function Absorb(st: State, e: Event): State {
    match e.kind
    case HeadingStart(l) => FlushState(st).(inHeading := true, level := Some(l), title := [])
    case HeadingEnd => EndHeading(st)
    case CodeStart => Extend(st.(codeDepth := st.codeDepth + 1), e.start, e.end)
    case CodeEnd => Extend(st.(codeDepth := if st.codeDepth == 0 then 0 else st.codeDepth - 1), e.start, e.end)
    case Text(t) => if st.inHeading then st.(title := st.title + t) else Extend(st, e.start, e.end)
    case Other => if st.inHeading then st else Extend(st, e.start, e.end)
  }

  /** Over the soft cap, outside code blocks and headings. */
  predicate ShouldFlush(st: State) {
    st.codeDepth == 0 && !st.inHeading && st.chunkStart.Some? && st.chunkEnd - st.chunkStart.value >= MAX_CHUNK_BYTES
  }

  function Step(st: State, e: Event): State {
    var next := Absorb(st, e);
    if ShouldFlush(next) then FlushState(next) else next
  }

  const INIT := State(None, 0, false, None, [], 0, [], [], [])

  function Run(events: seq<Event>): State {
    if events == [] then INIT else Step(Run(events[..|events| - 1]), events[|events| - 1])
  }

  /** Every range flushed over a whole document. */
  function AllFlushes(events: seq<Event>): seq<Flush> { FlushState(Run(events)).flushes }

  lemma RunPush(events: seq<Event>, k: nat)
    requires k < |events|
    ensures Run(events[..k + 1]) == Step(Run(events[..k]), events[k])
  {
    assert events[..k + 1][..k] == events[..k];
  }

  // ---- the loop as a program ----

  /** `chunks` are the chunks of `flushes` in order; blank flushes emit none. */
  ghost predicate Emitted(content: Bytes, flushes: seq<Flush>, chunks: seq<Chunk>) {
    if flushes == [] then chunks == []
    else
      var front, f := flushes[..|flushes| - 1], flushes[|flushes| - 1];
      && f.lo < f.hi <= |content| && IsBoundary(content, f.lo)
      && if Blank(content[f.lo..f.hi]) then Emitted(content, front, chunks)
         else chunks != [] && ChunkOf(content, f.lo, f.hi, f.heading, chunks[|chunks| - 1])
              && Emitted(content, front, chunks[..|chunks| - 1])
  }

  lemma EmittedFlush(content: Bytes, flushes: seq<Flush>, f: Flush, chunks: seq<Chunk>, chunks': seq<Chunk>)
    requires Emitted(content, flushes, chunks) && f.lo < f.hi <= |content| && IsBoundary(content, f.lo)
    requires Flushed(content, f.lo, f.hi, f.heading, chunks, chunks')
    ensures Emitted(content, flushes + [f], chunks')
  {
    hide Blank, ChunkOf;
    assert (flushes + [f])[..|flushes|] == flushes;
    if !Blank(content[f.lo..f.hi]) {
      assert chunks'[..|chunks'| - 1] == chunks;
    }
  }

  ghost predicate PendingValid(content: Bytes, chunkStart: Option<nat>, chunkEnd: nat) {
    chunkStart.Some? ==>
      && chunkStart.value < chunkEnd <= |content|
      && IsBoundary(content, chunkStart.value) && IsBoundary(content, chunkEnd)
  }

  /** The pending range becomes the least range that covers it and `[start, end)`. */
  method ExtendBuf(chunkStart: Option<nat>, chunkEnd: nat, start: nat, end: nat)
    returns (chunkStart': Option<nat>, chunkEnd': nat)
    ensures start >= end ==> chunkStart' == chunkStart && chunkEnd' == chunkEnd
    ensures start < end ==> chunkStart'.Some? && chunkStart'.value <= start && end <= chunkEnd'
    ensures start < end && chunkStart.None? ==> chunkStart' == Some(start) && chunkEnd' == end
    ensures start < end && chunkStart.Some? ==>
              && chunkStart'.value <= chunkStart.value && chunkEnd <= chunkEnd'
              && chunkStart'.value in {start, chunkStart.value} && chunkEnd' in {end, chunkEnd}
  {
    chunkStart', chunkEnd' := chunkStart, chunkEnd;
    if start >= end {
      return;
    }
    match chunkStart {
      case None =>
        chunkStart', chunkEnd' := Some(start), end;
      case Some(cs) =>
        if start < cs {
          chunkStart' := Some(start);
        }
        if end > chunkEnd {
          chunkEnd' := end;
        }
    }
  }

  lemma ExtendValid(content: Bytes, st: State, e: Event)
    requires PendingValid(content, st.chunkStart, st.chunkEnd) && ValidRange(content, e)
    ensures var x := Extend(st, e.start, e.end); PendingValid(content, x.chunkStart, x.chunkEnd)
  {
  }

  /** What the loop maintains between its variables and the chunks emitted so far. */
  ghost predicate LoopInv(content: Bytes, st: State, chunks: seq<Chunk>) {
    PendingValid(content, st.chunkStart, st.chunkEnd) && Emitted(content, st.flushes, chunks)
  }

  method FlushInto(content: Bytes, lineStarts: seq<nat>, st: State, chunks: seq<Chunk>)
    returns (st': State, chunks': seq<Chunk>)
    requires WellFormed(content) && LineTable(content, lineStarts) && LoopInv(content, st, chunks)
    ensures st' == FlushState(st) && LoopInv(content, st', chunks')
  {
    hide WellFormed, LineTable, Emitted, Flushed, IsBoundary;
    var chunkStart: Option<nat>;
    chunkStart, chunks' := FlushBuf(content, lineStarts, st.chunkStart, st.chunkEnd, st.crumb, chunks);
    st' := st.(chunkStart := chunkStart);
    if st.chunkStart.Some? {
      var f := Flush(st.chunkStart.value, st.chunkEnd, st.crumb);
      EmittedFlush(content, st.flushes, f, chunks, chunks');
      st' := st'.(flushes := st.flushes + [f]);
    }
  }

  method ExtendInto(content: Bytes, st: State, e: Event, ghost chunks: seq<Chunk>) returns (st': State)
    requires LoopInv(content, st, chunks) && ValidRange(content, e)
    ensures st' == Extend(st, e.start, e.end) && LoopInv(content, st', chunks)
  {
    hide Emitted, IsBoundary;
    ExtendValid(content, st, e);
    var chunkStart, chunkEnd := ExtendBuf(st.chunkStart, st.chunkEnd, e.start, e.end);
    st' := st.(chunkStart := chunkStart, chunkEnd := chunkEnd);
  }

  /** One turn of the loop: absorb the event, then flush on size. */
  method HandleEvent(content: Bytes, lineStarts: seq<nat>, st: State, chunks: seq<Chunk>, e: Event)
    returns (st': State, chunks': seq<Chunk>)
    requires WellFormed(content) && LineTable(content, lineStarts)
    requires LoopInv(content, st, chunks) && ValidRange(content, e)
    ensures st' == Step(st, e) && LoopInv(content, st', chunks')
  {
    hide WellFormed, LineTable, Emitted, PendingValid, Retain, Breadcrumb, Trim, Extend, FlushState;
    st', chunks' := st, chunks;
    match e.kind {
      case HeadingStart(l) =>
        st', chunks' := FlushInto(content, lineStarts, st', chunks');
        st' := st'.(inHeading := true, level := Some(l), title := []);
      case HeadingEnd =>
        if st'.level.Some? {
          var name := Trim(st'.title);
          if name != [] {
            st' := st'.(stack := Retain(st'.stack, st'.level.value) + [Heading(st'.level.value, name)]);
            st' := st'.(crumb := Breadcrumb(st'.stack));
          }
        }
        st' := st'.(level := None, title := [], inHeading := false);
      case CodeStart =>
        st' := st'.(codeDepth := st'.codeDepth + 1);
        st' := ExtendInto(content, st', e, chunks');
      case CodeEnd =>
        st' := st'.(codeDepth := if st'.codeDepth == 0 then 0 else st'.codeDepth - 1);
        st' := ExtendInto(content, st', e, chunks');
      case Text(t) =>
        if st'.inHeading {
          st' := st'.(title := st'.title + t);
        } else {
          st' := ExtendInto(content, st', e, chunks');
        }
      case Other =>
        if !st'.inHeading {
          st' := ExtendInto(content, st', e, chunks');
        }
    }
    if ShouldFlush(st') {
      st', chunks' := FlushInto(content, lineStarts, st', chunks');
    }
  }

  /** The chunks before re-splitting. */
  method CollectChunks(content: Bytes, events: seq<Event>) returns (chunks: seq<Chunk>)
    requires WellFormed(content) && ValidEvents(content, events)
    ensures Emitted(content, AllFlushes(events), chunks)
  {
    hide WellFormed, LineTable, Emitted, PendingValid, Step, FlushState;
    var lineStarts := LineStartOffsets(content);
    var st := INIT;
    chunks := [];
    StartInv(content);
    for i := 0 to |events|
      invariant st == Run(events[..i]) && LoopInv(content, st, chunks)
    {
      RunPush(events, i);
      st, chunks := HandleEvent(content, lineStarts, st, chunks, events[i]);
    }
    assert events[..|events|] == events;
    st, chunks := FlushInto(content, lineStarts, st, chunks);
  }

  lemma StartInv(content: Bytes)
    ensures LoopInv(content, INIT, [])
  {
  }
  /** `chunk_markdown`: collect, then split every chunk over the hard cap in place. */
  method ChunkMarkdown(content: Bytes, events: seq<Event>) returns (chunks: seq<Chunk>)
    requires WellFormed(content) && ValidEvents(content, events)
    ensures Chunked(content, events, chunks)
  {
    hide WellFormed, Emitted, AllFlushes, SplitOf, ValidEvents;
    var pre := CollectChunks(content, events);
    chunks := [];
    for i := 0 to |pre|
      invariant Resplit(pre[..i], chunks)
    {
      assert pre[..i + 1][..i] == pre[..i];
      if |pre[i].text| > MAX_CODE_CHUNK_BYTES {
        EmittedWellFormed(content, AllFlushes(events), pre, i);
        var pieces := SplitOversizedCode(pre[i]);
        ResplitPush(pre[..i], chunks, pre[i], pieces);
        chunks := chunks + pieces;
      } else {
        ResplitPush(pre[..i], chunks, pre[i], [pre[i]]);
        chunks := chunks + [pre[i]];
      }
      assert pre[..i + 1] == pre[..i] + [pre[i]];
    }
    assert pre[..|pre|] == pre;
  }

  /** `chunks` is the trimmed chunks of the flushed ranges, those over the hard cap re-split. */
  ghost predicate Chunked(content: Bytes, events: seq<Event>, chunks: seq<Chunk>) {
    exists pre :: Emitted(content, AllFlushes(events), pre) && Resplit(pre, chunks)
  }

  /** `chunks` is `pre` with every chunk over the hard cap replaced by its pieces. */
  ghost predicate Resplit(pre: seq<Chunk>, chunks: seq<Chunk>) {
    if pre == [] then chunks == []
    else exists n: nat :: n <= |chunks| && Resplit(pre[..|pre| - 1], chunks[..n])
                          && PiecesOf(pre[|pre| - 1], chunks[n..])
  }

  ghost predicate PiecesOf(c: Chunk, pieces: seq<Chunk>) {
    if |c.text| > MAX_CODE_CHUNK_BYTES then SplitOf(c, pieces) else pieces == [c]
  }

  lemma ResplitPush(pre: seq<Chunk>, chunks: seq<Chunk>, c: Chunk, pieces: seq<Chunk>)
    requires Resplit(pre, chunks) && PiecesOf(c, pieces)
    ensures Resplit(pre + [c], chunks + pieces)
  {
    hide PiecesOf;
    var all := chunks + pieces;
    assert (pre + [c])[..|pre|] == pre && all[..|chunks|] == chunks && all[|chunks|..] == pieces;
  }

  lemma ChunkWellFormed(content: Bytes, f: Flush, c: Chunk)
    requires WellFormed(content) && ChunkOf(content, f.lo, f.hi, f.heading, c) && IsBoundary(content, f.lo)
    ensures WellFormed(c.text)
  {
    hide WellFormed, Blank;
    var a: nat, b: nat :| TrimmedTo(content, f.lo, f.hi, a, b) && c.text == content[a..b];
    if a > f.lo { BoundaryAfterNewline(content, a - 1); }
    SliceWellFormed(content, a, b);
  }

  lemma {:induction false} EmittedWellFormed(content: Bytes, flushes: seq<Flush>, chunks: seq<Chunk>, i: nat)
    requires WellFormed(content) && Emitted(content, flushes, chunks) && i < |chunks|
    ensures WellFormed(chunks[i].text)
    decreases |flushes|
  {
    hide WellFormed, Blank, ChunkOf;
    var f := flushes[|flushes| - 1];
    if Blank(content[f.lo..f.hi]) {
      EmittedWellFormed(content, flushes[..|flushes| - 1], chunks, i);
    } else if i < |chunks| - 1 {
      EmittedWellFormed(content, flushes[..|flushes| - 1], chunks[..|chunks| - 1], i);
    } else {
      ChunkWellFormed(content, f, chunks[i]);
    }
  }
}
