/**
 What the chunker guarantees for every event stream: nothing but headings and
 white space is lost, code blocks stay whole, and every chunk carries the
 breadcrumb of the section its events stand in.
 */
module ChunkerProofs {
  import opened Common
  import opened Utf8Text
  import opened ChunkFlush
  import opened ChunkParts
  import opened ChunkSplit
  import opened Chunker

  // ---- which events reach a chunk ----

  /** The last heading event is a start. */
  predicate InsideHeading(events: seq<Event>) {
    if events == [] then false
    else match events[|events| - 1].kind
      case HeadingStart(_) => true
      case HeadingEnd => false
      case _ => InsideHeading(events[..|events| - 1])
  }

  /** Event `k` contributes its bytes: a code-block event, or any event outside headings. */
  ghost predicate Buffered(events: seq<Event>, k: nat)
    requires k < |events|
  {
    var e := events[k];
    && e.start < e.end
    && match e.kind
       case HeadingStart(_) => false
       case HeadingEnd => false
       case CodeStart => true
       case CodeEnd => true
       case _ => !InsideHeading(events[..k])
  }

  /** The flush event `k` ends up in. */
  function FlushIndex(events: seq<Event>, k: nat): nat
    requires k <= |events|
  {
    |Run(events[..k]).flushes|
  }

  lemma HeadingFlagStep(st: State, e: Event)
    requires st.inHeading == st.level.Some?
    ensures Step(st, e).inHeading == Step(st, e).level.Some?
         == (e.kind.HeadingStart? || (st.inHeading && !e.kind.HeadingEnd?))
  {
    hide Trim, PushHeading, Breadcrumb;
  }

  lemma {:induction false} InsideHeadingRun(events: seq<Event>)
    ensures Run(events).inHeading == Run(events).level.Some? == InsideHeading(events)
  {
    hide Step;
    if events != [] {
      InsideHeadingRun(events[..|events| - 1]);
      HeadingFlagStep(Run(events[..|events| - 1]), events[|events| - 1]);
    }
  }

  /** `[lo, hi)` is inside the flush numbered `f`, or inside the pending range that will become it. */
  ghost predicate Lands(st: State, f: nat, lo: nat, hi: nat) {
    || (|st.flushes| == f && st.chunkStart.Some? && st.chunkStart.value <= lo && hi <= st.chunkEnd)
    || (|st.flushes| > f && st.flushes[f].lo <= lo && hi <= st.flushes[f].hi)
  }

  /** The same, for the breadcrumb the flush carries. */
  ghost predicate Labels(st: State, f: nat, crumb: Bytes) {
    || (|st.flushes| == f && st.chunkStart.Some? && st.crumb == crumb)
    || (|st.flushes| > f && st.flushes[f].heading == crumb)
  }

  lemma LandsStep(st: State, e: Event, f: nat, lo: nat, hi: nat)
    requires lo < hi && Lands(st, f, lo, hi)
    ensures Lands(Step(st, e), f, lo, hi)
  {
    hide Trim, PushHeading, Breadcrumb, Extend, FlushState;
    LandsExtend(st, e.start, e.end, f, lo, hi);
    LandsExtend(st.(codeDepth := st.codeDepth + 1), e.start, e.end, f, lo, hi);
    LandsExtend(st.(codeDepth := if st.codeDepth == 0 then 0 else st.codeDepth - 1), e.start, e.end, f, lo, hi);
    LandsFlush(st, f, lo, hi);
    LandsFlush(Absorb(st, e), f, lo, hi);
  }

  lemma LandsExtend(st: State, start: nat, end: nat, f: nat, lo: nat, hi: nat)
    requires Lands(st, f, lo, hi)
    ensures Lands(Extend(st, start, end), f, lo, hi)
  {
  }

  lemma LandsFlush(st: State, f: nat, lo: nat, hi: nat)
    requires lo < hi && Lands(st, f, lo, hi)
    ensures Lands(FlushState(st), f, lo, hi)
  {
  }

  lemma {:induction false} LandsRun(events: seq<Event>, k: nat, n: nat, f: nat, lo: nat, hi: nat)
    requires k <= n <= |events| && lo < hi && Lands(Run(events[..k]), f, lo, hi)
    ensures Lands(Run(events[..n]), f, lo, hi)
  {
    hide Run, Step, Lands;
    if k < n {
      LandsRun(events, k, n - 1, f, lo, hi);
      RunPush(events, n - 1);
      LandsStep(Run(events[..n - 1]), events[n - 1], f, lo, hi);
    }
  }

  lemma BufferedLands(st: State, e: Event)
    requires e.start < e.end && !e.kind.HeadingStart? && !e.kind.HeadingEnd?
    requires !e.kind.CodeStart? && !e.kind.CodeEnd? ==> !st.inHeading
    ensures Lands(Step(st, e), |st.flushes|, e.start, e.end)
    ensures Labels(Step(st, e), |st.flushes|, st.crumb)
  {
  }

  /** A buffered event's whole range lies in one flushed range. */
  lemma EventLands(events: seq<Event>, k: nat)
    requires k < |events| && Buffered(events, k)
    ensures var f := FlushIndex(events, k);
            && f < |AllFlushes(events)|
            && AllFlushes(events)[f].lo <= events[k].start && events[k].end <= AllFlushes(events)[f].hi
  {
    hide Run, Step;
    var f, e := FlushIndex(events, k), events[k];
    InsideHeadingRun(events[..k]);
    RunPush(events, k);
    BufferedLands(Run(events[..k]), e);
    LandsRun(events, k + 1, |events|, f, e.start, e.end);
    assert events[..|events|] == events;
  }

  // ---- a flushed range is the hull of its events ----

  /** An event of flush `f` begins, or ends, at `x`. */
  ghost predicate Touches(events: seq<Event>, f: nat, x: nat, atStart: bool) {
    exists k: nat :: k < |events| && Buffered(events, k) && FlushIndex(events, k) == f
                     && (if atStart then events[k].start else events[k].end) == x
  }

  /** Range `f` of a state: a flush, or the pending range that will become it. */
  function RangeOf(st: State, f: nat): Option<(nat, nat)> {
    if f < |st.flushes| then Some((st.flushes[f].lo, st.flushes[f].hi))
    else if f == |st.flushes| && st.chunkStart.Some? then Some((st.chunkStart.value, st.chunkEnd))
    else None
  }

  /** The event adds its bytes to the pending range. */
  predicate Extends(st: State, e: Event) {
    && e.start < e.end && !e.kind.HeadingStart? && !e.kind.HeadingEnd?
    && (e.kind.CodeStart? || e.kind.CodeEnd? || !st.inHeading)
  }

  /** Where a bound of range `f` comes from: it was there, or the event brings it. */
  predicate BoundFrom(before: Option<(nat, nat)>, after: (nat, nat), grows: bool, e: Event) {
    && ((before.Some? && after.0 == before.value.0) || (grows && after.0 == e.start))
    && ((before.Some? && after.1 == before.value.1) || (grows && after.1 == e.end))
  }

  lemma RangeStep(st: State, e: Event, f: nat)
    requires RangeOf(Step(st, e), f).Some?
    ensures f <= |st.flushes|
    ensures f < |st.flushes| ==> RangeOf(Step(st, e), f) == RangeOf(st, f)
    ensures f == |st.flushes| ==> BoundFrom(RangeOf(st, f), RangeOf(Step(st, e), f).value, Extends(st, e), e)
  {
    hide Trim, PushHeading, Breadcrumb;
  }

  lemma TouchesPush(events: seq<Event>, e: Event, f: nat, x: nat, atStart: bool)
    requires Touches(events, f, x, atStart)
    ensures Touches(events + [e], f, x, atStart)
  {
    hide Run, InsideHeading;
    var all := events + [e];
    var k: nat :| k < |events| && Buffered(events, k) && FlushIndex(events, k) == f
      && (if atStart then events[k].start else events[k].end) == x;
    assert all[..k] == events[..k] && all[k] == events[k];
  }

  lemma TouchesLast(events: seq<Event>, e: Event)
    requires Extends(Run(events), e)
    ensures Touches(events + [e], |Run(events).flushes|, e.start, true)
    ensures Touches(events + [e], |Run(events).flushes|, e.end, false)
  {
    hide Run;
    var all, k := events + [e], |events|;
    InsideHeadingRun(events);
    assert all[..k] == events && all[k] == e;
    assert Buffered(all, k);
  }

  lemma {:induction false} RangeTouches(events: seq<Event>, f: nat)
    requires RangeOf(Run(events), f).Some?
    ensures Touches(events, f, RangeOf(Run(events), f).value.0, true)
    ensures Touches(events, f, RangeOf(Run(events), f).value.1, false)
  {
    if events != [] {
      hide Step, Touches, RangeOf, Extends;
      var front, e := events[..|events| - 1], events[|events| - 1];
      assert events == front + [e];
      var st := Run(front);
      RangeStep(st, e, f);
      var r := RangeOf(Run(events), f).value;
      if Extends(st, e) {
        TouchesLast(front, e);
      }
      if RangeOf(st, f).Some? {
        RangeTouches(front, f);
        TouchesPush(front, e, f, RangeOf(st, f).value.0, true);
        TouchesPush(front, e, f, RangeOf(st, f).value.1, false);
      }
    }
  }

  /** A flushed range is the hull of its events and no more: one of them begins where it
      begins, one ends where it ends, and all lie inside. */
  lemma FlushIsHull(events: seq<Event>, f: nat)
    requires f < |AllFlushes(events)|
    ensures Touches(events, f, AllFlushes(events)[f].lo, true) && Touches(events, f, AllFlushes(events)[f].hi, false)
    ensures forall k: nat :: k < |events| && Buffered(events, k) && FlushIndex(events, k) == f ==>
              AllFlushes(events)[f].lo <= events[k].start && events[k].end <= AllFlushes(events)[f].hi
  {
    hide Run, Touches, Buffered;
    PendingNonEmpty(events);
    RangeTouches(events, f);
    forall k: nat | k < |events| && Buffered(events, k) && FlushIndex(events, k) == f
      ensures AllFlushes(events)[f].lo <= events[k].start && events[k].end <= AllFlushes(events)[f].hi
    {
      EventLands(events, k);
    }
  }

  // ---- code blocks stay whole ----

  /** Events `k` to `m` are one code block: no other code end and no heading between. */
  ghost predicate CodeBlock(events: seq<Event>, k: nat, m: nat) {
    && k < m < |events|
    && events[k].kind.CodeStart? && events[m].kind.CodeEnd?
    && forall j :: k < j < m ==> !events[j].kind.CodeEnd? && !events[j].kind.HeadingStart?
  }

  lemma NoFlushStep(st: State, e: Event)
    requires e.kind.CodeStart? || (st.codeDepth > 0 && !e.kind.CodeEnd? && !e.kind.HeadingStart?)
    ensures |Step(st, e).flushes| == |st.flushes| && Step(st, e).codeDepth > 0
  {
    hide Trim, PushHeading, Breadcrumb;
  }

  lemma {:induction false} NoFlushInside(events: seq<Event>, k: nat, m: nat, j: nat)
    requires CodeBlock(events, k, m) && k < j <= m
    ensures FlushIndex(events, j) == FlushIndex(events, k) && Run(events[..j]).codeDepth > 0
  {
    hide Run, Step;
    RunPush(events, j - 1);
    if j > k + 1 {
      NoFlushInside(events, k, m, j - 1);
    }
    NoFlushStep(Run(events[..j - 1]), events[j - 1]);
  }

  /** No flush falls between a code block's start and end: all of its events, its
      fences included, are in the same flushed range. */
  lemma CodeBlockIntact(events: seq<Event>, k: nat, m: nat, j: nat)
    requires CodeBlock(events, k, m) && k <= j <= m && Buffered(events, j)
    ensures var f := FlushIndex(events, k);
            && f < |AllFlushes(events)|
            && AllFlushes(events)[f].lo <= events[j].start && events[j].end <= AllFlushes(events)[f].hi
  {
    if k < j {
      NoFlushInside(events, k, m, j);
    }
    EventLands(events, j);
  }

  // ---- the soft cap ----

  /** Code starts minus code ends. */
  function Balance(events: seq<Event>): int {
    if events == [] then 0
    else Balance(events[..|events| - 1])
         + (if events[|events| - 1].kind.CodeStart? then 1 else if events[|events| - 1].kind.CodeEnd? then -1 else 0)
  }

  /** A code block is open: from some event on, more start than end. */
  ghost predicate CodeOpen(events: seq<Event>) { exists k :: 0 <= k <= |events| && Balance(events[k..]) > 0 }

  /** A heading or a code block is open. */
  ghost predicate Open(events: seq<Event>) { InsideHeading(events) || CodeOpen(events) }

  lemma CodeDepthStep(st: State, e: Event)
    ensures Step(st, e).codeDepth
         == if e.kind.CodeStart? then st.codeDepth + 1
            else if e.kind.CodeEnd? && st.codeDepth > 0 then st.codeDepth - 1 else st.codeDepth
  {
    hide Trim, PushHeading, Breadcrumb;
  }

  lemma BalancePush(events: seq<Event>, k: nat)
    requires k < |events|
    ensures Balance(events[k..]) == Balance(events[..|events| - 1][k..])
              + (if events[|events| - 1].kind.CodeStart? then 1 else if events[|events| - 1].kind.CodeEnd? then -1 else 0)
  {
    assert events[k..][..|events| - 1 - k] == events[..|events| - 1][k..];
  }

  /** The depth counter is the most by which starts exceed ends from any event on. */
  lemma {:induction false} DepthIsBalance(events: seq<Event>)
    ensures forall k :: 0 <= k <= |events| ==> Balance(events[k..]) <= Run(events).codeDepth
    ensures exists k :: 0 <= k <= |events| && Balance(events[k..]) == Run(events).codeDepth
  {
    hide Step, Balance;
    NoBalance();
    assert events[|events|..] == [];
    if events != [] {
      var front, e := events[..|events| - 1], events[|events| - 1];
      DepthIsBalance(front);
      CodeDepthStep(Run(front), e);
      forall k | 0 <= k < |events| ensures Balance(events[k..]) <= Run(events).codeDepth {
        BalancePush(events, k);
        assert Balance(front[k..]) <= Run(front).codeDepth;
      }
      var k :| 0 <= k <= |front| && Balance(front[k..]) == Run(front).codeDepth;
      BalancePush(events, k);
      assert Balance(events[k..]) == Run(events).codeDepth || Balance(events[|events|..]) == Run(events).codeDepth;
    }
  }

  lemma NoBalance()
    ensures Balance([]) == 0
  {
  }

  lemma OpenRun(events: seq<Event>)
    ensures Open(events) <==> Run(events).inHeading || Run(events).codeDepth > 0
  {
    hide Run, Balance;
    InsideHeadingRun(events);
    DepthIsBalance(events);
  }

  function PendingSize(st: State): int { if st.chunkStart.None? then 0 else st.chunkEnd - st.chunkStart.value }

  lemma UnderCapStep(st: State, e: Event)
    ensures var next := Step(st, e);
            next.codeDepth == 0 && !next.inHeading ==> PendingSize(next) < 1000
  {
    hide Absorb;
  }

  /** After every event that leaves no heading and no code block open, under 1000 bytes are
      pending. */
  lemma PendingUnderCap(events: seq<Event>)
    requires !Open(events)
    ensures PendingSize(Run(events)) < 1000
  {
    OpenRun(events);
    if events != [] {
      hide Step;
      UnderCapStep(Run(events[..|events| - 1]), events[|events| - 1]);
    }
  }

  /** Flush `f` is made by event `k`, or at the end of the stream. */
  ghost predicate FlushedAt(events: seq<Event>, f: nat, k: nat) {
    && k <= |events| && |Run(events[..k]).flushes| == f
    && (k < |events| ==> |Run(events[..k + 1]).flushes| > f)
  }

  lemma FlushStep(st: State, e: Event)
    ensures var next := Step(st, e);
            && st.flushes <= next.flushes && |next.flushes| <= |st.flushes| + 1
            && (|next.flushes| > |st.flushes| ==>
                  var f := next.flushes[|st.flushes|];
                  if e.kind.HeadingStart? then f.hi - f.lo == PendingSize(st)
                  else f.hi - f.lo >= 1000 && next.codeDepth == 0 && !next.inHeading)
  {
    hide Trim, PushHeading, Breadcrumb, Extend;
    ExtendFlushes(st, e.start, e.end);
    ExtendFlushes(st.(codeDepth := st.codeDepth + 1), e.start, e.end);
    ExtendFlushes(st.(codeDepth := if st.codeDepth == 0 then 0 else st.codeDepth - 1), e.start, e.end);
  }

  lemma ExtendFlushes(st: State, start: nat, end: nat)
    ensures var x := Extend(st, start, end);
            x.flushes == st.flushes && x.codeDepth == st.codeDepth && x.inHeading == st.inHeading
  {
  }

  lemma {:induction false} FlushesGrow(events: seq<Event>, k: nat, n: nat)
    requires k <= n <= |events|
    ensures Run(events[..k]).flushes <= Run(events[..n]).flushes
  {
    hide Run, Step;
    if k < n {
      FlushesGrow(events, k, n - 1);
      RunPush(events, n - 1);
      FlushStep(Run(events[..n - 1]), events[n - 1]);
    }
  }

  /** The event that makes flush `f`. */
  lemma {:induction false} FlushMoment(events: seq<Event>, f: nat, n: nat) returns (k: nat)
    requires n <= |events| && |Run(events[..n]).flushes| > f
    ensures k < n && |Run(events[..k]).flushes| == f && |Run(events[..k + 1]).flushes| > f
  {
    hide Run, Step;
    RunNone();
    assert events[..0] == [];
    RunPush(events, n - 1);
    FlushStep(Run(events[..n - 1]), events[n - 1]);
    if |Run(events[..n - 1]).flushes| > f {
      k := FlushMoment(events, f, n - 1);
    } else {
      k := n - 1;
    }
  }

  /** Every flush is made at a heading, at the end of the stream, or on size. On size it is of
      1000 bytes or more, with no heading and no code block open, and before its last event
      either one was open or under 1000 bytes were pending. At a heading or at the end it is
      under 1000 bytes unless one was open. */
  lemma FlushSizes(events: seq<Event>, f: nat)
    requires f < |AllFlushes(events)|
    ensures exists k: nat :: FlushedAt(events, f, k) && FlushedOnTime(events, AllFlushes(events)[f], k)
  {
    hide Run, Step, Open, FlushState;
    var st := Run(events);
    assert events[..|events|] == events;
    LastFlush(st);
    if f < |st.flushes| {
      var k := FlushMoment(events, f, |events|);
      var before := Run(events[..k]);
      RunPush(events, k);
      FlushStep(before, events[k]);
      FlushesGrow(events, k + 1, |events|);
      OpenRun(events[..k]);
      OpenRun(events[..k + 1]);
      if !Open(events[..k]) {
        PendingUnderCap(events[..k]);
      }
      assert FlushedAt(events, f, k) && FlushedOnTime(events, AllFlushes(events)[f], k);
    } else {
      if !Open(events) {
        PendingUnderCap(events);
      }
      assert FlushedAt(events, f, |events|) && FlushedOnTime(events, AllFlushes(events)[f], |events|);
    }
  }

  ghost predicate FlushedOnTime(events: seq<Event>, f: Flush, k: nat)
    requires k <= |events|
  {
    if k < |events| && !events[k].kind.HeadingStart? then
      f.hi - f.lo >= 1000 && !Open(events[..k + 1]) && (Open(events[..k]) || PendingSize(Run(events[..k])) < 1000)
    else Open(events[..k]) || f.hi - f.lo < 1000
  }

  lemma LastFlush(st: State)
    ensures var all := FlushState(st).flushes;
            && st.flushes <= all && |all| <= |st.flushes| + 1
            && (|all| > |st.flushes| ==> all[|st.flushes|].hi - all[|st.flushes|].lo == PendingSize(st))
  {
  }

  // ---- coverage ----

  /** `c` is the slice `[a, b)` of the source, with the line numbers of its first and
      last byte, and its first and last lines are not blank. */
  ghost predicate SliceChunk(content: Bytes, c: Chunk, a: nat, b: nat) {
    && a < b <= |content|
    && c.text == content[a..b]
    && c.lineStart == LineOf(content, a) && c.lineEnd == LineOf(content, b - 1)
    && !Blank(content[a..FindNewline(content, a, b)])
    && !Blank(content[LastLineStart(content, a, b)..b])
  }

  lemma {:induction false} FlushEmits(content: Bytes, flushes: seq<Flush>, chunks: seq<Chunk>, f: nat)
    returns (j: nat)
    requires Emitted(content, flushes, chunks) && f < |flushes|
    ensures flushes[f].lo < flushes[f].hi <= |content|
    ensures !Blank(content[flushes[f].lo..flushes[f].hi]) ==>
              j < |chunks| && ChunkOf(content, flushes[f].lo, flushes[f].hi, flushes[f].heading, chunks[j])
    decreases |flushes|
  {
    hide Blank, ChunkOf;
    var n := |flushes| - 1;
    var last := flushes[n];
    if f == n {
      j := if chunks == [] then 0 else |chunks| - 1;
    } else if Blank(content[last.lo..last.hi]) {
      j := FlushEmits(content, flushes[..n], chunks, f);
    } else {
      j := FlushEmits(content, flushes[..n], chunks[..|chunks| - 1], f);
    }
  }

  /** Coverage: of every buffered event, all bytes outside white space are in one and
      the same chunk, a verbatim slice of the source with correct line numbers. */
  lemma Coverage(content: Bytes, events: seq<Event>, pre: seq<Chunk>, k: nat)
    requires Emitted(content, AllFlushes(events), pre)
    requires k < |events| && Buffered(events, k)
    ensures || (forall i :: events[k].start <= i < events[k].end ==> InWhitespace(content, i))
            || (exists j: nat, a: nat, b: nat ::
                  && j < |pre| && SliceChunk(content, pre[j], a, b)
                  && forall i :: events[k].start <= i < events[k].end ==> a <= i < b || InWhitespace(content, i))
  {
    EventLands(events, k);
    var flushes, e := AllFlushes(events), events[k];
    var f := flushes[FlushIndex(events, k)];
    var j := FlushEmits(content, flushes, pre, FlushIndex(events, k));
    if Blank(content[f.lo..f.hi]) {
      forall i | e.start <= i < e.end ensures InWhitespace(content, i) {
        BlankInside(content, f.lo, f.hi, i);
      }
    } else {
      CoveredByChunk(content, f, pre[j], e);
      var a: nat, b: nat :| SliceChunk(content, pre[j], a, b)
        && forall i :: e.start <= i < e.end ==> a <= i < b || InWhitespace(content, i);
    }
  }

  lemma CoveredByChunk(content: Bytes, f: Flush, c: Chunk, e: Event)
    requires ChunkOf(content, f.lo, f.hi, f.heading, c) && f.lo <= e.start && e.end <= f.hi
    ensures exists a: nat, b: nat ::
              && SliceChunk(content, c, a, b)
              && forall i :: e.start <= i < e.end ==> a <= i < b || InWhitespace(content, i)
  {
    hide Blank, InWhitespace;
    var a: nat, b: nat :| TrimmedTo(content, f.lo, f.hi, a, b)
      && c == Chunk(content[a..b], f.heading, LineOf(content, a), LineOf(content, b - 1));
    forall i | e.start <= i < e.end ensures a <= i < b || InWhitespace(content, i) {
      TrimKeepsText(content, f.lo, f.hi, a, b, i);
    }
    assert SliceChunk(content, c, a, b);
  }

  /** Re-splitting keeps every chunk: it is still there, or its place is taken by pieces that
      hold its text up to newlines once their re-opened fences are removed. */
  lemma {:induction false} ResplitKeeps(pre: seq<Chunk>, chunks: seq<Chunk>, j: nat)
    requires Resplit(pre, chunks) && j < |pre|
    ensures exists a: nat, b: nat :: a <= b <= |chunks| && HoldsText(pre[j], chunks[a..b])
  {
    hide PiecesOf, HoldsText;
    var last := |pre| - 1;
    var n: nat :| n <= |chunks| && Resplit(pre[..last], chunks[..n]) && PiecesOf(pre[last], chunks[n..]);
    if j < last {
      ResplitKeeps(pre[..last], chunks[..n], j);
      var a: nat, b: nat :| a <= b <= n && HoldsText(pre[..last][j], chunks[..n][a..b]);
      assert chunks[..n][a..b] == chunks[a..b] && pre[..last][j] == pre[j];
    } else {
      assert chunks[n..|chunks|] == chunks[n..];
      PiecesHoldText(pre[j], chunks[n..]);
    }
  }

  ghost predicate HoldsText(c: Chunk, pieces: seq<Chunk>) {
    var f := FenceOf(c.text);
    || pieces == [c]
    || StripNewlines(c.text) == OpenerOf(f) + StripNewlines(UnwrapAll(f, pieces)) + CloserOf(f)
  }

  lemma PiecesHoldText(c: Chunk, pieces: seq<Chunk>)
    requires PiecesOf(c, pieces)
    ensures HoldsText(c, pieces)
  {
    hide SplitOf, FenceOf, OpenerOf, CloserOf, UnwrapAll, StripNewlines;
    if |c.text| > MAX_CODE_CHUNK_BYTES {
      SplitConserves(c, pieces);
    }
  }

  /** Conversely every chunk is a trimmed flush: nothing is invented. */
  lemma {:induction false} ChunkIsSlice(content: Bytes, flushes: seq<Flush>, chunks: seq<Chunk>, j: nat)
    requires Emitted(content, flushes, chunks) && j < |chunks|
    ensures exists f: nat, a: nat, b: nat ::
              && f < |flushes| && chunks[j].headingPath == flushes[f].heading
              && SliceChunk(content, chunks[j], a, b) && flushes[f].lo <= a && b <= flushes[f].hi
    decreases |flushes|
  {
    hide Blank;
    var n := |flushes| - 1;
    var last := flushes[n];
    if Blank(content[last.lo..last.hi]) || j < |chunks| - 1 {
      var rest := if Blank(content[last.lo..last.hi]) then chunks else chunks[..|chunks| - 1];
      ChunkIsSlice(content, flushes[..n], rest, j);
      var f: nat, a: nat, b: nat :|
        && f < n && chunks[j].headingPath == flushes[..n][f].heading
        && SliceChunk(content, chunks[j], a, b) && flushes[..n][f].lo <= a && b <= flushes[..n][f].hi;
      assert flushes[..n][f] == flushes[f];
    } else {
      var a: nat, b: nat :| TrimmedTo(content, last.lo, last.hi, a, b)
        && chunks[j] == Chunk(content[a..b], last.heading, LineOf(content, a), LineOf(content, b - 1));
      assert SliceChunk(content, chunks[j], a, b) && flushes[n] == last;
    }
  }

  // ---- the list that is returned ----

  /** All bytes of an event outside white space lie in the slice of `c`. */
  ghost predicate Covers(content: Bytes, e: Event, c: Chunk) {
    exists a: nat, b: nat :: SliceChunk(content, c, a, b)
      && forall i :: e.start <= i < e.end ==> a <= i < b || InWhitespace(content, i)
  }

  ghost predicate AllWhitespace(content: Bytes, e: Event) {
    forall i :: e.start <= i < e.end ==> InWhitespace(content, i)
  }

  /** Coverage of what is returned: of every buffered event that is not all white space, the
      rest lies in one verbatim slice of the source, and consecutive returned chunks are that
      slice, or pieces that hold it up to newlines once their re-opened fences are removed. */
  lemma ReturnedCoverage(content: Bytes, events: seq<Event>, chunks: seq<Chunk>, k: nat)
    requires Chunked(content, events, chunks) && k < |events| && Buffered(events, k)
    ensures || AllWhitespace(content, events[k])
            || exists c, a: nat, b: nat ::
                 Covers(content, events[k], c) && a <= b <= |chunks| && HoldsText(c, chunks[a..b])
  {
    hide Emitted, Resplit, SliceChunk, InWhitespace, HoldsText, AllFlushes;
    var pre: seq<Chunk> :| Emitted(content, AllFlushes(events), pre) && Resplit(pre, chunks);
    Coverage(content, events, pre, k);
    if !AllWhitespace(content, events[k]) {
      var j: nat, lo: nat, hi: nat :| j < |pre| && SliceChunk(content, pre[j], lo, hi)
        && forall i :: events[k].start <= i < events[k].end ==> lo <= i < hi || InWhitespace(content, i);
      assert Covers(content, events[k], pre[j]);
      ResplitKeeps(pre, chunks, j);
      var a: nat, b: nat :| a <= b <= |chunks| && HoldsText(pre[j], chunks[a..b]);
    }
  }

  /** A text within the cap, or a piece that re-opens the fence of `c` and exceeds the cap by
      at most its opener, its closer and two newlines. */
  ghost predicate WithinCap(c: Chunk, text: Bytes) {
    var f := FenceOf(c.text);
    || |text| <= 8000
    || (!f.Prose? && f.opener + [NEWLINE] <= text
        && |text| <= 8000 + |OpenerOf(f)| + |CloserOf(f)| + 2)
  }

  lemma PieceWithinCap(c: Chunk, pieces: seq<Chunk>, k: nat)
    requires PiecesOf(c, pieces) && k < |pieces|
    ensures WithinCap(c, pieces[k].text) && pieces[k].headingPath == c.headingPath
  {
    hide FenceOf, OpenerOf, CloserOf, Greedy, RawOf, Texts, SpanLines;
    if |c.text| > MAX_CODE_CHUNK_BYTES {
      SplitBounds(c, pieces, k);
      ProseHasNoFence(FenceOf(c.text));
    }
  }

  lemma ProseHasNoFence(f: Fence)
    ensures f.Prose? ==> OpenerOf(f) == [] && CloserOf(f) == []
  {
  }

  lemma {:induction false} ResplitWithinCap(pre: seq<Chunk>, chunks: seq<Chunk>, k: nat) returns (j: nat)
    requires Resplit(pre, chunks) && k < |chunks|
    ensures j < |pre| && WithinCap(pre[j], chunks[k].text) && chunks[k].headingPath == pre[j].headingPath
    decreases |pre|
  {
    hide PiecesOf, WithinCap;
    var last := |pre| - 1;
    var n: nat :| n <= |chunks| && Resplit(pre[..last], chunks[..n]) && PiecesOf(pre[last], chunks[n..]);
    if k < n {
      j := ResplitWithinCap(pre[..last], chunks[..n], k);
    } else {
      j := last;
      PieceWithinCap(pre[last], chunks[n..], k - n);
    }
  }

  /** Every returned chunk is within the cap, or a fenced piece within its stated excess, of a
      verbatim slice of one flushed range, and carries the heading of that flush. */
  lemma ReturnedBounds(content: Bytes, events: seq<Event>, chunks: seq<Chunk>, k: nat)
    requires Chunked(content, events, chunks) && k < |chunks|
    ensures exists c, f: nat, a: nat, b: nat ::
              && WithinCap(c, chunks[k].text)
              && f < |AllFlushes(events)| && chunks[k].headingPath == AllFlushes(events)[f].heading
              && SliceChunk(content, c, a, b) && AllFlushes(events)[f].lo <= a && b <= AllFlushes(events)[f].hi
  {
    hide Emitted, Resplit, SliceChunk, WithinCap, AllFlushes;
    var flushes := AllFlushes(events);
    var pre: seq<Chunk> :| Emitted(content, AllFlushes(events), pre) && Resplit(pre, chunks);
    var j := ResplitWithinCap(pre, chunks, k);
    ChunkIsSlice(content, flushes, pre, j);
    var f: nat, a: nat, b: nat :| f < |flushes| && pre[j].headingPath == flushes[f].heading
      && SliceChunk(content, pre[j], a, b) && flushes[f].lo <= a && b <= flushes[f].hi;
  }

  // ---- breadcrumbs ----

  /** The heading now open, with the text collected for its title. */
  function OpenHeading(events: seq<Event>): Option<Heading> {
    if events == [] then None
    else
      var front := events[..|events| - 1];
      match events[|events| - 1].kind
      case HeadingStart(l) => Some(Heading(l, []))
      case HeadingEnd => None
      case Text(t) => (match OpenHeading(front)
                       case None => None
                       case Some(h) => Some(h.(title := h.title + t)))
      case _ => OpenHeading(front)
  }

  /** The headings completed so far, in order. */
  function Headings(events: seq<Event>): seq<Heading> {
    if events == [] then []
    else
      var front := events[..|events| - 1];
      var done := Headings(front);
      if events[|events| - 1].kind.HeadingEnd? && OpenHeading(front).Some?
      then done + [Heading(OpenHeading(front).value.level, Trim(OpenHeading(front).value.title))]
      else done
  }

  function StackOf(hs: seq<Heading>): seq<Heading> {
    if hs == [] then [] else PushHeading(StackOf(hs[..|hs| - 1]), hs[|hs| - 1])
  }

  /** A heading is in force when it has a title and no later titled heading is at its level or above. */
  ghost predicate InForce(hs: seq<Heading>, i: nat)
    requires i < |hs|
  {
    hs[i].title != [] && forall j :: i < j < |hs| && hs[j].title != [] ==> hs[i].level < hs[j].level
  }

  /** The headings among the first `n` that are in force, in document order. */
  ghost function AllInForce(hs: seq<Heading>, n: nat): seq<Heading>
    requires n <= |hs|
  {
    if n == 0 then [] else AllInForce(hs, n - 1) + (if InForce(hs, n - 1) then [hs[n - 1]] else [])
  }

  lemma RetainPush(s: seq<Heading>, h: Heading, level: nat)
    ensures Retain(s + [h], level) == Retain(s, level) + (if h.level < level then [h] else [])
  {
    assert (s + [h])[..|s|] == s;
  }

  lemma RetainNone(level: nat)
    ensures Retain([], level) == []
  {
  }

  lemma InForcePush(hs: seq<Heading>, h: Heading, i: nat)
    requires i < |hs|
    ensures InForce(hs + [h], i) <==> InForce(hs, i) && (h.title == [] || hs[i].level < h.level)
  {
    var all := hs + [h];
    assert all[|hs|] == h;
    assert forall j :: 0 <= j < |hs| ==> all[j] == hs[j];
  }

  lemma {:induction false} AllInForcePush(hs: seq<Heading>, h: Heading, n: nat)
    requires n <= |hs|
    ensures AllInForce(hs + [h], n)
         == if h.title == [] then AllInForce(hs, n) else Retain(AllInForce(hs, n), h.level)
  {
    hide Retain, InForce;
    if n > 0 {
      AllInForcePush(hs, h, n - 1);
      InForcePush(hs, h, n - 1);
      assert (hs + [h])[n - 1] == hs[n - 1];
      var before := AllInForce(hs, n - 1);
      assert before + [] == before && Retain(before, h.level) + [] == Retain(before, h.level);
      RetainPush(before, hs[n - 1], h.level);
    } else {
      RetainNone(h.level);
    }
  }

  /** The heading stack is exactly the headings in force. */
  lemma {:induction false} StackIsInForce(hs: seq<Heading>)
    ensures StackOf(hs) == AllInForce(hs, |hs|)
  {
    if hs != [] {
      var front, h := hs[..|hs| - 1], hs[|hs| - 1];
      StackIsInForce(front);
      assert hs == front + [h];
      AllInForcePush(front, h, |front|);
      assert InForce(hs, |hs| - 1) <==> h.title != [];
    }
  }

  ghost predicate Increasing(s: seq<Heading>) {
    forall i, j :: 0 <= i < j < |s| ==> s[i].level < s[j].level
  }

  lemma {:induction false} RetainIncreasing(s: seq<Heading>, level: nat)
    requires Increasing(s)
    ensures Increasing(Retain(s, level))
    ensures forall h :: h in Retain(s, level) ==> h in s && h.level < level
  {
    if s != [] {
      var front, last := s[..|s| - 1], s[|s| - 1];
      RetainIncreasing(front, level);
      assert forall h :: h in front ==> h in s && h.level < last.level;
      var kept := Retain(front, level);
      assert forall i :: 0 <= i < |kept| ==> kept[i] in kept;
    }
  }

  lemma PushIncreasing(stack: seq<Heading>, h: Heading)
    requires Increasing(stack) && (forall x :: x in stack ==> 1 <= x.level <= 6) && 1 <= h.level <= 6
    ensures Increasing(PushHeading(stack, h))
    ensures forall x :: x in PushHeading(stack, h) ==> 1 <= x.level <= 6
  {
    hide Retain;
    RetainIncreasing(stack, h.level);
    var kept := Retain(stack, h.level);
    assert forall i :: 0 <= i < |kept| ==> kept[i] in kept;
  }

  /** Levels strictly increase down the stack, so with six levels it is at most six deep. */
  lemma {:induction false} StackIncreasing(hs: seq<Heading>)
    requires forall h :: h in hs ==> 1 <= h.level <= 6
    ensures Increasing(StackOf(hs)) && |StackOf(hs)| <= 6
    ensures forall h :: h in StackOf(hs) ==> 1 <= h.level <= 6
  {
    hide PushHeading, Increasing;
    if hs == [] {
      IncreasingEmpty();
    } else {
      StackIncreasing(hs[..|hs| - 1]);
      PushIncreasing(StackOf(hs[..|hs| - 1]), hs[|hs| - 1]);
    }
    IncreasingDepth(StackOf(hs));
  }

  lemma IncreasingEmpty()
    ensures Increasing([])
  {
  }

  lemma {:induction false} IncreasingDepth(s: seq<Heading>)
    requires Increasing(s)
    requires forall h :: h in s ==> 1 <= h.level <= 6
    ensures s != [] ==> |s| <= s[|s| - 1].level
  {
    if |s| > 1 {
      IncreasingDepth(s[..|s| - 1]);
      assert s[|s| - 2].level < s[|s| - 1].level;
    }
  }

  /** What one step does to the heading variables. */
  lemma HeadingStep(st: State, e: Event)
    requires st.inHeading == st.level.Some? && st.crumb == Breadcrumb(st.stack)
    ensures var s := Step(st, e);
            var name := Trim(st.title);
            && s.crumb == Breadcrumb(s.stack)
            && s.inHeading == s.level.Some?
            && match e.kind
               case HeadingStart(l) => s.level == Some(l) && s.title == [] && s.stack == st.stack
               case HeadingEnd =>
                 && s.level == None
                 && s.stack == if st.level.Some? then PushHeading(st.stack, Heading(st.level.value, name)) else st.stack
               case Text(t) => s.level == st.level && s.stack == st.stack
                               && s.title == if st.inHeading then st.title + t else st.title
               case _ => s.level == st.level && s.stack == st.stack && s.title == st.title
  {
    hide Trim, Breadcrumb, Retain;
  }

  /** The loop's stack and breadcrumb are those of the headings completed so far. */
  lemma {:induction false} RunHeadings(events: seq<Event>)
    ensures var st := Run(events);
            && st.inHeading == st.level.Some? == OpenHeading(events).Some?
            && (st.level.Some? ==> OpenHeading(events).value == Heading(st.level.value, st.title))
            && st.stack == StackOf(Headings(events))
            && st.crumb == Breadcrumb(st.stack)
  {
    hide Breadcrumb, Step, PushHeading, Trim;
    if events == [] {
      BreadcrumbEmpty();
    } else {
      RunHeadings(events[..|events| - 1]);
      HeadingStep(Run(events[..|events| - 1]), events[|events| - 1]);
    }
  }

  /** The breadcrumb is the titles joined by " > ": these three laws leave no other function. */
  lemma {:induction false} BreadcrumbJoins(s: seq<Heading>, t: seq<Heading>, h: Heading)
    ensures Breadcrumb([]) == [] && Breadcrumb([h]) == h.title
    ensures s != [] && t != [] ==> Breadcrumb(s + t) == Breadcrumb(s) + [32, 62, 32] + Breadcrumb(t)
    decreases |t|
  {
    if s != [] && t != [] {
      var front, last := t[..|t| - 1], t[|t| - 1];
      assert (s + t)[..|s + t| - 1] == s + front;
      BreadcrumbJoins(s, front, h);
      if front == [] {
        assert s + front == s && t == [last];
      } else {
        assert Breadcrumb(t) == Breadcrumb(front) + SEPARATOR + last.title;
      }
    }
  }

  lemma BreadcrumbEmpty()
    ensures Breadcrumb([]) == []
  {
  }

  /** Code blocks do not occur inside headings. */
  ghost predicate Separated(events: seq<Event>) {
    forall j :: 0 <= j < |events| && (events[j].kind.CodeStart? || events[j].kind.CodeEnd?) ==>
                  !InsideHeading(events[..j])
  }

  lemma RunNone()
    ensures Run([]) == INIT
  {
  }

  lemma HeadingEmptyStep(st: State, e: Event)
    requires st.inHeading ==> st.chunkStart.None? && !e.kind.CodeStart? && !e.kind.CodeEnd?
    ensures Step(st, e).inHeading ==> Step(st, e).chunkStart.None?
  {
    hide Trim, PushHeading, Breadcrumb;
  }

  lemma LabelsStep(st: State, e: Event, f: nat, crumb: Bytes)
    requires Labels(st, f, crumb)
    requires st.chunkStart.Some? ==> st.chunkStart.value < st.chunkEnd && !st.inHeading
    requires st.inHeading == st.level.Some?
    ensures Labels(Step(st, e), f, crumb)
  {
    hide Trim, PushHeading, Breadcrumb;
  }

  lemma {:induction false} HeadingEmpty(events: seq<Event>, n: nat)
    requires Separated(events) && n <= |events|
    ensures Run(events[..n]).inHeading ==> Run(events[..n]).chunkStart.None?
  {
    hide Run, Step;
    if n > 0 {
      HeadingEmpty(events, n - 1);
      RunPush(events, n - 1);
      InsideHeadingRun(events[..n - 1]);
      HeadingEmptyStep(Run(events[..n - 1]), events[n - 1]);
    } else {
      RunNone();
    }
  }

  lemma {:induction false} LabelsRun(events: seq<Event>, k: nat, n: nat, f: nat, crumb: Bytes)
    requires Separated(events) && k <= n <= |events| && Labels(Run(events[..k]), f, crumb)
    ensures Labels(Run(events[..n]), f, crumb)
  {
    hide Run, Step, Labels;
    if k < n {
      LabelsRun(events, k, n - 1, f, crumb);
      RunPush(events, n - 1);
      HeadingEmpty(events, n - 1);
      InsideHeadingRun(events[..n - 1]);
      PendingNonEmpty(events[..n - 1]);
      LabelsStep(Run(events[..n - 1]), events[n - 1], f, crumb);
    }
  }

  lemma {:induction false} PendingNonEmpty(events: seq<Event>)
    ensures Run(events).chunkStart.Some? ==> Run(events).chunkStart.value < Run(events).chunkEnd
  {
    hide Trim, PushHeading, Breadcrumb;
    if events != [] {
      PendingNonEmpty(events[..|events| - 1]);
    }
  }

  /** Every buffered event's chunk carries the breadcrumb of the headings in force at the event. */
  lemma ChunkCarriesBreadcrumb(events: seq<Event>, k: nat)
    requires Separated(events) && k < |events| && Buffered(events, k)
    ensures FlushIndex(events, k) < |AllFlushes(events)|
    ensures AllFlushes(events)[FlushIndex(events, k)].heading
         == Breadcrumb(AllInForce(Headings(events[..k]), |Headings(events[..k])|))
  {
    hide Run, Step, Breadcrumb, StackOf, AllInForce, Headings;
    var hs := Headings(events[..k]);
    EventLands(events, k);
    RunHeadings(events[..k]);
    StackIsInForce(hs);
    var f := FlushIndex(events, k);
    var crumb := Run(events[..k]).crumb;
    InsideHeadingRun(events[..k]);
    RunPush(events, k);
    BufferedLands(Run(events[..k]), events[k]);
    PendingNonEmpty(events);
    LabelsRun(events, k + 1, |events|, f, crumb);
    assert events[..|events|] == events;
  }
}
