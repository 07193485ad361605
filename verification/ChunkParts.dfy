/**
 The packing inside `split_oversized_code` (src/chunker.rs), as a partition of the body:
 a part is a run of whole lines, or a cut out of a line too long for any piece. Greedy
 partitions are those whose every part reaches as far as a part starting there can.
 */
module ChunkParts {
  import opened Utf8Text

  const MAX_CHUNK_BYTES: nat := 1000
  const MAX_CODE_CHUNK_BYTES: nat := 8 * MAX_CHUNK_BYTES

  datatype Part = Whole(from: nat, to: nat) | Cut(line: nat, lo: nat, hi: nat)

  // ---- positions ----

  /** Bytes before line `i`, each line counted with its newline. */
  function Off(body: seq<Bytes>, i: nat): nat
    requires i <= |body|
  {
    if i == 0 then 0 else Off(body, i - 1) + |body[i - 1]| + 1
  }

  lemma {:induction false} OffBetween(body: seq<Bytes>, i: nat, j: nat)
    requires i <= j <= |body|
    ensures Off(body, i) <= Off(body, j)
    ensures i < j ==> Off(body, i) + |body[i]| + 1 <= Off(body, j)
    decreases j
  {
    if i < j - 1 {
      OffBetween(body, i, j - 1);
    }
  }

  lemma {:induction false} OffSlice(body: seq<Bytes>, i: nat, j: nat)
    requires i <= j <= |body|
    ensures |Terminated(body[i..j])| == Off(body, j) - Off(body, i)
    decreases j
  {
    if i < j {
      OffSlice(body, i, j - 1);
      assert body[i..j] == body[i..j - 1] + [body[j - 1]];
      TerminatedPush(body[i..j - 1], body[j - 1]);
    }
  }

  predicate TooLong(line: Bytes) { |line| + 1 > MAX_CODE_CHUNK_BYTES }

  // ---- parts ----

  /** What one piece may hold: whole lines, at most a capful with their newlines; or, of a
      line too long for that, at most a capful of whole characters. */
  ghost predicate OkPart(body: seq<Bytes>, p: Part) {
    match p
    case Whole(a, b) => a < b <= |body| && Off(body, b) - Off(body, a) <= MAX_CODE_CHUNK_BYTES
    case Cut(l, lo, hi) =>
      && l < |body| && TooLong(body[l]) && lo < hi <= |body[l]| && hi - lo <= MAX_CODE_CHUNK_BYTES
      && IsBoundary(body[l], lo) && IsBoundary(body[l], hi)
  }

  ghost function Start(body: seq<Bytes>, p: Part): nat
    requires OkPart(body, p)
  {
    match p
    case Whole(a, _) => Off(body, a)
    case Cut(l, lo, _) => Off(body, l) + lo
  }

  /** Where the next part starts: the newline of a line cut to its end is passed over. */
  ghost function End(body: seq<Bytes>, p: Part): nat
    requires OkPart(body, p)
  {
    match p
    case Whole(_, b) => Off(body, b)
    case Cut(l, _, hi) => Off(body, l) + hi + (if hi == |body[l]| then 1 else 0)
  }

  ghost predicate Longest(body: seq<Bytes>, p: Part) {
    OkPart(body, p) && forall q :: OkPart(body, q) && Start(body, q) == Start(body, p) ==> End(body, q) <= End(body, p)
  }

  /** The parts follow each other from byte `a` to byte `b`. */
  ghost predicate Tiles(body: seq<Bytes>, parts: seq<Part>, a: nat, b: nat) {
    if parts == [] then a == b
    else
      var p := parts[|parts| - 1];
      OkPart(body, p) && End(body, p) == b && Tiles(body, parts[..|parts| - 1], a, Start(body, p))
  }

  ghost predicate AllLongest(body: seq<Bytes>, parts: seq<Part>) {
    forall i :: 0 <= i < |parts| ==> Longest(body, parts[i])
  }

  /** A partition of the whole body into parts. */
  ghost predicate Partition(body: seq<Bytes>, parts: seq<Part>) { Tiles(body, parts, 0, Off(body, |body|)) }

  ghost predicate Greedy(body: seq<Bytes>, parts: seq<Part>) { Partition(body, parts) && AllLongest(body, parts) }

  lemma PartAdvances(body: seq<Bytes>, p: Part)
    requires OkPart(body, p)
    ensures Start(body, p) < End(body, p) <= Off(body, |body|)
  {
    match p {
      case Whole(a, b) =>
        OffBetween(body, a, b);
        OffBetween(body, b, |body|);
      case Cut(l, lo, hi) =>
        OffBetween(body, l, |body|);
    }
  }

  lemma TilesPush(body: seq<Bytes>, parts: seq<Part>, a: nat, p: Part)
    requires OkPart(body, p) && Tiles(body, parts, a, Start(body, p))
    ensures Tiles(body, parts + [p], a, End(body, p))
  {
    assert (parts + [p])[..|parts|] == parts;
  }

  lemma {:induction false} TilesAppend(body: seq<Bytes>, x: seq<Part>, y: seq<Part>, a: nat, b: nat, c: nat)
    requires Tiles(body, x, a, b) && Tiles(body, y, b, c)
    ensures Tiles(body, x + y, a, c)
    decreases |y|
  {
    if y == [] {
      assert x + y == x;
    } else {
      var p := y[|y| - 1];
      TilesAppend(body, x, y[..|y| - 1], a, b, Start(body, p));
      assert (x + y)[..|x + y| - 1] == x + y[..|y| - 1];
    }
  }

  /** Where part `k` starts, the parts before it end. */
  lemma {:induction false} TilesPrefix(body: seq<Bytes>, parts: seq<Part>, a: nat, b: nat, k: nat)
    requires Tiles(body, parts, a, b) && k < |parts|
    ensures OkPart(body, parts[k]) && Tiles(body, parts[..k], a, Start(body, parts[k]))
    ensures a <= Start(body, parts[k]) && End(body, parts[k]) <= b
    decreases |parts|
  {
    var front, p := parts[..|parts| - 1], parts[|parts| - 1];
    PartAdvances(body, p);
    if k < |front| {
      TilesPrefix(body, front, a, Start(body, p), k);
      assert front[..k] == parts[..k];
    } else if front != [] {
      TilesPrefix(body, front, a, Start(body, p), |front| - 1);
      PartAdvances(body, front[|front| - 1]);
      assert parts[..k] == front;
    } else {
      assert parts[..k] == front;
    }
  }

  // ---- a greedy partition stays ahead ----

  /** A part that starts later, and reaches as far as it can, ends no earlier. */
  lemma LaterReachesFurther(body: seq<Bytes>, q: Part, p: Part)
    requires OkPart(body, q) && Longest(body, p) && Start(body, q) <= Start(body, p)
    ensures End(body, q) <= End(body, p)
  {
    match (q, p) {
      case (Whole(a, b), Whole(c, d)) => WholeWhole(body, a, b, c, d);
      case (Whole(a, b), Cut(l, lo, hi)) => WholeCut(body, a, b, l, lo, hi);
      case (Cut(l, lo, hi), Whole(c, d)) => CutWhole(body, l, lo, hi, c, d);
      case (Cut(l, lo, hi), Cut(m, lo', hi')) => CutCut(body, l, lo, hi, m, lo', hi');
    }
  }

  lemma WholeWhole(body: seq<Bytes>, a: nat, b: nat, c: nat, d: nat)
    requires OkPart(body, Whole(a, b)) && Longest(body, Whole(c, d)) && Off(body, a) <= Off(body, c)
    ensures Off(body, b) <= Off(body, d)
  {
    hide Off, IsBoundary, TooLong;
    if b <= c {
      OffBetween(body, b, d);
    } else {
      assert OkPart(body, Whole(c, b));
      assert Start(body, Whole(c, b)) == Start(body, Whole(c, d));
    }
  }

  lemma WholeCut(body: seq<Bytes>, a: nat, b: nat, l: nat, lo: nat, hi: nat)
    requires OkPart(body, Whole(a, b)) && OkPart(body, Cut(l, lo, hi)) && Off(body, a) <= Off(body, l) + lo
    ensures b <= l && Off(body, b) <= Off(body, l) + hi
  {
    if l < a {
      OffBetween(body, l, a);
    } else if l < b {
      OffBetween(body, a, l);
      OffBetween(body, l, b);
    } else {
      OffBetween(body, b, l);
    }
  }

  lemma CutWhole(body: seq<Bytes>, l: nat, lo: nat, hi: nat, c: nat, d: nat)
    requires OkPart(body, Cut(l, lo, hi)) && OkPart(body, Whole(c, d)) && Off(body, l) + lo <= Off(body, c)
    ensures l < c && Off(body, l) + hi + 1 <= Off(body, c) < Off(body, d)
  {
    OffBetween(body, c, d);
    if c < l {
      OffBetween(body, c, l);
    } else if c == l {
      OffBetween(body, l, d);
    } else {
      OffBetween(body, l, c);
    }
  }

  lemma CutCut(body: seq<Bytes>, l: nat, lo: nat, hi: nat, m: nat, lo': nat, hi': nat)
    requires OkPart(body, Cut(l, lo, hi)) && Longest(body, Cut(m, lo', hi')) && Off(body, l) + lo <= Off(body, m) + lo'
    ensures End(body, Cut(l, lo, hi)) <= End(body, Cut(m, lo', hi'))
  {
    if m < l {
      OffBetween(body, m, l);
    } else if l < m {
      OffBetween(body, l, m);
    } else if lo' < hi {
      assert OkPart(body, Cut(l, lo', hi));
      assert Start(body, Cut(l, lo', hi)) == Start(body, Cut(m, lo', hi'));
    }
  }

  lemma {:induction false} StaysAhead(body: seq<Bytes>, other: seq<Part>, parts: seq<Part>, b: nat, c: nat)
    requires Tiles(body, other, 0, b) && Tiles(body, parts, 0, c) && AllLongest(body, parts) && |other| == |parts|
    ensures b <= c
    decreases |parts|
  {
    hide Longest, OkPart, Start, End;
    if parts != [] {
      var q, p := other[|other| - 1], parts[|parts| - 1];
      assert forall i :: 0 <= i < |parts| - 1 ==> parts[..|parts| - 1][i] == parts[i];
      StaysAhead(body, other[..|other| - 1], parts[..|parts| - 1], Start(body, q), Start(body, p));
      LaterReachesFurther(body, q, p);
    }
  }

  /** A greedy partition has the least number of parts. */
  lemma GreedyIsLeast(body: seq<Bytes>, parts: seq<Part>, other: seq<Part>)
    requires Greedy(body, parts) && Partition(body, other)
    ensures |parts| <= |other|
  {
    hide Longest, OkPart, Start, End, Tiles;
    if |other| < |parts| {
      var k := |other|;
      TilesPrefix(body, parts, 0, Off(body, |body|), k);
      PartAdvances(body, parts[k]);
      assert forall i :: 0 <= i < k ==> parts[..k][i] == parts[i];
      StaysAhead(body, other, parts[..k], Off(body, |body|), Start(body, parts[k]));
    }
  }

  lemma SamePlace(body: seq<Bytes>, p: Part, q: Part)
    requires Longest(body, p) && Longest(body, q) && Start(body, p) == Start(body, q)
    ensures p == q
  {
    match (q, p) {
      case (Whole(a, b), Whole(c, d)) => OffOrdered(body, a, c); OffOrdered(body, b, d);
      case (Whole(a, b), Cut(l, lo, hi)) => WholeCut(body, a, b, l, lo, hi); OffBetween(body, a, l);
      case (Cut(l, lo, hi), Whole(c, d)) => WholeCut(body, c, d, l, lo, hi); OffBetween(body, c, l);
      case (Cut(l, lo, hi), Cut(m, lo', hi')) => SameLine(body, l, lo, m, lo');
    }
  }

  lemma OffOrdered(body: seq<Bytes>, i: nat, j: nat)
    requires i <= |body| && j <= |body|
    ensures Off(body, i) == Off(body, j) <==> i == j
    ensures Off(body, i) < Off(body, j) <==> i < j
  {
    if i < j {
      OffBetween(body, i, j);
    } else {
      OffBetween(body, j, i);
    }
  }

  lemma SameLine(body: seq<Bytes>, l: nat, lo: nat, m: nat, lo': nat)
    requires l < |body| && m < |body| && lo <= |body[l]| && lo' <= |body[m]| && Off(body, l) + lo == Off(body, m) + lo'
    ensures l == m && lo == lo'
  {
    if l < m {
      OffBetween(body, l, m);
    } else if m < l {
      OffBetween(body, m, l);
    }
  }

  lemma {:induction false} SameParts(body: seq<Bytes>, x: seq<Part>, y: seq<Part>, b: nat, c: nat)
    requires Tiles(body, x, 0, b) && Tiles(body, y, 0, c) && AllLongest(body, x) && AllLongest(body, y) && |x| == |y|
    ensures x == y
    decreases |x|
  {
    hide Longest, OkPart, Start, End;
    if x != [] {
      var p, q := x[|x| - 1], y[|y| - 1];
      var x', y' := x[..|x| - 1], y[..|y| - 1];
      assert forall i :: 0 <= i < |x'| ==> x'[i] == x[i] && y'[i] == y[i];
      SameParts(body, x', y', Start(body, p), Start(body, q));
      StaysAhead(body, x', y', Start(body, p), Start(body, q));
      StaysAhead(body, y', x', Start(body, q), Start(body, p));
      SamePlace(body, p, q);
      assert x == x' + [p] && y == y' + [q];
    }
  }

  /** There is only one greedy partition. */
  lemma GreedyIsUnique(body: seq<Bytes>, x: seq<Part>, y: seq<Part>)
    requires Greedy(body, x) && Greedy(body, y)
    ensures x == y
  {
    GreedyIsLeast(body, x, y);
    GreedyIsLeast(body, y, x);
    SameParts(body, x, y, Off(body, |body|), Off(body, |body|));
  }

  // ---- which parts are longest ----

  /** Lines packed until the next one does not fit. */
  lemma WholeIsLongest(body: seq<Bytes>, from: nat, to: nat)
    requires OkPart(body, Whole(from, to))
    requires to == |body| || Off(body, to + 1) - Off(body, from) > MAX_CODE_CHUNK_BYTES
    ensures Longest(body, Whole(from, to))
  {
    hide IsBoundary;
    forall q | OkPart(body, q) && Start(body, q) == Off(body, from) ensures End(body, q) <= Off(body, to) {
      match q {
        case Whole(a, b) =>
          OffOrdered(body, a, from);
          OffBetween(body, if b <= to then b else to + 1, if b <= to then to else b);
        case Cut(l, lo, hi) =>
          WholeCut(body, from, to, l, lo, hi);
          OffBetween(body, from, l);
      }
    }
  }

  /** A cut at the last character boundary within the cap. */
  lemma CutIsLongest(body: seq<Bytes>, l: nat, lo: nat, hi: nat)
    requires OkPart(body, Cut(l, lo, hi))
    requires forall k :: hi < k <= |body[l]| && k <= lo + MAX_CODE_CHUNK_BYTES ==> !IsBoundary(body[l], k)
    ensures Longest(body, Cut(l, lo, hi))
  {
    hide IsBoundary;
    forall q | OkPart(body, q) && Start(body, q) == Off(body, l) + lo ensures End(body, q) <= End(body, Cut(l, lo, hi)) {
      match q {
        case Whole(a, b) =>
          WholeCut(body, a, b, l, lo, hi);
          OffBetween(body, a, l);
        case Cut(m, lo', hi') =>
          SameLine(body, l, lo, m, lo');
      }
    }
  }

  // ---- the text of the parts ----

  /** A piece's text without its fence; cut pieces of a fenced block end their line. */
  ghost function Render(body: seq<Bytes>, fenced: bool, p: Part): Bytes
    requires OkPart(body, p)
  {
    match p
    case Whole(a, b) => Terminated(body[a..b])
    case Cut(l, lo, hi) => body[l][lo..hi] + (if fenced then [NEWLINE] else [])
  }

  ghost predicate AllOk(body: seq<Bytes>, parts: seq<Part>) {
    forall i :: 0 <= i < |parts| ==> OkPart(body, parts[i])
  }

  lemma AllOkTiles(body: seq<Bytes>, parts: seq<Part>, a: nat, b: nat)
    requires Tiles(body, parts, a, b)
    ensures AllOk(body, parts)
  {
    forall i | 0 <= i < |parts| ensures OkPart(body, parts[i]) {
      TilesPrefix(body, parts, a, b, i);
    }
  }

  ghost function RenderAll(body: seq<Bytes>, fenced: bool, parts: seq<Part>): (raw: seq<Bytes>)
    requires AllOk(body, parts)
    ensures |raw| == |parts|
  {
    seq(|parts|, i requires 0 <= i < |parts| => Render(body, fenced, parts[i]))
  }


  lemma OffWhole(body: seq<Bytes>)
    ensures |Terminated(body)| == Off(body, |body|)
  {
    OffSlice(body, 0, |body|);
    assert body[0..|body|] == body;
  }

  /** A run's text is a slice of the body with its lines ended by newlines. */
  lemma LinesText(body: seq<Bytes>, a: nat, b: nat)
    requires a <= b <= |body|
    ensures Off(body, a) <= Off(body, b) <= |Terminated(body)|
    ensures Terminated(body[a..b]) == Terminated(body)[Off(body, a)..Off(body, b)]
  {
    hide Terminated, Off;
    OffWhole(body);
    OffBetween(body, a, b);
    OffBetween(body, b, |body|);
    OffSlice(body, 0, a);
    OffSlice(body, a, b);
    ZeroOff(body);
    TerminatedAppend(body[0..a], body[a..b]);
    TerminatedAppend(body[0..a] + body[a..b], body[b..]);
    CutInThree(body, a, b);
  }

  lemma CutInThree(body: seq<Bytes>, a: nat, b: nat)
    requires a <= b <= |body|
    ensures body == body[0..a] + body[a..b] + body[b..]
  {
  }

  lemma ZeroOff(body: seq<Bytes>)
    ensures Off(body, 0) == 0
  {
  }

  lemma LineText(body: seq<Bytes>, l: nat)
    requires l < |body|
    ensures Off(body, l + 1) == Off(body, l) + |body[l]| + 1 <= |Terminated(body)|
    ensures Terminated(body)[Off(body, l)..Off(body, l + 1)] == body[l] + [NEWLINE]
  {
    LinesText(body, l, l + 1);
    assert body[l..l + 1] == [] + [body[l]];
    TerminatedPush([], body[l]);
  }

  /** The bytes between the start of a part and the start of the next. */
  ghost function PartBytes(body: seq<Bytes>, p: Part): Bytes
    requires OkPart(body, p)
  {
    PartAdvances(body, p);
    OffWhole(body);
    Terminated(body)[Start(body, p)..End(body, p)]
  }

  lemma PartText(body: seq<Bytes>, fenced: bool, p: Part)
    requires OkPart(body, p) && forall i :: 0 <= i < |body| ==> NEWLINE !in body[i]
    ensures StripNewlines(Render(body, fenced, p)) == StripNewlines(PartBytes(body, p))
    ensures p.Whole? ==> Render(body, fenced, p) == PartBytes(body, p)
  {
    hide Terminated, StripNewlines, Off;
    match p {
      case Whole(a, b) => LinesText(body, a, b);
      case Cut(l, lo, hi) => CutText(body, fenced, l, lo, hi);
    }
  }

  lemma CutText(body: seq<Bytes>, fenced: bool, l: nat, lo: nat, hi: nat)
    requires OkPart(body, Cut(l, lo, hi)) && NEWLINE !in body[l]
    ensures StripNewlines(Render(body, fenced, Cut(l, lo, hi))) == StripNewlines(PartBytes(body, Cut(l, lo, hi)))
  {
    CutBytes(body, l, lo, hi);
    hide StripNewlines, PartBytes;
    var s := body[l][lo..hi];
    StripNewlinesNone(s);
    StripNewlinesTerminated(s);
    assert s + [] == s;
  }

  lemma CutBytes(body: seq<Bytes>, l: nat, lo: nat, hi: nat)
    requires OkPart(body, Cut(l, lo, hi))
    ensures PartBytes(body, Cut(l, lo, hi)) == body[l][lo..hi] + (if hi == |body[l]| then [NEWLINE] else [])
  {
    hide Terminated, Off, IsBoundary;
    LineText(body, l);
    var line, t, o := body[l], Terminated(body), Off(body, l);
    var end := if hi == |line| then hi + 1 else hi;
    SliceOfSlice(t, o, o + |line| + 1, lo, end);
    assert (line + [NEWLINE])[lo..end] == line[lo..hi] + (if hi == |line| then [NEWLINE] else []);
  }

  lemma SliceOfSlice(t: Bytes, a: nat, b: nat, lo: nat, hi: nat)
    requires a <= b <= |t| && lo <= hi <= b - a
    ensures t[a..b][lo..hi] == t[a + lo..a + hi]
  {
    var x, y := t[a..b][lo..hi], t[a + lo..a + hi];
    assert |x| == |y|;
    forall i | 0 <= i < |x| ensures x[i] == y[i] {
      assert x[i] == t[a..b][lo + i] == t[a + lo + i];
    }
  }

  lemma StripNewlinesTerminated(line: Bytes)
    requires NEWLINE !in line
    ensures StripNewlines(line + [NEWLINE]) == line
  {
    StripNewlinesNone(line);
    assert (line + [NEWLINE])[..|line|] == line;
  }

  ghost predicate AllWhole(parts: seq<Part>) { forall i :: 0 <= i < |parts| ==> parts[i].Whole? }

  /** What the parts hold, up to newlines, is the body up to where they end; and byte for byte
      if no line had to be cut. */
  lemma {:induction false} RenderedIsBody(body: seq<Bytes>, fenced: bool, parts: seq<Part>, b: nat)
    requires Tiles(body, parts, 0, b) && AllOk(body, parts) && forall i :: 0 <= i < |body| ==> NEWLINE !in body[i]
    ensures b <= |Terminated(body)|
    ensures StripNewlines(Concat(RenderAll(body, fenced, parts))) == StripNewlines(Terminated(body)[..b])
    ensures AllWhole(parts) ==> Concat(RenderAll(body, fenced, parts)) == Terminated(body)[..b]
    decreases |parts|
  {
    if parts != [] {
      hide Terminated, StripNewlines, Off, OkPart, Start, End, Concat, Render, RenderAll;
      var front, p := parts[..|parts| - 1], parts[|parts| - 1];
      assert parts == front + [p];
      assert AllOk(body, front) && (AllWhole(parts) ==> AllWhole(front) && p.Whole?);
      RenderedIsBody(body, fenced, front, Start(body, p));
      RenderedStep(body, fenced, front, p);
    } else {
      assert RenderAll(body, fenced, parts) == [] && Terminated(body)[..0] == [];
    }
  }

  lemma RenderedStep(body: seq<Bytes>, fenced: bool, front: seq<Part>, p: Part)
    requires AllOk(body, front) && OkPart(body, p) && Start(body, p) <= |Terminated(body)|
    requires forall i :: 0 <= i < |body| ==> NEWLINE !in body[i]
    requires StripNewlines(Concat(RenderAll(body, fenced, front))) == StripNewlines(Terminated(body)[..Start(body, p)])
    ensures AllOk(body, front + [p]) && End(body, p) <= |Terminated(body)|
    ensures StripNewlines(Concat(RenderAll(body, fenced, front + [p]))) == StripNewlines(Terminated(body)[..End(body, p)])
    ensures p.Whole? && Concat(RenderAll(body, fenced, front)) == Terminated(body)[..Start(body, p)]
            ==> Concat(RenderAll(body, fenced, front + [p])) == Terminated(body)[..End(body, p)]
  {
    hide Terminated, StripNewlines, Off, OkPart, Start, End, Concat, Render, RenderAll;
    PartAdvances(body, p);
    OffWhole(body);
    PartText(body, fenced, p);
    RenderAllPush(body, fenced, front, p);
    JoinStep(Concat(RenderAll(body, fenced, front)), Render(body, fenced, p), Terminated(body), Start(body, p), End(body, p));
  }

  lemma RenderAllPush(body: seq<Bytes>, fenced: bool, parts: seq<Part>, p: Part)
    requires AllOk(body, parts) && OkPart(body, p)
    ensures AllOk(body, parts + [p])
    ensures RenderAll(body, fenced, parts + [p]) == RenderAll(body, fenced, parts) + [Render(body, fenced, p)]
    ensures Concat(RenderAll(body, fenced, parts + [p])) == Concat(RenderAll(body, fenced, parts)) + Render(body, fenced, p)
  {
    hide OkPart, Render;
    ConcatPush(RenderAll(body, fenced, parts), Render(body, fenced, p));
  }

  lemma JoinStep(x: Bytes, r: Bytes, t: Bytes, s: nat, e: nat)
    requires s <= e <= |t| && StripNewlines(x) == StripNewlines(t[..s]) && StripNewlines(r) == StripNewlines(t[s..e])
    ensures StripNewlines(x + r) == StripNewlines(t[..e])
    ensures x == t[..s] && r == t[s..e] ==> x + r == t[..e]
  {
    hide StripNewlines;
    assert t[..e] == t[..s] + t[s..e];
    StripNewlinesAppend(x, r);
    StripNewlinesAppend(t[..s], t[s..e]);
  }
}
