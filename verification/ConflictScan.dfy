/**
 The subject-conflict scan (`find_subject_conflicts` in src/consolidate.rs): rows
 are grouped by subject in a hash map, compared within each group in whatever
 order the map iterates, and sorted. It refines the all-pairs loop it replaced.
 */
module ConflictScan {
  import opened Common

  datatype CurrentRow = CurrentRow(id: int, subject: string, content: Option<string>,
                                   authority: Option<real>, observed: int)

  datatype ConflictPair = ConflictPair(fromChunk: int, toChunk: int, subject: string,
                                       ageGap: int, authorityDelta: real)

  const I64_MAX: int := 0x7FFF_FFFF_FFFF_FFFF

  function SaturatingSub(a: int, b: int): int {
    if a - b > I64_MAX then I64_MAX else if a - b < -I64_MAX - 1 then -I64_MAX - 1 else a - b
  }

  function Pair(a: CurrentRow, b: CurrentRow): ConflictPair {
    ConflictPair(a.id, b.id, a.subject, SaturatingSub(b.observed, a.observed),
                 (if b.authority.Some? then b.authority.value else 0.8)
                 - (if a.authority.Some? then a.authority.value else 0.8))
  }

  /** What a reported pair tells: which row came first, how much later the second was
      observed (clamped to 64 bits), and how much more authority it has, with 0.8 for a
      missing authority. */
  lemma PairMeans(a: CurrentRow, b: CurrentRow)
    ensures var p := Pair(a, b);
            && p.fromChunk == a.id && p.toChunk == b.id && p.subject == a.subject
            && (a.observed < b.observed <==> p.ageGap > 0) && (a.observed > b.observed <==> p.ageGap < 0)
            && p.ageGap == (if b.observed - a.observed > 9223372036854775807 then 9223372036854775807
                            else if b.observed - a.observed < -9223372036854775808 then -9223372036854775808
                            else b.observed - a.observed)
            && (a.authority.Some? && b.authority.Some? ==> a.authority.value + p.authorityDelta == b.authority.value)
            && (a.authority.None? && b.authority.Some? ==> p.authorityDelta == b.authority.value - 0.8)
            && (a.authority.Some? && b.authority.None? ==> p.authorityDelta == 0.8 - a.authority.value)
            && (a.authority.None? && b.authority.None? ==> p.authorityDelta == 0.0)
  {
  }

  ghost predicate DistinctIds(rows: seq<CurrentRow>) {
    forall i, j :: 0 <= i < j < |rows| ==> rows[i].id != rows[j].id
  }

  // ---- the reference: compare every pair of rows ----

  /** What the all-pairs loop pushes from `(i, j)` on, inner index first. */
  function AllPairsFrom(rows: seq<CurrentRow>, i: nat, j: nat): seq<ConflictPair>
    requires i < j
    decreases |rows| - i, |rows| - j
  {
    if i >= |rows| then []
    else if j >= |rows| then AllPairsFrom(rows, i + 1, i + 2)
    else (if Clash(rows[i], rows[j]) then [Pair(rows[i], rows[j])] else []) + AllPairsFrom(rows, i, j + 1)
  }

  function AllPairs(rows: seq<CurrentRow>): seq<ConflictPair> { AllPairsFrom(rows, 0, 1) }

  /** Same subject, different content. */
  predicate Clash(a: CurrentRow, b: CurrentRow) { a.subject == b.subject && a.content != b.content }

  /** `p` is the clash of an earlier row with a later one, starting from `(i, j)`. */
  ghost predicate ClashFrom(rows: seq<CurrentRow>, i: int, j: int, p: ConflictPair) {
    exists k, l :: 0 <= k < l < |rows| && (k > i || (k == i && l >= j)) && Clash(rows[k], rows[l])
                   && p == Pair(rows[k], rows[l])
  }

  ghost predicate NoDup(s: seq<ConflictPair>) {
    forall i, j :: 0 <= i < j < |s| ==> s[i] != s[j]
  }

  lemma {:induction false} AllPairsFromMembers(rows: seq<CurrentRow>, i: nat, j: nat, p: ConflictPair)
    requires i < j
    ensures p in AllPairsFrom(rows, i, j) <==> ClashFrom(rows, i, j, p)
    decreases |rows| - i, |rows| - j
  {
    if i >= |rows| {
    } else if j >= |rows| {
      AllPairsFromMembers(rows, i + 1, i + 2, p);
      assert ClashFrom(rows, i, j, p) <==> ClashFrom(rows, i + 1, i + 2, p);
    } else {
      AllPairsFromMembers(rows, i, j + 1, p);
      assert ClashFrom(rows, i, j, p)
        <==> ClashFrom(rows, i, j + 1, p) || (Clash(rows[i], rows[j]) && p == Pair(rows[i], rows[j]));
    }
  }

  lemma {:induction false} AllPairsFromNoDup(rows: seq<CurrentRow>, i: nat, j: nat)
    requires i < j && DistinctIds(rows)
    ensures NoDup(AllPairsFrom(rows, i, j))
    decreases |rows| - i, |rows| - j
  {
    hide NoDup, ClashFrom, DistinctIds, Pair, AllPairsFrom;
    AllPairsStep(rows, i, j);
    if i >= |rows| {
      NoDupNone();
    } else if j >= |rows| {
      AllPairsFromNoDup(rows, i + 1, i + 2);
    } else {
      AllPairsFromNoDup(rows, i, j + 1);
      AllPairsFromMembers(rows, i, j + 1, Pair(rows[i], rows[j]));
      PairFresh(rows, i, j);
      NoDupFront(Pair(rows[i], rows[j]), AllPairsFrom(rows, i, j + 1));
    }
  }

  lemma NoDupNone()
    ensures NoDup([])
  {
  }

  lemma PairFresh(rows: seq<CurrentRow>, i: nat, j: nat)
    requires i < j < |rows| && DistinctIds(rows)
    ensures !ClashFrom(rows, i, j + 1, Pair(rows[i], rows[j]))
  {
  }

  lemma NoDupFront(p: ConflictPair, s: seq<ConflictPair>)
    requires NoDup(s) && p !in s
    ensures NoDup([p] + s)
  {
  }

  // ---- sorting by (from, to) ----

  predicate KeyLess(p: ConflictPair, q: ConflictPair) {
    p.fromChunk < q.fromChunk || (p.fromChunk == q.fromChunk && p.toChunk < q.toChunk)
  }

  ghost predicate SortedByKey(s: seq<ConflictPair>) {
    forall i, j :: 0 <= i < j < |s| ==> !KeyLess(s[j], s[i])
  }

  function Insert(p: ConflictPair, s: seq<ConflictPair>): (r: seq<ConflictPair>)
    requires SortedByKey(s)
    ensures multiset(r) == multiset(s) + multiset{p} && SortedByKey(r)
  {
    if s == [] || !KeyLess(s[0], p) then
      assert SortedByKey([p] + s);
      [p] + s
    else
      var r := Insert(p, s[1..]);
      assert s == [s[0]] + s[1..];
      InsertHead(s, p, r);
      [s[0]] + r
  }

  lemma InsertHead(s: seq<ConflictPair>, p: ConflictPair, r: seq<ConflictPair>)
    requires s != [] && SortedByKey(s) && KeyLess(s[0], p)
    requires multiset(r) == multiset(s[1..]) + multiset{p} && SortedByKey(r)
    ensures SortedByKey([s[0]] + r)
  {
    forall i | 0 <= i < |r| ensures !KeyLess(r[i], s[0]) {
      assert r[i] in multiset(r);
      if r[i] != p {
        assert r[i] in s[1..];
      }
    }
  }

  /** `sort_by_key` on the pair of chunk ids. */
  function SortByKey(s: seq<ConflictPair>): (r: seq<ConflictPair>)
    ensures multiset(r) == multiset(s) && SortedByKey(r)
  {
    if s == [] then []
    else
      assert s == [s[0]] + s[1..];
      Insert(s[0], SortByKey(s[1..]))
  }

  /** Keys are distinct, so sorting leaves only one possible order. */
  ghost predicate DistinctKeys(s: seq<ConflictPair>) {
    forall p, q :: p in s && q in s && !KeyLess(p, q) && !KeyLess(q, p) ==> p == q
  }

  lemma {:induction false} SortedUnique(s: seq<ConflictPair>, t: seq<ConflictPair>)
    requires SortedByKey(s) && SortedByKey(t) && DistinctKeys(s) && multiset(s) == multiset(t)
    ensures s == t
  {
    hide SortedByKey, DistinctKeys;
    assert |s| == |multiset(s)| == |multiset(t)| == |t|;
    if s != [] {
      HeadsEqual(s, t);
      TailMultiset(s);
      TailMultiset(t);
      TailSorted(s);
      TailSorted(t);
      SortedUnique(s[1..], t[1..]);
      assert s == [s[0]] + s[1..] && t == [t[0]] + t[1..];
    }
  }

  lemma TailMultiset(s: seq<ConflictPair>)
    requires s != []
    ensures multiset(s[1..]) == multiset(s) - multiset{s[0]}
  {
    assert s == [s[0]] + s[1..];
  }

  lemma TailSorted(s: seq<ConflictPair>)
    requires s != [] && SortedByKey(s)
    ensures SortedByKey(s[1..])
    ensures DistinctKeys(s) ==> DistinctKeys(s[1..])
  {
    assert forall p :: p in s[1..] ==> p in s;
  }

  lemma HeadsEqual(s: seq<ConflictPair>, t: seq<ConflictPair>)
    requires s != [] && t != [] && SortedByKey(s) && SortedByKey(t) && DistinctKeys(s)
    requires multiset(s) == multiset(t)
    ensures s[0] == t[0]
  {
    assert s[0] in multiset(t) && t[0] in multiset(s);
    var i :| 0 <= i < |t| && t[i] == s[0];
    var j :| 0 <= j < |s| && s[j] == t[0];
    assert !KeyLess(s[0], t[0]) && !KeyLess(t[0], s[0]);
  }

  // ---- grouping by subject ----

  /** The rows of one subject, in row order. */
  function OfSubject(rows: seq<CurrentRow>, subject: string): seq<CurrentRow> {
    if rows == [] then []
    else OfSubject(rows[..|rows| - 1], subject)
         + (if rows[|rows| - 1].subject == subject then [rows[|rows| - 1]] else [])
  }

  ghost predicate Grouped(rows: seq<CurrentRow>, groups: map<string, seq<CurrentRow>>) {
    && (forall i :: 0 <= i < |rows| ==> rows[i].subject in groups)
    && (forall s :: s in groups ==> groups[s] == OfSubject(rows, s))
  }

  method GroupBySubject(rows: seq<CurrentRow>) returns (groups: map<string, seq<CurrentRow>>)
    ensures Grouped(rows, groups)
  {
    hide Grouped;
    groups := map[];
    GroupedNone();
    for n := 0 to |rows|
      invariant Grouped(rows[..n], groups)
    {
      var r := rows[n];
      assert rows[..n + 1] == rows[..n] + [r];
      var had := if r.subject in groups then groups[r.subject] else [];
      GroupedPush(rows[..n], groups, r, had);
      groups := groups[r.subject := had + [r]];
    }
    assert rows[..|rows|] == rows;
  }

  lemma GroupedNone()
    ensures Grouped([], map[])
  {
  }

  lemma OfSubjectPush(rows: seq<CurrentRow>, r: CurrentRow, s: string)
    ensures OfSubject(rows + [r], s) == OfSubject(rows, s) + (if r.subject == s then [r] else [])
  {
    assert (rows + [r])[..|rows|] == rows;
  }

  lemma {:induction false} OfSubjectNone(rows: seq<CurrentRow>, s: string)
    requires forall i :: 0 <= i < |rows| ==> rows[i].subject != s
    ensures OfSubject(rows, s) == []
  {
    if rows != [] {
      OfSubjectNone(rows[..|rows| - 1], s);
    }
  }

  lemma GroupedPush(rows: seq<CurrentRow>, groups: map<string, seq<CurrentRow>>, r: CurrentRow, had: seq<CurrentRow>)
    requires Grouped(rows, groups)
    requires had == if r.subject in groups then groups[r.subject] else []
    ensures Grouped(rows + [r], groups[r.subject := had + [r]])
  {
    hide OfSubject;
    var next := groups[r.subject := had + [r]];
    if r.subject !in groups {
      OfSubjectNone(rows, r.subject);
    }
    forall s | s in next ensures next[s] == OfSubject(rows + [r], s) {
      OfSubjectPush(rows, r, s);
      assert OfSubject(rows, s) + [] == OfSubject(rows, s);
    }
  }

  /** `a` stands before `b`. */
  ghost predicate Before(rows: seq<CurrentRow>, a: CurrentRow, b: CurrentRow) {
    exists i, j :: 0 <= i < j < |rows| && rows[i] == a && rows[j] == b
  }

  lemma {:induction false} OfSubjectMembers(rows: seq<CurrentRow>, s: string, a: CurrentRow)
    ensures a in OfSubject(rows, s) <==> a in rows && a.subject == s
  {
    if rows != [] {
      OfSubjectMembers(rows[..|rows| - 1], s, a);
      assert rows == rows[..|rows| - 1] + [rows[|rows| - 1]];
    }
  }

  lemma BeforePush(rows: seq<CurrentRow>, r: CurrentRow, a: CurrentRow, b: CurrentRow)
    ensures Before(rows + [r], a, b) <==> Before(rows, a, b) || (a in rows && b == r)
  {
    var all := rows + [r];
    if a in rows && b == r {
      var i :| 0 <= i < |rows| && rows[i] == a;
      assert all[i] == a && all[|rows|] == b;
    }
    if Before(rows, a, b) {
      var i, j :| 0 <= i < j < |rows| && rows[i] == a && rows[j] == b;
      assert all[i] == a && all[j] == b;
    }
  }

  /** Grouping keeps the order of the rows it keeps. */
  lemma {:induction false} OfSubjectOrder(rows: seq<CurrentRow>, s: string, a: CurrentRow, b: CurrentRow)
    ensures Before(OfSubject(rows, s), a, b) <==> Before(rows, a, b) && a.subject == s && b.subject == s
  {
    if rows != [] {
      var front, r := rows[..|rows| - 1], rows[|rows| - 1];
      OfSubjectOrder(front, s, a, b);
      OfSubjectMembers(front, s, a);
      assert rows == front + [r];
      BeforePush(front, r, a, b);
      BeforePush(OfSubject(front, s), r, a, b);
      assert OfSubject(front, s) + [] == OfSubject(front, s);
    }
  }

  /** `p` is a clash of two rows of subject `s`. */
  ghost predicate ClashOf(rows: seq<CurrentRow>, s: string, p: ConflictPair) {
    exists a, b :: Before(rows, a, b) && Clash(a, b) && a.subject == s && p == Pair(a, b)
  }

  lemma GroupClashes(rows: seq<CurrentRow>, s: string, p: ConflictPair)
    ensures ClashFrom(OfSubject(rows, s), 0, 1, p) <==> ClashOf(rows, s, p)
  {
    var g := OfSubject(rows, s);
    if ClashFrom(g, 0, 1, p) {
      var k, l :| 0 <= k < l < |g| && Clash(g[k], g[l]) && p == Pair(g[k], g[l]);
      assert Before(g, g[k], g[l]);
      OfSubjectOrder(rows, s, g[k], g[l]);
    }
    if ClashOf(rows, s, p) {
      var a, b :| Before(rows, a, b) && Clash(a, b) && a.subject == s && p == Pair(a, b);
      OfSubjectOrder(rows, s, a, b);
      var k, l :| 0 <= k < l < |g| && g[k] == a && g[l] == b;
      assert Clash(g[k], g[l]);
    }
  }

  lemma {:induction false} OfSubjectDistinct(rows: seq<CurrentRow>, s: string)
    requires DistinctIds(rows)
    ensures DistinctIds(OfSubject(rows, s))
  {
    if rows != [] {
      var front, r := rows[..|rows| - 1], rows[|rows| - 1];
      OfSubjectDistinct(front, s);
      forall i | 0 <= i < |OfSubject(front, s)| ensures OfSubject(front, s)[i].id != r.id {
        OfSubjectMembers(front, s, OfSubject(front, s)[i]);
      }
    }
  }

  // ---- the scan ----

  /** The inner double loop over one group; it compares content only. */
  method PairsWithin(group: seq<CurrentRow>) returns (out: seq<ConflictPair>)
    requires DistinctIds(group)
    requires forall i, j :: 0 <= i < j < |group| ==> group[i].subject == group[j].subject
    ensures out == AllPairs(group)
  {
    hide AllPairsFrom, Pair, DistinctIds;
    out := [];
    assert out + AllPairsFrom(group, 0, 1) == AllPairs(group);
    for i := 0 to |group|
      invariant out + AllPairsFrom(group, i, i + 1) == AllPairs(group)
    {
      for j := i + 1 to |group|
        invariant out + AllPairsFrom(group, i, j) == AllPairs(group)
      {
        AllPairsStep(group, i, j);
        if group[i].content == group[j].content {
          continue;
        }
        var p := Pair(group[i], group[j]);
        assert out + ([p] + AllPairsFrom(group, i, j + 1)) == (out + [p]) + AllPairsFrom(group, i, j + 1);
        out := out + [p];
      }
      AllPairsStep(group, i, |group|);
    }
    AllPairsStep(group, |group|, |group| + 1);
    assert out + [] == out;
  }

  lemma AllPairsStep(rows: seq<CurrentRow>, i: nat, j: nat)
    requires i < j
    ensures i >= |rows| ==> AllPairsFrom(rows, i, j) == []
    ensures i < |rows| <= j ==> AllPairsFrom(rows, i, j) == AllPairsFrom(rows, i + 1, i + 2)
    ensures j < |rows| && Clash(rows[i], rows[j]) ==>
              AllPairsFrom(rows, i, j) == [Pair(rows[i], rows[j])] + AllPairsFrom(rows, i, j + 1)
    ensures j < |rows| && !Clash(rows[i], rows[j]) ==> AllPairsFrom(rows, i, j) == AllPairsFrom(rows, i, j + 1)
  {
  }

  ghost predicate Collected(rows: seq<CurrentRow>, subjects: set<string>, out: seq<ConflictPair>) {
    && NoDup(out)
    && forall p :: p in out <==> p.subject in subjects && ClashOf(rows, p.subject, p)
  }

  lemma CollectGroup(rows: seq<CurrentRow>, subjects: set<string>, out: seq<ConflictPair>, s: string)
    requires DistinctIds(rows) && Collected(rows, subjects, out) && s !in subjects
    ensures Collected(rows, subjects + {s}, out + AllPairs(OfSubject(rows, s)))
  {
    hide AllPairsFrom, ClashOf, Clash;
    var ps := AllPairs(OfSubject(rows, s));
    OfSubjectDistinct(rows, s);
    AllPairsFromNoDup(OfSubject(rows, s), 0, 1);
    forall p ensures p in ps <==> ClashOf(rows, s, p) {
      AllPairsFromMembers(OfSubject(rows, s), 0, 1, p);
      GroupClashes(rows, s, p);
    }
    forall p | ClashOf(rows, s, p) ensures p.subject == s {
      ClashSubject(rows, s, p);
    }
    assert forall p :: p in out + ps <==> p in out || p in ps;
    assert forall i :: 0 <= i < |out| ==> out[i] in out;
    assert forall i :: 0 <= i < |ps| ==> ps[i] in ps;
  }

  lemma ClashSubject(rows: seq<CurrentRow>, s: string, p: ConflictPair)
    requires ClashOf(rows, s, p)
    ensures p.subject == s
  {
  }

  /** The scan returns the all-pairs result, sorted, whichever order the map iterates in. */
  method FindSubjectConflicts(rows: seq<CurrentRow>) returns (out: seq<ConflictPair>)
    requires DistinctIds(rows)
    ensures out == SortByKey(AllPairs(rows))
  {
    hide ClashOf, DistinctIds, AllPairs, SortByKey;
    var groups := GroupBySubject(rows);
    var pairs: seq<ConflictPair> := [];
    var left := groups.Keys;
    CollectNone(rows);
    while left != {}
      invariant left <= groups.Keys
      invariant Collected(rows, groups.Keys - left, pairs)
      decreases left
    {
      var s :| s in left;
      GroupOk(rows, s);
      CollectGroup(rows, groups.Keys - left, pairs, s);
      var ps := PairsWithin(groups[s]);
      pairs := pairs + ps;
      assert groups.Keys - left + {s} == groups.Keys - (left - {s});
      left := left - {s};
    }
    out := SortByKey(pairs);
    CollectedAll(rows, groups.Keys, pairs);
    SameSort(rows, pairs);
  }

  lemma CollectNone(rows: seq<CurrentRow>)
    ensures Collected(rows, {}, [])
  {
  }

  lemma GroupOk(rows: seq<CurrentRow>, s: string)
    requires DistinctIds(rows)
    ensures DistinctIds(OfSubject(rows, s))
    ensures var g := OfSubject(rows, s); forall i, j :: 0 <= i < j < |g| ==> g[i].subject == g[j].subject
  {
    OfSubjectDistinct(rows, s);
    var g := OfSubject(rows, s);
    forall i | 0 <= i < |g| ensures g[i].subject == s {
      OfSubjectMembers(rows, s, g[i]);
    }
  }

  lemma CollectedAll(rows: seq<CurrentRow>, subjects: set<string>, out: seq<ConflictPair>)
    requires Collected(rows, subjects, out)
    requires forall i :: 0 <= i < |rows| ==> rows[i].subject in subjects
    ensures NoDup(out) && forall p :: p in out <==> p in AllPairs(rows)
  {
    forall p ensures p in out <==> p in AllPairs(rows) {
      AllPairsFromMembers(rows, 0, 1, p);
      if ClashFrom(rows, 0, 1, p) {
        var k, l :| 0 <= k < l < |rows| && Clash(rows[k], rows[l]) && p == Pair(rows[k], rows[l]);
        assert Before(rows, rows[k], rows[l]);
      }
      if p in out {
        var a, b :| Before(rows, a, b) && Clash(a, b) && a.subject == p.subject && p == Pair(a, b);
        var i, j :| 0 <= i < j < |rows| && rows[i] == a && rows[j] == b;
        assert Clash(rows[i], rows[j]);
      }
    }
  }

  lemma {:induction false} NoDupCount(s: seq<ConflictPair>, p: ConflictPair)
    requires NoDup(s)
    ensures multiset(s)[p] == if p in s then 1 else 0
  {
    if s != [] {
      var front, last := s[..|s| - 1], s[|s| - 1];
      NoDupCount(front, p);
      assert s == front + [last];
      assert last !in front;
      assert multiset(s) == multiset(front) + multiset{last};
      hide NoDup;
    }
  }

  lemma SameSort(rows: seq<CurrentRow>, pairs: seq<ConflictPair>)
    requires DistinctIds(rows) && NoDup(pairs) && forall p :: p in pairs <==> p in AllPairs(rows)
    ensures SortByKey(pairs) == SortByKey(AllPairs(rows))
  {
    hide AllPairsFrom, SortByKey;
    var all := AllPairs(rows);
    AllPairsFromNoDup(rows, 0, 1);
    forall p ensures multiset(pairs)[p] == multiset(all)[p] {
      NoDupCount(pairs, p);
      NoDupCount(all, p);
    }
    assert multiset(pairs) == multiset(all);
    AllPairsKeys(rows);
    var sorted := SortByKey(pairs);
    assert forall p :: p in sorted ==> p in multiset(sorted);
    SortedUnique(sorted, SortByKey(all));
  }

  lemma IdIndex(rows: seq<CurrentRow>, k: nat, l: nat)
    requires DistinctIds(rows) && k < |rows| && l < |rows|
    ensures rows[k].id == rows[l].id ==> k == l
  {
  }

  /** With distinct ids a clash is identified by its two chunk ids. */
  lemma AllPairsKeys(rows: seq<CurrentRow>)
    requires DistinctIds(rows)
    ensures DistinctKeys(AllPairs(rows))
  {
    hide AllPairsFrom, DistinctIds;
    var all := AllPairs(rows);
    forall p, q | p in all && q in all && !KeyLess(p, q) && !KeyLess(q, p) ensures p == q {
      AllPairsFromMembers(rows, 0, 1, p);
      AllPairsFromMembers(rows, 0, 1, q);
      var k, l :| 0 <= k < l < |rows| && Clash(rows[k], rows[l]) && p == Pair(rows[k], rows[l]);
      var k', l' :| 0 <= k' < l' < |rows| && Clash(rows[k'], rows[l']) && q == Pair(rows[k'], rows[l']);
      IdIndex(rows, k, k');
      IdIndex(rows, l, l');
    }
  }

  /** `p` reports an earlier and a later row with the same subject and different content. */
  ghost predicate Reports(rows: seq<CurrentRow>, p: ConflictPair) {
    exists k, l :: 0 <= k < l < |rows| && rows[k].subject == rows[l].subject && rows[k].content != rows[l].content
                   && p == Pair(rows[k], rows[l])
  }

  /** What the result is, without reference to either loop: strictly sorted by the first id
      and then the second, no pair twice, and a pair is in it exactly when it reports an
      earlier and a later row with the same subject and different content. */
  lemma ConflictsExact(rows: seq<CurrentRow>)
    requires DistinctIds(rows)
    ensures var out := SortByKey(AllPairs(rows));
            && (forall i, j :: 0 <= i < j < |out| ==>
                  || out[i].fromChunk < out[j].fromChunk
                  || (out[i].fromChunk == out[j].fromChunk && out[i].toChunk < out[j].toChunk))
            && (forall p :: p in out <==> Reports(rows, p))
  {
    hide SortByKey, AllPairs;
    ConflictsSorted(rows);
    forall p ensures Reports(rows, p) <==> ClashFrom(rows, 0, 1, p) {
      ReportsClash(rows, p);
    }
  }

  lemma ReportsClash(rows: seq<CurrentRow>, p: ConflictPair)
    ensures Reports(rows, p) <==> ClashFrom(rows, 0, 1, p)
  {
    hide Pair;
    if Reports(rows, p) {
      var k, l :| 0 <= k < l < |rows| && rows[k].subject == rows[l].subject && rows[k].content != rows[l].content
        && p == Pair(rows[k], rows[l]);
      assert Clash(rows[k], rows[l]);
    }
    if ClashFrom(rows, 0, 1, p) {
      var k, l :| 0 <= k < l < |rows| && Clash(rows[k], rows[l]) && p == Pair(rows[k], rows[l]);
      assert rows[k].subject == rows[l].subject;
    }
  }

  lemma ConflictsSorted(rows: seq<CurrentRow>)
    requires DistinctIds(rows)
    ensures var out := SortByKey(AllPairs(rows));
            && (forall i, j :: 0 <= i < j < |out| ==> KeyLess(out[i], out[j]))
            && (forall p :: p in out <==> ClashFrom(rows, 0, 1, p))
  {
    hide AllPairsFrom, SortByKey;
    var all := AllPairs(rows);
    var out := SortByKey(all);
    AllPairsFromNoDup(rows, 0, 1);
    AllPairsKeys(rows);
    forall p ensures p in out <==> ClashFrom(rows, 0, 1, p) {
      AllPairsFromMembers(rows, 0, 1, p);
      assert p in out <==> p in multiset(out);
      assert p in all <==> p in multiset(all);
    }
    forall i, j | 0 <= i < j < |out| ensures KeyLess(out[i], out[j]) {
      if out[i] == out[j] {
        NoDupCount(all, out[i]);
        TwiceCounted(out, i, j);
      }
      assert out[i] in multiset(all) && out[j] in multiset(all);
    }
  }

  lemma TwiceCounted(s: seq<ConflictPair>, i: nat, j: nat)
    requires i < j < |s| && s[i] == s[j]
    ensures multiset(s)[s[i]] >= 2
  {
    assert s == s[..j] + [s[j]] + s[j + 1..];
    assert s[i] in s[..j] && multiset(s[..j])[s[i]] >= 1;
  }
}
