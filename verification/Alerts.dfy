/**
 The tick-driven alert watchers (src/alert.rs): proposal expiry, which fires once per
 tier crossed, and audit-chain integrity, which fires on transitions only.
 */
module Alerts {
  import opened Common

  const ALERT_CRITICAL_SECS: int := 5 * 60
  const ALERT_WARN_SECS: int := 60 * 60

  datatype Tier = Fine | Warn | Critical

  datatype Label = WarnLabel | CriticalLabel

  function TierOf(remaining: int): Tier {
    if remaining < ALERT_CRITICAL_SECS then Critical
    else if remaining < ALERT_WARN_SECS then Warn
    else Fine
  }

  function TierTransition(before: Tier, after: Tier): Option<Label> {
    match (before, after)
    case (Fine, Warn) => Some(WarnLabel)
    case (Fine, Critical) => Some(CriticalLabel)
    case (Warn, Critical) => Some(CriticalLabel)
    case _ => None
  }

  datatype Proposal = Proposal(id: int, createdAt: int)

  datatype Alert = Alert(id: int, signal: Label, expiresAt: int)

  /** One scan of the pending proposals; a failed scan sees none. */
  datatype Scan = Scan(pending: seq<Proposal>, now: int)

  // ---- one tick ----

  predicate Listed(pending: seq<Proposal>, id: int) {
    exists i :: 0 <= i < |pending| && pending[i].id == id
  }

  function Retained(last: map<int, Tier>, pending: seq<Proposal>): map<int, Tier> {
    map id | id in last && Listed(pending, id) :: last[id]
  }

  function Before(last: map<int, Tier>, id: int): Tier { if id in last then last[id] else Fine }

  function AlertFor(last: map<int, Tier>, p: Proposal, now: int, ttl: int): seq<Alert> {
    match TierTransition(Before(last, p.id), TierOf(p.createdAt + ttl - now))
    case None => []
    case Some(l) => [Alert(p.id, l, p.createdAt + ttl)]
  }

  /** The loop over one scan, after pruning. */
  function Visit(last: map<int, Tier>, pending: seq<Proposal>, now: int, ttl: int): (map<int, Tier>, seq<Alert>) {
    if pending == [] then (last, [])
    else
      var p := pending[|pending| - 1];
      var (mid, alerts) := Visit(last, pending[..|pending| - 1], now, ttl);
      (mid[p.id := TierOf(p.createdAt + ttl - now)], alerts + AlertFor(mid, p, now, ttl))
  }

  lemma VisitNone(last: map<int, Tier>, now: int, ttl: int)
    ensures Visit(last, [], now, ttl) == (last, [])
  {
  }

  lemma VisitPush(last: map<int, Tier>, pending: seq<Proposal>, p: Proposal, now: int, ttl: int)
    ensures var (mid, alerts) := Visit(last, pending, now, ttl);
            Visit(last, pending + [p], now, ttl)
            == (mid[p.id := TierOf(p.createdAt + ttl - now)], alerts + AlertFor(mid, p, now, ttl))
  {
    assert (pending + [p])[..|pending|] == pending;
  }

  class ExpiryWatcher {
    var lastTier: map<int, Tier>
    var published: seq<Alert>
    const ttl: int

    constructor (ttl: int)
      ensures lastTier == map[] && published == [] && this.ttl == ttl
    {
      lastTier, published, this.ttl := map[], [], ttl;
    }

    method Tick(scan: Scan)
      modifies this
      ensures (lastTier, published)
           == var (m, alerts) := Visit(Retained(old(lastTier), scan.pending), scan.pending, scan.now, ttl);
              (m, old(published) + alerts)
    {
      hide Visit, TierOf, TierTransition;
      VisitNone(map id | id in lastTier && Listed(scan.pending, id) :: lastTier[id], scan.now, ttl);
      lastTier := map id | id in lastTier && Listed(scan.pending, id) :: lastTier[id];
      ghost var start := lastTier;
      ghost var alerts: seq<Alert> := [];
      for i := 0 to |scan.pending|
        invariant Visit(start, scan.pending[..i], scan.now, ttl) == (lastTier, alerts)
        invariant published == old(published) + alerts
      {
        var p := scan.pending[i];
        assert scan.pending[..i + 1] == scan.pending[..i] + [p];
        VisitPush(start, scan.pending[..i], p, scan.now, ttl);
        var after := TierOf(p.createdAt + ttl - scan.now);
        var before := if p.id in lastTier then lastTier[p.id] else Fine;
        lastTier := lastTier[p.id := after];
        var t := TierTransition(before, after);
        if t.Some? {
          published := published + [Alert(p.id, t.value, p.createdAt + ttl)];
          alerts := alerts + [Alert(p.id, t.value, p.createdAt + ttl)];
        } else {
          assert alerts + [] == alerts;
        }
      }
      assert scan.pending[..|scan.pending|] == scan.pending;
    }
  }

  // ---- runs ----

  function Run(scans: seq<Scan>, ttl: int): (map<int, Tier>, seq<Alert>) {
    if scans == [] then (map[], [])
    else
      var s := scans[|scans| - 1];
      var (last, alerts) := Run(scans[..|scans| - 1], ttl);
      var (next, added) := Visit(Retained(last, s.pending), s.pending, s.now, ttl);
      (next, alerts + added)
  }

  /** The labels published for one proposal, in order. */
  function LabelsFor(alerts: seq<Alert>, id: int): seq<Label> {
    if alerts == [] then []
    else LabelsFor(alerts[..|alerts| - 1], id)
         + (if alerts[|alerts| - 1].id == id then [alerts[|alerts| - 1].signal] else [])
  }

  lemma {:induction false} LabelsForAppend(x: seq<Alert>, y: seq<Alert>, id: int)
    ensures LabelsFor(x + y, id) == LabelsFor(x, id) + LabelsFor(y, id)
  {
    if y == [] {
      assert x + y == x;
    } else {
      assert (x + y)[..|x + y| - 1] == x + y[..|y| - 1];
      LabelsForAppend(x, y[..|y| - 1], id);
    }
  }

  /** Ids are a primary key: no proposal is listed twice. */
  ghost predicate DistinctIds(pending: seq<Proposal>) {
    forall i, j :: 0 <= i < j < |pending| ==> pending[i].id != pending[j].id
  }

  lemma {:induction false} VisitOther(last: map<int, Tier>, pending: seq<Proposal>, now: int, ttl: int, id: int)
    requires !Listed(pending, id)
    ensures var (m, alerts) := Visit(last, pending, now, ttl);
            && (id in m <==> id in last) && (id in m ==> m[id] == last[id])
            && LabelsFor(alerts, id) == []
  {
    if pending != [] {
      var front, p := pending[..|pending| - 1], pending[|pending| - 1];
      assert forall k :: 0 <= k < |front| ==> front[k] == pending[k];
      VisitOther(last, front, now, ttl, id);
      var (mid, alerts) := Visit(last, front, now, ttl);
      LabelsForAppend(alerts, AlertFor(mid, p, now, ttl), id);
    }
  }

  /** A listed proposal is visited once: its tier is recorded and its one transition published. */
  lemma {:induction false} VisitListed(last: map<int, Tier>, pending: seq<Proposal>, now: int, ttl: int, k: nat)
    requires DistinctIds(pending) && k < |pending|
    ensures var (m, alerts) := Visit(last, pending, now, ttl);
            var p := pending[k];
            && p.id in m && m[p.id] == TierOf(p.createdAt + ttl - now)
            && LabelsFor(alerts, p.id) == LabelsFor(AlertFor(last, p, now, ttl), p.id)
  {
    hide LabelsFor, AlertFor;
    var front, q, p := pending[..|pending| - 1], pending[|pending| - 1], pending[k];
    var (mid, alerts) := Visit(last, front, now, ttl);
    LabelsForAppend(alerts, AlertFor(mid, q, now, ttl), p.id);
    if k < |front| {
      VisitListed(last, front, now, ttl, k);
      OtherAlert(mid, q, now, ttl, p.id);
      assert LabelsFor(alerts, p.id) + [] == LabelsFor(alerts, p.id);
    } else {
      assert !Listed(front, p.id);
      VisitOther(last, front, now, ttl, p.id);
      SameBefore(last, mid, p, now, ttl);
      assert [] + LabelsFor(AlertFor(mid, q, now, ttl), p.id) == LabelsFor(AlertFor(mid, q, now, ttl), p.id);
    }
  }

  lemma OtherAlert(last: map<int, Tier>, q: Proposal, now: int, ttl: int, id: int)
    requires q.id != id
    ensures LabelsFor(AlertFor(last, q, now, ttl), id) == []
  {
  }

  lemma SameBefore(last: map<int, Tier>, last': map<int, Tier>, p: Proposal, now: int, ttl: int)
    requires Before(last, p.id) == Before(last', p.id)
    ensures AlertFor(last, p, now, ttl) == AlertFor(last', p, now, ttl)
  {
  }

  /** Every alert published over a run is about a proposal some scan listed, with its true
      expiry time. */
  lemma {:induction false} AlertsTruthful(scans: seq<Scan>, ttl: int, a: Alert)
    requires a in Run(scans, ttl).1
    ensures exists i, p :: 0 <= i < |scans| && p in scans[i].pending && a.id == p.id && a.expiresAt == p.createdAt + ttl
  {
    var front, s := scans[..|scans| - 1], scans[|scans| - 1];
    var (last, alerts) := Run(front, ttl);
    if a in alerts {
      AlertsTruthful(front, ttl, a);
      var i, p :| 0 <= i < |front| && p in front[i].pending && a.id == p.id && a.expiresAt == p.createdAt + ttl;
      assert front[i] == scans[i];
    } else {
      VisitTruthful(Retained(last, s.pending), s.pending, s.now, ttl, a);
    }
  }

  lemma {:induction false} VisitTruthful(last: map<int, Tier>, pending: seq<Proposal>, now: int, ttl: int, a: Alert)
    requires a in Visit(last, pending, now, ttl).1
    ensures exists p :: p in pending && a.id == p.id && a.expiresAt == p.createdAt + ttl
  {
    var front, q := pending[..|pending| - 1], pending[|pending| - 1];
    var (mid, alerts) := Visit(last, front, now, ttl);
    if a in alerts {
      VisitTruthful(last, front, now, ttl, a);
    } else {
      assert q in pending && a in AlertFor(mid, q, now, ttl);
    }
  }

  // ---- what one proposal sees ----

  ghost predicate ValidScans(scans: seq<Scan>) {
    forall i :: 0 <= i < |scans| ==> DistinctIds(scans[i].pending)
  }

  /** The tier a scan sees an id in; a scan that does not list the id counts as `Fine`. */
  ghost function TierSeen(s: Scan, ttl: int, id: int): Tier {
    if Listed(s.pending, id) then
      var k :| 0 <= k < |s.pending| && s.pending[k].id == id;
      TierOf(s.pending[k].createdAt + ttl - s.now)
    else Fine
  }

  lemma TierSeenOf(s: Scan, ttl: int, p: Proposal)
    requires DistinctIds(s.pending) && p in s.pending
    ensures Listed(s.pending, p.id) && TierSeen(s, ttl, p.id) == TierOf(p.createdAt + ttl - s.now)
  {
    var k :| 0 <= k < |s.pending| && s.pending[k] == p;
    assert s.pending[k].id == p.id;
  }

  /** The tiers a run of scans sees one id in. */
  ghost function Tiers(scans: seq<Scan>, ttl: int, id: int): seq<Tier> {
    seq(|scans|, i requires 0 <= i < |scans| => TierSeen(scans[i], ttl, id))
  }

  /** The tier scan `k` is compared with: that of the scan just before, `Fine` at the first. */
  function Previous(tiers: seq<Tier>, k: nat): Tier
    requires k <= |tiers|
  {
    if k == 0 then Fine else tiers[k - 1]
  }

  /** The watcher remembers nothing but the previous scan. */
  lemma {:induction false} Remembered(scans: seq<Scan>, ttl: int, id: int)
    requires ValidScans(scans)
    ensures Before(Run(scans, ttl).0, id) == Previous(Tiers(scans, ttl, id), |scans|)
    ensures id in Run(scans, ttl).0 <==> scans != [] && Listed(scans[|scans| - 1].pending, id)
  {
    if scans != [] {
      var s := scans[|scans| - 1];
      var last := Run(scans[..|scans| - 1], ttl).0;
      if Listed(s.pending, id) {
        var k :| 0 <= k < |s.pending| && s.pending[k].id == id;
        VisitListed(Retained(last, s.pending), s.pending, s.now, ttl, k);
        TierSeenOf(s, ttl, s.pending[k]);
      } else {
        VisitOther(Retained(last, s.pending), s.pending, s.now, ttl, id);
      }
    }
  }

  /** The label of a rise from one tier to another, if any. */
  function Rise(before: Tier, after: Tier): seq<Label> {
    var t := TierTransition(before, after);
    if t.Some? then [t.value] else []
  }

  /** The labels one more scan adds for an id, for every run: the rise from the tier of the
      previous scan to its own. */
  lemma ScanLabels(scans: seq<Scan>, s: Scan, ttl: int, id: int)
    requires ValidScans(scans + [s])
    ensures LabelsFor(Run(scans + [s], ttl).1, id)
         == LabelsFor(Run(scans, ttl).1, id) + Rise(Previous(Tiers(scans, ttl, id), |scans|), TierSeen(s, ttl, id))
  {
    hide LabelsFor, Visit, TierSeen, Rise, Tiers, Listed;
    assert (scans + [s])[..|scans|] == scans;
    assert (scans + [s])[|scans|] == s;
    assert ValidScans(scans) by {
      assert forall i :: 0 <= i < |scans| ==> scans[i] == (scans + [s])[i];
    }
    Remembered(scans, ttl, id);
    var (last, alerts) := Run(scans, ttl);
    LabelsForAppend(alerts, Visit(Retained(last, s.pending), s.pending, s.now, ttl).1, id);
    VisitLabels(last, s, ttl, id);
  }

  lemma VisitLabels(last: map<int, Tier>, s: Scan, ttl: int, id: int)
    requires DistinctIds(s.pending)
    ensures LabelsFor(Visit(Retained(last, s.pending), s.pending, s.now, ttl).1, id)
         == Rise(Before(last, id), TierSeen(s, ttl, id))
  {
    hide LabelsFor, Visit, AlertFor, TierOf, TierTransition, TierSeen, Rise;
    var start := Retained(last, s.pending);
    if Listed(s.pending, id) {
      var k :| 0 <= k < |s.pending| && s.pending[k].id == id;
      VisitListed(start, s.pending, s.now, ttl, k);
      assert Before(start, id) == Before(last, id);
      OwnAlert(start, s.pending[k], s.now, ttl);
      TierSeenOf(s, ttl, s.pending[k]);
    } else {
      VisitOther(start, s.pending, s.now, ttl, id);
      NoRise(s, ttl, id, Before(last, id));
    }
  }

  lemma NoRise(s: Scan, ttl: int, id: int, before: Tier)
    requires !Listed(s.pending, id)
    ensures Rise(before, TierSeen(s, ttl, id)) == []
  {
  }

  lemma OwnAlert(last: map<int, Tier>, p: Proposal, now: int, ttl: int)
    ensures LabelsFor(AlertFor(last, p, now, ttl), p.id)
         == Rise(Before(last, p.id), TierOf(p.createdAt + ttl - now))
  {
    var t := TierTransition(Before(last, p.id), TierOf(p.createdAt + ttl - now));
    if t.Some? {
      var a := Alert(p.id, t.value, p.createdAt + ttl);
      assert [a][..0] == [];
      assert LabelsFor([a], p.id) == LabelsFor([a][..0], p.id) + [a.signal];
    }
  }

  // ---- how often each label is published ----

  /** Scan `k` is the first of a stretch of scans that see the id critical. */
  predicate CriticalBegins(tiers: seq<Tier>, k: int) {
    0 <= k < |tiers| && tiers[k] == Critical && Previous(tiers, k) != Critical
  }

  /** Scan `k` sees the id in the warning tier right after `Fine`, or first. */
  predicate WarnBegins(tiers: seq<Tier>, k: int) {
    0 <= k < |tiers| && tiers[k] == Warn && Previous(tiers, k) == Fine
  }

  function CriticalScans(tiers: seq<Tier>): set<int> {
    set k | 0 <= k < |tiers| && CriticalBegins(tiers, k)
  }

  function WarnScans(tiers: seq<Tier>): set<int> {
    set k | 0 <= k < |tiers| && WarnBegins(tiers, k)
  }

  lemma ScansPush(tiers: seq<Tier>, t: Tier)
    ensures CriticalScans(tiers + [t])
         == CriticalScans(tiers) + (if t == Critical && Previous(tiers, |tiers|) != Critical then {|tiers|} else {})
    ensures WarnScans(tiers + [t])
         == WarnScans(tiers) + (if t == Warn && Previous(tiers, |tiers|) == Fine then {|tiers|} else {})
    ensures |tiers| !in CriticalScans(tiers) && |tiers| !in WarnScans(tiers)
  {
    var all := tiers + [t];
    forall k | 0 <= k < |all|
      ensures CriticalBegins(all, k) <==> if k < |tiers| then CriticalBegins(tiers, k) else t == Critical && Previous(tiers, |tiers|) != Critical
      ensures WarnBegins(all, k) <==> if k < |tiers| then WarnBegins(tiers, k) else t == Warn && Previous(tiers, |tiers|) == Fine
    {
      assert Previous(all, k) == Previous(tiers, k);
    }
  }

  lemma TiersPush(scans: seq<Scan>, s: Scan, ttl: int, id: int)
    ensures Tiers(scans + [s], ttl, id) == Tiers(scans, ttl, id) + [TierSeen(s, ttl, id)]
  {
  }

  lemma RiseCounts(labels: seq<Label>, before: Tier, after: Tier)
    ensures multiset(labels + Rise(before, after))[CriticalLabel]
         == multiset(labels)[CriticalLabel] + (if after == Critical && before != Critical then 1 else 0)
    ensures multiset(labels + Rise(before, after))[WarnLabel]
         == multiset(labels)[WarnLabel] + (if after == Warn && before == Fine then 1 else 0)
  {
  }

  /** For every run and every id: "critical" is published once per stretch of scans that see
      it critical, and "warn" once per scan that sees it in the warning tier right after
      `Fine` or first. */
  lemma {:induction false} LabelCounts(scans: seq<Scan>, ttl: int, id: int)
    requires ValidScans(scans)
    ensures var labels := LabelsFor(Run(scans, ttl).1, id);
            && multiset(labels)[CriticalLabel] == |CriticalScans(Tiers(scans, ttl, id))|
            && multiset(labels)[WarnLabel] == |WarnScans(Tiers(scans, ttl, id))|
  {
    if scans == [] {
      assert CriticalScans(Tiers(scans, ttl, id)) == {} && WarnScans(Tiers(scans, ttl, id)) == {};
    } else {
      hide Run, LabelsFor, Tiers, TierSeen, Rise, CriticalScans, WarnScans;
      var front, s := scans[..|scans| - 1], scans[|scans| - 1];
      assert scans == front + [s];
      LabelCounts(front, ttl, id);
      ScanLabels(front, s, ttl, id);
      TiersPush(front, s, ttl, id);
      assert |Tiers(front, ttl, id)| == |front| by { TiersLength(front, ttl, id); }
      ScansPush(Tiers(front, ttl, id), TierSeen(s, ttl, id));
      RiseCounts(LabelsFor(Run(front, ttl).1, id), Previous(Tiers(front, ttl, id), |front|), TierSeen(s, ttl, id));
    }
  }

  lemma TiersLength(scans: seq<Scan>, ttl: int, id: int)
    ensures |Tiers(scans, ttl, id)| == |scans|
  {
  }

  /** No scan between two that see the id critical sees it otherwise. */
  ghost predicate CriticalsConsecutive(tiers: seq<Tier>) {
    forall i, k, j :: 0 <= i < k < j < |tiers| && tiers[i] == Critical && tiers[j] == Critical ==> tiers[k] == Critical
  }

  lemma AtMostOne<T>(s: set<T>)
    ensures |s| <= 1 <==> forall x, y :: x in s && y in s ==> x == y
  {
    if s != {} {
      var x :| x in s;
      assert |s| == |s - {x}| + 1;
      if s - {x} != {} {
        var y :| y in s - {x};
      } else {
        assert s == {x};
      }
    }
  }

  /** The scan at which the stretch holding scan `k` began. */
  function StretchStart(tiers: seq<Tier>, k: nat): (r: nat)
    requires k < |tiers| && tiers[k] == Critical
    ensures r <= k && CriticalBegins(tiers, r) && forall i :: r <= i <= k ==> tiers[i] == Critical
  {
    if Previous(tiers, k) == Critical then StretchStart(tiers, k - 1) else k
  }

  lemma OneStretch(tiers: seq<Tier>)
    ensures |CriticalScans(tiers)| <= 1 <==> CriticalsConsecutive(tiers)
  {
    var s := CriticalScans(tiers);
    AtMostOne(s);
    if CriticalsConsecutive(tiers) {
      forall x, y | x in s && y in s ensures x == y {
        var lo, hi := if x < y then x else y, if x < y then y else x;
        assert CriticalBegins(tiers, lo) && CriticalBegins(tiers, hi);
      }
    }
    if |s| <= 1 {
      forall i, k, j | 0 <= i < k < j < |tiers| && tiers[i] == Critical && tiers[j] == Critical ensures tiers[k] == Critical {
        assert StretchStart(tiers, i) in s && StretchStart(tiers, j) in s;
      }
    }
  }

  /** At most one "critical" exactly when the scans that see the proposal critical are
      consecutive: a missed scan, or a clock stepping back, between two of them repeats it. */
  lemma CriticalOnce(scans: seq<Scan>, ttl: int, id: int)
    requires ValidScans(scans)
    ensures multiset(LabelsFor(Run(scans, ttl).1, id))[CriticalLabel] <= 1
        <==> CriticalsConsecutive(Tiers(scans, ttl, id))
  {
    hide *;
    LabelCounts(scans, ttl, id);
    OneStretch(Tiers(scans, ttl, id));
  }

  /** At most one "warn" exactly when no two scans see the proposal in the warning tier right
      after `Fine` or first. */
  lemma WarnOnce(scans: seq<Scan>, ttl: int, id: int)
    requires ValidScans(scans)
    ensures multiset(LabelsFor(Run(scans, ttl).1, id))[WarnLabel] <= 1
        <==> forall i, j :: WarnBegins(Tiers(scans, ttl, id), i) && WarnBegins(Tiers(scans, ttl, id), j) ==> i == j
  {
    hide LabelsFor, Run, Tiers, WarnBegins;
    LabelCounts(scans, ttl, id);
    var tiers := Tiers(scans, ttl, id);
    AtMostOne(WarnScans(tiers));
    forall k ensures k in WarnScans(tiers) <==> WarnBegins(tiers, k) {
      WarnScansHold(tiers, k);
    }
  }

  lemma WarnScansHold(tiers: seq<Tier>, k: int)
    ensures k in WarnScans(tiers) <==> WarnBegins(tiers, k)
  {
  }

  /** No "warn" after a "critical". */
  ghost predicate WarnFirst(labels: seq<Label>) {
    forall a, b :: 0 <= a < b < |labels| ==> labels[a] != CriticalLabel || labels[b] != WarnLabel
  }

  /** No scan begins a warning after one that saw the id critical. */
  ghost predicate NoLateWarning(tiers: seq<Tier>) {
    forall i, j :: 0 <= i < j < |tiers| ==> tiers[i] != Critical || !WarnBegins(tiers, j)
  }

  lemma WarnFirstPush(labels: seq<Label>, before: Tier, after: Tier)
    ensures WarnFirst(labels + Rise(before, after))
        <==> WarnFirst(labels) && (after == Warn && before == Fine ==> CriticalLabel !in labels)
  {
    var rise := Rise(before, after);
    var all := labels + rise;
    assert forall a :: 0 <= a < |labels| ==> all[a] == labels[a];
    if rise != [] {
      assert |rise| == 1 && all[|labels|] == rise[0] && (rise[0] == WarnLabel <==> after == Warn && before == Fine);
      if CriticalLabel in labels {
        var a :| 0 <= a < |labels| && labels[a] == CriticalLabel;
        assert all[a] == CriticalLabel;
      }
    } else {
      assert all == labels;
    }
  }

  lemma NoLateWarningPush(tiers: seq<Tier>, t: Tier)
    ensures NoLateWarning(tiers + [t])
        <==> NoLateWarning(tiers) && (t == Warn && Previous(tiers, |tiers|) == Fine ==> Critical !in tiers)
  {
    var all := tiers + [t];
    assert forall i :: 0 <= i < |tiers| ==> all[i] == tiers[i] && (WarnBegins(all, i) <==> WarnBegins(tiers, i));
    assert WarnBegins(all, |tiers|) <==> t == Warn && Previous(tiers, |tiers|) == Fine;
    if Critical in tiers {
      var i :| 0 <= i < |tiers| && tiers[i] == Critical;
      assert all[i] == Critical;
    }
  }

  /** A "critical" is published if and only if some scan saw the id critical. */
  lemma CriticalPublished(scans: seq<Scan>, ttl: int, id: int)
    requires ValidScans(scans)
    ensures CriticalLabel in LabelsFor(Run(scans, ttl).1, id) <==> Critical in Tiers(scans, ttl, id)
  {
    hide LabelsFor, Run, Tiers;
    LabelCounts(scans, ttl, id);
    var tiers := Tiers(scans, ttl, id);
    if Critical in tiers {
      var k :| 0 <= k < |tiers| && tiers[k] == Critical;
      assert StretchStart(tiers, k) in CriticalScans(tiers);
    } else {
      assert CriticalScans(tiers) == {};
    }
  }

  /** Over every run, no "warn" comes after a "critical" exactly when no scan begins a
      warning after one that saw the id critical. */
  lemma {:induction false} LabelOrder(scans: seq<Scan>, ttl: int, id: int)
    requires ValidScans(scans)
    ensures WarnFirst(LabelsFor(Run(scans, ttl).1, id)) <==> NoLateWarning(Tiers(scans, ttl, id))
  {
    if scans != [] {
      hide Run, LabelsFor, Tiers, TierSeen, WarnFirst, NoLateWarning, Rise;
      var front, s := scans[..|scans| - 1], scans[|scans| - 1];
      assert scans == front + [s];
      LabelOrder(front, ttl, id);
      ScanLabels(front, s, ttl, id);
      TiersPush(front, s, ttl, id);
      var tiers := Tiers(front, ttl, id);
      CriticalPublished(front, ttl, id);
      assert |tiers| == |front| by { TiersLength(front, ttl, id); }
      NoLateWarningPush(tiers, TierSeen(s, ttl, id));
      WarnFirstPush(LabelsFor(Run(front, ttl).1, id), Previous(tiers, |front|), TierSeen(s, ttl, id));
    }
  }

  /** Each boundary announced at most once, the warning before the critical. */
  ghost predicate OncePerBoundary(labels: seq<Label>) {
    labels == [] || labels == [WarnLabel] || labels == [CriticalLabel] || labels == [WarnLabel, CriticalLabel]
  }

  lemma OncePerBoundaryCounts(labels: seq<Label>)
    ensures OncePerBoundary(labels)
        <==> WarnFirst(labels) && multiset(labels)[WarnLabel] <= 1 && multiset(labels)[CriticalLabel] <= 1
  {
    if |labels| >= 3 {
      assert labels == [labels[0], labels[1], labels[2]] + labels[3..];
    } else if |labels| == 2 {
      TwoLabels(labels);
    } else if |labels| == 1 {
      match labels[0]
      case WarnLabel => assert labels == [WarnLabel];
      case CriticalLabel => assert labels == [CriticalLabel];
    }
  }

  lemma TwoLabels(labels: seq<Label>)
    requires |labels| == 2
    ensures OncePerBoundary(labels) <==> labels[0] == WarnLabel && labels[1] == CriticalLabel
    ensures WarnFirst(labels) <==> labels[0] != CriticalLabel || labels[1] != WarnLabel
    ensures labels[0] != labels[1] <==> multiset(labels)[WarnLabel] <= 1 && multiset(labels)[CriticalLabel] <= 1
  {
    assert labels == [labels[0], labels[1]];
    match labels[0]
    case WarnLabel =>
    case CriticalLabel =>
  }

  /** Exactly when a run announces each boundary at most once and in order: the scans that
      see the proposal critical are consecutive, at most one warning begins, and none begins
      after a critical scan. */
  lemma OncePerBoundaryExactly(scans: seq<Scan>, ttl: int, id: int)
    requires ValidScans(scans)
    ensures var tiers := Tiers(scans, ttl, id);
            OncePerBoundary(LabelsFor(Run(scans, ttl).1, id))
            <==> && CriticalsConsecutive(tiers) && NoLateWarning(tiers)
                 && (forall i, j :: WarnBegins(tiers, i) && WarnBegins(tiers, j) ==> i == j)
  {
    hide *;
    OncePerBoundaryCounts(LabelsFor(Run(scans, ttl).1, id));
    LabelOrder(scans, ttl, id);
    CriticalOnce(scans, ttl, id);
    WarnOnce(scans, ttl, id);
  }

  // ---- a proposal present in every scan since it was first seen ----

  /** Every scan lists the proposal, and the clock does not run backwards. */
  ghost predicate PresentThroughout(scans: seq<Scan>, p: Proposal) {
    && (forall i :: 0 <= i < |scans| ==> p in scans[i].pending)
    && (forall i, j :: 0 <= i < j < |scans| ==> scans[i].now <= scans[j].now)
  }

  ghost predicate NeverListed(scans: seq<Scan>, id: int) {
    forall i :: 0 <= i < |scans| ==> !Listed(scans[i].pending, id)
  }

  /** The tiers in seconds left: an hour and more, under an hour, under five minutes. */
  predicate Within(remaining: int, tier: Tier) {
    match tier
    case Fine => remaining >= 3600
    case Warn => 300 <= remaining < 3600
    case Critical => remaining < 300
  }

  /** Some scan saw the proposal with that many seconds left. */
  ghost predicate EverSeen(scans: seq<Scan>, ttl: int, p: Proposal, tier: Tier) {
    exists i :: 0 <= i < |scans| && Within(p.createdAt + ttl - scans[i].now, tier)
  }

  /** One "warn" if the warning tier was ever seen, then one "critical" if the critical was. */
  ghost function Expected(scans: seq<Scan>, ttl: int, p: Proposal): seq<Label> {
    (if EverSeen(scans, ttl, p, Warn) then [WarnLabel] else [])
    + (if EverSeen(scans, ttl, p, Critical) then [CriticalLabel] else [])
  }

  /** Once per crossing: for a proposal that no scan listed up to some point and every scan
      lists from there on, the labels published are one "warn" if any scan saw it in the
      warning tier, then one "critical" if any saw it in the critical tier, and nothing else. */
  lemma {:induction false} OncePerCrossing(before: seq<Scan>, after: seq<Scan>, ttl: int, p: Proposal)
    requires ValidScans(before + after) && NeverListed(before, p.id) && PresentThroughout(after, p)
    ensures LabelsFor(Run(before + after, ttl).1, p.id) == Expected(after, ttl, p)
    decreases |after|
  {
    hide Run, LabelsFor, EverSeen, TierOf, TierTransition, Before, TierSeen, Listed, Tiers, Rise;
    if after == [] {
      assert before + after == before;
      Unseen(before, ttl, p.id);
      NotEverSeen(ttl, p);
    } else {
      var front, s := after[..|after| - 1], after[|after| - 1];
      var sofar := before + front;
      assert before + after == sofar + [s];
      assert forall i :: 0 <= i < |sofar| ==> sofar[i] == (before + after)[i];
      assert s == (before + after)[|sofar|];
      assert after == front + [s];
      assert forall i :: 0 <= i < |front| ==> front[i] == after[i];
      OncePerCrossing(before, front, ttl, p);
      ScanLabels(sofar, s, ttl, p.id);
      TierSeenOf(s, ttl, p);
      PreviousTier(before, front, ttl, p);
      ExpectedPush(front, s, ttl, p);
    }
  }

  /** Scans that do not list an id publish nothing about it. */
  lemma {:induction false} Unseen(scans: seq<Scan>, ttl: int, id: int)
    requires ValidScans(scans) && NeverListed(scans, id)
    ensures LabelsFor(Run(scans, ttl).1, id) == []
  {
    if scans != [] {
      hide Run, LabelsFor, TierSeen, Listed, Rise;
      var front, s := scans[..|scans| - 1], scans[|scans| - 1];
      assert scans == front + [s];
      Unseen(front, ttl, id);
      ScanLabels(front, s, ttl, id);
      NoRise(s, ttl, id, Previous(Tiers(front, ttl, id), |front|));
    }
  }

  lemma PreviousTier(before: seq<Scan>, front: seq<Scan>, ttl: int, p: Proposal)
    requires ValidScans(before + front) && NeverListed(before, p.id) && PresentThroughout(front, p)
    ensures Previous(Tiers(before + front, ttl, p.id), |before + front|)
         == if front == [] then Fine else TierOf(p.createdAt + ttl - front[|front| - 1].now)
  {
    hide TierOf;
    var all := before + front;
    if front != [] {
      assert all[|all| - 1] == front[|front| - 1];
      TierSeenOf(front[|front| - 1], ttl, p);
    } else if before != [] {
      assert all[|all| - 1] == before[|before| - 1];
    }
  }

  lemma ExpectedPush(front: seq<Scan>, s: Scan, ttl: int, p: Proposal)
    requires PresentThroughout(front + [s], p)
    ensures var before := if front == [] then Fine else TierOf(p.createdAt + ttl - front[|front| - 1].now);
            Expected(front + [s], ttl, p) == Expected(front, ttl, p) + Rise(before, TierOf(p.createdAt + ttl - s.now))
  {
    hide EverSeen;
    EverSeenPush(front, s, ttl, p);
    var all := front + [s];
    assert all[|front|] == s;
    if front != [] {
      assert forall i :: 0 <= i < |front| ==> all[i] == front[i];
      assert PresentThroughout(front, p);
      TiersRise(front, ttl, p);
    } else {
      NotEverSeen(ttl, p);
    }
  }

  lemma NotEverSeen(ttl: int, p: Proposal)
    ensures forall tier :: !EverSeen([], ttl, p, tier)
  {
  }

  lemma EverSeenPush(front: seq<Scan>, s: Scan, ttl: int, p: Proposal)
    ensures forall tier :: EverSeen(front + [s], ttl, p, tier)
              <==> EverSeen(front, ttl, p, tier) || TierOf(p.createdAt + ttl - s.now) == tier
  {
    var all := front + [s];
    forall tier ensures EverSeen(all, ttl, p, tier)
      <==> EverSeen(front, ttl, p, tier) || TierOf(p.createdAt + ttl - s.now) == tier
    {
      assert all[|front|] == s;
      assert forall i :: 0 <= i < |front| ==> all[i] == front[i];
    }
  }

  /** The last scan shows the worst tier so far. */
  lemma TiersRise(scans: seq<Scan>, ttl: int, p: Proposal)
    requires scans != [] && PresentThroughout(scans, p)
    ensures var now := TierOf(p.createdAt + ttl - scans[|scans| - 1].now);
            && (EverSeen(scans, ttl, p, Critical) <==> now == Critical)
            && (EverSeen(scans, ttl, p, Warn) ==> now != Fine)
            && (now == Warn ==> EverSeen(scans, ttl, p, Warn))
  {
    assert forall i :: 0 <= i < |scans| ==> scans[i].now <= scans[|scans| - 1].now;
  }

  /** A run that repeats an alert: after a scan that misses the proposal, such as a failed one,
      the next scan that finds it critical alerts again, whatever went before. */
  lemma MissedScanAlertsAgain(scans: seq<Scan>, missed: Scan, s: Scan, ttl: int, p: Proposal)
    requires ValidScans(scans + [missed] + [s]) && !Listed(missed.pending, p.id) && p in s.pending
    requires p.createdAt + ttl - s.now < ALERT_CRITICAL_SECS
    ensures LabelsFor(Run(scans + [missed] + [s], ttl).1, p.id)
         == LabelsFor(Run(scans, ttl).1, p.id) + [CriticalLabel]
  {
    hide Run, LabelsFor;
    var front := scans + [missed];
    assert ValidScans(front) by {
      assert forall i :: 0 <= i < |front| ==> front[i] == (front + [s])[i];
    }
    ScanLabels(scans, missed, ttl, p.id);
    NoRise(missed, ttl, p.id, Previous(Tiers(scans, ttl, p.id), |scans|));
    ScanLabels(front, s, ttl, p.id);
    assert front[|front| - 1] == missed;
    assert s == (front + [s])[|front|];
    TierSeenOf(s, ttl, p);
  }

  // ---- the chain watcher ----

  datatype Severity = Danger | Recovered

  function ChainTransition(prev: Option<bool>, ok: bool): Option<Severity> {
    match (prev, ok)
    case (Some(true), false) => Some(Danger)
    case (Some(false), true) => Some(Recovered)
    case (None, false) => Some(Danger)
    case _ => None
  }

  class ChainWatcher {
    var prev: Option<bool>
    var published: seq<Severity>

    constructor ()
      ensures prev == None && published == []
    {
      prev, published := None, [];
    }

    method Tick(ok: bool)
      modifies this
      ensures prev == Some(ok)
      ensures published == old(published)
           + (if ChainTransition(old(prev), ok).Some? then [ChainTransition(old(prev), ok).value] else [])
    {
      var t := ChainTransition(prev, ok);
      if t.Some? {
        published := published + [t.value];
      }
      prev := Some(ok);
    }
  }

  /** Everything published over a sequence of checks. */
  function Severities(checks: seq<bool>): seq<Severity> {
    if checks == [] then []
    else
      var n := |checks| - 1;
      var t := ChainTransition(if n == 0 then None else Some(checks[n - 1]), checks[n]);
      Severities(checks[..n]) + (if t.Some? then [t.value] else [])
  }

  /** Published severities alternate, beginning with "danger", and the last one tells the
      current posture: silence or recovery means the last check passed. */
  lemma {:induction false} SeveritiesAlternate(checks: seq<bool>)
    ensures var s := Severities(checks);
            && (forall i :: 0 <= i < |s| ==> s[i] == if i % 2 == 0 then Danger else Recovered)
            && (checks != [] ==> (checks[|checks| - 1] <==> |s| % 2 == 0))
  {
    if checks != [] {
      SeveritiesAlternate(checks[..|checks| - 1]);
    }
  }
}
