/**
 Which helper functions of a test file resolve a path against the repository root
 (`repo_paths` in scripts/test-census.py): a set grown in place, pass after pass over
 the helpers in dictionary order, until a pass changes nothing.
 */
module Census {

  /** What the source text of a helper shows: it anchors a path itself, it hints at a
      repository path, and the functions it calls. */
  datatype Helper = Helper(name: string, direct: bool, hinted: bool, calls: set<string>)

  /** `s` contains every directly anchored helper and every hinted one that calls a member. */
  ghost predicate Closed(helpers: seq<Helper>, s: set<string>) {
    forall h :: h in helpers && (h.direct || (h.hinted && h.calls * s != {})) ==> h.name in s
  }

  ghost predicate IsLeastClosed(helpers: seq<Helper>, s: set<string>) {
    && Closed(helpers, s)
    && forall t :: Closed(helpers, t) ==> s <= t
  }

  function Names(helpers: seq<Helper>): set<string> { set h | h in helpers :: h.name }

  /** The iteration terminates and returns the least closed set, whatever the dictionary order. */
  method AnchorHelpers(helpers: seq<Helper>) returns (anchors: set<string>)
    requires forall i, j :: 0 <= i < j < |helpers| ==> helpers[i].name != helpers[j].name
    ensures IsLeastClosed(helpers, anchors)
    ensures anchors <= Names(helpers)
  {
    anchors := {};
    var changed := true;
    while changed
      invariant anchors <= Names(helpers)
      invariant forall t :: Closed(helpers, t) ==> anchors <= t
      invariant !changed ==> Closed(helpers, anchors)
      decreases Names(helpers) - anchors, changed
    {
      changed := false;
      ghost var start := anchors;
      for i := 0 to |helpers|
        invariant start <= anchors <= Names(helpers) && (changed <==> anchors != start)
        invariant forall t :: Closed(helpers, t) ==> anchors <= t
        invariant !changed ==> forall k :: 0 <= k < i && Wanted(helpers[k], anchors) ==> helpers[k].name in anchors
      {
        var h := helpers[i];
        if h.name in anchors {
          continue;
        }
        assert h in helpers && h.name in Names(helpers);
        if h.direct {
          MustContain(helpers, h, anchors);
          anchors := anchors + {h.name};
          changed := true;
          continue;
        }
        if h.hinted && anchors * h.calls != {} {
          assert h.calls * anchors == anchors * h.calls;
          MustContain(helpers, h, anchors);
          anchors := anchors + {h.name};
          changed := true;
        }
      }
      if !changed {
        assert forall k :: 0 <= k < |helpers| && Wanted(helpers[k], anchors) ==> helpers[k].name in anchors;
      }
    }
  }

  predicate Wanted(h: Helper, s: set<string>) { h.direct || (h.hinted && h.calls * s != {}) }

  lemma MustContain(helpers: seq<Helper>, h: Helper, anchors: set<string>)
    requires h in helpers && Wanted(h, anchors) && forall t :: Closed(helpers, t) ==> anchors <= t
    ensures forall t :: Closed(helpers, t) ==> h.name in t
  {
    forall t | Closed(helpers, t) ensures h.name in t {
      if !h.direct {
        var c :| c in h.calls * anchors;
        assert c in h.calls * t;
      }
    }
  }

  /** There is only one least closed set, so the order of the dictionary cannot matter. */
  lemma OrderIrrelevant(helpers: seq<Helper>, helpers': seq<Helper>, s: set<string>, s': set<string>)
    requires forall h :: h in helpers <==> h in helpers'
    requires IsLeastClosed(helpers, s) && IsLeastClosed(helpers', s')
    ensures s == s'
  {
    assert Closed(helpers, s') && Closed(helpers', s);
  }

  /** A helper is in the set exactly when a chain of calls leads from it, through hinted
      helpers, to a directly anchored one. */
  ghost predicate Reaches(helpers: seq<Helper>, name: string, depth: nat)
    decreases depth
  {
    exists h :: h in helpers && h.name == name
      && (h.direct || (depth > 0 && h.hinted && exists c :: c in h.calls && Reaches(helpers, c, depth - 1)))
  }

  lemma {:induction false} ReachedIsAnchored(helpers: seq<Helper>, s: set<string>, name: string, depth: nat)
    requires Closed(helpers, s) && Reaches(helpers, name, depth)
    ensures name in s
    decreases depth
  {
    var h :| h in helpers && h.name == name
      && (h.direct || (depth > 0 && h.hinted && exists c :: c in h.calls && Reaches(helpers, c, depth - 1)));
    if !h.direct {
      var c :| c in h.calls && Reaches(helpers, c, depth - 1);
      ReachedIsAnchored(helpers, s, c, depth - 1);
      assert c in h.calls * s;
    }
  }

  lemma AnchoredIsReached(helpers: seq<Helper>, s: set<string>, name: string)
    requires IsLeastClosed(helpers, s) && name in s
    ensures exists depth: nat :: Reaches(helpers, name, depth)
  {
    var names := Names(helpers);
    var reached := set n | n in names && exists depth: nat :: Reaches(helpers, n, depth);
    forall h | h in helpers && Wanted(h, reached) ensures h.name in reached {
      assert h.name in names;
      if h.direct {
        assert Reaches(helpers, h.name, 0);
      } else {
        var c :| c in h.calls * reached;
        var depth: nat :| Reaches(helpers, c, depth);
        assert Reaches(helpers, c, depth + 1 - 1);
        assert Reaches(helpers, h.name, depth + 1);
      }
    }
    assert Closed(helpers, reached);
  }
}
