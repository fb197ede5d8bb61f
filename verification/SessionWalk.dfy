/** The walk over the forest terminates, visits no session twice, and misses exactly the
    sessions whose parent chain runs into a cycle. */
module SessionWalk {
  import opened Options
  import opened Sequences
  import opened Sessions

  ghost predicate NoRepeats(s: seq<string>) {
    forall i, j :: 0 <= i < j < |s| ==> s[i] != s[j]
  }

  lemma NoRepeatsConcat(a: seq<string>, b: seq<string>)
    requires NoRepeats(a) && NoRepeats(b) && forall x :: x in a ==> x !in b
    ensures NoRepeats(a + b)
  {
    forall i, j | 0 <= i < j < |a + b| ensures (a + b)[i] != (a + b)[j] {
      if i < |a| && |a| <= j {
        assert a[i] in a && b[j - |a|] in b;
      }
    }
  }

  lemma {:induction false} CollectedIdsDiffer(ss: seq<Session>, f: Session -> Option<string>)
    requires DistinctIds(ss) && forall s :: f(s).Some? ==> f(s).value == s.Id()
    ensures NoRepeats(Collect(ss, f))
    ensures forall x :: x in Collect(ss, f) ==> exists s :: s in ss && s.Id() == x
  {
    if ss != [] {
      var before, last := ss[..|ss| - 1], ss[|ss| - 1];
      assert ss == before + [last];
      CollectedIdsDiffer(before, f);
      forall x | x in Collect(before, f) ensures x != last.Id() {
        var s :| s in before && s.Id() == x;
        var i :| 0 <= i < |before| && before[i] == s;
        assert ss[i].Id() != ss[|ss| - 1].Id();
      }
      if f(last).Some? {
        NoRepeatsConcat(Collect(before, f), [last.Id()]);
      }
    }
  }

  // ----- nothing is visited twice -----

  lemma ParentOfAncestor(ss: seq<Session>, x: string, c: string, id: string, n: nat)
    requires DistinctIds(ss) && Ancestor(ss, x, n) == Some(c) && c in Children(ss, id) && id in Ids(ss)
    ensures Ancestor(ss, x, n + 1) == Some(id)
  {
    ChildrenMembers(ss, id, c);
    var s :| s in ss && s.parentId == id && s.Id() == c;
    OneSession(ss, s, Find(ss, c));
    assert !StartsTree(s, Ids(ss));
  }

  lemma DepthIsInRun(ss: seq<Session>, id: string, d: nat)
    requires AtDepth(ss, id, d)
    ensures id in Ids(ss)
  {
  }

  lemma {:induction false} WalkGoesBelow(ss: seq<Session>, id: string, d: nat)
    requires DistinctIds(ss) && AtDepth(ss, id, d)
    ensures forall x :: x in Walk(ss, id, d) ==> Below(ss, x, id, d)
    decreases |ss| - d, 0
  {
    DepthBound(ss, id, d);
    DepthIsInRun(ss, id, d);
    forall c | c in Children(ss, id) ensures AtDepth(ss, c, d + 1) { ChildDepth(ss, id, d, c); }
    var cs := Children(ss, id);
    WalkAllGoesBelow(ss, cs, d + 1);
    BelowItself(ss, id, d);
    hide Below, AtDepth, Children;
    forall x | x in WalkAll(ss, cs, d + 1) ensures Below(ss, x, id, d) {
      var c :| c in cs && Below(ss, x, c, d + 1);
      BelowChild(ss, x, c, id, d);
    }
  }

  lemma BelowItself(ss: seq<Session>, id: string, d: nat)
    requires AtDepth(ss, id, d)
    ensures Below(ss, id, id, d)
  {
    DepthIsInRun(ss, id, d);
    assert Ancestor(ss, id, d - d) == Some(id);
  }

  lemma BelowChild(ss: seq<Session>, x: string, c: string, id: string, d: nat)
    requires DistinctIds(ss) && AtDepth(ss, id, d) && c in Children(ss, id) && Below(ss, x, c, d + 1)
    ensures Below(ss, x, id, d)
  {
    hide AtDepth, Children;
    DepthIsInRun(ss, id, d);
    var n: nat :| n >= d + 1 && AtDepth(ss, x, n) && Ancestor(ss, x, n - (d + 1)) == Some(c);
    ParentOfAncestor(ss, x, c, id, n - (d + 1));
  }

  lemma {:induction false} WalkAllGoesBelow(ss: seq<Session>, ids: seq<string>, d: nat)
    requires DistinctIds(ss) && forall c :: c in ids ==> AtDepth(ss, c, d)
    ensures forall x :: x in WalkAll(ss, ids, d) ==> exists c :: c in ids && Below(ss, x, c, d)
    decreases |ss| - d, |ids|
  {
    if ids != [] {
      var before, last := ids[..|ids| - 1], ids[|ids| - 1];
      assert ids == before + [last];
      assert last in ids;
      DepthBound(ss, last, d);
      WalkAllGoesBelow(ss, before, d);
      WalkGoesBelow(ss, last, d);
      hide Below;
      forall x | x in WalkAll(ss, ids, d) ensures exists c :: c in ids && Below(ss, x, c, d) {
        if x in WalkAll(ss, before, d) {
          var c :| c in before && Below(ss, x, c, d);
          assert c in ids;
        } else {
          assert x in Walk(ss, last, d);
        }
      }
    }
  }

  /** A session lies below at most one session of each depth. */
  lemma BelowOne(ss: seq<Session>, x: string, a: string, b: string, d: nat)
    requires DistinctIds(ss) && Below(ss, x, a, d) && Below(ss, x, b, d)
    ensures a == b
  {
    var n: nat :| n >= d && AtDepth(ss, x, n) && Ancestor(ss, x, n - d) == Some(a);
    var m: nat :| m >= d && AtDepth(ss, x, m) && Ancestor(ss, x, m - d) == Some(b);
    DepthIsUnique(ss, x, n, m);
  }

  lemma {:induction false} WalkHasNoRepeats(ss: seq<Session>, id: string, d: nat)
    requires DistinctIds(ss) && AtDepth(ss, id, d)
    ensures NoRepeats(Walk(ss, id, d))
    decreases |ss| - d, 0
  {
    DepthBound(ss, id, d);
    forall c | c in Children(ss, id) ensures AtDepth(ss, c, d + 1) { ChildDepth(ss, id, d, c); }
    var cs := Children(ss, id);
    CollectedIdsDiffer(ss, ChildOf(id));
    WalkAllHasNoRepeats(ss, cs, d + 1);
    WalkAllGoesBelow(ss, cs, d + 1);
    if id in WalkAll(ss, cs, d + 1) {
      var c :| c in cs && Below(ss, id, c, d + 1);
      var n: nat :| n >= d + 1 && AtDepth(ss, id, n);
      DepthIsUnique(ss, id, n, d);
    }
    NoRepeatsConcat([id], WalkAll(ss, cs, d + 1));
  }

  lemma {:induction false} WalkAllHasNoRepeats(ss: seq<Session>, ids: seq<string>, d: nat)
    requires DistinctIds(ss) && NoRepeats(ids) && forall c :: c in ids ==> AtDepth(ss, c, d)
    ensures NoRepeats(WalkAll(ss, ids, d))
    decreases |ss| - d, |ids|
  {
    if ids != [] {
      var before, last := ids[..|ids| - 1], ids[|ids| - 1];
      assert ids == before + [last];
      assert last in ids && last !in before;
      DepthBound(ss, last, d);
      WalkAllHasNoRepeats(ss, before, d);
      WalkHasNoRepeats(ss, last, d);
      WalkAllGoesBelow(ss, before, d);
      WalkGoesBelow(ss, last, d);
      forall x | x in WalkAll(ss, before, d) ensures x !in Walk(ss, last, d) {
        var c :| c in before && Below(ss, x, c, d);
        if x in Walk(ss, last, d) {
          BelowOne(ss, x, c, last, d);
        }
      }
      NoRepeatsConcat(WalkAll(ss, before, d), Walk(ss, last, d));
    }
  }

  // ----- nothing grounded is missed -----

  lemma {:induction false} WalkAllContains(ss: seq<Session>, ids: seq<string>, d: nat, c: string, x: string)
    requires DistinctIds(ss) && (forall i :: i in ids ==> AtDepth(ss, i, d))
    requires c in ids && x in Walk(ss, c, d)
    ensures x in WalkAll(ss, ids, d)
    decreases |ids|
  {
    var before, last := ids[..|ids| - 1], ids[|ids| - 1];
    assert ids == before + [last];
    assert last in ids;
    DepthBound(ss, last, d);
    if c != last {
      WalkAllContains(ss, before, d, c, x);
    }
  }

  lemma WalkStartsHere(ss: seq<Session>, x: string, n: nat)
    requires DistinctIds(ss) && AtDepth(ss, x, n)
    ensures x in Walk(ss, x, n)
  {
  }

  lemma FirstAncestor(ss: seq<Session>, x: string)
    requires x in Ids(ss)
    ensures Ancestor(ss, x, 0) == Some(x)
  {
  }

  lemma AncestorIsParent(ss: seq<Session>, x: string, k: nat)
    requires k > 0 && Ancestor(ss, x, k).Some?
    ensures Ancestor(ss, x, k - 1).Some?
    ensures Ancestor(ss, x, k - 1).value in Children(ss, Ancestor(ss, x, k).value)
  {
    AncestorsAreSessions(ss, x, k - 1);
    var c, p := Ancestor(ss, x, k - 1).value, Ancestor(ss, x, k).value;
    assert !StartsTree(Find(ss, c), Ids(ss)) && p == Find(ss, c).parentId;
    ChildrenMembers(ss, p, c);
  }

  /** Each step up the parent chain, the walk from there still reaches `x`. */
  lemma {:induction false} WalkFromAncestor(ss: seq<Session>, x: string, n: nat, k: nat)
    requires DistinctIds(ss) && AtDepth(ss, x, n) && k <= n
    ensures Ancestor(ss, x, k).Some? && AtDepth(ss, Ancestor(ss, x, k).value, n - k)
    ensures x in Walk(ss, Ancestor(ss, x, k).value, n - k)
    decreases k
  {
    hide AtDepth, Walk, Ancestor;
    assert Ancestor(ss, x, 0) == Some(x) by { DepthIsInRun(ss, x, n); FirstAncestor(ss, x); }
    AncestorDepth(ss, x, n, k);
    if k == 0 {
      WalkStartsHere(ss, x, n);
    } else {
      WalkFromAncestor(ss, x, n, k - 1);
      AncestorIsParent(ss, x, k);
      WalkOfChild(ss, Ancestor(ss, x, k).value, n - k, Ancestor(ss, x, k - 1).value, x);
    }
  }

  lemma WalkOfChild(ss: seq<Session>, p: string, d: nat, c: string, x: string)
    requires DistinctIds(ss) && AtDepth(ss, p, d) && c in Children(ss, p)
    requires AtDepth(ss, c, d + 1) && x in Walk(ss, c, d + 1)
    ensures x in Walk(ss, p, d)
  {
    hide AtDepth, Children;
    DepthBound(ss, p, d);
    forall i | i in Children(ss, p) ensures AtDepth(ss, i, d + 1) { ChildDepth(ss, p, d, i); }
    WalkAllContains(ss, Children(ss, p), d + 1, c, x);
  }

  lemma WalkReachesGrounded(ss: seq<Session>, x: string, n: nat)
    requires DistinctIds(ss) && AtDepth(ss, x, n)
    ensures x in WalkForest(ss)
  {
    WalkFromAncestor(ss, x, n, n);
    var r := Ancestor(ss, x, n).value;
    var s :| s in ss && s.Id() == r && StartsTree(s, Ids(ss));
    RootMembers(ss, Ids(ss), r);
    forall c | c in Roots(ss) ensures AtDepth(ss, c, 0) { RootDepth(ss, c); }
    WalkAllContains(ss, Roots(ss), 0, r, x);
  }

  /** The session forest: for distinct identifiers and arbitrary parent links, the walk from
      the roots visits no session twice, and visits exactly the sessions of the run whose
      parent chain does not run into a cycle. */
  lemma ForestVisitsTheAcyclicOnce(ss: seq<Session>)
    requires DistinctIds(ss)
    ensures NoRepeats(WalkForest(ss))
    ensures forall x :: x in WalkForest(ss) <==> x in Ids(ss) && !RunsIntoCycle(ss, x)
  {
    hide RunsIntoCycle;
    forall c | c in Roots(ss) ensures AtDepth(ss, c, 0) { RootDepth(ss, c); }
    CollectedIdsDiffer(ss, RootOf(Ids(ss)));
    WalkAllHasNoRepeats(ss, Roots(ss), 0);
    WalkAllGoesBelow(ss, Roots(ss), 0);
    forall x ensures x in WalkForest(ss) <==> x in Ids(ss) && !RunsIntoCycle(ss, x) {
      if x in WalkForest(ss) {
        var c :| c in Roots(ss) && Below(ss, x, c, 0);
        var n: nat :| AtDepth(ss, x, n);
        DepthIsInRun(ss, x, n);
        GroundedIffNoCycle(ss, x);
      } else if x in Ids(ss) && !RunsIntoCycle(ss, x) {
        GroundedIffNoCycle(ss, x);
        var n: nat :| AtDepth(ss, x, n);
        WalkReachesGrounded(ss, x, n);
      }
    }
  }
}
