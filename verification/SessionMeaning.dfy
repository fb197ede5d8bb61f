/** What the session forest shows, in terms of the sessions' own fields: who is whose child, which
    sessions are visited, and in what order. */
module SessionMeaning {
  import opened Options
  import opened Sequences
  import opened Sessions
  import opened SessionWalk
  import opened SessionTree

  /** A session goes by its external identifier, or without one by its internal one. */
  predicate Named(s: Session, id: string) {
    if s.externalId != "" then s.externalId == id else s.sessionId == id
  }

  predicate ParentOf(p: Session, s: Session) {
    s.parentId != "" && Named(p, s.parentId)
  }

  predicate HasParent(ss: seq<Session>, s: Session) {
    exists p :: p in ss && ParentOf(p, s)
  }

  lemma NamedIsId(s: Session, id: string)
    ensures Named(s, id) <==> s.Id() == id
  {
  }

  lemma StartsMeans(ss: seq<Session>, s: Session)
    ensures StartsTree(s, Ids(ss)) <==> !HasParent(ss, s)
  {
    if s.parentId in Ids(ss) {
      var p :| p in ss && p.Id() == s.parentId;
    }
  }

  // ----- children and roots, in delivery order -----

  /** The identifiers of the sessions that `wanted` picks, in delivery order, each once. */
  ghost predicate ListsInOrder(ids: seq<string>, ss: seq<Session>, wanted: Session -> bool) {
    && (forall s :: s in ss && wanted(s) ==> IsListed(ids, s))
    && (forall k :: 0 <= k < |ids| ==> ComesFrom(ss, wanted, ids[k]))
    && (forall k, l :: 0 <= k < l < |ids| ==> DeliveredBefore(ss, wanted, ids[k], ids[l]))
  }

  ghost predicate IsListed(ids: seq<string>, s: Session) {
    exists k :: 0 <= k < |ids| && Named(s, ids[k])
  }

  ghost predicate ComesFrom(ss: seq<Session>, wanted: Session -> bool, id: string) {
    exists i :: 0 <= i < |ss| && wanted(ss[i]) && Named(ss[i], id)
  }

  ghost predicate DeliveredBefore(ss: seq<Session>, wanted: Session -> bool, a: string, b: string) {
    exists i, j :: 0 <= i < j < |ss| && wanted(ss[i]) && Named(ss[i], a) && wanted(ss[j]) && Named(ss[j], b)
  }

  lemma CollectLists(ss: seq<Session>, f: Session -> Option<string>, wanted: Session -> bool)
    requires forall s :: f(s) == if wanted(s) then Some(s.Id()) else None
    ensures ListsInOrder(Collect(ss, f), ss, wanted)
  {
    hide Named, DeliveredBefore, Collect;
    var ids := Collect(ss, f);
    forall s | s in ss && wanted(s) ensures IsListed(ids, s) {
      var k := ListedAt(ss, f, wanted, s);
    }
    forall k | 0 <= k < |ids| ensures ComesFrom(ss, wanted, ids[k]) {
      var i := CollectedFrom(ss, f, k);
      NamedIsId(ss[i], ids[k]);
    }
    forall k, l | 0 <= k < l < |ids| ensures DeliveredBefore(ss, wanted, ids[k], ids[l]) {
      var i, j := CollectAscends(ss, f, k, l);
      NamedIsId(ss[i], ids[k]);
      NamedIsId(ss[j], ids[l]);
      IsDeliveredBefore(ss, wanted, i, j, ids[k], ids[l]);
    }
  }

  lemma ListedAt(ss: seq<Session>, f: Session -> Option<string>, wanted: Session -> bool, s: Session) returns (k: nat)
    requires (forall x :: f(x) == if wanted(x) then Some(x.Id()) else None) && s in ss && wanted(s)
    ensures k < |Collect(ss, f)| && Named(s, Collect(ss, f)[k])
  {
    CollectOrigins(ss, f);
    hide Collect;
    assert f(s).value in Collect(ss, f);
    k :| 0 <= k < |Collect(ss, f)| && Collect(ss, f)[k] == s.Id();
  }

  lemma IsDeliveredBefore(ss: seq<Session>, wanted: Session -> bool, i: nat, j: nat, a: string, b: string)
    requires i < j < |ss| && wanted(ss[i]) && Named(ss[i], a) && wanted(ss[j]) && Named(ss[j], b)
    ensures DeliveredBefore(ss, wanted, a, b)
  {
  }

  /** The children array of `id`: the sessions whose parent link is `id`, as they were delivered. */
  lemma ChildrenMean(ss: seq<Session>, id: string)
    requires id != ""
    ensures ListsInOrder(Children(ss, id), ss, (s: Session) => s.parentId == id)
  {
    CollectLists(ss, ChildOf(id), (s: Session) => s.parentId == id);
  }

  function Parentless(ss: seq<Session>): Session -> bool {
    (s: Session) => !HasParent(ss, s)
  }

  lemma RootsInDeliveryOrder(ss: seq<Session>)
    ensures ListsInOrder(Roots(ss), ss, Parentless(ss))
  {
    hide HasParent, StartsTree, ListsInOrder;
    forall s ensures RootOf(Ids(ss))(s) == if Parentless(ss)(s) then Some(s.Id()) else None { StartsMeans(ss, s); }
    CollectLists(ss, RootOf(Ids(ss)), Parentless(ss));
  }

  /** The root called `id` names the parent `missing`, which is not in the run; or none, if that is
      empty. */
  ghost predicate RootMissing(ss: seq<Session>, id: string, missing: string) {
    exists s :: s in ss && !HasParent(ss, s) && Named(s, id) && s.parentId == missing
  }

  /** The roots: the sessions without a parent in the run, as they were delivered, and beside each
      the parent it names, empty if it names none. */
  lemma RootsMean(ss: seq<Session>)
    ensures ListsInOrder(Roots(ss), ss, Parentless(ss))
    ensures |Collect(ss, MissingOf(Ids(ss)))| == |Roots(ss)|
    ensures forall k :: 0 <= k < |Roots(ss)| ==> RootMissing(ss, Roots(ss)[k], Collect(ss, MissingOf(Ids(ss)))[k])
  {
    RootsInDeliveryOrder(ss);
    SideBySide(ss, Ids(ss));
    hide ListsInOrder, HasParent, StartsTree, Named, Collect;
    var missing := Collect(ss, MissingOf(Ids(ss)));
    forall k | 0 <= k < |Roots(ss)| ensures RootMissing(ss, Roots(ss)[k], missing[k]) {
      assert RootOfTree(ss, Ids(ss), Roots(ss)[k], missing[k]);
      var s :| s in ss && StartsTree(s, Ids(ss)) && s.Id() == Roots(ss)[k] && s.parentId == missing[k];
      StartsMeans(ss, s);
      NamedIsId(s, Roots(ss)[k]);
    }
  }

  lemma {:induction false} SideBySide(ss: seq<Session>, ids: set<string>)
    ensures |Collect(ss, MissingOf(ids))| == |Collect(ss, RootOf(ids))|
    ensures forall k :: 0 <= k < |Collect(ss, RootOf(ids))| ==>
                          RootOfTree(ss, ids, Collect(ss, RootOf(ids))[k], Collect(ss, MissingOf(ids))[k])
  {
    if ss != [] {
      hide StartsTree;
      var before, last := ss[..|ss| - 1], ss[|ss| - 1];
      SideBySide(before, ids);
      assert ss == before + [last];
    }
  }

  ghost predicate RootOfTree(ss: seq<Session>, ids: set<string>, id: string, missing: string) {
    exists s :: s in ss && StartsTree(s, ids) && s.Id() == id && s.parentId == missing
  }

  // ----- who is visited -----

  /** From a session up: each next one is the parent of the one before. */
  ghost predicate UpPath(ss: seq<Session>, path: seq<Session>) {
    && path != []
    && (forall i :: 0 <= i < |path| ==> path[i] in ss)
    && (forall i :: 0 <= i < |path| - 1 ==> ParentOf(path[i + 1], path[i]))
  }

  /** The path leads from the session called `x` up to one without a parent in the run. */
  ghost predicate LeadsToRoot(ss: seq<Session>, path: seq<Session>, x: string) {
    UpPath(ss, path) && Named(path[0], x) && !HasParent(ss, path[|path| - 1])
  }

  lemma {:induction false} PathOfDepth(ss: seq<Session>, x: string, d: nat) returns (path: seq<Session>)
    requires AtDepth(ss, x, d)
    ensures LeadsToRoot(ss, path, x) && |path| == d + 1
    decreases d
  {
    var s :| s in ss && s.Id() == x
             && if StartsTree(s, Ids(ss)) then d == 0 else d > 0 && AtDepth(ss, s.parentId, d - 1);
    StartsMeans(ss, s);
    hide HasParent, AtDepth, LeadsToRoot;
    if d == 0 {
      path := [s];
      assert LeadsToRoot(ss, path, x) by { RootPath(ss, s, x); }
    } else {
      var up := PathOfDepth(ss, s.parentId, d - 1);
      path := [s] + up;
      LongerPath(ss, s, up, x);
    }
  }

  lemma RootPath(ss: seq<Session>, s: Session, x: string)
    requires s in ss && s.Id() == x && !HasParent(ss, s)
    ensures LeadsToRoot(ss, [s], x)
  {
  }

  lemma LongerPath(ss: seq<Session>, s: Session, up: seq<Session>, x: string)
    requires s in ss && s.Id() == x && s.parentId != "" && LeadsToRoot(ss, up, s.parentId)
    ensures LeadsToRoot(ss, [s] + up, x)
  {
    hide HasParent;
    var path := [s] + up;
    forall i | 0 <= i < |path| - 1 ensures ParentOf(path[i + 1], path[i]) {
      if i > 0 {
        assert ParentOf(up[i - 1 + 1], up[i - 1]);
      }
    }
  }

  lemma {:induction false} DepthOfPath(ss: seq<Session>, path: seq<Session>, x: string)
    requires LeadsToRoot(ss, path, x)
    ensures AtDepth(ss, x, |path| - 1)
    decreases |path|
  {
    StartsMeans(ss, path[0]);
    if |path| > 1 {
      assert ParentOf(path[1], path[0]);
      var up := path[1..];
      forall i | 0 <= i < |up| - 1 ensures ParentOf(up[i + 1], up[i]) {
        assert up[i] == path[i + 1] && up[i + 1] == path[i + 1 + 1];
      }
      DepthOfPath(ss, up, path[0].parentId);
    }
  }

  /** Visited are exactly the sessions from which parent links lead up to a root. */
  lemma VisitedMeans(ss: seq<Session>, x: string)
    requires DistinctIds(ss)
    ensures x in WalkForest(ss) <==> exists path :: LeadsToRoot(ss, path, x)
  {
    ForestVisitsTheAcyclicOnce(ss);
    hide LeadsToRoot, RunsIntoCycle, WalkForest;
    if x in WalkForest(ss) {
      GroundedIffNoCycle(ss, x);
      var d: nat :| AtDepth(ss, x, d);
      var path := PathOfDepth(ss, x, d);
    }
    if path :| LeadsToRoot(ss, path, x) {
      assert path != [] by { PathIsThere(ss, path, x); }
      DepthOfPath(ss, path, x);
      WalkReachesGrounded(ss, x, |path| - 1);
    }
  }

  lemma PathIsThere(ss: seq<Session>, path: seq<Session>, x: string)
    requires LeadsToRoot(ss, path, x)
    ensures path != []
  {
  }

  // ----- in what order -----

  /** `x` is visited before `y`. */
  ghost predicate Precedes(visited: seq<string>, x: string, y: string) {
    exists n, m :: 0 <= n < m < |visited| && visited[n] == x && visited[m] == y
  }

  lemma PrecedesInside(u: seq<string>, w: seq<string>, v: seq<string>, x: string, y: string)
    requires Precedes(w, x, y)
    ensures Precedes(u + w + v, x, y)
  {
    var n, m :| 0 <= n < m < |w| && w[n] == x && w[m] == y;
    var all := u + w + v;
    assert all[|u| + n] == x && all[|u| + m] == y;
  }

  lemma PrecedesAcross(u: seq<string>, w: seq<string>, x: string, y: string)
    requires x in u && y in w
    ensures Precedes(u + w, x, y)
  {
    var n :| 0 <= n < |u| && u[n] == x;
    var m :| 0 <= m < |w| && w[m] == y;
    assert (u + w)[n] == x && (u + w)[|u| + m] == y;
  }

  lemma WalkAllIs(ss: seq<Session>, ids: seq<string>, d: nat)
    requires DistinctIds(ss) && (forall c :: c in ids ==> AtDepth(ss, c, d)) && ids != []
    ensures ids[|ids| - 1] in ids && forall c :: c in ids[..|ids| - 1] ==> c in ids
    ensures WalkAll(ss, ids, d) == WalkAll(ss, ids[..|ids| - 1], d) + Walk(ss, ids[|ids| - 1], d)
  {
    hide AtDepth, Walk;
    assert ids[|ids| - 1] in ids;
    DepthBound(ss, ids[|ids| - 1], d);
  }

  lemma {:induction false} WalkAllSplits(ss: seq<Session>, ids: seq<string>, d: nat, k: nat) returns (v: seq<string>)
    requires DistinctIds(ss) && (forall c :: c in ids ==> AtDepth(ss, c, d)) && k < |ids|
    ensures (forall c :: c in ids[..k] ==> c in ids) && ids[k] in ids
    ensures WalkAll(ss, ids, d) == WalkAll(ss, ids[..k], d) + Walk(ss, ids[k], d) + v
    decreases |ids|
  {
    hide Walk, WalkAll, AtDepth;
    var before, last := ids[..|ids| - 1], ids[|ids| - 1];
    WalkAllIs(ss, ids, d);
    assert forall c :: c in ids[..k] ==> c in ids;
    if k == |ids| - 1 {
      v := [];
      assert ids[..k] == before;
    } else {
      var rest := WalkAllSplits(ss, before, d, k);
      assert before[..k] == ids[..k] && before[k] == ids[k];
      v := rest + Walk(ss, last, d);
    }
  }

  /** Of two subtrees on one level the earlier one is visited in full before the later one. */
  lemma SubtreesInOrder(ss: seq<Session>, ids: seq<string>, d: nat, k: nat, l: nat, x: string, y: string)
    requires DistinctIds(ss) && (forall c :: c in ids ==> AtDepth(ss, c, d)) && k < l < |ids|
    requires ids[k] in ids && ids[l] in ids && x in Walk(ss, ids[k], d) && y in Walk(ss, ids[l], d)
    ensures Precedes(WalkAll(ss, ids, d), x, y)
  {
    hide Walk, WalkAll, AtDepth;
    var v := WalkAllSplits(ss, ids, d, l);
    var before := ids[..l];
    assert before[k] == ids[k] && before[k] in before;
    WalkAllContains(ss, before, d, ids[k], x);
    PrecedesAcross(WalkAll(ss, before, d), Walk(ss, ids[l], d), x, y);
    PrecedesInside([], WalkAll(ss, before, d) + Walk(ss, ids[l], d), v, x, y);
    assert [] + (WalkAll(ss, before, d) + Walk(ss, ids[l], d)) + v == WalkAll(ss, ids, d);
  }

  lemma ChildrenDepth(ss: seq<Session>, p: string, d: nat)
    requires AtDepth(ss, p, d)
    ensures forall c :: c in Children(ss, p) ==> AtDepth(ss, c, d + 1)
  {
    forall c | c in Children(ss, p) ensures AtDepth(ss, c, d + 1) { ChildDepth(ss, p, d, c); }
  }

  lemma WalkIs(ss: seq<Session>, p: string, d: nat)
    requires DistinctIds(ss) && AtDepth(ss, p, d)
    ensures forall c :: c in Children(ss, p) ==> AtDepth(ss, c, d + 1)
    ensures Walk(ss, p, d) == [p] + WalkAll(ss, Children(ss, p), d + 1)
  {
    ChildrenDepth(ss, p, d);
    DepthBound(ss, p, d);
  }

  /** The subtree of every grounded session is one stretch of the whole visit. */
  lemma {:induction false} StretchOf(ss: seq<Session>, p: string, d: nat) returns (u: seq<string>, v: seq<string>)
    requires DistinctIds(ss) && AtDepth(ss, p, d)
    ensures WalkForest(ss) == u + Walk(ss, p, d) + v
    decreases d
  {
    var s :| s in ss && s.Id() == p
             && if StartsTree(s, Ids(ss)) then d == 0 else d > 0 && AtDepth(ss, s.parentId, d - 1);
    hide Walk, WalkAll, AtDepth;
    if d == 0 {
      RootMembers(ss, Ids(ss), p);
      forall c | c in Roots(ss) ensures AtDepth(ss, c, 0) { RootDepth(ss, c); }
      var k :| 0 <= k < |Roots(ss)| && Roots(ss)[k] == p;
      v := WalkAllSplits(ss, Roots(ss), 0, k);
      u := WalkAll(ss, Roots(ss)[..k], 0);
    } else {
      var q := s.parentId;
      var u', v' := StretchOf(ss, q, d - 1);
      WalkIs(ss, q, d - 1);
      ChildrenMembers(ss, q, p);
      var k :| 0 <= k < |Children(ss, q)| && Children(ss, q)[k] == p;
      var w := WalkAllSplits(ss, Children(ss, q), d, k);
      var before := WalkAll(ss, Children(ss, q)[..k], d);
      u, v := u' + [q] + before, w + v';
      Regrouped(u', [q], before, Walk(ss, p, d), w, v');
    }
  }

  lemma Regrouped(a: seq<string>, b: seq<string>, c: seq<string>, d: seq<string>, e: seq<string>, f: seq<string>)
    ensures a + (b + (c + d + e)) + f == (a + b + c) + d + (e + f)
  {
  }

  /** A session is `a` or below it: parent links lead from it to `a`. */
  ghost predicate LeadsTo(ss: seq<Session>, path: seq<Session>, x: string, a: Session) {
    UpPath(ss, path) && Named(path[0], x) && path[|path| - 1] == a
  }

  /** The last step of a path that leads up to `a`. */
  lemma LastStep(ss: seq<Session>, path: seq<Session>, x: string, a: Session) returns (below: seq<Session>, c: Session)
    requires LeadsTo(ss, path, x, a) && |path| > 1
    ensures LeadsTo(ss, below, x, c) && |below| == |path| - 1 && c in ss && c.parentId == a.Id() != ""
    ensures c.Id() in Children(ss, a.Id())
  {
    below := path[..|path| - 1];
    c := below[|below| - 1];
    assert ParentOf(path[|path| - 2 + 1], path[|path| - 2]);
    assert c == path[|path| - 2];
    forall i | 0 <= i < |below| - 1 ensures ParentOf(below[i + 1], below[i]) {
      assert below[i] == path[i] && below[i + 1] == path[i + 1];
    }
    ChildrenMembers(ss, a.Id(), c.Id());
  }

  lemma {:induction false} PathToAncestor(ss: seq<Session>, path: seq<Session>, x: string, a: Session, d: nat)
    requires DistinctIds(ss) && LeadsTo(ss, path, x, a) && AtDepth(ss, a.Id(), d)
    ensures x in Walk(ss, a.Id(), d)
    decreases |path|
  {
    if |path| == 1 {
      assert x == a.Id();
      WalkStartsHere(ss, x, d);
    } else {
      assert |path| > 1;
      var below, c := LastStep(ss, path, x, a);
      hide LeadsTo, AtDepth, Walk;
      ChildDepth(ss, a.Id(), d, c.Id());
      PathToAncestor(ss, below, x, c, d + 1);
      WalkOfChild(ss, a.Id(), d, c.Id(), x);
    }
  }

  /** A parent is visited before all that is below it. */
  lemma ParentFirst(ss: seq<Session>, p: Session, path: seq<Session>, x: string)
    requires DistinctIds(ss) && p.Id() in WalkForest(ss) && LeadsTo(ss, path, x, p) && |path| > 1
    ensures Precedes(WalkForest(ss), p.Id(), x)
  {
    hide WalkForest, LeadsTo, Walk, WalkAll, AtDepth, Children, Precedes;
    var q := p.Id();
    var d := DepthIn(ss, q);
    var below, c := LastStep(ss, path, x, p);
    ChildDepth(ss, q, d, c.Id());
    PathToAncestor(ss, below, x, c, d + 1);
    WalkIs(ss, q, d);
    WalkAllContains(ss, Children(ss, q), d + 1, c.Id(), x);
    PrecedesAcross([q], WalkAll(ss, Children(ss, q), d + 1), q, x);
    var u, v := StretchOf(ss, q, d);
    PrecedesInside(u, Walk(ss, q, d), v, q, x);
  }

  lemma DepthIn(ss: seq<Session>, x: string) returns (d: nat)
    requires DistinctIds(ss) && x in WalkForest(ss)
    ensures AtDepth(ss, x, d)
  {
    VisitedMeans(ss, x);
    hide WalkForest, LeadsToRoot;
    var path :| LeadsToRoot(ss, path, x);
    DepthOfPath(ss, path, x);
    PathIsThere(ss, path, x);
    d := |path| - 1;
  }

  /** Of two children of one parent the one delivered first is visited first, with all below it. */
  lemma SiblingsInOrder(ss: seq<Session>, p: Session, i: nat, j: nat, path: seq<Session>, x: string,
                        path': seq<Session>, y: string)
    requires DistinctIds(ss) && p.Id() in WalkForest(ss) && i < j < |ss|
    requires ParentOf(p, ss[i]) && ParentOf(p, ss[j]) && LeadsTo(ss, path, x, ss[i]) && LeadsTo(ss, path', y, ss[j])
    ensures Precedes(WalkForest(ss), x, y)
  {
    hide WalkForest, LeadsTo, Walk, WalkAll, AtDepth, Precedes, HasParent;
    var q := p.Id();
    var d := DepthIn(ss, q);
    assert ss[i].parentId == q == ss[j].parentId && q != "";
    ChildrenDepth(ss, q, d);
    var k, l := PlacesInOrder(ss, ChildOf(q), i, j);
    var cs := Children(ss, q);
    assert cs[k] == ss[i].Id() && cs[l] == ss[j].Id() && cs[k] in cs && cs[l] in cs;
    hide Children, Named;
    PathToAncestor(ss, path, x, ss[i], d + 1);
    PathToAncestor(ss, path', y, ss[j], d + 1);
    SubtreesInOrder(ss, cs, d + 1, k, l, x, y);
    WalkIs(ss, q, d);
    PrecedesAfter(q, WalkAll(ss, cs, d + 1), x, y);
    var u, v := StretchOf(ss, q, d);
    PrecedesInside(u, Walk(ss, q, d), v, x, y);
  }

  lemma PrecedesAfter(q: string, w: seq<string>, x: string, y: string)
    requires Precedes(w, x, y)
    ensures Precedes([q] + w, x, y)
  {
    PrecedesInside([q], w, [], x, y);
    assert [q] + w + [] == [q] + w;
  }

  /** And of two roots likewise. */
  lemma RootsInOrder(ss: seq<Session>, i: nat, j: nat, path: seq<Session>, x: string, path': seq<Session>, y: string)
    requires DistinctIds(ss) && i < j < |ss| && !HasParent(ss, ss[i]) && !HasParent(ss, ss[j])
    requires LeadsTo(ss, path, x, ss[i]) && LeadsTo(ss, path', y, ss[j])
    ensures Precedes(WalkForest(ss), x, y)
  {
    StartsMeans(ss, ss[i]);
    StartsMeans(ss, ss[j]);
    hide LeadsTo, HasParent;
    forall c | c in Roots(ss) ensures AtDepth(ss, c, 0) { RootDepth(ss, c); }
    var k, l := PlacesInOrder(ss, RootOf(Ids(ss)), i, j);
    assert Roots(ss)[k] in Roots(ss) && Roots(ss)[l] in Roots(ss);
    PathToAncestor(ss, path, x, ss[i], 0);
    PathToAncestor(ss, path', y, ss[j], 0);
    hide Walk, WalkAll, AtDepth;
    SubtreesInOrder(ss, Roots(ss), 0, k, l, x, y);
  }

  lemma PlacesInOrder(ss: seq<Session>, f: Session -> Option<string>, i: nat, j: nat) returns (k: nat, l: nat)
    requires i < j < |ss| && f(ss[i]).Some? && f(ss[j]).Some?
    ensures k < l < |Collect(ss, f)| && Collect(ss, f)[k] == f(ss[i]).value && Collect(ss, f)[l] == f(ss[j]).value
  {
    CollectStep(ss, i, f);
    CollectStep(ss, j, f);
    k, l := |Collect(ss[..i], f)|, |Collect(ss[..j], f)|;
    CollectedPrefix(ss, f, i + 1, j);
    CollectedPrefix(ss, f, j + 1, |ss|);
    CollectedPrefix(ss, f, i + 1, |ss|);
    assert ss[..|ss|] == ss;
  }

  lemma CollectedPrefix(ss: seq<Session>, f: Session -> Option<string>, i: nat, j: nat)
    requires i <= j <= |ss|
    ensures Collect(ss[..i], f) <= Collect(ss[..j], f)
  {
    assert ss[..j] == ss[..i] + ss[i..j];
    CollectConcat(ss[..i], ss[i..j], f);
  }

  // ----- the lookup table -----

  /** Under an identifier the table holds the session delivered last under it. */
  lemma {:induction false} WinnerMeans(ss: seq<Session>, id: string) returns (i: nat)
    requires id in Ids(ss)
    ensures i < |ss| && ss[i] == Winner(ss, id) && Named(ss[i], id) && forall j :: i < j < |ss| ==> !Named(ss[j], id)
  {
    var before, last := ss[..|ss| - 1], ss[|ss| - 1];
    assert ss == before + [last];
    if last.Id() == id {
      i := |ss| - 1;
    } else {
      i := WinnerMeans(before, id);
      assert forall j :: 0 <= j < |before| ==> before[j] == ss[j];
    }
  }
}
