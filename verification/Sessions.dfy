/** The session forest of one run: parent links between sessions, possibly dangling or
    cyclic, and the walk that renders the forest. */
module Sessions {
  import opened Options
  import opened Sequences

  /** A session link; the empty string stands for an absent identifier. */
  datatype Session = Session(externalId: string, sessionId: string, parentId: string)
  {
    function Id(): string {
      if externalId != "" then externalId else sessionId
    }
  }

  function Ids(ss: seq<Session>): set<string> {
    set s | s in ss :: s.Id()
  }

  ghost predicate DistinctIds(ss: seq<Session>) {
    forall i, j :: 0 <= i < j < |ss| ==> ss[i].Id() != ss[j].Id()
  }

  /** Whether the session starts a tree: no parent, or one that is not in the run. */
  predicate StartsTree(s: Session, ids: set<string>) {
    s.parentId == "" || s.parentId !in ids
  }

  function ChildOf(id: string): Session -> Option<string> {
    (s: Session) => if id != "" && s.parentId == id then Some(s.Id()) else None
  }

  /** The children of `id` in delivery order. */
  function Children(ss: seq<Session>, id: string): seq<string> {
    Collect(ss, ChildOf(id))
  }

  function RootOf(ids: set<string>): Session -> Option<string> {
    (s: Session) => if StartsTree(s, ids) then Some(s.Id()) else None
  }

  function Roots(ss: seq<Session>): seq<string> {
    Collect(ss, RootOf(Ids(ss)))
  }

  // ----- parent chains -----

  /** `id` is `depth` parent steps below a root. */
  ghost predicate AtDepth(ss: seq<Session>, id: string, depth: nat)
    decreases depth
  {
    exists s :: s in ss && s.Id() == id
                && if StartsTree(s, Ids(ss)) then depth == 0
                   else depth > 0 && AtDepth(ss, s.parentId, depth - 1)
  }

  lemma OneSession(ss: seq<Session>, a: Session, b: Session)
    requires DistinctIds(ss) && a in ss && b in ss && a.Id() == b.Id()
    ensures a == b
  {
    var i :| 0 <= i < |ss| && ss[i] == a;
    var j :| 0 <= j < |ss| && ss[j] == b;
  }

  /** The session with the identifier `id`. */
  ghost function Find(ss: seq<Session>, id: string): (s: Session)
    requires id in Ids(ss)
    ensures s in ss && s.Id() == id
  {
    var s :| s in ss && s.Id() == id;
    s
  }

  /** The n-th parent of `id`, if the chain is that long. */
  ghost function Ancestor(ss: seq<Session>, id: string, n: nat): Option<string> {
    if n == 0 then (if id in Ids(ss) then Some(id) else None)
    else
      var below := Ancestor(ss, id, n - 1);
      if below.None? || below.value !in Ids(ss) || StartsTree(Find(ss, below.value), Ids(ss)) then None
      else Some(Find(ss, below.value).parentId)
  }

  lemma {:induction false} DepthIsUnique(ss: seq<Session>, id: string, d: nat, e: nat)
    requires DistinctIds(ss) && AtDepth(ss, id, d) && AtDepth(ss, id, e)
    ensures d == e
    decreases d
  {
    var s :| s in ss && s.Id() == id
             && if StartsTree(s, Ids(ss)) then d == 0 else d > 0 && AtDepth(ss, s.parentId, d - 1);
    var t :| t in ss && t.Id() == id
             && if StartsTree(t, Ids(ss)) then e == 0 else e > 0 && AtDepth(ss, t.parentId, e - 1);
    OneSession(ss, s, t);
    if d > 0 {
      DepthIsUnique(ss, s.parentId, d - 1, e - 1);
    }
  }

  /** Along a parent chain the depth goes down by one a step. */
  lemma {:induction false} AncestorDepth(ss: seq<Session>, id: string, d: nat, n: nat)
    requires DistinctIds(ss) && AtDepth(ss, id, d)
    ensures n <= d ==> Ancestor(ss, id, n).Some? && AtDepth(ss, Ancestor(ss, id, n).value, d - n)
    ensures n > d ==> Ancestor(ss, id, n).None?
  {
    if n > 0 {
      AncestorDepth(ss, id, d, n - 1);
      if n - 1 <= d {
        var a := Ancestor(ss, id, n - 1).value;
        var s :| s in ss && s.Id() == a
                 && if StartsTree(s, Ids(ss)) then d - n + 1 == 0
                    else d - n + 1 > 0 && AtDepth(ss, s.parentId, d - n);
        OneSession(ss, s, Find(ss, a));
      }
    }
  }

  lemma {:induction false} Pigeonhole(s: set<string>, f: seq<string>)
    requires |f| > |s| && forall i :: 0 <= i < |f| ==> f[i] in s
    ensures exists i, j :: 0 <= i < j < |f| && f[i] == f[j]
  {
    var last := f[|f| - 1];
    var rest := f[..|f| - 1];
    if last in rest {
      var i :| 0 <= i < |rest| && rest[i] == last;
      assert f[i] == f[|f| - 1];
    } else {
      assert |s - {last}| == |s| - 1;
      Pigeonhole(s - {last}, rest);
      var i, j :| 0 <= i < j < |rest| && rest[i] == rest[j];
      assert f[i] == f[j];
    }
  }

  ghost function Chain(ss: seq<Session>, id: string, n: nat): (c: seq<string>)
    requires forall k :: 0 <= k < n ==> Ancestor(ss, id, k).Some?
    ensures |c| == n && forall k :: 0 <= k < n ==> c[k] == Ancestor(ss, id, k).value
  {
    seq(n, k requires 0 <= k < n => Ancestor(ss, id, k).value)
  }

  lemma {:induction false} AncestorsAreSessions(ss: seq<Session>, id: string, n: nat)
    ensures Ancestor(ss, id, n).Some? ==> Ancestor(ss, id, n).value in Ids(ss)
    ensures Ancestor(ss, id, n).Some? && n > 0 ==> Ancestor(ss, id, n - 1).Some?
  {
  }

  ghost predicate Grounded(ss: seq<Session>, id: string) {
    exists d: nat :: AtDepth(ss, id, d)
  }

  /** The parent chain of `id` comes back to a session it has passed. */
  ghost predicate RunsIntoCycle(ss: seq<Session>, id: string) {
    exists i: nat, j: nat :: i < j && Ancestor(ss, id, i).Some? && Ancestor(ss, id, i) == Ancestor(ss, id, j)
  }

  lemma IdsBound(ss: seq<Session>)
    ensures |Ids(ss)| <= |ss|
  {
    if ss == [] {
      assert Ids(ss) == {};
    } else {
      var before, last := ss[..|ss| - 1], ss[|ss| - 1];
      IdsBound(before);
      assert ss == before + [last];
      assert Ids(ss) == Ids(before) + {last.Id()};
    }
  }

  /** No session is as deep as there are sessions. */
  lemma DepthBound(ss: seq<Session>, id: string, d: nat)
    requires DistinctIds(ss) && AtDepth(ss, id, d)
    ensures d < |ss|
  {
    hide AtDepth, Ancestor, Ids;
    if d >= |ss| {
      forall n: nat | n <= d
        ensures Ancestor(ss, id, n).Some? && AtDepth(ss, Ancestor(ss, id, n).value, d - n)
        ensures Ancestor(ss, id, n).value in Ids(ss) {
        AncestorDepth(ss, id, d, n);
        AncestorsAreSessions(ss, id, n);
      }
      var c := Chain(ss, id, d + 1);
      IdsBound(ss);
      Pigeonhole(Ids(ss), c);
      var i, j :| 0 <= i < j < |c| && c[i] == c[j];
      assert AtDepth(ss, Ancestor(ss, id, i).value, d - i) && AtDepth(ss, Ancestor(ss, id, j).value, d - j);
      DepthIsUnique(ss, c[i], d - i, d - j);
    }
  }

  /** If the n-th ancestor is a root, the session is at depth n. */
  lemma {:induction false} RootAbove(ss: seq<Session>, id: string, n: nat)
    requires Ancestor(ss, id, n).Some? && Ancestor(ss, id, n + 1).None?
    ensures forall k: nat :: k <= n ==> Ancestor(ss, id, k).Some? && AtDepth(ss, Ancestor(ss, id, k).value, n - k)
  {
    AncestorsAreSessions(ss, id, n);
    var top := Find(ss, Ancestor(ss, id, n).value);
    assert AtDepth(ss, Ancestor(ss, id, n).value, 0);
    var k := n;
    while k > 0
      invariant k <= n
      invariant forall m: nat :: k <= m <= n ==>
                  Ancestor(ss, id, m).Some? && AtDepth(ss, Ancestor(ss, id, m).value, n - m)
    {
      AncestorsAreSessions(ss, id, k);
      var s := Find(ss, Ancestor(ss, id, k - 1).value);
      assert Ancestor(ss, id, k).value == s.parentId;
      k := k - 1;
    }
  }

  /** A session of the run is grounded exactly when its parent chain meets no cycle. */
  lemma GroundedIffNoCycle(ss: seq<Session>, id: string)
    requires DistinctIds(ss) && id in Ids(ss)
    ensures Grounded(ss, id) <==> !RunsIntoCycle(ss, id)
  {
    if Grounded(ss, id) {
      var d: nat :| AtDepth(ss, id, d);
      forall i: nat, j: nat | i < j && Ancestor(ss, id, i).Some?
        ensures Ancestor(ss, id, i) != Ancestor(ss, id, j) {
        AncestorDepth(ss, id, d, i);
        AncestorDepth(ss, id, d, j);
        if j <= d && Ancestor(ss, id, i) == Ancestor(ss, id, j) {
          DepthIsUnique(ss, Ancestor(ss, id, i).value, d - i, d - j);
        }
      }
    } else {
      NeverEnds(ss, id, |ss|);
      forall n: nat | n <= |ss| ensures Ancestor(ss, id, n).value in Ids(ss) {
        AncestorsAreSessions(ss, id, n);
      }
      var c := Chain(ss, id, |ss| + 1);
      IdsBound(ss);
      Pigeonhole(Ids(ss), c);
      var i, j :| 0 <= i < j < |c| && c[i] == c[j];
      assert Ancestor(ss, id, i) == Ancestor(ss, id, j);
    }
  }

  lemma EndingGrounds(ss: seq<Session>, id: string, n: nat)
    requires id in Ids(ss) && Ancestor(ss, id, n).Some? && Ancestor(ss, id, n + 1).None?
    ensures Grounded(ss, id)
  {
    RootAbove(ss, id, n);
    assert AtDepth(ss, Ancestor(ss, id, 0).value, n);
  }

  lemma {:induction false} NeverEnds(ss: seq<Session>, id: string, n: nat)
    requires id in Ids(ss) && !Grounded(ss, id)
    ensures forall k: nat :: k <= n ==> Ancestor(ss, id, k).Some?
  {
    if n > 0 {
      NeverEnds(ss, id, n - 1);
      if Ancestor(ss, id, n).None? {
        EndingGrounds(ss, id, n - 1);
      }
    }
  }

  // ----- the walk -----

  lemma {:induction false} ChildrenMembers(ss: seq<Session>, id: string, c: string)
    ensures c in Children(ss, id) <==> id != "" && exists s :: s in ss && s.parentId == id && s.Id() == c
  {
    if ss != [] {
      var before, last := ss[..|ss| - 1], ss[|ss| - 1];
      assert ss == before + [last];
      ChildrenMembers(before, id, c);
    }
  }

  lemma {:induction false} RootMembers(ss: seq<Session>, ids: set<string>, c: string)
    ensures c in Collect(ss, RootOf(ids)) <==> exists s :: s in ss && StartsTree(s, ids) && s.Id() == c
  {
    if ss != [] {
      var before, last := ss[..|ss| - 1], ss[|ss| - 1];
      assert ss == before + [last];
      RootMembers(before, ids, c);
    }
  }

  /** A child of a session that is in the run sits one step deeper. */
  lemma ChildDepth(ss: seq<Session>, id: string, d: nat, c: string)
    requires AtDepth(ss, id, d) && c in Children(ss, id)
    ensures AtDepth(ss, c, d + 1)
  {
    ChildrenMembers(ss, id, c);
    var s :| s in ss && s.parentId == id && s.Id() == c;
    var p :| p in ss && p.Id() == id;
    assert !StartsTree(s, Ids(ss));
  }

  lemma RootDepth(ss: seq<Session>, c: string)
    requires c in Roots(ss)
    ensures AtDepth(ss, c, 0)
  {
    RootMembers(ss, Ids(ss), c);
  }

  /** What the recursive rendering visits below `id`, in order.  It is defined for sessions
      at a depth, and there it ends: no session is as deep as there are sessions. */
  ghost function Walk(ss: seq<Session>, id: string, d: nat): seq<string>
    requires DistinctIds(ss) && AtDepth(ss, id, d)
    decreases |ss| - d, 0
  {
    DepthBound(ss, id, d);
    forall c | c in Children(ss, id) ensures AtDepth(ss, c, d + 1) { ChildDepth(ss, id, d, c); }
    [id] + WalkAll(ss, Children(ss, id), d + 1)
  }

  ghost function WalkAll(ss: seq<Session>, ids: seq<string>, d: nat): seq<string>
    requires DistinctIds(ss) && forall c :: c in ids ==> AtDepth(ss, c, d)
    decreases |ss| - d, |ids|
  {
    if ids == [] then []
    else
      assert ids[|ids| - 1] in ids;
      DepthBound(ss, ids[|ids| - 1], d);
      WalkAll(ss, ids[..|ids| - 1], d) + Walk(ss, ids[|ids| - 1], d)
  }

  ghost function WalkForest(ss: seq<Session>): seq<string>
    requires DistinctIds(ss)
  {
    forall c | c in Roots(ss) ensures AtDepth(ss, c, 0) { RootDepth(ss, c); }
    WalkAll(ss, Roots(ss), 0)
  }

  /** `x` is `a` or below it. */
  ghost predicate Below(ss: seq<Session>, x: string, a: string, d: nat) {
    exists n: nat :: n >= d && AtDepth(ss, x, n) && Ancestor(ss, x, n - d) == Some(a)
  }
}
