/** The four passes never collide, and lineage reaches every owned commit and review. */
module LinkLaws {
  import opened Options
  import opened Sequences
  import opened Text
  import opened EntityLinks
  import opened LinkPasses
  import C = Correlation

  ghost predicate OneLinkEach(ls: seq<EntityLink>) {
    forall i, j :: 0 <= i < j < |ls| ==> ls[i].entityId != ls[j].entityId
  }

  ghost predicate DistinctBindings(bs: seq<Bound>) {
    forall i, j :: 0 <= i < j < |bs| ==> bs[i].entityId != bs[j].entityId
  }

  lemma OneLinkConcat(a: seq<EntityLink>, b: seq<EntityLink>)
    requires OneLinkEach(a) && OneLinkEach(b) && LinkedIds(a) !! LinkedIds(b)
    ensures OneLinkEach(a + b)
    ensures LinkedIds(a + b) == LinkedIds(a) + LinkedIds(b)
  {
    forall i, j | 0 <= i < j < |a + b| ensures (a + b)[i].entityId != (a + b)[j].entityId {
      if i < |a| && |a| <= j {
        assert a[i] in a && b[j - |a|] in b;
        assert a[i].entityId in LinkedIds(a) && b[j - |a|].entityId in LinkedIds(b);
      }
    }
  }

  lemma {:induction false} PassLinksOnce(sorted: seq<Entity>, f: Entity -> Option<EntityLink>)
    requires DistinctEntities(sorted)
    requires forall e :: f(e).Some? ==> f(e).value.entityId == e.id
    ensures OneLinkEach(Collect(sorted, f))
  {
    if sorted != [] {
      var n := |sorted| - 1;
      PassLinksOnce(sorted[..n], f);
      NotLinkedYet(sorted, n, f);
      if f(sorted[n]).Some? {
        OneLinkConcat(Collect(sorted[..n], f), [f(sorted[n]).value]);
      }
    }
  }

  lemma OneLink(l: EntityLink)
    ensures OneLinkEach([l]) && LinkedIds([l]) == {l.entityId}
  {
    assert [l][0] == l;
  }

  lemma LastIsNew(bs: seq<Bound>)
    requires bs != [] && DistinctBindings(bs)
    ensures bs[|bs| - 1].entityId !in BoundIds(bs[..|bs| - 1])
  {
    forall b | b in bs[..|bs| - 1] ensures b.entityId != bs[|bs| - 1].entityId {
      var k :| 0 <= k < |bs| - 1 && bs[k] == b;
    }
  }

  lemma {:induction false} DirectLinksOnce(bs: seq<Bound>)
    requires DistinctBindings(bs)
    ensures OneLinkEach(Collect(bs, DirectLink)) && LinkedIds(Collect(bs, DirectLink)) == BoundIds(bs)
  {
    if bs != [] {
      hide RoleOf, OneLinkEach;
      var before, last := bs[..|bs| - 1], bs[|bs| - 1];
      assert bs == before + [last];
      DirectLinksOnce(before);
      LastIsNew(bs);
      OneLink(DirectLink(last).value);
      OneLinkConcat(Collect(before, DirectLink), [DirectLink(last).value]);
      assert BoundIds(bs) == BoundIds(before) + {last.entityId};
    }
  }

  /** The identifiers a pass links are those of the entities it picks. */
  lemma PassIds(sorted: seq<Entity>, f: Entity -> Option<EntityLink>)
    requires forall e :: f(e).Some? ==> f(e).value.entityId == e.id
    ensures LinkedIds(Collect(sorted, f)) == set e | e in sorted && f(e).Some? :: e.id
  {
    CollectOrigins(sorted, f);
    var links := Collect(sorted, f);
    forall l | l in links ensures exists e :: e in sorted && f(e).Some? && e.id == l.entityId {
      var e :| e in sorted && f(e) == Some(l);
    }
    forall e | e in sorted && f(e).Some? ensures e.id in LinkedIds(links) {
      assert f(e).value in links;
    }
  }

  lemma SameEntity(es: seq<Entity>, a: Entity, b: Entity)
    requires DistinctEntities(es) && a in es && b in es && a.id == b.id
    ensures a == b
  {
    var i :| 0 <= i < |es| && es[i] == a;
    var j :| 0 <= j < |es| && es[j] == b;
  }

  /** Change-request noise keeps clear of the bound and of the lineage. */
  lemma RequestsApart(sorted: seq<Entity>, bound: set<string>, inherited: set<string>, owner: Option<string>)
    requires DistinctEntities(sorted)
    requires inherited == set e | e in sorted && Inherits(e, bound, owner) :: e.id
    ensures OneLinkEach(Collect(sorted, RequestNoise(bound)))
    ensures LinkedIds(Collect(sorted, RequestNoise(bound))) !! bound + inherited
  {
    var f := RequestNoise(bound);
    PassLinksOnce(sorted, f);
    PassIds(sorted, f);
    forall a, b | a in sorted && b in sorted && f(a).Some? && Inherits(b, bound, owner) ensures a.id != b.id {
      if a.id == b.id {
        SameEntity(sorted, a, b);
      }
    }
  }

  /** Commit noise keeps clear of what is linked so far. */
  lemma CommitsApart(sorted: seq<Entity>, bound: set<string>, linked: set<string>, known: set<int>, p: Patterns)
    requires DistinctEntities(sorted)
    ensures OneLinkEach(Collect(sorted, CommitNoise(linked, known, p)))
    ensures LinkedIds(Collect(sorted, CommitNoise(linked, known, p)))
            !! linked + LinkedIds(Collect(sorted, RequestNoise(bound)))
  {
    var f, g := RequestNoise(bound), CommitNoise(linked, known, p);
    PassLinksOnce(sorted, g);
    PassIds(sorted, f);
    PassIds(sorted, g);
    forall a, b | a in sorted && b in sorted && f(a).Some? && g(b).Some? ensures a.id != b.id {
      if a.id == b.id {
        SameEntity(sorted, a, b);
      }
    }
  }

  /** The link passes do not collide: each identifier gets at most one link. */
  lemma PassesDoNotCollide(bs: seq<Bound>, es: seq<Entity>, owning: Option<Entity>, p: Patterns)
    requires DistinctBindings(bs) && DistinctEntities(es)
    ensures OneLinkEach(Links(bs, es, owning, p))
  {
    hide OneLinkEach, Inherits, SortById, NamesUnknown, RoleOf, Collect, KnownNumbers, DistinctEntities, DistinctBindings;
    var sorted := SortById(es);
    SortedDistinct(es);
    var bound := BoundIds(bs);
    DirectLinksOnce(bs);
    var direct, lineage := Collect(bs, DirectLink), Lineage(bs, sorted, owning);
    LineageShape(bs, sorted, owning);
    InheritorsUnbound(sorted, bound, OwnerId(owning));
    var linked := bound + LinkedIds(lineage);
    var known := KnownNumbers(owning, p);
    RequestsApart(sorted, bound, LinkedIds(lineage), OwnerId(owning));
    CommitsApart(sorted, bound, linked, known, p);
    hide Lineage, LinkedIds, BoundIds;
    var requests, commits := Collect(sorted, RequestNoise(bound)), Collect(sorted, CommitNoise(linked, known, p));
    OneLinkConcat(direct, lineage);
    OneLinkConcat(direct + lineage, requests);
    OneLinkConcat(direct + lineage + requests, commits);
  }

  lemma InheritorsUnbound(sorted: seq<Entity>, bound: set<string>, owner: Option<string>)
    ensures (set e | e in sorted && Inherits(e, bound, owner) :: e.id) !! bound
  {
  }

  /** Lineage links exactly the unbound commits and reviews the owning request carries. */
  lemma LineageShape(bs: seq<Bound>, sorted: seq<Entity>, owning: Option<Entity>)
    requires DistinctEntities(sorted)
    ensures OneLinkEach(Lineage(bs, sorted, owning))
    ensures LinkedIds(Lineage(bs, sorted, owning))
            == set e | e in sorted && Inherits(e, BoundIds(bs), OwnerId(owning)) :: e.id
  {
    if owning.Some? {
      var f := LineageLink(BoundIds(bs), OwnerId(owning), OwningConfidence(bs, owning.value));
      PassLinksOnce(sorted, f);
      PassIds(sorted, f);
      assert forall e :: f(e).Some? <==> Inherits(e, BoundIds(bs), OwnerId(owning));
    }
  }

  // ----- the order of the links -----

  ghost predicate InIdOrder(ls: seq<EntityLink>) {
    forall i, j :: 0 <= i < j < |ls| ==> TextLe(ls[i].entityId, ls[j].entityId)
  }

  lemma {:induction false} PassKeepsOrder(sorted: seq<Entity>, f: Entity -> Option<EntityLink>)
    requires OrderedById(sorted)
    requires forall e :: f(e).Some? ==> f(e).value.entityId == e.id
    ensures InIdOrder(Collect(sorted, f))
  {
    if sorted != [] {
      var before, last := sorted[..|sorted| - 1], sorted[|sorted| - 1];
      PassKeepsOrder(before, f);
      CollectOrigins(before, f);
      var ls := Collect(before, f);
      forall i | 0 <= i < |ls| ensures TextLe(ls[i].entityId, last.id) {
        assert ls[i] in ls;
        var e :| e in before && f(e) == Some(ls[i]);
        var k :| 0 <= k < |before| && before[k] == e;
        assert TextLe(sorted[k].id, sorted[|sorted| - 1].id);
      }
    }
  }

  /** Stable iteration order: lineage links come in the order of their identifiers, and so do
      the links of each noise pass. */
  lemma PassesInIdOrder(bs: seq<Bound>, es: seq<Entity>, owning: Option<Entity>, linked: set<string>, known: set<int>,
                        p: Patterns)
    ensures InIdOrder(Lineage(bs, SortById(es), owning))
    ensures InIdOrder(Collect(SortById(es), RequestNoise(BoundIds(bs))))
    ensures InIdOrder(Collect(SortById(es), CommitNoise(linked, known, p)))
  {
    SortedById(es);
    PassKeepsOrder(SortById(es), RequestNoise(BoundIds(bs)));
    PassKeepsOrder(SortById(es), CommitNoise(linked, known, p));
    if owning.Some? {
      PassKeepsOrder(SortById(es), LineageLink(BoundIds(bs), OwnerId(owning), OwningConfidence(bs, owning.value)));
    }
  }

  lemma SameLast(a: seq<Entity>, b: seq<Entity>)
    requires a != [] && b != [] && OrderedById(a) && OrderedById(b) && DistinctEntities(a)
    requires multiset(a) == multiset(b)
    ensures a[|a| - 1] == b[|b| - 1]
  {
    var x, y := a[|a| - 1], b[|b| - 1];
    assert x in multiset(b) && y in multiset(a);
    var i :| 0 <= i < |b| && b[i] == x;
    var j :| 0 <= j < |a| && a[j] == y;
    TextLeTotal(x.id, x.id);
    assert TextLe(b[i].id, y.id) && TextLe(a[j].id, x.id);
    TextLeAntisymmetric(x.id, y.id);
    SameEntity(a, x, y);
  }

  lemma OrderedPrefix(s: seq<Entity>)
    requires s != [] && OrderedById(s)
    ensures OrderedById(s[..|s| - 1])
    ensures DistinctEntities(s) ==> DistinctEntities(s[..|s| - 1])
  {
  }

  /** Distinct entities have one order by identifier. */
  lemma {:induction false} OneIdOrder(a: seq<Entity>, b: seq<Entity>)
    requires OrderedById(a) && OrderedById(b) && DistinctEntities(a)
    requires multiset(a) == multiset(b)
    ensures a == b
  {
    hide OrderedById, DistinctEntities;
    assert |multiset(a)| == |a| && |multiset(b)| == |b|;
    if a != [] {
      SameLast(a, b);
      OrderedPrefix(a);
      OrderedPrefix(b);
      var before, before', last := a[..|a| - 1], b[..|b| - 1], a[|a| - 1];
      assert a == before + [last] && b == before' + [last];
      Cancel(multiset(before), multiset(before'), multiset([last]));
      OneIdOrder(before, before');
    }
  }

  /** Determinism: the links do not depend on the order in which the entities were fetched. */
  lemma LinksIgnoreFetchOrder(bs: seq<Bound>, es: seq<Entity>, es': seq<Entity>, owning: Option<Entity>, p: Patterns)
    requires DistinctEntities(es) && multiset(es) == multiset(es')
    ensures Links(bs, es, owning, p) == Links(bs, es', owning, p)
  {
    SortedDistinct(es);
    SortedById(es);
    SortedById(es');
    OneIdOrder(SortById(es), SortById(es'));
  }

  // ----- what is noise -----

  /** A change request is noise to the run, or a commit that names a number the run does not
      know and that does not come from the owning change request. */
  ghost predicate Unrelated(e: Entity, owning: Option<Entity>, p: Patterns) {
    || e.kind.ChangeRequest?
    || (e.kind.Commit? && NamesUnknown(e, KnownNumbers(owning, p), p) && !(owning.Some? && e.owner == OwnerId(owning)))
  }

  function HasNoise(ls: seq<EntityLink>): set<string> {
    set l | l in ls && l.role == NoiseRole :: l.entityId
  }

  /** Direct and lineage links are never noise; the noise passes yield nothing else. */
  lemma RolesOfPasses(bs: seq<Bound>, sorted: seq<Entity>, owning: Option<Entity>, linked: set<string>,
                      known: set<int>, p: Patterns)
    ensures HasNoise(Collect(bs, DirectLink)) == {} && HasNoise(Lineage(bs, sorted, owning)) == {}
    ensures HasNoise(Collect(sorted, RequestNoise(BoundIds(bs)))) == LinkedIds(Collect(sorted, RequestNoise(BoundIds(bs))))
    ensures HasNoise(Collect(sorted, CommitNoise(linked, known, p))) == LinkedIds(Collect(sorted, CommitNoise(linked, known, p)))
  {
    hide Inherits, NamesUnknown, Collect;
    CollectOrigins(bs, DirectLink);
    if owning.Some? {
      CollectOrigins(sorted, LineageLink(BoundIds(bs), OwnerId(owning), OwningConfidence(bs, owning.value)));
    }
    CollectOrigins(sorted, RequestNoise(BoundIds(bs)));
    CollectOrigins(sorted, CommitNoise(linked, known, p));
  }

  /** A run marks as noise exactly the unbound entities that are unrelated to it. */
  lemma NoiseIffUnrelated(bs: seq<Bound>, es: seq<Entity>, owning: Option<Entity>, p: Patterns)
    requires DistinctEntities(es)
    ensures HasNoise(Links(bs, es, owning, p))
            == set e | e in es && e.id !in BoundIds(bs) && Unrelated(e, owning, p) :: e.id
  {
    hide SortById, NamesUnknown, Collect, KnownNumbers, DistinctEntities;
    var sorted, bound := SortById(es), BoundIds(bs);
    SortedDistinct(es);
    SortByIdMembers(es);
    LineageShape(bs, sorted, owning);
    var lineage := Lineage(bs, sorted, owning);
    var linked, known := bound + LinkedIds(lineage), KnownNumbers(owning, p);
    RolesOfPasses(bs, sorted, owning, linked, known, p);
    PassIds(sorted, RequestNoise(bound));
    PassIds(sorted, CommitNoise(linked, known, p));
    forall e | e in sorted && e.kind.Commit? ensures e.id in LinkedIds(lineage) <==> Inherits(e, bound, OwnerId(owning)) {
      if e.id in LinkedIds(lineage) {
        var other :| other in sorted && Inherits(other, bound, OwnerId(owning)) && other.id == e.id;
        SameEntity(sorted, e, other);
      }
    }
    NoiseOfConcat(Collect(bs, DirectLink), lineage, Collect(sorted, RequestNoise(bound)),
                  Collect(sorted, CommitNoise(linked, known, p)));
    hide HasNoise, Lineage;
    var requests, commits := Collect(sorted, RequestNoise(bound)), Collect(sorted, CommitNoise(linked, known, p));
    assert HasNoise(Links(bs, es, owning, p)) == LinkedIds(requests) + LinkedIds(commits);
  }

  lemma NoiseOfConcat(a: seq<EntityLink>, b: seq<EntityLink>, c: seq<EntityLink>, d: seq<EntityLink>)
    ensures HasNoise(a + b + c + d) == HasNoise(a) + HasNoise(b) + HasNoise(c) + HasNoise(d)
  {
  }

  // ----- through the collapse of duplicates -----

  /** The same identifier never names entities of different kinds. */
  ghost predicate IdFixesKind(es: seq<Entity>) {
    forall a, b :: a in es && b in es && a.id == b.id ==> a.kind == b.kind
  }

  /** If any copy of an identifier is carried by the owning request, so is the kept copy. */
  lemma KeptCopyIsOwned(r: seq<Entity>, es: seq<Entity>, owner: Option<string>, e: Entity)
    requires IsDeduped(r, es, owner) && IdFixesKind(es)
    requires e in es && owner.Some? && e.owner == owner
    ensures exists k :: k in r && k.id == e.id && k.kind == e.kind && k.owner == owner
  {
    FirstIdsMembers(es);
    FirstWhereFound(es, OwnedCopy(e.id, owner));
    assert OwnedCopy(e.id, owner)(e);
    assert e.id in FirstIds(es);
    var i :| 0 <= i < |FirstIds(es)| && FirstIds(es)[i] == e.id;
    assert Kept(es, e.id, owner) == Some(r[i]);
    assert r[i] in r;
  }

  /** Whatever duplicate copies were fetched: every unbound commit or review of which the
      owning change request carries some copy ends with exactly one link, a lineage link with
      the owning request's confidence. */
  lemma LineageReachesOwnedCopies(bs: seq<Bound>, es: seq<Entity>, r: seq<Entity>, owning: Option<Entity>, p: Patterns, e: Entity)
    requires DistinctBindings(bs) && IsDeduped(r, es, OwnerId(owning)) && IdFixesKind(es)
    requires owning.Some? && e in es && (e.kind.Commit? || e.kind.Review?)
    requires e.id !in BoundIds(bs) && e.owner == OwnerId(owning)
    ensures var links := Links(bs, r, owning, p);
            var confidence := OwningConfidence(bs, owning.value);
            && EntityLink(e.id, RoleOf(confidence), confidence, FromOwner) in links
            && OneLinkEach(links)
  {
    DedupedIsDistinct(r, es, OwnerId(owning));
    PassesDoNotCollide(bs, r, owning, p);
    KeptCopyIsOwned(r, es, OwnerId(owning), e);
    var k :| k in r && k.id == e.id && k.kind == e.kind && k.owner == OwnerId(owning);
    var sorted := SortById(r);
    SortByIdMembers(r);
    var f := LineageLink(BoundIds(bs), OwnerId(owning), OwningConfidence(bs, owning.value));
    CollectOrigins(sorted, f);
    assert f(k).Some? && f(k).value in Lineage(bs, sorted, owning);
  }

  // ----- from rule outputs to links -----

  /** The correlations of a resolution, as the link passes see them. */
  function AsBound(cs: seq<C.Binding>): (bs: seq<Bound>)
    ensures |bs| == |cs|
    ensures forall i :: 0 <= i < |cs| ==> bs[i] == Bound(cs[i].entityId, cs[i].confidence)
  {
    seq(|cs|, i requires 0 <= i < |cs| => Bound(cs[i].entityId, cs[i].confidence))
  }

  /** End to end: whatever the rules put out and whatever copies were fetched, the run ends
      with at most one link per entity. */
  lemma RunLinksEachEntityOnce(
    results: seq<C.RuleResult>, ulids: C.Ulids, version: string, locked: set<string>,
    correlations: seq<C.Binding>, ambiguities: map<string, C.Ambiguity>,
    es: seq<Entity>, r: seq<Entity>, owning: Option<Entity>, p: Patterns)
    requires C.Resolved(locked, correlations, ambiguities, C.Stream(results), ulids, version)
    requires IsDeduped(r, es, OwnerId(owning))
    ensures OneLinkEach(Links(AsBound(correlations), r, owning, p))
  {
    hide C.Resolved, Links;
    C.FirstWordWins(results, ulids, version, locked, correlations, ambiguities);
    DedupedIsDistinct(r, es, OwnerId(owning));
    PassesDoNotCollide(AsBound(correlations), r, owning, p);
  }
}
