/** The four link passes over the collapsed entities. */
module LinkPasses {
  import opened Confidences
  import opened Options
  import opened Sequences
  import opened Text
  import opened EntityLinks

  // ----- `sorted(entities, key=id)`, a stable sort -----

  function InsertById(e: Entity, s: seq<Entity>): (r: seq<Entity>)
    ensures multiset(r) == multiset(s) + multiset{e}
  {
    if s == [] then [e]
    else
      var before, last := s[..|s| - 1], s[|s| - 1];
      assert s == before + [last];
      if TextLe(last.id, e.id) then s + [e] else InsertById(e, before) + [last]
  }

  function SortById(es: seq<Entity>): (r: seq<Entity>)
    ensures multiset(r) == multiset(es)
  {
    if es == [] then []
    else
      assert es == es[..|es| - 1] + [es[|es| - 1]];
      InsertById(es[|es| - 1], SortById(es[..|es| - 1]))
  }

  ghost predicate OrderedById(s: seq<Entity>) {
    forall i, j :: 0 <= i < j < |s| ==> TextLe(s[i].id, s[j].id)
  }

  lemma {:induction false} InsertKeepsOrder(e: Entity, s: seq<Entity>)
    requires OrderedById(s)
    ensures OrderedById(InsertById(e, s))
  {
    if s != [] {
      var before, last := s[..|s| - 1], s[|s| - 1];
      if TextLe(last.id, e.id) {
        forall i | 0 <= i < |s| ensures TextLe(s[i].id, e.id) {
          if i < |s| - 1 {
            TextLeTransitive(s[i].id, last.id, e.id);
          }
        }
      } else {
        InsertKeepsOrder(e, before);
        TextLeTotal(last.id, e.id);
        var t := InsertById(e, before);
        forall i | 0 <= i < |t| ensures TextLe(t[i].id, last.id) {
          assert t[i] in multiset(t);
          assert t[i] == e || t[i] in before;
        }
      }
    }
  }

  lemma {:induction false} SortedById(es: seq<Entity>)
    ensures OrderedById(SortById(es))
  {
    if es != [] {
      SortedById(es[..|es| - 1]);
      InsertKeepsOrder(es[|es| - 1], SortById(es[..|es| - 1]));
    }
  }

  lemma SortByIdMembers(es: seq<Entity>)
    ensures forall e :: e in SortById(es) <==> e in es
  {
    forall e ensures e in SortById(es) <==> e in es {
      assert e in SortById(es) <==> e in multiset(SortById(es));
      assert e in es <==> e in multiset(es);
    }
  }

  // ----- what each pass yields -----

  function RoleOf(confidence: real): Role {
    if confidence >= THRESHOLD then ResolvedRole else ReferencedRole
  }

  function DirectLink(b: Bound): Option<EntityLink> {
    Some(EntityLink(b.entityId, RoleOf(b.confidence), b.confidence, Direct))
  }

  function BoundIds(bs: seq<Bound>): set<string> {
    set b | b in bs :: b.entityId
  }

  /** The confidence of the owning change request's own correlation, else full confidence. */
  function OwningConfidence(bs: seq<Bound>, owning: Entity): real {
    if bs == [] then ISSUE_RESOLVED
    else if bs[0].entityId == owning.id then bs[0].confidence
    else OwningConfidence(bs[1..], owning)
  }

  predicate Inherits(e: Entity, bound: set<string>, owner: Option<string>) {
    (e.kind.Commit? || e.kind.Review?) && e.id !in bound && owner.Some? && e.owner == owner
  }

  function LineageLink(bound: set<string>, owner: Option<string>, confidence: real): Entity -> Option<EntityLink> {
    (e: Entity) => if Inherits(e, bound, owner)
                   then Some(EntityLink(e.id, RoleOf(confidence), confidence, FromOwner)) else None
  }

  function Noise(id: string): EntityLink {
    EntityLink(id, NoiseRole, 0.0, Direct)
  }

  function RequestNoise(bound: set<string>): Entity -> Option<EntityLink> {
    (e: Entity) => if e.kind.ChangeRequest? && e.id !in bound then Some(Noise(e.id)) else None
  }

  /** The numbers a text names; an absent or empty text names none. */
  function Numbers(f: string -> set<int>, text: Option<string>): set<int> {
    if text.None? || text.value == "" then {} else f(text.value)
  }

  function KnownNumbers(owning: Option<Entity>, p: Patterns): set<int> {
    if owning.None? then {}
    else Numbers(p.resolvedNumbers, owning.value.description)
         + if owning.value.number.Some? then {owning.value.number.value} else {}
  }

  predicate NamesUnknown(e: Entity, known: set<int>, p: Patterns) {
    Numbers(p.issueNumbers, e.title) != {} && !(Numbers(p.issueNumbers, e.title) <= known)
  }

  function CommitNoise(linked: set<string>, known: set<int>, p: Patterns): Entity -> Option<EntityLink> {
    (e: Entity) => if e.kind.Commit? && e.id !in linked && NamesUnknown(e, known, p) then Some(Noise(e.id)) else None
  }

  function LinkedIds(ls: seq<EntityLink>): set<string> {
    set l | l in ls :: l.entityId
  }

  function Lineage(bs: seq<Bound>, sorted: seq<Entity>, owning: Option<Entity>): seq<EntityLink> {
    if owning.None? then []
    else Collect(sorted, LineageLink(BoundIds(bs), OwnerId(owning), OwningConfidence(bs, owning.value)))
  }

  /** All links: direct ones, lineage, change-request noise, commit noise. */
  function Links(bs: seq<Bound>, es: seq<Entity>, owning: Option<Entity>, p: Patterns): seq<EntityLink> {
    var sorted := SortById(es);
    var lineage := Lineage(bs, sorted, owning);
    Collect(bs, DirectLink) + lineage
    + Collect(sorted, RequestNoise(BoundIds(bs)))
    + Collect(sorted, CommitNoise(BoundIds(bs) + LinkedIds(lineage), KnownNumbers(owning, p), p))
  }

  // ----- the passes -----

  method DirectPass(bs: seq<Bound>) returns (links: seq<EntityLink>)
    ensures links == Collect(bs, DirectLink)
  {
    links := [];
    for i := 0 to |bs|
      invariant links == Collect(bs[..i], DirectLink)
    {
      CollectStep(bs, i, DirectLink);
      var role := if bs[i].confidence >= THRESHOLD then ResolvedRole else ReferencedRole;
      links := links + [EntityLink(bs[i].entityId, role, bs[i].confidence, Direct)];
    }
    assert bs[..|bs|] == bs;
  }

  /** A sorted list of distinct entities: an identifier linked in this pass cannot recur. */
  lemma NotLinkedYet(sorted: seq<Entity>, i: nat, f: Entity -> Option<EntityLink>)
    requires DistinctEntities(sorted) && i < |sorted|
    requires forall e :: f(e).Some? ==> f(e).value.entityId == e.id
    ensures sorted[i].id !in LinkedIds(Collect(sorted[..i], f))
  {
    CollectOrigins(sorted[..i], f);
    forall l | l in Collect(sorted[..i], f) ensures l.entityId != sorted[i].id {
      var e :| e in sorted[..i] && f(e) == Some(l);
      var k :| 0 <= k < i && sorted[k] == e;
    }
  }

  method LineagePass(bs: seq<Bound>, sorted: seq<Entity>, owning: Option<Entity>)
    returns (links: seq<EntityLink>, linkedIds: set<string>)
    requires DistinctEntities(sorted)
    ensures links == Lineage(bs, sorted, owning)
    ensures linkedIds == BoundIds(bs) + LinkedIds(links)
  {
    links, linkedIds := [], BoundIds(bs);
    if owning.None? {
      return;
    }
    var owner, confidence := AfterColon(owning.value.id), OwningConfidence(bs, owning.value);
    var role := if confidence >= THRESHOLD then ResolvedRole else ReferencedRole;
    ghost var f := LineageLink(BoundIds(bs), Some(owner), confidence);
    for i := 0 to |sorted|
      invariant links == Collect(sorted[..i], f)
      invariant linkedIds == BoundIds(bs) + LinkedIds(links)
    {
      CollectStep(sorted, i, f);
      NotLinkedYet(sorted, i, f);
      var e := sorted[i];
      if e.kind != Commit && e.kind != Review {
        continue;
      }
      if e.id in linkedIds {
        continue;
      }
      if e.owner != Some(owner) {
        continue;
      }
      linkedIds := linkedIds + {e.id};
      links := links + [EntityLink(e.id, role, confidence, FromOwner)];
    }
    assert sorted[..|sorted|] == sorted;
  }

  method NoisePasses(sorted: seq<Entity>, boundIds: set<string>, linkedIds: set<string>, owning: Option<Entity>, p: Patterns)
    returns (links: seq<EntityLink>)
    ensures links == Collect(sorted, RequestNoise(boundIds)) + Collect(sorted, CommitNoise(linkedIds, KnownNumbers(owning, p), p))
  {
    links := [];
    for i := 0 to |sorted|
      invariant links == Collect(sorted[..i], RequestNoise(boundIds))
    {
      CollectStep(sorted, i, RequestNoise(boundIds));
      if sorted[i].kind.ChangeRequest? && sorted[i].id !in boundIds {
        links := links + [EntityLink(sorted[i].id, NoiseRole, 0.0, Direct)];
      }
    }
    assert sorted[..|sorted|] == sorted;
    ghost var requests := links;
    var known := KnownNumbers(owning, p);
    for i := 0 to |sorted|
      invariant links == requests + Collect(sorted[..i], CommitNoise(linkedIds, known, p))
    {
      CollectStep(sorted, i, CommitNoise(linkedIds, known, p));
      var e := sorted[i];
      if !e.kind.Commit? || e.id in linkedIds {
        continue;
      }
      var referenced := Numbers(p.issueNumbers, e.title);
      if referenced != {} && !(referenced <= known) {
        links := links + [EntityLink(e.id, NoiseRole, 0.0, Direct)];
      }
    }
  }

  /** `_entity_links`, on entities that have been collapsed. */
  method EntityLinksOf(bs: seq<Bound>, es: seq<Entity>, owning: Option<Entity>, p: Patterns)
    returns (links: seq<EntityLink>)
    requires DistinctEntities(es)
    ensures links == Links(bs, es, owning, p)
  {
    var sorted := SortById(es);
    SortedDistinct(es);
    var direct := DirectPass(bs);
    var lineage, linkedIds := LineagePass(bs, sorted, owning);
    var noise := NoisePasses(sorted, BoundIds(bs), linkedIds, owning, p);
    links := direct + lineage + noise;
    hide Collect, SortById, KnownNumbers, Lineage, LinkedIds, BoundIds, DistinctEntities;
    Regroup(direct, lineage, Collect(sorted, RequestNoise(BoundIds(bs))),
            Collect(sorted, CommitNoise(linkedIds, KnownNumbers(owning, p), p)));
  }

  lemma Regroup<T>(a: seq<T>, b: seq<T>, c: seq<T>, d: seq<T>)
    ensures a + b + (c + d) == a + b + c + d
  {
  }

  lemma SortedDistinct(es: seq<Entity>)
    requires DistinctEntities(es)
    ensures DistinctEntities(SortById(es))
  {
    var s := SortById(es);
    SortByIdMembers(es);
    forall i, j | 0 <= i < j < |s| ensures s[i].id != s[j].id {
      if s[i] == s[j] {
        TwiceCounted(s, i, j);
        OnceCounted(es, s[i]);
        assert false;
      }
      assert s[i] in es && s[j] in es;
    }
  }

  lemma TwiceCounted(s: seq<Entity>, i: nat, j: nat)
    requires i < j < |s| && s[i] == s[j]
    ensures multiset(s)[s[i]] >= 2
  {
    assert s == s[..j] + s[j..];
    assert s[i] in s[..j] && s[j] in s[j..];
  }

  lemma {:induction false} OnceCounted(s: seq<Entity>, e: Entity)
    requires DistinctEntities(s)
    ensures multiset(s)[e] <= 1
  {
    if s != [] {
      var before, last := s[..|s| - 1], s[|s| - 1];
      assert s == before + [last];
      OnceCounted(before, e);
      forall k | 0 <= k < |before| ensures before[k] != last {
        assert s[k].id != s[|s| - 1].id;
      }
      assert last !in before;
    }
  }
}
