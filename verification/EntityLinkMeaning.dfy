/** What the entity links of a run are, link by link, in terms of the correlations, the entities
    and the owning change request. */
module EntityLinkMeaning {
  import opened Options
  import opened Sequences
  import opened Text
  import opened EntityLinks
  import opened LinkPasses
  import opened LinkLaws

  // ----- the owner -----

  /** The identifier of the owner up to its first colon is `kind`, and `rest` is what follows;
      without a colon nothing follows. */
  predicate Splits(id: string, rest: string) {
    (':' !in id && rest == "") || exists n :: 0 <= n < |id| && id[n] == ':' && ':' !in id[..n] && rest == id[n + 1..]
  }

  predicate SplitsAt(id: string, n: nat, rest: string) {
    n < |id| && id[n] == ':' && ':' !in id[..n] && rest == id[n + 1..]
  }

  lemma SplitsSomewhere(id: string, rest: string)
    ensures Splits(id, rest) <==> (':' !in id && rest == "") || exists n: nat :: SplitsAt(id, n, rest)
  {
    if n :| 0 <= n < |id| && id[n] == ':' && ':' !in id[..n] && rest == id[n + 1..] {
      assert SplitsAt(id, n, rest);
    }
  }

  lemma SplitsFirst(id: string, rest: string)
    requires id != [] && id[0] == ':'
    ensures Splits(id, rest) <==> rest == id[1..]
  {
    SplitsSomewhere(id, rest);
    forall n: nat | 0 < n < |id| ensures ':' in id[..n] {
      assert id[..n][0] == ':';
    }
    assert SplitsAt(id, 0, id[1..]);
  }

  lemma SplitsNext(id: string, n: nat, rest: string)
    requires id != [] && id[0] != ':'
    ensures SplitsAt(id, n + 1, rest) <==> SplitsAt(id[1..], n, rest)
  {
    if n + 1 < |id| {
      assert id[..n + 1] == [id[0]] + id[1..][..n];
      assert id[n + 2..] == id[1..][n + 1..];
    }
  }

  lemma SplitsLater(id: string, rest: string)
    requires id != [] && id[0] != ':'
    ensures Splits(id, rest) <==> Splits(id[1..], rest)
  {
    SplitsSomewhere(id, rest);
    SplitsSomewhere(id[1..], rest);
    assert id == [id[0]] + id[1..];
    forall n: nat ensures SplitsAt(id, n + 1, rest) <==> SplitsAt(id[1..], n, rest) { SplitsNext(id, n, rest); }
    assert !SplitsAt(id, 0, rest);
    hide SplitsAt, Splits;
    if n: nat :| SplitsAt(id, n, rest) {
      assert SplitsAt(id, n - 1 + 1, rest);
    }
  }

  lemma {:induction false} AfterColonMeans(id: string, rest: string)
    ensures AfterColon(id) == rest <==> Splits(id, rest)
  {
    if id != [] {
      AfterColonMeans(id[1..], rest);
      hide Splits;
      if id[0] == ':' {
        SplitsFirst(id, rest);
      } else {
        SplitsLater(id, rest);
      }
    }
  }

  /** The entity was fetched as one carried by the owning change request. */
  predicate CarriedBy(e: Entity, owning: Option<Entity>) {
    owning.Some? && e.owner.Some? && Splits(owning.value.id, e.owner.value)
  }

  lemma CarriedMeans(e: Entity, owning: Option<Entity>)
    ensures CarriedBy(e, owning) <==> OwnerId(owning).Some? && e.owner == OwnerId(owning)
  {
    if owning.Some? {
      AfterColonMeans(owning.value.id, AfterColon(owning.value.id));
      if e.owner.Some? {
        AfterColonMeans(owning.value.id, e.owner.value);
      }
    }
  }

  predicate HasTitle(e: Entity, title: Option<string>) {
    e.kind == ChangeRequest && e.title == title
  }

  /** The owner: the one fetched change request with the title of the run, if there is no second
      copy of such a title. */
  lemma OwnerMeans(es: seq<Entity>, title: Option<string>, e: Entity)
    ensures OwningChangeRequest(es, title) == Some(e) <==>
              exists i: nat :: i < |es| && es[i] == e && HasTitle(e, title)
                               && forall j :: 0 <= j < |es| && j != i ==> !HasTitle(es[j], title)
  {
    OwnerIsTheOnlyMatch(es, title, e);
    forall x ensures Titled(title)(x) <==> HasTitle(x, title) {}
    hide Titled, HasTitle, OwningChangeRequest;
    forall i: nat | i < |es| && es[i] == e && HasTitle(e, title)
                    && forall j :: 0 <= j < |es| && j != i ==> !HasTitle(es[j], title)
      ensures OnlyAt(es, Titled(title), i) {}
  }

  // ----- the kinds of links -----

  predicate IsBound(bs: seq<Bound>, id: string) {
    exists b :: b in bs && b.entityId == id
  }

  /** A link of a bound entity, or one inherited from the owner: `resolved` from 0.5 up. */
  predicate Resolves(l: EntityLink, id: string, confidence: real, source: LinkSource) {
    && l.entityId == id && l.confidence == confidence && l.source == source
    && l.role == if confidence >= 0.5 then ResolvedRole else ReferencedRole
  }

  predicate DirectOf(l: EntityLink, bs: seq<Bound>) {
    exists b :: b in bs && Resolves(l, b.entityId, b.confidence, Direct)
  }

  /** The owner's own correlation decides the confidence; uncorrelated, it counts fully. */
  predicate ConfidenceOfOwner(c: real, bs: seq<Bound>, owning: Entity) {
    if IsBound(bs, owning.id) then exists b :: b in bs && b.entityId == owning.id && b.confidence == c else c == 1.0
  }

  predicate InheritedBy(l: EntityLink, bs: seq<Bound>, es: seq<Entity>, owning: Option<Entity>) {
    exists e :: e in es && (e.kind == Commit || e.kind == Review) && !IsBound(bs, e.id) && CarriedBy(e, owning)
                && Resolves(l, e.id, l.confidence, FromOwner) && ConfidenceOfOwner(l.confidence, bs, owning.value)
  }

  /** The run knows a number: the owner's own, or one its description resolves. */
  predicate Knows(n: int, owning: Option<Entity>, p: Patterns) {
    owning.Some?
    && (owning.value.number == Some(n)
        || (owning.value.description.Some? && owning.value.description.value != ""
            && n in p.resolvedNumbers(owning.value.description.value)))
  }

  predicate TitleNamesUnknown(e: Entity, owning: Option<Entity>, p: Patterns) {
    e.title.Some? && e.title.value != "" && exists n :: n in p.issueNumbers(e.title.value) && !Knows(n, owning, p)
  }

  predicate NoiseOf(l: EntityLink, bs: seq<Bound>, es: seq<Entity>, owning: Option<Entity>, p: Patterns) {
    exists e :: e in es && !IsBound(bs, e.id) && l == EntityLink(e.id, NoiseRole, 0.0, Direct)
                && (e.kind == ChangeRequest || (e.kind == Commit && !CarriedBy(e, owning) && TitleNamesUnknown(e, owning, p)))
  }

  // ----- each pass -----

  lemma BoundMeans(bs: seq<Bound>, id: string)
    ensures id in BoundIds(bs) <==> IsBound(bs, id)
  {
  }

  lemma {:induction false} OwnerConfidenceMeans(bs: seq<Bound>, owning: Entity, c: real)
    requires DistinctBindings(bs)
    ensures c == OwningConfidence(bs, owning) <==> ConfidenceOfOwner(c, bs, owning)
  {
    if bs != [] {
      var rest := bs[1..];
      assert bs == [bs[0]] + rest;
      assert forall i :: 0 <= i < |rest| ==> rest[i] == bs[i + 1];
      OwnerConfidenceMeans(rest, owning, c);
      forall b | b in rest ensures b.entityId != bs[0].entityId {
        var i :| 0 <= i < |rest| && rest[i] == b;
        assert bs[0].entityId != bs[i + 1].entityId;
      }
      assert bs[0] in bs;
    }
  }

  lemma DirectPassMeans(bs: seq<Bound>, l: EntityLink)
    ensures l in Collect(bs, DirectLink) <==> DirectOf(l, bs)
  {
    CollectOrigins(bs, DirectLink);
    if b :| b in bs && Resolves(l, b.entityId, b.confidence, Direct) {
      assert DirectLink(b) == Some(l);
    }
  }

  lemma LineagePassMeans(bs: seq<Bound>, es: seq<Entity>, owning: Option<Entity>, l: EntityLink)
    requires DistinctBindings(bs)
    ensures l in Lineage(bs, SortById(es), owning) <==> InheritedBy(l, bs, es, owning)
  {
    hide SortById, DistinctBindings, CarriedBy, ConfidenceOfOwner, OwningConfidence;
    SortByIdMembers(es);
    forall e ensures CarriedBy(e, owning) <==> OwnerId(owning).Some? && e.owner == OwnerId(owning) { CarriedMeans(e, owning); }
    forall id ensures id in BoundIds(bs) <==> IsBound(bs, id) { BoundMeans(bs, id); }
    hide IsBound, BoundIds;
    if owning.Some? {
      var confidence := OwningConfidence(bs, owning.value);
      OwnerConfidenceMeans(bs, owning.value, l.confidence);
      var f := LineageLink(BoundIds(bs), OwnerId(owning), confidence);
      CollectOrigins(SortById(es), f);
      if e :| e in es && (e.kind == Commit || e.kind == Review) && !IsBound(bs, e.id) && CarriedBy(e, owning)
              && Resolves(l, e.id, l.confidence, FromOwner) && ConfidenceOfOwner(l.confidence, bs, owning.value) {
        assert f(e) == Some(l);
      }
    } else {
      assert forall e :: !CarriedBy(e, owning);
    }
  }

  lemma KnownMeans(owning: Option<Entity>, p: Patterns, n: int)
    ensures n in KnownNumbers(owning, p) <==> Knows(n, owning, p)
  {
  }

  lemma NotWithin(a: set<int>, b: set<int>)
    ensures (a != {} && !(a <= b)) <==> exists n :: n in a && n !in b
  {
    if forall n :: n in a ==> n in b {
      assert a <= b;
    }
  }

  lemma UnknownMeans(e: Entity, owning: Option<Entity>, p: Patterns)
    ensures NamesUnknown(e, KnownNumbers(owning, p), p) <==> TitleNamesUnknown(e, owning, p)
  {
    hide KnownNumbers, Knows;
    forall n ensures n in KnownNumbers(owning, p) <==> Knows(n, owning, p) { KnownMeans(owning, p, n); }
    var named, known := Numbers(p.issueNumbers, e.title), KnownNumbers(owning, p);
    NotWithin(named, known);
    if n :| n in named && n !in known {
      assert n in p.issueNumbers(e.title.value) && !Knows(n, owning, p);
    } else if e.title.Some? && e.title.value != "" {
      assert forall n :: n in p.issueNumbers(e.title.value) ==> n in named;
    }
  }

  lemma NoisePassMeans(bs: seq<Bound>, es: seq<Entity>, owning: Option<Entity>, p: Patterns, l: EntityLink)
    requires DistinctEntities(es)
    ensures (l in Links(bs, es, owning, p) && l.role == NoiseRole) <==> NoiseOf(l, bs, es, owning, p)
  {
    hide CarriedBy, TitleNamesUnknown, NamesUnknown, KnownNumbers, Links, DistinctEntities;
    NoiseIffUnrelated(bs, es, owning, p);
    NoiseIsPlain(bs, es, owning, p, l);
    forall e ensures CarriedBy(e, owning) <==> OwnerId(owning).Some? && e.owner == OwnerId(owning) { CarriedMeans(e, owning); }
    forall e ensures NamesUnknown(e, KnownNumbers(owning, p), p) <==> TitleNamesUnknown(e, owning, p) { UnknownMeans(e, owning, p); }
    forall id ensures id in BoundIds(bs) <==> IsBound(bs, id) { BoundMeans(bs, id); }
    hide IsBound, BoundIds;
    forall e ensures Unrelated(e, owning, p) <==>
                       e.kind == ChangeRequest || (e.kind == Commit && !CarriedBy(e, owning) && TitleNamesUnknown(e, owning, p)) {}
    hide Unrelated;
    var ls := Links(bs, es, owning, p);
    if l in ls && l.role == NoiseRole {
      assert l.entityId in HasNoise(ls);
    }
    if e :| e in es && !IsBound(bs, e.id) && l == EntityLink(e.id, NoiseRole, 0.0, Direct)
            && (e.kind == ChangeRequest || (e.kind == Commit && !CarriedBy(e, owning) && TitleNamesUnknown(e, owning, p))) {
      assert e.id in HasNoise(ls);
      var other :| other in ls && other.role == NoiseRole && other.entityId == e.id;
      NoiseIsPlain(bs, es, owning, p, other);
      assert other == l;
    }
  }

  lemma PlainNoise(sorted: seq<Entity>, bound: set<string>, linked: set<string>, known: set<int>, p: Patterns)
    ensures forall l :: l in Collect(sorted, RequestNoise(bound)) || l in Collect(sorted, CommitNoise(linked, known, p)) ==>
                          l == EntityLink(l.entityId, NoiseRole, 0.0, Direct)
  {
    CollectOrigins(sorted, RequestNoise(bound));
    CollectOrigins(sorted, CommitNoise(linked, known, p));
    hide NamesUnknown, Collect;
  }

  lemma NeverNoise(bs: seq<Bound>, sorted: seq<Entity>, owning: Option<Entity>)
    ensures forall l :: l in Collect(bs, DirectLink) || l in Lineage(bs, sorted, owning) ==> l.role != NoiseRole
  {
    CollectOrigins(bs, DirectLink);
    if owning.Some? {
      CollectOrigins(sorted, LineageLink(BoundIds(bs), OwnerId(owning), OwningConfidence(bs, owning.value)));
    }
    hide Inherits, OwningConfidence, Collect;
  }

  lemma NoiseIsPlain(bs: seq<Bound>, es: seq<Entity>, owning: Option<Entity>, p: Patterns, l: EntityLink)
    ensures l in Links(bs, es, owning, p) && l.role == NoiseRole ==> l == EntityLink(l.entityId, NoiseRole, 0.0, Direct)
  {
    hide SortById, KnownNumbers, Lineage, Collect, LinkedIds, BoundIds;
    var sorted := SortById(es);
    NeverNoise(bs, sorted, owning);
    PlainNoise(sorted, BoundIds(bs), BoundIds(bs) + LinkedIds(Lineage(bs, sorted, owning)), KnownNumbers(owning, p), p);
  }

  lemma PassRoles(bs: seq<Bound>, es: seq<Entity>, owning: Option<Entity>, p: Patterns, l: EntityLink)
    ensures l in Links(bs, es, owning, p) && l.role != NoiseRole
            <==> (l in Collect(bs, DirectLink) || l in Lineage(bs, SortById(es), owning))
  {
    hide SortById, KnownNumbers, Lineage, Collect, LinkedIds, BoundIds;
    var sorted := SortById(es);
    NeverNoise(bs, sorted, owning);
    PlainNoise(sorted, BoundIds(bs), BoundIds(bs) + LinkedIds(Lineage(bs, sorted, owning)), KnownNumbers(owning, p), p);
  }

  /** The links of a run, one by one: a link is there exactly if it is the direct link of a
      correlation, or what an unbound commit or review of the owning change request inherits, or
      the noise mark of an unbound entity that is unrelated to the run. */
  lemma LinkThereIff(bs: seq<Bound>, es: seq<Entity>, owning: Option<Entity>, p: Patterns, l: EntityLink)
    requires DistinctBindings(bs) && DistinctEntities(es)
    ensures l in Links(bs, es, owning, p) <==>
              DirectOf(l, bs) || InheritedBy(l, bs, es, owning) || NoiseOf(l, bs, es, owning, p)
  {
    DirectPassMeans(bs, l);
    LineagePassMeans(bs, es, owning, l);
    NoisePassMeans(bs, es, owning, p, l);
    PassRoles(bs, es, owning, p, l);
    hide DirectOf, InheritedBy, NoiseOf, Links;
  }

  /** In particular every inherited link has the confidence of the owner's own correlation, or full
      confidence if the owner has none, and its role by that. */
  lemma LineageConfidence(bs: seq<Bound>, es: seq<Entity>, owning: Entity, p: Patterns, l: EntityLink)
    requires DistinctBindings(bs) && DistinctEntities(es)
    requires l in Links(bs, es, Some(owning), p) && l.source == FromOwner
    ensures forall b :: b in bs && b.entityId == owning.id ==>
                          l.confidence == b.confidence && l.role == if b.confidence >= 0.5 then ResolvedRole else ReferencedRole
    ensures (forall b :: b in bs ==> b.entityId != owning.id) ==> l.confidence == 1.0 && l.role == ResolvedRole
  {
    LinkThereIff(bs, es, Some(owning), p, l);
    forall b, c | b in bs && c in bs && b.entityId == owning.id == c.entityId ensures b == c {
      var i :| 0 <= i < |bs| && bs[i] == b;
      var j :| 0 <= j < |bs| && bs[j] == c;
    }
  }

  /** Whatever copies were fetched: an unbound commit or review of which the owning change request
      carries some copy gets exactly one link, inherited, with the owner's confidence. */
  lemma OwnedCopyIsLinked(bs: seq<Bound>, es: seq<Entity>, r: seq<Entity>, owning: Entity, p: Patterns, e: Entity)
    returns (l: EntityLink)
    requires DistinctBindings(bs) && IsDeduped(r, es, OwnerId(Some(owning))) && IdFixesKind(es)
    requires e in es && (e.kind == Commit || e.kind == Review) && !IsBound(bs, e.id) && CarriedBy(e, Some(owning))
    ensures l in Links(bs, r, Some(owning), p)
    ensures Resolves(l, e.id, l.confidence, FromOwner) && ConfidenceOfOwner(l.confidence, bs, owning)
    ensures forall other :: other in Links(bs, r, Some(owning), p) && other.entityId == e.id ==> other == l
  {
    CarriedMeans(e, Some(owning));
    BoundMeans(bs, e.id);
    LineageReachesOwnedCopies(bs, es, r, Some(owning), p, e);
    var confidence := OwningConfidence(bs, owning);
    OwnerConfidenceMeans(bs, owning, confidence);
    l := EntityLink(e.id, RoleOf(confidence), confidence, FromOwner);
    hide Links, CarriedBy, IsDeduped, IdFixesKind;
    var links := Links(bs, r, Some(owning), p);
    var i :| 0 <= i < |links| && links[i] == l;
    forall other | other in links && other.entityId == e.id ensures other == l {
      var j :| 0 <= j < |links| && links[j] == other;
    }
  }

  // ----- the order of the links -----

  /** The correlations' own links come first, in the order of the correlations. */
  lemma DirectLinksFirst(bs: seq<Bound>, es: seq<Entity>, owning: Option<Entity>, p: Patterns)
    ensures |bs| <= |Links(bs, es, owning, p)|
    ensures forall i :: 0 <= i < |bs| ==> Resolves(Links(bs, es, owning, p)[i], bs[i].entityId, bs[i].confidence, Direct)
  {
    CollectAll(bs, DirectLink);
    hide Collect, Lineage;
  }

  /** The pass a link belongs to: direct, inherited, noise of a change request, noise of a commit. */
  ghost function PassOf(l: EntityLink, es: seq<Entity>): nat {
    if l.source == FromOwner then 1
    else if l.role != NoiseRole then 0
    else if exists e :: e in es && e.kind == ChangeRequest && e.id == l.entityId then 2
    else 3
  }

  ghost predicate AllInPass(ls: seq<EntityLink>, es: seq<Entity>, n: nat) {
    forall l :: l in ls ==> PassOf(l, es) == n
  }

  lemma OnePass(bs: seq<Bound>, es: seq<Entity>, owning: Option<Entity>, linked: set<string>, known: set<int>, p: Patterns)
    requires DistinctEntities(es)
    ensures AllInPass(Collect(bs, DirectLink), es, 0)
    ensures AllInPass(Lineage(bs, SortById(es), owning), es, 1)
    ensures AllInPass(Collect(SortById(es), RequestNoise(BoundIds(bs))), es, 2)
    ensures AllInPass(Collect(SortById(es), CommitNoise(linked, known, p)), es, 3)
  {
    hide SortById, NamesUnknown, OwningConfidence, Inherits, DistinctEntities, Collect;
    SortByIdMembers(es);
    var sorted := SortById(es);
    CollectOrigins(bs, DirectLink);
    if owning.Some? {
      CollectOrigins(sorted, LineageLink(BoundIds(bs), OwnerId(owning), OwningConfidence(bs, owning.value)));
    }
    CollectOrigins(sorted, RequestNoise(BoundIds(bs)));
    CollectOrigins(sorted, CommitNoise(linked, known, p));
    forall l | l in Collect(sorted, CommitNoise(linked, known, p)) ensures PassOf(l, es) == 3 {
      var e :| e in sorted && CommitNoise(linked, known, p)(e) == Some(l);
      if r :| r in es && r.kind == ChangeRequest && r.id == l.entityId {
        SameEntity(es, e, r);
      }
    }
  }

  /** Pass by pass, and within a pass over entities in the order of their identifiers. */
  ghost predicate InPassOrder(ls: seq<EntityLink>, es: seq<Entity>) {
    forall i, j :: 0 <= i < j < |ls| ==>
                     && PassOf(ls[i], es) <= PassOf(ls[j], es)
                     && (PassOf(ls[i], es) == PassOf(ls[j], es) > 0 ==> TextLe(ls[i].entityId, ls[j].entityId))
  }

  lemma PassesJoin(a: seq<EntityLink>, b: seq<EntityLink>, es: seq<Entity>, n: nat)
    requires InPassOrder(a, es) && AllInPass(b, es, n) && InIdOrder(b)
    requires forall l :: l in a ==> PassOf(l, es) < n
    ensures InPassOrder(a + b, es) && forall l :: l in a + b ==> PassOf(l, es) < n + 1
  {
    hide PassOf;
    var all: seq<EntityLink> := a + b;
    forall i, j | 0 <= i < j < |all|
      ensures && PassOf(all[i], es) <= PassOf(all[j], es)
              && (PassOf(all[i], es) == PassOf(all[j], es) > 0 ==> TextLe(all[i].entityId, all[j].entityId))
    {
      if |a| <= j {
        assert all[j] in b;
        assert if i < |a| then all[i] in a else all[i] in b;
      }
    }
  }

  lemma LinksInPassOrder(bs: seq<Bound>, es: seq<Entity>, owning: Option<Entity>, p: Patterns)
    requires DistinctEntities(es)
    ensures InPassOrder(Links(bs, es, owning, p), es)
  {
    var sorted := SortById(es);
    var lineage := Lineage(bs, sorted, owning);
    var linked, known := BoundIds(bs) + LinkedIds(lineage), KnownNumbers(owning, p);
    OnePass(bs, es, owning, linked, known, p);
    PassesInIdOrder(bs, es, owning, linked, known, p);
    hide PassOf, InPassOrder, AllInPass, InIdOrder, Lineage, SortById, Collect;
    var direct := Collect(bs, DirectLink);
    FirstPass(direct, es);
    PassesJoin(direct, lineage, es, 1);
    PassesJoin(direct + lineage, Collect(sorted, RequestNoise(BoundIds(bs))), es, 2);
    PassesJoin(direct + lineage + Collect(sorted, RequestNoise(BoundIds(bs))), Collect(sorted, CommitNoise(linked, known, p)), es, 3);
  }

  lemma FirstPass(ls: seq<EntityLink>, es: seq<Entity>)
    requires AllInPass(ls, es, 0)
    ensures InPassOrder(ls, es) && forall l :: l in ls ==> PassOf(l, es) < 1
  {
    hide PassOf;
    assert forall i :: 0 <= i < |ls| ==> ls[i] in ls;
  }

  // ----- collapsed entities -----

  /** `es[n]` is the copy of its identifier that stays: the first that the owning change request
      carries, or, if it carries none, the first of all. */
  ghost predicate Stays(es: seq<Entity>, n: nat, owning: Option<Entity>)
    requires n < |es|
  {
    if exists m :: 0 <= m < |es| && es[m].id == es[n].id && CarriedBy(es[m], owning)
    then CarriedBy(es[n], owning) && forall m :: 0 <= m < n && es[m].id == es[n].id ==> !CarriedBy(es[m], owning)
    else forall m :: 0 <= m < n ==> es[m].id != es[n].id
  }

  ghost predicate IsCopyThatStays(e: Entity, es: seq<Entity>, owning: Option<Entity>) {
    exists n :: 0 <= n < |es| && es[n] == e && Stays(es, n, owning)
  }

  predicate AppearsFirst(es: seq<Entity>, n: nat)
    requires n < |es|
  {
    forall m :: 0 <= m < n ==> es[m].id != es[n].id
  }

  lemma {:induction false} FirstWherePosition(es: seq<Entity>, p: Entity -> bool) returns (n: nat)
    requires FirstWhere(es, p).Some?
    ensures n < |es| && es[n] == FirstWhere(es, p).value && p(es[n]) && forall m :: 0 <= m < n ==> !p(es[m])
  {
    var before := es[..|es| - 1];
    FirstWhereFound(before, p);
    if FirstWhere(before, p).Some? {
      n := FirstWherePosition(before, p);
      assert before[n] == es[n] && forall m :: 0 <= m < n ==> before[m] == es[m];
    } else {
      n := |es| - 1;
      forall m | 0 <= m < n ensures !p(es[m]) {
        assert es[m] == before[m] && before[m] in before;
      }
    }
  }

  /** The copy kept of each identifier. */
  lemma KeptMeans(r: seq<Entity>, es: seq<Entity>, owning: Option<Entity>, i: nat) returns (n: nat)
    requires IsDeduped(r, es, OwnerId(owning)) && i < |r|
    ensures n < |es| && es[n] == r[i] && Stays(es, n, owning)
  {
    var id, owner := r[i].id, OwnerId(owning);
    forall e ensures CarriedBy(e, owning) <==> owner.Some? && e.owner == owner { CarriedMeans(e, owning); }
    hide CarriedBy, OwnerId;
    FirstWhereFound(es, OwnedCopy(id, owner));
    if FirstWhere(es, OwnedCopy(id, owner)).Some? {
      n := FirstWherePosition(es, OwnedCopy(id, owner));
    } else {
      n := FirstWherePosition(es, HasId(id));
      forall m | 0 <= m < |es| ensures !(es[m].id == id && CarriedBy(es[m], owning)) {
        assert es[m] in es && !OwnedCopy(id, owner)(es[m]);
      }
    }
  }

  lemma {:induction false} FirstIdPosition(es: seq<Entity>, i: nat) returns (n: nat)
    requires i < |FirstIds(es)|
    ensures n < |es| && es[n].id == FirstIds(es)[i] && AppearsFirst(es, n)
  {
    var before := es[..|es| - 1];
    FirstIdsMembers(before);
    if i < |FirstIds(before)| {
      n := FirstIdPosition(before, i);
      assert before[n] == es[n] && forall m :: 0 <= m < n ==> before[m] == es[m];
    } else {
      n := |es| - 1;
      forall m | 0 <= m < n ensures es[m].id != es[n].id {
        assert es[m] == before[m] && before[m] in before;
      }
    }
  }

  lemma {:induction false} FirstIdsInOrder(es: seq<Entity>, i: nat, j: nat) returns (n: nat, m: nat)
    requires i < j < |FirstIds(es)|
    ensures n < m < |es| && es[n].id == FirstIds(es)[i] && AppearsFirst(es, n)
    ensures es[m].id == FirstIds(es)[j] && AppearsFirst(es, m)
  {
    var before := es[..|es| - 1];
    if j < |FirstIds(before)| {
      n, m := FirstIdsInOrder(before, i, j);
      assert before[m] == es[m] && forall l :: 0 <= l < m ==> before[l] == es[l];
    } else {
      n := FirstIdPosition(before, i);
      assert before[n] == es[n] && forall l :: 0 <= l < n ==> before[l] == es[l];
      m := FirstIdPosition(es, j);
      FirstIdsMembers(before);
      assert forall l :: 0 <= l < |before| ==> es[l] == before[l] && before[l] in before;
      assert m == |es| - 1;
    }
  }

  /** Collapsing copies: the surviving entities come in the order in which their identifiers first
      appear, every identifier has one, and it is the copy that stays. */
  lemma DedupedMeans(r: seq<Entity>, es: seq<Entity>, owning: Option<Entity>)
    requires IsDeduped(r, es, OwnerId(owning))
    ensures forall i :: 0 <= i < |r| ==> IsCopyThatStays(r[i], es, owning)
    ensures forall e :: e in es ==> exists i :: 0 <= i < |r| && r[i].id == e.id
    ensures forall i, j :: 0 <= i < j < |r| ==> AppearsBefore(es, r[i].id, r[j].id)
  {
    hide Stays, AppearsBefore, Kept, FirstIds;
    FirstIdsMembers(es);
    forall i | 0 <= i < |r| ensures IsCopyThatStays(r[i], es, owning) {
      var n := KeptMeans(r, es, owning, i);
    }
    forall i, j | 0 <= i < j < |r| ensures AppearsBefore(es, r[i].id, r[j].id) {
      FirstIdsAppearBefore(es, i, j);
    }
    forall e | e in es ensures exists i :: 0 <= i < |r| && r[i].id == e.id {
      assert e.id in FirstIds(es);
      var i :| 0 <= i < |FirstIds(es)| && FirstIds(es)[i] == e.id;
      assert r[i].id == e.id;
    }
  }

  /** The first copy of `a` comes before the first copy of `b`. */
  ghost predicate AppearsBefore(es: seq<Entity>, a: string, b: string) {
    exists n, m :: 0 <= n < m < |es| && es[n].id == a && AppearsFirst(es, n) && es[m].id == b && AppearsFirst(es, m)
  }

  lemma FirstIdsAppearBefore(es: seq<Entity>, i: nat, j: nat)
    requires i < j < |FirstIds(es)|
    ensures AppearsBefore(es, FirstIds(es)[i], FirstIds(es)[j])
  {
    hide AppearsFirst, FirstIds;
    var n, m := FirstIdsInOrder(es, i, j);
  }
}
