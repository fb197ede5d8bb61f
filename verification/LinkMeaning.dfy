/** What the links of a projection are, in terms of the facts delivered: which snapshots decide
    at one instant, which links are listed, in what state and in what order. */
module LinkMeaning {
  import opened Options
  import opened Sorting
  import opened Sequences
  import opened Text
  import opened ClosureModel
  import opened LinkStates
  import opened Episodes
  import opened Projector
  import opened ProjectorLaws

  // ----- the facts that decide -----

  /** A full snapshot of the change request `cr`: taken when it was opened or updated. */
  predicate Snaps(f: Fact, cr: ChangeRequestKey) {
    && f.entityType == ChangeRequestEntity
    && f.provider == cr.provider && f.repository == cr.repository && f.externalId == cr.externalId
    && (f.eventType == ChangeRequestOpened || f.eventType == ChangeRequestUpdated)
    && f.issueLinks.Some?
  }

  predicate Shows(f: Fact, kind: LinkKind, repository: string, number: string) {
    f.issueLinks.Some?
    && LinkTarget(repository, number) in if kind == DeclaresClosure then f.issueLinks.value.declaresClosure
                                         else f.issueLinks.value.references
  }

  /** Two snapshots with the same targets, whatever their order. */
  ghost predicate SameTargets(f: Fact, g: Fact) {
    forall kind, repository, number :: Shows(f, kind, repository, number) <==> Shows(g, kind, repository, number)
  }

  ghost predicate SnapsAt(facts: set<Fact>, f: Fact, cr: ChangeRequestKey, t: int) {
    f in facts && Snaps(f, cr) && f.occurredAt == t
  }

  ghost predicate WebhooksAgree(facts: set<Fact>, cr: ChangeRequestKey, t: int) {
    && (exists f :: SnapsAt(facts, f, cr, t) && f.observedVia == Webhook)
    && (forall f, g ::
          SnapsAt(facts, f, cr, t) && SnapsAt(facts, g, cr, t) && f.observedVia == Webhook && g.observedVia == Webhook
          ==> SameTargets(f, g))
  }

  /** The snapshots that decide at `t`: the webhook ones if there are any and they agree, else all. */
  ghost predicate Decides(facts: set<Fact>, f: Fact, cr: ChangeRequestKey, t: int) {
    SnapsAt(facts, f, cr, t) && (f.observedVia == Webhook || !WebhooksAgree(facts, cr, t))
  }

  ghost predicate IsLastSnapshotTime(facts: set<Fact>, cr: ChangeRequestKey, t: int) {
    && (exists f :: SnapsAt(facts, f, cr, t))
    && (forall f :: f in facts && Snaps(f, cr) ==> f.occurredAt <= t)
  }

  /** The state that the deciding snapshots at `t` give a link. */
  ghost function StateAt(facts: set<Fact>, cr: ChangeRequestKey, t: int, kind: LinkKind, repository: string, number: string)
    : LinkState
  {
    if forall f :: Decides(facts, f, cr, t) ==> !Shows(f, kind, repository, number) then Revoked
    else if forall f :: Decides(facts, f, cr, t) ==> Shows(f, kind, repository, number) then Active
    else Parked
  }

  // ----- the fold, in these terms -----

  lemma ViewShows(f: Fact, l: LinkKey)
    ensures l in ViewOf(f) <==> Shows(f, l.kind, l.repository, l.externalId)
  {
  }

  lemma SameView(f: Fact, g: Fact)
    ensures ViewOf(f) == ViewOf(g) <==> SameTargets(f, g)
  {
    hide ViewOf, Shows;
    forall l ensures l in ViewOf(f) <==> Shows(f, l.kind, l.repository, l.externalId) { ViewShows(f, l); }
    forall l ensures l in ViewOf(g) <==> Shows(g, l.kind, l.repository, l.externalId) { ViewShows(g, l); }
    if ViewOf(f) == ViewOf(g) {
      forall kind, repository, number ensures Shows(f, kind, repository, number) <==> Shows(g, kind, repository, number) {
        assert LinkKey(kind, repository, number) in ViewOf(f) <==> LinkKey(kind, repository, number) in ViewOf(g);
      }
    }
  }

  lemma GroupSnaps(facts: set<Fact>, cr: ChangeRequestKey, t: int)
    ensures forall f :: f in GroupAt(About(facts, cr), t) <==> SnapsAt(facts, f, cr, t)
    ensures forall u :: u in Times(About(facts, cr)) <==> exists f :: SnapsAt(facts, f, cr, u)
  {
    assert forall f :: f in About(facts, cr) && f.IsSnapshot() <==> f in facts && Snaps(f, cr);
    hide Snaps, About;
    forall u ensures u in Times(About(facts, cr)) <==> exists f :: SnapsAt(facts, f, cr, u) {
      if f :| SnapsAt(facts, f, cr, u) {
        assert f in About(facts, cr) && f.IsSnapshot();
      }
      if u in Times(About(facts, cr)) {
        var f :| f in About(facts, cr) && f.IsSnapshot() && f.occurredAt == u;
        assert SnapsAt(facts, f, cr, u);
      }
    }
  }

  /** A group of snapshots at one instant resolves to what its deciding snapshots show. */
  ghost predicate Deciding(group: set<Fact>, f: Fact) {
    f in group
    && (f.observedVia == Webhook
        || !((exists g :: g in group && g.observedVia == Webhook)
             && forall g, h :: g in group && h in group && g.observedVia == Webhook && h.observedVia == Webhook ==>
                                 ViewOf(g) == ViewOf(h)))
  }

  lemma ResolvedByDeciding(group: set<Fact>, view: View, l: LinkKey)
    requires Resolve(group) == Resolved(view)
    ensures forall f :: Deciding(group, f) ==> ViewOf(f) == view
    ensures exists f :: Deciding(group, f)
  {
    hide Resolve, ViewOf;
    ResolveNeverGuesses(group, view);
    if exists f :: f in group && f.observedVia == Webhook {
      var f :| f in group && f.observedVia == Webhook;
      assert Deciding(group, f);
    } else {
      var f :| f in group;
      assert Deciding(group, f);
    }
  }

  lemma ConflictDecidedByAll(group: set<Fact>, f: Fact)
    requires Resolve(group).Conflict?
    ensures Deciding(group, f) <==> f in group
  {
    hide Resolve, ViewOf;
    if f in group && f.observedVia != Webhook && !Deciding(group, f) {
      var g :| g in group && g.observedVia == Webhook;
      ResolveNeverGuesses(group, ViewOf(g));
      assert false;
    }
  }

  lemma StateByDeciding(group: set<Fact>, l: LinkKey)
    requires group != {}
    ensures l in Resolve(group).Union() <==> exists f :: Deciding(group, f) && l in ViewOf(f)
    ensures StateUnder(Resolve(group), l)
            == if forall f :: Deciding(group, f) ==> l !in ViewOf(f) then Revoked
               else if forall f :: Deciding(group, f) ==> l in ViewOf(f) then Active
               else Parked
  {
    StateMeans(group, l);
    StateRevoked(Resolve(group), l);
    if Resolve(group).Resolved? {
      ResolvedByDeciding(group, Resolve(group).view, l);
    } else {
      forall f ensures Deciding(group, f) <==> f in group { ConflictDecidedByAll(group, f); }
    }
    hide Resolve, ViewOf, StateUnder, Deciding;
  }

  lemma StateRevoked(res: Resolution, l: LinkKey)
    ensures StateUnder(res, l) == Revoked <==> l !in res.Union()
  {
  }

  lemma DecidesInGroup(facts: set<Fact>, cr: ChangeRequestKey, t: int, f: Fact)
    ensures Deciding(GroupAt(About(facts, cr), t), f) <==> Decides(facts, f, cr, t)
  {
    hide GroupAt, About, ViewOf, SameTargets, Snaps;
    GroupSnaps(facts, cr, t);
    forall g, h ensures ViewOf(g) == ViewOf(h) <==> SameTargets(g, h) { SameView(g, h); }
  }

  lemma GroupMeans(facts: set<Fact>, cr: ChangeRequestKey, t: int, l: LinkKey)
    requires exists f :: SnapsAt(facts, f, cr, t)
    ensures l in ResolutionAt(About(facts, cr), t).Union()
            <==> exists f :: Decides(facts, f, cr, t) && Shows(f, l.kind, l.repository, l.externalId)
    ensures StateUnder(ResolutionAt(About(facts, cr), t), l) == StateAt(facts, cr, t, l.kind, l.repository, l.externalId)
  {
    hide About, Snaps, Resolve, ViewOf, Shows, Deciding, Decides, StateUnder, GroupAt;
    var group := GroupAt(About(facts, cr), t);
    GroupSnaps(facts, cr, t);
    assert group != {};
    StateByDeciding(group, l);
    forall f ensures Deciding(group, f) <==> Decides(facts, f, cr, t) { DecidesInGroup(facts, cr, t, f); }
    forall f ensures l in ViewOf(f) <==> Shows(f, l.kind, l.repository, l.externalId) { ViewShows(f, l); }
  }

  /** The states of one change request: a link is known if some deciding snapshot ever showed it,
      and the last instant with a snapshot gives its state. */
  lemma StatesMean(facts: set<Fact>, cr: ChangeRequestKey, l: LinkKey, s: LinkState)
    ensures l in StatesFor(facts, cr) && StatesFor(facts, cr)[l] == s <==>
              && (exists f :: f in facts && Decides(facts, f, cr, f.occurredAt) && Shows(f, l.kind, l.repository, l.externalId))
              && (exists t :: IsLastSnapshotTime(facts, cr, t) && s == StateAt(facts, cr, t, l.kind, l.repository, l.externalId))
  {
    hide About, Snaps, Shows, ResolutionAt, StateUnder, StateAt, Decides, Latest;
    var own := About(facts, cr);
    var times := Times(own);
    forall u | u in times
      ensures exists f :: SnapsAt(facts, f, cr, u)
      ensures l in ResolutionAt(own, u).Union()
              <==> exists f :: Decides(facts, f, cr, u) && Shows(f, l.kind, l.repository, l.externalId)
      ensures StateUnder(ResolutionAt(own, u), l) == StateAt(facts, cr, u, l.kind, l.repository, l.externalId)
    {
      GroupSnaps(facts, cr, u);
      GroupMeans(facts, cr, u, l);
    }
    TimesMean(facts, cr);
    KnownMeans(facts, cr, l);
  }

  lemma TimesMean(facts: set<Fact>, cr: ChangeRequestKey)
    ensures var times := Times(About(facts, cr));
            forall t :: IsLastSnapshotTime(facts, cr, t) <==> times != {} && t == Latest(times)
  {
    hide About, Snaps, Times, Latest;
    GroupSnaps(facts, cr, 0);
    var times := Times(About(facts, cr));
    forall f | f in facts && Snaps(f, cr) ensures f.occurredAt in times {
      assert SnapsAt(facts, f, cr, f.occurredAt);
    }
  }

  lemma KnownMeans(facts: set<Fact>, cr: ChangeRequestKey, l: LinkKey)
    ensures l in Seen(About(facts, cr), Times(About(facts, cr))) <==>
              exists f :: f in facts && Decides(facts, f, cr, f.occurredAt) && Shows(f, l.kind, l.repository, l.externalId)
  {
    hide About, Snaps, Shows, ResolutionAt, Times;
    var own := About(facts, cr);
    GroupSnaps(facts, cr, 0);
    forall u | u in Times(own)
      ensures l in ResolutionAt(own, u).Union()
              <==> exists f :: Decides(facts, f, cr, u) && Shows(f, l.kind, l.repository, l.externalId)
    {
      GroupMeans(facts, cr, u, l);
    }
    forall f: Fact | Decides(facts, f, cr, f.occurredAt) ensures f.occurredAt in Times(own) {
      assert SnapsAt(facts, f, cr, f.occurredAt);
    }
  }

  // ----- the links of a projection -----

  lemma LinkOfChangeRequest(cr: ChangeRequestKey, states: map<LinkKey, LinkState>, version: string, l: Link)
    ensures l in LinksOfChangeRequest(cr, states, version) <==>
              var key := LinkKey(l.kind, l.issue.repository, l.issue.externalId);
              && l.changeRequest == cr && l.issue.provider == cr.provider && l.resolverVersion == version
              && key in states && states[key] == l.state
  {
    LinkMembers(states.Keys);
    CollectOrigins(SortLinks(states.Keys), LinkOf(cr, states, version));
    var key := LinkKey(l.kind, l.issue.repository, l.issue.externalId);
    if key in states {
      assert key in SortLinks(states.Keys);
      assert LinkOf(cr, states, version)(key)
             == Some(Link(cr, EndpointKey(cr.provider, l.issue.repository, l.issue.externalId), l.kind, states[key], version));
    }
  }

  lemma {:induction false} LinkAmong(facts: set<Fact>, crs: seq<ChangeRequestKey>, version: string, l: Link)
    ensures l in LinksFor(facts, crs, version)
            <==> l.changeRequest in crs
                 && l in LinksOfChangeRequest(l.changeRequest, StatesFor(facts, l.changeRequest), version)
  {
    if crs != [] {
      hide LinksOfChangeRequest, StatesFor;
      var before, last := crs[..|crs| - 1], crs[|crs| - 1];
      assert crs == before + [last];
      LinkAmong(facts, before, version, l);
      assert LinksFor(facts, crs, version)
             == LinksFor(facts, before, version) + LinksOfChangeRequest(last, StatesFor(facts, last), version);
      hide LinksFor;
      OnlyItsLinks(last, StatesFor(facts, last), version, l);
    }
  }

  lemma OnlyItsLinks(cr: ChangeRequestKey, states: map<LinkKey, LinkState>, version: string, l: Link)
    ensures l in LinksOfChangeRequest(cr, states, version) ==> l.changeRequest == cr
  {
    LinkOfChangeRequest(cr, states, version, l);
  }

  /** Whether a projection lists a link, and in what state, read from the facts alone: some
      snapshot that decided at its time showed the target under that kind, the issue is one of
      the same provider, and the snapshots that decide last give the state. */
  ghost predicate Listed(facts: set<Fact>, version: string, l: Link) {
    && l.issue.provider == l.changeRequest.provider && l.resolverVersion == version
    && (exists f :: f in facts && Decides(facts, f, l.changeRequest, f.occurredAt)
                    && Shows(f, l.kind, l.issue.repository, l.issue.externalId))
    && (exists t :: IsLastSnapshotTime(facts, l.changeRequest, t)
                    && l.state == StateAt(facts, l.changeRequest, t, l.kind, l.issue.repository, l.issue.externalId))
  }

  lemma LinkListedIff(facts: seq<Fact>, issues: Option<set<IssueKey>>, version: string, l: Link)
    ensures l in Project(facts, issues, version).links <==> Listed(SetOf(facts), version, l)
  {
    hide StatesFor, LinksOfChangeRequest, EntriesFor, Decides, Shows, StateAt, IsLastSnapshotTime;
    var all, cr := SetOf(facts), l.changeRequest;
    EndpointMembers(ChangeRequests(all));
    LinkAmong(all, SortEndpoints(ChangeRequests(all)), version, l);
    LinkOfChangeRequest(cr, StatesFor(all, cr), version, l);
    StatesMean(all, cr, LinkKey(l.kind, l.issue.repository, l.issue.externalId), l.state);
    DeciderIsPresent(all, cr);
  }

  lemma DeciderIsPresent(facts: set<Fact>, cr: ChangeRequestKey)
    ensures forall f :: f in facts && Decides(facts, f, cr, f.occurredAt) ==> cr in ChangeRequests(facts)
  {
    forall f | f in facts && Decides(facts, f, cr, f.occurredAt) ensures cr in ChangeRequests(facts) {
      assert f.Endpoint() == cr;
    }
  }

  // ----- the plain case: one snapshot is the last -----

  /** The last word of a change request: every other snapshot of it is strictly older. */
  ghost predicate IsLastSnapshot(facts: set<Fact>, f: Fact, cr: ChangeRequestKey) {
    f in facts && Snaps(f, cr) && forall g :: g in facts && Snaps(g, cr) && g != f ==> g.occurredAt < f.occurredAt
  }

  lemma SoleDecider(facts: set<Fact>, f: Fact, cr: ChangeRequestKey)
    requires f in facts && Snaps(f, cr)
    requires forall g :: g in facts && Snaps(g, cr) && g != f ==> g.occurredAt != f.occurredAt
    ensures forall g :: Decides(facts, g, cr, f.occurredAt) <==> g == f
  {
    hide Snaps, Shows;
    assert SnapsAt(facts, f, cr, f.occurredAt);
    forall g ensures Decides(facts, g, cr, f.occurredAt) <==> g == f {
      if WebhooksAgree(facts, cr, f.occurredAt) {
        var h :| SnapsAt(facts, h, cr, f.occurredAt) && h.observedVia == Webhook;
        assert h == f;
      }
    }
  }

  lemma LastDecides(facts: set<Fact>, f: Fact, cr: ChangeRequestKey, kind: LinkKind, repository: string, number: string)
    requires IsLastSnapshot(facts, f, cr)
    ensures forall t :: IsLastSnapshotTime(facts, cr, t) <==> t == f.occurredAt
    ensures StateAt(facts, cr, f.occurredAt, kind, repository, number)
            == if Shows(f, kind, repository, number) then Active else Revoked
  {
    hide Snaps, Shows, Decides;
    SoleDecider(facts, f, cr);
    assert SnapsAt(facts, f, cr, f.occurredAt);
  }

  /** Full snapshots: after the last snapshot of a change request, taken when it was opened or
      updated, each of its targets is an active link of its kind and every other link of the
      change request is revoked. */
  lemma LatestSnapshotDecides(facts: seq<Fact>, issues: Option<set<IssueKey>>, version: string, f: Fact, cr: ChangeRequestKey)
    requires IsLastSnapshot(SetOf(facts), f, cr)
    ensures var links := Project(facts, issues, version).links;
            && (forall t :: t in f.issueLinks.value.declaresClosure ==>
                  Link(cr, EndpointKey(cr.provider, t.repository, t.number), DeclaresClosure, Active, version) in links)
            && (forall t :: t in f.issueLinks.value.references ==>
                  Link(cr, EndpointKey(cr.provider, t.repository, t.number), References, Active, version) in links)
            && (forall l :: l in links && l.changeRequest == cr ==>
                  l.state == if Shows(f, l.kind, l.issue.repository, l.issue.externalId) then Active else Revoked)
  {
    var all := SetOf(facts);
    hide Project;
    forall kind, t: LinkTarget | Shows(f, kind, t.repository, t.number)
      ensures Link(cr, EndpointKey(cr.provider, t.repository, t.number), kind, Active, version)
              in Project(facts, issues, version).links
    {
      LastDecides(all, f, cr, kind, t.repository, t.number);
      SoleDecider(all, f, cr);
      LinkListedIff(facts, issues, version, Link(cr, EndpointKey(cr.provider, t.repository, t.number), kind, Active, version));
    }
    forall t | t in f.issueLinks.value.declaresClosure ensures Shows(f, DeclaresClosure, t.repository, t.number) {
      assert t == LinkTarget(t.repository, t.number);
    }
    forall t | t in f.issueLinks.value.references ensures Shows(f, References, t.repository, t.number) {
      assert t == LinkTarget(t.repository, t.number);
    }
    forall l | l in Project(facts, issues, version).links && l.changeRequest == cr
      ensures l.state == if Shows(f, l.kind, l.issue.repository, l.issue.externalId) then Active else Revoked
    {
      LastDecides(all, f, cr, l.kind, l.issue.repository, l.issue.externalId);
      LinkListedIff(facts, issues, version, l);
    }
  }

  /** A link is never forgotten: one that a snapshot showed, no other being taken at its time, and
      that the last snapshot lacks, stays listed, as revoked. */
  lemma DroppedLinkStaysRevoked(facts: seq<Fact>, issues: Option<set<IssueKey>>, version: string, f: Fact, g: Fact,
                                cr: ChangeRequestKey, kind: LinkKind, repository: string, number: string)
    requires IsLastSnapshot(SetOf(facts), f, cr) && !Shows(f, kind, repository, number)
    requires g in facts && Snaps(g, cr) && Shows(g, kind, repository, number)
    requires forall h :: h in facts && Snaps(h, cr) && h != g ==> h.occurredAt != g.occurredAt
    ensures Link(cr, EndpointKey(cr.provider, repository, number), kind, Revoked, version)
            in Project(facts, issues, version).links
  {
    var all := SetOf(facts);
    hide Project, Snaps, Shows;
    LastDecides(all, f, cr, kind, repository, number);
    SoleDecider(all, g, cr);
    LinkListedIff(facts, issues, version, Link(cr, EndpointKey(cr.provider, repository, number), kind, Revoked, version));
  }

  // ----- the order of the links -----

  /** GitHub before GitLab, then by repository, then by identifier. */
  predicate KeyBefore(a: EndpointKey, b: EndpointKey) {
    || (a.provider == GitHub && b.provider == GitLab)
    || (a.provider == b.provider
        && (TextBefore(a.repository, b.repository)
            || (a.repository == b.repository && TextBefore(a.externalId, b.externalId))))
  }

  /** By change request, declarations before references, then by issue. */
  predicate LinkBefore(a: Link, b: Link) {
    || KeyBefore(a.changeRequest, b.changeRequest)
    || (a.changeRequest == b.changeRequest
        && ((a.kind == DeclaresClosure && b.kind == References)
            || (a.kind == b.kind
                && (TextBefore(a.issue.repository, b.issue.repository)
                    || (a.issue.repository == b.issue.repository && TextBefore(a.issue.externalId, b.issue.externalId))))))
  }

  lemma KeyOrder(a: EndpointKey, b: EndpointKey)
    ensures EndpointLe(a, b) && a != b <==> KeyBefore(a, b)
  {
  }

  ghost predicate InLinkOrder(ls: seq<Link>) {
    forall i, j :: 0 <= i < j < |ls| ==> LinkBefore(ls[i], ls[j])
  }

  lemma OneRequestInOrder(cr: ChangeRequestKey, states: map<LinkKey, LinkState>, version: string)
    ensures InLinkOrder(LinksOfChangeRequest(cr, states, version))
  {
    var keys := SortLinks(states.Keys);
    LinkMembers(states.Keys);
    hide LinkBefore, LinkLe;
    CollectAll(keys, LinkOf(cr, states, version));
    var ls := LinksOfChangeRequest(cr, states, version);
    forall i, j | 0 <= i < j < |ls| ensures LinkBefore(ls[i], ls[j]) {
      NoDuplicates(keys, states.Keys, i, j);
      LinkOrder(cr, states, version, keys[i], keys[j]);
    }
  }

  lemma LinkOrder(cr: ChangeRequestKey, states: map<LinkKey, LinkState>, version: string, a: LinkKey, b: LinkKey)
    requires a in states && b in states && LinkLe(a, b) && a != b
    ensures LinkBefore(LinkOf(cr, states, version)(a).value, LinkOf(cr, states, version)(b).value)
  {
  }

  lemma OrderedConcat(a: seq<Link>, b: seq<Link>)
    requires InLinkOrder(a) && InLinkOrder(b) && forall x, y :: x in a && y in b ==> LinkBefore(x, y)
    ensures InLinkOrder(a + b)
  {
    hide LinkBefore;
    forall i, j | 0 <= i < j < |a + b| ensures LinkBefore((a + b)[i], (a + b)[j]) {
      if i < |a| && |a| <= j {
        assert (a + b)[i] in a && (a + b)[j] in b;
      }
    }
  }

  lemma {:induction false} RequestsInOrder(facts: set<Fact>, crs: seq<ChangeRequestKey>, version: string)
    requires forall i, j :: 0 <= i < j < |crs| ==> KeyBefore(crs[i], crs[j])
    ensures InLinkOrder(LinksFor(facts, crs, version))
  {
    if crs != [] {
      hide LinksOfChangeRequest, StatesFor, InLinkOrder, KeyBefore;
      var before, last := crs[..|crs| - 1], crs[|crs| - 1];
      RequestsInOrder(facts, before, version);
      OneRequestInOrder(last, StatesFor(facts, last), version);
      var a, b := LinksFor(facts, before, version), LinksOfChangeRequest(last, StatesFor(facts, last), version);
      forall x, y | x in a && y in b ensures LinkBefore(x, y) {
        LinkAmong(facts, before, version, x);
        OnlyItsLinks(last, StatesFor(facts, last), version, y);
        var i :| 0 <= i < |before| && before[i] == x.changeRequest;
        assert KeyBefore(crs[i], crs[|crs| - 1]);
      }
      OrderedConcat(a, b);
    } else {
      assert InLinkOrder([]);
    }
  }

  /** The links of a projection come in one fixed order, none twice. */
  lemma LinksInOrder(facts: seq<Fact>, issues: Option<set<IssueKey>>, version: string)
    ensures InLinkOrder(Project(facts, issues, version).links)
  {
    hide InLinkOrder, LinksFor, EntriesFor;
    var crs := SortEndpoints(ChangeRequests(SetOf(facts)));
    forall i, j | 0 <= i < j < |crs| ensures KeyBefore(crs[i], crs[j]) {
      NoDuplicates(crs, ChangeRequests(SetOf(facts)), i, j);
      KeyOrder(crs[i], crs[j]);
    }
    RequestsInOrder(SetOf(facts), crs, version);
  }

  // ----- facts that are no snapshots -----

  lemma NeverBothBefore(a: Link, b: Link)
    ensures !(LinkBefore(a, b) && LinkBefore(b, a))
    ensures !LinkBefore(a, a)
  {
    TextNeverBothBefore(a.changeRequest.repository, b.changeRequest.repository);
    TextNeverBothBefore(a.changeRequest.externalId, b.changeRequest.externalId);
    TextNeverBothBefore(a.issue.repository, b.issue.repository);
    TextNeverBothBefore(a.issue.externalId, b.issue.externalId);
  }

  /** Two lists in this order with the same members are the same list. */
  lemma {:induction false} OneLinkOrder(a: seq<Link>, b: seq<Link>)
    requires InLinkOrder(a) && InLinkOrder(b) && forall l :: l in a <==> l in b
    ensures a == b
  {
    hide LinkBefore;
    assert b == [] || b[0] in b;
    if a != [] {
      SameFirst(a, b);
      forall l ensures l in a[1..] <==> l in b[1..] {
        NeverBothBefore(a[0], a[0]);
        InTail(a, l);
        InTail(b, l);
      }
      OneLinkOrder(a[1..], b[1..]);
      assert a == [a[0]] + a[1..] && b == [b[0]] + b[1..];
    }
  }

  lemma SameFirst(a: seq<Link>, b: seq<Link>)
    requires InLinkOrder(a) && InLinkOrder(b) && (forall l :: l in a <==> l in b) && a != []
    ensures b != [] && a[0] == b[0]
  {
    hide LinkBefore;
    assert a[0] in a;
    assert b[0] in b;
    var i :| 0 <= i < |b| && b[i] == a[0];
    var j :| 0 <= j < |a| && a[j] == b[0];
    NeverBothBefore(a[0], b[0]);
  }

  lemma InTail(a: seq<Link>, l: Link)
    requires InLinkOrder(a) && a != []
    ensures l in a[1..] <==> l in a && l != a[0]
  {
    hide LinkBefore;
    NeverBothBefore(a[0], a[0]);
  }

  lemma OtherFactDecidesNothing(facts: set<Fact>, f: Fact, version: string, l: Link)
    requires forall cr :: !Snaps(f, cr)
    ensures Listed(facts + {f}, version, l) <==> Listed(facts, version, l)
  {
    hide Snaps, Shows, StateAt;
    var more, cr := facts + {f}, l.changeRequest;
    assert forall g, t :: SnapsAt(more, g, cr, t) <==> SnapsAt(facts, g, cr, t);
    assert forall t :: WebhooksAgree(more, cr, t) <==> WebhooksAgree(facts, cr, t);
    assert forall g, t :: Decides(more, g, cr, t) <==> Decides(facts, g, cr, t);
    forall t ensures StateAt(more, cr, t, l.kind, l.issue.repository, l.issue.externalId)
                     == StateAt(facts, cr, t, l.kind, l.issue.repository, l.issue.externalId) {
      SameDecidersSameState(more, facts, cr, t, l);
    }
    assert forall t :: IsLastSnapshotTime(more, cr, t) <==> IsLastSnapshotTime(facts, cr, t);
  }

  lemma SameDecidersSameState(a: set<Fact>, b: set<Fact>, cr: ChangeRequestKey, t: int, l: Link)
    requires forall g :: Decides(a, g, cr, t) <==> Decides(b, g, cr, t)
    ensures StateAt(a, cr, t, l.kind, l.issue.repository, l.issue.externalId)
            == StateAt(b, cr, t, l.kind, l.issue.repository, l.issue.externalId)
  {
    hide Decides, Shows;
  }

  /** Only snapshots move links: a fact that is no opened or updated event of a change request,
      or carries no `issue_links`, delivered anywhere, leaves the links exactly as they were. */
  lemma OtherFactsMoveNoLink(facts: seq<Fact>, f: Fact, all: seq<Fact>, issues: Option<set<IssueKey>>, version: string)
    requires multiset(all) == multiset(facts) + multiset{f}
    requires f.entityType != ChangeRequestEntity || f.issueLinks.None?
             || (f.eventType != ChangeRequestOpened && f.eventType != ChangeRequestUpdated)
    ensures Project(all, issues, version).links == Project(facts, issues, version).links
  {
    hide Project, Snaps;
    DeliveryOrderConverges(all, facts + [f], issues, version);
    assert forall cr :: !Snaps(f, cr) by { IsNoSnapshot(f); }
    SameLinksAtTheEnd(facts, f, issues, version);
  }

  lemma IsNoSnapshot(f: Fact)
    requires f.entityType != ChangeRequestEntity || f.issueLinks.None?
             || (f.eventType != ChangeRequestOpened && f.eventType != ChangeRequestUpdated)
    ensures forall cr :: !Snaps(f, cr)
  {
  }

  lemma SameLinksAtTheEnd(facts: seq<Fact>, f: Fact, issues: Option<set<IssueKey>>, version: string)
    requires forall cr :: !Snaps(f, cr)
    ensures Project(facts + [f], issues, version).links == Project(facts, issues, version).links
  {
    hide Project, Snaps, Listed, InLinkOrder;
    assert SetOf(facts + [f]) == SetOf(facts) + {f};
    var now, was := Project(facts + [f], issues, version).links, Project(facts, issues, version).links;
    forall l ensures l in now <==> l in was {
      LinkListedIff(facts, issues, version, l);
      LinkListedIff(facts + [f], issues, version, l);
      OtherFactDecidesNothing(SetOf(facts), f, version, l);
    }
    LinksInOrder(facts, issues, version);
    LinksInOrder(facts + [f], issues, version);
    OneLinkOrder(now, was);
  }
}
