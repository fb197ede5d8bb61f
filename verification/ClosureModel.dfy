/** The facts the closure projector reads and the records it derives. */
module ClosureModel {
  import opened Options
  import opened Sorting
  import opened Sequences
  import opened Text

  datatype Provider = GitHub | GitLab
  {
    /** "github" sorts before "gitlab". */
    function Rank(): nat {
      match this
      case GitHub => 0
      case GitLab => 1
    }
  }

  datatype EntityType = IssueEntity | ChangeRequestEntity | OtherEntity

  /** The issue events, in the alphabetical order of their names. */
  datatype Lifecycle = Closed | Opened | Reopened
  {
    function Rank(): nat {
      match this
      case Closed => 0
      case Opened => 1
      case Reopened => 2
    }
  }

  datatype EventType =
    | IssueLifecycle(kind: Lifecycle)
    | ChangeRequestOpened
    | ChangeRequestUpdated
    | ChangeRequestMerged
    | OtherEvent(name: string)

  datatype Source = Webhook | Backfill

  /** "declares_closure" sorts before "references". */
  datatype LinkKind = DeclaresClosure | References
  {
    function Rank(): nat {
      match this
      case DeclaresClosure => 0
      case References => 1
    }
  }

  datatype LinkState = Active | Revoked | Parked

  /** The identity of a change request, and that of an issue. */
  datatype EndpointKey = EndpointKey(provider: Provider, repository: string, externalId: string)
  type ChangeRequestKey = EndpointKey
  type IssueKey = EndpointKey

  /** One link of a change request: its kind and the issue it names. */
  datatype LinkKey = LinkKey(kind: LinkKind, repository: string, externalId: string)

  datatype LinkTarget = LinkTarget(repository: string, number: string)
  datatype Snapshot = Snapshot(references: seq<LinkTarget>, declaresClosure: seq<LinkTarget>)

  datatype Fact = Fact(
    provider: Provider, repository: string, entityType: EntityType, externalId: string,
    eventType: EventType, occurredAt: int, observedVia: Source, issueLinks: Option<Snapshot>)
  {
    function Endpoint(): EndpointKey {
      EndpointKey(provider, repository, externalId)
    }

    /** A fact about the lifecycle of the issue `k`. */
    predicate IsIssueEvent(k: IssueKey) {
      entityType.IssueEntity? && eventType.IssueLifecycle? && Endpoint() == k
    }

    predicate IsAboutChangeRequest(cr: ChangeRequestKey) {
      entityType.ChangeRequestEntity? && Endpoint() == cr
    }

    /** A fact that takes part in snapshot diffs: a missing `issue_links` never does. */
    predicate IsSnapshot() {
      (eventType.ChangeRequestOpened? || eventType.ChangeRequestUpdated?) && issueLinks.Some?
    }
  }

  /** One event in the life of an issue. */
  datatype IssueEvent = IssueEvent(at: int, kind: Lifecycle)

  datatype EpisodeStatus = Pending | AwaitingClosure | Unmatched | Ambiguous | Inferred | Superseded

  datatype Episode = Episode(
    issue: IssueKey, openedAt: Option<int>, closedAt: Option<int>, status: EpisodeStatus,
    attributed: Option<ChangeRequestKey>, resolverVersion: string)

  datatype Reason = NoCandidate | ManyCandidates

  datatype Unresolved = Unresolved(
    issue: IssueKey, closedAt: int, reason: Reason, candidates: seq<ChangeRequestKey>,
    resolverVersion: string)

  datatype Link = Link(
    changeRequest: ChangeRequestKey, issue: IssueKey, kind: LinkKind, state: LinkState,
    resolverVersion: string)

  datatype Projection = Projection(
    links: seq<Link>, episodes: seq<Episode>, unresolved: seq<Unresolved>, resolverVersion: string)

  // ----- the orders the projector sorts by -----

  predicate EndpointLe(a: EndpointKey, b: EndpointKey) {
    if a.provider != b.provider then a.provider.Rank() < b.provider.Rank()
    else PairLe(a.repository, a.externalId, b.repository, b.externalId)
  }

  predicate LinkLe(a: LinkKey, b: LinkKey) {
    if a.kind != b.kind then a.kind.Rank() < b.kind.Rank()
    else PairLe(a.repository, a.externalId, b.repository, b.externalId)
  }

  predicate EventLe(a: IssueEvent, b: IssueEvent) {
    if a.at != b.at then a.at < b.at else a.kind.Rank() <= b.kind.Rank()
  }

  lemma EndpointLeIsTotalOrder()
    ensures TotalOrder(EndpointLe)
  {
    TextLeIsTotalOrder();
    forall x, y, z | EndpointLe(x, y) && EndpointLe(y, z) ensures EndpointLe(x, z) {
      if x.provider == y.provider && y.provider == z.provider {
        PairLeTransitive(x.repository, x.externalId, y.repository, y.externalId, z.repository, z.externalId);
      }
    }
  }

  lemma LinkLeIsTotalOrder()
    ensures TotalOrder(LinkLe)
  {
    TextLeIsTotalOrder();
    forall x, y, z | LinkLe(x, y) && LinkLe(y, z) ensures LinkLe(x, z) {
      if x.kind == y.kind && y.kind == z.kind {
        PairLeTransitive(x.repository, x.externalId, y.repository, y.externalId, z.repository, z.externalId);
      }
    }
  }

  function SortEndpoints(s: set<EndpointKey>): (r: seq<EndpointKey>)
    ensures Sorted(r, EndpointLe) && multiset(r) == multiset(s)
  {
    EndpointLeIsTotalOrder();
    SortSet(s, EndpointLe)
  }

  function SortLinks(s: set<LinkKey>): (r: seq<LinkKey>)
    ensures Sorted(r, LinkLe) && multiset(r) == multiset(s)
  {
    LinkLeIsTotalOrder();
    SortSet(s, LinkLe)
  }

  function SortTimes(s: set<int>): (r: seq<int>)
    ensures Sorted(r, IntLe) && multiset(r) == multiset(s)
  {
    SortSet(s, IntLe)
  }

  function SortEvents(s: seq<IssueEvent>): (r: seq<IssueEvent>)
    ensures Sorted(r, EventLe) && multiset(r) == multiset(s)
  {
    Sort(s, EventLe)
  }

  lemma FilterEndpoints(s: set<EndpointKey>, p: EndpointKey -> bool, kept: set<EndpointKey>)
    requires forall k :: k in kept <==> k in s && p(k)
    ensures Filter(SortEndpoints(s), p) == SortEndpoints(kept)
  {
    hide EndpointLe;
    EndpointLeIsTotalOrder();
    FilterSortSet(s, p, kept, EndpointLe);
  }

  lemma FilterLinks(s: set<LinkKey>, p: LinkKey -> bool, kept: set<LinkKey>)
    requires forall l :: l in kept <==> l in s && p(l)
    ensures Filter(SortLinks(s), p) == SortLinks(kept)
  {
    hide LinkLe;
    LinkLeIsTotalOrder();
    FilterSortSet(s, p, kept, LinkLe);
  }

  lemma EndpointMembers(s: set<EndpointKey>)
    ensures forall k :: k in SortEndpoints(s) <==> k in s
  {
    SameMembers(SortEndpoints(s), s);
    assert forall k :: k in SortEndpoints(s) <==> k in SetOf(SortEndpoints(s));
  }

  lemma LinkMembers(s: set<LinkKey>)
    ensures forall l :: l in SortLinks(s) <==> l in s
  {
    SameMembers(SortLinks(s), s);
    assert forall l :: l in SortLinks(s) <==> l in SetOf(SortLinks(s));
  }
}
