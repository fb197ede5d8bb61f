/** What the episodes and records of a projection are, in terms of the facts delivered and of the
    links the same projection lists. */
module EpisodeMeaning {
  import opened Options
  import opened Sorting
  import opened Sequences
  import opened ClosureModel
  import opened LinkStates
  import opened Episodes
  import opened EpisodeLaws
  import opened Projector
  import opened ProjectorLaws
  import opened LinkMeaning
  import opened AttributionLaws

  // ----- the timeline of an issue -----

  /** The fact says that this happened to the issue `k` at `t`. */
  predicate Happened(f: Fact, k: IssueKey, kind: Lifecycle, t: int) {
    && f.entityType == IssueEntity
    && f.provider == k.provider && f.repository == k.repository && f.externalId == k.externalId
    && f.eventType == IssueLifecycle(kind) && f.occurredAt == t
  }

  function HappenedIn(k: IssueKey, kind: Lifecycle, t: int): Fact -> bool {
    (f: Fact) => Happened(f, k, kind, t)
  }

  /** By time; at one time closes before opens before reopens. */
  predicate NotLater(a: IssueEvent, b: IssueEvent) {
    a.at < b.at || (a.at == b.at && (a.kind == Closed || b.kind == Reopened || a.kind == b.kind))
  }

  /** The events of `k` in order, each as often as it was delivered. */
  ghost predicate Timeline(s: seq<IssueEvent>, facts: seq<Fact>, k: IssueKey) {
    && (forall i, j :: 0 <= i < j < |s| ==> NotLater(s[i], s[j]))
    && (forall t, kind :: multiset(s)[IssueEvent(t, kind)] == |Filter(facts, HappenedIn(k, kind, t))|)
  }

  lemma {:induction false} EventsCounted(facts: seq<Fact>, k: IssueKey, kind: Lifecycle, t: int)
    ensures multiset(IssueEvents(facts, k))[IssueEvent(t, kind)] == |Filter(facts, HappenedIn(k, kind, t))|
  {
    if facts != [] {
      var before, last := facts[..|facts| - 1], facts[|facts| - 1];
      EventsCounted(before, k, kind, t);
      assert facts == before + [last];
      CollectAppend(before, last, k);
      var more := if last.IsIssueEvent(k) then [IssueEvent(last.occurredAt, last.eventType.kind)] else [];
      assert multiset(IssueEvents(facts, k)) == multiset(IssueEvents(before, k)) + multiset(more);
    }
  }

  /** There is one timeline, and the projector sorts the events into it. */
  lemma TimelineIs(s: seq<IssueEvent>, facts: seq<Fact>, k: IssueKey)
    ensures Timeline(s, facts, k) <==> s == SortEvents(IssueEvents(facts, k))
  {
    hide IssueEvents, HappenedIn;
    forall kind, t ensures multiset(IssueEvents(facts, k))[IssueEvent(t, kind)] == |Filter(facts, HappenedIn(k, kind, t))| {
      EventsCounted(facts, k, kind, t);
    }
    assert forall a, b :: NotLater(a, b) <==> EventLe(a, b);
    if Timeline(s, facts, k) {
      forall e ensures multiset(s)[e] == multiset(IssueEvents(facts, k))[e] {
        assert e == IssueEvent(e.at, e.kind);
      }
      UniqueOrder(IssueEvents(facts, k), s);
    }
  }

  // ----- when an interval starts -----

  /** `start` is when the interval open at position `p` began: since the close before, the last
      reopen, or without one the first open, or unknown if nothing happened. */
  ghost predicate StartsAt(s: seq<IssueEvent>, p: nat, start: Option<int>)
    requires p <= |s|
  {
    exists q: nat :: q <= p && (q > 0 ==> s[q - 1].kind == Closed) && (forall m :: q <= m < p ==> s[m].kind != Closed)
                     && StartsBetween(s, q, p, start)
  }

  ghost predicate StartsBetween(s: seq<IssueEvent>, q: nat, p: nat, start: Option<int>)
    requires q <= p <= |s|
  {
    if start.None? then q == p
    else if exists m :: q <= m < p && s[m].kind == Reopened then
      exists n :: q <= n < p && s[n].kind == Reopened && s[n].at == start.value
                  && forall m :: n < m < p ==> s[m].kind != Reopened
    else q < p && s[q].kind == Opened && s[q].at == start.value
  }

  lemma {:induction false} LastReopenPosition(w: seq<IssueEvent>)
    ensures LastReopen(w).None? ==> forall m :: 0 <= m < |w| ==> w[m].kind != Reopened
    ensures LastReopen(w).Some? ==>
              exists n :: 0 <= n < |w| && w[n].kind == Reopened && w[n].at == LastReopen(w).value
                          && forall m :: n < m < |w| ==> w[m].kind != Reopened
  {
    if w != [] {
      var before, last := w[..|w| - 1], w[|w| - 1];
      if last.kind == Reopened {
        assert w[|w| - 1].kind == Reopened;
      } else {
        LastReopenPosition(before);
        if LastReopen(w).Some? {
          var n :| 0 <= n < |before| && before[n].kind == Reopened && before[n].at == LastReopen(w).value
                   && forall m :: n < m < |before| ==> before[m].kind != Reopened;
          assert w[n] == before[n];
          assert forall m :: n < m < |before| ==> w[m] == before[m];
        } else {
          assert forall m :: 0 <= m < |before| ==> w[m] == before[m];
        }
      }
    }
  }

  lemma StartOfStretch(s: seq<IssueEvent>, q: nat, p: nat)
    requires q <= p <= |s| && forall m :: q <= m < p ==> s[m].kind != Closed
    ensures StartsBetween(s, q, p, IntervalStart(s[q..p]))
  {
    var w := s[q..p];
    assert forall m :: 0 <= m < |w| ==> w[m] == s[q + m];
    LastReopenPosition(w);
    var start := IntervalStart(w);
    if LastReopen(w).Some? {
      var n :| 0 <= n < |w| && w[n].kind == Reopened && w[n].at == LastReopen(w).value
               && forall m :: n < m < |w| ==> w[m].kind != Reopened;
      forall m | q + n < m < p ensures s[m].kind != Reopened { assert s[m] == w[m - q]; }
      assert s[q + n].kind == Reopened && s[q + n].at == start.value;
    } else {
      forall m | q <= m < p ensures s[m].kind == Opened { assert s[m] == w[m - q]; }
      if q < p {
        assert w[0] == s[q];
      }
    }
  }

  lemma IntervalMeans(s: seq<IssueEvent>, p: nat)
    requires p <= |s|
    ensures StartsAt(s, p, IntervalStart(SinceClose(s[..p])))
  {
    var q := Cut(s[..p]);
    assert s[..p][q..] == s[q..p];
    forall m | q <= m < p ensures s[m].kind != Closed {
      assert s[m] == s[..p][m];
    }
    StartOfStretch(s, q, p);
    assert q > 0 ==> s[q - 1] == s[..p][q - 1];
  }

  // ----- the chain along the timeline -----

  function IsClose(): IssueEvent -> bool {
    (e: IssueEvent) => e.kind == Closed
  }

  /** How many closes there are. */
  function Closes(s: seq<IssueEvent>): nat {
    |Filter(s, IsClose())|
  }

  lemma {:induction false} ClosesCounted(s: seq<IssueEvent>)
    ensures |CloseTimes(s)| == Closes(s)
  {
    if s != [] {
      ClosesCounted(s[..|s| - 1]);
    }
  }

  /** The chain has the episode of each close at the place of that close. */
  lemma {:induction false} CloseAtItsPlace(issue: IssueKey, s: seq<IssueEvent>, p: nat, d: Declarations, version: string)
    requires p < |s| && s[p].kind == Closed
    ensures var c := ClosedChain(issue, s, d, version);
            && Closes(s[..p]) < |c|
            && c[Closes(s[..p])] == ClosedEpisode(issue, IntervalStart(SinceClose(s[..p])), s[p].at, d, version)
  {
    hide ClosedEpisode, IntervalStart, SinceClose;
    var before := s[..|s| - 1];
    if p < |before| {
      assert before[..p] == s[..p] && before[p] == s[p];
      CloseAtItsPlace(issue, before, p, d, version);
    } else {
      assert before == s[..p];
      ClosesCounted(before);
      ChainLength(issue, before, d, version);
    }
  }

  lemma ChainLength(issue: IssueKey, s: seq<IssueEvent>, d: Declarations, version: string)
    ensures |ClosedChain(issue, s, d, version)| == Closes(s)
  {
    hide RightVerdict;
    ClosedChainMatches(issue, s, d, version);
    ClosesCounted(s);
  }

  /** The episodes of an issue along its timeline: one closed episode per close, in that order,
      each over the interval that its close ends; and an open one at the end exactly if nothing
      happened but a declaration is active, or the last event is no close and a declaration is
      active or a close came before. */
  ghost predicate FollowsTimeline(episodes: seq<Episode>, s: seq<IssueEvent>, declared: bool) {
    && (forall p :: 0 <= p < |s| && s[p].kind == Closed ==>
          var n := Closes(s[..p]);
          n < |episodes| && episodes[n].closedAt == Some(s[p].at) && StartsAt(s, p, episodes[n].openedAt))
    && |episodes| == Closes(s) + (if OpenAtTheEnd(s, declared) then 1 else 0)
    && (OpenAtTheEnd(s, declared) ==>
          var last := episodes[|episodes| - 1];
          last.closedAt == None && StartsAt(s, |s|, last.openedAt))
  }

  predicate OpenAtTheEnd(s: seq<IssueEvent>, declared: bool) {
    if s == [] then declared else s[|s| - 1].kind != Closed && (declared || exists p :: 0 <= p < |s| && s[p].kind == Closed)
  }

  lemma {:induction false} SomeClose(s: seq<IssueEvent>)
    ensures Closes(s) > 0 <==> exists p :: 0 <= p < |s| && s[p].kind == Closed
  {
    FilterMembers(s, IsClose());
    var f := Filter(s, IsClose());
    if f != [] {
      assert f[0] in f;
    }
    if p :| 0 <= p < |s| && s[p].kind == Closed {
      assert s[p] in f;
    }
  }

  lemma ChainFollowsTimeline(issue: IssueKey, s: seq<IssueEvent>, d: Declarations, version: string)
    ensures FollowsTimeline(
              Collect(SupersedeAllButLast(ClosedChain(issue, s, d, version) + OpenTail(issue, s, d, version)), EpisodeIn),
              s, d.active != {})
  {
    hide ClosedEpisode, IntervalStart, SinceClose, OpenTail, ClosedChain, StartsAt, Filter, CloseTimes;
    var c, tail := ClosedChain(issue, s, d, version), OpenTail(issue, s, d, version);
    var entries := SupersedeAllButLast(c + tail);
    EveryEntryAnEpisode(entries);
    OpenTailShape(issue, s, d, version);
    ChainLength(issue, s, d, version);
    ClosesCounted(s);
    SomeClose(s);
    var episodes := Collect(entries, EpisodeIn);
    forall p | 0 <= p < |s| && s[p].kind == Closed
      ensures var n := Closes(s[..p]);
              n < |episodes| && episodes[n].closedAt == Some(s[p].at) && StartsAt(s, p, episodes[n].openedAt)
    {
      CloseAtItsPlace(issue, s, p, d, version);
      IntervalMeans(s, p);
      IntervalOfClose(issue, IntervalStart(SinceClose(s[..p])), s[p].at, d, version);
    }
    IntervalMeans(s, |s|);
    assert s[..|s|] == s;
  }

  // ----- declarations, as the projection lists them -----

  predicate MergedAt(f: Fact, cr: ChangeRequestKey) {
    && f.entityType == ChangeRequestEntity
    && f.provider == cr.provider && f.repository == cr.repository && f.externalId == cr.externalId
    && f.eventType == ChangeRequestMerged
  }

  /** The projection lists `cr` as declaring the closure of `k`, in the state `s`. */
  predicate Linked(p: Projection, cr: ChangeRequestKey, k: IssueKey, s: LinkState) {
    Link(cr, k, DeclaresClosure, s, p.resolverVersion) in p.links
  }

  /** And a merge of it was observed strictly before `t`. */
  predicate Candidate(p: Projection, facts: seq<Fact>, cr: ChangeRequestKey, k: IssueKey, s: LinkState, t: int) {
    Linked(p, cr, k, s) && exists f :: f in facts && MergedAt(f, cr) && f.occurredAt < t
  }

  lemma LinkedIffDeclaring(facts: seq<Fact>, issues: Option<set<IssueKey>>, version: string, cr: ChangeRequestKey,
                           k: IssueKey, s: LinkState)
    ensures Linked(Project(facts, issues, version), cr, k, s) <==> cr in Declaring(SetOf(facts), k, s)
  {
    hide StatesFor, LinksOfChangeRequest, EntriesFor, LinksFor;
    var all := SetOf(facts);
    EndpointMembers(ChangeRequests(all));
    LinkAmong(all, SortEndpoints(ChangeRequests(all)), version, Link(cr, k, DeclaresClosure, s, version));
    LinkOfChangeRequest(cr, StatesFor(all, cr), version, Link(cr, k, DeclaresClosure, s, version));
  }

  lemma CandidateIffEligible(facts: seq<Fact>, issues: Option<set<IssueKey>>, version: string, cr: ChangeRequestKey,
                             k: IssueKey, s: LinkState, t: int)
    ensures Candidate(Project(facts, issues, version), facts, cr, k, s, t) <==> cr in EligibleFor(SetOf(facts), k, s, t)
  {
    LinkedIffDeclaring(facts, issues, version, cr, k, s);
    hide Project, Declaring, Linked;
    MergedBefore(SetOf(facts), cr, t);
    forall f ensures f in facts && MergedAt(f, cr) <==> f in About(SetOf(facts), cr) && f.eventType.ChangeRequestMerged? {}
  }

  lemma MergedEver(facts: seq<Fact>, cr: ChangeRequestKey)
    ensures cr in Merged(SetOf(facts)) <==> exists f :: f in facts && MergedAt(f, cr)
  {
    var times := MergeTimes(SetOf(facts), cr);
    if f :| f in facts && MergedAt(f, cr) {
      assert f in SetOf(facts) && f.Endpoint() == cr;
      assert f.occurredAt in times && cr in ChangeRequests(SetOf(facts));
    }
  }

  // ----- one episode, one record -----

  /** A close is attributed to the only active candidate if there is no parked one, else to none. */
  ghost predicate AttributedRight(e: Episode, p: Projection, facts: seq<Fact>, k: IssueKey, t: int) {
    forall cr :: e.attributed == Some(cr) <==>
                   && Candidate(p, facts, cr, k, Active, t)
                   && (forall x :: Candidate(p, facts, x, k, Active, t) ==> x == cr)
                   && (forall x :: !Candidate(p, facts, x, k, Parked, t))
  }

  ghost predicate ClosedStatusRight(e: Episode, p: Projection, facts: seq<Fact>, k: IssueKey, t: int) {
    e.status == Superseded
    || e.status == if e.attributed.Some? then Inferred
                   else if forall x :: !Candidate(p, facts, x, k, Active, t) && !Candidate(p, facts, x, k, Parked, t)
                   then Unmatched else Ambiguous
  }

  ghost predicate OpenStatusRight(e: Episode, p: Projection, facts: seq<Fact>, k: IssueKey) {
    e.status == Superseded
    || e.status == if exists cr, f :: Linked(p, cr, k, Active) && f in facts && MergedAt(f, cr) then AwaitingClosure else Pending
  }

  ghost predicate EpisodeRight(e: Episode, p: Projection, facts: seq<Fact>, k: IssueKey) {
    && e.issue == k && e.resolverVersion == p.resolverVersion
    && if e.closedAt.Some?
       then AttributedRight(e, p, facts, k, e.closedAt.value) && ClosedStatusRight(e, p, facts, k, e.closedAt.value)
       else e.attributed == None && OpenStatusRight(e, p, facts, k)
  }

  /** A record lists exactly the candidates of its close, in order. */
  ghost predicate RecordRight(r: Unresolved, p: Projection, facts: seq<Fact>, k: IssueKey) {
    && r.issue == k && r.resolverVersion == p.resolverVersion
    && (forall cr :: cr in r.candidates <==>
          Candidate(p, facts, cr, k, Active, r.closedAt) || Candidate(p, facts, cr, k, Parked, r.closedAt))
    && (forall i, j :: 0 <= i < j < |r.candidates| ==> KeyBefore(r.candidates[i], r.candidates[j]))
    && (r.reason == NoCandidate <==> r.candidates == [])
  }

  ghost predicate HasVersion(e: Entry, version: string) {
    e.0.resolverVersion == version && (e.1.Some? ==> e.1.value.resolverVersion == version)
  }

  lemma CloseHasVersion(issue: IssueKey, openedAt: Option<int>, t: int, d: Declarations, version: string)
    ensures HasVersion(ClosedEpisode(issue, openedAt, t, d, version), version)
  {
  }

  lemma {:induction false} ClosesHaveVersion(issue: IssueKey, s: seq<IssueEvent>, d: Declarations, version: string)
    ensures forall e :: e in ClosedChain(issue, s, d, version) ==> HasVersion(e, version)
  {
    if s != [] {
      hide ClosedEpisode, HasVersion, IntervalStart, SinceClose;
      var before, last := s[..|s| - 1], s[|s| - 1];
      ClosesHaveVersion(issue, before, d, version);
      CloseHasVersion(issue, IntervalStart(SinceClose(before)), last.at, d, version);
    }
  }

  lemma ChainHasVersion(issue: IssueKey, events: seq<IssueEvent>, d: Declarations, version: string)
    ensures forall e :: e in IssueChain(issue, events, d, version) ==> HasVersion(e, version)
  {
    hide ClosedChain, IntervalStart, SinceClose;
    var s := SortEvents(events);
    ClosesHaveVersion(issue, s, d, version);
    var c, tail := ClosedChain(issue, s, d, version), OpenTail(issue, s, d, version);
    assert forall e :: e in tail ==> HasVersion(e, version);
    var all := SupersedeAllButLast(c + tail);
    forall i | 0 <= i < |all| ensures HasVersion(all[i], version) {
      assert (c + tail)[i] in c || (c + tail)[i] in tail;
    }
  }

  /** What is known of an entry of the chain of `k`. */
  ghost predicate KnownEntry(e: Entry, k: IssueKey, d: Declarations, version: string) {
    && e.0.issue == k && HasVersion(e, version) && OneVerdict(e, d)
    && (e.0.status == Superseded || CurrentStatus(e, d))
  }

  lemma EntriesAreKnown(issue: IssueKey, events: seq<IssueEvent>, d: Declarations, version: string)
    ensures forall e :: e in IssueChain(issue, events, d, version) ==> KnownEntry(e, issue, d, version)
  {
    hide IssueChain, Chronological, RightVerdict, CurrentStatus, EndsOpen, CloseTimes, SortEvents, Sort, OneVerdict, HasVersion;
    EpisodeChainShape(issue, events, d, version);
    EveryCloseHasOneVerdict(issue, events, d, version);
    ChainHasVersion(issue, events, d, version);
    var c := IssueChain(issue, events, d, version);
    forall i | 0 <= i < |c| ensures KnownEntry(c[i], issue, d, version) {
      assert c[i] in c;
    }
  }

  lemma ClosedEntryIsRight(facts: seq<Fact>, issues: Option<set<IssueKey>>, version: string, k: IssueKey, e: Entry, t: int)
    requires e.0.closedAt == Some(t) && KnownEntry(e, k, DeclarationsFor(SetOf(facts), k), version)
    ensures var p := Project(facts, issues, version);
            && AttributedRight(e.0, p, facts, k, t) && ClosedStatusRight(e.0, p, facts, k, t)
            && (e.1.Some? ==> RecordRight(e.1.value, p, facts, k))
  {
    var p := Project(facts, issues, version);
    var active, parked := EligibleFor(SetOf(facts), k, Active, t), EligibleFor(SetOf(facts), k, Parked, t);
    assert RightVerdict(e, t, DeclarationsFor(SetOf(facts), k));
    hide Candidate, Linked, EligibleFor, Declaring, Merged, Eligible, Project;
    forall cr ensures Candidate(p, facts, cr, k, Active, t) <==> cr in active { CandidateIffEligible(facts, issues, version, cr, k, Active, t); }
    forall cr ensures Candidate(p, facts, cr, k, Parked, t) <==> cr in parked { CandidateIffEligible(facts, issues, version, cr, k, Parked, t); }
    AttributionSpelledOut(e.0, p, facts, k, t, active, parked);
    RecordSpelledOut(e, p, facts, k, t, active, parked, version);
  }

  lemma AttributionSpelledOut(e: Episode, p: Projection, facts: seq<Fact>, k: IssueKey, t: int,
                              active: set<ChangeRequestKey>, parked: set<ChangeRequestKey>)
    requires forall cr :: Candidate(p, facts, cr, k, Active, t) <==> cr in active
    requires forall cr :: Candidate(p, facts, cr, k, Parked, t) <==> cr in parked
    requires forall cr :: e.attributed == Some(cr) <==> active == {cr} && parked == {}
    ensures AttributedRight(e, p, facts, k, t)
  {
    hide Candidate;
    forall cr ensures active == {cr} <==> cr in active && forall x :: x in active ==> x == cr {}
  }

  lemma RecordSpelledOut(e: Entry, p: Projection, facts: seq<Fact>, k: IssueKey, t: int,
                         active: set<ChangeRequestKey>, parked: set<ChangeRequestKey>, version: string)
    requires forall cr :: Candidate(p, facts, cr, k, Active, t) <==> cr in active
    requires forall cr :: Candidate(p, facts, cr, k, Parked, t) <==> cr in parked
    requires e.0.issue == k && HasVersion(e, version) && p.resolverVersion == version
    requires e.0.status == Superseded || StatusTellsVerdict(e)
    requires (e.1.None? <==> e.0.attributed.Some?)
             && (e.1.Some? ==>
                   && e.1.value.closedAt == t && e.1.value.issue == e.0.issue
                   && e.1.value.candidates == SortEndpoints(active + parked)
                   && (e.1.value.reason == NoCandidate <==> active + parked == {}))
    ensures ClosedStatusRight(e.0, p, facts, k, t) && (e.1.Some? ==> RecordRight(e.1.value, p, facts, k))
  {
    hide Candidate;
    var both := active + parked;
    EndpointMembers(both);
    SortedEndpoints(both);
    var r := SortEndpoints(both);
    forall i, j | 0 <= i < j < |r| ensures KeyBefore(r[i], r[j]) {
      NoDuplicates(r, both, i, j);
      KeyOrder(r[i], r[j]);
    }
    hide SortEndpoints, KeyBefore;
    assert both == {} <==> forall x :: x !in active && x !in parked;
  }

  lemma OpenEntryIsRight(facts: seq<Fact>, issues: Option<set<IssueKey>>, version: string, k: IssueKey, e: Entry)
    requires e.0.closedAt == None && KnownEntry(e, k, DeclarationsFor(SetOf(facts), k), version)
    ensures OpenStatusRight(e.0, Project(facts, issues, version), facts, k)
    ensures e.0.attributed == None && e.1 == None
  {
    var p := Project(facts, issues, version);
    hide Project, Declaring, Merged, Linked;
    forall cr ensures Linked(p, cr, k, Active) <==> cr in Declaring(SetOf(facts), k, Active) {
      LinkedIffDeclaring(facts, issues, version, cr, k, Active);
    }
    forall cr ensures cr in Merged(SetOf(facts)) <==> exists f :: f in facts && MergedAt(f, cr) {
      MergedEver(facts, cr);
    }
  }

  /** Every entry of an issue's chain, against the links the same projection lists. */
  lemma EntryIsRight(facts: seq<Fact>, issues: Option<set<IssueKey>>, version: string, k: IssueKey, e: Entry)
    requires e in ChainFor(facts, k, version)
    ensures var p := Project(facts, issues, version);
            EpisodeRight(e.0, p, facts, k) && (e.1.Some? ==> RecordRight(e.1.value, p, facts, k))
  {
    EntriesAreKnown(k, IssueEvents(facts, k), DeclarationsFor(SetOf(facts), k), version);
    assert Project(facts, issues, version).resolverVersion == version;
    hide Project, IssueChain, DeclarationsFor, AttributedRight, ClosedStatusRight, RecordRight, OpenStatusRight;
    if e.0.closedAt.Some? {
      ClosedEntryIsRight(facts, issues, version, k, e, e.0.closedAt.value);
    } else {
      OpenEntryIsRight(facts, issues, version, k, e);
    }
  }

  // ----- a whole projection -----

  lemma DeclaredIffLinked(facts: seq<Fact>, issues: Option<set<IssueKey>>, version: string, k: IssueKey)
    ensures (exists cr :: Linked(Project(facts, issues, version), cr, k, Active))
            <==> DeclarationsFor(SetOf(facts), k).active != {}
  {
    hide Project, Declaring, Merged, Linked;
    forall cr ensures Linked(Project(facts, issues, version), cr, k, Active) <==> cr in Declaring(SetOf(facts), k, Active) {
      LinkedIffDeclaring(facts, issues, version, cr, k, Active);
    }
  }

  lemma EpisodesFollowTimeline(facts: seq<Fact>, version: string, k: IssueKey, s: seq<IssueEvent>)
    requires Timeline(s, facts, k)
    ensures FollowsTimeline(Collect(ChainFor(facts, k, version), EpisodeIn), s,
                            DeclarationsFor(SetOf(facts), k).active != {})
  {
    TimelineIs(s, facts, k);
    hide FollowsTimeline, DeclarationsFor, ClosedChain, OpenTail, SupersedeAllButLast, Timeline;
    ChainFollowsTimeline(k, s, DeclarationsFor(SetOf(facts), k), version);
  }

  lemma CollectedAreRight(c: seq<Entry>, p: Projection, facts: seq<Fact>, k: IssueKey)
    requires forall e :: e in c ==> EpisodeRight(e.0, p, facts, k) && (e.1.Some? ==> RecordRight(e.1.value, p, facts, k))
    ensures forall e :: e in Collect(c, EpisodeIn) ==> EpisodeRight(e, p, facts, k)
    ensures forall r :: r in Collect(c, RecordIn) ==> RecordRight(r, p, facts, k)
  {
    hide EpisodeRight, RecordRight, Collect;
    CollectOrigins(c, EpisodeIn);
    CollectOrigins(c, RecordIn);
  }

  /** The episodes and records of a projection, for every issue it was asked for: along the issue's
      timeline, each attributed and each recorded as the links of the same projection and the
      observed merges say. */
  lemma IssueMeans(facts: seq<Fact>, issues: Option<set<IssueKey>>, version: string, k: IssueKey, s: seq<IssueEvent>)
    requires Timeline(s, facts, k) && (issues.Some? ==> k in issues.value)
    ensures var p := Project(facts, issues, version);
            && p.resolverVersion == version
            && FollowsTimeline(EpisodesOf(p, k), s, exists cr :: Linked(p, cr, k, Active))
            && (forall e :: e in EpisodesOf(p, k) ==> EpisodeRight(e, p, facts, k))
            && (forall r :: r in RecordsOf(p, k) ==> RecordRight(r, p, facts, k))
  {
    assert Project(facts, issues, version).resolverVersion == version;
    hide Project, FollowsTimeline, EpisodeRight, RecordRight, Linked, EpisodesOf, RecordsOf, ChainFor, Timeline;
    hide DeclarationsFor, Collect, SetOf;
    var p := Project(facts, issues, version);
    IssueInProjection(facts, issues, k, version);
    EpisodesFollowTimeline(facts, version, k, s);
    DeclaredIffLinked(facts, issues, version, k);
    var c := ChainFor(facts, k, version);
    forall e | e in c ensures EpisodeRight(e.0, p, facts, k) && (e.1.Some? ==> RecordRight(e.1.value, p, facts, k)) {
      EntryIsRight(facts, issues, version, k, e);
    }
    CollectedAreRight(c, p, facts, k);
  }

  /** And of an issue it was not asked for it says nothing. */
  lemma OtherIssuesAreLeftOut(facts: seq<Fact>, issues: set<IssueKey>, version: string, k: IssueKey)
    requires k !in issues
    ensures EpisodesOf(Project(facts, Some(issues), version), k) == []
    ensures RecordsOf(Project(facts, Some(issues), version), k) == []
  {
    IssueInProjection(facts, Some(issues), k, version);
  }

  // ----- the order of the episodes -----

  ghost predicate InIssueOrder(entries: seq<Entry>) {
    forall i, j :: 0 <= i < j < |entries| ==>
                     entries[i].0.issue == entries[j].0.issue || KeyBefore(entries[i].0.issue, entries[j].0.issue)
  }

  lemma EntriesConcat(a: seq<Entry>, b: seq<Entry>, k: IssueKey)
    requires InIssueOrder(a) && (forall x :: x in a ==> KeyBefore(x.0.issue, k)) && forall y :: y in b ==> y.0.issue == k
    ensures InIssueOrder(a + b)
  {
    hide KeyBefore;
    var all: seq<Entry> := a + b;
    forall i, j | 0 <= i < j < |all| ensures all[i].0.issue == all[j].0.issue || KeyBefore(all[i].0.issue, all[j].0.issue) {
      if |a| <= j {
        assert all[j] in b;
        assert if i < |a| then all[i] in a else all[i] in b;
      }
    }
  }

  lemma {:induction false} EntriesInOrder(facts: seq<Fact>, keys: seq<IssueKey>, version: string)
    requires forall i, j :: 0 <= i < j < |keys| ==> KeyBefore(keys[i], keys[j])
    ensures InIssueOrder(EntriesFor(facts, keys, version))
    ensures forall e :: e in EntriesFor(facts, keys, version) ==> e.0.issue in keys
  {
    if keys != [] {
      hide ChainFor, KeyBefore, InIssueOrder;
      var before, last := keys[..|keys| - 1], keys[|keys| - 1];
      assert keys == before + [last];
      EntriesInOrder(facts, before, version);
      OwnIssue(facts, last, version);
      var a := EntriesFor(facts, before, version);
      forall x | x in a ensures KeyBefore(x.0.issue, last) {
        var n :| 0 <= n < |before| && before[n] == x.0.issue;
        assert KeyBefore(keys[n], keys[|keys| - 1]);
      }
      EntriesConcat(a, ChainFor(facts, last, version), last);
    } else {
      assert InIssueOrder([]);
    }
  }

  /** Episodes come issue by issue, the issues in the order of their keys. */
  lemma EpisodesInIssueOrder(facts: seq<Fact>, issues: Option<set<IssueKey>>, version: string)
    ensures var episodes := Project(facts, issues, version).episodes;
            forall i, j :: 0 <= i < j < |episodes| ==>
                             episodes[i].issue == episodes[j].issue || KeyBefore(episodes[i].issue, episodes[j].issue)
  {
    hide SelectedIssues, ChainFor, KeyBefore, LinksFor;
    var keys := SelectedIssues(SetOf(facts), issues);
    var order := SortEndpoints(keys);
    forall i, j | 0 <= i < j < |order| ensures KeyBefore(order[i], order[j]) {
      NoDuplicates(order, keys, i, j);
      KeyOrder(order[i], order[j]);
    }
    EntriesInOrder(facts, order, version);
    EveryEntryAnEpisode(EntriesFor(facts, order, version));
  }
}
